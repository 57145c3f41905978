/**
  Writing the compatibility files on a filesystem where any operation may fail.

  The store directory is three directories and one file. Every operation takes the next fault from a plan, so a claim
  made of a method holds for every plan: that is, for every schedule of failures.
 */
module Install {
  import opened Basics
  import opened Store
  import opened Rendering
  import Pem

  /** `certs`, `certs.new` and `certs.previous`. */
  datatype Slot = Live | Staging | Previous

  /**
    What befalls one operation. `Unsupported` is the errors that send an exchange to the fallback; `Fails` names what
    a removal that gives up midway leaves behind.
   */
  datatype Fault = Fine | Unsupported | Fails(kept: set<string>)

  datatype Dirs = Dirs(live: Option<Dir>, staging: Option<Dir>, previous: Option<Dir>) {
    function At(slot: Slot): Option<Dir> {
      match slot case Live => live case Staging => staging case Previous => previous
    }

    function Put(slot: Slot, dir: Option<Dir>): Dirs {
      match slot
      case Live => this.(live := dir)
      case Staging => this.(staging := dir)
      case Previous => this.(previous := dir)
    }
  }

  /** What an attempt to install the staged directory may leave: the new store, the old, or the old set aside. */
  ghost predicate Installed(before: Dirs, after: Dirs, ok: bool) {
    if ok then after.live == before.staging && after.staging == None
    else
      || (after.live == before.live && after.staging == before.staging)
      || after.live == before.staging
      || (&& before.live.Some? && after.live == None
          && after.previous == before.live && after.staging == before.staging)
  }

  /** No reader ever saw a mixture: the live directory was absent, wholly old or wholly new. */
  ghost predicate NeverMixed(before: Dirs, seen: seq<Option<Dir>>, start: nat) {
    forall i | start <= i < |seen| :: seen[i] == None || seen[i] == before.live || seen[i] == before.staging
  }

  predicate Within(part: Dir, whole: Dir) {
    forall name | name in part :: name in whole && part[name] == whole[name]
  }

  lemma WithinSelf(dir: Dir)
    ensures Within(dir, dir)
  {}

  lemma WithinItself(dirs: Dirs)
    ensures dirs.live.Some? ==> Within(dirs.live.value, dirs.live.value)
  {}

  lemma NoneLeft(dir: Dir)
    requires dir.Keys == {}
    ensures dir == map[] && |dir| == 0
  {}

  /** Certificates have only been taken away, and the directories left. */
  predicate Withdrawn(before: Dirs, beforePem: Option<string>, after: Dirs, afterPem: Option<string>) {
    && (afterPem == None || afterPem == beforePem)
    && after == before.(live := after.live)
    && (after.live.Some? <==> before.live.Some?)
    && (after.live.Some? ==> Within(after.live.value, before.live.value))
  }

  /** A withdrawal that failed: nothing is gone, or the single file is and some of the directory may be. */
  predicate HalfWithdrawn(before: Dirs, beforePem: Option<string>, after: Dirs, afterPem: Option<string>) {
    || (after == before && afterPem == beforePem)
    || (&& afterPem == None && before.live.Some? && after.live.Some? && after == before.(live := after.live)
        && Within(after.live.value, before.live.value)
        && (after.live.value == map[] ==> before.live.value == map[]))
  }

  lemma OneFewer(dir: Dir, name: string, whole: Dir)
    requires name in dir && Within(dir, whole)
    ensures |dir - {name}| == |dir| - 1 && Within(dir - {name}, whole)
    ensures (dir - {name}).Keys < dir.Keys
  {
    assert (dir - {name}).Keys == dir.Keys - {name};
    assert |dir.Keys| == |dir| && |(dir - {name}).Keys| == |dir - {name}|;
  }

  class StoreDirectory {
    const plan: nat -> Fault
    /** How many faults of the plan have been used. */
    var tick: nat
    var dirs: Dirs
    var certPem: Option<string>
    /** The live directory after each operation, as any reader could have seen it. */
    ghost var seen: seq<Option<Dir>>

    constructor (plan: nat -> Fault, dirs: Dirs, certPem: Option<string>)
      ensures this.plan == plan && this.dirs == dirs && this.certPem == certPem && tick == 0 && seen == []
    {
      this.plan, this.dirs, this.certPem, tick, seen := plan, dirs, certPem, 0, [];
    }

    /** Nothing fails from here on. */
    ghost predicate Faultless()
      reads this
    {
      forall n: nat | n >= tick :: !FailsAt(n)
    }

    ghost predicate FailsAt(n: nat) {
      plan(n).Fails?
    }

    /** So many operations after the one at `start` do not fail. */
    ghost predicate NoFaults(start: nat, count: nat) {
      forall t | start < t <= start + count :: !FailsAt(t)
    }

    lemma OneMoreFaultless(start: nat, count: nat)
      requires NoFaults(start, count) && !FailsAt(start + 1 + count)
      ensures NoFaults(start, count + 1)
    {}

    /** Of the removals that begin at `start` with a listing, so many were made before one failed, or all of them. */
    ghost predicate Stopped(start: nat, before: Dir, removed: nat, after: Dir, ok: bool) {
      && |after| == |before| - removed
      && NoFaults(start, removed)
      && (ok ==> removed == |before|)
      && (!ok && !FailsAt(start) ==> FailsAt(start + 1 + removed))
    }

    method Draw() returns (fault: Fault)
      modifies `tick
      ensures fault == plan(old(tick)) && tick == old(tick) + 1 && (fault.Fails? <==> FailsAt(old(tick)))
    {
      fault := plan(tick);
      tick := tick + 1;
    }

    /** A directory moves onto an absent name, or onto an empty directory. */
    method Rename(from: Slot, to: Slot) returns (ok: bool)
      requires from != to
      modifies `tick, `dirs, `seen
      ensures old(Faultless()) ==> Faultless()
      ensures old(Faultless()) && old(dirs).At(from).Some? && old(dirs).At(to).None? ==> ok
      ensures ok ==> old(dirs).At(from).Some? && dirs == old(dirs).Put(to, old(dirs).At(from)).Put(from, None)
      ensures !ok ==> dirs == old(dirs)
      ensures seen == old(seen) + [dirs.live]
    {
      var fault := Draw();
      ok := !fault.Fails? && dirs.At(from).Some? && (dirs.At(to).None? || dirs.At(to).value == map[]);
      if ok {
        dirs := dirs.Put(to, dirs.At(from)).Put(from, None);
      }
      seen := seen + [dirs.live];
    }

    /** `RENAME_EXCHANGE` of the staged and the live directory. */
    method Swap() returns (result: Fault)
      requires dirs.staging.Some? && dirs.live.Some?
      modifies `tick, `dirs, `seen
      ensures old(Faultless()) ==> Faultless() && !result.Fails?
      ensures dirs == if result.Fine? then old(dirs).(live := old(dirs).staging, staging := old(dirs).live)
          else old(dirs)
      ensures seen == old(seen) + [dirs.live]
    {
      result := Draw();
      if result.Fine? {
        dirs := dirs.(live := dirs.staging, staging := dirs.live);
      }
      seen := seen + [dirs.live];
    }

    /** Remove a directory and all in it; one that is not there is no error. */
    method RemoveDirIfPresent(slot: Slot) returns (ok: bool)
      requires slot != Live
      modifies `tick, `dirs, `seen
      ensures old(Faultless()) ==> Faultless() && ok
      ensures dirs == old(dirs).Put(slot, dirs.At(slot)) && (ok ==> dirs.At(slot) == None)
      ensures seen == old(seen) + [dirs.live]
    {
      var fault := Draw();
      ok := !fault.Fails?;
      if ok {
        dirs := dirs.Put(slot, None);
      } else if dirs.At(slot).Some? {
        var dir := dirs.At(slot).value;
        dirs := dirs.Put(slot, Some(map name | name in dir && name in fault.kept :: dir[name]));
      }
      seen := seen + [dirs.live];
    }

    method RemoveEntry(slot: Slot, name: string) returns (ok: bool)
      requires dirs.At(slot).Some? && name in dirs.At(slot).value
      modifies `tick, `dirs, `seen
      ensures tick == old(tick) + 1 && (ok <==> !FailsAt(old(tick))) && (old(Faultless()) ==> Faultless() && ok)
      ensures dirs == if ok then old(dirs).Put(slot, Some(old(dirs).At(slot).value - {name})) else old(dirs)
      ensures seen == if ok then old(seen) + [dirs.live] else old(seen)
    {
      var fault := Draw();
      ok := !fault.Fails?;
      if ok {
        dirs := dirs.Put(slot, Some(dirs.At(slot).value - {name}));
        seen := seen + [dirs.live];
      }
    }

    /** Remove a directory's entries one by one, in no particular order, leaving the directory. */
    method EmptyDir(slot: Slot) returns (ok: bool, ghost removed: nat)
      requires dirs.At(slot).Some?
      modifies `tick, `dirs, `seen
      ensures old(Faultless()) ==> Faultless() && ok
      ensures dirs == old(dirs).Put(slot, dirs.At(slot)) && dirs.At(slot).Some?
      ensures Within(dirs.At(slot).value, old(dirs).At(slot).value)
      ensures ok ==> dirs.At(slot).value == map[]
      ensures !ok && dirs.At(slot).value == map[] ==> old(dirs).At(slot).value == map[]
      ensures Stopped(old(tick), old(dirs).At(slot).value, removed, dirs.At(slot).value, ok)
      ensures old(seen) <= seen
      ensures forall i | |old(seen)| <= i < |seen| :: Emptying(old(dirs), slot, seen[i])
    {
      var listing := Draw();
      removed := 0;
      if listing.Fails? {
        return false, 0;
      }
      assert old(Faultless()) ==> Faultless();
      hide Within, Emptying, NoFaults, Faultless, FailsAt;
      ghost var whole := dirs.At(slot).value;
      var dir := dirs.At(slot).value;
      WithinSelf(dir);
      while dir.Keys != {}
        invariant old(Faultless()) ==> Faultless()
        invariant dirs == old(dirs).Put(slot, Some(dir)) && Within(dir, whole)
        invariant tick == old(tick) + 1 + removed
        invariant |dir| == |whole| - removed
        invariant NoFaults(old(tick), removed)
        invariant old(seen) <= seen
        invariant forall i | |old(seen)| <= i < |seen| :: Emptying(old(dirs), slot, seen[i])
        decreases dir.Keys
      {
        var name :| name in dir.Keys;
        OneFewer(dir, name, whole);
        ghost var at := tick;
        ok := RemoveEntry(slot, name);
        assert at == old(tick) + 1 + removed && (ok <==> !FailsAt(at));
        if !ok {
          return false, removed;
        }
        OneMoreFaultless(old(tick), removed);
        dir, removed := dir - {name}, removed + 1;
        SeenEmptying(old(dirs), slot, dir);
      }
      NoneLeft(dir);
      ok := true;
    }

    method CreateDir(slot: Slot) returns (ok: bool)
      requires slot != Live && dirs.At(slot).None?
      modifies `tick, `dirs, `seen
      ensures old(Faultless()) ==> Faultless() && ok
      ensures dirs == if ok then old(dirs).Put(slot, Some(map[])) else old(dirs)
      ensures seen == old(seen) + [dirs.live]
    {
      var fault := Draw();
      ok := !fault.Fails?;
      if ok {
        dirs := dirs.Put(slot, Some(map[]));
      }
      seen := seen + [dirs.live];
    }

    /** A file in the staged directory, written whole or not at all. */
    method WriteStaged(name: string, text: string) returns (ok: bool)
      requires dirs.staging.Some? && (name in dirs.staging.value ==> dirs.staging.value[name].File?)
      modifies `tick, `dirs, `seen
      ensures old(Faultless()) ==> Faultless() && ok
      ensures dirs == if ok then old(dirs).(staging := Some(old(dirs).staging.value[name := File(text)])) else old(dirs)
      ensures seen == old(seen) + [dirs.live]
    {
      var fault := Draw();
      ok := !fault.Fails?;
      if ok {
        dirs := dirs.(staging := Some(dirs.staging.value[name := File(text)]));
      }
      seen := seen + [dirs.live];
    }

    method WriteCertPem(text: string) returns (ok: bool)
      modifies `tick, `certPem
      ensures old(Faultless()) ==> Faultless() && ok
      ensures certPem == if ok then Some(text) else old(certPem)
    {
      var fault := Draw();
      ok := !fault.Fails?;
      if ok {
        certPem := Some(text);
      }
    }

    method RemoveCertPem() returns (ok: bool)
      modifies `tick, `certPem
      ensures tick == old(tick) + 1 && (ok <==> !FailsAt(old(tick)))
      ensures old(Faultless()) ==> Faultless() && ok
      ensures certPem == if ok then None else old(certPem)
    {
      var fault := Draw();
      ok := !fault.Fails?;
      if ok {
        certPem := None;
      }
    }

    // ------------------------------------------------------------ installing

    /** Put the staged directory where the live one is, keeping the old one until the new is in place. */
    method ExchangeFallback() returns (ok: bool)
      requires dirs.staging.Some? && dirs.live.Some?
      modifies `tick, `dirs, `seen
      ensures old(Faultless()) ==> Faultless() && ok
      ensures Installed(old(dirs), dirs, ok)
      ensures ok ==> dirs.previous == None
      ensures old(seen) <= seen && NeverMixed(old(dirs), seen, |old(seen)|)
    {
      ok := RemoveDirIfPresent(Previous);
      if !ok {
        return;
      }
      ok := Rename(Live, Previous);
      if !ok {
        return;
      }
      ok := Rename(Staging, Live);
      if !ok {
        var restored := Rename(Previous, Live);
        return;
      }
      ok := RemoveDirIfPresent(Previous);
    }

    /** Put the staged directory where the live one is, in one step if the filesystem can. */
    method Exchange() returns (ok: bool)
      requires dirs.staging.Some?
      modifies `tick, `dirs, `seen
      ensures old(Faultless()) ==> Faultless() && ok
      ensures Installed(old(dirs), dirs, ok)
      ensures old(seen) <= seen && NeverMixed(old(dirs), seen, |old(seen)|)
    {
      if dirs.live.None? {
        ok := Rename(Staging, Live);
        return;
      }
      var swapped := Swap();
      if swapped.Unsupported? {
        ok := ExchangeFallback();
      } else if swapped.Fails? {
        ok := false;
      } else {
        ok := RemoveDirIfPresent(Staging);
      }
    }

    // ------------------------------------------------------------ rendering

    /** The sequence number a hash was last given, if any. */
    static method FindUsed(used: seq<(string, nat)>, hash: string) returns (k: nat)
      ensures k <= |used| && (k < |used| ==> used[k].0 == hash)
      ensures forall j | 0 <= j < k :: used[j].0 != hash
    {
      k := 0;
      while k < |used| && used[k].0 != hash
        invariant k <= |used| && forall j | 0 <= j < k :: used[j].0 != hash
      {
        k := k + 1;
      }
    }

    /** One PEM file per root in the staged directory, named by subject hash and sequence number. */
    method StageHashed(roots: seq<Entry>, base: Dir) returns (ok: bool)
      requires EightDigits(roots) && base.Keys == {BUNDLE_NAME} && base[BUNDLE_NAME].File?
      requires dirs.staging == Some(base)
      modifies `tick, `dirs, `seen
      ensures old(Faultless()) ==> Faultless() && ok
      ensures dirs == old(dirs).(staging := dirs.staging)
      ensures ok ==> dirs.staging == Some(Hashed(roots, base))
      ensures SameLive(old(seen), seen, old(dirs).live)
    {
      hide Hashed, HashedName, CountHash, Numbering, EightDigits;
      var used: seq<(string, nat)> := [];
      NothingHashed(base);
      for i := 0 to |roots|
        invariant old(Faultless()) ==> Faultless()
        invariant dirs == old(dirs).(staging := Some(Hashed(roots[..i], base)))
        invariant Numbering(used, roots[..i])
        invariant SameLive(old(seen), seen, old(dirs).live)
      {
        var e := roots[i];
        var hash := e.parsed.subjectHash;
        var k := FindUsed(used, hash);
        var sequence := 0;
        assert roots[..i + 1] == roots[..i] + [e];
        NextNumber(used, roots[..i], e, k);
        if k < |used| {
          sequence := used[k].1 + 1;
          used := used[k := (hash, sequence)];
        } else {
          used := used + [(hash, 0)];
        }
        var text := Pem.WritePem(e.parsed.der);
        OnlyFiles(roots[..i], base);
        HashedStep(roots[..i], e, base);
        ok := WriteStaged(HashedName(hash, sequence), text);
        if !ok {
          return;
        }
      }
      assert roots[..|roots|] == roots;
      ok := true;
    }

    /** Empty the staged directory, or make it, and fill it with the bundle and the hashed files. */
    method Stage(chosen: seq<Entry>, text: string) returns (ok: bool)
      requires EightDigits(chosen) && text == Bundle(chosen)
      modifies `tick, `dirs, `seen
      ensures old(Faultless()) ==> Faultless() && ok
      ensures dirs == old(dirs).(staging := dirs.staging)
      ensures ok ==> dirs.staging == Some(CertsDir(chosen))
      ensures SameLive(old(seen), seen, old(dirs).live)
    {
      hide Bundle, CertsDir, Hashed, BUNDLE_NAME, EightDigits;
      if dirs.staging.Some? {
        ghost var removed;
        ok, removed := EmptyDir(Staging);
      } else {
        ok := CreateDir(Staging);
      }
      if !ok {
        return;
      }
      ok := WriteStaged(BUNDLE_NAME, text);
      if !ok {
        return;
      }
      CertsDirIs(chosen);
      ok := StageHashed(chosen, map[BUNDLE_NAME := File(text)]);
    }

    /** Take the certificates out of both live paths, leaving the directory. */
    method Withdraw() returns (ok: bool, ghost removed: nat)
      modifies `tick, `dirs, `seen, `certPem
      ensures old(Faultless()) ==> Faultless() && ok
      ensures ok ==> certPem == None && (dirs.live.Some? ==> dirs.live.value == map[])
      ensures Withdrawn(old(dirs), old(certPem), dirs, certPem)
      ensures !ok ==> HalfWithdrawn(old(dirs), old(certPem), dirs, certPem)
      ensures !FailsAt(old(tick)) && old(dirs).live.Some? ==>
                Stopped(old(tick) + 1, old(dirs).live.value, removed, dirs.live.value, ok)
      ensures old(seen) <= seen && forall k | |old(seen)| <= k < |seen| :: Emptying(old(dirs), Live, seen[k])
    {
      hide Stopped, Within, Emptying;
      WithinItself(dirs);
      removed := 0;
      ok := RemoveCertPem();
      if ok && dirs.live.Some? {
        ok, removed := EmptyDir(Live);
      }
    }

    /** Write the files for the composed roots, or remove them. */
    method Render(roots: seq<Entry>, compat: Compat) returns (ok: bool)
      requires EightDigits(roots)
      modifies `tick, `dirs, `seen, `certPem
      ensures old(Faultless()) ==> Faultless() && ok
      ensures ok ==> Rendered(dirs, certPem, roots, compat)
      ensures ok && !compat.NoFiles? ==>
                exists chosen :: Selection(roots, Some("ServerAuth"), chosen) && Shown(dirs, certPem, chosen)
      ensures old(seen) <= seen && forall k | |old(seen)| <= k < |seen| :: MaySee(old(dirs), roots, compat, seen[k])
      ensures compat.NoFiles? ==> Withdrawn(old(dirs), old(certPem), dirs, certPem)
      ensures compat.NoFiles? && !ok ==> HalfWithdrawn(old(dirs), old(certPem), dirs, certPem)
      ensures !ok && !compat.NoFiles? ==>
                && certPem == old(certPem)
                && (|| dirs.live == old(dirs).live
                    || dirs.live == Some(CertsDir(ServerAuth(roots)))
                    || (dirs.live == None && dirs.previous == old(dirs).live))
    {
      ServerAuthDigits(roots);
      hide Bundle, CertsDir, ServerAuth, EightDigits, Emptying, Within, Stopped, Withdrawn, HalfWithdrawn;
      if compat.NoFiles? {
        ghost var removed;
        ok, removed := Withdraw();
        return;
      }
      var chosen := ServerAuth(roots);
      var text := BundleForRoots(chosen);
      ok := Stage(chosen, text);
      if !ok {
        return;
      }
      ok := Exchange();
      if !ok {
        return;
      }
      ok := WriteCertPem(text);
      RenderedAreServing(dirs, certPem, roots, compat);
    }
  }

  /**
    The one way to a store that is neither old nor new: files being withdrawn one by one, until a removal fails. Of any
    two files or more all but one are left, and nothing puts it right before the next rendering.
   */
  method WithdrawHalfway(dirs: Dirs, certPem: Option<string>) returns (store: StoreDirectory, ok: bool)
    requires dirs.live.Some? && |dirs.live.value| >= 2
    ensures !ok && store.certPem == None && store.dirs == dirs.(live := store.dirs.live) && store.dirs.live.Some?
    ensures Within(store.dirs.live.value, dirs.live.value) && |store.dirs.live.value| == |dirs.live.value| - 1
  {
    store := new StoreDirectory((n: nat) => if n == 3 then Fails({}) else Fine, dirs, certPem);
    assert !store.FailsAt(0) && !store.FailsAt(1) && !store.FailsAt(2) && store.FailsAt(3);
    ghost var removed;
    ok, removed := store.Withdraw();
  }

  // ---------------------------------------------------------------- what rendering leaves

  /** The roots that are rendered, in both the single bundle and the directory. */
  function ServerAuth(roots: seq<Entry>): seq<Entry> {
    RootsForPurpose(roots, SERVER_AUTH)
  }

  lemma ServerAuthDigits(roots: seq<Entry>)
    requires EightDigits(roots)
    ensures EightDigits(ServerAuth(roots))
  {}

  /** The files are exactly the rendering of these roots in this mode. */
  ghost predicate Rendered(dirs: Dirs, certPem: Option<string>, roots: seq<Entry>, compat: Compat) {
    if compat.NoFiles? then
      certPem == None && (dirs.live.Some? ==> dirs.live.value == map[])
    else
      && dirs.live == Some(CertsDir(ServerAuth(roots)))
      && certPem == Some(Bundle(ServerAuth(roots)))
      && dirs.staging == None
  }

  /** The live paths hold exactly these roots. */
  ghost predicate Shown(dirs: Dirs, certPem: Option<string>, chosen: seq<Entry>) {
    dirs.live == Some(CertsDir(chosen)) && certPem == Some(Bundle(chosen)) && dirs.staging == None
  }

  /** What is rendered are the roots with the purpose "ServerAuth" in any case, in the order of the set, each once. */
  lemma {:induction false} RenderedAreServing(dirs: Dirs, certPem: Option<string>, roots: seq<Entry>, compat: Compat)
    requires !compat.NoFiles?
    ensures Selection(roots, Some("ServerAuth"), ServerAuth(roots))
    ensures Rendered(dirs, certPem, roots, compat)
       <==> exists chosen :: Selection(roots, Some("ServerAuth"), chosen) && Shown(dirs, certPem, chosen)
  {
    hide Bundle, CertsDir, Selection;
    var at := RootsForPurposeSelects(roots, SERVER_AUTH);
    if chosen :| Selection(roots, Some("ServerAuth"), chosen) && Shown(dirs, certPem, chosen) {
      SelectionUnique(roots, Some("ServerAuth"), chosen, ServerAuth(roots));
    }
    if Rendered(dirs, certPem, roots, compat) {
      assert Shown(dirs, certPem, ServerAuth(roots));
    }
  }

  /** Nothing since has changed what a reader sees. */
  ghost predicate SameLive(before: seq<Option<Dir>>, after: seq<Option<Dir>>, live: Option<Dir>) {
    before <= after && forall k | |before| <= k < |after| :: after[k] == live
  }

  /** Part way through emptying `slot`, a reader finds some of what was there, and elsewhere all of it. */
  ghost predicate Emptying(before: Dirs, slot: Slot, s: Option<Dir>) {
    if slot == Live && before.live.Some? then s.Some? && Within(s.value, before.live.value) else s == before.live
  }

  lemma SeenEmptying(before: Dirs, slot: Slot, part: Dir)
    requires before.At(slot).Some? && Within(part, before.At(slot).value)
    ensures Emptying(before, slot, before.Put(slot, Some(part)).live)
  {}

  /** What a reader may find in the live directory while it is being rendered. */
  ghost predicate MaySee(before: Dirs, roots: seq<Entry>, compat: Compat, s: Option<Dir>) {
    if compat.NoFiles? then Emptying(before, Live, s)
    else s == None || s == before.live || s == Some(CertsDir(ServerAuth(roots)))
  }

  lemma CertsDirIs(roots: seq<Entry>)
    ensures CertsDir(roots) == Hashed(roots, map[BUNDLE_NAME := File(Bundle(roots))])
  {}

  // ---------------------------------------------------------------- numbering

  /** The `used` list: each hash met, once, with the last number it was given. */
  ghost predicate Numbering(used: seq<(string, nat)>, roots: seq<Entry>) {
    && (forall k | 0 <= k < |used| :: CountHash(roots, used[k].0) == used[k].1 + 1)
    && (forall j, k | 0 <= j < k < |used| :: used[j].0 != used[k].0)
    && (forall hash :: (forall k | 0 <= k < |used| :: used[k].0 != hash) ==> CountHash(roots, hash) == 0)
  }

  lemma NothingHashed(base: Dir)
    ensures Hashed([], base) == base && Numbering([], [])
  {}

  lemma HashedStep(front: seq<Entry>, e: Entry, base: Dir)
    ensures Hashed(front + [e], base) ==
            Hashed(front, base)[HashedName(e.parsed.subjectHash, CountHash(front, e.parsed.subjectHash))
                                := File(Pem.ToPem(e.parsed.der))]
  {
    assert (front + [e])[..|front|] == front;
  }

  lemma CountStep(front: seq<Entry>, e: Entry, hash: string)
    ensures CountHash(front + [e], hash) == CountHash(front, hash) + if e.parsed.subjectHash == hash then 1 else 0
  {
    assert (front + [e])[..|front|] == front;
  }

  /** The number the loop picks is how many earlier roots share the hash, and the list stays right. */
  lemma {:induction false} NextNumber(used: seq<(string, nat)>, front: seq<Entry>, e: Entry, k: nat)
    requires Numbering(used, front) && k <= |used|
    requires k < |used| ==> used[k].0 == e.parsed.subjectHash
    requires forall j | 0 <= j < k :: used[j].0 != e.parsed.subjectHash
    ensures
      var hash := e.parsed.subjectHash;
      if k < |used| then
        && CountHash(front, hash) == used[k].1 + 1
        && Numbering(used[k := (hash, used[k].1 + 1)], front + [e])
      else
        CountHash(front, hash) == 0 && Numbering(used + [(hash, 0)], front + [e])
  {
    hide CountHash;
    var hash := e.parsed.subjectHash;
    forall h ensures CountHash(front + [e], h) == CountHash(front, h) + if hash == h then 1 else 0 {
      CountStep(front, e, h);
    }
    if k < |used| {
      var next := used[k := (hash, used[k].1 + 1)];
      forall h | forall j | 0 <= j < |next| :: next[j].0 != h ensures CountHash(front + [e], h) == 0 {
        assert next[k].0 == hash;
        assert forall j | 0 <= j < |used| :: used[j].0 == next[j].0;
      }
    } else {
      var next := used + [(hash, 0)];
      forall h | forall j | 0 <= j < |next| :: next[j].0 != h ensures CountHash(front + [e], h) == 0 {
        assert next[|used|].0 == hash;
        assert forall j | 0 <= j < |used| :: used[j].0 == next[j].0;
      }
    }
  }

  lemma {:induction false} OnlyFiles(roots: seq<Entry>, base: Dir)
    requires forall name | name in base :: base[name].File?
    ensures forall name | name in Hashed(roots, base) :: Hashed(roots, base)[name].File?
  {
    if roots != [] {
      OnlyFiles(roots[..|roots| - 1], base);
    }
  }
}
