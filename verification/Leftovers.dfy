/**
  What a store is left as when rendering it fails: whole, over every run in which files are rendered, and in part
  exactly where they are withdrawn.
 */
module Leftovers {
  import opened Basics
  import opened Store
  import opened Messages
  import opened Rendering
  import opened Install
  import opened Daemon
  import opened Runs
  import Audit
  import Service

  // ---------------------------------------------------------------- whole while files are rendered

  /** The set composed after some of the events. */
  ghost predicate ComposedIn(parse: Parser, config: Config, files: Disk, events: seq<Event>, roots: seq<Entry>) {
    exists k :: 0 <= k <= |events| && ComposedAt(parse, config, files, events[..k], roots)
  }

  ghost predicate ComposedAt(parse: Parser, config: Config, files: Disk, events: seq<Event>, roots: seq<Entry>) {
    var s := Run(parse, true, Start(config, files), events);
    s.composedOnce && s.composed.roots == roots
  }

  /** No event finds the files switched off. */
  ghost predicate AlwaysRendering(events: seq<Event>) {
    forall v | v in events && !v.Departed? && v.found.config.Some? :: !v.found.config.value.compat.NoFiles?
  }

  /** The live directory is absent, as it was in the beginning, or wholly the rendering of these roots. */
  ghost predicate WholeDir(files: Disk, now: Disk, roots: seq<Entry>) {
    || now.dirs.live == None || now.dirs.live == files.dirs.live
    || now.dirs.live == Some(CertsDir(ServerAuth(roots)))
  }

  ghost predicate WholePem(files: Disk, now: Disk, roots: seq<Entry>) {
    now.certPem == files.certPem || now.certPem == Some(Bundle(ServerAuth(roots)))
  }

  lemma {:induction false} ComposedEarlier(parse: Parser, config: Config, files: Disk, events: seq<Event>,
                                           roots: seq<Entry>)
    requires events != [] && ComposedIn(parse, config, files, events[..|events| - 1], roots)
    ensures ComposedIn(parse, config, files, events, roots)
  {
    hide ComposedAt;
    var front := events[..|events| - 1];
    var k :| 0 <= k <= |front| && ComposedAt(parse, config, files, front[..k], roots);
    assert front[..k] == events[..k];
  }

  lemma ComposedNow(parse: Parser, config: Config, files: Disk, events: seq<Event>)
    requires Run(parse, true, Start(config, files), events).composedOnce
    ensures ComposedIn(parse, config, files, events, Run(parse, true, Start(config, files), events).composed.roots)
  {
    hide Run;
    assert events[..|events|] == events;
    assert ComposedAt(parse, config, files, events[..|events|],
                      Run(parse, true, Start(config, files), events).composed.roots);
  }

  /** What one step leaves on disk while files are rendered: what was there, no directory, or the whole new set. */
  lemma {:induction false} StepLeaves(parse: Parser, s: State, v: Event)
    requires Possible(parse, v)
    requires !v.Departed? && v.found.config.Some? ==> !v.found.config.value.compat.NoFiles?
    ensures var t := Step(parse, true, s, v);
            && (|| t.files.dirs.live == s.files.dirs.live || t.files.dirs.live == None
                || (t.composedOnce && t.files.dirs.live == Some(CertsDir(ServerAuth(t.composed.roots)))))
            && (|| t.files.certPem == s.files.certPem
                || (t.composedOnce && t.files.certPem == Some(Bundle(ServerAuth(t.composed.roots)))))
  {
    hide Compose, CertsDir, Bundle, ServerAuth, Delivered, Project, RenderedPaths, Audit.Changes;
    if Composes(parse, v).Some? {
      assert TrueRendition(Composes(parse, v).value.roots, v.found.config.value.compat, s.files, v.renders(s.files));
    }
  }

  /**
    Over any run in which files are rendered, renderings failing at any point, the live directory is absent, as it was
    in the beginning, or wholly the rendering of one set composed in the run; and so is the single file, which is never
    lost.
   */
  lemma {:induction false} NeverPartial(parse: Parser, config: Config, files: Disk, events: seq<Event>)
    returns (dir: seq<Entry>, pem: seq<Entry>)
    requires AllPossible(parse, events) && AlwaysRendering(events)
    ensures var s := Run(parse, true, Start(config, files), events);
            && WholeDir(files, s.files, dir) && WholePem(files, s.files, pem)
            && (s.files.dirs.live == None || s.files.dirs.live == files.dirs.live
                || ComposedIn(parse, config, files, events, dir))
            && (s.files.certPem == files.certPem || ComposedIn(parse, config, files, events, pem))
  {
    hide Step, CertsDir, Bundle, ServerAuth, Possible, ComposedIn;
    dir, pem := [], [];
    if events != [] {
      var front, v := events[..|events| - 1], events[|events| - 1];
      var s := Run(parse, true, Start(config, files), front);
      var t := Run(parse, true, Start(config, files), events);
      assert forall u | u in front :: u in events;
      dir, pem := NeverPartial(parse, config, files, front);
      StepLeaves(parse, s, v);
      if ComposedIn(parse, config, files, front, dir) {
        ComposedEarlier(parse, config, files, events, dir);
      }
      if ComposedIn(parse, config, files, front, pem) {
        ComposedEarlier(parse, config, files, events, pem);
      }
      if t.composedOnce {
        ComposedNow(parse, config, files, events);
      }
      if t.files.dirs.live != s.files.dirs.live && t.files.dirs.live != None {
        dir := t.composed.roots;
      }
      if t.files.certPem != s.files.certPem {
        pem := t.composed.roots;
      }
    }
  }

  // ---------------------------------------------------------------- in part

  /** The live directory is neither as it was, nor absent, nor emptied, nor wholly the rendering of these roots. */
  ghost predicate LeavesPart(before: Option<Dir>, roots: seq<Entry>, after: Option<Dir>) {
    after.Some? && after != before && after != Some(map[]) && after != Some(CertsDir(ServerAuth(roots)))
  }

  /** There are two files or more, so that some can go and some stay. */
  predicate Divisible(dir: Option<Dir>) {
    dir.Some? && |dir.value| >= 2
  }

  lemma PartIsSmaller(part: Dir, whole: Dir)
    requires Within(part, whole)
    ensures |part| <= |whole| && (|part| == |whole| ==> part == whole)
  {
    assert part.Keys <= whole.Keys;
    Subset(part.Keys, whole.Keys);
    assert |part.Keys| == |part| && |whole.Keys| == |whole|;
  }

  lemma {:induction false} Subset(a: set<string>, b: set<string>)
    requires a <= b
    ensures |a| <= |b| && (|a| == |b| ==> a == b)
  {
    assert b == a + (b - a) && |b| == |a| + |b - a|;
  }

  /** One of two files goes, so that what stays is not these roots' rendering. */
  lemma {:induction false} SomePart(roots: seq<Entry>, before: Disk) returns (r: Rendition)
    requires Divisible(before.dirs.live)
    ensures TrueRendition(roots, NoFiles, before, r) && LeavesPart(before.dirs.live, roots, r.files.dirs.live)
  {
    hide CertsDir, ServerAuth;
    var whole := before.dirs.live.value;
    var a :| a in whole.Keys;
    assert |whole.Keys - {a}| == |whole.Keys| - 1;
    var b :| b in whole.Keys - {a};
    var p, q := whole - {a}, whole - {b};
    assert b in p && b !in q;
    assert a in q && a !in p;
    var part := if p == CertsDir(ServerAuth(roots)) then q else p;
    r := Rendition(false, Disk(before.dirs.(live := Some(part)), None));
  }

  /** A rendering can leave part of a store exactly when it withdraws two files or more. */
  lemma {:induction false} PartPossible(roots: seq<Entry>, compat: Compat, before: Disk)
    ensures (exists r :: TrueRendition(roots, compat, before, r)
                         && LeavesPart(before.dirs.live, roots, r.files.dirs.live))
       <==> compat.NoFiles? && Divisible(before.dirs.live)
  {
    hide CertsDir, ServerAuth, Bundle;
    if compat.NoFiles? && Divisible(before.dirs.live) {
      var r := SomePart(roots, before);
    }
    if r :| TrueRendition(roots, compat, before, r) && LeavesPart(before.dirs.live, roots, r.files.dirs.live) {
      PartWithdrawn(roots, compat, before, r);
    }
  }

  lemma {:induction false} PartWithdrawn(roots: seq<Entry>, compat: Compat, before: Disk, r: Rendition)
    requires TrueRendition(roots, compat, before, r) && LeavesPart(before.dirs.live, roots, r.files.dirs.live)
    ensures !r.ok && compat.NoFiles? && Divisible(before.dirs.live)
    ensures Within(r.files.dirs.live.value, before.dirs.live.value)
    ensures 0 < |r.files.dirs.live.value| < |before.dirs.live.value|
  {
    hide CertsDir, ServerAuth, Bundle, Within;
    var part := r.files.dirs.live.value;
    PartIsSmaller(part, before.dirs.live.value);
  }

  // ---------------------------------------------------------------- over runs

  /** The event composes in a mode without files. */
  predicate Withdraws(parse: Parser, v: Event) {
    Composes(parse, v).Some? && v.found.config.value.compat.NoFiles?
  }

  /** The event composes in a mode with files, and there are roots to put in them. */
  predicate Fills(parse: Parser, v: Event) {
    && Composes(parse, v).Some? && !v.found.config.value.compat.NoFiles?
    && ServerAuth(Composes(parse, v).value.roots) != []
  }

  /** What a step can do to the live directory. */
  lemma {:induction false} StepLive(parse: Parser, s: State, v: Event)
    requires Possible(parse, v)
    ensures var before, after := s.files.dirs.live, Step(parse, true, s, v).files.dirs.live;
            || after == before || after == None || after == Some(map[])
            || (&& Composes(parse, v).Some? && !v.found.config.value.compat.NoFiles?
                && after == Some(CertsDir(ServerAuth(Composes(parse, v).value.roots))))
            || (Withdraws(parse, v) && before.Some? && after.Some? && Within(after.value, before.value))
  {
    hide Compose, CertsDir, Bundle, ServerAuth, Delivered, Project, RenderedPaths, Audit.Changes, Within;
    if Composes(parse, v).Some? {
      assert TrueRendition(Composes(parse, v).value.roots, v.found.config.value.compat, s.files, v.renders(s.files));
    }
  }

  /** A step that leaves part of a store withdraws one of two files or more, leaves some of them, and says so. */
  lemma {:induction false} StepLeavesPart(parse: Parser, s: State, v: Event)
    requires Possible(parse, v)
    ensures var t := Step(parse, true, s, v);
            LeavesPart(s.files.dirs.live, t.composed.roots, t.files.dirs.live) ==>
              && Withdraws(parse, v) && Divisible(s.files.dirs.live) && t.health == Degraded
              && Within(t.files.dirs.live.value, s.files.dirs.live.value)
              && 0 < |t.files.dirs.live.value| < |s.files.dirs.live.value|
  {
    hide Compose, CertsDir, Bundle, ServerAuth, Delivered, Project, RenderedPaths, Audit.Changes, Within, Divisible,
         TrueRendition, LeavesPart;
    var t := Step(parse, true, s, v);
    if LeavesPart(s.files.dirs.live, t.composed.roots, t.files.dirs.live) {
      SameIsNoPart(s.files.dirs.live, t.composed.roots);
      var roots, compat := Composes(parse, v).value.roots, v.found.config.value.compat;
      assert TrueRendition(roots, compat, s.files, v.renders(s.files));
      PartWithdrawn(roots, compat, s.files, v.renders(s.files));
    }
  }

  lemma SameIsNoPart(live: Option<Dir>, roots: seq<Entry>)
    ensures !LeavesPart(live, roots, live)
  {}

  /** There were two files or more to begin with, or some event fills the directory. */
  ghost predicate Filled(parse: Parser, files: Disk, events: seq<Event>) {
    Divisible(files.dirs.live) || exists j :: 0 <= j < |events| && Fills(parse, events[j])
  }

  /** Some event withdraws a directory that was filled before. */
  ghost predicate WithdrawsFilled(parse: Parser, files: Disk, events: seq<Event>) {
    exists k :: 0 <= k < |events| && Withdraws(parse, events[k]) && Filled(parse, files, events[..k])
  }

  lemma {:induction false} FilledMore(parse: Parser, files: Disk, events: seq<Event>)
    requires events != []
    ensures Filled(parse, files, events)
       <==> Filled(parse, files, events[..|events| - 1]) || Fills(parse, events[|events| - 1])
  {
    hide Fills;
    var front := events[..|events| - 1];
    if j :| 0 <= j < |front| && Fills(parse, front[j]) {
      assert Fills(parse, events[j]);
    }
    if j :| 0 <= j < |events| && Fills(parse, events[j]) {
      assert j < |front| ==> front[j] == events[j];
    }
  }

  /** One file is rendered where there are no roots, and more where there are. */
  lemma {:induction false} CertsDirDivides(roots: seq<Entry>)
    requires EightDigits(roots)
    ensures Divisible(Some(CertsDir(roots))) <==> roots != []
  {
    hide CertsDir, EightDigits, LooksUp, Bundle;
    CertsDirExact(roots);
  }

  lemma {:induction false} ComposesDigits(parse: Parser, v: Event)
    requires Service.PrintsHashes(parse) && Composes(parse, v).Some?
    ensures EightDigits(ServerAuth(Composes(parse, v).value.roots))
  {
    hide Compose, EightDigits, ServerAuth, Service.PrintsHashes;
    Service.ComposedDigits(parse, v.found.bundle.value, v.found.config.value, v.found.now);
    ServerAuthDigits(Composes(parse, v).value.roots);
  }

  /** A directory of two files or more was there or has been filled. */
  lemma {:induction false} DividesOnlyFilled(parse: Parser, config: Config, files: Disk, events: seq<Event>)
    requires Service.PrintsHashes(parse) && AllPossible(parse, events)
    ensures Divisible(Run(parse, true, Start(config, files), events).files.dirs.live) ==> Filled(parse, files, events)
  {
    hide Step, Possible, Filled, Composes, CertsDir, ServerAuth, Within, EightDigits, Service.PrintsHashes;
    if events == [] {
      assert Filled(parse, files, events) <== Divisible(files.dirs.live) by { NothingYet(parse, files); }
    } else {
      var front, v := events[..|events| - 1], events[|events| - 1];
      var s := Run(parse, true, Start(config, files), front);
      var t := Step(parse, true, s, v);
      assert forall u | u in front :: u in events;
      DividesOnlyFilled(parse, config, files, front);
      FilledMore(parse, files, events);
      StepLive(parse, s, v);
      if Composes(parse, v).Some? {
        ComposesDigits(parse, v);
        CertsDirDivides(ServerAuth(Composes(parse, v).value.roots));
      }
      if s.files.dirs.live.Some? && t.files.dirs.live.Some?
         && Within(t.files.dirs.live.value, s.files.dirs.live.value) {
        PartIsSmaller(t.files.dirs.live.value, s.files.dirs.live.value);
      }
    }
  }

  lemma NothingYet(parse: Parser, files: Disk)
    ensures Filled(parse, files, []) <==> Divisible(files.dirs.live)
  {}

  // ---------------------------------------------------------------- when a run can be left with part of a store

  /** The same happens, but for what renderings come to. */
  ghost predicate Retold(v: Event, w: Event) {
    if v.Departed? then w == v else !w.Departed? && w == v.(renders := w.renders)
  }

  ghost predicate Alike(events: seq<Event>, told: seq<Event>) {
    |told| == |events| && forall i | 0 <= i < |events| :: Retold(events[i], told[i])
  }

  /** Some step of the run leaves part of a store. */
  ghost predicate LeftInPart(parse: Parser, config: Config, files: Disk, events: seq<Event>) {
    exists k :: 0 <= k < |events| && LeftInPartAt(parse, config, files, events, k)
  }

  ghost predicate LeftInPartAt(parse: Parser, config: Config, files: Disk, events: seq<Event>, k: nat)
    requires k < |events|
  {
    var s := Run(parse, true, Start(config, files), events[..k]);
    var t := Step(parse, true, s, events[k]);
    LeavesPart(s.files.dirs.live, t.composed.roots, t.files.dirs.live)
  }

  ghost predicate CanBeLeftInPart(parse: Parser, config: Config, files: Disk, events: seq<Event>) {
    exists told :: Alike(events, told) && AllPossible(parse, told) && LeftInPart(parse, config, files, told)
  }

  function Succeeding(roots: seq<Entry>): Renders {
    (before: Disk) =>
      Rendition(true, Disk(Dirs(Some(CertsDir(ServerAuth(roots))), None, None), Some(Bundle(ServerAuth(roots)))))
  }

  /** The event, with a rendering that succeeds where it fills the directory, and fails at once where it does not. */
  function Filling(parse: Parser, v: Event): Event {
    if v.Departed? then v
    else if Fills(parse, v) then v.(renders := Succeeding(Composes(parse, v).value.roots))
    else v.(renders := Service.NotRendered)
  }

  function AllFilling(parse: Parser, events: seq<Event>): (r: seq<Event>)
    ensures |r| == |events| && forall i | 0 <= i < |events| :: r[i] == Filling(parse, events[i])
  {
    seq(|events|, i requires 0 <= i < |events| => Filling(parse, events[i]))
  }

  lemma {:induction false} FillingIsPossible(parse: Parser, v: Event)
    ensures Possible(parse, Filling(parse, v)) && Retold(v, Filling(parse, v))
  {
    hide Compose, CertsDir, Bundle, ServerAuth, TrueRendition;
    var w := Filling(parse, v);
    if !v.Departed? {
      if Fills(parse, v) {
        forall before ensures TrueRendition(Composes(parse, v).value.roots, v.found.config.value.compat, before,
                                            w.renders(before)) {
          WholeIsTrue(Composes(parse, v).value.roots, v.found.config.value.compat, before);
        }
      } else {
        Service.NoRenderIsTrue(parse, v.found);
      }
    }
  }

  lemma WholeIsTrue(roots: seq<Entry>, compat: Compat, before: Disk)
    requires !compat.NoFiles?
    ensures TrueRendition(roots, compat, before, Succeeding(roots)(before))
  {}

  /** Such an event fills the directory, or leaves the disk as it is. */
  lemma {:induction false} FillingStep(parse: Parser, s: State, v: Event)
    requires Invariant(s)
    ensures var t := Step(parse, true, s, Filling(parse, v));
            t.files.dirs.live == if Fills(parse, v) then Some(CertsDir(ServerAuth(Composes(parse, v).value.roots)))
                                 else s.files.dirs.live
  {
    hide Compose, CertsDir, Bundle, ServerAuth, Delivered, Project, RenderedPaths, Audit.Changes, Increasing;
    if Fills(parse, v) {
      ComposedRoots(parse, v.found.bundle.value, v.found.config.value, v.found.now);
    }
  }

  lemma {:induction false} FilledDivides(parse: Parser, config: Config, files: Disk, events: seq<Event>)
    requires Service.PrintsHashes(parse) && Filled(parse, files, events)
    ensures Divisible(Run(parse, true, Start(config, files), AllFilling(parse, events)).files.dirs.live)
  {
    hide Step, Possible, Invariant, Filled, Filling, Fills, Composes, CertsDir, ServerAuth, EightDigits, Divisible,
         Service.PrintsHashes;
    if events == [] {
      NothingYet(parse, files);
    } else {
      var front, v := events[..|events| - 1], events[|events| - 1];
      var told := AllFilling(parse, events);
      assert told[..|front|] == AllFilling(parse, front);
      FilledMore(parse, files, events);
      AllFillingPossible(parse, front);
      RunKeeps(parse, true, config, files, AllFilling(parse, front));
      FillingStep(parse, Run(parse, true, Start(config, files), AllFilling(parse, front)), v);
      if Fills(parse, v) {
        FilledWhole(parse, v);
      } else {
        FilledDivides(parse, config, files, front);
      }
    }
  }

  lemma {:induction false} FilledWhole(parse: Parser, v: Event)
    requires Service.PrintsHashes(parse) && Fills(parse, v)
    ensures Divisible(Some(CertsDir(ServerAuth(Composes(parse, v).value.roots))))
  {
    hide Composes, CertsDir, ServerAuth, EightDigits, Divisible, Service.PrintsHashes;
    ComposesDigits(parse, v);
    CertsDirDivides(ServerAuth(Composes(parse, v).value.roots));
  }

  lemma {:induction false} AllFillingPossible(parse: Parser, events: seq<Event>)
    ensures AllPossible(parse, AllFilling(parse, events)) && Alike(events, AllFilling(parse, events))
  {
    hide Possible, Filling, Retold;
    forall i | 0 <= i < |events|
      ensures Possible(parse, Filling(parse, events[i]))
      ensures Retold(events[i], Filling(parse, events[i]))
    {
      FillingIsPossible(parse, events[i]);
    }
  }

  /** A withdrawal of two files or more can stop with some of them left. */
  lemma {:induction false} TornEvent(parse: Parser, s: State, v: Event) returns (w: Event)
    requires Invariant(s) && Withdraws(parse, v) && Divisible(s.files.dirs.live)
    ensures Possible(parse, w) && Retold(v, w)
    ensures var t := Step(parse, true, s, w); LeavesPart(s.files.dirs.live, t.composed.roots, t.files.dirs.live)
  {
    hide Compose, CertsDir, Bundle, ServerAuth, Delivered, Project, RenderedPaths, Audit.Changes, Increasing,
         TrueRendition, LeavesPart;
    var roots := Composes(parse, v).value.roots;
    ComposedRoots(parse, v.found.bundle.value, v.found.config.value, v.found.now);
    var r := SomePart(roots, s.files);
    Service.SeenIsTrue(parse, v.found, s.files, r);
    w := v.(renders := Service.SeenOn(s.files, r));
    EmptiedIsNotDivisible(s, v.found.config.value, Composes(parse, v).value);
  }

  lemma EmptiedIsNotDivisible(s: State, loaded: Config, composed: Composed)
    requires Invariant(s) && loaded.compat.NoFiles? && composed.roots != [] && Divisible(s.files.dirs.live)
    ensures !Unchanged(s, loaded, composed)
  {}

  lemma {:induction false} WithdrawalCanBeTorn(parse: Parser, config: Config, files: Disk, events: seq<Event>)
    requires Service.PrintsHashes(parse) && WithdrawsFilled(parse, files, events)
    ensures CanBeLeftInPart(parse, config, files, events)
  {
    hide Step, Possible, Invariant, Filled, Filling, Withdraws, Retold, Divisible, LeavesPart,
         Service.PrintsHashes;
    var k :| 0 <= k < |events| && Withdraws(parse, events[k]) && Filled(parse, files, events[..k]);
    var filling := AllFilling(parse, events);
    AllFillingPossible(parse, events);
    AllFillingPossible(parse, events[..k]);
    assert filling[..k] == AllFilling(parse, events[..k]);
    var s := Run(parse, true, Start(config, files), filling[..k]);
    RunKeeps(parse, true, config, files, filling[..k]);
    FilledDivides(parse, config, files, events[..k]);
    var w := TornEvent(parse, s, events[k]);
    var told := filling[k := w];
    assert told[..k] == filling[..k];
    assert LeftInPartAt(parse, config, files, told, k);
    assert forall v | v in told :: v == w || v in filling;
    assert Alike(events, told);
  }

  lemma {:induction false} SameComposes(parse: Parser, v: Event, w: Event)
    requires Retold(v, w)
    ensures Composes(parse, v) == Composes(parse, w)
    ensures Withdraws(parse, v) <==> Withdraws(parse, w)
    ensures Fills(parse, v) <==> Fills(parse, w)
  {
    hide Compose, ServerAuth;
  }

  lemma {:induction false} FilledAlike(parse: Parser, files: Disk, events: seq<Event>, told: seq<Event>)
    requires Alike(events, told) && Filled(parse, files, told)
    ensures Filled(parse, files, events)
  {
    hide Retold, Fills;
    if j :| 0 <= j < |told| && Fills(parse, told[j]) {
      SameComposes(parse, events[j], told[j]);
    }
  }

  lemma {:induction false} TornIsWithdrawn(parse: Parser, config: Config, files: Disk, events: seq<Event>)
    requires Service.PrintsHashes(parse) && CanBeLeftInPart(parse, config, files, events)
    ensures WithdrawsFilled(parse, files, events)
  {
    hide Run, Step, Possible, Filled, Withdraws, Retold, Divisible, LeavesPart, Service.PrintsHashes;
    var told :| Alike(events, told) && AllPossible(parse, told) && LeftInPart(parse, config, files, told);
    var k :| 0 <= k < |told| && LeftInPartAt(parse, config, files, told, k);
    var s := Run(parse, true, Start(config, files), told[..k]);
    StepLeavesPart(parse, s, told[k]);
    DividesOnlyFilled(parse, config, files, told[..k]);
    FilledAlike(parse, files, events[..k], told[..k]);
    SameComposes(parse, events[k], told[k]);
  }

  /**
    Given what a run finds, some outcome of its renderings leaves part of a store exactly when an event withdraws the
    files, and before it an event rendered roots or there were two files or more to begin with.
   */
  lemma {:induction false} PartExactly(parse: Parser, config: Config, files: Disk, events: seq<Event>)
    requires Service.PrintsHashes(parse)
    ensures CanBeLeftInPart(parse, config, files, events) <==> WithdrawsFilled(parse, files, events)
  {
    hide *;
    if CanBeLeftInPart(parse, config, files, events) {
      TornIsWithdrawn(parse, config, files, events);
    }
    if WithdrawsFilled(parse, files, events) {
      WithdrawalCanBeTorn(parse, config, files, events);
    }
  }
}
