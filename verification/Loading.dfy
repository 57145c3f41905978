/** What a load of the configuration takes from the registry, read by read, while it may be changing. */
module Loading {
  import opened Basics
  import opened Sorting
  import opened Spelling
  import opened Store
  import opened Registry

  /** The registry as each read finds it. */
  type Times = nat -> Keys

  function Always(keys: Keys): Times {
    t => keys
  }

  /** A value of text: nothing for none or for one of another type; a load fails on bytes that are no text. */
  function Strings(u: Utf8, value: Option<RegValue>): Option<seq<string>> {
    if value.None? then Some([])
    else match Multi(u, value.value)
      case None => None
      case Some(None) => Some([])
      case Some(Some(texts)) => Some(texts)
  }

  /** Purposes that are not there, or are of a type that is no text, are none; a single text is one. */
  lemma {:induction false} PurposesRead(u: Utf8, data: seq<byte>)
    requires 0 !in data
    ensures Strings(u, None) == Some([])
    ensures Strings(u, Some(RegValue(Binary, data))) == Strings(u, Some(RegValue(OtherType, data))) == Some([])
    ensures Strings(u, Some(RegValue(Sz, data))) == Strings(u, Some(RegValue(ExpandSz, data)))
            == if u.decode(data).Some? then Some([u.decode(data).value]) else None
  {
    ValuesRead(u, data, data, []);
  }

  /** No certificate is an addition half written; one that is no nonempty binary is ignored. */
  predicate Usable(certificate: Option<RegValue>) {
    certificate.Some? && certificate.value.ty == Binary && certificate.value.data != []
  }

  function NameLe(a: Addition, b: Addition): bool {
    TextLe(a.name, b.name)
  }

  /** The additions under these names, each read in turn: its key, its certificate and then its purposes. */
  function KeysRead(u: Utf8, at: Times, t: nat, names: seq<string>): Option<seq<Addition>>
    decreases |names|
  {
    if names == [] then Some([])
    else
      var name := names[0];
      if name !in at(t) || name !in at(t + 1) then None
      else
        var certificate := at(t + 1)[name].certificate;
        if !Usable(certificate) then KeysRead(u, at, t + 2, names[1..])
        else if name !in at(t + 2) then None
        else match Strings(u, at(t + 2)[name].purposes)
          case None => None
          case Some(purposes) => match KeysRead(u, at, t + 3, names[1..])
            case None => None
            case Some(others) => Some([Addition(name, certificate.value.data, purposes)] + others)
  }

  function Loaded(u: Utf8, at: Times, names: seq<string>): Option<seq<Addition>> {
    match KeysRead(u, at, 1, names) case None => None case Some(additions) => Some(Sort(additions, NameLe))
  }

  function Before(additions: seq<Addition>, others: Option<seq<Addition>>): Option<seq<Addition>> {
    if others.None? then None else Some(additions + others.value)
  }

  lemma BeforeStep(additions: seq<Addition>, a: Addition, others: Option<seq<Addition>>)
    ensures Before(additions, Before([a], others)) == Before(additions + [a], others)
  {
    if others.Some? {
      assert additions + ([a] + others.value) == additions + [a] + others.value;
    }
  }

  method Load(u: Utf8, at: Times, names: seq<string>) returns (r: Option<seq<Addition>>)
    ensures r == Loaded(u, at, names)
  {
    hide Sort, Strings;
    var additions: seq<Addition> := [];
    var t := 1;
    assert KeysRead(u, at, 1, names[0..]) == Before([], KeysRead(u, at, 1, names)) by {
      assert names[0..] == names;
      if KeysRead(u, at, 1, names).Some? {
        assert [] + KeysRead(u, at, 1, names).value == KeysRead(u, at, 1, names).value;
      }
    }
    for i := 0 to |names|
      invariant KeysRead(u, at, 1, names) == Before(additions, KeysRead(u, at, t, names[i..]))
    {
      assert names[i..][1..] == names[i + 1..];
      var name := names[i];
      if name !in at(t) || name !in at(t + 1) {
        return None;
      }
      var certificate := at(t + 1)[name].certificate;
      t := t + 2;
      if Usable(certificate) {
        if name !in at(t) {
          return None;
        }
        var purposes := Strings(u, at(t)[name].purposes);
        if purposes.None? {
          return None;
        }
        t := t + 1;
        var a := Addition(name, certificate.value.data, purposes.value);
        BeforeStep(additions, a, KeysRead(u, at, t, names[i + 1..]));
        additions := additions + [a];
      }
    }
    assert additions + [] == additions;
    r := Some(Sort(additions, NameLe));
  }

  // ---------------------------------------------------------------- a load in the middle of an addition

  /** What one key comes to, its certificate and its purposes as they are read. */
  function Verdict(u: Utf8, name: string, certificate: Option<RegValue>,
      purposes: Option<RegValue>): Option<Option<Addition>> {
    if !Usable(certificate) then Some(None)
    else match Strings(u, purposes)
      case None => None
      case Some(texts) => Some(Some(Addition(name, certificate.value.data, texts)))
  }

  /** What the key under each name comes to, of those enumerated: `Some(None)` for nothing, `None` for a failed load. */
  type Effects = string -> Option<Option<Addition>>

  function EffectsOf(u: Utf8, keys: Keys, names: seq<string>): Effects {
    n => if n in names && n in keys then Verdict(u, n, keys[n].certificate, keys[n].purposes) else Some(None)
  }

  /** Exactly these effects: a failure if there is any, and otherwise each addition once. */
  ghost predicate Exactly(e: Effects, r: Option<seq<Addition>>) {
    && (r.None? <==> exists n :: e(n).None?)
    && (r.Some? ==>
          && (forall a :: a in r.value <==> e(a.name) == Some(Some(a)))
          && (forall i, j | 0 <= i < j < |r.value| :: r.value[i].name != r.value[j].name))
  }

  ghost predicate NoRepeats(names: seq<string>) {
    forall i, j | 0 <= i < j < |names| :: names[i] != names[j]
  }

  /** An enumeration of the keys there are. */
  ghost predicate Enumerates(names: seq<string>, keys: Keys) {
    NoRepeats(names) && forall n :: n in names <==> n in keys
  }

  /** The writes made by each read's time: never fewer later. */
  ghost predicate Progress(done: nat -> nat) {
    (forall t :: done(t) <= 3) && forall s, t | s <= t :: done(s) <= done(t)
  }

  /** The keys as each read finds them, while an addition is being written. */
  function During(keys: Keys, name: string, der: Der, purposes: Option<RegValue>, done: nat -> nat): Times {
    (t: nat) => Written(keys, name, der, purposes, done(t))
  }

  lemma OthersStand(keys: Keys, name: string, der: Der, purposes: Option<RegValue>, done: nat, other: string)
    requires other != name
    ensures var now := Written(keys, name, der, purposes, done);
            (other in now <==> other in keys) && (other in keys ==> now[other] == keys[other])
  {}

  function ValuesOf(keys: Keys, name: string): KeyValues {
    if name in keys then keys[name] else KeyValues(None, None)
  }

  /** The addition's own key: there from the first write, with its purposes from the second and its certificate last. */
  lemma OwnValues(keys: Keys, name: string, der: Der, purposes: Option<RegValue>, done: nat)
    ensures var now, was := Written(keys, name, der, purposes, done), ValuesOf(keys, name);
            && (name in now <==> name in keys || done > 0)
            && (name in now ==>
                  now[name] == KeyValues(if done >= 3 then Some(RegValue(Binary, der)) else was.certificate,
                                         if done >= 2 && purposes.Some? then purposes else was.purposes))
  {}

  /** One key more: its effect comes before the others'. */
  lemma {:induction false} ExactlyStep(e: Effects, all: Effects, name: string, o: Option<Option<Addition>>,
                                       others: Option<seq<Addition>>, r: Option<seq<Addition>>)
    requires Exactly(e, others) && e(name) == Some(None) && all(name) == o
    requires forall n | n != name :: all(n) == e(n)
    requires o.Some? && o.value.Some? ==> o.value.value.name == name
    requires r == match o
                  case None => None
                  case Some(None) => others
                  case Some(Some(a)) => Before([a], others)
    ensures Exactly(all, r)
  {
    if o.None? {
      assert all(name).None?;
    } else if others.None? {
      var n :| e(n).None?;
      assert all(n).None?;
    } else if o.value.Some? {
      var a := o.value.value;
      forall i, j | 0 <= i < j < |r.value| ensures r.value[i].name != r.value[j].name {
        assert r.value[j] in others.value && e(r.value[j].name) == Some(Some(r.value[j]));
      }
    }
  }

  /** Reading in turn finds exactly the effects of these keys, if every read finds each as it is in `keys`. */
  lemma {:induction false} ReadExactly(u: Utf8, at: Times, t: nat, names: seq<string>, keys: Keys)
    requires NoRepeats(names)
    requires forall s: nat, n | t <= s && n in names :: n in at(s) && n in keys && at(s)[n] == keys[n]
    ensures Exactly(EffectsOf(u, keys, names), KeysRead(u, at, t, names))
    decreases |names|
  {
    hide Strings, Exactly;
    if names == [] {
      NoEffects(EffectsOf(u, keys, names));
    } else {
      var name := names[0];
      assert name in names && forall n | n in names[1..] :: n in names;
      assert name !in names[1..];
      assert name in at(t) && name in at(t + 1) && name in at(t + 2);
      var o := Verdict(u, name, keys[name].certificate, keys[name].purposes);
      var next := if Usable(keys[name].certificate) then t + 3 else t + 2;
      ReadExactly(u, at, next, names[1..], keys);
      ExactlyStep(EffectsOf(u, keys, names[1..]), EffectsOf(u, keys, names), name, o,
                  KeysRead(u, at, next, names[1..]), KeysRead(u, at, t, names));
    }
  }

  lemma NoEffects(e: Effects)
    requires forall n :: e(n) == Some(None)
    ensures Exactly(e, Some([]))
  {}

  lemma {:induction false} NoDuplicates<T>(s: seq<T>, x: T)
    requires forall i, j | 0 <= i < j < |s| :: s[i] != s[j]
    ensures multiset(s)[x] == if x in s then 1 else 0
  {
    if s != [] {
      assert s == [s[0]] + s[1..];
      NoDuplicates(s[1..], x);
    }
  }

  lemma NameOrder()
    ensures TotalPreorder(NameLe)
    ensures forall a, b :: NameLe(a, b) && NameLe(b, a) ==> a.name == b.name
  {
    TextOrder();
  }

  /** The same effects give the same list of additions, in whatever order the keys were read. */
  lemma {:induction false} SameEffects(e: Effects, f: Effects, a: seq<Addition>, b: seq<Addition>)
    requires Exactly(e, Some(a)) && Exactly(f, Some(b)) && forall n :: e(n) == f(n)
    ensures Sort(a, NameLe) == Sort(b, NameLe)
  {
    hide Sort, TextLe;
    forall x ensures multiset(a)[x] == multiset(b)[x] {
      NoDuplicates(a, x);
      NoDuplicates(b, x);
      assert x in a <==> e(x.name) == Some(Some(x));
      assert x in b <==> f(x.name) == Some(Some(x));
    }
    assert multiset(a) == multiset(b);
    NameOrder();
    assert TellsApart(a, NameLe);
    SortInsensitive(a, b, NameLe);
  }

  lemma {:induction false} SameLoads(u: Utf8, e: Effects, f: Effects, at: Times, names: seq<string>, other: Times,
      others: seq<string>)
    requires Exactly(e, KeysRead(u, at, 1, names)) && Exactly(f, KeysRead(u, other, 1, others))
    requires forall n :: e(n) == f(n)
    ensures Loaded(u, at, names) == Loaded(u, other, others)
  {
    hide Sort, KeysRead;
    var a, b := KeysRead(u, at, 1, names), KeysRead(u, other, 1, others);
    assert a.None? <==> b.None? by {
      if exists n :: e(n).None? {
        var n :| e(n).None?;
        assert f(n).None?;
      }
      if exists n :: f(n).None? {
        var n :| f(n).None?;
        assert e(n).None?;
      }
    }
    if a.Some? {
      SameEffects(e, f, a.value, b.value);
    }
  }

  /** The order the keys are enumerated in makes no difference. */
  lemma {:induction false} LoadIgnoresOrder(u: Utf8, keys: Keys, a: seq<string>, b: seq<string>)
    requires Enumerates(a, keys) && Enumerates(b, keys)
    ensures Loaded(u, Always(keys), a) == Loaded(u, Always(keys), b)
  {
    hide Exactly, KeysRead, Verdict, Loaded;
    ReadExactly(u, Always(keys), 1, a, keys);
    ReadExactly(u, Always(keys), 1, b, keys);
    SameLoads(u, EffectsOf(u, keys, a), EffectsOf(u, keys, b), Always(keys), a, Always(keys), b);
  }

  lemma StaysThere(keys: Keys, name: string, der: Der, purposes: Option<RegValue>, before: nat, after: nat, n: string)
    requires before <= after && n in Written(keys, name, der, purposes, before)
    ensures n in Written(keys, name, der, purposes, after)
  {}

  /** The keys below the addition's own are as they were at every read. */
  lemma {:induction false} OthersExactly(u: Utf8, keys: Keys, name: string, der: Der, purposes: Option<RegValue>,
                                         done: nat -> nat, t: nat, names: seq<string>)
    requires NoRepeats(names) && name !in names && forall n | n in names :: n in keys
    ensures Exactly(EffectsOf(u, keys, names), KeysRead(u, During(keys, name, der, purposes, done), t, names))
  {
    hide Exactly, KeysRead, EffectsOf, Written;
    forall s: nat, n | t <= s && n in names
      ensures var at := During(keys, name, der, purposes, done); n in at(s) && n in keys && at(s)[n] == keys[n]
    {
      OthersStand(keys, name, der, purposes, done(s), n);
    }
    ReadExactly(u, During(keys, name, der, purposes, done), t, names, keys);
  }

  /** The writes that show in the addition's own key, its certificate read at one time and its purposes at the next. */
  function Seen(done: nat -> nat, t: nat): (k: nat)
    ensures 1 <= k <= 3
  {
    if done(t + 1) >= 3 then 3 else if done(t + 2) >= 2 then 2 else 1
  }

  /** One turn of the loop, when the key is still there at each of its reads. */
  lemma ReadHead(u: Utf8, at: Times, t: nat, names: seq<string>)
    requires names != [] && names[0] in at(t) && names[0] in at(t + 1) && names[0] in at(t + 2)
    ensures var certificate := at(t + 1)[names[0]].certificate;
            KeysRead(u, at, t, names)
            == if !Usable(certificate) then KeysRead(u, at, t + 2, names[1..])
               else match Strings(u, at(t + 2)[names[0]].purposes)
               case None => None
               case Some(texts) =>
                 Before([Addition(names[0], certificate.value.data, texts)], KeysRead(u, at, t + 3, names[1..]))
  {
    hide Strings;
  }

  lemma {:induction false} OwnRead(u: Utf8, keys: Keys, name: string, der: Der, purposes: Option<RegValue>,
                                   done: nat -> nat, t: nat, names: seq<string>)
    requires Progress(done) && names != [] && names[0] == name
    requires name in Written(keys, name, der, purposes, done(t))
    ensures name in Written(keys, name, der, purposes, Seen(done, t))
    ensures var at := During(keys, name, der, purposes, done);
            var own := Written(keys, name, der, purposes, Seen(done, t))[name];
            var next := if Usable(own.certificate) then t + 3 else t + 2;
            KeysRead(u, at, t, names)
            == match Verdict(u, name, own.certificate, own.purposes)
               case None => None
               case Some(None) => KeysRead(u, at, next, names[1..])
               case Some(Some(a)) => Before([a], KeysRead(u, at, next, names[1..]))
  {
    hide Strings, Written, KeysRead, Before, Usable, ValuesOf;
    assert done(t) <= done(t + 1) <= done(t + 2) <= 3;
    OwnValues(keys, name, der, purposes, done(t));
    OwnValues(keys, name, der, purposes, done(t + 1));
    OwnValues(keys, name, der, purposes, done(t + 2));
    OwnValues(keys, name, der, purposes, Seen(done, t));
    ReadHead(u, During(keys, name, der, purposes, done), t, names);
  }

  /** The effects before and after the addition's own key is taken in. */
  lemma {:induction false} OwnEffects(u: Utf8, keys: Keys, name: string, der: Der, purposes: Option<RegValue>, k: nat,
                                      names: seq<string>)
    requires NoRepeats(names) && names != [] && names[0] == name && name in Written(keys, name, der, purposes, k)
    ensures var w := Written(keys, name, der, purposes, k);
            var before, all := EffectsOf(u, keys, names[1..]), EffectsOf(u, w, names);
            && before(name) == Some(None) && all(name) == Verdict(u, name, w[name].certificate, w[name].purposes)
            && forall n | n != name :: all(n) == before(n)
  {
    hide Strings, Written, Verdict;
    var w, rest := Written(keys, name, der, purposes, k), names[1..];
    assert name in names && name !in rest && forall n | n != name :: n in names <==> n in rest;
    forall n | n != name ensures EffectsOf(u, w, names)(n) == EffectsOf(u, keys, rest)(n) {
      OthersStand(keys, name, der, purposes, k, n);
    }
  }

  /** The addition's own key is found as one of its states: before it, with the new purposes, or with all of it. */
  lemma {:induction false} OwnKey(u: Utf8, keys: Keys, name: string, der: Der, purposes: Option<RegValue>,
                                  done: nat -> nat, t: nat, names: seq<string>)
    requires Progress(done) && NoRepeats(names) && names != [] && names[0] == name
    requires forall n | n in names :: n in Written(keys, name, der, purposes, done(t))
    ensures Exactly(EffectsOf(u, Written(keys, name, der, purposes, Seen(done, t)), names),
                    KeysRead(u, During(keys, name, der, purposes, done), t, names))
  {
    hide Strings, Exactly, Written, Verdict, KeysRead, EffectsOf, Usable;
    var at := During(keys, name, der, purposes, done);
    var rest := names[1..];
    assert name in names && name !in rest && NoRepeats(rest);
    forall n | n in rest ensures n in keys {
      assert n in names;
      OthersStand(keys, name, der, purposes, done(t), n);
    }
    OwnRead(u, keys, name, der, purposes, done, t, names);
    var k := Seen(done, t);
    var w := Written(keys, name, der, purposes, k);
    var o := Verdict(u, name, w[name].certificate, w[name].purposes);
    VerdictNamed(u, name, w[name].certificate, w[name].purposes);
    var next := if Usable(w[name].certificate) then t + 3 else t + 2;
    OthersExactly(u, keys, name, der, purposes, done, next, rest);
    OwnEffects(u, keys, name, der, purposes, k, names);
    ExactlyStep(EffectsOf(u, keys, rest), EffectsOf(u, w, names), name, o, KeysRead(u, at, next, rest),
                KeysRead(u, at, t, names));
  }

  lemma VerdictNamed(u: Utf8, name: string, certificate: Option<RegValue>, purposes: Option<RegValue>)
    ensures var o := Verdict(u, name, certificate, purposes); o.Some? && o.value.Some? ==> o.value.value.name == name
  {}

  lemma {:induction false} OtherKey(u: Utf8, keys: Keys, name: string, der: Der, purposes: Option<RegValue>,
                                    done: nat -> nat, t: nat, names: seq<string>, next: nat, k: nat)
    requires NoRepeats(names) && names != [] && names[0] != name && names[0] in keys
    requires next == if Usable(keys[names[0]].certificate) then t + 3 else t + 2
    requires Exactly(EffectsOf(u, Written(keys, name, der, purposes, k), names[1..]),
                     KeysRead(u, During(keys, name, der, purposes, done), next, names[1..]))
    ensures Exactly(EffectsOf(u, Written(keys, name, der, purposes, k), names),
                    KeysRead(u, During(keys, name, der, purposes, done), t, names))
  {
    hide Strings, Exactly, Written;
    var at := During(keys, name, der, purposes, done);
    var n, w := names[0], Written(keys, name, der, purposes, k);
    assert n in names && n !in names[1..];
    OthersStand(keys, name, der, purposes, done(t), n);
    OthersStand(keys, name, der, purposes, done(t + 1), n);
    OthersStand(keys, name, der, purposes, done(t + 2), n);
    OthersStand(keys, name, der, purposes, k, n);
    var o := Verdict(u, n, keys[n].certificate, keys[n].purposes);
    ExactlyStep(EffectsOf(u, w, names[1..]), EffectsOf(u, w, names), n, o,
                KeysRead(u, at, next, names[1..]), KeysRead(u, at, t, names));
  }

  /** A load meanwhile finds the keys in one of the states the addition passes through, or before it. */
  lemma {:induction false} DuringExactly(u: Utf8, keys: Keys, name: string, der: Der, purposes: Option<RegValue>,
                                         done: nat -> nat, t: nat, names: seq<string>)
    returns (k: nat)
    requires Progress(done) && NoRepeats(names)
    requires forall n | n in names :: n in Written(keys, name, der, purposes, done(t))
    ensures 1 <= k <= 3
    ensures Exactly(EffectsOf(u, Written(keys, name, der, purposes, k), names),
                    KeysRead(u, During(keys, name, der, purposes, done), t, names))
    decreases |names|
  {
    hide Strings, Exactly, Written, EffectsOf, KeysRead;
    if names == [] {
      k := 1;
      NothingRead(u, During(keys, name, der, purposes, done), t, Written(keys, name, der, purposes, 1));
    } else if names[0] == name {
      k := Seen(done, t);
      OwnKey(u, keys, name, der, purposes, done, t, names);
    } else {
      assert names[0] in names && forall n | n in names[1..] :: n in names;
      OthersStand(keys, name, der, purposes, done(t), names[0]);
      var next := if Usable(keys[names[0]].certificate) then t + 3 else t + 2;
      forall n | n in names[1..] ensures n in Written(keys, name, der, purposes, done(next)) {
        StaysThere(keys, name, der, purposes, done(t), done(next), n);
      }
      k := DuringExactly(u, keys, name, der, purposes, done, next, names[1..]);
      OtherKey(u, keys, name, der, purposes, done, t, names, next, k);
    }
  }

  lemma NothingRead(u: Utf8, at: Times, t: nat, keys: Keys)
    ensures Exactly(EffectsOf(u, keys, []), KeysRead(u, at, t, []))
  {
    NoEffects(EffectsOf(u, keys, []));
  }

  // ---------------------------------------------------------------- when an addition is atomic

  /**
    What can be told of an addition beforehand: its name is fresh or its key holds no usable certificate, or it changes
    no more than one of purposes and certificate as a load reads them, or what it writes fails every load.
   */
  predicate ChangesAtOnce(u: Utf8, keys: Keys, name: string, der: Der, purposes: Option<RegValue>) {
    || name !in keys
    || !Usable(keys[name].certificate)
    || purposes.None?
    || Strings(u, keys[name].purposes) == Strings(u, purposes)
    || keys[name].certificate.value.data == der
    || (Strings(u, purposes).None? && der != [])
  }

  /** The other keys do not already make every load fail. */
  ghost predicate OthersRead(u: Utf8, keys: Keys, name: string) {
    forall n | n in keys && n != name :: Verdict(u, n, keys[n].certificate, keys[n].purposes).Some?
  }

  function VerdictAfter(u: Utf8, keys: Keys, name: string, der: Der, purposes: Option<RegValue>,
                        done: nat): Option<Option<Addition>> {
    var now := ValuesOf(Written(keys, name, der, purposes, done), name);
    Verdict(u, name, now.certificate, now.purposes)
  }

  /** Between the two writes the key comes to what it was or what it will be, exactly when it changes at once. */
  lemma {:induction false} BetweenWrites(u: Utf8, keys: Keys, name: string, der: Der, purposes: Option<RegValue>)
    ensures ChangesAtOnce(u, keys, name, der, purposes) <==>
              var between := VerdictAfter(u, keys, name, der, purposes, 2);
              || between == VerdictAfter(u, keys, name, der, purposes, 1)
              || between == VerdictAfter(u, keys, name, der, purposes, 3)
  {
    hide Strings, Written;
    OwnValues(keys, name, der, purposes, 1);
    OwnValues(keys, name, der, purposes, 2);
    OwnValues(keys, name, der, purposes, 3);
  }

  /** What the addition's own key comes to, in an enumeration of the keys at `done`. */
  lemma {:induction false} OwnEffect(u: Utf8, keys: Keys, name: string, der: Der, purposes: Option<RegValue>, done: nat,
                                     names: seq<string>)
    requires name in names ==> name in keys || done > 0
    ensures EffectsOf(u, Written(keys, name, der, purposes, done), names)(name)
            == if name in names then VerdictAfter(u, keys, name, der, purposes, done) else Some(None)
  {
    hide Verdict, Written;
    OwnValues(keys, name, der, purposes, done);
  }

  lemma {:induction false} OtherEffects(u: Utf8, keys: Keys, name: string, der: Der, purposes: Option<RegValue>,
                                        j: nat, a: seq<string>, k: nat, b: seq<string>, n: string)
    requires n != name && (n in a <==> n in keys) && (n in b <==> n in keys)
    ensures EffectsOf(u, Written(keys, name, der, purposes, j), a)(n)
            == EffectsOf(u, Written(keys, name, der, purposes, k), b)(n)
  {
    hide Verdict, Written;
    OthersStand(keys, name, der, purposes, j, n);
    OthersStand(keys, name, der, purposes, k, n);
  }

  /** A load wholly at one time finds the effects of the keys at that time. */
  lemma {:induction false} LoadedAt(u: Utf8, keys: Keys, names: seq<string>)
    requires Enumerates(names, keys)
    ensures Exactly(EffectsOf(u, keys, names), KeysRead(u, Always(keys), 1, names))
  {
    hide Exactly, KeysRead, EffectsOf;
    ReadExactly(u, Always(keys), 1, names, keys);
  }

  /** When another key already makes every load fail, all loads are alike. */
  lemma {:induction false} FailsAnyway(u: Utf8, e: Effects, f: Effects, n: string, at: Times, names: seq<string>,
                                       bt: Times, others: seq<string>)
    requires Exactly(e, KeysRead(u, at, 1, names)) && Exactly(f, KeysRead(u, bt, 1, others))
    requires e(n).None? && f(n).None?
    ensures Loaded(u, at, names) == Loaded(u, bt, others) == None
  {
    hide KeysRead;
  }

  /** One interleaving of an addition with a load, and the loads wholly before and wholly after it. */
  ghost predicate BeforeOrAfter(u: Utf8, keys: Keys, name: string, der: Der, purposes: Option<RegValue>,
                                done: nat -> nat, names: seq<string>, before: seq<string>, after: seq<string>) {
    var r := Loaded(u, During(keys, name, der, purposes, done), names);
    || r == Loaded(u, Always(keys), before)
    || r == Loaded(u, Always(Written(keys, name, der, purposes, 3)), after)
  }

  /** The keys can be enumerated so, when the load and the two compared with it begin. */
  ghost predicate Enumerated(keys: Keys, name: string, der: Der, purposes: Option<RegValue>, done: nat -> nat,
                             names: seq<string>, before: seq<string>, after: seq<string>) {
    && Progress(done)
    && Enumerates(names, Written(keys, name, der, purposes, done(0)))
    && Enumerates(before, keys)
    && Enumerates(after, Written(keys, name, der, purposes, 3))
  }

  /**
    However a load's reads fall among the writes of an addition that changes its key at once, what it loads is what it
    would have loaded wholly before the first of them or wholly after the last.
   */
  lemma {:induction false} AddIsAtomic(u: Utf8, keys: Keys, name: string, der: Der, purposes: Option<RegValue>,
                                       done: nat -> nat, names: seq<string>, before: seq<string>, after: seq<string>)
    requires ChangesAtOnce(u, keys, name, der, purposes) || !OthersRead(u, keys, name)
    requires Enumerated(keys, name, der, purposes, done, names, before, after)
    ensures BeforeOrAfter(u, keys, name, der, purposes, done, names, before, after)
  {
    hide Strings, Exactly, Written, KeysRead, Loaded, EffectsOf, Verdict, ChangesAtOnce, VerdictAfter;
    var at := During(keys, name, der, purposes, done);
    var w3 := Written(keys, name, der, purposes, 3);
    assert Written(keys, name, der, purposes, 0) == keys by { NothingWritten(keys, name, der, purposes); }
    forall n | n in names ensures n in Written(keys, name, der, purposes, done(1)) {
      StaysThere(keys, name, der, purposes, done(0), done(1), n);
    }
    var k := DuringExactly(u, keys, name, der, purposes, done, 1, names);
    var e := EffectsOf(u, Written(keys, name, der, purposes, k), names);
    var first, last := EffectsOf(u, keys, before), EffectsOf(u, w3, after);
    LoadedAt(u, keys, before);
    LoadedAt(u, w3, after);
    forall n | n != name ensures e(n) == first(n) == last(n) {
      OthersStand(keys, name, der, purposes, done(0), n);
      OthersStand(keys, name, der, purposes, 3, n);
      OtherEffects(u, keys, name, der, purposes, k, names, 0, before, n);
      OtherEffects(u, keys, name, der, purposes, k, names, 3, after, n);
    }
    if !OthersRead(u, keys, name) {
      var n :| n in keys && n != name && Verdict(u, n, keys[n].certificate, keys[n].purposes).None?;
      EffectAt(u, keys, before, n);
      FailsAnyway(u, e, first, n, at, names, Always(keys), before);
    } else {
      OwnValues(keys, name, der, purposes, done(0));
      OwnValues(keys, name, der, purposes, 3);
      OwnEffect(u, keys, name, der, purposes, k, names);
      OwnEffect(u, keys, name, der, purposes, 0, before);
      OwnEffect(u, keys, name, der, purposes, 3, after);
      FirstStage(u, keys, name, der, purposes);
      BetweenWrites(u, keys, name, der, purposes);
      if e(name) == first(name) {
        SameLoads(u, e, first, at, names, Always(keys), before);
      } else {
        SameLoads(u, e, last, at, names, Always(w3), after);
      }
    }
  }

  lemma NothingWritten(keys: Keys, name: string, der: Der, purposes: Option<RegValue>)
    ensures Written(keys, name, der, purposes, 0) == keys
  {}

  lemma EffectAt(u: Utf8, keys: Keys, names: seq<string>, n: string)
    requires Enumerates(names, keys) && n in keys
    ensures EffectsOf(u, keys, names)(n) == Verdict(u, n, keys[n].certificate, keys[n].purposes)
  {}

  /** The first write, of the key itself, shows in no load. */
  lemma {:induction false} FirstStage(u: Utf8, keys: Keys, name: string, der: Der, purposes: Option<RegValue>)
    ensures VerdictAfter(u, keys, name, der, purposes, 1) == VerdictAfter(u, keys, name, der, purposes, 0)
    ensures name !in keys ==> VerdictAfter(u, keys, name, der, purposes, 0) == Some(None)
  {
    hide Strings;
  }

  /** No interleaving of an addition with a load is seen half done. */
  ghost predicate Atomic(u: Utf8, keys: Keys, name: string, der: Der, purposes: Option<RegValue>) {
    forall done: nat -> nat, names, before, after | Enumerated(keys, name, der, purposes, done, names, before, after) ::
      BeforeOrAfter(u, keys, name, der, purposes, done, names, before, after)
  }

  lemma {:induction false} SomeOrder(names: set<string>) returns (order: seq<string>)
    ensures NoRepeats(order) && forall n :: n in order <==> n in names
    decreases |names|
  {
    if names == {} {
      order := [];
    } else {
      var n :| n in names;
      var others := SomeOrder(names - {n});
      order := [n] + others;
    }
  }

  /** Loads that are alike have found the same under a name, when the other keys can be read. */
  lemma {:induction false} LoadsTell(u: Utf8, e: Effects, f: Effects, name: string, at: Times, names: seq<string>,
                                     bt: Times, others: seq<string>)
    requires Exactly(e, KeysRead(u, at, 1, names)) && Exactly(f, KeysRead(u, bt, 1, others))
    requires forall n | n != name :: e(n).Some? && f(n).Some?
    requires forall a: Addition | e(name) == Some(Some(a)) || f(name) == Some(Some(a)) :: a.name == name
    requires Loaded(u, at, names) == Loaded(u, bt, others)
    ensures e(name) == f(name)
  {
    hide KeysRead, Sort;
    var a, b := KeysRead(u, at, 1, names), KeysRead(u, bt, 1, others);
    if a.Some? {
      LoadedMembers(e, a.value);
      LoadedMembers(f, b.value);
      assert forall x: Addition :: e(x.name) == Some(Some(x)) <==> f(x.name) == Some(Some(x));
      if e(name).Some? && e(name).value.Some? {
        assert e(e(name).value.value.name) == Some(Some(e(name).value.value));
      }
      if f(name).Some? && f(name).value.Some? {
        assert f(f(name).value.value.name) == Some(Some(f(name).value.value));
      }
    } else {
      var n :| e(n).None?;
      var m :| f(m).None?;
      assert n == name && m == name;
    }
  }

  /** The other keys' effects, and the name any addition of this one bears. */
  lemma {:induction false} EffectsSound(u: Utf8, keys: Keys, name: string, der: Der, purposes: Option<RegValue>,
                                        done: nat, names: seq<string>)
    requires OthersRead(u, keys, name) && forall n | n in names :: n in keys
    ensures var e := EffectsOf(u, Written(keys, name, der, purposes, done), names);
            && (forall n | n != name :: e(n).Some?)
            && (forall a: Addition | e(name) == Some(Some(a)) :: a.name == name)
  {
    hide Written, Strings;
    forall n | n != name ensures EffectsOf(u, Written(keys, name, der, purposes, done), names)(n).Some? {
      OthersStand(keys, name, der, purposes, done, n);
    }
  }

  /** A key that does not change at once can be seen in between: the loads before, between and after all differ. */
  lemma {:induction false} SeenBetween(u: Utf8, keys: Keys, name: string, der: Der, purposes: Option<RegValue>,
                                       names: seq<string>)
    requires !ChangesAtOnce(u, keys, name, der, purposes) && OthersRead(u, keys, name) && Enumerates(names, keys)
    ensures Enumerated(keys, name, der, purposes, t => 2, names, names, names)
    ensures !BeforeOrAfter(u, keys, name, der, purposes, t => 2, names, names, names)
  {
    hide Strings, Exactly, Written, KeysRead, Loaded, EffectsOf, Verdict, ChangesAtOnce, VerdictAfter;
    var w2, w3 := Written(keys, name, der, purposes, 2), Written(keys, name, der, purposes, 3);
    var at := During(keys, name, der, purposes, t => 2);
    assert name in keys by { NotAtOnce(u, keys, name, der, purposes); }
    NothingWritten(keys, name, der, purposes);
    forall n ensures (n in w2 <==> n in keys) && (n in w3 <==> n in keys) {
      SameNames(keys, name, der, purposes, 2, n);
      SameNames(keys, name, der, purposes, 3, n);
    }
    ReadExactly(u, at, 1, names, w2);
    LoadedAt(u, keys, names);
    LoadedAt(u, w3, names);
    EffectsSound(u, keys, name, der, purposes, 0, names);
    EffectsSound(u, keys, name, der, purposes, 2, names);
    EffectsSound(u, keys, name, der, purposes, 3, names);
    OwnEffect(u, keys, name, der, purposes, 0, names);
    OwnEffect(u, keys, name, der, purposes, 2, names);
    OwnEffect(u, keys, name, der, purposes, 3, names);
    FirstStage(u, keys, name, der, purposes);
    BetweenWrites(u, keys, name, der, purposes);
    if Loaded(u, at, names) == Loaded(u, Always(keys), names) {
      LoadsTell(u, EffectsOf(u, w2, names), EffectsOf(u, keys, names), name, at, names, Always(keys), names);
    }
    if Loaded(u, at, names) == Loaded(u, Always(w3), names) {
      LoadsTell(u, EffectsOf(u, w2, names), EffectsOf(u, w3, names), name, at, names, Always(w3), names);
    }
  }

  lemma NotAtOnce(u: Utf8, keys: Keys, name: string, der: Der, purposes: Option<RegValue>)
    requires !ChangesAtOnce(u, keys, name, der, purposes)
    ensures name in keys
  {}

  lemma SameNames(keys: Keys, name: string, der: Der, purposes: Option<RegValue>, done: nat, n: string)
    requires name in keys
    ensures n in Written(keys, name, der, purposes, done) <==> n in keys
  {}

  /**
    An addition is seen only whole, in every interleaving with a load and every order of enumeration, exactly when it
    changes its key at once or another key already makes every load fail.
   */
  lemma {:induction false} AtomicExactly(u: Utf8, keys: Keys, name: string, der: Der, purposes: Option<RegValue>)
    ensures Atomic(u, keys, name, der, purposes)
       <==> ChangesAtOnce(u, keys, name, der, purposes) || !OthersRead(u, keys, name)
  {
    hide Enumerated, BeforeOrAfter, ChangesAtOnce, OthersRead;
    if ChangesAtOnce(u, keys, name, der, purposes) || !OthersRead(u, keys, name) {
      forall done: nat -> nat, names, before, after | Enumerated(keys, name, der, purposes, done, names, before, after)
        ensures BeforeOrAfter(u, keys, name, der, purposes, done, names, before, after)
      {
        AddIsAtomic(u, keys, name, der, purposes, done, names, before, after);
      }
    } else {
      var names := SomeOrder(keys.Keys);
      SeenBetween(u, keys, name, der, purposes, names);
    }
  }

  /** The keys as a reader of them finds them: at each of its reads, the states passed through up to some point. */
  function ReadFrom(keys: Keys, passed: seq<Keys>, upTo: nat -> nat): Times {
    (t: nat) => if 0 < upTo(t) <= |passed| then passed[upTo(t) - 1] else keys
  }

  /** The states an addition passes through, read ever later ones, are its writes in their order. */
  lemma {:induction false} PassingIsProgress(keys: Keys, name: string, der: Der, purposes: Option<RegValue>,
                                             passed: seq<Keys>, stages: seq<nat>, upTo: nat -> nat)
    returns (done: nat -> nat)
    requires PassedThrough(keys, name, der, purposes, passed, stages)
    requires (forall t :: upTo(t) <= |passed|) && forall s, t | s <= t :: upTo(s) <= upTo(t)
    ensures Progress(done)
    ensures forall t: nat :: ReadFrom(keys, passed, upTo)(t) == During(keys, name, der, purposes, done)(t)
    ensures done(0) == 0 <==> upTo(0) == 0
  {
    hide Written;
    done := (t: nat) => if 0 < upTo(t) <= |stages| then stages[upTo(t) - 1] else 0;
    NothingWritten(keys, name, der, purposes);
    forall s, t | s <= t ensures done(s) <= done(t) {
      assert upTo(s) <= upTo(t) <= |stages|;
    }
    forall t: nat ensures ReadFrom(keys, passed, upTo)(t) == During(keys, name, der, purposes, done)(t) {
      assert upTo(t) <= |passed|;
    }
  }

  lemma {:induction false} SameReads(u: Utf8, at: Times, bt: Times, t: nat, names: seq<string>)
    requires forall s: nat :: at(s) == bt(s)
    ensures KeysRead(u, at, t, names) == KeysRead(u, bt, t, names)
    decreases |names|
  {
    hide Strings;
    if names != [] {
      assert at(t) == bt(t) && at(t + 1) == bt(t + 1) && at(t + 2) == bt(t + 2);
      SameReads(u, at, bt, t + 2, names[1..]);
      SameReads(u, at, bt, t + 3, names[1..]);
    }
  }

  /**
    A load that reads, at whatever moments, the states `Add` leaves behind it: what it loads is what was there before,
    or all that was written.
   */
  lemma {:induction false} LoadDuringAdd(u: Utf8, keys: Keys, name: string, der: Der, purposes: Option<RegValue>,
                                         passed: seq<Keys>, stages: seq<nat>, upTo: nat -> nat,
                                         names: seq<string>, before: seq<string>, after: seq<string>)
    requires PassedThrough(keys, name, der, purposes, passed, stages)
    requires (forall t :: upTo(t) <= |passed|) && forall s, t | s <= t :: upTo(s) <= upTo(t)
    requires ChangesAtOnce(u, keys, name, der, purposes) || !OthersRead(u, keys, name)
    requires Enumerates(names, ReadFrom(keys, passed, upTo)(0)) && Enumerates(before, keys)
    requires Enumerates(after, Written(keys, name, der, purposes, 3))
    ensures var r := Loaded(u, ReadFrom(keys, passed, upTo), names);
            || r == Loaded(u, Always(keys), before)
            || r == Loaded(u, Always(Written(keys, name, der, purposes, 3)), after)
  {
    hide PassedThrough, ChangesAtOnce, OthersRead, Written, KeysRead, Sort;
    var done := PassingIsProgress(keys, name, der, purposes, passed, stages, upTo);
    SameReads(u, ReadFrom(keys, passed, upTo), During(keys, name, der, purposes, done), 1, names);
    AddIsAtomic(u, keys, name, der, purposes, done, names, before, after);
  }

  // ---------------------------------------------------------------- what was added

  /** The purposes an addition's key has in the end: those given, or where none are, those already there. */
  function FinalPurposes(u: Utf8, keys: Keys, name: string, purposes: seq<string>): Option<seq<string>> {
    if purposes != [] then Some(NonEmpty(purposes)) else Strings(u, ValuesOf(keys, name).purposes)
  }

  /**
    Once written, an addition is loaded as the certificate given with the nonempty purposes in order; where none are
    given, with those already under its name. The load fails exactly when some key's purposes are no text.
   */
  lemma {:induction false} AddedIsLoaded(u: Utf8, keys: Keys, name: string, der: Der, purposes: seq<string>,
                                         after: seq<string>)
    requires Faithful(u) && NoNul(purposes) && der != []
    requires Enumerates(after, Written(keys, name, der, PurposesValue(u, purposes), 3))
    ensures var r := Loaded(u, Always(Written(keys, name, der, PurposesValue(u, purposes), 3)), after);
            var final := FinalPurposes(u, keys, name, purposes);
            && (r.Some? <==> OthersRead(u, keys, name) && final.Some?)
            && (r.Some? ==> forall a :: a in r.value && a.name == name <==> a == Addition(name, der, final.value))
  {
    hide KeysRead, Multi, NonEmpty, MultiText, Sort, Written;
    var value := PurposesValue(u, purposes);
    var final := Written(keys, name, der, value, 3);
    OwnValues(keys, name, der, value, 3);
    LoadedAt(u, final, after);
    MultiReadsBack(u, purposes);
    var e := EffectsOf(u, final, after);
    assert e(name) == match FinalPurposes(u, keys, name, purposes)
                      case None => None
                      case Some(texts) => Some(Some(Addition(name, der, texts)));
    forall n | n != name
      ensures e(n) == if n in keys then Verdict(u, n, keys[n].certificate, keys[n].purposes) else Some(None)
    {
      OthersStand(keys, name, der, value, 3, n);
    }
    var r := KeysRead(u, Always(final), 1, after);
    if r.Some? {
      LoadedMembers(e, r.value);
    }
  }

  lemma {:induction false} LoadedMembers(e: Effects, additions: seq<Addition>)
    requires Exactly(e, Some(additions))
    ensures forall a :: a in Sort(additions, NameLe) <==> e(a.name) == Some(Some(a))
  {
    hide Sort, TextLe;
    NameOrder();
    SortCorrect(additions, NameLe);
    PermutationMembers(Sort(additions, NameLe), additions);
  }

  /** The addition under this name, whose certificate is a nonempty binary and whose purposes are text. */
  ghost predicate EntryFor(u: Utf8, keys: Keys, a: Addition) {
    && a.name in keys && a.der != [] && keys[a.name].certificate == Some(RegValue(Binary, a.der))
    && Strings(u, keys[a.name].purposes) == Some(a.purposes)
  }

  /** Some key with such a certificate has purposes that are no text. */
  ghost predicate Garbled(u: Utf8, keys: Keys) {
    exists name, der :: name in keys && keys[name].certificate == Some(RegValue(Binary, der)) && der != []
                        && Strings(u, keys[name].purposes) == None
  }

  /** A load of keys that stand fails exactly when one is garbled, and otherwise gives what is entered, by name. */
  lemma {:induction false} LoadIsExact(u: Utf8, keys: Keys, names: seq<string>)
    requires Enumerates(names, keys)
    ensures var r := Loaded(u, Always(keys), names);
            && (r.None? <==> Garbled(u, keys))
            && (r.Some? ==>
                  && (forall a :: a in r.value <==> EntryFor(u, keys, a))
                  && forall i, j | 0 <= i < j < |r.value| :: TextLe(r.value[i].name, r.value[j].name))
  {
    hide KeysRead, Strings, Sort, TextLe;
    LoadedAt(u, keys, names);
    var e, r := EffectsOf(u, keys, names), KeysRead(u, Always(keys), 1, names);
    forall n ensures e(n).None? <==> n in keys && Usable(keys[n].certificate) && Strings(u, keys[n].purposes).None? {}
    forall a: Addition ensures e(a.name) == Some(Some(a)) <==> EntryFor(u, keys, a) {}
    if n :| e(n).None? {
      assert keys[n].certificate == Some(RegValue(Binary, keys[n].certificate.value.data));
    }
    if Garbled(u, keys) {
      var name, der :| name in keys && keys[name].certificate == Some(RegValue(Binary, der)) && der != []
                       && Strings(u, keys[name].purposes) == None;
      assert e(name).None?;
    }
    if r.Some? {
      LoadedMembers(e, r.value);
      NameOrder();
      SortCorrect(r.value, NameLe);
    }
  }

  lemma {:induction false} LoneKey(u: Utf8, at: Times, slot: KeyValues, purposes: seq<string>)
    requires forall t: nat :: "a" in at(t) && at(t)["a"] == slot
    requires Usable(slot.certificate) && Strings(u, slot.purposes) == Some(purposes)
    ensures Loaded(u, at, ["a"]) == Some([Addition("a", slot.certificate.value.data, purposes)])
  {
    hide Strings;
    assert ["a"][1..] == [];
    assert "a" in at(1) && "a" in at(2) && "a" in at(3);
    ReadHead(u, at, 1, ["a"]);
    var a := Addition("a", slot.certificate.value.data, purposes);
    assert KeysRead(u, at, 4, []) == Some([]) && [a] + [] == [a];
    assert Sort([a], NameLe) == [a] by {
      assert [a][1..] == [] && Insert(a, [], NameLe) == [a] + [];
    }
  }

  /**
    Over a usable certificate with other purposes it is not so: a load can find the old certificate with the new
    purposes, which it would have found neither before the writes nor after them.
   */
  lemma {:induction false} ReplacingCanBeTorn(u: Utf8)
    requires Faithful(u)
    ensures var keys: Keys := map["a" := KeyValues(Some(RegValue(Binary, [1])), None)];
            var value := PurposesValue(u, ["x"]);
            && Loaded(u, During(keys, "a", [2], value, t => 2), ["a"]) == Some([Addition("a", [1], ["x"])])
            && Loaded(u, Always(keys), ["a"]) == Some([Addition("a", [1], [])])
            && Loaded(u, Always(Written(keys, "a", [2], value, 3)), ["a"]) == Some([Addition("a", [2], ["x"])])
  {
    var keys: Keys := map["a" := KeyValues(Some(RegValue(Binary, [1])), None)];
    var value := PurposesValue(u, ["x"]);
    hide Loaded, MultiText, NonEmpty, Multi;
    MultiReadsBack(u, ["x"]);
    OneKept();
    assert Strings(u, value) == Some(["x"]);
    LoneKey(u, During(keys, "a", [2], value, t => 2), KeyValues(Some(RegValue(Binary, [1])), value), ["x"]);
    LoneKey(u, Always(keys), keys["a"], []);
    LoneKey(u, Always(Written(keys, "a", [2], value, 3)), KeyValues(Some(RegValue(Binary, [2])), value), ["x"]);
  }

  lemma OneKept()
    ensures NonEmpty(["x"]) == ["x"] && NoNul(["x"])
  {
    assert ["x"][1..] == [];
  }

  // ---------------------------------------------------------------- distrusts

  predicate HexDigit(c: char) {
    '0' <= c <= '9' || 'a' <= c <= 'f' || 'A' <= c <= 'F'
  }

  /** A SHA-256 fingerprint in hexadecimal; anything else names no root and is ignored. */
  predicate IsFingerprint(text: string) {
    |text| == 64 && forall c | c in text :: HexDigit(c)
  }

  function NamedFingerprints(names: seq<string>): seq<string> {
    if names == [] then []
    else
      var f := NormaliseFingerprint(names[0]);
      (if IsFingerprint(f) then [f] else []) + NamedFingerprints(names[1..])
  }

  /** All but the first of each run of equals taken away. */
  function Dedup(s: seq<string>): seq<string> {
    if |s| < 2 then s else if s[0] == s[1] then Dedup(s[1..]) else [s[0]] + Dedup(s[1..])
  }

  function LoadedDistrusts(names: seq<string>): seq<string> {
    Dedup(Sort(NamedFingerprints(names), TextLe))
  }

  lemma {:induction false} FingerprintsAppend(names: seq<string>, name: string)
    ensures var f := NormaliseFingerprint(name);
            NamedFingerprints(names + [name]) == NamedFingerprints(names) + if IsFingerprint(f) then [f] else []
  {
    hide IsFingerprint, NormaliseFingerprint;
    if names == [] {
      assert names + [name] == [name] && [name][1..] == [];
    } else {
      assert (names + [name])[1..] == names[1..] + [name];
      FingerprintsAppend(names[1..], name);
    }
  }

  method LoadDistrusts(names: seq<string>) returns (distrust: seq<string>)
    ensures distrust == LoadedDistrusts(names)
  {
    hide IsFingerprint, Sort, Dedup;
    distrust := [];
    for i := 0 to |names|
      invariant distrust == NamedFingerprints(names[..i])
    {
      assert names[..i + 1] == names[..i] + [names[i]];
      FingerprintsAppend(names[..i], names[i]);
      var f := NormaliseFingerprint(names[i]);
      if IsFingerprint(f) {
        distrust := distrust + [f];
      }
    }
    assert names[..|names|] == names;
    distrust := Dedup(Sort(distrust, TextLe));
  }

  ghost predicate Strictly(s: seq<string>) {
    Sorted(s, TextLe) && forall i, j | 0 <= i < j < |s| :: s[i] != s[j]
  }

  lemma {:induction false} DedupStrictly(s: seq<string>)
    requires Sorted(s, TextLe)
    ensures Strictly(Dedup(s)) && forall x :: x in Dedup(s) <==> x in s
    ensures s != [] ==> Dedup(s) != [] && Dedup(s)[0] == s[0]
  {
    hide TextLe;
    if |s| >= 2 {
      DedupStrictly(s[1..]);
      if s[0] != s[1] {
        var others := Dedup(s[1..]);
        TextOrder();
        forall j | 0 <= j < |others| ensures TextLe(s[0], others[j]) && s[0] != others[j] {
          assert others[j] in s[1..];
          assert TextLe(others[0], others[j]) && TextLe(s[0], s[1]);
        }
      }
    }
  }

  lemma {:induction false} FingerprintsMembers(names: seq<string>, f: string)
    ensures f in NamedFingerprints(names) <==> IsFingerprint(f) && f in Map(NormaliseFingerprint, names)
  {
    hide IsFingerprint, NormaliseFingerprint;
    if names != [] {
      FingerprintsMembers(names[1..], f);
      assert Map(NormaliseFingerprint, names) == [NormaliseFingerprint(names[0])] + Map(NormaliseFingerprint,
          names[1..]);
    }
  }

  /** Some name spells this, 64 digits of hexadecimal in lower case. */
  ghost predicate Spelled(names: seq<string>, f: string) {
    && |f| == 64 && (forall c | c in f :: '0' <= c <= '9' || 'a' <= c <= 'f')
    && exists name :: name in names && SpelledAlike(name, f)
  }

  lemma {:induction false} SpelledIsNormal(names: seq<string>, f: string)
    ensures IsFingerprint(f) && f in Map(NormaliseFingerprint, names) <==> Spelled(names, f)
  {
    hide SpelledAlike, NormaliseFingerprint, Map;
    MappedMembers(names, f);
    NormalisedStands(f);
    if f in Map(NormaliseFingerprint, names) {
      var name :| name in names && NormaliseFingerprint(name) == f;
      NormalisedStands(name);
      NormalisedAgrees(name, f);
    }
    if Spelled(names, f) {
      var name :| name in names && SpelledAlike(name, f);
      NormalisedAgrees(name, f);
    }
  }

  /** The distrusts loaded are the fingerprints named, in lower case, each once, in order. */
  lemma {:induction false} DistrustsExact(names: seq<string>)
    ensures Strictly(LoadedDistrusts(names))
    ensures forall f :: f in LoadedDistrusts(names) <==> IsFingerprint(f) && f in Map(NormaliseFingerprint, names)
    ensures forall f :: f in LoadedDistrusts(names) <==> Spelled(names, f)
  {
    hide TextLe, IsFingerprint, NormaliseFingerprint, Sort, Dedup;
    var all := NamedFingerprints(names);
    TextOrder();
    SortCorrect(all, TextLe);
    PermutationMembers(Sort(all, TextLe), all);
    DedupStrictly(Sort(all, TextLe));
    forall f ensures f in LoadedDistrusts(names) <==> IsFingerprint(f) && f in Map(NormaliseFingerprint, names) {
      FingerprintsMembers(names, f);
    }
    forall f ensures IsFingerprint(f) && f in Map(NormaliseFingerprint, names) <==> Spelled(names, f) {
      SpelledIsNormal(names, f);
    }
  }

  /** Order, repetition, case and separators make no difference. */
  lemma {:induction false} DistrustsIgnoreSpelling(a: seq<string>, b: seq<string>)
    requires SameSpellings(a, b)
    ensures LoadedDistrusts(a) == LoadedDistrusts(b)
  {
    hide TextLe, IsFingerprint, NormaliseFingerprint, LoadedDistrusts, Map, SameSpellings, Spelled;
    SameSpellingsAgree(a, b);
    var x, y := LoadedDistrusts(a), LoadedDistrusts(b);
    DistrustsExact(a);
    DistrustsExact(b);
    forall f ensures multiset(x)[f] == multiset(y)[f] {
      assert f in x <==> IsFingerprint(f) && f in Map(NormaliseFingerprint, a);
      assert f in y <==> IsFingerprint(f) && f in Map(NormaliseFingerprint, b);
      NoDuplicates(x, f);
      NoDuplicates(y, f);
    }
    assert multiset(x) == multiset(y);
    TextOrder();
    SortedUnique(x, y, TextLe);
  }
}
