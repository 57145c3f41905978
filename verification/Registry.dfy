/**
  Additions and distrusts in the registry: how one is written, value by value, and what a load finds while that goes
  on.
 */
module Registry {
  import opened Basics
  import opened Store
  import Pem

  datatype ValueType = Binary | MultiSz | Sz | ExpandSz | OtherType

  datatype RegValue = RegValue(ty: ValueType, data: seq<byte>)

  /** One addition's key. */
  datatype KeyValues = KeyValues(certificate: Option<RegValue>, purposes: Option<RegValue>)

  /** The keys of additions, by name. */
  type Keys = map<string, KeyValues>

  /** Text to bytes and back. */
  datatype Utf8 = Utf8(encode: string -> seq<byte>, decode: seq<byte> -> Option<string>)

  /** What holds of UTF-8: it reads back, and a zero byte is only ever the character NUL. */
  ghost predicate Faithful(u: Utf8) {
    && (forall s :: u.decode(u.encode(s)) == Some(s))
    && (forall b | u.decode(b).Some? :: u.encode(u.decode(b).value) == b)
    && (forall s :: u.encode(s) == [] <==> s == [])
    && (forall s :: 0 in u.encode(s) <==> '\0' in s)
  }

  // ---------------------------------------------------------------- lists of text

  /** Each text and a zero, one after another. */
  function Terminated(u: Utf8, texts: seq<string>): seq<byte> {
    if texts == [] then [] else u.encode(texts[0]) + [0] + Terminated(u, texts[1..])
  }

  function MultiText(u: Utf8, texts: seq<string>): seq<byte> {
    Terminated(u, texts) + [0]
  }

  lemma {:induction false} TerminatedAppend(u: Utf8, a: seq<string>, b: string)
    ensures Terminated(u, a + [b]) == Terminated(u, a) + u.encode(b) + [0]
  {
    if a == [] {
      assert a + [b] == [b] && [b][1..] == [];
    } else {
      assert (a + [b])[1..] == a[1..] + [b];
      TerminatedAppend(u, a[1..], b);
    }
  }

  method WriteMultiText(u: Utf8, texts: seq<string>) returns (data: seq<byte>)
    ensures data == MultiText(u, texts)
  {
    data := [];
    for i := 0 to |texts|
      invariant data == Terminated(u, texts[..i])
    {
      assert texts[..i + 1] == texts[..i] + [texts[i]];
      TerminatedAppend(u, texts[..i], texts[i]);
      data := data + u.encode(texts[i]);
      data := data + [0];
    }
    assert texts[..|texts|] == texts;
    data := data + [0];
  }

  /** The runs between zeros. */
  function Split(data: seq<byte>): (r: seq<seq<byte>>)
    ensures r != []
  {
    if data == [] then [[]]
    else
      var others := Split(data[1..]);
      if data[0] == 0 then [[]] + others else [[data[0]] + others[0]] + others[1..]
  }

  function NonEmpty<T(==)>(parts: seq<seq<T>>): seq<seq<T>> {
    if parts == [] then [] else (if parts[0] == [] then [] else [parts[0]]) + NonEmpty(parts[1..])
  }

  function UpToZero(data: seq<byte>): seq<byte> {
    if data == [] || data[0] == 0 then [] else [data[0]] + UpToZero(data[1..])
  }

  /**
    The list a value holds; `Some(None)` for a value of another type, and nothing at all for bytes that are no text.
   */
  function Multi(u: Utf8, v: RegValue): Option<Option<seq<string>>> {
    match v.ty
    case MultiSz =>
      (match All(u.decode, NonEmpty(Split(v.data))) case Some(texts) => Some(Some(texts)) case None => None)
    case Sz => (match u.decode(UpToZero(v.data)) case Some(text) => Some(Some([text])) case None => None)
    case ExpandSz => (match u.decode(UpToZero(v.data)) case Some(text) => Some(Some([text])) case None => None)
    case _ => Some(None)
  }

  lemma {:induction false} SplitNoZeros(data: seq<byte>)
    ensures forall p | p in Split(data) :: 0 !in p
  {
    if data != [] {
      SplitNoZeros(data[1..]);
    }
  }

  /** The runs with a zero between each two of them. */
  function Rejoined(parts: seq<seq<byte>>): seq<byte> {
    if parts == [] then [] else if |parts| == 1 then parts[0] else parts[0] + [0] + Rejoined(parts[1..])
  }

  /** Cutting at zeros loses nothing but them. */
  lemma {:induction false} SplitRejoins(data: seq<byte>)
    ensures Rejoined(Split(data)) == data
  {
    if data != [] {
      SplitRejoins(data[1..]);
      var others := Split(data[1..]);
      if data[0] == 0 {
        assert ([[]] + others)[1..] == others;
      } else {
        assert ([[data[0]] + others[0]] + others[1..])[1..] == others[1..];
      }
    }
  }

  /** Part by part, the empty ones go and the others stay. */
  lemma {:induction false} NonEmptyParts(a: seq<seq<byte>>, b: seq<seq<byte>>, part: seq<byte>)
    ensures NonEmpty(a + b) == NonEmpty(a) + NonEmpty(b)
    ensures NonEmpty([part]) == if part == [] then [] else [part]
  {
    assert [part][1..] == [];
    if a == [] {
      assert a + b == b;
    } else {
      assert (a + b)[1..] == a[1..] + b;
      NonEmptyParts(a[1..], b, part);
    }
  }

  lemma {:induction false} UpToZeroStops(text: seq<byte>, rest: seq<byte>)
    requires 0 !in text
    ensures UpToZero(text) == text && UpToZero(text + [0] + rest) == text
  {
    if text == [] {
      assert text + [0] + rest == [0] + rest;
    } else {
      assert text[0] in text && forall b | b in text[1..] :: b in text;
      UpToZeroStops(text[1..], rest);
      assert (text + [0] + rest)[1..] == text[1..] + [0] + rest;
    }
  }

  /** What a value is read as, by its type: lists at their zeros, a text up to its zero, and nothing of any other. */
  lemma {:induction false} ValuesRead(u: Utf8, data: seq<byte>, text: seq<byte>, rest: seq<byte>)
    requires 0 !in text && (data == text || data == text + [0] + rest)
    ensures Multi(u, RegValue(Sz, data)) == Multi(u, RegValue(ExpandSz, data))
    ensures Multi(u, RegValue(Sz, data))
            == if u.decode(text).Some? then Some(Some([u.decode(text).value])) else None
    ensures Multi(u, RegValue(Binary, data)) == Multi(u, RegValue(OtherType, data)) == Some(None)
  {
    UpToZeroStops(text, rest);
  }

  lemma {:induction false} SplitFirst(part: seq<byte>, rest: seq<byte>)
    requires 0 !in part
    ensures Split(part + [0] + rest) == [part] + Split(rest)
  {
    var all := part + [0] + rest;
    if part == [] {
      assert all[1..] == rest;
    } else {
      assert all[1..] == part[1..] + [0] + rest;
      SplitFirst(part[1..], rest);
      assert [part[0]] + part[1..] == part;
      assert Split(all)[1..] == Split(rest);
    }
  }

  ghost predicate NoNul(texts: seq<string>) {
    forall t | t in texts :: '\0' !in t
  }

  lemma {:induction false} SplitMultiText(u: Utf8, texts: seq<string>)
    requires Faithful(u) && NoNul(texts)
    ensures Split(MultiText(u, texts)) == Map(u.encode, texts) + [[], []]
  {
    if texts == [] {
      assert MultiText(u, []) == [0] && [0][1..] == [];
      assert Map(u.encode, texts) + [[], []] == [[], []];
    } else {
      assert MultiText(u, texts) == u.encode(texts[0]) + [0] + MultiText(u, texts[1..]);
      SplitFirst(u.encode(texts[0]), MultiText(u, texts[1..]));
      SplitMultiText(u, texts[1..]);
    }
  }

  lemma {:induction false} NonEmptyEncoded(u: Utf8, texts: seq<string>)
    requires Faithful(u)
    ensures NonEmpty(Map(u.encode, texts) + [[], []]) == Map(u.encode, NonEmpty(texts))
  {
    if texts == [] {
      var empties: seq<seq<byte>> := [[], []];
      assert Map(u.encode, texts) + empties == empties;
      assert empties[1..] == [[]] && empties[1..][1..] == [];
    } else {
      var parts := Map(u.encode, texts) + [[], []];
      assert parts[1..] == Map(u.encode, texts[1..]) + [[], []];
      NonEmptyEncoded(u, texts[1..]);
      assert NonEmpty(texts) == (if texts[0] == [] then [] else [texts[0]]) + NonEmpty(texts[1..]);
      if texts[0] != [] {
        assert NonEmpty(texts)[1..] == NonEmpty(texts[1..]);
      }
    }
  }

  lemma {:induction false} NonEmptyKeeps<T>(parts: seq<seq<T>>)
    ensures forall p :: p in NonEmpty(parts) <==> p in parts && p != []
  {
    if parts != [] {
      NonEmptyKeeps(parts[1..]);
    }
  }

  lemma {:induction false} DecodedHaveNoNul(u: Utf8, parts: seq<seq<byte>>, texts: seq<string>)
    requires Faithful(u) && All(u.decode, parts) == Some(texts) && forall p | p in parts :: 0 !in p
    ensures NoNul(texts)
  {
    hide All;
    forall t | t in texts ensures '\0' !in t {
      var i :| 0 <= i < |texts| && texts[i] == t;
      assert u.encode(t) == parts[i] && parts[i] in parts;
    }
  }

  /** A list of purposes reads back as its nonempty members, in order, exactly when none of them holds a NUL. */
  lemma {:induction false} MultiReadsBack(u: Utf8, texts: seq<string>)
    requires Faithful(u)
    ensures Multi(u, RegValue(MultiSz, MultiText(u, texts))) == Some(Some(NonEmpty(texts))) <==> NoNul(texts)
  {
    hide Split, NonEmpty, MultiText, All;
    var data := MultiText(u, texts);
    var parts := NonEmpty(Split(data));
    if NoNul(texts) {
      SplitMultiText(u, texts);
      NonEmptyEncoded(u, texts);
      AllIs(u.decode, parts, NonEmpty(texts));
    }
    if All(u.decode, parts) == Some(NonEmpty(texts)) {
      NonEmptyKeeps(texts);
      NonEmptyKeeps(Split(data));
      SplitNoZeros(data);
      DecodedHaveNoNul(u, parts, NonEmpty(texts));
      assert forall t | t in texts :: t == [] || t in NonEmpty(texts);
    }
  }

  // ---------------------------------------------------------------- adding

  /** The keys once `done` of an addition's writes have been made: its key, its purposes if any, its certificate. */
  function Written(keys: Keys, name: string, der: Der, purposes: Option<RegValue>, done: nat): Keys {
    if done == 0 then keys
    else
      var now := if name in keys then keys[name] else KeyValues(None, None);
      var second := if done >= 2 && purposes.Some? then now.(purposes := purposes) else now;
      keys[name := if done >= 3 then second.(certificate := Some(RegValue(Binary, der))) else second]
  }

  /** Any text but blanks may name an addition, as long as it can be one key. */
  predicate UsableName(name: string) {
    Pem.Trim(name) != [] && '\\' !in name && '/' !in name
  }

  /** A name is usable when some character of it is not white space, and none separates keys. */
  lemma {:induction false} UsableNameIs(name: string)
    ensures UsableName(name)
       <==> (exists k :: 0 <= k < |name| && name[k] as int !in Pem.SPACES) && forall c | c in name :: c !in {'\\', '/'}
  {
    var i, j := Pem.TrimIs(name);
    if i < j {
      assert name[i] as int !in Pem.SPACES;
    }
  }

  function PurposesValue(u: Utf8, purposes: seq<string>): Option<RegValue> {
    if purposes == [] then None else Some(RegValue(MultiSz, MultiText(u, purposes)))
  }

  /** The states passed through, one for each write made, ever later ones. */
  ghost predicate PassedThrough(keys: Keys, name: string, der: Der, purposes: Option<RegValue>, passed: seq<Keys>,
                                stages: seq<nat>) {
    && |passed| == |stages|
    && (forall i | 0 <= i < |stages| ::
          1 <= stages[i] <= 3 && passed[i] == Written(keys, name, der, purposes, stages[i]))
    && (forall i, j | 0 <= i < j < |stages| :: stages[i] < stages[j])
  }

  lemma NonePassed(keys: Keys, name: string, der: Der, purposes: Option<RegValue>)
    ensures PassedThrough(keys, name, der, purposes, [], [])
  {}

  lemma {:induction false} PassOne(keys: Keys, name: string, der: Der, purposes: Option<RegValue>, passed: seq<Keys>,
                                   stages: seq<nat>, now: Keys, stage: nat)
    requires PassedThrough(keys, name, der, purposes, passed, stages) && 1 <= stage <= 3
    requires now == Written(keys, name, der, purposes, stage)
    requires stages != [] ==> stages[|stages| - 1] < stage
    ensures PassedThrough(keys, name, der, purposes, passed + [now], stages + [stage])
  {
    hide Written;
  }

  /** What has been passed through, behind what was there before. */
  lemma Behind(was: seq<Keys>, passed: seq<Keys>)
    ensures was <= was + passed && (was + passed)[|was|..] == passed
    ensures passed == [] ==> was + passed == was
    ensures passed != [] ==> (was + passed)[|was + passed| - 1] == passed[|passed| - 1]
  {}

  lemma WrittenSteps(keys: Keys, name: string, der: Der, purposes: Option<RegValue>)
    ensures var w1 := Written(keys, name, der, purposes, 1);
            var w2 := Written(keys, name, der, purposes, 2);
            && w1 == (if name in keys then keys else keys[name := KeyValues(None, None)])
            && name in w1
            && w2 == (if purposes.None? then w1 else w1[name := w1[name].(purposes := purposes)])
            && name in w2
            && Written(keys, name, der, purposes, 3) == w2[name := w2[name].(certificate := Some(RegValue(Binary,
                der)))]
  {}

  /** The key of the additions, with every state it has been in. */
  class AddKey {
    var keys: Keys
    ghost var history: seq<Keys>

    ghost predicate Valid()
      reads this
    {
      history != [] && history[|history| - 1] == keys
    }

    /**
      Under a name that can be used, and for a certificate that parses, write an addition, certificate last, until a
      write is refused. The states a reader can meet are those of `stages`, in that order, and the last of them is the
      whole addition exactly when this says it is done.
     */
    method Add(parse: Parser, now: Option<int>, u: Utf8, name: string, der: Der, purposes: seq<string>,
               refused: nat -> bool)
      returns (ok: bool, ghost stages: seq<nat>)
      requires Valid()
      modifies this
      ensures Valid()
      ensures old(history) <= history
      ensures PassedThrough(old(keys), name, der, PurposesValue(u, purposes), history[|old(history)|..], stages)
      ensures ok <==> stages != [] && stages[|stages| - 1] == 3
      ensures ok ==> keys == Written(old(keys), name, der, PurposesValue(u, purposes), 3)
      ensures ok <==> && UsableName(name) && parse(der, now).Ok?
                      && !refused(0) && (purposes != [] ==> !refused(1)) && !refused(2)
    {
      hide Written, MultiText, PassedThrough, UsableName;
      ghost var start := keys;
      ghost var value := PurposesValue(u, purposes);
      WrittenSteps(start, name, der, value);
      NonePassed(start, name, der, value);
      ghost var was := history;
      ghost var passed: seq<Keys> := [];
      stages := [];
      Behind(was, passed);
      if !UsableName(name) || parse(der, now).Err? || refused(0) {
        return false, stages;
      }
      if name !in keys {
        keys := keys[name := KeyValues(None, None)];
        PassOne(start, name, der, value, passed, stages, keys, 1);
        passed, stages := passed + [keys], stages + [1];
        history := was + passed;
        Behind(was, passed);
      }
      if purposes != [] {
        var data := WriteMultiText(u, purposes);
        if refused(1) {
          return false, stages;
        }
        keys := keys[name := keys[name].(purposes := Some(RegValue(MultiSz, data)))];
        PassOne(start, name, der, value, passed, stages, keys, 2);
        passed, stages := passed + [keys], stages + [2];
        history := was + passed;
        Behind(was, passed);
      }
      if refused(2) {
        return false, stages;
      }
      keys := keys[name := keys[name].(certificate := Some(RegValue(Binary, der)))];
      PassOne(start, name, der, value, passed, stages, keys, 3);
      passed, stages := passed + [keys], stages + [3];
      history := was + passed;
      Behind(was, passed);
      ok := true;
    }
  }
}
