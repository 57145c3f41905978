/** Messages read back: what was written, the same fields in any order with others between, and nothing said twice. */
module RoundTrips {
  import opened Basics
  import opened Messages
  import opened Wire
  import opened WireForms

  // ---------------------------------------------------------------- values

  lemma {:induction false} SkipLocal(ts: seq<Token>, n: nat, rest: seq<Token>)
    requires Skip(ts, n).Some?
    ensures Skip(ts + rest, n) == Some(Skip(ts, n).value + rest)
    decreases |ts|
  {
    if n > 0 {
      assert (ts + rest)[1..] == ts[1..] + rest;
      match ts[0]
      case ArrayToken(count) => SkipLocal(ts[1..], n - 1 + count, rest);
      case MapToken(count) => SkipLocal(ts[1..], n - 1 + 2 * count, rest);
      case _ => SkipLocal(ts[1..], n - 1, rest);
    }
  }

  lemma {:induction false} SkipSplits(ts: seq<Token>, m: nat, n: nat)
    requires Skip(ts, m).Some?
    ensures Skip(ts, m + n) == Skip(Skip(ts, m).value, n)
    decreases |ts|
  {
    if m > 0 {
      match ts[0]
      case ArrayToken(count) => SkipSplits(ts[1..], m - 1 + count, n);
      case MapToken(count) => SkipSplits(ts[1..], m - 1 + 2 * count, n);
      case _ => SkipSplits(ts[1..], m - 1, n);
    }
  }

  lemma {:induction false} StrsLocal(ts: seq<Token>, n: nat, rest: seq<Token>)
    requires ReadStrs(ts, n).Ok?
    ensures ReadStrs(ts + rest, n) == Ok((ReadStrs(ts, n).value.0, ReadStrs(ts, n).value.1 + rest))
    ensures Skip(ts, n) == Some(ReadStrs(ts, n).value.1)
    decreases n
  {
    if n > 0 {
      assert (ts + rest)[1..] == ts[1..] + rest;
      StrsLocal(ts[1..], n - 1, rest);
    }
  }

  lemma ScalarLocal(kind: Kind, ts: seq<Token>, rest: seq<Token>)
    requires ReadScalar(kind, ts).Ok?
    ensures ReadScalar(kind, ts + rest) == Ok((ReadScalar(kind, ts).value.0, ReadScalar(kind, ts).value.1 + rest))
    ensures Skip(ts, 1) == Some(ReadScalar(kind, ts).value.1)
  {
    if kind.KUnknown? {
      SkipLocal(ts, 1, rest);
    } else {
      assert (ts + rest)[1..] == ts[1..] + rest;
      if kind.KStrs? {
        StrsLocal(ts[1..], ts[0].count, rest);
      }
    }
  }

  lemma {:induction false} FieldsLocal(read: Reader, n: nat, seen: seq<string>, slots: Slots, ts: seq<Token>,
      rest: seq<Token>)
    requires Local(read) && TakesOne(read) && Fields(read, n, seen, slots, ts).Ok?
    ensures var r := Fields(read, n, seen, slots, ts).value;
            Fields(read, n, seen, slots, ts + rest) == Ok((r.0, r.1 + rest)) && Skip(ts, 2 * n) == Some(r.1)
    decreases n
  {
    if n > 0 {
      assert (ts + rest)[1..] == ts[1..] + rest;
      var key, after := ts[0].s, ts[1..];
      var value := read(key, after).value;
      assert read(key, after + rest) == Ok((value.0, value.1 + rest));
      FieldsLocal(read, n - 1, seen + [key], Put(slots, key, value.0), value.1, rest);
      SkipSplits(after, 1, 2 * (n - 1));
    }
  }

  lemma {:induction false} ReadFieldsLocal(read: Reader, ts: seq<Token>, rest: seq<Token>)
    requires Local(read) && TakesOne(read) && ReadFields(read, ts).Ok?
    ensures var r := ReadFields(read, ts).value;
            ReadFields(read, ts + rest) == Ok((r.0, r.1 + rest)) && Skip(ts, 1) == Some(r.1)
  {
    hide Local, TakesOne, Fields;
    assert (ts + rest)[1..] == ts[1..] + rest;
    FieldsLocal(read, ts[0].count, [], map[], ts[1..], rest);
  }

  lemma {:induction false} RootReaderIsLocal()
    ensures Local(RootValue) && TakesOne(RootValue)
  {
    hide ReadScalar, RootKind, Skip;
    forall key, ts, rest: seq<Token> | RootValue(key, ts).Ok?
      ensures RootValue(key, ts + rest) == Ok((RootValue(key, ts).value.0, RootValue(key, ts).value.1 + rest))
    {
      ScalarLocal(RootKind(key), ts, rest);
    }
    forall key, ts | RootValue(key, ts).Ok? ensures Skip(ts, 1) == Some(RootValue(key, ts).value.1) {
      ScalarLocal(RootKind(key), ts, []);
    }
  }

  lemma {:induction false} RequestReaderIsLocal()
    ensures Local(RequestValue) && TakesOne(RequestValue)
  {
    hide ReadScalar, RequestKind, Skip;
    forall key, ts, rest: seq<Token> | RequestValue(key, ts).Ok?
      ensures RequestValue(key, ts + rest) == Ok((RequestValue(key, ts).value.0, RequestValue(key, ts).value.1 + rest))
    {
      ScalarLocal(RequestKind(key), ts, rest);
    }
    forall key, ts | RequestValue(key, ts).Ok? ensures Skip(ts, 1) == Some(RequestValue(key, ts).value.1) {
      ScalarLocal(RequestKind(key), ts, []);
    }
  }

  lemma {:induction false} RootsLocal(ts: seq<Token>, n: nat, rest: seq<Token>)
    requires ReadRoots(ts, n).Ok?
    ensures ReadRoots(ts + rest, n) == Ok((ReadRoots(ts, n).value.0, ReadRoots(ts, n).value.1 + rest))
    ensures Skip(ts, n) == Some(ReadRoots(ts, n).value.1)
    decreases n
  {
    hide ReadFields, BuildRoot, Skip;
    if n > 0 {
      RootReaderIsLocal();
      ReadFieldsLocal(RootValue, ts, rest);
      var others := DecodeRoot(ts).value.1;
      RootsLocal(others, n - 1, rest);
      SkipSplits(ts, 1, n - 1);
    } else {
      SkipNone(ts);
    }
  }

  lemma SkipNone(ts: seq<Token>)
    ensures Skip(ts, 0) == Some(ts)
  {}

  lemma SkipArray(ts: seq<Token>)
    requires ReadArray(ts).Ok?
    ensures Skip(ts, 1) == Skip(ts[1..], ts[0].count)
  {}

  lemma {:induction false} ReplyValueLocal(key: string, ts: seq<Token>, rest: seq<Token>)
    requires ReplyValue(key, ts).Ok?
    ensures ReplyValue(key, ts + rest) == Ok((ReplyValue(key, ts).value.0, ReplyValue(key, ts).value.1 + rest))
    ensures Skip(ts, 1) == Some(ReplyValue(key, ts).value.1)
  {
    hide ReadScalar, ReplyKind, ReadRoots, Skip;
    if ReplyKind(key).KRoots? {
      assert (ts + rest)[1..] == ts[1..] + rest;
      RootsLocal(ts[1..], ts[0].count, rest);
      SkipArray(ts);
    } else {
      ScalarLocal(ReplyKind(key), ts, rest);
    }
  }

  lemma {:induction false} ReplyReaderIsLocal()
    ensures Local(ReplyValue) && TakesOne(ReplyValue)
  {
    hide ReplyValue, Skip;
    forall key, ts, rest: seq<Token> | ReplyValue(key, ts).Ok?
      ensures ReplyValue(key, ts + rest) == Ok((ReplyValue(key, ts).value.0, ReplyValue(key, ts).value.1 + rest))
    {
      ReplyValueLocal(key, ts, rest);
    }
    forall key, ts | ReplyValue(key, ts).Ok? ensures Skip(ts, 1) == Some(ReplyValue(key, ts).value.1) {
      ReplyValueLocal(key, ts, []);
    }
  }

  // ---------------------------------------------------------------- nothing said twice

  /** Every field holds one value, of any sort. */
  predicate WellFormed(fs: seq<Field>) {
    forall f | f in fs :: IsOneValue(f.value)
  }

  predicate Repeats(fs: seq<Field>, seen: seq<string>) {
    exists i :: 0 <= i < |fs| && (fs[i].key in seen || exists j :: 0 <= j < i && fs[j].key == fs[i].key)
  }

  lemma {:induction false} RepeatIsRefused(read: Reader, fs: seq<Field>, seen: seq<string>, slots: Slots,
      rest: seq<Token>)
    requires Local(read) && TakesOne(read) && WellFormed(fs) && Repeats(fs, seen)
    ensures Fields(read, |fs|, seen, slots, Body(fs) + rest).Err?
    decreases |fs|
  {
    hide Local, TakesOne;
    var f := fs[0];
    var others := Body(fs[1..]) + rest;
    assert Body(fs) + rest == [StrToken(f.key)] + (f.value + others);
    if f.key !in seen && read(f.key, f.value + others).Ok? {
      assert f in fs;
      OneTaken(read, f, others);
      var i :| 0 <= i < |fs| && (fs[i].key in seen || exists j :: 0 <= j < i && fs[j].key == fs[i].key);
      assert i > 0 && fs[1..][i - 1] == fs[i];
      if fs[i].key !in seen + [f.key] {
        var j :| 0 <= j < i && fs[j].key == fs[i].key;
        assert fs[1..][j - 1] == fs[j];
      }
      RepeatIsRefused(read, fs[1..], seen + [f.key], Put(slots, f.key, read(f.key, f.value + others).value.0), rest);
    }
  }

  lemma {:induction false} OneTaken(read: Reader, f: Field, others: seq<Token>)
    requires TakesOne(read) && IsOneValue(f.value) && read(f.key, f.value + others).Ok?
    ensures read(f.key, f.value + others).value.1 == others
  {
    hide Skip;
    SkipLocal(f.value, 1, others);
    assert [] + others == others;
  }

  lemma {:induction false} RepeatedFieldsRefused(read: Reader, fs: seq<Field>, rest: seq<Token>)
    requires Local(read) && TakesOne(read) && WellFormed(fs) && !DistinctKeys(fs)
    ensures ReadFields(read, Message(fs) + rest).Err?
  {
    hide Local, TakesOne, Fields, IsOneValue;
    assert (Message(fs) + rest)[1..] == Body(fs) + rest;
    var i, j :| 0 <= i < j < |fs| && fs[i].key == fs[j].key;
    assert Repeats(fs, []);
    RepeatIsRefused(read, fs, [], map[], rest);
  }

  /** A key given twice is refused, in a request, in a reply and in a root, whatever else is there. */
  lemma {:induction false} RepeatedKeysAreRefused(fs: seq<Field>, rest: seq<Token>)
    requires WellFormed(fs) && !DistinctKeys(fs)
    ensures DecodeRequest(Message(fs) + rest).Err?
    ensures DecodeReply(Message(fs) + rest).Err?
    ensures DecodeRoot(Message(fs) + rest).Err?
  {
    hide *;
    RequestReaderIsLocal();
    ReplyReaderIsLocal();
    RootReaderIsLocal();
    RepeatedFieldsRefused(RequestValue, fs, rest);
    RepeatedFieldsRefused(ReplyValue, fs, rest);
    RepeatedFieldsRefused(RootValue, fs, rest);
    DecodersFail(Message(fs) + rest);
  }

  lemma DecodersFail(ts: seq<Token>)
    ensures ReadFields(RequestValue, ts).Err? ==> DecodeRequest(ts).Err?
    ensures ReadFields(ReplyValue, ts).Err? ==> DecodeReply(ts).Err?
    ensures ReadFields(RootValue, ts).Err? ==> DecodeRoot(ts).Err?
  {}

  /** What a reader refuses, whatever follows it. */
  ghost predicate Refuses(read: Reader, f: Field) {
    forall others :: read(f.key, f.value + others).Err?
  }

  /** A field that cannot be read is refused, wherever it stands. */
  lemma {:induction false} BadFieldIsRefused(read: Reader, fs: seq<Field>, i: nat, seen: seq<string>, slots: Slots,
                                             rest: seq<Token>)
    requires TakesOne(read) && WellFormed(fs) && i < |fs| && Refuses(read, fs[i])
    ensures Fields(read, |fs|, seen, slots, Body(fs) + rest).Err?
    decreases i
  {
    hide TakesOne;
    var f := fs[0];
    var others := Body(fs[1..]) + rest;
    assert Body(fs) + rest == [StrToken(f.key)] + (f.value + others);
    if f.key !in seen && read(f.key, f.value + others).Ok? {
      assert f in fs && i > 0;
      OneTaken(read, f, others);
      BadFieldIsRefused(read, fs[1..], i - 1, seen + [f.key], Put(slots, f.key, read(f.key, f.value + others).value.0),
                        rest);
    }
  }

  /** Roots, one of which gives a key twice; the others may be any values. */
  ghost predicate RepeatsInRoot(forms: seq<seq<Token>>, k: nat, gs: seq<Field>) {
    && k < |forms| && forms[k] == Message(gs) && WellFormed(gs) && !DistinctKeys(gs)
    && forall form | form in forms :: IsOneValue(form)
  }

  lemma {:induction false} RepeatInRootsIsRefused(forms: seq<seq<Token>>, k: nat, gs: seq<Field>, rest: seq<Token>)
    requires RepeatsInRoot(forms, k, gs)
    ensures ReadRoots(Flatten(forms) + rest, |forms|).Err?
    decreases k
  {
    hide DecodeRoot, Message, WellFormed, DistinctKeys, IsOneValue, Skip;
    var others := Flatten(forms[1..]) + rest;
    assert Flatten(forms) + rest == forms[0] + others;
    if k == 0 {
      RepeatedKeysAreRefused(gs, others);
    } else if DecodeRoot(forms[0] + others).Ok? {
      assert forms[0] in forms;
      OneRootTaken(forms[0], others);
      RepeatInRootsIsRefused(forms[1..], k - 1, gs, rest);
    }
  }

  lemma {:induction false} OneRootTaken(form: seq<Token>, others: seq<Token>)
    requires IsOneValue(form) && DecodeRoot(form + others).Ok?
    ensures DecodeRoot(form + others).value.1 == others
  {
    hide Skip, ReadFields, BuildRoot;
    RootReaderIsLocal();
    ReadFieldsLocal(RootValue, form + others, []);
    SkipLocal(form, 1, others);
    assert [] + others == others;
  }

  /** A reply is refused when any root it carries gives a key twice. */
  lemma {:induction false} RepeatInRootRefusesReply(fs: seq<Field>, i: nat, forms: seq<seq<Token>>, k: nat,
                                                    gs: seq<Field>, rest: seq<Token>)
    requires WellFormed(fs) && i < |fs| && fs[i] == Field("roots", [ArrayToken(|forms|)] + Flatten(forms))
    requires RepeatsInRoot(forms, k, gs)
    ensures DecodeReply(Message(fs) + rest).Err?
  {
    hide ReadRoots, Flatten, RepeatsInRoot, TakesOne, WellFormed, Fields;
    forall others ensures ReplyValue("roots", fs[i].value + others).Err? {
      RepeatInRootsIsRefused(forms, k, gs, others);
      assert (fs[i].value + others)[1..] == Flatten(forms) + others;
    }
    ReplyReaderIsLocal();
    BadFieldIsRefused(ReplyValue, fs, i, [], map[], rest);
    assert (Message(fs) + rest)[1..] == Body(fs) + rest;
  }

  // ---------------------------------------------------------------- reading back

  /** One value under a key this reader does not know. */
  ghost predicate Foreign(kindOf: string -> Kind, f: Field) {
    kindOf(f.key).KUnknown? && IsOneValue(f.value)
  }

  /**
    A form of a message: its own fields and others this reader does not know, in any order, no key twice.
   */
  ghost predicate IsForm(kindOf: string -> Kind, own: seq<Field>, extras: seq<Field>, fs: seq<Field>) {
    Permutation(own + extras, fs) && DistinctKeys(fs) && forall f | f in extras :: Foreign(kindOf, f)
  }

  lemma FormMembers(kindOf: string -> Kind, own: seq<Field>, extras: seq<Field>, fs: seq<Field>)
    requires IsForm(kindOf, own, extras, fs)
    ensures forall f | f in fs :: f in own || Foreign(kindOf, f)
    ensures forall f | f in own :: f in fs
  {
    PermutationMembers(own + extras, fs);
  }

  /** The field is read whole, as this value. */
  predicate Yields(read: Reader, f: Field, value: Value) {
    read(f.key, f.value) == Ok((value, []))
  }

  lemma StrsYield(items: seq<string>)
    ensures StrList(Strs(items)) == Ok((items, []))
  {
    var tokens := Map(s => StrToken(s), items);
    assert Strs(items)[1..] == tokens;
    StrsRead(items);
  }

  lemma {:induction false} StrsRead(items: seq<string>)
    ensures ReadStrs(Map(s => StrToken(s), items), |items|) == Ok((items, []))
  {
    if items != [] {
      assert Map(s => StrToken(s), items)[1..] == Map(s => StrToken(s), items[1..]);
      StrsRead(items[1..]);
      assert [items[0]] + items[1..] == items;
    }
  }

  /** The slots hold what these fields say, and nothing under any other key. */
  ghost predicate SlotsFilled(read: Reader, slots: Slots, own: seq<Field>) {
    && (forall f | f in own :: f.key in slots && Yields(read, f, slots[f.key]))
    && (forall key | key in slots :: exists f :: f in own && f.key == key)
  }

  ghost predicate AllYield(read: Reader, own: seq<Field>) {
    forall f | f in own :: Reads(read, f) && !read(f.key, f.value).value.0.VSkipped?
  }

  ghost predicate SkipsForeign(read: Reader, kindOf: string -> Kind) {
    forall f: Field | Foreign(kindOf, f) :: Yields(read, f, VSkipped)
  }

  /** Every form of a message fills the same slots. */
  lemma {:induction false} FormFills(read: Reader, kindOf: string -> Kind, own: seq<Field>, extras: seq<Field>,
                                     fs: seq<Field>, rest: seq<Token>)
    requires Local(read) && SkipsForeign(read, kindOf) && AllYield(read, own) && IsForm(kindOf, own, extras, fs)
    ensures ReadFields(read, Message(fs) + rest) == Ok((Fill(read, map[], fs), rest))
    ensures SlotsFilled(read, Fill(read, map[], fs), own)
  {
    hide Local, Fill, ReadFields, Foreign, Message;
    FormMembers(kindOf, own, extras, fs);
    forall f | f in fs ensures Reads(read, f) {
      assert f in own || Yields(read, f, VSkipped);
    }
    MessageFills(read, fs, rest);
    var slots := Fill(read, map[], fs);
    forall f | f in own ensures f.key in slots && Yields(read, f, slots[f.key]) {
      FillHas(read, map[], fs, f);
    }
    forall key | key in slots ensures exists f :: f in own && f.key == key {
      if forall f | f in own :: f.key != key {
        forall f | f in fs ensures Silent(read, f, key) {
          assert f in own || Yields(read, f, VSkipped);
        }
        FillLeaves(read, map[], fs, key);
      }
    }
  }

  lemma {:induction false} AllSkipForeign()
    ensures SkipsForeign(RequestValue, RequestKind)
    ensures SkipsForeign(RootValue, RootKind)
    ensures SkipsForeign(ReplyValue, ReplyKind)
  {
    hide RequestKind, RootKind, ReplyKind, Skip;
  }

  /** A reader that reads this kind of value under a key. */
  predicate ReadsKind(read: Reader, key: string, kind: Kind, value: seq<Token>) {
    read(key, value) == ReadScalar(kind, value)
  }

  predicate IsTokenKind(kind: Kind) {
    kind.KBool? || kind.KStr? || kind.KOptStr? || kind.KUint? || kind.KInt? || kind.KBin?
  }

  lemma TokenYields(read: Reader, key: string, kind: Kind, t: Token)
    requires ReadsKind(read, key, kind, [t]) && IsTokenKind(kind) && ReadToken(kind, t).Some?
    ensures Yields(read, Field(key, [t]), ReadToken(kind, t).value)
  {
    assert [t][1..] == [];
  }

  lemma {:induction false} StrsFieldYields(read: Reader, key: string, items: seq<string>)
    requires ReadsKind(read, key, KStrs, Strs(items))
    ensures Yields(read, Field(key, Strs(items)), VStrs(items))
  {
    hide StrList, Strs;
    StrsYield(items);
  }

  lemma {:induction false} SlotFilled(read: Reader, slots: Slots, own: seq<Field>, i: nat, value: Value)
    requires SlotsFilled(read, slots, own) && i < |own| && Yields(read, own[i], value)
    ensures own[i].key in slots && slots[own[i].key] == value
  {
    assert own[i] in own;
  }

  lemma RequestKinds()
    ensures RequestKind("query") == KStr && RequestKind("with_der") == KBool && RequestKind("purpose") == KOptStr
  {}

  lemma RootKinds()
    ensures RootKind("fingerprint") == KStr && RootKind("subject") == KStr && RootKind("source") == KStr
    ensures RootKind("purposes") == KStrs && RootKind("name") == KOptStr
    ensures RootKind("not_after") == KInt && RootKind("der") == KBin
  {}

  lemma ReplyKinds()
    ensures ReplyKind("ok") == KBool && ReplyKind("more") == KBool
    ensures ReplyKind("error") == KStr && ReplyKind("kind") == KStr && ReplyKind("health") == KStr
    ensures ReplyKind("message") == KOptStr && ReplyKind("rendered") == KStrs && ReplyKind("roots") == KRoots
  {}

  lemma UintKinds()
    ensures ReplyKind("generation") == KUint && ReplyKind("shipped") == KUint && ReplyKind("added") == KUint
    ensures ReplyKind("distrusted") == KUint && ReplyKind("skipped") == KUint && ReplyKind("effective") == KUint
    ensures ReplyKind("compat_mode") == KUint
  {}

  // ---------------------------------------------------------------- requests

  /** What each field of a request is read as. */
  function RequestValues(r: Request): seq<Value> {
    match r
    case Roots(withDer, purpose) => [VStr("roots"), VBool(withDer), VOptStr(purpose)]
    case Subscribe(withDer) => [VStr("subscribe"), VBool(withDer)]
    case GetStatus => [VStr("status")]
    case Reload => [VStr("reload")]
  }

  /** Each field is read whole, as the value at its place. */
  ghost predicate YieldEach(read: Reader, own: seq<Field>, values: seq<Value>) {
    |own| == |values| && forall i | 0 <= i < |own| :: Yields(read, own[i], values[i]) && !values[i].VSkipped?
  }

  lemma EachAll(read: Reader, own: seq<Field>, values: seq<Value>)
    requires YieldEach(read, own, values)
    ensures AllYield(read, own)
  {
    forall f | f in own ensures Reads(read, f) && !read(f.key, f.value).value.0.VSkipped? {
      var i :| 0 <= i < |own| && own[i] == f;
      assert Yields(read, own[i], values[i]);
    }
  }

  lemma {:induction false} RequestYields(r: Request)
    ensures YieldEach(RequestValue, RequestFields(r), RequestValues(r))
  {
    hide RequestKind, ReadScalar;
    RequestKinds();
    match r
    case Roots(withDer, purpose) =>
      TokenYields(RequestValue, "query", KStr, StrToken("roots"));
      TokenYields(RequestValue, "with_der", KBool, BoolToken(withDer));
      TokenYields(RequestValue, "purpose", KOptStr, OptStr(purpose)[0]);
    case Subscribe(withDer) =>
      TokenYields(RequestValue, "query", KStr, StrToken("subscribe"));
      TokenYields(RequestValue, "with_der", KBool, BoolToken(withDer));
    case GetStatus => TokenYields(RequestValue, "query", KStr, StrToken("status"));
    case Reload => TokenYields(RequestValue, "query", KStr, StrToken("reload"));
  }

  lemma {:induction false} RequestBuilds(r: Request, slots: Slots)
    requires SlotsFilled(RequestValue, slots, RequestFields(r))
    ensures BuildRequest(slots) == Ok(r)
  {
    hide RequestValue, SlotsFilled, Yields;
    RequestYields(r);
    var own := RequestFields(r);
    SlotFilled(RequestValue, slots, own, 0, RequestValues(r)[0]);
    if r.Roots? || r.Subscribe? {
      SlotFilled(RequestValue, slots, own, 1, RequestValues(r)[1]);
    }
    if r.Roots? {
      SlotFilled(RequestValue, slots, own, 2, RequestValues(r)[2]);
    }
  }

  /** Every form of a request reads as that request. */
  lemma {:induction false} RequestReads(r: Request, extras: seq<Field>, fs: seq<Field>, rest: seq<Token>)
    requires IsForm(RequestKind, RequestFields(r), extras, fs)
    ensures DecodeRequest(Message(fs) + rest) == Ok(r)
  {
    hide *;
    RequestReaderIsLocal();
    AllSkipForeign();
    RequestYields(r);
    EachAll(RequestValue, RequestFields(r), RequestValues(r));
    FormFills(RequestValue, RequestKind, RequestFields(r), extras, fs, rest);
    RequestBuilds(r, Fill(RequestValue, map[], fs));
    RequestDecodes(Message(fs) + rest);
  }

  lemma RequestDecodes(ts: seq<Token>)
    requires ReadFields(RequestValue, ts).Ok?
    ensures DecodeRequest(ts) == BuildRequest(ReadFields(RequestValue, ts).value.0)
  {}

  lemma {:induction false} Itself(kindOf: string -> Kind, own: seq<Field>)
    requires DistinctKeys(own)
    ensures IsForm(kindOf, own, [], own)
    ensures Message(own) + [] == Message(own)
  {
    hide DistinctKeys;
    assert own + [] == own;
  }

  lemma RequestKeysDiffer(r: Request)
    ensures DistinctKeys(RequestFields(r))
  {}

  lemma {:induction false} RequestRoundTrips(r: Request)
    ensures DecodeRequest(EncodeRequest(r)) == Ok(r)
  {
    hide DecodeRequest, RequestFields, Message, RequestKind, IsForm;
    RequestKeysDiffer(r);
    Itself(RequestKind, RequestFields(r));
    RequestReads(r, [], RequestFields(r), []);
  }

  // ---------------------------------------------------------------- roots

  function RootValues(r: Root): seq<Value> {
    [VStr(r.fingerprint), VStr(r.subject), VStrs(r.purposes), VStr(SourceName(r.source)), VOptStr(r.name),
        VInt(r.notAfter),
     VBin(r.der)]
  }

  lemma {:induction false} RootYields(r: Root)
    ensures YieldEach(RootValue, RootFields(r), RootValues(r))
  {
    hide RootKind, ReadScalar, Strs, SourceName;
    RootKinds();
    TokenYields(RootValue, "fingerprint", KStr, StrToken(r.fingerprint));
    TokenYields(RootValue, "subject", KStr, StrToken(r.subject));
    StrsFieldYields(RootValue, "purposes", r.purposes);
    TokenYields(RootValue, "source", KStr, StrToken(SourceName(r.source)));
    TokenYields(RootValue, "name", KOptStr, OptStr(r.name)[0]);
    TokenYields(RootValue, "not_after", KInt, IntToken(r.notAfter));
    TokenYields(RootValue, "der", KBin, BinToken(r.der));
  }

  lemma {:induction false} RootBuilds(r: Root, slots: Slots)
    requires SlotsFilled(RootValue, slots, RootFields(r))
    ensures BuildRoot(slots) == r
  {
    hide RootValue, SlotsFilled, Yields, Strs;
    RootYields(r);
    var own, values := RootFields(r), RootValues(r);
    SlotFilled(RootValue, slots, own, 0, values[0]);
    SlotFilled(RootValue, slots, own, 1, values[1]);
    SlotFilled(RootValue, slots, own, 2, values[2]);
    SlotFilled(RootValue, slots, own, 3, values[3]);
    SlotFilled(RootValue, slots, own, 4, values[4]);
    SlotFilled(RootValue, slots, own, 5, values[5]);
    SlotFilled(RootValue, slots, own, 6, values[6]);
  }

  /** Some form of this root. */
  ghost predicate IsRootForm(ts: seq<Token>, r: Root) {
    exists extras: seq<Field>, fs: seq<Field> :: ts == Message(fs) && IsForm(RootKind, RootFields(r), extras, fs)
  }

  lemma {:induction false} RootReads(ts: seq<Token>, r: Root, rest: seq<Token>)
    requires IsRootForm(ts, r)
    ensures DecodeRoot(ts + rest) == Ok((r, rest))
  {
    var extras: seq<Field>, fs: seq<Field> :| ts == Message(fs) && IsForm(RootKind, RootFields(r), extras, fs);
    hide *;
    RootReaderIsLocal();
    AllSkipForeign();
    RootYields(r);
    EachAll(RootValue, RootFields(r), RootValues(r));
    FormFills(RootValue, RootKind, RootFields(r), extras, fs, rest);
    RootBuilds(r, Fill(RootValue, map[], fs));
    RootDecodes(Message(fs) + rest);
  }

  lemma RootDecodes(ts: seq<Token>)
    requires ReadFields(RootValue, ts).Ok?
    ensures DecodeRoot(ts) == Ok((BuildRoot(ReadFields(RootValue, ts).value.0), ReadFields(RootValue, ts).value.1))
  {}

  lemma RootKeysDiffer(r: Root)
    ensures DistinctKeys(RootFields(r))
  {}

  lemma {:induction false} RootIsItsForm(r: Root)
    ensures IsRootForm(EncodeRoot(r), r)
  {
    hide RootFields, Message, RootKind, IsForm;
    RootKeysDiffer(r);
    Itself(RootKind, RootFields(r));
  }

  ghost predicate AreRootForms(forms: seq<seq<Token>>, roots: seq<Root>) {
    |forms| == |roots| && forall i | 0 <= i < |roots| :: IsRootForm(forms[i], roots[i])
  }

  lemma {:induction false} RootsRead(forms: seq<seq<Token>>, roots: seq<Root>)
    requires AreRootForms(forms, roots)
    ensures ReadRoots(Flatten(forms), |roots|) == Ok((roots, []))
    decreases |roots|
  {
    hide DecodeRoot, IsRootForm;
    if roots != [] {
      RootReads(forms[0], roots[0], Flatten(forms[1..]));
      RootsRead(forms[1..], roots[1..]);
      assert [roots[0]] + roots[1..] == roots;
    }
  }

  // ---------------------------------------------------------------- replies

  ghost predicate FormsFor(r: Reply, forms: seq<seq<Token>>) {
    r.RootsChunk? ==> AreRootForms(forms, r.roots)
  }

  function StatusValues(s: Status): seq<Value> {
    [VBool(true), VStr("status"), VUint(s.generation), VStr(HealthName(s.health)), VOptStr(s.message), VUint(s.shipped),
     VUint(s.added), VUint(s.distrusted), VUint(s.skipped), VUint(s.effective), VUint(s.compatMode), VStrs(s.rendered)]
  }

  function ReplyValues(r: Reply): seq<Value> {
    match r
    case Done => [VBool(true)]
    case Refused(message) => [VBool(false), VStr(message)]
    case RootsChunk(generation, roots, more) =>
      [VBool(true), VStr("roots"), VUint(generation), VBool(more), VRoots(roots)]
    case StatusReply(s) => StatusValues(s)
  }

  lemma {:induction false} RootsYield(forms: seq<seq<Token>>, roots: seq<Root>)
    requires AreRootForms(forms, roots)
    ensures Yields(ReplyValue, Field("roots", [ArrayToken(|forms|)] + Flatten(forms)), VRoots(roots))
  {
    hide ReplyKind, ReadRoots, Flatten, IsRootForm;
    ReplyKinds();
    RootsRead(forms, roots);
    assert ([ArrayToken(|forms|)] + Flatten(forms))[1..] == Flatten(forms);
  }

  lemma {:induction false} StatusHeadYields(s: Status, i: nat)
    requires i < 6
    ensures Yields(ReplyValue, StatusFields(s)[i], StatusValues(s)[i])
  {
    hide ReplyKind, ReadScalar, Strs, HealthName, Yields;
    ReplyKinds();
    UintKinds();
    match i
    case 0 => TokenYields(ReplyValue, "ok", KBool, BoolToken(true));
    case 1 => TokenYields(ReplyValue, "kind", KStr, StrToken("status"));
    case 2 => TokenYields(ReplyValue, "generation", KUint, UintToken(s.generation));
    case 3 => TokenYields(ReplyValue, "health", KStr, StrToken(HealthName(s.health)));
    case 4 => TokenYields(ReplyValue, "message", KOptStr, OptStr(s.message)[0]);
    case _ => TokenYields(ReplyValue, "shipped", KUint, UintToken(s.shipped));
  }

  lemma {:induction false} StatusTailYields(s: Status, i: nat)
    requires 6 <= i < 12
    ensures Yields(ReplyValue, StatusFields(s)[i], StatusValues(s)[i])
  {
    hide ReplyKind, ReadScalar, Strs, HealthName, Yields;
    ReplyKinds();
    UintKinds();
    match i
    case 6 => TokenYields(ReplyValue, "added", KUint, UintToken(s.added));
    case 7 => TokenYields(ReplyValue, "distrusted", KUint, UintToken(s.distrusted));
    case 8 => TokenYields(ReplyValue, "skipped", KUint, UintToken(s.skipped));
    case 9 => TokenYields(ReplyValue, "effective", KUint, UintToken(s.effective));
    case 10 => TokenYields(ReplyValue, "compat_mode", KUint, UintToken(s.compatMode));
    case _ => StrsFieldYields(ReplyValue, "rendered", s.rendered);
  }

  lemma StatusValuesGiven(s: Status, i: nat)
    requires i < 12
    ensures |StatusValues(s)| == |StatusFields(s)| == 12 && !StatusValues(s)[i].VSkipped?
  {}

  lemma {:induction false} StatusYields(s: Status)
    ensures YieldEach(ReplyValue, StatusFields(s), StatusValues(s))
  {
    hide StatusFields, StatusValues, Yields;
    StatusValuesGiven(s, 0);
    forall i | 0 <= i < 12 ensures Yields(ReplyValue, StatusFields(s)[i], StatusValues(s)[i])
        && !StatusValues(s)[i].VSkipped? {
      StatusValuesGiven(s, i);
      if i < 6 {
        StatusHeadYields(s, i);
      } else {
        StatusTailYields(s, i);
      }
    }
  }

  lemma {:induction false} ReplyYields(r: Reply, forms: seq<seq<Token>>)
    requires FormsFor(r, forms)
    ensures YieldEach(ReplyValue, ReplyFields(r, forms), ReplyValues(r))
  {
    hide ReplyKind, ReadScalar, ReadRoots, AreRootForms, Flatten, StatusFields, StatusValues;
    ReplyKinds();
    UintKinds();
    match r
    case Done =>
      TokenYields(ReplyValue, "ok", KBool, BoolToken(true));
    case Refused(message) =>
      TokenYields(ReplyValue, "ok", KBool, BoolToken(false));
      TokenYields(ReplyValue, "error", KStr, StrToken(message));
    case RootsChunk(generation, roots, more) =>
      TokenYields(ReplyValue, "ok", KBool, BoolToken(true));
      TokenYields(ReplyValue, "kind", KStr, StrToken("roots"));
      TokenYields(ReplyValue, "generation", KUint, UintToken(generation));
      TokenYields(ReplyValue, "more", KBool, BoolToken(more));
      RootsYield(forms, roots);
    case StatusReply(s) =>
      StatusYields(s);
  }

  lemma {:induction false} StatusHead(s: Status, slots: Slots)
    requires SlotsFilled(ReplyValue, slots, StatusFields(s))
    ensures "ok" in slots && BoolAt(slots, "ok") && StrAt(slots, "kind") == "status"
    ensures UintAt(slots, "generation") == s.generation && StrAt(slots, "health") == HealthName(s.health)
    ensures OptStrAt(slots, "message") == s.message && UintAt(slots, "shipped") == s.shipped
  {
    var own, values := StatusFields(s), StatusValues(s);
    hide ReplyValue, SlotsFilled, Yields, Strs, HealthName;
    StatusYields(s);
    SlotFilled(ReplyValue, slots, own, 0, values[0]);
    SlotFilled(ReplyValue, slots, own, 1, values[1]);
    SlotFilled(ReplyValue, slots, own, 2, values[2]);
    SlotFilled(ReplyValue, slots, own, 3, values[3]);
    SlotFilled(ReplyValue, slots, own, 4, values[4]);
    SlotFilled(ReplyValue, slots, own, 5, values[5]);
  }

  lemma {:induction false} StatusTail(s: Status, slots: Slots)
    requires SlotsFilled(ReplyValue, slots, StatusFields(s))
    ensures UintAt(slots, "added") == s.added && UintAt(slots, "distrusted") == s.distrusted
    ensures UintAt(slots, "skipped") == s.skipped && UintAt(slots, "effective") == s.effective
    ensures UintAt(slots, "compat_mode") == s.compatMode && StrsAt(slots, "rendered") == s.rendered
  {
    var own, values := StatusFields(s), StatusValues(s);
    hide ReplyValue, SlotsFilled, Yields, Strs, HealthName;
    StatusYields(s);
    SlotFilled(ReplyValue, slots, own, 6, values[6]);
    SlotFilled(ReplyValue, slots, own, 7, values[7]);
    SlotFilled(ReplyValue, slots, own, 8, values[8]);
    SlotFilled(ReplyValue, slots, own, 9, values[9]);
    SlotFilled(ReplyValue, slots, own, 10, values[10]);
    SlotFilled(ReplyValue, slots, own, 11, values[11]);
  }

  lemma {:induction false} StatusBuilds(s: Status, slots: Slots)
    requires SlotsFilled(ReplyValue, slots, StatusFields(s))
    ensures BuildReply(slots) == Ok(StatusReply(s))
  {
    hide SlotsFilled, StatusFields, UintAt, StrAt, OptStrAt, StrsAt, BoolAt;
    StatusHead(s, slots);
    StatusTail(s, slots);
  }

  lemma {:induction false} NoOtherSlot(slots: Slots)
    requires SlotsFilled(ReplyValue, slots, ReplyFields(Done, []))
    ensures "kind" !in slots
  {
    hide ReplyValue;
  }

  lemma {:induction false} ReplyBuilds(r: Reply, forms: seq<seq<Token>>, slots: Slots)
    requires FormsFor(r, forms) && SlotsFilled(ReplyValue, slots, ReplyFields(r, forms))
    ensures BuildReply(slots) == Ok(r)
  {
    hide ReplyValue, SlotsFilled, Yields, Flatten, AreRootForms, StatusFields, StatusValues, BuildStatus;
    ReplyYields(r, forms);
    var own, values := ReplyFields(r, forms), ReplyValues(r);
    match r
    case Done =>
      SlotFilled(ReplyValue, slots, own, 0, values[0]);
      NoOtherSlot(slots);
    case Refused(_) =>
      SlotFilled(ReplyValue, slots, own, 0, values[0]);
      SlotFilled(ReplyValue, slots, own, 1, values[1]);
    case RootsChunk(_, roots, _) =>
      SlotFilled(ReplyValue, slots, own, 0, values[0]);
      SlotFilled(ReplyValue, slots, own, 1, values[1]);
      SlotFilled(ReplyValue, slots, own, 2, values[2]);
      SlotFilled(ReplyValue, slots, own, 3, values[3]);
      SlotFilled(ReplyValue, slots, own, 4, values[4]);
    case StatusReply(s) =>
      StatusBuilds(s, slots);
  }

  /** Every form of a reply reads as that reply, whatever form of each root it carries. */
  lemma {:induction false} ReplyReads(r: Reply, forms: seq<seq<Token>>, extras: seq<Field>, fs: seq<Field>,
      rest: seq<Token>)
    requires FormsFor(r, forms) && IsForm(ReplyKind, ReplyFields(r, forms), extras, fs)
    ensures DecodeReply(Message(fs) + rest) == Ok(r)
  {
    hide *;
    ReplyReaderIsLocal();
    AllSkipForeign();
    ReplyYields(r, forms);
    EachAll(ReplyValue, ReplyFields(r, forms), ReplyValues(r));
    FormFills(ReplyValue, ReplyKind, ReplyFields(r, forms), extras, fs, rest);
    ReplyBuilds(r, forms, Fill(ReplyValue, map[], fs));
    ReplyDecodes(Message(fs) + rest);
  }

  lemma ReplyDecodes(ts: seq<Token>)
    requires ReadFields(ReplyValue, ts).Ok?
    ensures DecodeReply(ts) == BuildReply(ReadFields(ReplyValue, ts).value.0)
  {}

  lemma StatusKeysDiffer(s: Status)
    ensures DistinctKeys(StatusFields(s))
  {}

  lemma ReplyKeysDiffer(r: Reply, forms: seq<seq<Token>>)
    ensures DistinctKeys(ReplyFields(r, forms))
  {
    hide StatusFields, Flatten;
    if r.StatusReply? {
      StatusKeysDiffer(r.status);
    }
  }

  lemma {:induction false} WrittenRoots(roots: seq<Root>)
    ensures AreRootForms(Map(EncodeRoot, roots), roots)
  {
    hide IsRootForm, Map;
    forall i | 0 <= i < |roots| ensures IsRootForm(Map(EncodeRoot, roots)[i], roots[i]) {
      RootIsItsForm(roots[i]);
    }
  }

  lemma {:induction false} ReplyRoundTrips(r: Reply)
    ensures DecodeReply(EncodeReply(r)) == Ok(r)
  {
    var forms := if r.RootsChunk? then Map(EncodeRoot, r.roots) else [];
    hide DecodeReply, ReplyFields, Message, ReplyKind, IsForm, AreRootForms, Map;
    if r.RootsChunk? {
      WrittenRoots(r.roots);
    }
    ReplyKeysDiffer(r, forms);
    Itself(ReplyKind, ReplyFields(r, forms));
    ReplyReads(r, forms, [], ReplyFields(r, forms), []);
  }
}
