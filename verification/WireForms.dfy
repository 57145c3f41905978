/** What is written for each message, and every other form of it that reads the same. */
module WireForms {
  import opened Basics
  import opened Messages
  import opened Wire

  datatype Field = Field(key: string, value: seq<Token>)

  function Body(fs: seq<Field>): seq<Token> {
    if fs == [] then [] else [StrToken(fs[0].key)] + fs[0].value + Body(fs[1..])
  }

  /** A map of these fields. */
  function Message(fs: seq<Field>): seq<Token> {
    [MapToken(|fs|)] + Body(fs)
  }

  // ---------------------------------------------------------------- what is written

  function Strs(items: seq<string>): seq<Token> {
    [ArrayToken(|items|)] + Map(s => StrToken(s), items)
  }

  function OptStr(o: Option<string>): seq<Token> {
    [if o.Some? then StrToken(o.value) else NilToken]
  }

  function RequestFields(r: Request): seq<Field> {
    match r
    case Roots(withDer, purpose) =>
      [Field("query", [StrToken("roots")]), Field("with_der", [BoolToken(withDer)]), Field("purpose", OptStr(purpose))]
    case Subscribe(withDer) => [Field("query", [StrToken("subscribe")]), Field("with_der", [BoolToken(withDer)])]
    case GetStatus => [Field("query", [StrToken("status")])]
    case Reload => [Field("query", [StrToken("reload")])]
  }

  function RootFields(r: Root): seq<Field> {
    [Field("fingerprint", [StrToken(r.fingerprint)]),
     Field("subject", [StrToken(r.subject)]),
     Field("purposes", Strs(r.purposes)),
     Field("source", [StrToken(SourceName(r.source))]),
     Field("name", OptStr(r.name)),
     Field("not_after", [IntToken(r.notAfter)]),
     Field("der", [BinToken(r.der)])]
  }

  function StatusFields(s: Status): seq<Field> {
    [Field("ok", [BoolToken(true)]),
     Field("kind", [StrToken("status")]),
     Field("generation", [UintToken(s.generation)]),
     Field("health", [StrToken(HealthName(s.health))]),
     Field("message", OptStr(s.message)),
     Field("shipped", [UintToken(s.shipped)]),
     Field("added", [UintToken(s.added)]),
     Field("distrusted", [UintToken(s.distrusted)]),
     Field("skipped", [UintToken(s.skipped)]),
     Field("effective", [UintToken(s.effective)]),
     Field("compat_mode", [UintToken(s.compatMode)]),
     Field("rendered", Strs(s.rendered))]
  }

  /** A reply's fields, given some form of each root it carries. */
  function ReplyFields(r: Reply, roots: seq<seq<Token>>): seq<Field> {
    match r
    case Done => [Field("ok", [BoolToken(true)])]
    case Refused(message) => [Field("ok", [BoolToken(false)]), Field("error", [StrToken(message)])]
    case RootsChunk(generation, _, more) =>
      [Field("ok", [BoolToken(true)]),
       Field("kind", [StrToken("roots")]),
       Field("generation", [UintToken(generation)]),
       Field("more", [BoolToken(more)]),
       Field("roots", [ArrayToken(|roots|)] + Flatten(roots))]
    case StatusReply(s) => StatusFields(s)
  }

  function EncodeRequest(r: Request): seq<Token> {
    Message(RequestFields(r))
  }

  function EncodeRoot(r: Root): seq<Token> {
    Message(RootFields(r))
  }

  function EncodeReply(r: Reply): seq<Token> {
    Message(ReplyFields(r, if r.RootsChunk? then Map(EncodeRoot, r.roots) else []))
  }

  // ---------------------------------------------------------------- readers in general

  type Reader = (string, seq<Token>) -> Read<Value>

  /** What is read does not depend on what follows it. */
  ghost predicate Local(read: Reader) {
    forall key, ts, rest: seq<Token> | read(key, ts).Ok? ::
      read(key, ts + rest) == Ok((read(key, ts).value.0, read(key, ts).value.1 + rest))
  }

  /** Whatever is read is exactly one value. */
  ghost predicate TakesOne(read: Reader) {
    forall key, ts | read(key, ts).Ok? :: Skip(ts, 1) == Some(read(key, ts).value.1)
  }

  predicate IsOneValue(ts: seq<Token>) {
    Skip(ts, 1) == Some([])
  }

  /** The field is read whole. */
  predicate Reads(read: Reader, f: Field) {
    read(f.key, f.value).Ok? && read(f.key, f.value).value.1 == []
  }

  ghost predicate AllRead(read: Reader, fs: seq<Field>) {
    forall f | f in fs :: Reads(read, f)
  }

  predicate DistinctKeys(fs: seq<Field>) {
    forall i, j | 0 <= i < j < |fs| :: fs[i].key != fs[j].key
  }

  function FillOne(read: Reader, slots: Slots, f: Field): Slots {
    if Reads(read, f) then Put(slots, f.key, read(f.key, f.value).value.0) else slots
  }

  /** The slots these fields fill. */
  function Fill(read: Reader, slots: Slots, fs: seq<Field>): Slots
    decreases |fs|
  {
    if fs == [] then slots else Fill(read, FillOne(read, slots, fs[0]), fs[1..])
  }

  lemma {:induction false} FieldsFill(read: Reader, fs: seq<Field>, seen: seq<string>, slots: Slots, rest: seq<Token>)
    requires Local(read) && AllRead(read, fs) && DistinctKeys(fs) && forall f | f in fs :: f.key !in seen
    ensures Fields(read, |fs|, seen, slots, Body(fs) + rest) == Ok((Fill(read, slots, fs), rest))
    decreases |fs|
  {
    hide Local;
    if fs == [] {
      assert Body(fs) + rest == rest;
    } else {
      var f := fs[0];
      var others := Body(fs[1..]) + rest;
      assert Body(fs) + rest == [StrToken(f.key)] + (f.value + others);
      assert f in fs;
      LocalAt(read, f, others);
      FieldsFill(read, fs[1..], seen + [f.key], Put(slots, f.key, read(f.key, f.value).value.0), rest);
    }
  }

  lemma LocalAt(read: Reader, f: Field, rest: seq<Token>)
    requires Local(read) && Reads(read, f)
    ensures read(f.key, f.value + rest) == Ok((read(f.key, f.value).value.0, rest))
  {
    assert [] + rest == rest;
  }

  /** A message of fields that are all read, under keys that are all different, fills the slots. */
  lemma {:induction false} MessageFills(read: Reader, fs: seq<Field>, rest: seq<Token>)
    requires Local(read) && AllRead(read, fs) && DistinctKeys(fs)
    ensures ReadFields(read, Message(fs) + rest) == Ok((Fill(read, map[], fs), rest))
  {
    hide Local, Fields, Fill, Body;
    assert (Message(fs) + rest)[1..] == Body(fs) + rest;
    FieldsFill(read, fs, [], map[], rest);
  }

  // ---------------------------------------------------------------- what is found in the slots

  /** The field adds nothing under this key. */
  predicate Silent(read: Reader, f: Field, key: string) {
    f.key == key ==> !Reads(read, f) || read(f.key, f.value).value.0.VSkipped?
  }

  lemma {:induction false} FillLeaves(read: Reader, slots: Slots, fs: seq<Field>, key: string)
    requires forall f | f in fs :: Silent(read, f, key)
    ensures key in Fill(read, slots, fs) <==> key in slots
    ensures key in slots ==> Fill(read, slots, fs)[key] == slots[key]
    decreases |fs|
  {
    if fs != [] {
      assert Silent(read, fs[0], key);
      FillLeaves(read, FillOne(read, slots, fs[0]), fs[1..], key);
    }
  }

  lemma {:induction false} FillHas(read: Reader, slots: Slots, fs: seq<Field>, f: Field)
    requires DistinctKeys(fs) && f in fs && Reads(read, f) && !read(f.key, f.value).value.0.VSkipped?
    ensures f.key in Fill(read, slots, fs) && Fill(read, slots, fs)[f.key] == read(f.key, f.value).value.0
    decreases |fs|
  {
    if fs[0] == f {
      assert forall g | g in fs[1..] :: g.key != f.key;
      FillLeaves(read, FillOne(read, slots, f), fs[1..], f.key);
    } else {
      FillHas(read, FillOne(read, slots, fs[0]), fs[1..], f);
    }
  }
}
