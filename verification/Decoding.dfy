/** What each field of a message says, whichever of them are there, and what a message written says on the wire. */
module Decoding {
  import opened Basics
  import opened Messages
  import opened Store
  import opened Wire
  import opened WireForms
  import RoundTrips

  // ---------------------------------------------------------------- fields that may be absent

  /** The message has this value under this key. */
  predicate Says(fs: seq<Field>, key: string, value: seq<Token>) {
    Field(key, value) in fs
  }

  predicate Absent(fs: seq<Field>, key: string) {
    forall f | f in fs :: f.key != key
  }

  ghost predicate Readable(read: Reader, fs: seq<Field>) {
    AllRead(read, fs) && DistinctKeys(fs)
  }

  /** A field that is there is found, and one that is not is missed. */
  lemma {:induction false} SlotOf(read: Reader, fs: seq<Field>, key: string, value: seq<Token>)
    requires Readable(read, fs)
    ensures Absent(fs, key) ==> key !in Fill(read, map[], fs)
    ensures Says(fs, key, value) && !read(key, value).value.0.VSkipped? ==>
              key in Fill(read, map[], fs) && Fill(read, map[], fs)[key] == read(key, value).value.0
  {
    hide Fill;
    if Absent(fs, key) {
      FillLeaves(read, map[], fs, key);
    }
    if Says(fs, key, value) && !read(key, value).value.0.VSkipped? {
      FillHas(read, map[], fs, Field(key, value));
    }
  }

  /** Text under a key, or none. */
  ghost predicate SaysText(fs: seq<Field>, key: string, text: string) {
    (Absent(fs, key) ==> text == "") && forall s | Says(fs, key, [StrToken(s)]) :: text == s
  }

  ghost predicate SaysTextOrNone(fs: seq<Field>, key: string, text: Option<string>) {
    && (Absent(fs, key) || Says(fs, key, [NilToken]) ==> text == None)
    && forall s | Says(fs, key, [StrToken(s)]) :: text == Some(s)
  }

  ghost predicate SaysNumber(fs: seq<Field>, key: string, n: nat) {
    (Absent(fs, key) ==> n == 0) && forall m | Says(fs, key, [UintToken(m)]) :: n == m
  }

  ghost predicate SaysTrue(fs: seq<Field>, key: string, b: bool) {
    && (Absent(fs, key) ==> !b)
    && forall c | Says(fs, key, [BoolToken(c)]) :: b == c
  }

  ghost predicate SaysTexts(fs: seq<Field>, key: string, texts: seq<string>) {
    (Absent(fs, key) ==> texts == []) && forall s | Says(fs, key, Strs(s)) :: texts == s
  }

  ghost predicate SaysInteger(fs: seq<Field>, key: string, i: int) {
    (Absent(fs, key) ==> i == 0) && forall j | Says(fs, key, [IntToken(j)]) :: i == j
  }

  ghost predicate SaysBytes(fs: seq<Field>, key: string, bytes: seq<byte>) {
    (Absent(fs, key) ==> bytes == []) && forall b | Says(fs, key, [BinToken(b)]) :: bytes == b
  }

  lemma {:induction false} TextAt(read: Reader, fs: seq<Field>, key: string)
    requires Readable(read, fs) && forall s :: read(key, [StrToken(s)]) == Ok((VStr(s), []))
    ensures SaysText(fs, key, StrAt(Fill(read, map[], fs), key))
  {
    hide Fill, Readable;
    SlotOf(read, fs, key, []);
    forall s ensures Says(fs, key, [StrToken(s)]) ==> StrAt(Fill(read, map[], fs), key) == s {
      SlotOf(read, fs, key, [StrToken(s)]);
    }
  }

  lemma {:induction false} TextOrNoneAt(read: Reader, fs: seq<Field>, key: string)
    requires Readable(read, fs) && read(key, [NilToken]) == Ok((VOptStr(None), []))
    requires forall s :: read(key, [StrToken(s)]) == Ok((VOptStr(Some(s)), []))
    ensures SaysTextOrNone(fs, key, OptStrAt(Fill(read, map[], fs), key))
  {
    hide Fill, Readable;
    SlotOf(read, fs, key, [NilToken]);
    forall s ensures Says(fs, key, [StrToken(s)]) ==> OptStrAt(Fill(read, map[], fs), key) == Some(s) {
      SlotOf(read, fs, key, [StrToken(s)]);
    }
  }

  lemma {:induction false} TrueAt(read: Reader, fs: seq<Field>, key: string)
    requires Readable(read, fs) && forall b :: read(key, [BoolToken(b)]) == Ok((VBool(b), []))
    ensures SaysTrue(fs, key, BoolAt(Fill(read, map[], fs), key))
  {
    hide Fill, Readable;
    SlotOf(read, fs, key, []);
    forall b ensures Says(fs, key, [BoolToken(b)]) ==> BoolAt(Fill(read, map[], fs), key) == b {
      SlotOf(read, fs, key, [BoolToken(b)]);
    }
  }

  lemma {:induction false} NumberAt(read: Reader, fs: seq<Field>, key: string)
    requires Readable(read, fs) && forall n :: read(key, [UintToken(n)]) == Ok((VUint(n), []))
    ensures SaysNumber(fs, key, UintAt(Fill(read, map[], fs), key))
  {
    hide Fill, Readable;
    SlotOf(read, fs, key, []);
    forall n ensures Says(fs, key, [UintToken(n)]) ==> UintAt(Fill(read, map[], fs), key) == n {
      SlotOf(read, fs, key, [UintToken(n)]);
    }
  }

  lemma {:induction false} TextsAt(read: Reader, fs: seq<Field>, key: string)
    requires Readable(read, fs) && forall texts :: read(key, Strs(texts)) == Ok((VStrs(texts), []))
    ensures SaysTexts(fs, key, StrsAt(Fill(read, map[], fs), key))
  {
    hide Fill, Readable, Strs;
    SlotOf(read, fs, key, []);
    forall texts ensures Says(fs, key, Strs(texts)) ==> StrsAt(Fill(read, map[], fs), key) == texts {
      SlotOf(read, fs, key, Strs(texts));
    }
  }

  /** One token of its kind is read as what it holds. */
  lemma {:induction false} Scalars()
    ensures forall s :: ReadScalar(KStr, [StrToken(s)]) == Ok((VStr(s), []))
    ensures forall s :: ReadScalar(KOptStr, [StrToken(s)]) == Ok((VOptStr(Some(s)), []))
    ensures ReadScalar(KOptStr, [NilToken]) == Ok((VOptStr(None), []))
    ensures forall b :: ReadScalar(KBool, [BoolToken(b)]) == Ok((VBool(b), []))
    ensures forall n :: ReadScalar(KUint, [UintToken(n)]) == Ok((VUint(n), []))
    ensures forall i :: ReadScalar(KInt, [IntToken(i)]) == Ok((VInt(i), []))
    ensures forall b :: ReadScalar(KBin, [BinToken(b)]) == Ok((VBin(b), []))
    ensures forall texts :: ReadScalar(KStrs, Strs(texts)) == Ok((VStrs(texts), []))
  {
    forall t: Token ensures [t][1..] == [] {}
    forall texts ensures ReadScalar(KStrs, Strs(texts)) == Ok((VStrs(texts), [])) {
      RoundTrips.StrsYield(texts);
    }
  }

  /** What a request says: which it is, and its two settings where it has them. */
  lemma {:induction false} RequestSays(fs: seq<Field>, rest: seq<Token>)
    requires Readable(RequestValue, fs)
    ensures var r := DecodeRequest(Message(fs) + rest);
            && (Absent(fs, "query") ==> r == Err(Missing("query")))
            && forall q | Says(fs, "query", [StrToken(q)]) ::
                 && (q == "roots" ==> r.Ok? && r.value.Roots? && SaysTrue(fs, "with_der", r.value.withDer)
                                      && SaysTextOrNone(fs, "purpose", r.value.purpose))
                 && (q == "subscribe" ==> r.Ok? && r.value.Subscribe? && SaysTrue(fs, "with_der", r.value.withDer))
                 && (q == "status" ==> r == Ok(GetStatus))
                 && (q == "reload" ==> r == Ok(Reload))
                 && (q !in {"roots", "subscribe", "status", "reload"} ==> r == Err(UnknownQuery(q)))
  {
    hide Fill, Message, ReadFields, ReadScalar, Says, SaysTrue, SaysTextOrNone, Absent, StrAt, BoolAt, OptStrAt, Strs;
    Scalars();
    RoundTrips.RequestReaderIsLocal();
    MessageFills(RequestValue, fs, rest);
    SlotOf(RequestValue, fs, "query", []);
    TrueAt(RequestValue, fs, "with_der");
    TextOrNoneAt(RequestValue, fs, "purpose");
    forall q | Says(fs, "query", [StrToken(q)])
      ensures "query" in Fill(RequestValue, map[], fs) && StrAt(Fill(RequestValue, map[], fs), "query") == q
    {
      QueryAt(fs, q);
    }
  }

  lemma {:induction false} QueryAt(fs: seq<Field>, q: string)
    requires Readable(RequestValue, fs) && Says(fs, "query", [StrToken(q)])
    ensures "query" in Fill(RequestValue, map[], fs) && StrAt(Fill(RequestValue, map[], fs), "query") == q
  {
    hide Fill, Readable, Says, ReadScalar, Strs;
    Scalars();
    SlotOf(RequestValue, fs, "query", [StrToken(q)]);
  }

  /** What a root says, field by field. */
  lemma {:induction false} RootSays(fs: seq<Field>, rest: seq<Token>)
    requires Readable(RootValue, fs)
    ensures DecodeRoot(Message(fs) + rest).Ok? && DecodeRoot(Message(fs) + rest).value.1 == rest
    ensures var root := DecodeRoot(Message(fs) + rest).value.0;
            && SaysText(fs, "fingerprint", root.fingerprint) && SaysText(fs, "subject", root.subject)
            && SaysTexts(fs, "purposes", root.purposes) && SaysTextOrNone(fs, "name", root.name)
            && SaysInteger(fs, "not_after", root.notAfter) && SaysBytes(fs, "der", root.der)
            && (Says(fs, "source", [StrToken("added")]) ==> root.source == Added)
            && (Absent(fs, "source") ==> root.source == Shipped)
            && forall s | Says(fs, "source", [StrToken(s)]) && s != "added" :: root.source == Shipped
  {
    hide Fill, Message, ReadFields, ReadScalar, Says, SaysText, SaysTexts, SaysTextOrNone, Absent, StrAt, StrsAt,
         OptStrAt, Strs;
    Scalars();
    RoundTrips.RootReaderIsLocal();
    MessageFills(RootValue, fs, rest);
    TextAt(RootValue, fs, "fingerprint");
    TextAt(RootValue, fs, "subject");
    TextsAt(RootValue, fs, "purposes");
    TextOrNoneAt(RootValue, fs, "name");
    SourceAt(fs);
    ExpiryAt(fs);
  }

  lemma {:induction false} SourceAt(fs: seq<Field>)
    requires Readable(RootValue, fs)
    ensures var source := ParseSource(StrAt(Fill(RootValue, map[], fs), "source"));
            && (Says(fs, "source", [StrToken("added")]) ==> source == Added)
            && (Absent(fs, "source") ==> source == Shipped)
            && forall s | Says(fs, "source", [StrToken(s)]) && s != "added" :: source == Shipped
  {
    hide Fill, ReadScalar, Says, Absent, StrAt, Strs;
    Scalars();
    TextAt(RootValue, fs, "source");
  }

  lemma {:induction false} ExpiryAt(fs: seq<Field>)
    requires Readable(RootValue, fs)
    ensures var root := BuildRoot(Fill(RootValue, map[], fs));
            SaysInteger(fs, "not_after", root.notAfter) && SaysBytes(fs, "der", root.der)
  {
    hide Fill, ReadScalar, Says, Absent, StrAt, StrsAt, OptStrAt, Strs;
    Scalars();
    SlotOf(RootValue, fs, "not_after", []);
    SlotOf(RootValue, fs, "der", []);
    forall i ensures Says(fs, "not_after", [IntToken(i)]) ==> BuildRoot(Fill(RootValue, map[], fs)).notAfter == i {
      SlotOf(RootValue, fs, "not_after", [IntToken(i)]);
    }
    forall b ensures Says(fs, "der", [BinToken(b)]) ==> BuildRoot(Fill(RootValue, map[], fs)).der == b {
      SlotOf(RootValue, fs, "der", [BinToken(b)]);
    }
  }

  /** What a reply says: whether it is a refusal, and if not of which kind, with what each of its fields says. */
  lemma {:induction false} ReplySays(fs: seq<Field>, rest: seq<Token>)
    requires Readable(ReplyValue, fs)
    ensures var r := DecodeReply(Message(fs) + rest);
            && (Absent(fs, "ok") ==> r == Err(Missing("ok")))
            && (Says(fs, "ok", [BoolToken(false)]) ==>
                  && r.Ok? && r.value.Refused?
                  && (Absent(fs, "error") ==> r.value.message == "unspecified error")
                  && forall s | Says(fs, "error", [StrToken(s)]) :: r.value.message == s)
            && (Says(fs, "ok", [BoolToken(true)]) ==>
                  && (Absent(fs, "kind") ==> r == Ok(Done))
                  && forall k | Says(fs, "kind", [StrToken(k)]) ::
                       && (k == "roots" ==>
                             && r.Ok? && r.value.RootsChunk? && SaysNumber(fs, "generation", r.value.generation)
                             && SaysTrue(fs, "more", r.value.more) && (Absent(fs, "roots") ==> r.value.roots == []))
                       && (k == "status" ==> r.Ok? && r.value.StatusReply? && StatusSays(fs, r.value.status))
                       && (k !in {"roots", "status"} ==> r == Ok(Done)))
  {
    hide Fill, Message, ReadFields, ReplyValue, Says, SaysNumber, SaysTrue, StatusSays, Absent, StrAt, BoolAt, UintAt,
         RootsAt, BuildStatus, SaysText, Readable;
    RoundTrips.ReplyReaderIsLocal();
    ReadableReads(fs);
    MessageFills(ReplyValue, fs, rest);
    ReplyKinds();
    OkAt(fs);
    TextAt(ReplyValue, fs, "kind");
    KindAt(fs);
    NumberAt(ReplyValue, fs, "generation");
    TrueAt(ReplyValue, fs, "more");
    SlotOf(ReplyValue, fs, "roots", []);
    ErrorAt(fs);
    StatusAt(fs);
    NoRootsAt(fs);
  }

  lemma ReadableReads(fs: seq<Field>)
    requires Readable(ReplyValue, fs)
    ensures AllRead(ReplyValue, fs) && DistinctKeys(fs)
  {}

  lemma {:induction false} ReplyKinds()
    ensures forall s :: ReplyValue("kind", [StrToken(s)]) == Ok((VStr(s), []))
    ensures forall s :: ReplyValue("error", [StrToken(s)]) == Ok((VStr(s), []))
    ensures forall s :: ReplyValue("health", [StrToken(s)]) == Ok((VStr(s), []))
    ensures forall s :: ReplyValue("message", [StrToken(s)]) == Ok((VOptStr(Some(s)), []))
    ensures ReplyValue("message", [NilToken]) == Ok((VOptStr(None), []))
    ensures forall b :: ReplyValue("ok", [BoolToken(b)]) == Ok((VBool(b), []))
    ensures forall b :: ReplyValue("more", [BoolToken(b)]) == Ok((VBool(b), []))
    ensures forall n :: ReplyValue("generation", [UintToken(n)]) == Ok((VUint(n), []))
    ensures forall texts :: ReplyValue("rendered", Strs(texts)) == Ok((VStrs(texts), []))
    ensures forall key, n | key in {"shipped", "added", "distrusted", "skipped", "effective", "compat_mode"} ::
              ReplyValue(key, [UintToken(n)]) == Ok((VUint(n), []))
  {
    hide ReadScalar, Strs;
    Scalars();
  }

  lemma {:induction false} OkAt(fs: seq<Field>)
    requires Readable(ReplyValue, fs)
    ensures Absent(fs, "ok") ==> "ok" !in Fill(ReplyValue, map[], fs)
    ensures forall b | Says(fs, "ok", [BoolToken(b)]) ::
              "ok" in Fill(ReplyValue, map[], fs) && BoolAt(Fill(ReplyValue, map[], fs), "ok") == b
  {
    hide Fill, ReplyValue, Says, Absent, Readable, Strs;
    ReplyKinds();
    SlotOf(ReplyValue, fs, "ok", []);
    forall b | Says(fs, "ok", [BoolToken(b)])
      ensures "ok" in Fill(ReplyValue, map[], fs) && BoolAt(Fill(ReplyValue, map[], fs), "ok") == b
    {
      SlotOf(ReplyValue, fs, "ok", [BoolToken(b)]);
    }
  }

  lemma {:induction false} KindAt(fs: seq<Field>)
    requires Readable(ReplyValue, fs)
    ensures var kind := StrAt(Fill(ReplyValue, map[], fs), "kind");
            (Absent(fs, "kind") ==> kind == "") && forall k | Says(fs, "kind", [StrToken(k)]) :: kind == k
  {
    hide Fill, ReplyValue, Says, Absent, StrAt, Readable, Strs;
    ReplyKinds();
    TextAt(ReplyValue, fs, "kind");
  }

  lemma {:induction false} ErrorAt(fs: seq<Field>)
    requires Readable(ReplyValue, fs)
    ensures var slots := Fill(ReplyValue, map[], fs);
            && (Absent(fs, "error") ==> "error" !in slots)
            && forall s | Says(fs, "error", [StrToken(s)]) :: "error" in slots && StrAt(slots, "error") == s
  {
    hide Fill, ReplyValue, Says, Absent, Readable, Strs;
    ReplyKinds();
    SlotOf(ReplyValue, fs, "error", []);
    forall s | Says(fs, "error", [StrToken(s)])
      ensures "error" in Fill(ReplyValue, map[], fs) && StrAt(Fill(ReplyValue, map[], fs), "error") == s
    {
      SlotOf(ReplyValue, fs, "error", [StrToken(s)]);
    }
  }

  lemma {:induction false} NoRootsAt(fs: seq<Field>)
    requires Readable(ReplyValue, fs)
    ensures Absent(fs, "roots") ==> RootsAt(Fill(ReplyValue, map[], fs), "roots") == []
  {
    hide Fill, ReplyValue, Says, Absent, Readable;
    SlotOf(ReplyValue, fs, "roots", []);
  }

  /** What a status says, field by field. The mode is cut to 32 bits, and an unknown health is a good one. */
  ghost predicate StatusSays(fs: seq<Field>, s: Status) {
    && SaysNumber(fs, "generation", s.generation) && SaysTextOrNone(fs, "message", s.message)
    && SaysNumber(fs, "shipped", s.shipped) && SaysNumber(fs, "added", s.added)
    && SaysNumber(fs, "distrusted", s.distrusted) && SaysNumber(fs, "skipped", s.skipped)
    && SaysNumber(fs, "effective", s.effective) && SaysTexts(fs, "rendered", s.rendered)
    && (Absent(fs, "compat_mode") ==> s.compatMode == 0)
    && (forall n: nat | Says(fs, "compat_mode", [UintToken(n)]) :: s.compatMode as int == n % 0x1_0000_0000)
    && (Absent(fs, "health") ==> s.health == HealthOk)
    && (forall h | Says(fs, "health", [StrToken(h)]) :: s.health == if h == "degraded" then Degraded else HealthOk)
  }

  lemma {:induction false} StatusAt(fs: seq<Field>)
    requires Readable(ReplyValue, fs)
    ensures StatusSays(fs, BuildStatus(Fill(ReplyValue, map[], fs)))
  {
    hide Fill, ReplyValue, Says, SaysTextOrNone, SaysTexts, Absent, StrAt, UintAt, StrsAt, OptStrAt, Readable, Strs;
    ReplyKinds();
    NumberAt(ReplyValue, fs, "generation");
    TextOrNoneAt(ReplyValue, fs, "message");
    NumberAt(ReplyValue, fs, "shipped");
    NumberAt(ReplyValue, fs, "added");
    NumberAt(ReplyValue, fs, "distrusted");
    NumberAt(ReplyValue, fs, "skipped");
    NumberAt(ReplyValue, fs, "effective");
    NumberAt(ReplyValue, fs, "compat_mode");
    TextsAt(ReplyValue, fs, "rendered");
    TextAt(ReplyValue, fs, "health");
  }

  // ---------------------------------------------------------------- on the wire

  /** A request on the wire, token by token. */
  lemma {:induction false} RequestOnWire(withDer: bool, purpose: Option<string>)
    ensures EncodeRequest(Roots(withDer, purpose))
            == [MapToken(3), StrToken("query"), StrToken("roots"), StrToken("with_der"), BoolToken(withDer),
                StrToken("purpose"), if purpose.Some? then StrToken(purpose.value) else NilToken]
    ensures EncodeRequest(Subscribe(withDer))
            == [MapToken(2), StrToken("query"), StrToken("subscribe"), StrToken("with_der"), BoolToken(withDer)]
    ensures EncodeRequest(GetStatus) == [MapToken(1), StrToken("query"), StrToken("status")]
    ensures EncodeRequest(Reload) == [MapToken(1), StrToken("query"), StrToken("reload")]
  {
    BodyInOrder(RequestFields(Roots(withDer, purpose)));
    BodyInOrder(RequestFields(Subscribe(withDer)));
  }

  lemma BodyInOrder(fs: seq<Field>)
    ensures fs != [] ==> Body(fs) == [StrToken(fs[0].key)] + fs[0].value + Body(fs[1..])
    ensures |fs| > 1 ==> Body(fs[1..]) == [StrToken(fs[1].key)] + fs[1].value + Body(fs[2..])
    ensures |fs| > 2 ==> Body(fs[2..]) == [StrToken(fs[2].key)] + fs[2].value + Body(fs[3..])
  {}

  /** The words for sources and for health. */
  lemma WordsOnWire()
    ensures RootFields(Root("", "", [], Shipped, None, 0, []))[3] == Field("source", [StrToken("shipped")])
    ensures RootFields(Root("", "", [], Added, None, 0, []))[3] == Field("source", [StrToken("added")])
    ensures HealthName(HealthOk) == "ok" && HealthName(Degraded) == "degraded"
  {}
}
