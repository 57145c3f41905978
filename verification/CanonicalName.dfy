/**
  The canonical encoding of a distinguished name, over which OpenSSL's subject hash is taken.

  Each attribute value of a string type is re-tagged UTF8String and folded; each RDN becomes a SET OF whose members
  are sorted by their encodings (section 11.6 of ITU-T X.690); the result is the sets laid end to end, with no outer
  SEQUENCE.
 */
module CanonicalName {
  import opened Basics
  import opened Der
  import opened Sorting

  const SEQUENCE: byte := 0x30
  const SET: byte := 0x31
  const OID: byte := 0x06
  const UTF8: byte := 0x0C
  const SPACE: byte := 0x20

  predicate CanonString(tag: byte) {
    tag == 0x0C || tag == 0x13 || tag == 0x14 || tag == 0x16 || tag == 0x1A || tag == 0x1C || tag == 0x1E
  }

  // ---------------------------------------------------------------- folding

  function TrimLeft(s: seq<byte>): (r: seq<byte>)
    ensures |r| <= |s|
  {
    if s != [] && s[0] == SPACE then TrimLeft(s[1..]) else s
  }

  function TrimRight(s: seq<byte>): (r: seq<byte>)
    ensures r <= s
  {
    if s != [] && s[|s| - 1] == SPACE then TrimRight(s[..|s| - 1]) else s
  }

  function Lower(b: byte): byte {
    if 0x41 <= b <= 0x5A then b + 0x20 else b
  }

  /** Runs of spaces become one space and ASCII letters lower case; `inSpace` says a space was just written. */
  function Collapse(s: seq<byte>, inSpace: bool): (r: seq<byte>)
    ensures |r| <= |s|
  {
    if s == [] then []
    else if s[0] == SPACE then (if inSpace then [] else [SPACE]) + Collapse(s[1..], true)
    else [Lower(s[0])] + Collapse(s[1..], false)
  }

  function Fold(value: seq<byte>): (r: seq<byte>)
    ensures |r| <= |value|
  {
    Collapse(TrimRight(TrimLeft(value)), false)
  }

  predicate NoRuns(s: seq<byte>) {
    forall i | 0 <= i < |s| - 1 :: !(s[i] == SPACE && s[i + 1] == SPACE)
  }

  predicate NoCapitals(s: seq<byte>) {
    forall i | 0 <= i < |s| :: !(0x41 <= s[i] <= 0x5A)
  }

  /** What folding is for: no space at either end, none doubled, no ASCII capital. */
  predicate Folded(s: seq<byte>) {
    && (s != [] ==> s[0] != SPACE && s[|s| - 1] != SPACE)
    && NoRuns(s) && NoCapitals(s)
  }

  lemma CollapseStep(s: seq<byte>, inSpace: bool)
    requires s != []
    ensures Collapse(s, inSpace) ==
            (if s[0] != SPACE then [Lower(s[0])] else if inSpace then [] else [SPACE]) + Collapse(s[1..], s[0] == SPACE)
  {}

  lemma {:induction false} CollapseTidies(s: seq<byte>, inSpace: bool)
    ensures var r := Collapse(s, inSpace);
            && NoRuns(r) && NoCapitals(r)
            && (inSpace && r != [] ==> r[0] != SPACE)
            && (s != [] && s[0] != SPACE ==> r != [] && r[0] != SPACE)
  {
    if s != [] {
      hide Collapse;
      CollapseStep(s, inSpace);
      CollapseTidies(s[1..], s[0] == SPACE);
    }
  }

  lemma {:induction false} CollapseEnd(s: seq<byte>, inSpace: bool)
    requires s != [] && s[|s| - 1] != SPACE
    ensures var r := Collapse(s, inSpace); r != [] && r[|r| - 1] != SPACE
  {
    hide Collapse;
    CollapseStep(s, inSpace);
    if |s| > 1 {
      CollapseEnd(s[1..], s[0] == SPACE);
    } else {
      CollapseNothing();
    }
  }

  lemma CollapseNothing()
    ensures Collapse([], false) == Collapse([], true) == []
  {}

  lemma {:induction false} CollapseFixed(s: seq<byte>, inSpace: bool)
    requires NoRuns(s) && NoCapitals(s) && (inSpace && s != [] ==> s[0] != SPACE)
    ensures Collapse(s, inSpace) == s
  {
    if s != [] {
      var rest := s[1..];
      assert forall i | 0 <= i < |rest| :: rest[i] == s[i + 1];
      assert NoRuns(rest) && NoCapitals(rest);
      CollapseFixed(rest, s[0] == SPACE);
    }
  }

  lemma {:induction false} TrimmedEnds(s: seq<byte>)
    ensures var t := TrimRight(TrimLeft(s)); t != [] ==> t[0] != SPACE && t[|t| - 1] != SPACE
  {
    TrimLeftEnd(s);
    TrimRightEnd(TrimLeft(s));
  }

  lemma TrimLeftEnd(s: seq<byte>)
    ensures TrimLeft(s) != [] ==> TrimLeft(s)[0] != SPACE
  {}

  lemma TrimRightEnd(s: seq<byte>)
    ensures TrimRight(s) != [] ==> TrimRight(s)[|TrimRight(s)| - 1] != SPACE
  {}

  /** Folding makes every value folded, and changes exactly the values that are not. */
  lemma FoldCorrect(value: seq<byte>)
    ensures Folded(Fold(value))
    ensures Fold(value) == value <==> Folded(value)
    ensures Fold(Fold(value)) == Fold(value)
  {
    var t := TrimRight(TrimLeft(value));
    TrimmedEnds(value);
    CollapseTidies(t, false);
    if t == [] {
      CollapseNothing();
    } else {
      CollapseEnd(t, false);
    }
    FoldKeeps(Fold(value));
    if Folded(value) {
      FoldKeeps(value);
    }
  }

  lemma FoldKeeps(value: seq<byte>)
    requires Folded(value)
    ensures Fold(value) == value
  {
    CollapseFixed(value, false);
  }

  /** A letter from A to Z as the one from a to z, and every other byte as it is. */
  predicate SameFolded(from: byte, to: byte) {
    if 0x41 <= from <= 0x5A then to == from + 0x20 else to == from
  }

  /**
    Each byte of `r` is one of `v` in lower case, in order, from these places between `start` and `end`. Every byte
    there but a space is among them, and two that are not spaces stand side by side only if they did.
   */
  ghost predicate Traced(v: seq<byte>, start: nat, end: nat, r: seq<byte>, from: seq<nat>) {
    && end <= |v| && Sources(v, start, end, r, from) && Rising(from)
    && Covered(v, start, end, from) && Together(r, from)
  }

  ghost predicate Sources(v: seq<byte>, start: nat, end: nat, r: seq<byte>, from: seq<nat>)
    requires end <= |v|
  {
    |from| == |r| && forall i | 0 <= i < |r| :: start <= from[i] < end && SameFolded(v[from[i]], r[i])
  }

  ghost predicate Rising(from: seq<nat>) {
    forall i, j | 0 <= i < j < |from| :: from[i] < from[j]
  }

  ghost predicate Covered(v: seq<byte>, start: nat, end: nat, from: seq<nat>)
    requires end <= |v|
  {
    forall k: nat | start <= k < end && v[k] != 0x20 :: k in from
  }

  ghost predicate Together(r: seq<byte>, from: seq<nat>) {
    |from| == |r| && forall i | 0 <= i < |r| - 1 && r[i] != 0x20 && r[i + 1] != 0x20 :: from[i + 1] == from[i] + 1
  }

  lemma SourcesMore(v: seq<byte>, start: nat, end: nat, first: byte, r: seq<byte>, from: seq<nat>)
    requires start < end <= |v| && Sources(v, start + 1, end, r, from) && SameFolded(v[start], first)
    ensures Sources(v, start, end, [first] + r, [start] + from)
  {}

  lemma RisingMore(start: nat, from: seq<nat>)
    requires Rising(from) && forall i | 0 <= i < |from| :: start < from[i]
    ensures Rising([start] + from)
  {}

  lemma CoveredMore(v: seq<byte>, start: nat, end: nat, from: seq<nat>)
    requires start < end <= |v| && Covered(v, start + 1, end, from)
    ensures Covered(v, start, end, [start] + from)
  {
    forall k: nat | start <= k < end && v[k] != 0x20 ensures k in [start] + from {
      assert k > start ==> k in from;
    }
  }

  lemma TogetherMore(start: nat, first: byte, r: seq<byte>, from: seq<nat>)
    requires Together(r, from) && (first != 0x20 && r != [] && r[0] != 0x20 ==> from[0] == start + 1)
    ensures Together([first] + r, [start] + from)
  {}

  lemma {:induction false} TracedMore(v: seq<byte>, start: nat, end: nat, first: byte, r: seq<byte>, from: seq<nat>)
    requires start < end && Traced(v, start + 1, end, r, from) && SameFolded(v[start], first)
    requires first != 0x20 && r != [] && r[0] != 0x20 ==> from[0] == start + 1
    ensures Traced(v, start, end, [first] + r, [start] + from)
  {
    SourcesMore(v, start, end, first, r, from);
    RisingMore(start, from);
    CoveredMore(v, start, end, from);
    TogetherMore(start, first, r, from);
    hide Sources, Rising, Covered, Together, SameFolded;
  }

  lemma {:induction false} CollapseTraced(v: seq<byte>, start: nat, end: nat, inSpace: bool) returns (from: seq<nat>)
    requires start <= end <= |v|
    ensures var r := Collapse(v[start..end], inSpace);
            Traced(v, start, end, r, from) && (!inSpace && r != [] && r[0] != 0x20 ==> from[0] == start)
    decreases end - start
  {
    hide Collapse, Traced;
    var s := v[start..end];
    if s == [] {
      from := [];
      CollapseNothing();
      TracedNothing(v, start, end);
    } else {
      CollapseStep(s, inSpace);
      assert s[0] == v[start] && s[1..] == v[start + 1..end];
      from := CollapseTraced(v, start + 1, end, s[0] == SPACE);
      var later := Collapse(s[1..], s[0] == SPACE);
      if s[0] == SPACE && inSpace {
        assert [] + later == later;
        TracedSkip(v, start, end, later, from);
      } else {
        TracedMore(v, start, end, if s[0] == SPACE then SPACE else Lower(s[0]), later, from);
        from := [start] + from;
      }
    }
  }

  lemma TracedNothing(v: seq<byte>, start: nat, end: nat)
    requires start == end <= |v|
    ensures Traced(v, start, end, [], [])
  {}

  /** A space more before it, or after it, makes no difference. */
  lemma TracedSkip(v: seq<byte>, start: nat, end: nat, r: seq<byte>, from: seq<nat>)
    requires start < end && Traced(v, start + 1, end, r, from) && v[start] == 0x20
    ensures Traced(v, start, end, r, from)
  {}

  lemma {:induction false} LeftTrimmed(s: seq<byte>) returns (k: nat)
    ensures k <= |s| && TrimLeft(s) == s[k..] && forall i | 0 <= i < k :: s[i] == 0x20
  {
    if s != [] && s[0] == SPACE {
      var j := LeftTrimmed(s[1..]);
      k := j + 1;
      assert s[1..][j..] == s[k..] && forall i | 0 < i < k :: s[1..][i - 1] == s[i];
    } else {
      k := 0;
    }
  }

  lemma {:induction false} RightTrimmed(s: seq<byte>)
    ensures forall i | |TrimRight(s)| <= i < |s| :: s[i] == 0x20
  {
    if s != [] && s[|s| - 1] == SPACE {
      RightTrimmed(s[..|s| - 1]);
    }
  }

  /**
    What folding keeps: every byte but spaces, in order, letters in lower case, and a space only where there was one.
    With `FoldCorrect`, which leaves no space at an end and none doubled, and `FoldGaps`, this is all that folding does.
   */
  lemma {:induction false} FoldKeepsText(value: seq<byte>) returns (from: seq<nat>)
    ensures Traced(value, 0, |value|, Fold(value), from)
  {
    var left := TrimLeft(value);
    var t := TrimRight(left);
    var k := LeftTrimmed(value);
    RightTrimmed(left);
    hide Collapse, TrimLeft, TrimRight;
    var end := k + |t|;
    assert t == value[k..end];
    from := CollapseTraced(value, k, end, false);
    forall j: nat | end <= j < |value| ensures value[j] == 0x20 {
      assert left[j - k] == value[j];
    }
  }

  /** Between two bytes that only spaces part, a folded value has one space, or none if none part them. */
  lemma {:induction false} FoldGaps(value: seq<byte>, from: seq<nat>, p: nat, q: nat) returns (i: nat)
    requires Traced(value, 0, |value|, Fold(value), from)
    requires p < q < |value| && value[p] != 0x20 && value[q] != 0x20 && forall k | p < k < q :: value[k] == 0x20
    ensures i < |from| && from[i] == p
    ensures if q == p + 1 then i + 1 < |from| && from[i + 1] == q
            else i + 2 < |from| && Fold(value)[i + 1] == 0x20 && from[i + 2] == q
  {
    hide Fold;
    var r := Fold(value);
    FoldCorrect(value);
    i :| 0 <= i < |from| && from[i] == p;
    var j :| 0 <= j < |from| && from[j] == q;
    assert i < j && (i + 2 < |r| ==> !(r[i + 1] == SPACE && r[i + 2] == SPACE));
    forall k | i < k < j ensures r[k] == 0x20 {
      assert p < from[k] < q && SameFolded(value[from[k]], r[k]);
    }
    assert SameFolded(value[p], r[i]) && SameFolded(value[q], r[j]);
  }

  method FoldBytes(value: seq<byte>) returns (out: seq<byte>)
    ensures out == Fold(value)
  {
    hide Collapse, Lower;
    var trimmed := TrimRight(TrimLeft(value));
    out := [];
    var inSpace := false;
    var i := 0;
    assert trimmed[0..] == trimmed && [] + Collapse(trimmed, false) == Collapse(trimmed, false);
    while i < |trimmed|
      invariant 0 <= i <= |trimmed|
      invariant Collapse(trimmed, false) == out + Collapse(trimmed[i..], inSpace)
    {
      var b := trimmed[i];
      assert trimmed[i..][1..] == trimmed[i + 1..];
      CollapseOnto(out, trimmed[i..], inSpace);
      if b == SPACE {
        if !inSpace {
          out := out + [SPACE];
          inSpace := true;
        }
      } else {
        inSpace := false;
        out := out + [Lower(b)];
      }
      i := i + 1;
    }
    CollapseNothing();
    assert trimmed[i..] == [] && out + [] == out;
  }

  /** One byte more goes behind what was folded before it. */
  lemma {:induction false} CollapseOnto(out: seq<byte>, s: seq<byte>, inSpace: bool)
    requires s != []
    ensures s[0] != SPACE ==> out + Collapse(s, inSpace) == out + [Lower(s[0])] + Collapse(s[1..], false)
    ensures s[0] == SPACE && inSpace ==> out + Collapse(s, inSpace) == out + Collapse(s[1..], true)
    ensures s[0] == SPACE && !inSpace ==> out + Collapse(s, inSpace) == out + [SPACE] + Collapse(s[1..], true)
  {
    hide *;
    CollapseStep(s, inSpace);
    var rest := Collapse(s[1..], s[0] == SPACE);
    assert [] + rest == rest;
    assert out + ([Lower(s[0])] + rest) == out + [Lower(s[0])] + rest;
    assert out + ([SPACE] + rest) == out + [SPACE] + rest;
  }

  // ---------------------------------------------------------------- one attribute

  lemma TlvSize(tag: byte, content: seq<byte>)
    requires |content| < USIZE
    ensures |content| + 2 <= |Tlv(tag, content)| <= |content| + 10
  {
    BigEndianLength(|content|, 8);
    Powers();
  }

  /** An attribute's value: folded under the UTF8String tag if it is a string, else as it is. */
  function CanonicalValue(tag: byte, value: seq<byte>): seq<byte>
    requires |value| < FOUR_BYTES
  {
    if CanonString(tag) then Tlv(UTF8, Fold(value)) else Tlv(tag, value)
  }

  /** An attribute's canonical form. Bytes after its value are dropped. */
  function CanonicalAva(ava: seq<byte>): Option<seq<byte>> {
    match ReadTlv(ava)
    case None => None
    case Some(outer) =>
      if outer.tag != SEQUENCE || outer.rest != [] then None
      else match ReadTlv(outer.content)
        case None => None
        case Some(oid) =>
          if oid.tag != OID then None
          else match ReadTlv(oid.rest)
            case None => None
            case Some(value) => Some(WriteAva(oid.content, value.tag, value.content))
  }

  function WriteAva(oid: seq<byte>, tag: byte, value: seq<byte>): seq<byte>
    requires |oid| < FOUR_BYTES && |value| < FOUR_BYTES
  {
    TlvSize(OID, oid);
    TlvSize(UTF8, Fold(value));
    TlvSize(tag, value);
    Tlv(SEQUENCE, Tlv(OID, oid) + CanonicalValue(tag, value))
  }

  /** The tag and content a canonical value carries do not change when it is made canonical again. */
  lemma {:induction false} ValueFixed(tag: byte, value: seq<byte>, rest: seq<byte>)
    requires |value| < FOUR_BYTES
    ensures var r := ReadTlv(CanonicalValue(tag, value) + rest);
            && r.Some? && r.value.rest == rest
            && CanonicalValue(r.value.tag, r.value.content) == CanonicalValue(tag, value)
    ensures |CanonicalValue(tag, value)| <= |Tlv(tag, value)|
  {
    hide Fold, ReadTlv;
    FoldCorrect(value);
    LengthMonotone(|Fold(value)|, |value|);
    ReadWritten(UTF8, Fold(value), rest);
    ReadWritten(tag, value, rest);
  }

  /** A canonical attribute is one whole element, no longer than the original, and canonical already. */
  lemma AvaFixed(ava: seq<byte>)
    requires CanonicalAva(ava).Some?
    ensures var c := CanonicalAva(ava).value;
            |c| <= |ava| && Whole(c) && CanonicalAva(c) == Some(c)
  {
    var outer := ReadTlv(ava).value;
    var oid := ReadTlv(outer.content).value;
    var value := ReadTlv(oid.rest).value;
    WriterIsShortest(ava);
    WriterIsShortest(outer.content);
    WriterIsShortest(oid.rest);
    WriteAvaShape(oid.content, value.tag, value.content);
    ValueFixed(value.tag, value.content, []);
    var body := Tlv(OID, oid.content) + CanonicalValue(value.tag, value.content);
    LengthMonotone(|body|, |outer.content|);
    WrittenAvaFixed(oid.content, value.tag, value.content);
  }

  /** What an attribute says survives: its type, and its value as it was, or folded under one tag if it is a string. */
  lemma {:induction false} AvaKeepsValue(oid: seq<byte>, tag: byte, value: seq<byte>, dropped: seq<byte>,
                                         body: seq<byte>)
    requires |oid| < FOUR_BYTES && |value| < FOUR_BYTES && |body| < FOUR_BYTES
    requires body == Tlv(OID, oid) + (Tlv(tag, value) + dropped)
    ensures CanonicalAva(Tlv(SEQUENCE, body)) == Some(WriteAva(oid, tag, value))
  {
    hide ReadTlv, Tlv, WriteAva;
    ReadWritten(SEQUENCE, body, []);
    assert Tlv(SEQUENCE, body) + [] == Tlv(SEQUENCE, body);
    ReadWritten(OID, oid, Tlv(tag, value) + dropped);
    ReadWritten(tag, value, dropped);
  }

  /** A SEQUENCE of an OBJECT IDENTIFIER and a value, and nothing after it. */
  predicate IsAttribute(ava: seq<byte>, oid: seq<byte>, tag: byte, value: seq<byte>) {
    && ReadTlv(ava).Some? && ReadTlv(ava).value.tag == 0x30 && ReadTlv(ava).value.rest == []
    && var body := ReadTlv(ava).value.content;
    && ReadTlv(body).Some? && ReadTlv(body).value.tag == 0x06 && ReadTlv(body).value.content == oid
    && var second := ReadTlv(ReadTlv(body).value.rest);
    && second.Some? && second.value.tag == tag && second.value.content == value
  }

  /** The string types: UTF8String, PrintableString, T61String, IA5String, VisibleString, UniversalString, BMPString. */
  predicate IsText(tag: byte) {
    tag in {0x0C, 0x13, 0x14, 0x16, 0x1A, 0x1C, 0x1E}
  }

  /** Exactly attributes are canonical, and what is canonical has the same type, with text folded under one tag. */
  lemma {:induction false} AvaReadsBack(ava: seq<byte>, oid: seq<byte>, tag: byte, value: seq<byte>)
    ensures IsAttribute(ava, oid, tag, value) ==>
              && CanonicalAva(ava).Some?
              && (if IsText(tag) then IsAttribute(CanonicalAva(ava).value, oid, 0x0C, Fold(value))
                  else IsAttribute(CanonicalAva(ava).value, oid, tag, value))
    ensures CanonicalAva(ava).Some? ==> exists o, t, v :: IsAttribute(ava, o, t, v)
  {
    if IsAttribute(ava, oid, tag, value) {
      AttributeWritten(ava, oid, tag, value);
      hide *;
      WrittenReadsBack(oid, tag, value);
    }
    if CanonicalAva(ava).Some? {
      hide ReadTlv, Fold, WriteAva;
      var body := ReadTlv(ava).value.content;
      var second := ReadTlv(ReadTlv(body).value.rest).value;
      assert IsAttribute(ava, ReadTlv(body).value.content, second.tag, second.content);
    }
  }

  /** The canonical form of an attribute, which is small enough to be read again. */
  lemma {:induction false} AttributeWritten(ava: seq<byte>, oid: seq<byte>, tag: byte, value: seq<byte>)
    requires IsAttribute(ava, oid, tag, value)
    ensures |oid| < FOUR_BYTES && |value| < FOUR_BYTES && CanonicalAva(ava) == Some(WriteAva(oid, tag, value))
    ensures |Tlv(OID, oid) + CanonicalValue(tag, value)| < FOUR_BYTES
  {
    var outer := ReadTlv(ava).value;
    var first := ReadTlv(outer.content).value;
    WriterIsShortest(outer.content);
    WriterIsShortest(first.rest);
    hide ReadTlv, Fold, Tlv, WriteAva;
    ValueFixed(tag, value, []);
  }

  lemma {:induction false} WrittenReadsBack(oid: seq<byte>, tag: byte, value: seq<byte>)
    requires |oid| < FOUR_BYTES && |value| < FOUR_BYTES
    requires |Tlv(OID, oid) + CanonicalValue(tag, value)| < FOUR_BYTES
    ensures IsAttribute(WriteAva(oid, tag, value), oid, if IsText(tag) then 0x0C else tag,
                        if IsText(tag) then Fold(value) else value)
  {
    WriteAvaShape(oid, tag, value);
    hide ReadTlv, Fold, Tlv, WriteAva;
    var body := Tlv(OID, oid) + CanonicalValue(tag, value);
    ReadWritten(SEQUENCE, body, []);
    assert Tlv(SEQUENCE, body) + [] == Tlv(SEQUENCE, body);
    ReadWritten(OID, oid, CanonicalValue(tag, value));
    var written := if IsText(tag) then Fold(value) else value;
    ReadWritten(if IsText(tag) then UTF8 else tag, written, []);
    assert CanonicalValue(tag, value) + [] == CanonicalValue(tag, value);
  }

  /** The attribute as written: a SEQUENCE of the type and the canonical value. */
  lemma WriteAvaShape(oid: seq<byte>, tag: byte, value: seq<byte>)
    requires |oid| < FOUR_BYTES && |value| < FOUR_BYTES
    ensures var body := Tlv(OID, oid) + CanonicalValue(tag, value);
            |body| < USIZE && WriteAva(oid, tag, value) == Tlv(SEQUENCE, body)
  {
    TlvSize(OID, oid);
    TlvSize(UTF8, Fold(value));
    TlvSize(tag, value);
  }

  lemma {:induction false} WrittenAvaFixed(oid: seq<byte>, tag: byte, value: seq<byte>)
    requires |oid| < FOUR_BYTES && |value| < FOUR_BYTES
    requires |Tlv(OID, oid) + CanonicalValue(tag, value)| < FOUR_BYTES
    ensures var c := WriteAva(oid, tag, value);
            Whole(c) && CanonicalAva(c) == Some(c)
  {
    var c := WriteAva(oid, tag, value);
    var body := Tlv(OID, oid) + CanonicalValue(tag, value);
    WriteAvaShape(oid, tag, value);
    hide ReadTlv, Tlv, CanonicalValue;
    ReadWritten(SEQUENCE, body, []);
    assert Tlv(SEQUENCE, body) + [] == c;
    ReadWritten(OID, oid, CanonicalValue(tag, value));
    ValueFixed(tag, value, []);
    assert CanonicalValue(tag, value) + [] == CanonicalValue(tag, value);
  }

  // ---------------------------------------------------------------- one RDN

  /** The members of an RDN, each canonical, in the order they were written. */
  function CanonicalAvas(avas: seq<seq<byte>>): Option<seq<seq<byte>>> {
    All(CanonicalAva, avas)
  }

  lemma {:induction false} AvasShrink(avas: seq<seq<byte>>, canonical: seq<seq<byte>>)
    requires |avas| == |canonical|
    requires forall i | 0 <= i < |avas| :: CanonicalAva(avas[i]) == Some(canonical[i])
    ensures |Flatten(canonical)| <= |Flatten(avas)|
  {
    if avas != [] {
      hide CanonicalAva;
      AvaFixed(avas[0]);
      AvasShrink(avas[1..], canonical[1..]);
    }
  }

  lemma {:induction false} InsertLength(x: seq<byte>, s: seq<seq<byte>>)
    ensures |Flatten(Insert(x, s, BytesLe))| == |x| + |Flatten(s)|
  {
    if s == [] || BytesLe(x, s[0]) {
      assert ([x] + s)[1..] == s;
    } else {
      InsertLength(x, s[1..]);
      var rest := Insert(x, s[1..], BytesLe);
      assert ([s[0]] + rest)[1..] == rest;
    }
  }

  lemma {:induction false} SortLength(s: seq<seq<byte>>)
    ensures |Flatten(Sort(s, BytesLe))| == |Flatten(s)|
  {
    if s != [] {
      SortLength(s[1..]);
      InsertLength(s[0], Sort(s[1..], BytesLe));
    }
  }

  /** One RDN as a SET OF: its members canonical and sorted by their encodings. */
  function CanonicalRdn(rdn: seq<byte>): Option<seq<byte>> {
    match Members(rdn)
    case None => None
    case Some(avas) => match CanonicalAvas(avas)
      case None => None
      case Some(canonical) =>
        RdnFits(rdn, avas, canonical);
        Some(Tlv(SET, Flatten(Sort(canonical, BytesLe))))
  }

  lemma {:induction false} RdnFits(rdn: seq<byte>, avas: seq<seq<byte>>, canonical: seq<seq<byte>>)
    requires Members(rdn) == Some(avas) && CanonicalAvas(avas) == Some(canonical)
    ensures |Flatten(Sort(canonical, BytesLe))| <= |ReadTlv(rdn).value.content| < FOUR_BYTES
  {
    hide CanonicalAva, Elements, ReadTlv;
    AvasShrink(avas, canonical);
    SortLength(canonical);
    ElementsCover(ReadTlv(rdn).value.content, None);
  }

  /** A canonical RDN is one whole SET, no longer than the original, and canonical already. */
  lemma RdnFixed(rdn: seq<byte>)
    requires CanonicalRdn(rdn).Some?
    ensures var s := CanonicalRdn(rdn).value;
            |s| <= |rdn| && Whole(s) && ReadTlv(s).value.tag == 0x31 && CanonicalRdn(s) == Some(s)
  {
    var avas := Members(rdn).value;
    var canonical := CanonicalAvas(avas).value;
    var sorted := Sort(canonical, BytesLe);
    var body := Flatten(sorted);
    RdnFits(rdn, avas, canonical);
    WriterIsShortest(rdn);
    LengthMonotone(|body|, |ReadTlv(rdn).value.content|);
    assert Tlv(SET, body) + [] == Tlv(SET, body);
    ReadWritten(SET, body, []);
    SortedMembersFixed(avas, canonical);
    ElementsOfWhole(sorted, None);
    BytesOrder();
    SortCorrect(canonical, BytesLe);
    SortSorted(sorted, BytesLe);
    RdnFits(Tlv(SET, body), sorted, sorted);
  }

  /** A canonical RDN holds the canonical forms of the members it came from, each as often as they did, in order. */
  lemma {:induction false} RdnKeepsMembers(rdn: seq<byte>)
    requires CanonicalRdn(rdn).Some?
    ensures Members(rdn).Some? && CanonicalAvas(Members(rdn).value).Some?
    ensures var members := Members(CanonicalRdn(rdn).value);
            && members.Some?
            && Permutation(members.value, CanonicalAvas(Members(rdn).value).value)
            && Sorted(members.value, BytesLe)
  {
    var avas := Members(rdn).value;
    var canonical := CanonicalAvas(avas).value;
    var sorted := Sort(canonical, BytesLe);
    hide ReadTlv, Elements, CanonicalAva, Sort, BytesLe;
    RdnFits(rdn, avas, canonical);
    SortedMembersFixed(avas, canonical);
    ElementsOfWhole(sorted, None);
    ReadWritten(SET, Flatten(sorted), []);
    assert Tlv(SET, Flatten(sorted)) + [] == Tlv(SET, Flatten(sorted));
    BytesOrder();
    SortCorrect(canonical, BytesLe);
  }

  lemma {:induction false} SortedMembersFixed(avas: seq<seq<byte>>, canonical: seq<seq<byte>>)
    requires CanonicalAvas(avas) == Some(canonical)
    ensures forall t | t in Sort(canonical, BytesLe) :: Whole(t)
    ensures CanonicalAvas(Sort(canonical, BytesLe)) == Some(Sort(canonical, BytesLe))
  {
    hide CanonicalAva, ReadTlv;
    var sorted := Sort(canonical, BytesLe);
    BytesOrder();
    SortCorrect(canonical, BytesLe);
    PermutationMembers(sorted, canonical);
    forall t | t in sorted ensures Whole(t) && CanonicalAva(t) == Some(t) {
      assert t in canonical;
      var i :| 0 <= i < |canonical| && canonical[i] == t;
      AvaFixed(avas[i]);
    }
    AllIs(CanonicalAva, sorted, sorted);
  }

  // ---------------------------------------------------------------- the name

  function CanonicalName(name: seq<byte>): Option<seq<byte>> {
    match Contents(name, SET)
    case None => None
    case Some(rdns) => match All(CanonicalRdn, rdns)
      case None => None
      case Some(sets) => Some(Flatten(sets))
  }

  /** The canonical name is its RDNs' canonical forms end to end, each still there to be read. */
  lemma {:induction false} NameKeepsRdns(name: seq<byte>)
    requires CanonicalName(name).Some?
    ensures Contents(name, 0x31).Some?
    ensures Elements(CanonicalName(name).value, Some(0x31)) == All(CanonicalRdn, Contents(name, 0x31).value)
  {
    var rdns := Contents(name, SET).value;
    var sets := All(CanonicalRdn, rdns).value;
    hide ReadTlv, Elements, CanonicalRdn;
    forall t | t in sets ensures Whole(t) && ReadTlv(t).value.tag == SET {
      var i :| 0 <= i < |sets| && sets[i] == t;
      RdnFixed(rdns[i]);
    }
    ElementsOfWhole(sets, Some(SET));
  }

  lemma {:induction false} SetsShrink(rdns: seq<seq<byte>>, sets: seq<seq<byte>>)
    requires |rdns| == |sets|
    requires forall i | 0 <= i < |rdns| :: CanonicalRdn(rdns[i]) == Some(sets[i])
    ensures |Flatten(sets)| <= |Flatten(rdns)|
  {
    if rdns != [] {
      hide CanonicalRdn;
      RdnFixed(rdns[0]);
      SetsShrink(rdns[1..], sets[1..]);
    }
  }

  /** The canonical form is shorter than the name it came from by at least a header. */
  lemma {:induction false} CanonicalIsShorter(name: seq<byte>)
    requires CanonicalName(name).Some?
    ensures |CanonicalName(name).value| + 2 <= |name|
    ensures |CanonicalName(name).value| < FOUR_BYTES
  {
    hide CanonicalRdn, ReadTlv, Elements;
    var content := ReadTlv(name).value.content;
    var rdns := Contents(name, SET).value;
    ElementsCover(content, Some(SET));
    SetsShrink(rdns, All(CanonicalRdn, rdns).value);
    assert |content| + 2 <= |name|;
  }

  /** Canonicalising is a fixed point: the canonical form, wrapped as a name again, is its own canonical form. */
  lemma {:induction false} CanonicalIsFixed(name: seq<byte>)
    requires CanonicalName(name).Some?
    ensures var c := CanonicalName(name).value;
            |c| < USIZE && CanonicalName(Tlv(SEQUENCE, c)) == Some(c)
  {
    var rdns := Contents(name, SET).value;
    var sets := All(CanonicalRdn, rdns).value;
    var c := Flatten(sets);
    CanonicalIsShorter(name);
    hide CanonicalRdn, ReadTlv, Elements, Tlv, All;
    forall i | 0 <= i < |sets|
      ensures Whole(sets[i]) && ReadTlv(sets[i]).value.tag == SET && CanonicalRdn(sets[i]) == Some(sets[i])
    {
      RdnFixed(rdns[i]);
    }
    AllIs(CanonicalRdn, sets, sets);
    ElementsOfWhole(sets, Some(SET));
    assert Tlv(SEQUENCE, c) + [] == Tlv(SEQUENCE, c);
    ReadWritten(SEQUENCE, c, []);
  }

  // ---------------------------------------------------------------- order within an RDN

  function CanonicalOrEmpty(ava: seq<byte>): seq<byte> {
    match CanonicalAva(ava) case None => [] case Some(c) => c
  }

  lemma {:induction false} AvasPermute(a: seq<seq<byte>>, b: seq<seq<byte>>)
    requires Permutation(a, b) && CanonicalAvas(a).Some?
    ensures CanonicalAvas(b).Some? && Permutation(CanonicalAvas(a).value, CanonicalAvas(b).value)
  {
    hide CanonicalAva, All, Map;
    PermutationMembers(a, b);
    forall i | 0 <= i < |b| ensures CanonicalAva(b[i]) == Some(CanonicalOrEmpty(b[i])) {
      assert b[i] in a;
      var k :| 0 <= k < |a| && a[k] == b[i];
    }
    AllIs(CanonicalAva, b, Map(CanonicalOrEmpty, b));
    AllIs(CanonicalAva, a, Map(CanonicalOrEmpty, a));
    MapPermutes(CanonicalOrEmpty, a, b);
  }

  lemma {:induction false} RdnOf(rdn: seq<byte>)
    requires Members(rdn).Some?
    ensures match CanonicalAvas(Members(rdn).value)
            case None => CanonicalRdn(rdn) == None
            case Some(canonical) => && |Flatten(Sort(canonical, BytesLe))| < USIZE
                                    && CanonicalRdn(rdn) == Some(Tlv(SET, Flatten(Sort(canonical, BytesLe))))
  {
    hide CanonicalAva, Elements, ReadTlv, CanonicalAvas;
    var avas := Members(rdn).value;
    if CanonicalAvas(avas).Some? {
      RdnFits(rdn, avas, CanonicalAvas(avas).value);
    }
  }

  /** Reordering the members of an RDN does not change its canonical form, refusals included. */
  lemma {:induction false} RdnReordered(r: seq<byte>, s: seq<byte>)
    requires Members(r).Some? && Members(s).Some? && Permutation(Members(r).value, Members(s).value)
    ensures CanonicalRdn(r) == CanonicalRdn(s)
  {
    hide CanonicalAvas, CanonicalRdn, Members, Sort, Flatten, Tlv;
    var a, b := Members(r).value, Members(s).value;
    RdnOf(r);
    RdnOf(s);
    if CanonicalAvas(a).Some? {
      AvasPermute(a, b);
      BytesOrder();
      SortInsensitive(CanonicalAvas(a).value, CanonicalAvas(b).value, BytesLe);
    } else if CanonicalAvas(b).Some? {
      AvasPermute(b, a);
    }
  }

  /** Two names that differ only in the order of members inside their RDNs. */
  ghost predicate SameUpToOrder(n: seq<byte>, m: seq<byte>) {
    && Contents(n, SET).Some? && Contents(m, SET).Some?
    && var a, b := Contents(n, SET).value, Contents(m, SET).value;
    && |a| == |b|
    && forall i | 0 <= i < |a| ::
         Members(a[i]).Some? && Members(b[i]).Some? && Permutation(Members(a[i]).value, Members(b[i]).value)
  }

  lemma {:induction false} OrderIsIgnored(n: seq<byte>, m: seq<byte>)
    requires SameUpToOrder(n, m)
    ensures CanonicalName(n) == CanonicalName(m)
  {
    hide CanonicalRdn, Contents, Members, All;
    var a, b := Contents(n, SET).value, Contents(m, SET).value;
    forall i | 0 <= i < |a| ensures CanonicalRdn(a[i]) == CanonicalRdn(b[i]) {
      RdnReordered(a[i], b[i]);
    }
    AllCongruent(CanonicalRdn, a, b);
  }

  // ---------------------------------------------------------------- the code

  method Concatenate(pieces: seq<seq<byte>>) returns (out: seq<byte>)
    ensures out == Flatten(pieces)
  {
    out := [];
    for i := 0 to |pieces|
      invariant out == Flatten(pieces[..i])
    {
      assert pieces[..i + 1] == pieces[..i] + [pieces[i]];
      FlattenAppend(pieces[..i], [pieces[i]]);
      ghost var empty: seq<seq<byte>> := [];
      assert [pieces[i]][1..] == empty;
      out := out + pieces[i];
    }
    assert pieces[..|pieces|] == pieces;
  }

  method CanonicaliseRdn(rdn: seq<byte>) returns (r: Option<seq<byte>>)
    ensures r == CanonicalRdn(rdn)
  {
    hide CanonicalAva, Elements, ReadTlv;
    var outer := ReadTlv(rdn);
    if outer.None? {
      return None;
    }
    var avas := ReadElements(outer.value.content, None);
    if avas.None? {
      return None;
    }
    var encoded: seq<seq<byte>> := [];
    for i := 0 to |avas.value|
      invariant |encoded| == i
      invariant forall k | 0 <= k < i :: CanonicalAva(avas.value[k]) == Some(encoded[k])
    {
      var ava := CanonicalAva(avas.value[i]);
      if ava.None? {
        return None;
      }
      encoded := encoded + [ava.value];
    }
    AllIs(CanonicalAva, avas.value, encoded);
    RdnFits(rdn, avas.value, encoded);
    var body := Concatenate(Sort(encoded, BytesLe));
    return Some(Tlv(SET, body));
  }

  method CanonicaliseName(name: seq<byte>) returns (r: Option<seq<byte>>)
    ensures r == CanonicalName(name)
  {
    hide CanonicalRdn, Elements, ReadTlv;
    var outer := ReadTlv(name);
    if outer.None? || outer.value.tag != SEQUENCE || outer.value.rest != [] {
      return None;
    }
    var rdns := ReadElements(outer.value.content, Some(SET));
    if rdns.None? {
      return None;
    }
    var sets: seq<seq<byte>> := [];
    for i := 0 to |rdns.value|
      invariant |sets| == i
      invariant forall k | 0 <= k < i :: CanonicalRdn(rdns.value[k]) == Some(sets[k])
    {
      var set_ := CanonicaliseRdn(rdns.value[i]);
      if set_.None? {
        return None;
      }
      sets := sets + [set_.value];
    }
    AllIs(CanonicalRdn, rdns.value, sets);
    var out := Concatenate(sets);
    return Some(out);
  }
}
