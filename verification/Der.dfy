/**
  A reader and writer for DER tag-length-value elements (sections 8.1.3 and 10.1 of ITU-T X.690).

  The reader takes what the writer makes and more: it accepts a length spelled in more bytes than it needs, up to
  four. `None` stands for any decoding error.
 */
module Der {
  import opened Basics

  datatype Element = Element(tag: byte, content: seq<byte>, rest: seq<byte>)

  /** A slice length that four length bytes can spell. */
  const FOUR_BYTES: int := 0x1_0000_0000
  /** One more than the largest length a slice can have. */
  const USIZE: int := 0x1_0000_0000_0000_0000

  /** A number in the fewest big-endian bytes; zero takes one. */
  function BigEndian(n: nat): seq<byte> {
    if n < 256 then [n] else BigEndian(n / 256) + [n % 256]
  }

  function ReadNumber(bytes: seq<byte>): nat {
    if bytes == [] then 0 else ReadNumber(bytes[..|bytes| - 1]) * 256 + bytes[|bytes| - 1]
  }

  function Power256(k: nat): nat {
    if k == 0 then 1 else 256 * Power256(k - 1)
  }

  lemma {:induction false} BigEndianReads(n: nat)
    ensures ReadNumber(BigEndian(n)) == n
  {
    if n < 256 {
      assert [n as byte][..0] == [];
    } else {
      BigEndianReads(n / 256);
      var b := BigEndian(n);
      assert b[..|b| - 1] == BigEndian(n / 256);
    }
  }

  /** `k` bytes are enough exactly for the numbers below `256^k`. */
  lemma {:induction false} BigEndianLength(n: nat, k: nat)
    requires k > 0
    ensures |BigEndian(n)| <= k <==> n < Power256(k)
    decreases k
  {
    if k == 1 {
      assert Power256(1) == 256;
      if n >= 256 {
        assert |BigEndian(n)| >= 2;
      }
    } else {
      assert Power256(k) == 256 * Power256(k - 1);
      if n < 256 {
        PowerPositive(k - 1);
      } else {
        BigEndianLength(n / 256, k - 1);
        assert n / 256 < Power256(k - 1) <==> n < 256 * Power256(k - 1);
      }
    }
  }

  lemma NeverEmpty(n: nat)
    ensures BigEndian(n) != []
  {}

  lemma PowerPositive(k: nat)
    ensures Power256(k) >= 1
  {}

  lemma {:induction false} ReadNumberBound(bytes: seq<byte>)
    ensures ReadNumber(bytes) < Power256(|bytes|)
  {
    if bytes != [] {
      ReadNumberBound(bytes[..|bytes| - 1]);
      assert Power256(|bytes|) == 256 * Power256(|bytes| - 1);
    }
  }

  lemma Powers()
    ensures Power256(1) == 256 && Power256(2) == 0x1_0000 && Power256(3) == 0x100_0000
    ensures Power256(4) == FOUR_BYTES && Power256(8) == USIZE
  {
    assert Power256(4) == FOUR_BYTES;
    assert Power256(6) == 0x1_0000_0000_0000;
  }

  /** The length octets: one byte below 0x80, else a count and that many bytes. */
  function LengthBytes(n: nat): (r: seq<byte>)
    requires n < USIZE
  {
    if n < 0x80 then [n]
    else
      BigEndianLength(n, 8);
      Powers();
      [0x80 + |BigEndian(n)|] + BigEndian(n)
  }

  function Tlv(tag: byte, content: seq<byte>): seq<byte>
    requires |content| < USIZE
  {
    [tag] + LengthBytes(|content|) + content
  }

  /** The first element of `input` with what comes after it, or nothing if no element begins there. */
  function ReadTlv(input: seq<byte>): (r: Option<Element>)
    ensures r.Some? ==> |r.value.content| + |r.value.rest| + 2 <= |input| && |r.value.content| < FOUR_BYTES
  {
    if |input| < 2 then None
    else if input[1] < 0x80 then TakeContent(input, 2, input[1])
    else
      var count := input[1] as int - 0x80;
      if count == 0 || count > 4 || |input| < 2 + count then None
      else
        ReadNumberBound(input[2..2 + count]);
        Powers();
        TakeContent(input, 2 + count, ReadNumber(input[2..2 + count]))
  }

  function TakeContent(input: seq<byte>, header: nat, length: nat): Option<Element>
    requires input != []
  {
    if |input| < header + length then None
    else Some(Element(input[0], input[header..header + length], input[header + length..]))
  }

  /** The input is one element and nothing after it. */
  predicate Whole(t: seq<byte>) {
    ReadTlv(t).Some? && ReadTlv(t).value.rest == []
  }

  /** More input after an element changes only what follows it. */
  lemma ReadPrefix(t: seq<byte>, more: seq<byte>)
    requires ReadTlv(t).Some?
    ensures ReadTlv(t + more) == Some(ReadTlv(t).value.(rest := ReadTlv(t).value.rest + more))
  {
    var header := if t[1] < 0x80 then 2 else 2 + (t[1] as int - 0x80);
    assert (t + more)[2..header] == t[2..header];
    var length := |ReadTlv(t).value.content|;
    assert (t + more)[header..header + length] == t[header..header + length];
    assert (t + more)[header + length..] == t[header + length..] + more;
  }

  lemma TakeWritten(head: seq<byte>, content: seq<byte>, rest: seq<byte>)
    requires head != []
    ensures TakeContent(head + content + rest, |head|, |content|) == Some(Element(head[0], content, rest))
  {
    var input := head + content + rest;
    assert input[|head|..|head| + |content|] == content && input[|head| + |content|..] == rest;
  }

  lemma {:induction false} LongHeader(tag: byte, n: nat, after: seq<byte>)
    requires 0x80 <= n < USIZE
    ensures var count, input := |BigEndian(n)|, [tag] + LengthBytes(n) + after;
            && 0 < count < 128
            && |input| == 2 + count + |after|
            && input[1] == 0x80 + count
            && input[2..2 + count] == BigEndian(n)
            && (count <= 4 <==> n < FOUR_BYTES)
  {
    hide BigEndian, Power256;
    NeverEmpty(n);
    BigEndianLength(n, 4);
    BigEndianLength(n, 8);
    Powers();
    var input := [tag] + LengthBytes(n) + after;
    assert input[2..2 + |BigEndian(n)|] == BigEndian(n);
  }

  /** Writing then reading gives the element back, exactly when four length bytes suffice. */
  lemma {:induction false} ReadWritten(tag: byte, content: seq<byte>, rest: seq<byte>)
    requires |content| < USIZE
    ensures ReadTlv(Tlv(tag, content) + rest) ==
            if |content| < FOUR_BYTES then Some(Element(tag, content, rest)) else None
  {
    hide BigEndian, ReadNumber, Power256, TakeContent;
    var n := |content|;
    var head := [tag] + LengthBytes(n);
    assert Tlv(tag, content) + rest == head + content + rest == head + (content + rest);
    TakeWritten(head, content, rest);
    if n >= 0x80 {
      BigEndianReads(n);
      LongHeader(tag, n, content + rest);
    }
  }

  /** An element as read is never shorter than the writer would make it. */
  lemma WriterIsShortest(input: seq<byte>)
    requires ReadTlv(input).Some?
    ensures var e := ReadTlv(input).value; |Tlv(e.tag, e.content)| + |e.rest| <= |input|
  {
    var n := |ReadTlv(input).value.content|;
    if input[1] >= 0x80 {
      var count := input[1] as int - 0x80;
      ReadNumberBound(input[2..2 + count]);
      BigEndianLength(n, count);
    }
  }

  /** A shorter content is never written longer. */
  lemma LengthMonotone(m: nat, n: nat)
    requires m <= n < USIZE
    ensures |LengthBytes(m)| <= |LengthBytes(n)|
  {
    if m >= 0x80 {
      var k := |BigEndian(n)|;
      BigEndianLength(n, k);
      BigEndianLength(m, k);
    }
  }

  // ---------------------------------------------------------------- element lists

  /** The elements that make up `content`, each as its own bytes; `tag` if given is the one all must carry. */
  function Elements(content: seq<byte>, tag: Option<byte>): Option<seq<seq<byte>>>
    decreases |content|
  {
    if content == [] then Some([])
    else match ReadTlv(content)
      case None => None
      case Some(e) =>
        if tag.Some? && e.tag != tag.value then None
        else match Elements(e.rest, tag)
          case None => None
          case Some(others) => Some([content[..|content| - |e.rest|]] + others)
  }

  lemma ReadRest(input: seq<byte>)
    requires ReadTlv(input).Some?
    ensures var rest := ReadTlv(input).value.rest;
            && |rest| < |input|
            && input == input[..|input| - |rest|] + rest
            && Whole(input[..|input| - |rest|])
            && ReadTlv(input[..|input| - |rest|]).value.tag == input[0]
            && ReadTlv(input[..|input| - |rest|]).value.content == ReadTlv(input).value.content
  {
    var e := ReadTlv(input).value;
    var t := input[..|input| - |e.rest|];
    var header := |t| - |e.content|;
    assert input == t + e.rest;
    assert t[2..header] == input[2..header];
    assert t[header..] == e.content;
  }

  /** The elements are the content, cut into whole elements. */
  lemma {:induction false} ElementsCover(content: seq<byte>, tag: Option<byte>)
    requires Elements(content, tag).Some?
    ensures Flatten(Elements(content, tag).value) == content
    ensures forall t | t in Elements(content, tag).value :: Whole(t)
    decreases |content|
  {
    if content != [] {
      var e := ReadTlv(content).value;
      ReadRest(content);
      ElementsCover(e.rest, tag);
      var first, others := content[..|content| - |e.rest|], Elements(e.rest, tag).value;
      assert ([first] + others)[1..] == others;
    }
  }

  lemma {:induction false} ElementsStep(t: seq<byte>, rest: seq<byte>, tag: Option<byte>, ts: seq<seq<byte>>)
    requires Whole(t) && (tag.Some? ==> ReadTlv(t).value.tag == tag.value)
    requires Elements(rest, tag) == Some(ts)
    ensures Elements(t + rest, tag) == Some([t] + ts)
  {
    hide ReadTlv;
    ReadPrefix(t, rest);
    assert [] + rest == rest;
    assert (t + rest)[..|t + rest| - |rest|] == t;
    NotEmpty(t);
  }

  lemma NotEmpty(t: seq<byte>)
    requires ReadTlv(t).Some?
    ensures t != []
  {}

  /** Whole elements laid end to end are read back as they were. */
  lemma {:induction false} ElementsOfWhole(ts: seq<seq<byte>>, tag: Option<byte>)
    requires forall t | t in ts :: Whole(t) && (tag.Some? ==> ReadTlv(t).value.tag == tag.value)
    ensures Elements(Flatten(ts), tag) == Some(ts)
  {
    if ts != [] {
      hide Elements, ReadTlv;
      assert ts == [ts[0]] + ts[1..];
      assert forall t | t in ts[1..] :: t in ts;
      ElementsOfWhole(ts[1..], tag);
      ElementsStep(ts[0], Flatten(ts[1..]), tag, ts[1..]);
    }
  }

  function Join(before: seq<seq<byte>>, others: Option<seq<seq<byte>>>): Option<seq<seq<byte>>> {
    match others case None => None case Some(ts) => Some(before + ts)
  }

  method ReadElements(content: seq<byte>, tag: Option<byte>) returns (r: Option<seq<seq<byte>>>)
    ensures r == Elements(content, tag)
  {
    var out: seq<seq<byte>> := [];
    var remaining := content;
    JoinNone(Elements(content, tag));
    while remaining != []
      invariant Elements(content, tag) == Join(out, Elements(remaining, tag))
      decreases |remaining|
    {
      var e := ReadTlv(remaining);
      if e.None? || (tag.Some? && e.value.tag != tag.value) {
        return None;
      }
      var consumed := |remaining| - |e.value.rest|;
      JoinOne(out, remaining[..consumed], Elements(e.value.rest, tag));
      out := out + [remaining[..consumed]];
      remaining := e.value.rest;
    }
    assert out + [] == out;
    return Some(out);
  }

  lemma JoinNone(others: Option<seq<seq<byte>>>)
    ensures Join([], others) == others
  {
    if others.Some? {
      assert [] + others.value == others.value;
    }
  }

  lemma JoinOne(before: seq<seq<byte>>, t: seq<byte>, others: Option<seq<seq<byte>>>)
    ensures Join(before + [t], others) == Join(before, Join([t], others))
  {
    if others.Some? {
      assert before + [t] + others.value == before + ([t] + others.value);
    }
  }

  /** The members of a SEQUENCE that holds nothing but elements of one tag. */
  function Contents(input: seq<byte>, elementTag: byte): Option<seq<seq<byte>>> {
    match ReadTlv(input)
    case None => None
    case Some(e) => if e.tag != 0x30 || e.rest != [] then None else Elements(e.content, Some(elementTag))
  }

  /** The members of one constructed value, whatever its tag and whatever follows it. */
  function Members(input: seq<byte>): Option<seq<seq<byte>>> {
    match ReadTlv(input)
    case None => None
    case Some(e) => Elements(e.content, None)
  }
}
