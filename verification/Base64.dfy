/**
  Base64 as the certificate code writes and reads it (section 4 of RFC 4648).

  The decoder keeps its unread bits in a 32-bit accumulator that it shifts and never clears, so high bits fall off the
  top. The specification it is proved against knows nothing of that: it lays the six-bit values end to end as one
  string of bits and cuts the string into bytes.
 */
module Base64 {
  import opened Basics

  type sextet = x: int | 0 <= x < 64

  // ---------------------------------------------------------------- bit strings

  function Pow2(n: nat): (p: nat)
    ensures p > 0
  {
    if n == 0 then 1 else 2 * Pow2(n - 1)
  }

  /** The `width` low bits of `value`, most significant first. */
  function Bits(value: nat, width: nat): (r: seq<bool>)
    ensures |r| == width
  {
    if width == 0 then [] else Bits(value / 2, width - 1) + [value % 2 == 1]
  }

  /** The number a string of bits spells. */
  function Number(bits: seq<bool>): nat {
    if bits == [] then 0
    else 2 * Number(bits[..|bits| - 1]) + if bits[|bits| - 1] then 1 else 0
  }

  function DataBits(data: seq<byte>): seq<bool> {
    if data == [] then [] else Bits(data[0], 8) + DataBits(data[1..])
  }

  function SextetBits(values: seq<sextet>): seq<bool> {
    if values == [] then [] else Bits(values[0], 6) + SextetBits(values[1..])
  }

  /** A bit string cut into whole bytes; up to seven bits left over are dropped. */
  function Pack(bits: seq<bool>): seq<byte> {
    if |bits| < 8 then [] else [Number(bits[..8]) % 256] + Pack(bits[8..])
  }

  lemma SmallPowers()
    ensures Pow2(0) == 1 && Pow2(2) == 4 && Pow2(4) == 16 && Pow2(6) == 64 && Pow2(8) == 256
    ensures Pow2(12) == 4096 && Pow2(16) == 65536 && Pow2(18) == 262144
  {
    assert Pow2(4) == 16;
    assert Pow2(8) == 256;
    assert Pow2(12) == 4096;
    assert Pow2(16) == 65536;
  }

  lemma {:induction false} NumberBound(bits: seq<bool>)
    ensures Number(bits) < Pow2(|bits|)
  {
    if bits != [] {
      NumberBound(bits[..|bits| - 1]);
    }
  }

  lemma {:induction false} NumberAppend(a: seq<bool>, b: seq<bool>)
    ensures Number(a + b) == Number(a) * Pow2(|b|) + Number(b)
  {
    if b == [] {
      assert a + b == a;
    } else {
      var front := b[..|b| - 1];
      NumberAppend(a, front);
      assert (a + b)[..|a + b| - 1] == a + front;
      assert Pow2(|b|) == 2 * Pow2(|front|);
      assert 2 * (Number(a) * Pow2(|front|)) == Number(a) * Pow2(|b|);
    }
  }

  lemma {:induction false} NumberOfBits(value: nat, width: nat)
    requires value < Pow2(width)
    ensures Number(Bits(value, width)) == value
  {
    if width > 0 {
      NumberOfBits(value / 2, width - 1);
      var b := Bits(value, width);
      assert b[..|b| - 1] == Bits(value / 2, width - 1);
    }
  }

  lemma {:induction false} NumberInjective(a: seq<bool>, b: seq<bool>)
    requires |a| == |b| && Number(a) == Number(b)
    ensures a == b
  {
    if a != [] {
      var n := |a| - 1;
      NumberInjective(a[..n], b[..n]);
      assert a == a[..n] + [a[n]] && b == b[..n] + [b[n]];
    }
  }

  lemma {:induction false} PackAppend(a: seq<bool>, b: seq<bool>)
    requires |a| % 8 == 0
    ensures Pack(a + b) == Pack(a) + Pack(b)
  {
    if a == [] {
      assert a + b == b;
    } else {
      assert (a + b)[..8] == a[..8] && (a + b)[8..] == a[8..] + b;
      PackAppend(a[8..], b);
    }
  }

  lemma Octet(v: byte)
    ensures Number(Bits(v, 8)) == v
  {
    SmallPowers();
    NumberOfBits(v, 8);
  }

  lemma OctetBits(bits: seq<bool>)
    requires |bits| == 8
    ensures Number(bits) < 256 && Bits(Number(bits), 8) == bits
  {
    SmallPowers();
    NumberBound(bits);
    Octet(Number(bits));
    NumberInjective(Bits(Number(bits), 8), bits);
  }

  lemma PackStep(octet: seq<bool>, rest: seq<bool>)
    requires |octet| == 8
    ensures Pack(octet + rest) == [Number(octet) % 256] + Pack(rest)
  {
    assert (octet + rest)[..8] == octet && (octet + rest)[8..] == rest;
  }

  lemma DataBitsStep(first: byte, rest: seq<byte>)
    ensures DataBits([first] + rest) == Bits(first, 8) + DataBits(rest)
  {
    assert ([first] + rest)[1..] == rest;
  }

  /** Cutting into bytes undoes laying bytes end to end, whatever short tail follows them. */
  lemma {:induction false} PackInverts(data: seq<byte>, tail: seq<bool>)
    requires |tail| < 8
    ensures Pack(DataBits(data) + tail) == data
  {
    hide *;
    if data == [] {
      TooShort(tail);
      assert DataBits([]) + tail == tail;
    } else {
      var first, rest := data[0], data[1..];
      assert data == [first] + rest;
      DataBitsStep(first, rest);
      Octet(first);
      PackInverts(rest, tail);
      PackStep(Bits(first, 8), DataBits(rest) + tail);
      assert DataBits(data) + tail == Bits(first, 8) + (DataBits(rest) + tail);
    }
  }

  /** The bytes cut from a bit string are its whole octets, unchanged and in order. */
  lemma {:induction false} PackKeepsBits(bits: seq<bool>)
    ensures |Pack(bits)| == |bits| / 8
    ensures DataBits(Pack(bits)) <= bits
  {
    hide *;
    if |bits| < 8 {
      TooShort(bits);
    } else {
      var octet, rest := bits[..8], bits[8..];
      assert bits == octet + rest;
      PackStep(octet, rest);
      OctetBits(octet);
      DataBitsStep(Number(octet), Pack(rest));
      PackKeepsBits(rest);
    }
  }

  lemma TooShort(bits: seq<bool>)
    requires |bits| < 8
    ensures Pack(bits) == [] && DataBits([]) == []
  {}

  lemma {:induction false} SextetBitsLength(values: seq<sextet>)
    ensures |SextetBits(values)| == 6 * |values|
  {
    if values != [] {
      SextetBitsLength(values[1..]);
    }
  }

  lemma {:induction false} SextetBitsAppend(values: seq<sextet>, v: sextet)
    ensures SextetBits(values + [v]) == SextetBits(values) + Bits(v, 6)
  {
    if values == [] {
      assert [v][1..] == [];
    } else {
      assert (values + [v])[1..] == values[1..] + [v];
      SextetBitsAppend(values[1..], v);
    }
  }

  // ---------------------------------------------------------------- decoding

  function SextetOf(c: char): Option<sextet> {
    if 'A' <= c <= 'Z' then Some(c as int - 'A' as int)
    else if 'a' <= c <= 'z' then Some(c as int - 'a' as int + 26)
    else if '0' <= c <= '9' then Some(c as int - '0' as int + 52)
    else if c == '+' then Some(62)
    else if c == '/' then Some(63)
    else None
  }

  predicate Blank(c: char) {
    c == ' ' || c == '\t' || c == '\r' || c == '\n'
  }

  function Prepend(v: sextet, rest: Option<seq<sextet>>): Option<seq<sextet>> {
    match rest case None => None case Some(vs) => Some([v] + vs)
  }

  /** The values a text spells: blanks are skipped, `=` ends it, anything else foreign refuses it. */
  function Sextets(text: string): Option<seq<sextet>> {
    if text == [] || text[0] == '=' then Some([])
    else if Blank(text[0]) then Sextets(text[1..])
    else match SextetOf(text[0])
      case None => None
      case Some(v) => Prepend(v, Sextets(text[1..]))
  }

  function Decode(text: string): Option<seq<byte>> {
    match Sextets(text) case None => None case Some(vs) => Some(Pack(SextetBits(vs)))
  }

  /** The text before the first `=`. */
  function UpToPad(text: string): (r: string)
    ensures r <= text && '=' !in r && (|r| < |text| ==> text[|r|] == '=')
  {
    if text == [] || text[0] == '=' then [] else [text[0]] + UpToPad(text[1..])
  }

  /** Its characters other than blanks. */
  function NotBlank(text: string): string {
    if text == [] then [] else (if Blank(text[0]) then [] else [text[0]]) + NotBlank(text[1..])
  }

  /** Each character before the padding is a blank or one of the 64 digits, and the digits are the values spelled. */
  lemma {:induction false} SextetsCharByChar(text: string)
    ensures Sextets(text).Some? <==> forall c | c in UpToPad(text) :: Blank(c) || SextetOf(c).Some?
    ensures Sextets(text).Some? ==>
              var vs, digits := Sextets(text).value, NotBlank(UpToPad(text));
              |vs| == |digits| && forall i | 0 <= i < |vs| :: SextetOf(digits[i]) == Some(vs[i])
  {
    hide SextetOf, Blank;
    if text != [] && text[0] != '=' {
      SextetsCharByChar(text[1..]);
      assert UpToPad(text) == [text[0]] + UpToPad(text[1..]);
      assert UpToPad(text)[1..] == UpToPad(text[1..]);
    }
  }

  /**
    Decoding succeeds exactly when each character before the first `=` is a digit or a blank. `k` digits decode to
    exactly `6k/8` bytes, whose bits are the first bits of their values.
   */
  lemma {:induction false} DecodeIsTheBitString(text: string)
    ensures Decode(text).Some? <==> forall c | c in UpToPad(text) :: Blank(c) || SextetOf(c).Some?
    ensures Decode(text).Some? ==>
              var vs, out, digits := Sextets(text).value, Decode(text).value, NotBlank(UpToPad(text));
              && |vs| == |digits| && (forall i | 0 <= i < |vs| :: SextetOf(digits[i]) == Some(vs[i]))
              && |out| == 6 * |vs| / 8 && DataBits(out) <= SextetBits(vs)
  {
    hide SextetOf, Blank, Sextets, UpToPad, NotBlank;
    SextetsCharByChar(text);
    if Sextets(text).Some? {
      PackKeepsBits(SextetBits(Sextets(text).value));
      SextetBitsLength(Sextets(text).value);
    }
  }

  /** Blanks may stand anywhere. */
  lemma {:induction false} BlanksIgnored(a: string, c: char, b: string)
    requires Blank(c)
    ensures Sextets(a + [c] + b) == Sextets(a + b)
    ensures Decode(a + [c] + b) == Decode(a + b)
  {
    if a == [] {
      assert a + [c] + b == [c] + b && a + b == b;
    } else {
      assert (a + [c] + b)[1..] == a[1..] + [c] + b;
      assert (a + b)[1..] == a[1..] + b;
      BlanksIgnored(a[1..], c, b);
    }
  }

  /** `(acc << 6) | value` on a `u32`: the shift drops the bits that no longer fit. */
  function Push(acc: nat, v: sextet): nat {
    (acc * 64) % 0x1_0000_0000 + v
  }

  function LowBits(acc: nat, bits: nat): nat {
    acc % Pow2(bits)
  }

  /** `(acc >> bits) as u8` */
  function ByteAbove(acc: nat, bits: nat): byte {
    (acc / Pow2(bits)) % 256
  }

  lemma Quotient(x: int, q: int, d: int, r: int)
    requires q == 1 || q == 4 || q == 16 || q == 64 || q == 256
    requires 0 <= r < q && x == q * d + r
    ensures x / q == d && x % q == r
  {}

  /** Shifting left in 32 bits keeps the low 26 bits. */
  lemma ShiftKeeps(acc: nat)
    ensures (acc * 64) % 0x1_0000_0000 == acc % 0x400_0000 * 64
  {
    assert acc * 64 == acc / 0x400_0000 * 0x1_0000_0000 + acc % 0x400_0000 * 64;
  }

  lemma LowMod(acc: nat, p: nat)
    requires p == 4 || p == 16 || p == 64
    ensures acc % 0x400_0000 % p == acc % p
  {
    var high, low := acc / 0x400_0000, acc % 0x400_0000;
    if p == 4 {
      Quotient(acc, 4, high * 0x100_0000 + low / 4, low % 4);
    } else if p == 16 {
      Quotient(acc, 16, high * 0x40_0000 + low / 16, low % 16);
    } else {
      Quotient(acc, 64, high * 0x10_0000 + low / 64, low % 64);
    }
  }

  lemma ByteOut(low: nat, v: sextet, p: nat, q: nat, top: nat, rest: nat)
    requires (p == 4 && q == 1) || (p == 16 && q == 4) || (p == 64 && q == 16)
    requires top < 256 && rest < q && low % p * 64 + v == top * q + rest
    ensures (low * 64 + v) / q % 256 == top && (low * 64 + v) % q == rest
  {
    var k := low / p;
    Quotient(low * 64 + v, q, 256 * k + top, rest);
    Quotient(256 * k + top, 256, k, top);
  }

  /** So the shift loses nothing that the next byte needs. */
  lemma {:induction false} AccumulatorArithmetic(acc: nat, v: sextet, bits: nat, top: nat, rest: nat)
    requires bits == 2 || bits == 4 || bits == 6
    requires top < 256 && rest < Pow2(bits - 2)
    requires LowBits(acc, bits) * 64 + v == top * Pow2(bits - 2) + rest
    ensures var acc' := Push(acc, v);
            ByteAbove(acc', bits - 2) == top && LowBits(acc', bits - 2) == rest
  {
    SmallPowers();
    hide Pow2;
    ShiftKeeps(acc);
    LowMod(acc, Pow2(bits));
    ByteOut(acc % 0x400_0000, v, Pow2(bits), Pow2(bits - 2), top, rest);
  }

  /** The unread bits with one more value behind them: a byte to write, and what stays unread. */
  lemma JoinedBits(t: seq<bool>, v: sextet) returns (top: seq<bool>, rest: seq<bool>)
    requires |t| == 2 || |t| == 4 || |t| == 6
    ensures t + Bits(v, 6) == top + rest && |top| == 8 && |rest| == |t| - 2
    ensures Number(t) * 64 + v == Number(top) * Pow2(|rest|) + Number(rest)
    ensures Number(top) < 256 && Number(rest) < Pow2(|rest|)
  {
    var joined := t + Bits(v, 6);
    top, rest := joined[..8], joined[8..];
    SmallPowers();
    NumberOfBits(v, 6);
    NumberAppend(t, Bits(v, 6));
    NumberAppend(top, rest);
    NumberBound(top);
    NumberBound(rest);
  }

  /** The bits of `b` not yet written out as bytes. */
  function Unread(b: seq<bool>): seq<bool> {
    b[|b| - |b| % 8..]
  }

  lemma ShortPack(bits: seq<bool>)
    requires |bits| < 16
    ensures Pack(bits) == if |bits| < 8 then [] else [Number(bits[..8]) % 256]
  {}

  /** More bits only ever follow what `Unread` holds. */
  lemma {:induction false} UnreadStep(b: seq<bool>, more: seq<bool>)
    ensures Pack(b + more) == Pack(b) + Pack(Unread(b) + more)
    ensures Unread(b + more) == Unread(Unread(b) + more)
  {
    hide Pack;
    var whole := b[..|b| - |b| % 8];
    assert b == whole + Unread(b) && b + more == whole + (Unread(b) + more);
    PackAppend(whole, Unread(b));
    PackAppend(whole, Unread(b) + more);
    ShortPack(Unread(b));
    assert |b + more| % 8 == |Unread(b) + more| % 8;
    assert Unread(b + more) == Unread(Unread(b) + more);
  }

  lemma UnreadRest(top: seq<bool>, rest: seq<bool>)
    requires |top| == 8 && |rest| < 8
    ensures Pack(top + rest) == [Number(top) % 256] && Unread(top + rest) == rest
  {
    assert (top + rest)[..8] == top;
    assert |top + rest| % 8 == |rest|;
    ShortPack(top + rest);
  }

  lemma UnreadLength(b: seq<bool>)
    ensures |Unread(b)| == |b| % 8
  {}

  /** One value pushed through the wrapping accumulator, against the bit string it stands for. */
  lemma {:induction false} AccumulatorStep(b: seq<bool>, v: sextet, acc: nat, bits: nat)
    requires |b| % 2 == 0 && bits == |b| % 8
    requires LowBits(acc, bits) == Number(Unread(b))
    ensures
      var acc' := Push(acc, v);
      var bits' := if bits + 6 >= 8 then bits - 2 else bits + 6;
      && bits' == |b + Bits(v, 6)| % 8
      && LowBits(acc', bits') == Number(Unread(b + Bits(v, 6)))
      && Pack(b + Bits(v, 6)) == Pack(b) + if bits + 6 >= 8 then [ByteAbove(acc', bits')] else []
  {
    hide *;
    var t := Unread(b);
    UnreadLength(b);
    UnreadStep(b, Bits(v, 6));
    if bits == 0 {
      assert t + Bits(v, 6) == Bits(v, 6);
      EmptyAccumulator(v, acc);
    } else {
      var top, rest := JoinedBits(t, v);
      AccumulatorArithmetic(acc, v, bits, Number(top), Number(rest));
      UnreadRest(top, rest);
    }
  }

  lemma EmptyAccumulator(v: sextet, acc: nat)
    ensures LowBits(Push(acc, v), 6) == Number(Bits(v, 6))
    ensures Unread(Bits(v, 6)) == Bits(v, 6) && Pack(Bits(v, 6)) == []
  {
    SmallPowers();
    NumberOfBits(v, 6);
    var low := (acc * 64) % 0x1_0000_0000;
    assert low == 64 * (acc - acc * 64 / 0x1_0000_0000 * 0x400_0000);
  }

  function Onto(values: seq<sextet>, rest: Option<seq<sextet>>): Option<seq<sextet>> {
    match rest case None => None case Some(vs) => Some(values + vs)
  }

  lemma {:induction false} DecodingStep(values: seq<sextet>, v: sextet, acc: nat, bits: nat)
    requires bits == |SextetBits(values)| % 8
    requires LowBits(acc, bits) == Number(Unread(SextetBits(values)))
    ensures
      var acc', values' := Push(acc, v), values + [v];
      var bits' := if bits + 6 >= 8 then bits - 2 else bits + 6;
      && bits' == |SextetBits(values')| % 8
      && LowBits(acc', bits') == Number(Unread(SextetBits(values')))
      && Pack(SextetBits(values')) ==
         Pack(SextetBits(values)) + if bits + 6 >= 8 then [ByteAbove(acc', bits')] else []
  {
    hide *;
    SextetBitsLength(values);
    AccumulatorStep(SextetBits(values), v, acc, bits);
    SextetBitsAppend(values, v);
  }

  /** What reading one more character does to what the text still spells. */
  lemma ReadOne(values: seq<sextet>, text: string)
    requires text != []
    ensures text[0] == '=' ==> Onto(values, Sextets(text)) == Some(values)
    ensures text[0] != '=' && Blank(text[0]) ==> Sextets(text) == Sextets(text[1..])
    ensures text[0] != '=' && !Blank(text[0]) ==>
              match SextetOf(text[0])
              case None => Sextets(text) == None
              case Some(v) => Onto(values, Sextets(text)) == Onto(values + [v], Sextets(text[1..]))
  {
    assert values + [] == values;
    var v, rest := SextetOf(text[0]), Sextets(text[1..]);
    if v.Some? && rest.Some? {
      assert values + ([v.value] + rest.value) == values + [v.value] + rest.value;
    }
  }

  lemma ReadNone(values: seq<sextet>, text: string)
    ensures Onto([], Sextets(text)) == Sextets(text) && Onto(values, None) == None
    ensures Onto(values, Sextets([])) == Some(values)
    ensures Pack(SextetBits([])) == [] && SextetBits([]) == []
    ensures LowBits(0, 0) == Number(Unread([]))
  {
    assert values + [] == values;
    if Sextets(text).Some? {
      assert [] + Sextets(text).value == Sextets(text).value;
    }
  }

  lemma Decoded(text: string, values: seq<sextet>)
    ensures Sextets(text) == Some(values) ==> Decode(text) == Some(Pack(SextetBits(values)))
    ensures Sextets(text) == None ==> Decode(text) == None
  {}

  method DecodeText(text: string) returns (r: Option<seq<byte>>)
    ensures r == Decode(text)
  {
    hide *;
    var acc: nat, bits: nat, out: seq<byte> := 0, 0, [];
    ghost var values: seq<sextet> := [];
    var i := 0;
    assert text[i..] == text;
    ReadNone([], text);
    while i < |text|
      invariant 0 <= i <= |text| && bits < 8
      invariant Sextets(text) == Onto(values, Sextets(text[i..]))
      invariant bits == |SextetBits(values)| % 8
      invariant LowBits(acc, bits) == Number(Unread(SextetBits(values)))
      invariant out == Pack(SextetBits(values))
    {
      var c := text[i];
      assert text[i..][1..] == text[i + 1..];
      ReadOne(values, text[i..]);
      i := i + 1;
      if c == '=' {
        Decoded(text, values);
        return Some(out);
      } else if Blank(c) {
        continue;
      }
      var value := SextetOf(c);
      if value.None? {
        ReadNone(values, text);
        Decoded(text, values);
        return None;
      }
      DecodingStep(values, value.value, acc, bits);
      values := values + [value.value];
      acc := Push(acc, value.value);
      bits := bits + 6;
      if bits >= 8 {
        bits := bits - 8;
        out := out + [ByteAbove(acc, bits)];
      }
    }
    assert text[i..] == [];
    ReadNone(values, text);
    Decoded(text, values);
    return Some(out);
  }

  // ---------------------------------------------------------------- encoding

  /** The 64-entry table, range by range. */
  function Digit(v: sextet): char {
    if v < 26 then 'A' + v as char
    else if v < 52 then 'a' + (v - 26) as char
    else if v < 62 then '0' + (v - 52) as char
    else if v == 62 then '+'
    else '/'
  }

  /** Up to three bytes as one 24-bit number; absent bytes are zero. */
  function Word(chunk: seq<byte>): nat
    requires 1 <= |chunk| <= 3
  {
    var b1: int := if |chunk| > 1 then chunk[1] else 0;
    var b2: int := if |chunk| > 2 then chunk[2] else 0;
    chunk[0] as int * 65536 + b1 * 256 + b2
  }

  /** Up to three bytes as four digits, `=` standing for the digits that carry no data. */
  function EncodeGroup(chunk: seq<byte>): (r: string)
    requires 1 <= |chunk| <= 3
    ensures |r| == 4
  {
    var n := Word(chunk);
    [Digit(n / 262144 % 64), Digit(n / 4096 % 64),
     if |chunk| > 1 then Digit(n / 64 % 64) else '=',
     if |chunk| > 2 then Digit(n % 64) else '=']
  }

  function Encode(data: seq<byte>): string {
    if data == [] then ""
    else if |data| <= 3 then EncodeGroup(data)
    else EncodeGroup(data[..3]) + Encode(data[3..])
  }

  lemma {:induction false} EncodeAppend(a: seq<byte>, b: seq<byte>)
    requires |a| % 3 == 0
    ensures Encode(a + b) == Encode(a) + Encode(b)
  {
    hide *;
    if a == [] {
      assert a + b == b;
      NothingEncodes();
    } else if b == [] {
      assert a + b == a;
      NothingEncodes();
    } else {
      assert (a + b)[..3] == a[..3] && (a + b)[3..] == a[3..] + b;
      EncodeAppend(a[3..], b);
      LongEncode(a + b);
      if |a| == 3 {
        EncodeChunk(a);
        NothingEncodes();
        assert a[..3] == a && a[3..] == [];
      } else {
        LongEncode(a);
      }
    }
  }

  lemma NothingEncodes()
    ensures Encode([]) == ""
  {}

  lemma EncodeChunk(chunk: seq<byte>)
    requires 1 <= |chunk| <= 3
    ensures Encode(chunk) == EncodeGroup(chunk)
  {}

  /** Four digits for every three bytes begun, with `=` exactly where the last group has no data. */
  lemma {:induction false} EncodingIsPadded(data: seq<byte>)
    ensures |Encode(data)| == (|data| + 2) / 3 * 4
    ensures forall i | 0 <= i < |Encode(data)| ::
              Encode(data)[i] == '=' <==> |data| % 3 != 0 && i > |Encode(data)| - 4 + |data| % 3
  {
    hide *;
    if data == [] {
      NothingEncodes();
    } else if |data| <= 3 {
      EncodeChunk(data);
      GroupIsPadded(data);
    } else {
      LongEncode(data);
      GroupIsPadded(data[..3]);
      EncodingIsPadded(data[3..]);
    }
  }

  lemma GroupIsPadded(chunk: seq<byte>)
    requires 1 <= |chunk| <= 3
    ensures |EncodeGroup(chunk)| == 4
    ensures forall i | 0 <= i < 4 :: EncodeGroup(chunk)[i] == '=' <==> i > |chunk|
  {}

  method EncodeBytes(data: seq<byte>) returns (out: string)
    ensures out == Encode(data)
  {
    hide *;
    NothingEncodes();
    out := "";
    var i := 0;
    while i < |data|
      invariant 0 <= i <= |data| && (i % 3 == 0 || i == |data|)
      invariant out == Encode(data[..i])
    {
      var next := if i + 3 < |data| then i + 3 else |data|;
      EncodeChunk(data[i..next]);
      EncodeAppend(data[..i], data[i..next]);
      assert data[..i] + data[i..next] == data[..next];
      out := out + EncodeGroup(data[i..next]);
      i := next;
    }
    assert data[..i] == data;
  }

  lemma DigitSpells(v: sextet)
    ensures SextetOf(Digit(v)) == Some(v)
    ensures Digit(v) != '=' && !Blank(Digit(v))
  {}

  /** The digits of one group spell the group's bits, then zero bits up to a whole digit. */
  lemma GroupBits(chunk: seq<byte>, after: string) returns (vs: seq<sextet>, tail: seq<bool>)
    requires 1 <= |chunk| <= 3
    ensures |chunk| == 3 ==> tail == [] && Sextets(EncodeGroup(chunk) + after) == Onto(vs, Sextets(after))
    ensures |chunk| < 3 ==> Sextets(EncodeGroup(chunk) + after) == Some(vs)
    ensures |tail| < 8 && SextetBits(vs) == DataBits(chunk) + tail
  {
    var n := Word(chunk);
    var s: seq<sextet> := [n / 262144 % 64, n / 4096 % 64, n / 64 % 64, n % 64];
    vs := s[..|chunk| + 1];
    tail := if |chunk| == 1 then Bits(0, 4) else if |chunk| == 2 then Bits(0, 2) else [];
    GroupSextets(chunk, after, vs);
    GroupBitString(chunk, vs, tail);
  }

  lemma NextDigit(text: string, v: sextet)
    requires text != [] && text[0] == Digit(v)
    ensures Sextets(text) == Prepend(v, Sextets(text[1..]))
  {
    DigitSpells(v);
  }

  lemma {:induction false} GroupSextets(chunk: seq<byte>, after: string, vs: seq<sextet>)
    requires 1 <= |chunk| <= 3 && |vs| == |chunk| + 1
    requires forall k | 0 <= k < |vs| :: EncodeGroup(chunk)[k] == Digit(vs[k])
    ensures |chunk| == 3 ==> Sextets(EncodeGroup(chunk) + after) == Onto(vs, Sextets(after))
    ensures |chunk| < 3 ==> Sextets(EncodeGroup(chunk) + after) == Some(vs)
  {
    var g := EncodeGroup(chunk) + after;
    var rest := Sextets(g[|vs|..]);
    if |chunk| < 3 {
      assert g[|vs|..][0] == EncodeGroup(chunk)[|vs|] == '=';
      assert rest == Some([]);
      assert vs + [] == vs;
    }
    hide EncodeGroup, Digit;
    hide Sextets;
    NextDigit(g, vs[0]);
    NextDigit(g[1..], vs[1]);
    assert g[1..][1..] == g[2..];
    if |chunk| > 1 {
      NextDigit(g[2..], vs[2]);
      assert g[2..][1..] == g[3..];
    }
    if |chunk| > 2 {
      NextDigit(g[3..], vs[3]);
      assert g[3..][1..] == g[4..] == after;
    }
    if rest.Some? {
      assert Sextets(g).Some? && Sextets(g).value == vs + rest.value;
    }
  }

  lemma {:induction false} GroupBitString(chunk: seq<byte>, vs: seq<sextet>, tail: seq<bool>)
    requires 1 <= |chunk| <= 3 && |vs| == |chunk| + 1
    requires tail == Bits(0, 6 * |vs| - 8 * |chunk|)
    requires var n := Word(chunk); vs == [n / 262144 % 64, n / 4096 % 64, n / 64 % 64, n % 64][..|vs|]
    ensures SextetBits(vs) == DataBits(chunk) + tail
  {
    hide *;
    NumberOfSextets(vs);
    NumberOfData(chunk);
    ZeroTail(DataBits(chunk), |tail|);
    var n, d := Word(chunk), Number(DataBits(chunk));
    SplitWord(n);
    GroupArithmetic(n / 262144 % 64, n / 4096 % 64, n / 64 % 64, n % 64, n, d);
    if |chunk| == 1 {
      assert vs == [vs[0], vs[1]];
      TwoDigits(vs[0], vs[1]);
      assert Number(SextetBits(vs)) == d * 16;
    } else if |chunk| == 2 {
      assert vs == [vs[0], vs[1], vs[2]];
      ThreeDigits(vs[0], vs[1], vs[2]);
      assert Number(SextetBits(vs)) == d * 4;
    } else {
      assert vs == [vs[0], vs[1], vs[2], vs[3]];
      FourDigits(vs[0], vs[1], vs[2], vs[3]);
    }
    NumberInjective(SextetBits(vs), DataBits(chunk) + tail);
  }

  lemma ZeroTail(b: seq<bool>, width: nat)
    requires width == 0 || width == 2 || width == 4
    ensures |b + Bits(0, width)| == |b| + width
    ensures Number(b + Bits(0, width)) == Number(b) * if width == 0 then 1 else if width == 2 then 4 else 16
  {
    NumberAppend(b, Bits(0, width));
    SmallPowers();
    NumberOfBits(0, width);
  }

  lemma SplitWord(n: nat)
    requires n < 16777216
    ensures n == n / 262144 % 64 * 262144 + n / 4096 % 64 * 4096 + n / 64 % 64 * 64 + n % 64
  {
    assert n == n / 64 * 64 + n % 64;
    var m := n / 64;
    assert n / 4096 == m / 64 && m == m / 64 * 64 + m % 64;
    var k := m / 64;
    assert n / 262144 == k / 64 && k == k / 64 * 64 + k % 64;
  }

  lemma GroupArithmetic(s0: sextet, s1: sextet, s2: sextet, s3: sextet, n: nat, d: nat)
    requires n == s0 as int * 262144 + s1 as int * 4096 + s2 as int * 64 + s3
    ensures d * 65536 == n ==> s0 as int * 64 + s1 == d * 16
    ensures d * 256 == n ==> s0 as int * 4096 + s1 as int * 64 + s2 == d * 4
  {}

  lemma TwoDigits(a: sextet, b: sextet)
    ensures Base64Number([a, b]) == a as int * 64 + b
  {
    assert [a, b][..1] == [a] && [a][..0] == [];
    assert Base64Number([a]) == a;
  }

  lemma ThreeDigits(a: sextet, b: sextet, c: sextet)
    ensures Base64Number([a, b, c]) == a as int * 4096 + b as int * 64 + c
  {
    TwoDigits(a, b);
    assert [a, b, c][..2] == [a, b];
  }

  lemma FourDigits(a: sextet, b: sextet, c: sextet, d: sextet)
    ensures Base64Number([a, b, c, d]) == a as int * 262144 + b as int * 4096 + c as int * 64 + d
  {
    ThreeDigits(a, b, c);
    assert [a, b, c, d][..3] == [a, b, c];
  }

  /** Digits in base 64, bytes in base 256. */
  function Base64Number(vs: seq<sextet>): nat {
    if vs == [] then 0 else Base64Number(vs[..|vs| - 1]) * 64 + vs[|vs| - 1]
  }

  lemma {:induction false} NumberOfSextets(vs: seq<sextet>)
    ensures |SextetBits(vs)| == 6 * |vs|
    ensures Number(SextetBits(vs)) == Base64Number(vs)
  {
    if vs != [] {
      var front := vs[..|vs| - 1];
      var last := vs[|vs| - 1];
      NumberOfSextets(front);
      assert vs == front + [last];
      SextetBitsAppend(front, last);
      NumberAppend(SextetBits(front), Bits(last, 6));
      SmallPowers();
      NumberOfBits(last, 6);
    }
  }

  lemma NumberOfData(chunk: seq<byte>)
    requires 1 <= |chunk| <= 3
    ensures |DataBits(chunk)| == 8 * |chunk|
    ensures Word(chunk) < 16777216
    ensures |chunk| == 1 ==> Number(DataBits(chunk)) * 65536 == Word(chunk)
    ensures |chunk| == 2 ==> Number(DataBits(chunk)) * 256 == Word(chunk)
    ensures |chunk| == 3 ==> Number(DataBits(chunk)) == Word(chunk)
  {
    SmallPowers();
    NumberOfBits(chunk[0], 8);
    assert DataBits([]) == [];
    if |chunk| > 1 {
      assert chunk[1..][1..] == chunk[2..];
      NumberOfBits(chunk[1], 8);
    }
    if |chunk| == 1 {
      assert DataBits(chunk) == Bits(chunk[0], 8);
    } else if |chunk| == 2 {
      assert DataBits(chunk[1..]) == Bits(chunk[1], 8);
      NumberAppend(Bits(chunk[0], 8), Bits(chunk[1], 8));
    } else {
      NumberOfBits(chunk[2], 8);
      assert DataBits(chunk[2..]) == Bits(chunk[2], 8);
      NumberAppend(Bits(chunk[1], 8), Bits(chunk[2], 8));
      NumberAppend(Bits(chunk[0], 8), DataBits(chunk[1..]));
    }
  }

  lemma LongEncode(data: seq<byte>)
    requires |data| > 3
    ensures Encode(data) == EncodeGroup(data[..3]) + Encode(data[3..])
  {}

  lemma AfterSome(values: seq<sextet>, rest: seq<sextet>)
    ensures Onto(values, Some(rest)) == Some(values + rest)
  {}

  lemma {:induction false} LastGroupSpells(data: seq<byte>) returns (vs: seq<sextet>, tail: seq<bool>)
    requires 1 <= |data| <= 3
    ensures Sextets(Encode(data)) == Some(vs)
    ensures |tail| < 8 && SextetBits(vs) == DataBits(data) + tail
  {
    hide *;
    vs, tail := GroupBits(data, "");
    EncodeChunk(data);
    ReadNone(vs, "");
    assert EncodeGroup(data) + "" == EncodeGroup(data);
  }

  lemma {:induction false} FirstGroupSpells(data: seq<byte>, rest: seq<sextet>) returns (head: seq<sextet>)
    requires |data| > 3 && Sextets(Encode(data[3..])) == Some(rest)
    ensures Sextets(Encode(data)) == Some(head + rest)
    ensures SextetBits(head) == DataBits(data[..3])
  {
    hide *;
    var none: seq<bool>;
    head, none := GroupBits(data[..3], Encode(data[3..]));
    LongEncode(data);
    AfterSome(head, rest);
    assert DataBits(data[..3]) + none == DataBits(data[..3]);
  }

  lemma {:induction false} EncodingSpells(data: seq<byte>) returns (vs: seq<sextet>, tail: seq<bool>)
    ensures Sextets(Encode(data)) == Some(vs)
    ensures |tail| < 8 && SextetBits(vs) == DataBits(data) + tail
  {
    hide *;
    if data == [] {
      vs, tail := [], [];
      NothingSpells();
    } else if |data| <= 3 {
      vs, tail := LastGroupSpells(data);
    } else {
      var rest, t := EncodingSpells(data[3..]);
      var head := FirstGroupSpells(data, rest);
      vs, tail := head + rest, t;
      SextetsJoin(head, rest);
      JoinGroups(data);
      assert DataBits(data[..3]) + (DataBits(data[3..]) + t) == DataBits(data) + t;
    }
  }

  lemma NothingSpells()
    ensures Encode([]) == "" && Sextets("") == Some([]) && SextetBits([]) == DataBits([]) == []
  {}

  lemma {:induction false} JoinGroups(data: seq<byte>)
    requires |data| > 3
    ensures DataBits(data) == DataBits(data[..3]) + DataBits(data[3..])
  {
    hide *;
    DataBitsJoin(data[..3], data[3..]);
    assert data == data[..3] + data[3..];
  }

  lemma {:induction false} SextetsJoin(a: seq<sextet>, b: seq<sextet>)
    ensures SextetBits(a + b) == SextetBits(a) + SextetBits(b)
  {
    if a == [] {
      assert a + b == b;
    } else {
      assert (a + b)[1..] == a[1..] + b;
      SextetsJoin(a[1..], b);
    }
  }

  lemma {:induction false} DataBitsJoin(a: seq<byte>, b: seq<byte>)
    ensures DataBits(a + b) == DataBits(a) + DataBits(b)
  {
    if a == [] {
      assert a + b == b;
    } else {
      assert (a + b)[1..] == a[1..] + b;
      DataBitsJoin(a[1..], b);
    }
  }

  /** Decoding inverts encoding, for every byte string. */
  lemma DecodeInvertsEncode(data: seq<byte>)
    ensures Decode(Encode(data)) == Some(data)
  {
    var vs, tail := EncodingSpells(data);
    PackInverts(data, tail);
  }
}
