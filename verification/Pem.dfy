/** PEM text (section 5 of RFC 7468), as a line scanner that ignores whatever is not a certificate block. */
module Pem {
  import opened Basics
  import Base64

  type Der = seq<byte>

  const BEGIN: string := "-----BEGIN CERTIFICATE-----"
  const END: string := "-----END CERTIFICATE-----"

  // ---------------------------------------------------------------- lines

  /** The characters Rust's `str::trim` removes: Unicode White_Space. */
  predicate Whitespace(c: char) {
    var n := c as int;
    || 0x09 <= n <= 0x0D || n == 0x20 || n == 0x85 || n == 0xA0 || n == 0x1680
    || 0x2000 <= n <= 0x200A || n == 0x2028 || n == 0x2029 || n == 0x202F || n == 0x205F || n == 0x3000
  }

  function TrimStart(s: string): string {
    if s != [] && Whitespace(s[0]) then TrimStart(s[1..]) else s
  }

  function TrimEnd(s: string): string {
    if s != [] && Whitespace(s[|s| - 1]) then TrimEnd(s[..|s| - 1]) else s
  }

  function Trim(s: string): string {
    TrimEnd(TrimStart(s))
  }

  /** The characters of White_Space in the Unicode Character Database. */
  const SPACES: set<int> :=
    {9, 10, 11, 12, 13, 32, 133, 160, 5760, 8192, 8193, 8194, 8195, 8196, 8197, 8198, 8199, 8200, 8201, 8202, 8232,
     8233, 8239, 8287, 12288}

  lemma {:induction false} TrimStartIs(s: string) returns (i: nat)
    ensures i <= |s| && TrimStart(s) == s[i..] && (forall k | 0 <= k < i :: s[k] as int in SPACES)
    ensures i < |s| ==> s[i] as int !in SPACES
  {
    if s != [] && Whitespace(s[0]) {
      var j := TrimStartIs(s[1..]);
      i := j + 1;
      assert s[1..][j..] == s[i..] && forall k | 0 < k < i :: s[1..][k - 1] == s[k];
      assert i < |s| ==> s[1..][j] == s[i];
    } else {
      i := 0;
    }
  }

  lemma {:induction false} TrimEndIs(s: string) returns (j: nat)
    ensures j <= |s| && TrimEnd(s) == s[..j] && (forall k | j <= k < |s| :: s[k] as int in SPACES)
    ensures j > 0 ==> s[j - 1] as int !in SPACES
  {
    if s != [] && Whitespace(s[|s| - 1]) {
      j := TrimEndIs(s[..|s| - 1]);
    } else {
      j := |s|;
    }
  }

  /** Trimming takes away the white space at both ends, and nothing else. */
  lemma {:induction false} TrimIs(s: string) returns (i: nat, j: nat)
    ensures i <= j <= |s| && Trim(s) == s[i..j]
    ensures forall k | 0 <= k < i || j <= k < |s| :: s[k] as int in SPACES
    ensures i < j ==> s[i] as int !in SPACES && s[j - 1] as int !in SPACES
  {
    i := TrimStartIs(s);
    var n := TrimEndIs(s[i..]);
    j := i + n;
    assert s[i..][..n] == s[i..j];
    assert n > 0 ==> s[i..][n - 1] == s[j - 1];
    forall k | j <= k < |s| ensures s[k] as int in SPACES {
      assert s[i..][k - i] == s[k];
    }
  }

  /**
    The text cut at each newline; a last piece without one counts unless it is empty. Rust also drops a carriage
    return before the newline, which `Trim` removes from every line anyway.
   */
  function Lines(text: string): seq<string> {
    LinesFrom("", text)
  }

  function LinesFrom(line: string, text: string): seq<string>
    decreases |text|
  {
    if text == [] then (if line == [] then [] else [line])
    else if text[0] == '\n' then [line] + LinesFrom("", text[1..])
    else LinesFrom(line + [text[0]], text[1..])
  }

  /** The text ends where a line ends. */
  predicate WholeLines(text: string) {
    text == [] || text[|text| - 1] == '\n'
  }

  lemma {:induction false} LinesFromAppend(line: string, a: string, b: string)
    requires WholeLines(a) && (a == [] ==> line == [])
    ensures LinesFrom(line, a + b) == LinesFrom(line, a) + LinesFrom("", b)
    decreases |a|
  {
    if a == [] {
      assert a + b == b;
    } else {
      var rest := a[1..];
      assert (a + b)[1..] == rest + b;
      assert rest != [] ==> rest[|rest| - 1] == a[|a| - 1];
      if a[0] == '\n' {
        LinesFromAppend("", rest, b);
      } else {
        LinesFromAppend(line + [a[0]], rest, b);
      }
    }
  }

  /** Text made of whole lines adds its lines and nothing else. */
  lemma LinesAppend(a: string, b: string)
    requires WholeLines(a)
    ensures Lines(a + b) == Lines(a) + Lines(b)
  {
    LinesFromAppend("", a, b);
  }

  lemma {:induction false} OneLineFrom(start: string, line: string, b: string)
    requires '\n' !in line
    ensures LinesFrom(start, line + "\n" + b) == [start + line] + Lines(b)
    decreases |line|
  {
    var text := line + "\n" + b;
    if line == [] {
      assert text == "\n" + b && text[1..] == b && start + line == start;
    } else {
      assert text[1..] == line[1..] + "\n" + b;
      OneLineFrom(start + [line[0]], line[1..], b);
      assert start + [line[0]] + line[1..] == start + line;
    }
  }

  lemma OneLine(line: string, b: string)
    requires '\n' !in line
    ensures Lines(line + "\n" + b) == [line] + Lines(b)
  {
    OneLineFrom("", line, b);
    assert "" + line == line;
  }

  // ---------------------------------------------------------------- scanning

  /** One line read by the scanner: the open block's text afterwards, and the certificates it completed. */
  function ScanLine(body: Option<string>, line: string): (Option<string>, seq<Der>) {
    var text := Trim(line);
    if text == BEGIN then (Some(""), [])
    else if text == END then
      (None, match body
             case None => []
             case Some(b) => match Base64.Decode(b) case None => [] case Some(der) => [der])
    else match body
      case None => (None, [])
      case Some(b) => (Some(b + text), [])
  }

  function OpenAfter(body: Option<string>, lines: seq<string>): Option<string>
    decreases |lines|
  {
    if lines == [] then body else OpenAfter(ScanLine(body, lines[0]).0, lines[1..])
  }

  function Scan(body: Option<string>, lines: seq<string>): seq<Der>
    decreases |lines|
  {
    if lines == [] then []
    else ScanLine(body, lines[0]).1 + Scan(ScanLine(body, lines[0]).0, lines[1..])
  }

  /** The certificates the scanner finds in `text`. */
  function FromPem(text: string): seq<Der> {
    Scan(None, Lines(text))
  }

  /** A last line needs no newline, unless it is empty. */
  lemma {:induction false} LastLine(line: string)
    requires '\n' !in line
    ensures Lines(line) == if line == [] then [] else [line]
  {
    LastLineFrom("", line);
    assert "" + line == line;
  }

  lemma {:induction false} LastLineFrom(start: string, line: string)
    requires '\n' !in line
    ensures LinesFrom(start, line) == if start + line == [] then [] else [start + line]
    decreases |line|
  {
    if line == [] {
      assert start + line == start;
    } else {
      assert line[0] in line && forall c | c in line[1..] :: c in line;
      LastLineFrom(start + [line[0]], line[1..]);
      assert start + [line[0]] + line[1..] == start + line;
    }
  }

  lemma ScanStep(body: Option<string>, line: string, rest: seq<string>)
    ensures Scan(body, [line] + rest) == ScanLine(body, line).1 + Scan(ScanLine(body, line).0, rest)
    ensures OpenAfter(body, [line] + rest) == OpenAfter(ScanLine(body, line).0, rest)
    ensures Scan(body, []) == [] && OpenAfter(body, []) == body
  {
    assert ([line] + rest)[1..] == rest;
  }

  lemma {:induction false} ScanAppend(body: Option<string>, a: seq<string>, b: seq<string>)
    ensures Scan(body, a + b) == Scan(body, a) + Scan(OpenAfter(body, a), b)
    ensures OpenAfter(body, a + b) == OpenAfter(OpenAfter(body, a), b)
    decreases |a|
  {
    hide *;
    if a == [] {
      assert a + b == b;
      ScanStep(body, "", []);
    } else {
      var line, rest := a[0], a[1..];
      assert a == [line] + rest && a + b == [line] + (rest + b);
      ScanStep(body, line, rest);
      ScanStep(body, line, rest + b);
      ScanAppend(ScanLine(body, line).0, rest, b);
    }
  }

  // ---------------------------------------------------------------- what counts as a block

  /** The lines without their outer blanks, end to end. */
  function Joined(lines: seq<string>): string {
    if lines == [] then "" else Trim(lines[0]) + Joined(lines[1..])
  }

  predicate IsMarker(line: string) {
    Trim(line) == BEGIN || Trim(line) == END
  }

  /** A block that already holds `body` is closed by this line, and its text decodes. */
  predicate ClosesAt(body: string, lines: seq<string>, j: int) {
    && 0 <= j < |lines| && Trim(lines[j]) == END
    && (forall k | 0 <= k < j :: !IsMarker(lines[k]))
    && Base64.Decode(body + Joined(lines[..j])).Some?
  }

  predicate Closes(body: string, lines: seq<string>) {
    exists j | 0 <= j < |lines| :: ClosesAt(body, lines, j)
  }

  /** A marker opens a block at line `i`, and line `j` is the next marker and closes it, with text that decodes. */
  predicate BlockAt(lines: seq<string>, i: int, j: int) {
    0 <= i < j < |lines| && Trim(lines[i]) == BEGIN && ClosesAt("", lines[i + 1..], j - i - 1)
  }

  /** Some lines spell a certificate block. */
  predicate SpellsBlock(lines: seq<string>) {
    exists i, j | 0 <= i < |lines| && 0 <= j < |lines| :: BlockAt(lines, i, j)
  }

  lemma TakeOneMore(line: string, rest: seq<string>, j: nat)
    requires j <= |rest|
    ensures ([line] + rest)[..j + 1] == [line] + rest[..j] && ([line] + rest[..j])[1..] == rest[..j]
  {}

  lemma {:induction false} ClosesFirst(body: string, line: string, rest: seq<string>)
    ensures Trim(line) == BEGIN ==> !Closes(body, [line] + rest)
    ensures Trim(line) == END ==> (Closes(body, [line] + rest) <==> Base64.Decode(body).Some?)
    ensures !IsMarker(line) ==> (Closes(body, [line] + rest) <==> Closes(body + Trim(line), rest))
  {
    var lines := [line] + rest;
    Markers();
    hide BEGIN, END, Trim, Base64.Decode;
    if Trim(line) == END {
      assert lines[..0] == [] && body + "" == body;
      assert ClosesAt(body, lines, 0) <==> Base64.Decode(body).Some?;
      assert forall j | ClosesAt(body, lines, j) :: j == 0 || IsMarker(lines[0]);
    } else if !IsMarker(line) {
      forall j | 0 <= j < |rest| ensures ClosesAt(body, lines, j + 1) <==> ClosesAt(body + Trim(line), rest, j) {
        TakeOneMore(line, rest, j);
        assert body + (Trim(line) + Joined(rest[..j])) == body + Trim(line) + Joined(rest[..j]);
        assert forall k | 0 <= k < j :: rest[k] == lines[k + 1];
        assert forall k | 1 <= k < j + 1 :: lines[k] == rest[k - 1];
      }
      if j :| ClosesAt(body, lines, j) {
        assert ClosesAt(body + Trim(line), rest, j - 1);
      }
      if j :| ClosesAt(body + Trim(line), rest, j) {
        assert ClosesAt(body, lines, j + 1);
      }
    }
  }

  lemma {:induction false} SpellsFirst(line: string, rest: seq<string>)
    ensures SpellsBlock([line] + rest) <==> SpellsBlock(rest) || (Trim(line) == BEGIN && Closes("", rest))
  {
    hide BEGIN, END, Trim, ClosesAt;
    var lines := [line] + rest;
    assert lines[1..] == rest;
    forall i | 0 <= i < |rest| ensures lines[i + 2..] == rest[i + 1..] && lines[i + 1] == rest[i] {}
    if i, j :| BlockAt(lines, i, j) {
      if i > 0 {
        assert BlockAt(rest, i - 1, j - 1);
      } else {
        assert ClosesAt("", rest, j - 1);
      }
    }
    if i, j :| BlockAt(rest, i, j) {
      assert BlockAt(lines, i + 1, j + 1);
    }
    if Trim(line) == BEGIN && Closes("", rest) {
      var j :| ClosesAt("", rest, j);
      CloserInside("", rest, j);
      assert BlockAt(lines, 0, j + 1);
    }
  }

  lemma CloserInside(body: string, lines: seq<string>, j: int)
    requires ClosesAt(body, lines, j)
    ensures 0 <= j < |lines|
  {}

  /** The scanner finds nothing exactly when no lines spell a block, and none close the block it has open. */
  lemma {:induction false} ScanFindsNothing(body: Option<string>, lines: seq<string>)
    ensures Scan(body, lines) == [] <==> !SpellsBlock(lines) && (body.Some? ==> !Closes(body.value, lines))
    decreases |lines|
  {
    Markers();
    hide BEGIN, END, Trim, Base64.Decode, SpellsBlock, Closes, Scan;
    if lines == [] {
      NoLines(body);
    } else {
      var line, rest := lines[0], lines[1..];
      assert lines == [line] + rest;
      ScanStep(body, line, rest);
      SpellsFirst(line, rest);
      if body.Some? {
        ClosesFirst(body.value, line, rest);
      }
      ScanFindsNothing(ScanLine(body, line).0, rest);
    }
  }

  lemma NoLines(body: Option<string>)
    ensures Scan(body, []) == [] && !SpellsBlock([]) && (body.Some? ==> !Closes(body.value, []))
  {}

  method ReadPem(text: string) returns (out: seq<Der>)
    ensures out == FromPem(text)
  {
    var lines := Lines(text);
    var body: Option<string> := None;
    out := [];
    var i := 0;
    while i < |lines|
      invariant 0 <= i <= |lines|
      invariant out == Scan(None, lines[..i]) && body == OpenAfter(None, lines[..i])
    {
      assert lines[..i + 1] == lines[..i] + [lines[i]];
      ScanAppend(None, lines[..i], [lines[i]]);
      ScanStep(body, lines[i], []);
      assert [lines[i]] + [] == [lines[i]];
      var line := Trim(lines[i]);
      if line == BEGIN {
        body := Some("");
      } else if line == END {
        if body.Some? {
          var der := Base64.DecodeText(body.value);
          if der.Some? {
            out := out + [der.value];
          }
        }
        body := None;
      } else if body.Some? {
        body := Some(body.value + line);
      }
      i := i + 1;
    }
    assert lines[..i] == lines;
  }

  // ---------------------------------------------------------------- writing

  /** Encoded text in lines of up to 64 characters, each with its newline. */
  function Columns(encoded: string): string {
    if encoded == [] then ""
    else if |encoded| <= 64 then encoded + "\n"
    else encoded[..64] + "\n" + Columns(encoded[64..])
  }

  /** One certificate as a PEM block. */
  function ToPem(der: Der): string {
    BEGIN + "\n" + Columns(Base64.Encode(der)) + END + "\n"
  }

  lemma {:induction false} ColumnsAppend(a: string, b: string)
    requires |a| % 64 == 0
    ensures Columns(a + b) == Columns(a) + Columns(b)
  {
    hide *;
    ColumnsOne("");
    if a == [] {
      assert a + b == b && "" + Columns(b) == Columns(b);
    } else if b == [] {
      assert a + b == a && Columns(a) + "" == Columns(a);
    } else {
      assert (a + b)[..64] == a[..64] && (a + b)[64..] == a[64..] + b;
      ColumnsAppend(a[64..], b);
      ColumnsSplit(a, 64);
      ColumnsSplit(a + b, 64);
      assert a[..64] + "\n" + (Columns(a[64..]) + Columns(b)) == a[..64] + "\n" + Columns(a[64..]) + Columns(b);
    }
  }

  lemma ColumnsOne(piece: string)
    requires |piece| <= 64
    ensures Columns(piece) == if piece == [] then "" else piece + "\n"
  {}

  method WriteColumns(encoded: string) returns (out: string)
    ensures out == Columns(encoded)
  {
    hide *;
    out := "";
    var i := 0;
    ColumnsOne("");
    while i < |encoded|
      invariant 0 <= i <= |encoded| && (i % 64 == 0 || i == |encoded|)
      invariant out == Columns(encoded[..i])
    {
      var next := if i + 64 < |encoded| then i + 64 else |encoded|;
      ColumnsAppend(encoded[..i], encoded[i..next]);
      ColumnsOne(encoded[i..next]);
      assert encoded[..i] + encoded[i..next] == encoded[..next];
      out := out + (encoded[i..next] + "\n");
      i := next;
    }
    assert encoded[..i] == encoded;
  }

  method WritePem(der: Der) returns (out: string)
    ensures out == ToPem(der)
  {
    var encoded := Base64.EncodeBytes(der);
    var columns := WriteColumns(encoded);
    out := BEGIN + "\n" + columns + END + "\n";
  }

  /** Text the scanner reads back unchanged: a base64 line is never blank, trimmed or a marker. */
  predicate Plain(s: string) {
    forall c | c in s :: c != '-' && c != '\n' && !Whitespace(c)
  }

  lemma PlainTrim(s: string)
    requires Plain(s)
    ensures Trim(s) == s && '\n' !in s
  {}

  lemma Markers()
    ensures Trim(BEGIN) == BEGIN && Trim(END) == END && BEGIN != END
    ensures BEGIN != [] && END != [] && BEGIN[0] == '-' && END[0] == '-'
    ensures '\n' !in BEGIN && '\n' !in END
  {}

  lemma {:induction false} EncodePlain(data: Der)
    ensures Plain(Base64.Encode(data))
  {
    if data != [] {
      var n := if |data| <= 3 then |data| else 3;
      GroupPlain(data[..n]);
      EncodePlain(data[n..]);
      assert data[..|data|] == data;
    }
  }

  lemma GroupPlain(chunk: seq<byte>)
    requires 1 <= |chunk| <= 3
    ensures Plain(Base64.EncodeGroup(chunk))
  {}

  lemma ColumnsSplit(encoded: string, n: nat)
    requires n == if |encoded| <= 64 then |encoded| else 64
    ensures encoded == [] ==> Columns(encoded) == ""
    ensures encoded != [] ==> Columns(encoded) == encoded[..n] + "\n" + Columns(encoded[n..])
  {
    if |encoded| <= 64 {
      assert encoded[..n] == encoded && encoded[n..] == [];
      assert encoded + "\n" + "" == encoded + "\n";
    }
  }

  lemma PlainPart(s: string, i: nat, j: nat)
    requires Plain(s) && i <= j <= |s|
    ensures Plain(s[i..j])
  {
    assert forall c | c in s[i..j] :: c in s;
  }

  lemma BodyLine(body: string, line: string)
    requires Plain(line) && line != []
    ensures ScanLine(Some(body), line) == (Some(body + line), [])
  {
    PlainTrim(line);
    Markers();
    assert line[0] in line;
  }

  /** An open block takes in every column of encoded text. */
  lemma {:induction false} ScanColumns(body: string, encoded: string, after: string)
    requires Plain(encoded)
    ensures Scan(Some(body), Lines(Columns(encoded) + after)) == Scan(Some(body + encoded), Lines(after))
    decreases |encoded|
  {
    hide *;
    var n := if |encoded| <= 64 then |encoded| else 64;
    ColumnsSplit(encoded, n);
    if encoded == [] {
      assert Columns(encoded) + after == after && body + encoded == body;
    } else {
      var line, rest := encoded[..n], encoded[n..];
      PlainPart(encoded, 0, n);
      PlainPart(encoded, n, |encoded|);
      assert encoded[0..n] == line && encoded[n..|encoded|] == rest;
      PlainTrim(line);
      assert Columns(encoded) + after == line + "\n" + (Columns(rest) + after);
      OneLine(line, Columns(rest) + after);
      BodyLine(body, line);
      ScanStep(Some(body), line, Lines(Columns(rest) + after));
      ScanColumns(body + line, rest, after);
      assert body + line + rest == body + encoded;
    }
  }

  /** The text in pieces of 64 characters, the last perhaps shorter. */
  function Sliced(encoded: string): (r: seq<string>)
    ensures Flatten(r) == encoded
    ensures forall i | 0 <= i < |r| :: 0 < |r[i]| <= 64 && (i + 1 < |r| ==> |r[i]| == 64)
  {
    if encoded == [] then []
    else if |encoded| <= 64 then [encoded]
    else
      var others := Sliced(encoded[64..]);
      assert encoded[..64] + encoded[64..] == encoded;
      [encoded[..64]] + others
  }

  lemma {:induction false} SlicedStep(encoded: string, n: nat)
    requires n == if |encoded| <= 64 then |encoded| else 64
    ensures Sliced(encoded) == if encoded == [] then [] else [encoded[..n]] + Sliced(encoded[n..])
  {
    if |encoded| <= 64 {
      assert encoded[..n] == encoded && encoded[n..] == [];
    }
  }

  lemma {:induction false} ColumnLines(encoded: string, after: string)
    requires Plain(encoded)
    ensures Lines(Columns(encoded) + after) == Sliced(encoded) + Lines(after)
    decreases |encoded|
  {
    hide *;
    var n := if |encoded| <= 64 then |encoded| else 64;
    ColumnsSplit(encoded, n);
    SlicedStep(encoded, n);
    if encoded == [] {
      assert Columns(encoded) + after == after;
    } else {
      var line, rest := encoded[..n], encoded[n..];
      PlainPart(encoded, 0, n);
      PlainPart(encoded, n, |encoded|);
      assert encoded[0..n] == line && encoded[n..|encoded|] == rest;
      PlainTrim(line);
      assert Columns(encoded) + after == line + "\n" + (Columns(rest) + after);
      OneLine(line, Columns(rest) + after);
      ColumnLines(rest, after);
    }
  }

  /** A written block, line by line: a marker, the encoded text in lines of 64 and a last of no more, a marker. */
  lemma {:induction false} BlockLines(der: Der)
    ensures Lines(ToPem(der)) == [BEGIN] + Sliced(Base64.Encode(der)) + [END]
    ensures Lines(ToPem(der))
            == ["-----BEGIN CERTIFICATE-----"] + Sliced(Base64.Encode(der)) + ["-----END CERTIFICATE-----"]
  {
    assert BEGIN == "-----BEGIN CERTIFICATE-----" && END == "-----END CERTIFICATE-----";
    var encoded := Base64.Encode(der);
    assert ToPem(der) == BEGIN + "\n" + (Columns(encoded) + (END + "\n"));
    assert Lines("") == [];
    Markers();
    hide *;
    EncodePlain(der);
    OneLine(BEGIN, Columns(encoded) + (END + "\n"));
    ColumnLines(encoded, END + "\n");
    assert END + "\n" + "" == END + "\n";
    OneLine(END, "");
  }

  lemma MarkerLines(body: Option<string>, encoded: string, der: Der)
    requires Base64.Decode(encoded) == Some(der)
    ensures ScanLine(body, BEGIN) == (Some(""), [])
    ensures ScanLine(Some(encoded), END) == (None, [der])
  {
    Markers();
  }

  /** A written block is read back whole, whatever block was open before it, and leaves none open. */
  lemma {:induction false} ScanBlock(body: Option<string>, der: Der, after: string)
    ensures Scan(body, Lines(ToPem(der) + after)) == [der] + FromPem(after)
  {
    var encoded, tail := Base64.Encode(der), END + "\n" + after;
    assert ToPem(der) + after == BEGIN + "\n" + (Columns(encoded) + tail);
    assert FromPem(after) == Scan(None, Lines(after));
    Markers();
    hide *;
    EncodePlain(der);
    Base64.DecodeInvertsEncode(der);
    MarkerLines(body, encoded, der);
    OneLine(BEGIN, Columns(encoded) + tail);
    ScanStep(body, BEGIN, Lines(Columns(encoded) + tail));
    ScanColumns("", encoded, tail);
    assert "" + encoded == encoded;
    OneLine(END, after);
    ScanStep(Some(encoded), END, Lines(after));
  }

  /** The scanner resynchronises at every written block, even after a block that was never closed. */
  lemma Resynchronises(a: string, der: Der, b: string)
    requires WholeLines(a)
    ensures FromPem(a + ToPem(der) + b) == FromPem(a) + [der] + FromPem(b)
  {
    assert a + ToPem(der) + b == a + (ToPem(der) + b);
    LinesAppend(a, ToPem(der) + b);
    ScanAppend(None, Lines(a), Lines(ToPem(der) + b));
    ScanBlock(OpenAfter(None, Lines(a)), der, b);
  }
}
