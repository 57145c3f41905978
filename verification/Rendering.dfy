/** What the compatibility files hold: the bundle's text, and the hashed directory's names and files. */
module Rendering {
  import opened Basics
  import opened Store
  import Base64
  import Pem
  import Registry

  /** `GenerateLinuxTrustFiles`; `LiveFiles` is reserved and treated as `Files`. */
  datatype Compat = NoFiles | Files | LiveFiles {
    static function FromDword(value: dword): Compat {
      if value == 0 then NoFiles else if value == 2 then LiveFiles else Files
    }

    function AsDword(): (value: dword)
      ensures FromDword(value) == this
    {
      match this
      case NoFiles => 0
      case Files => 1
      case LiveFiles => 2
    }
  }

  /** Nothing but 0 turns the files off, and a number that names no mode means the files. */
  lemma ModesRead(value: dword)
    ensures Compat.FromDword(value).NoFiles? <==> value == 0
    ensures Compat.FromDword(value).Files? <==> value != 0 && value != 2
  {}

  /** A directory: each name with a file's text, or a directory below it. */
  datatype Node = File(text: string) | Folder
  type Dir = map<string, Node>

  const BUNDLE_NAME: string := "ca-certificates.crt"

  // ---------------------------------------------------------------- text

  function Decimal(n: nat): string {
    if n < 10 then ['0' + n as char] else Decimal(n / 10) + ['0' + (n % 10) as char]
  }

  lemma {:induction false} DecimalDigits(n: nat)
    ensures Decimal(n) != [] && forall c | c in Decimal(n) :: '0' <= c <= '9'
  {
    if n >= 10 {
      DecimalDigits(n / 10);
    }
  }

  function ReadDecimal(digits: string): int {
    if digits == [] then 0
    else 10 * ReadDecimal(digits[..|digits| - 1]) + (digits[|digits| - 1] as int - '0' as int)
  }

  /** The usual decimal: it reads as the number, and does not begin with a zero but for 0 itself. */
  lemma {:induction false} DecimalReads(n: nat)
    ensures ReadDecimal(Decimal(n)) == n && Decimal(n) != [] && (n > 0 ==> Decimal(n)[0] != '0')
  {
    if n >= 10 {
      DecimalReads(n / 10);
      var front := Decimal(n / 10);
      assert Decimal(n) == front + ['0' + (n % 10) as char];
      assert Decimal(n)[..|Decimal(n)| - 1] == front;
    } else {
      assert Decimal(n)[..0] == [];
    }
  }

  lemma {:induction false} DecimalInjective(m: nat, n: nat)
    requires Decimal(m) == Decimal(n)
    ensures m == n
  {
    var a, b := Decimal(m), Decimal(n);
    DecimalDigits(m / 10);
    DecimalDigits(n / 10);
    assert m < 10 <==> |a| == 1;
    assert n < 10 <==> |b| == 1;
    assert a[|a| - 1] == '0' + (m % 10) as char && b[|b| - 1] == '0' + (n % 10) as char;
    if m >= 10 {
      assert a[..|a| - 1] == Decimal(m / 10) && b[..|b| - 1] == Decimal(n / 10);
      DecimalInjective(m / 10, n / 10);
    }
  }

  function CountFrom(roots: seq<Entry>, source: Source): nat {
    if roots == [] then 0 else (if roots[0].source == source then 1 else 0) + CountFrom(roots[1..], source)
  }

  // The lines are put together from phrases: a proof looks at a literal character by character, and at short ones only.
  const TITLE: string := "# Peios trust store " + "\U{2014} " + "generated by trustd; " + "edits are overwritten."

  const WHAT_IT_IS: string := "# This file is " + "a compatibility rendering " + "of the machine's " + "trust store."
  const MADE_FROM: string := "# It is composed from " + "the roots " + "the ca-certificates package " + "ships and"
  const AND_FROM: string := "# the additions " + "and distrusts under " + "Machine\\System\\" + "Trust\\Certificates."
  const HOW_TO_CHANGE: string :=
    "# To change what " + "this machine trusts, " + "use `trust add` / " + "`trust distrust`"
  const NOT_BY_HAND: string := "# or write " + "the registry directly " + "\U{2014} " + "never this file."

  /** What the bundle is, what it is made from, and how to change it. */
  function Notice(): seq<string> {
    [WHAT_IT_IS, MADE_FROM, AND_FROM, HOW_TO_CHANGE, NOT_BY_HAND]
  }

  function CountsLine(roots: seq<Entry>): string {
    "# " + Decimal(|roots|) + " root(s): " + Decimal(CountFrom(roots, Shipped)) + " shipped, "
    + Decimal(CountFrom(roots, Added)) + " added."
  }

  /** The provenance header's lines. */
  function HeaderLines(roots: seq<Entry>): seq<string> {
    [TITLE, "#"] + Notice() + ["#", CountsLine(roots), ""]
  }

  function TextOf(lines: seq<string>): string {
    if lines == [] then "" else lines[0] + "\n" + TextOf(lines[1..])
  }

  function Header(roots: seq<Entry>): string {
    TextOf(HeaderLines(roots))
  }

  /** The comment lines above a root's block. */
  function Comments(e: Entry): string {
    "# " + e.parsed.subject + "\n"
    + (if e.name.Some? then "# added as " + e.name.value + "\n" else "")
    + ("# SHA-256 " + e.parsed.fingerprint + "\n")
  }

  function Block(e: Entry): string {
    Comments(e) + Pem.ToPem(e.parsed.der) + "\n"
  }

  function Blocks(roots: seq<Entry>): string {
    if roots == [] then "" else Block(roots[0]) + Blocks(roots[1..])
  }

  function Bundle(roots: seq<Entry>): string {
    Header(roots) + Blocks(roots)
  }

  lemma {:induction false} BlocksAppend(a: seq<Entry>, b: seq<Entry>)
    ensures Blocks(a + b) == Blocks(a) + Blocks(b)
  {
    if a == [] {
      assert a + b == b;
    } else {
      assert (a + b)[1..] == a[1..] + b;
      hide Block;
      BlocksAppend(a[1..], b);
    }
  }

  method BundleForRoots(roots: seq<Entry>) returns (out: string)
    ensures out == Bundle(roots)
  {
    BundleIs(roots);
    hide *;
    out := Header(roots);
    ghost var none: seq<Entry> := [];
    assert roots[..0] == none && Header(roots) + "" == Header(roots);
    for i := 0 to |roots|
      invariant out == Header(roots) + Blocks(roots[..i])
    {
      var pem := Pem.WritePem(roots[i].parsed.der);
      BlocksAppend(roots[..i], [roots[i]]);
      OneBlock(roots[i]);
      assert roots[..i + 1] == roots[..i] + [roots[i]];
      out := out + (Comments(roots[i]) + pem + "\n");
    }
    assert roots[..|roots|] == roots;
  }

  lemma BundleIs(roots: seq<Entry>)
    ensures Bundle(roots) == Header(roots) + Blocks(roots) && Blocks([]) == ""
  {}

  lemma OneBlock(e: Entry)
    ensures Blocks([e]) == Block(e) == Comments(e) + Pem.ToPem(e.parsed.der) + "\n"
  {
    assert [e][1..] == [];
  }

  // ---------------------------------------------------------------- reading the bundle back

  function Ders(roots: seq<Entry>): seq<Der> {
    if roots == [] then [] else [roots[0].parsed.der] + Ders(roots[1..])
  }

  /** Text that starts with `#` or holds nothing, on one line. */
  predicate CommentLine(line: string) {
    '\n' !in line && (line == [] || line[0] == '#')
  }

  lemma TrimKeepsHash(line: string)
    requires line != [] && line[0] == '#'
    ensures Pem.Trim(line) != [] && Pem.Trim(line)[0] == '#'
  {
    assert Pem.TrimStart(line) == line;
    TrimEndKeepsHash(line);
  }

  lemma {:induction false} TrimEndKeepsHash(line: string)
    requires line != [] && line[0] == '#'
    ensures Pem.TrimEnd(line) != [] && Pem.TrimEnd(line)[0] == '#'
  {
    if Pem.Whitespace(line[|line| - 1]) {
      TrimEndKeepsHash(line[..|line| - 1]);
    }
  }

  /** With no block open, a comment line changes nothing. */
  lemma {:induction false} CommentIgnored(line: string, rest: string)
    requires CommentLine(line)
    ensures Pem.FromPem(line + "\n" + rest) == Pem.FromPem(rest)
  {
    CommentScans(line);
    hide *;
    Pem.OneLine(line, rest);
    Pem.ScanStep(None, line, Pem.Lines(rest));
    FromPemIs(line + "\n" + rest);
    FromPemIs(rest);
  }

  lemma FromPemIs(text: string)
    ensures Pem.FromPem(text) == Pem.Scan(None, Pem.Lines(text))
  {}

  lemma {:induction false} CommentScans(line: string)
    requires CommentLine(line)
    ensures Pem.ScanLine(None, line) == (None, [])
  {
    Pem.Markers();
    hide Pem.BEGIN, Pem.END;
    if line == [] {
      assert Pem.Trim(line) == [];
    } else {
      TrimKeepsHash(line);
    }
  }

  lemma {:induction false} LinesIgnored(lines: seq<string>, rest: string)
    requires forall line | line in lines :: CommentLine(line)
    ensures Pem.FromPem(TextOf(lines) + rest) == Pem.FromPem(rest)
  {
    hide Pem.FromPem, CommentLine;
    if lines == [] {
      assert "" + rest == rest;
    } else {
      assert TextOf(lines) + rest == lines[0] + "\n" + (TextOf(lines[1..]) + rest);
      CommentIgnored(lines[0], TextOf(lines[1..]) + rest);
      LinesIgnored(lines[1..], rest);
    }
  }

  lemma {:induction false} HeaderIgnored(roots: seq<Entry>, rest: string)
    ensures Pem.FromPem(Header(roots) + rest) == Pem.FromPem(rest)
  {
    TitleIsComment();
    NoticeIsComment();
    CountsLineIsComment(roots);
    hide Notice, CountsLine, CommentLine, Pem.FromPem, TextOf, TITLE;
    EmptyIsComment();
    LinesIgnored(HeaderLines(roots), rest);
  }

  lemma EmptyIsComment()
    ensures CommentLine("") && CommentLine("#")
  {}

  lemma TitleIsComment()
    ensures CommentLine(TITLE)
  {
    InFour("# Peios trust store ", "\U{2014} ", "generated by trustd; ", "edits are overwritten.");
  }

  /** A comment goes on being one, on its line. */
  lemma InFour(a: string, b: string, c: string, d: string)
    requires a != [] && a[0] == '#' && '\n' !in a && '\n' !in b && '\n' !in c && '\n' !in d
    ensures CommentLine(a + b + c + d)
  {}

  lemma Comment1()
    ensures CommentLine(WHAT_IT_IS)
  {
    InFour("# This file is ", "a compatibility rendering ", "of the machine's ", "trust store.");
  }

  lemma Comment2()
    ensures CommentLine(MADE_FROM)
  {
    InFour("# It is composed from ", "the roots ", "the ca-certificates package ", "ships and");
  }

  lemma Comment3()
    ensures CommentLine(AND_FROM)
  {
    InFour("# the additions ", "and distrusts under ", "Machine\\System\\", "Trust\\Certificates.");
  }

  lemma Comment4()
    ensures CommentLine(HOW_TO_CHANGE)
  {
    InFour("# To change what ", "this machine trusts, ", "use `trust add` / ", "`trust distrust`");
  }

  lemma Comment5()
    ensures CommentLine(NOT_BY_HAND)
  {
    InFour("# or write ", "the registry directly ", "\U{2014} ", "never this file.");
  }

  lemma {:induction false} NoticeIsComment()
    ensures forall line | line in Notice() :: CommentLine(line)
  {
    hide WHAT_IT_IS, MADE_FROM, AND_FROM, HOW_TO_CHANGE, NOT_BY_HAND, CommentLine;
    Comment1();
    Comment2();
    Comment3();
    Comment4();
    Comment5();
  }

  lemma CountsLineIsComment(roots: seq<Entry>)
    ensures CommentLine(CountsLine(roots))
  {
    DecimalDigits(|roots|);
    DecimalDigits(CountFrom(roots, Shipped));
    DecimalDigits(CountFrom(roots, Added));
  }

  lemma CommentsAreLines(e: Entry)
    ensures Pem.WholeLines(Comments(e)) && Comments(e) != []
  {}

  /** Subjects and names hold no newline, and so no comment can spell a block. */
  predicate OneLiners(roots: seq<Entry>) {
    forall e | e in roots ::
      '\n' !in e.parsed.subject && '\n' !in e.parsed.fingerprint && (e.name.Some? ==> '\n' !in e.name.value)
  }

  lemma {:induction false} CommentsHoldNothing(e: Entry)
    requires OneLiners([e])
    ensures Pem.FromPem(Comments(e)) == []
  {
    assert e in [e];
    var subject, fingerprint := "# " + e.parsed.subject, "# SHA-256 " + e.parsed.fingerprint;
    var name := if e.name.Some? then "# added as " + e.name.value else "";
    assert CommentLine(subject) && CommentLine(fingerprint) && CommentLine(name);
    var last := fingerprint + "\n" + "";
    assert e.name.Some? ==> Comments(e) == subject + "\n" + (name + "\n" + last);
    assert e.name.None? ==> Comments(e) == subject + "\n" + last;
    hide Comments, CommentLine;
    CommentIgnored(subject, if e.name.Some? then name + "\n" + last else last);
    if e.name.Some? {
      CommentIgnored(name, last);
    }
    CommentIgnored(fingerprint, "");
  }

  /** Each root's comments contribute what certificates they happen to spell; its block contributes its own. */
  function Found(roots: seq<Entry>): seq<Der> {
    if roots == [] then []
    else Pem.FromPem(Comments(roots[0])) + [roots[0].parsed.der] + Found(roots[1..])
  }

  lemma {:induction false} BlocksFound(roots: seq<Entry>)
    ensures Pem.FromPem(Blocks(roots)) == Found(roots)
  {
    if roots == [] {
      assert Pem.FromPem("") == [];
    } else {
      var e, rest := roots[0], Blocks(roots[1..]);
      CommentsAreLines(e);
      EmptyIsComment();
      hide Pem.FromPem, Pem.ToPem, Comments, CommentLine;
      assert Blocks(roots) == Comments(e) + Pem.ToPem(e.parsed.der) + ("" + "\n" + rest);
      Pem.Resynchronises(Comments(e), e.parsed.der, "" + "\n" + rest);
      CommentIgnored("", rest);
      BlocksFound(roots[1..]);
    }
  }

  lemma {:induction false} FoundAtLeast(roots: seq<Entry>)
    ensures |Found(roots)| >= |roots| == |Ders(roots)|
    ensures |Found(roots)| == |roots| ==> Found(roots) == Ders(roots)
    ensures |Found(roots)| == |roots| <==> forall e | e in roots :: Pem.FromPem(Comments(e)) == []
  {
    if roots != [] {
      hide Pem.FromPem, Comments;
      FoundAtLeast(roots[1..]);
      assert roots == [roots[0]] + roots[1..];
    }
  }

  /** The lines above a root's block: those its subject and its name come to, and its fingerprint's. */
  function CommentLines(e: Entry): seq<string> {
    Pem.Lines("# " + e.parsed.subject + "\n")
    + (if e.name.Some? then Pem.Lines("# added as " + e.name.value + "\n") else [])
    + Pem.Lines("# SHA-256 " + e.parsed.fingerprint + "\n")
  }

  lemma {:induction false} CommentsInLines(e: Entry)
    ensures Pem.Lines(Comments(e)) == CommentLines(e)
  {
    var subject, fingerprint := "# " + e.parsed.subject + "\n", "# SHA-256 " + e.parsed.fingerprint + "\n";
    var name := if e.name.Some? then "# added as " + e.name.value + "\n" else "";
    assert Comments(e) == subject + (name + fingerprint);
    assert Pem.Lines("") == [];
    hide Pem.Lines, Comments;
    Pem.LinesAppend(subject, name + fingerprint);
    Pem.LinesAppend(name, fingerprint);
    assert Pem.Lines(subject) + ([] + Pem.Lines(fingerprint)) == Pem.Lines(subject) + [] + Pem.Lines(fingerprint);
  }

  /** A root's comments add no certificate exactly when its lines of subject and name spell no block. */
  lemma {:induction false} CommentsSpell(e: Entry)
    ensures Pem.FromPem(Comments(e)) == [] <==> !Pem.SpellsBlock(CommentLines(e))
  {
    hide Pem.Lines, Pem.Scan, Pem.SpellsBlock, Comments, CommentLines;
    CommentsInLines(e);
    Pem.ScanFindsNothing(None, CommentLines(e));
    FromPemIs(Comments(e));
  }

  /** No root's comment lines spell a certificate block. */
  ghost predicate NoneSpells(roots: seq<Entry>) {
    forall e | e in roots :: !Pem.SpellsBlock(CommentLines(e))
  }

  /**
    The bundle reads back as exactly its roots, in order, exactly when no root's lines of subject and name spell a
    certificate block: marker, text that decodes, marker. Subjects and names of one line never do.
   */
  lemma {:induction false} BundleReadsBack(roots: seq<Entry>)
    ensures Pem.FromPem(Bundle(roots)) == Ders(roots) <==> NoneSpells(roots)
    ensures OneLiners(roots) ==> Pem.FromPem(Bundle(roots)) == Ders(roots)
  {
    hide Pem.FromPem, Comments, Header, CommentLines, Pem.SpellsBlock;
    HeaderIgnored(roots, Blocks(roots));
    BlocksFound(roots);
    FoundAtLeast(roots);
    forall e | e in roots ensures Pem.FromPem(Comments(e)) == [] <==> !Pem.SpellsBlock(CommentLines(e)) {
      CommentsSpell(e);
    }
    if OneLiners(roots) {
      forall e | e in roots ensures Pem.FromPem(Comments(e)) == [] {
        CommentsHoldNothing(e);
      }
    }
  }

  /** A root of one-line texts in the bundle, line by line: what it is, its certificate, and an empty line. */
  lemma {:induction false} BlockOnLines(e: Entry)
    requires OneLiners([e])
    ensures Pem.Lines(Block(e))
            == ["# " + e.parsed.subject]
               + (if e.name.Some? then ["# added as " + e.name.value] else [])
               + ["# SHA-256 " + e.parsed.fingerprint]
               + Pem.Lines(Pem.ToPem(e.parsed.der)) + [""]
  {
    var first, last := "# " + e.parsed.subject, "# SHA-256 " + e.parsed.fingerprint;
    var named := if e.name.Some? then "# added as " + e.name.value + "\n" else "";
    var pem := Pem.ToPem(e.parsed.der);
    assert e in [e];
    assert Pem.Lines("") == [];
    assert Pem.WholeLines(pem);
    assert '\n' !in first && '\n' !in last && (e.name.Some? ==> '\n' !in "# added as " + e.name.value);
    assert Block(e) == first + "\n" + (named + (last + "\n" + (pem + ("" + "\n" + ""))));
    hide *;
    Pem.OneLine(first, named + (last + "\n" + (pem + ("" + "\n" + ""))));
    if e.name.Some? {
      Pem.OneLine("# added as " + e.name.value, last + "\n" + (pem + ("" + "\n" + "")));
    } else {
      assert "" + (last + "\n" + (pem + ("" + "\n" + ""))) == last + "\n" + (pem + ("" + "\n" + ""));
    }
    Pem.OneLine(last, pem + ("" + "\n" + ""));
    Pem.LinesAppend(pem, "" + "\n" + "");
    Pem.OneLine("", "");
    assert [""] + [] == [""];
  }

  /** Each root counts once, for its own source. */
  lemma {:induction false} CountedOnce(before: seq<Entry>, e: Entry, source: Source)
    ensures CountFrom([], source) == 0
    ensures CountFrom(before + [e], source) == CountFrom(before, source) + if e.source == source then 1 else 0
  {
    if before == [] {
      assert before + [e] == [e] && [e][1..] == [];
    } else {
      assert (before + [e])[1..] == before[1..] + [e];
      CountedOnce(before[1..], e, source);
    }
  }

  /** The bundle begins with its header, which counts the roots, and an empty line. */
  lemma {:induction false} HeaderOnLines(roots: seq<Entry>)
    ensures Pem.Lines(Header(roots)) == HeaderLines(roots) && |HeaderLines(roots)| == 10 && HeaderLines(roots)[9] == ""
    ensures forall i | 0 <= i < 9 :: HeaderLines(roots)[i] != [] && HeaderLines(roots)[i][0] == '#'
    ensures HeaderLines(roots)[8] == "# " + Decimal(|roots|) + " root(s): " + Decimal(CountFrom(roots, Shipped))
                                     + " shipped, " + Decimal(CountFrom(roots, Added)) + " added."
  {
    TitleIsComment();
    NoticeIsComment();
    CountsLineIsComment(roots);
    assert forall line | line in HeaderLines(roots) :: '\n' !in line;
    hide HeaderLines;
    TextOnLines(HeaderLines(roots));
  }

  lemma {:induction false} TextOnLines(lines: seq<string>)
    requires forall line | line in lines :: '\n' !in line
    ensures Pem.Lines(TextOf(lines)) == lines
  {
    if lines == [] {
      assert Pem.Lines("") == [];
    } else {
      hide Pem.Lines;
      TextOnLines(lines[1..]);
      Pem.OneLine(lines[0], TextOf(lines[1..]));
    }
  }

  /** A name of four lines, the last three of them a certificate block of three zero bytes. */
  const SPELLING: string := "x\n" + Pem.BEGIN + "\nAAAA\n" + Pem.END

  lemma SpellingIsUsable()
    ensures Registry.UsableName(SPELLING)
  {
    assert Pem.TrimStart(SPELLING) == SPELLING;
    assert SPELLING[|SPELLING| - 1] == '-';
    assert Pem.TrimEnd(SPELLING) == SPELLING;
  }

  lemma {:induction false} ZerosDecode()
    ensures Pem.Trim("AAAA") == "AAAA" && '\n' !in "AAAA" && "AAAA" != Pem.BEGIN && "AAAA" != Pem.END
    ensures Base64.Decode("AAAA") == Some([0, 0, 0])
  {
    Base64.EncodeChunk([0, 0, 0]);
    assert Base64.EncodeGroup([0, 0, 0]) == "AAAA";
    Base64.DecodeInvertsEncode([0, 0, 0]);
  }

  lemma {:induction false} SpellingSplits(tail: string)
    ensures "# added as " + SPELLING + "\n" + tail
            == "# added as x" + "\n" + (Pem.BEGIN + "\n" + ("AAAA" + "\n" + (Pem.END + "\n" + tail)))
  {
    hide Pem.BEGIN, Pem.END;
    assert "# added as " + "x\n" == "# added as x" + "\n";
    Regroup("# added as ", "x\n", Pem.BEGIN, "\nAAAA\n", Pem.END, "\n" + tail);
    assert "\n" + ("AAAA" + "\n") == "\nAAAA\n";
    Regroup("# added as x\n", [], Pem.BEGIN, "\n" + ("AAAA" + "\n"), Pem.END, "\n" + tail);
  }

  lemma Regroup(a: string, b: string, c: string, d: string, e: string, f: string)
    ensures a + (b + c + d + e) + f == (a + b) + (c + (d + (e + f)))
  {}

  lemma {:induction false} SpellingScans(last: string)
    requires CommentLine(last)
    ensures Pem.FromPem("# added as " + SPELLING + "\n" + (last + "\n")) == [[0, 0, 0]]
  {
    var tail := last + "\n";
    assert CommentLine("# added as x");
    assert Pem.FromPem("") == [];
    assert tail == last + "\n" + "";
    hide *;
    SpellingSplits(tail);
    CommentIgnored("# added as x", Pem.BEGIN + "\n" + ("AAAA" + "\n" + (Pem.END + "\n" + tail)));
    SpelledBlock(tail);
    CommentIgnored(last, "");
  }

  lemma {:induction false} SpelledBlock(tail: string)
    ensures Pem.FromPem(Pem.BEGIN + "\n" + ("AAAA" + "\n" + (Pem.END + "\n" + tail))) == [[0, 0, 0]] + Pem.FromPem(tail)
  {
    var begin, end := Pem.BEGIN, Pem.END;
    var third := end + "\n" + tail;
    var second := "AAAA" + "\n" + third;
    Pem.Markers();
    ZerosDecode();
    assert Pem.ScanLine(None, begin) == (Some(""), []);
    assert Pem.ScanLine(Some(""), "AAAA") == (Some("AAAA"), []) by { assert "" + "AAAA" == "AAAA"; }
    assert Pem.ScanLine(Some("AAAA"), end) == (None, [[0, 0, 0]]);
    hide *;
    Pem.OneLine(begin, second);
    Pem.OneLine("AAAA", third);
    Pem.OneLine(end, tail);
    Pem.ScanStep(None, begin, Pem.Lines(second));
    Pem.ScanStep(Some(""), "AAAA", Pem.Lines(third));
    Pem.ScanStep(Some("AAAA"), end, Pem.Lines(tail));
    FromPemIs(begin + "\n" + second);
    FromPemIs(tail);
  }

  /**
    An addition's name may hold newlines, and so a certificate that is in no set: a root under such a name brings it
    into the bundle that is rendered.
   */
  lemma {:induction false} NameCanSpellACertificate(e: Entry)
    requires e.name == Some(SPELLING) && '\n' !in e.parsed.subject && '\n' !in e.parsed.fingerprint
    ensures Registry.UsableName(e.name.value)
    ensures Pem.FromPem(Bundle([e])) == [[0, 0, 0], e.parsed.der] != Ders([e])
  {
    var subject, last := "# " + e.parsed.subject, "# SHA-256 " + e.parsed.fingerprint;
    var named := "# added as " + SPELLING + "\n" + (last + "\n");
    SpellingIsUsable();
    assert CommentLine(subject) && CommentLine(last);
    assert Comments(e) == subject + "\n" + named;
    assert [e][1..] == [] && Found([]) == [] && Ders([]) == [];
    hide Pem.FromPem, Comments, CommentLine, Header, SPELLING, Pem.BEGIN, Pem.END;
    CommentIgnored(subject, named);
    SpellingScans(last);
    HeaderIgnored([e], Blocks([e]));
    BlocksFound([e]);
    assert [[0, 0, 0]] + [e.parsed.der] + [] == [[0, 0, 0], e.parsed.der];
  }

  // ---------------------------------------------------------------- the hashed directory

  function HashedName(hash: string, sequence: nat): string {
    hash + "." + Decimal(sequence)
  }

  /** How many roots carry a subject hash: the number the next one gets. */
  function CountHash(roots: seq<Entry>, hash: string): nat {
    if roots == [] then 0
    else CountHash(roots[..|roots| - 1], hash) + if roots[|roots| - 1].parsed.subjectHash == hash then 1 else 0
  }

  /** One file per root, named by subject hash and how many earlier roots share it, beside the bundle. */
  function Hashed(roots: seq<Entry>, base: Dir): Dir {
    if roots == [] then base
    else
      var front, e := roots[..|roots| - 1], roots[|roots| - 1];
      Hashed(front, base)[HashedName(e.parsed.subjectHash, CountHash(front, e.parsed.subjectHash))
                          := File(Pem.ToPem(e.parsed.der))]
  }

  function CertsDir(roots: seq<Entry>): Dir {
    Hashed(roots, map[BUNDLE_NAME := File(Bundle(roots))])
  }

  /** The roots with one subject hash, in their order. */
  function WithHash(roots: seq<Entry>, hash: string): seq<Entry> {
    if roots == [] then []
    else WithHash(roots[..|roots| - 1], hash)
         + if roots[|roots| - 1].parsed.subjectHash == hash then [roots[|roots| - 1]] else []
  }

  /** A subject hash is eight characters, as it is always printed. */
  predicate EightDigits(roots: seq<Entry>) {
    forall e | e in roots :: |e.parsed.subjectHash| == 8
  }

  lemma NamesDiffer(h1: string, n1: nat, h2: string, n2: nat)
    requires |h1| == 8 && |h2| == 8
    ensures HashedName(h1, n1) == HashedName(h2, n2) <==> h1 == h2 && n1 == n2
    ensures HashedName(h1, n1) != BUNDLE_NAME && HashedName(h1, n1) == h1 + "." + Decimal(n1)
  {
    var a, b := HashedName(h1, n1), HashedName(h2, n2);
    assert a[..8] == h1 && a[9..] == Decimal(n1) && a[8] == '.';
    assert b[..8] == h2 && b[9..] == Decimal(n2);
    assert BUNDLE_NAME[8] == 'f';
    if a == b {
      DecimalInjective(n1, n2);
    }
  }

  lemma {:induction false} CountIsWithHash(roots: seq<Entry>, hash: string)
    ensures |WithHash(roots, hash)| == CountHash(roots, hash)
  {
    if roots != [] {
      CountIsWithHash(roots[..|roots| - 1], hash);
    }
  }

  /** Looking a subject hash up, `hash.0`, `hash.1` and on to the first gap, finds its roots in order. */
  ghost predicate LooksUp(dir: Dir, roots: seq<Entry>, hash: string) {
    forall n: nat :: Looked(dir, WithHash(roots, hash), hash, n)
  }

  predicate Looked(dir: Dir, found: seq<Entry>, hash: string, n: nat) {
    && (hash + "." + Decimal(n) in dir <==> n < |found|)
    && (n < |found| ==> dir[hash + "." + Decimal(n)] == File(Pem.ToPem(found[n].parsed.der)))
  }

  lemma {:induction false} HashedLooksUp(roots: seq<Entry>, base: Dir, hash: string)
    requires EightDigits(roots) && |hash| == 8 && base.Keys == {BUNDLE_NAME}
    ensures LooksUp(Hashed(roots, base), roots, hash)
  {
    hide HashedName, BUNDLE_NAME;
    if roots == [] {
      forall n: nat ensures Looked(base, [], hash, n) {
        NamesDiffer(hash, n, hash, n);
      }
    } else {
      var front, e := roots[..|roots| - 1], roots[|roots| - 1];
      var h := e.parsed.subjectHash;
      var k := CountHash(front, h);
      assert roots == front + [e];
      HashedLooksUp(front, base, hash);
      CountIsWithHash(front, hash);
      forall n: nat ensures Looked(Hashed(roots, base), WithHash(roots, hash), hash, n) {
        assert Looked(Hashed(front, base), WithHash(front, hash), hash, n);
        NamesDiffer(hash, n, h, k);
      }
    }
  }

  /** The directory holds one name per root besides the bundle, and no other. */
  lemma {:induction false} HashedNames(roots: seq<Entry>, base: Dir)
    requires EightDigits(roots) && base.Keys == {BUNDLE_NAME}
    ensures |Hashed(roots, base)| == |roots| + 1
    ensures BUNDLE_NAME in Hashed(roots, base) && Hashed(roots, base)[BUNDLE_NAME] == base[BUNDLE_NAME]
    ensures forall name | name in Hashed(roots, base) ::
              name == BUNDLE_NAME || exists e, n: nat :: e in roots && name == HashedName(e.parsed.subjectHash, n)
  {
    hide HashedName, BUNDLE_NAME;
    if roots == [] {
      assert |base.Keys| == 1;
    } else {
      var front, e := roots[..|roots| - 1], roots[|roots| - 1];
      var h := e.parsed.subjectHash;
      var k := CountHash(front, h);
      assert roots == front + [e];
      HashedNames(front, base);
      HashedLooksUp(front, base, h);
      CountIsWithHash(front, h);
      NamesDiffer(h, k, h, k);
      assert Looked(Hashed(front, base), WithHash(front, h), h, k);
      assert HashedName(h, k) !in Hashed(front, base);
      assert Hashed(roots, base).Keys == Hashed(front, base).Keys + {HashedName(h, k)};
      assert |Hashed(roots, base).Keys| == |Hashed(front, base).Keys| + 1;
    }
  }

  /** The rendered directory: the bundle, one file per root, and every subject hash looks up its own roots. */
  lemma {:induction false} CertsDirExact(roots: seq<Entry>)
    requires EightDigits(roots)
    ensures var dir := CertsDir(roots);
            && |dir| == |roots| + 1
            && BUNDLE_NAME in dir && dir[BUNDLE_NAME] == File(Bundle(roots)) && BUNDLE_NAME == "ca-certificates.crt"
            && forall hash: string | |hash| == 8 :: LooksUp(dir, roots, hash)
  {
    assert BUNDLE_NAME == "ca-certificates.crt";
    hide Hashed, LooksUp, Bundle, BUNDLE_NAME;
    var base := map[BUNDLE_NAME := File(Bundle(roots))];
    HashedNames(roots, base);
    forall hash: string | |hash| == 8 ensures LooksUp(Hashed(roots, base), roots, hash) {
      HashedLooksUp(roots, base, hash);
    }
  }
}
