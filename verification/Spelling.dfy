/** How fingerprints and purposes may be spelled: what is compared, and what makes no difference. */
module Spelling {
  import opened Basics

  predicate AsciiAlphanumeric(c: char) {
    'a' <= c <= 'z' || 'A' <= c <= 'Z' || '0' <= c <= '9'
  }

  function AsciiLower(c: char): char {
    if 'A' <= c <= 'Z' then c + 32 as char else c
  }

  function AsciiLowerText(s: string): string {
    if s == [] then [] else [AsciiLower(s[0])] + AsciiLowerText(s[1..])
  }

  /** The spelling fingerprints are matched in. */
  function NormaliseFingerprint(text: string): string {
    if text == [] then []
    else (if AsciiAlphanumeric(text[0]) then [AsciiLower(text[0])] else []) + NormaliseFingerprint(text[1..])
  }

  // ---------------------------------------------------------------- case

  /** The same character, or one ASCII letter in two cases. */
  predicate SameLetter(a: char, b: char) {
    || a == b
    || ('A' <= a <= 'Z' && b == a + 32 as char)
    || ('A' <= b <= 'Z' && a == b + 32 as char)
  }

  predicate SameButCase(a: string, b: string) {
    |a| == |b| && forall i | 0 <= i < |a| :: SameLetter(a[i], b[i])
  }

  /** Text in lower case agrees exactly where the texts are the same but for the case of ASCII letters. */
  lemma {:induction false} LowerTextAgrees(a: string, b: string)
    ensures AsciiLowerText(a) == AsciiLowerText(b) <==> SameButCase(a, b)
  {
    if a != [] && b != [] {
      LowerTextAgrees(a[1..], b[1..]);
      LowerFirst(a);
      LowerFirst(b);
      assert AsciiLower(a[0]) == AsciiLower(b[0]) <==> SameLetter(a[0], b[0]);
      SameButCaseFirst(a, b);
    }
  }

  lemma LowerFirst(a: string)
    requires a != []
    ensures AsciiLowerText(a) != [] && AsciiLowerText(a)[0] == AsciiLower(a[0])
    ensures AsciiLowerText(a)[1..] == AsciiLowerText(a[1..])
  {}

  lemma SameButCaseFirst(a: string, b: string)
    requires a != [] && b != []
    ensures SameButCase(a, b) <==> SameLetter(a[0], b[0]) && SameButCase(a[1..], b[1..])
  {
    if SameLetter(a[0], b[0]) && SameButCase(a[1..], b[1..]) {
      forall i | 0 <= i < |a| ensures SameLetter(a[i], b[i]) {
        assert i > 0 ==> a[1..][i - 1] == a[i] && b[1..][i - 1] == b[i];
      }
    }
  }

  // ---------------------------------------------------------------- fingerprints

  /** The letters and digits of a spelling, without what separates them. */
  function Significant(text: string): string {
    if text == [] then []
    else
      var c := text[0];
      (if '0' <= c <= '9' || 'A' <= c <= 'Z' || 'a' <= c <= 'z' then [c] else []) + Significant(text[1..])
  }

  /** The same letters and digits in the same order, but for case and for what separates them. */
  predicate SpelledAlike(a: string, b: string) {
    SameButCase(Significant(a), Significant(b))
  }

  lemma NormalisedFirst(text: string)
    requires text != []
    ensures NormaliseFingerprint(text)
            == (if AsciiAlphanumeric(text[0]) then [AsciiLower(text[0])] else []) + NormaliseFingerprint(text[1..])
  {}

  lemma SignificantFirst(text: string)
    requires text != []
    ensures Significant(text) == (if AsciiAlphanumeric(text[0]) then [text[0]] else []) + Significant(text[1..])
  {}

  lemma {:induction false} NormalisedIsLower(text: string)
    ensures NormaliseFingerprint(text) == AsciiLowerText(Significant(text))
  {
    if text != [] {
      NormalisedFirst(text);
      SignificantFirst(text);
      NormalisedIsLower(text[1..]);
      hide *;
      var rest := Significant(text[1..]);
      LowerFirst([text[0]] + rest);
      assert ([text[0]] + rest)[1..] == rest && [] + rest == rest && [] + AsciiLowerText(rest) == AsciiLowerText(rest);
    }
  }

  /** Two spellings are of one fingerprint exactly when they agree but for case and separators. */
  lemma {:induction false} NormalisedAgrees(a: string, b: string)
    ensures NormaliseFingerprint(a) == NormaliseFingerprint(b) <==> SpelledAlike(a, b)
  {
    NormalisedIsLower(a);
    NormalisedIsLower(b);
    LowerTextAgrees(Significant(a), Significant(b));
  }

  predicate LowerAlphanumeric(text: string) {
    forall c | c in text :: '0' <= c <= '9' || 'a' <= c <= 'z'
  }

  /** What fingerprints are matched in is lower-case letters and digits, and text that is so already stands. */
  lemma {:induction false} NormalisedStands(text: string)
    ensures LowerAlphanumeric(NormaliseFingerprint(text)) && |NormaliseFingerprint(text)| <= |text|
    ensures NormaliseFingerprint(text) == text <==> LowerAlphanumeric(text)
  {
    hide NormaliseFingerprint;
    if text != [] {
      NormalisedFirst(text);
      NormalisedStands(text[1..]);
      var rest := NormaliseFingerprint(text[1..]);
      assert text == [text[0]] + text[1..] && forall c :: c in text <==> c == text[0] || c in text[1..];
      assert AsciiAlphanumeric(text[0]) ==> LowerAlphanumeric([AsciiLower(text[0])]);
      if LowerAlphanumeric(text) {
        assert text[0] in text && LowerAlphanumeric(text[1..]);
      }
    } else {
      NormalisedNothing();
    }
  }

  lemma NormalisedNothing()
    ensures NormaliseFingerprint([]) == []
  {}

  lemma {:induction false} NormalisedAppend(a: string, b: string)
    ensures NormaliseFingerprint(a + b) == NormaliseFingerprint(a) + NormaliseFingerprint(b)
  {
    hide *;
    NormalisedNothing();
    if a == [] {
      assert a + b == b && [] + NormaliseFingerprint(b) == NormaliseFingerprint(b);
    } else {
      assert (a + b)[1..] == a[1..] + b && (a + b)[0] == a[0];
      NormalisedFirst(a + b);
      NormalisedFirst(a);
      NormalisedAppend(a[1..], b);
    }
  }

  lemma NormalisedOne(c: char)
    ensures NormaliseFingerprint([c]) == if AsciiAlphanumeric(c) then [AsciiLower(c)] else []
  {}

  /** A character that is no ASCII letter or digit makes no difference, wherever it stands. */
  lemma {:induction false} SeparatorsIgnored(before: string, c: char, after: string)
    requires !('0' <= c <= '9' || 'A' <= c <= 'Z' || 'a' <= c <= 'z')
    ensures NormaliseFingerprint(before + [c] + after) == NormaliseFingerprint(before + after)
  {
    assert !AsciiAlphanumeric(c);
    hide *;
    NormalisedAppend(before + [c], after);
    NormalisedAppend(before, [c]);
    NormalisedAppend(before, after);
    NormalisedOne(c);
    assert NormaliseFingerprint(before) + [] == NormaliseFingerprint(before);
  }

  /** Nor does the case of a letter. */
  lemma {:induction false} CaseIgnored(before: string, c: char, after: string)
    requires 'A' <= c <= 'Z'
    ensures NormaliseFingerprint(before + [c] + after) == NormaliseFingerprint(before + [c + 32 as char] + after)
  {
    var d := c + 32 as char;
    assert AsciiAlphanumeric(c) && AsciiAlphanumeric(d) && AsciiLower(c) == AsciiLower(d);
    hide *;
    NormalisedAppend(before + [c], after);
    NormalisedAppend(before, [c]);
    NormalisedAppend(before + [d], after);
    NormalisedAppend(before, [d]);
    NormalisedOne(c);
    NormalisedOne(d);
  }

  /** Each of these spellings is one of those. */
  ghost predicate SpelledAmong(a: seq<string>, b: seq<string>) {
    forall x | x in a :: exists y :: y in b && SpelledAlike(x, y)
  }

  /** Each spelling in either list is one in the other. */
  ghost predicate SameSpellings(a: seq<string>, b: seq<string>) {
    SpelledAmong(a, b) && SpelledAmong(b, a)
  }

  lemma {:induction false} MappedMembers(names: seq<string>, f: string)
    ensures f in Map(NormaliseFingerprint, names) <==> exists x :: x in names && NormaliseFingerprint(x) == f
  {
    hide Map, NormaliseFingerprint;
    var mapped := Map(NormaliseFingerprint, names);
    if f in mapped {
      var i :| 0 <= i < |mapped| && mapped[i] == f;
      assert names[i] in names;
    }
    if x :| x in names && NormaliseFingerprint(x) == f {
      var i :| 0 <= i < |names| && names[i] == x;
      assert mapped[i] == f;
    }
  }

  lemma {:induction false} AmongAgrees(a: seq<string>, b: seq<string>)
    ensures SpelledAmong(a, b) <==> forall f | f in Map(NormaliseFingerprint, a) :: f in Map(NormaliseFingerprint, b)
  {
    hide SpelledAlike, NormaliseFingerprint, Map;
    if SpelledAmong(a, b) {
      forall f | f in Map(NormaliseFingerprint, a) ensures f in Map(NormaliseFingerprint, b) {
        MappedMembers(a, f);
        MappedMembers(b, f);
        var x :| x in a && NormaliseFingerprint(x) == f;
        var y :| y in b && SpelledAlike(x, y);
        NormalisedAgrees(x, y);
      }
    }
    if forall f | f in Map(NormaliseFingerprint, a) :: f in Map(NormaliseFingerprint, b) {
      forall x | x in a ensures exists y :: y in b && SpelledAlike(x, y) {
        MappedMembers(a, NormaliseFingerprint(x));
        MappedMembers(b, NormaliseFingerprint(x));
        var y :| y in b && NormaliseFingerprint(y) == NormaliseFingerprint(x);
        NormalisedAgrees(x, y);
      }
    }
  }

  /** Two lists name the same fingerprints exactly when they hold the same spellings. */
  lemma {:induction false} SameSpellingsAgree(a: seq<string>, b: seq<string>)
    ensures SameSpellings(a, b)
       <==> forall f :: f in Map(NormaliseFingerprint, a) <==> f in Map(NormaliseFingerprint, b)
  {
    hide SpelledAmong, Map;
    AmongAgrees(a, b);
    AmongAgrees(b, a);
  }
}
