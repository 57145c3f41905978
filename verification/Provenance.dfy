/** Where each root of a composed set comes from, and what is reported of everything that is not in it. */
module Provenance {
  import opened Basics
  import opened Sorting
  import opened Spelling
  import opened Store
  import Pem

  // ---------------------------------------------------------------- the roots

  /** A shipped certificate, parsed without a clock, for server authentication. */
  ghost predicate ComesShipped(parse: Parser, ders: seq<Der>, e: Entry) {
    exists d :: d in ders && parse(d, None).Ok? && e == Entry(parse(d, None).value, Shipped, None, ["ServerAuth"])
  }

  /** An addition under its name, with the purposes it was given, or server authentication if it was given none. */
  ghost predicate ComesAdded(parse: Parser, now: Option<int>, additions: seq<Addition>, e: Entry) {
    exists a :: a in additions && parse(a.der, now).Ok?
                && e == Entry(parse(a.der, now).value, Added, Some(a.name),
                              if a.purposes == [] then ["ServerAuth"] else a.purposes)
  }

  lemma {:induction false} ShippedFrom(parse: Parser, ders: seq<Der>, e: Entry)
    ensures e in ShippedCandidates(parse, ders) <==> ComesShipped(parse, ders, e)
  {
    ShippedMembers(parse, ders, e);
  }

  lemma {:induction false} AddedFrom(parse: Parser, now: Option<int>, additions: seq<Addition>, e: Entry)
    ensures e in AddedCandidates(parse, now, additions) <==> ComesAdded(parse, now, additions, e)
  {
    if additions != [] {
      AddedFrom(parse, now, additions[1..], e);
      assert additions == [additions[0]] + additions[1..];
    }
  }

  /** Every root is one that was shipped or added; an addition is in the set only if no shipped certificate is it. */
  lemma {:induction false} RootsComeFrom(parse: Parser, bundle: string, additions: seq<Addition>,
                                         distrust: seq<string>, now: Option<int>, e: Entry)
    requires Compose(parse, bundle, additions, distrust, now).Ok?
    requires e in Compose(parse, bundle, additions, distrust, now).value.roots
    ensures if e.source.Shipped? then ComesShipped(parse, Pem.FromPem(bundle), e)
            else
              && ComesAdded(parse, now, additions, e)
              && forall d | d in Pem.FromPem(bundle) && parse(d, None).Ok? ::
                   parse(d, None).value.fingerprint != e.parsed.fingerprint
  {
    var ders := Pem.FromPem(bundle);
    var shipped, added := ShippedCandidates(parse, ders), AddedCandidates(parse, now, additions);
    var denied := Map(NormaliseFingerprint, distrust);
    hide Compose, Increasing, Map, ShippedCandidates, AddedCandidates;
    ComposeIsDeclarative(parse, bundle, additions, distrust, now);
    var i :| FirstAt(shipped + added, e, i);
    ShippedFrom(parse, ders, e);
    AddedFrom(parse, now, additions, e);
    if i < |shipped| {
      assert e == shipped[i];
    } else {
      assert e == added[i - |shipped|];
      forall d | d in ders && parse(d, None).Ok? ensures parse(d, None).value.fingerprint != e.parsed.fingerprint {
        ShippedMembers(parse, ders, ShippedEntry(parse(d, None).value));
        var j :| 0 <= j < |shipped| && shipped[j] == ShippedEntry(parse(d, None).value);
        assert (shipped + added)[j] == shipped[j];
      }
    }
  }

  // ---------------------------------------------------------------- the warnings

  /** What is said of a shipped certificate: why it does not parse, or that it is distrusted. */
  function ShippedWarnings(parse: Parser, denied: seq<string>, ders: seq<Der>): seq<Warning> {
    if ders == [] then []
    else
      (match parse(ders[0], None)
       case Err(e) => [BadShipped(e)]
       case Ok(p) => if p.fingerprint in denied then [Distrusted(p.subject, p.fingerprint)] else [])
      + ShippedWarnings(parse, denied, ders[1..])
  }

  /** And of an addition, besides: that an earlier candidate is the same certificate. */
  function AddedWarnings(parse: Parser, now: Option<int>, denied: seq<string>, before: seq<Entry>,
                         additions: seq<Addition>): seq<Warning>
    decreases |additions|
  {
    if additions == [] then []
    else
      var a := additions[0];
      match parse(a.der, now)
      case Err(e) => [BadAddition(a.name, e)] + AddedWarnings(parse, now, denied, before, additions[1..])
      case Ok(p) =>
        (if p.fingerprint in denied then [Distrusted(p.subject, p.fingerprint)]
         else if Met(before, p.fingerprint) then [DuplicateAddition(a.name)]
         else [])
        + AddedWarnings(parse, now, denied, before + [AddedEntry(a, p)], additions[1..])
  }

  predicate Met(candidates: seq<Entry>, fingerprint: string) {
    exists i :: 0 <= i < |candidates| && candidates[i].parsed.fingerprint == fingerprint
  }

  function UnmatchedWarnings(candidates: seq<Entry>, denied: seq<string>): seq<Warning> {
    if denied == [] then []
    else
      (if Met(candidates, denied[0]) then [] else [UnmatchedDistrust(denied[0])])
      + UnmatchedWarnings(candidates, denied[1..])
  }

  lemma PushWarns(w: Work, before: seq<Entry>, denied: seq<string>, e: Entry)
    requires Accumulated(w, before, denied)
    ensures Push(w, denied, e).out.warnings
            == w.out.warnings
               + if e.parsed.fingerprint in denied then [Distrusted(e.parsed.subject, e.parsed.fingerprint)]
                 else if Met(before, e.parsed.fingerprint) && e.source.Added? then
                   [DuplicateAddition(if e.name.Some? then e.name.value else "")]
                 else []
  {
    hide Chosen;
    var f := e.parsed.fingerprint;
    assert w.out.warnings + [] == w.out.warnings;
    if f !in denied {
      if Met(before, f) {
        var i :| 0 <= i < |before| && before[i].parsed.fingerprint == f;
        FirstExists(before, denied, before[i]);
      }
      if Holds(w.out.roots, f) {
        var r :| r in w.out.roots && r.parsed.fingerprint == f;
        ChosenIsCandidate(before, denied, r);
      }
    }
  }

  lemma {:induction false} ShippedWarn(parse: Parser, denied: seq<string>, w: Work, before: seq<Entry>, ders: seq<Der>)
    requires Accumulated(w, before, denied)
    ensures AllShipped(parse, denied, w, ders).out.warnings == w.out.warnings + ShippedWarnings(parse, denied, ders)
    decreases |ders|
  {
    hide Accumulated, Push;
    if ders == [] {
      assert w.out.warnings + [] == w.out.warnings;
    } else {
      var next := AddShipped(parse, denied, w, ders[0]);
      OnlyRootsMatter(w, before, denied);
      var rest := ShippedWarnings(parse, denied, ders[1..]);
      match parse(ders[0], None)
      case Ok(p) =>
        var counted := w.(out := w.out.(shipped := w.out.shipped + 1));
        PushWarns(counted, before, denied, ShippedEntry(p));
        PushAccumulates(counted, before, denied, ShippedEntry(p));
        ShippedWarn(parse, denied, next, before + [ShippedEntry(p)], ders[1..]);
        var own := if p.fingerprint in denied then [Distrusted(p.subject, p.fingerprint)] else [];
        assert w.out.warnings + own + rest == w.out.warnings + (own + rest);
      case Err(e) =>
        ShippedWarn(parse, denied, next, before, ders[1..]);
        assert w.out.warnings + [BadShipped(e)] + rest == w.out.warnings + ([BadShipped(e)] + rest);
    }
  }

  lemma Regrouped(a: seq<Warning>, b: seq<Warning>, c: seq<Warning>)
    ensures a + b + c == a + (b + c)
  {}

  /** One addition taken: the work after it, the candidates after it, and what was said of it. */
  lemma {:induction false} AdditionWarns(parse: Parser, now: Option<int>, denied: seq<string>, w: Work,
                                         before: seq<Entry>, additions: seq<Addition>)
    returns (met: seq<Entry>, own: seq<Warning>)
    requires Accumulated(w, before, denied) && additions != []
    ensures var next := AddAddition(parse, now, denied, w, additions[0]);
            Accumulated(next, before + met, denied) && next.out.warnings == w.out.warnings + own
    ensures AddedWarnings(parse, now, denied, before, additions)
            == own + AddedWarnings(parse, now, denied, before + met, additions[1..])
  {
    hide Accumulated, Push, Met;
    var a := additions[0];
    OnlyRootsMatter(w, before, denied);
    match parse(a.der, now)
    case Ok(p) =>
      var counted := w.(out := w.out.(added := w.out.added + 1));
      PushWarns(counted, before, denied, AddedEntry(a, p));
      PushAccumulates(counted, before, denied, AddedEntry(a, p));
      met := [AddedEntry(a, p)];
      own := if p.fingerprint in denied then [Distrusted(p.subject, p.fingerprint)]
             else if Met(before, p.fingerprint) then [DuplicateAddition(a.name)]
             else [];
    case Err(e) =>
      met, own := [], [BadAddition(a.name, e)];
      assert before + [] == before;
  }

  lemma {:induction false} AdditionsWarn(parse: Parser, now: Option<int>, denied: seq<string>, w: Work,
                                         before: seq<Entry>, additions: seq<Addition>)
    requires Accumulated(w, before, denied)
    ensures AllAdditions(parse, now, denied, w, additions).out.warnings
            == w.out.warnings + AddedWarnings(parse, now, denied, before, additions)
    decreases |additions|
  {
    hide Accumulated, AddAddition, AddedWarnings;
    if additions == [] {
      assert AddedWarnings(parse, now, denied, before, []) == [] by { NoAdditions(parse, now, denied, before); }
      assert w.out.warnings + [] == w.out.warnings;
    } else {
      var met, own := AdditionWarns(parse, now, denied, w, before, additions);
      AdditionsWarn(parse, now, denied, AddAddition(parse, now, denied, w, additions[0]), before + met, additions[1..]);
      Regrouped(w.out.warnings, own, AddedWarnings(parse, now, denied, before + met, additions[1..]));
    }
  }

  lemma NoAdditions(parse: Parser, now: Option<int>, denied: seq<string>, before: seq<Entry>)
    ensures AddedWarnings(parse, now, denied, before, []) == []
  {}

  lemma {:induction false} UnmatchedWarn(w: Work, candidates: seq<Entry>, denied: seq<string>)
    requires |w.seen| == |candidates|
    requires forall i | 0 <= i < |candidates| :: w.seen[i] == candidates[i].parsed.fingerprint
    ensures AllUnmatched(w, denied).out.warnings == w.out.warnings + UnmatchedWarnings(candidates, denied)
    decreases |denied|
  {
    if denied == [] {
      assert w.out.warnings + [] == w.out.warnings;
    } else {
      var next := if denied[0] in w.seen then w else Warn(w, UnmatchedDistrust(denied[0]));
      assert denied[0] in w.seen <==> Met(candidates, denied[0]);
      UnmatchedWarn(next, candidates, denied[1..]);
      var own := if Met(candidates, denied[0]) then [] else [UnmatchedDistrust(denied[0])];
      var rest := UnmatchedWarnings(candidates, denied[1..]);
      assert w.out.warnings + own + rest == w.out.warnings + (own + rest);
    }
  }

  /** All that is counted and all that is reported, in order. */
  lemma {:induction false} NothingIsLost(parse: Parser, bundle: string, additions: seq<Addition>,
                                         distrust: seq<string>, now: Option<int>)
    requires Compose(parse, bundle, additions, distrust, now).Ok?
    ensures
      var c := Compose(parse, bundle, additions, distrust, now).value;
      var ders := Pem.FromPem(bundle);
      var denied := Map(NormaliseFingerprint, distrust);
      var shipped, added := ShippedCandidates(parse, ders), AddedCandidates(parse, now, additions);
      && c.shipped == |shipped| && c.added == |added|
      && c.skipped == |ders| + |additions| - |shipped| - |added| && c.distrusted == |distrust|
      && c.warnings == ShippedWarnings(parse, denied, ders)
                       + AddedWarnings(parse, now, denied, shipped, additions)
                       + UnmatchedWarnings(shipped + added, denied)
  {
    var ders := Pem.FromPem(bundle);
    var denied := Map(NormaliseFingerprint, distrust);
    var shipped := ShippedCandidates(parse, ders);
    var w1 := AllShipped(parse, denied, START, ders);
    var w2 := AllAdditions(parse, now, denied, w1, additions);
    hide Sort, Chosen, AllShipped, AllAdditions, AllUnmatched, Map, ShippedWarnings, AddedWarnings, UnmatchedWarnings;
    NothingAccumulated(denied);
    ShippedAccumulate(parse, denied, START, [], ders);
    assert [] + shipped == shipped;
    AdditionsAccumulate(parse, now, denied, w1, shipped, additions);
    ShippedWarn(parse, denied, START, [], ders);
    AdditionsWarn(parse, now, denied, w1, shipped, additions);
    UnmatchedWarn(w2, shipped + AddedCandidates(parse, now, additions), denied);
    UnmatchedKeeps(w2, denied);
    ShippedCount(parse, denied, START, ders);
    AdditionsCount(parse, now, denied, w1, additions);
    assert [] + ShippedWarnings(parse, denied, ders) == ShippedWarnings(parse, denied, ders);
  }
}
