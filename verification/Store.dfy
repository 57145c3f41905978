/**
  Composing the effective root set from the shipped bundle, the additions and the distrusts.

  Certificate parsing, with its expiry check and its fingerprint, is a parameter: any function from DER and an
  optional clock to a parsed certificate or a refusal.
 */
module Store {
  import opened Basics
  import opened Sorting
  import opened Spelling
  import Pem

  type Der = seq<byte>

  datatype Parsed = Parsed(der: Der, fingerprint: string, subject: string, notAfter: int, subjectHash: string)

  datatype CertError = Malformed(why: string) | NotACa | Expired | NoCertificate

  type Parser = (Der, Option<int>) -> Result<Parsed, CertError>

  datatype Source = Shipped | Added

  datatype Addition = Addition(name: string, der: Der, purposes: seq<string>)

  datatype Entry = Entry(parsed: Parsed, source: Source, name: Option<string>, purposes: seq<string>)

  datatype Warning =
    | BadShipped(error: CertError)
    | BadAddition(name: string, error: CertError)
    | Distrusted(subject: string, fingerprint: string)
    | DuplicateAddition(name: string)
    | UnmatchedDistrust(fingerprint: string)

  datatype Composed = Composed(roots: seq<Entry>, shipped: nat, added: nat, distrusted: nat, skipped: nat,
                               warnings: seq<Warning>)

  datatype ComposeError = TooFewShipped(count: nat) | NothingLeft

  const MINIMUM_SHIPPED: nat := 50
  const SERVER_AUTH: string := "ServerAuth"

  // ---------------------------------------------------------------- purposes

  predicate ForPurpose(e: Entry, purpose: string) {
    exists p | p in e.purposes :: AsciiLowerText(p) == AsciiLowerText(purpose)
  }

  /** The roots that carry a purpose, in their order. */
  function RootsForPurpose(roots: seq<Entry>, purpose: string): (r: seq<Entry>)
    ensures forall e :: e in r <==> e in roots && ForPurpose(e, purpose)
  {
    if roots == [] then []
    else (if ForPurpose(roots[0], purpose) then [roots[0]] else []) + RootsForPurpose(roots[1..], purpose)
  }

  /** The entry is wanted: it has the purpose, in ASCII without regard to case, or none is asked for. */
  predicate Wanted(e: Entry, purpose: Option<string>) {
    purpose.None? || exists p | p in e.purposes :: SameButCase(p, purpose.value)
  }

  /** The places of all that is wanted, in order. */
  ghost predicate WantedAt(roots: seq<Entry>, purpose: Option<string>, at: seq<nat>) {
    && (forall i | 0 <= i < |at| :: at[i] < |roots|)
    && (forall i, j | 0 <= i < j < |at| :: at[i] < at[j])
    && (forall k: nat | k < |roots| :: k in at <==> Wanted(roots[k], purpose))
  }

  /** Exactly the wanted roots, in the order of the set and each as often as it is there. */
  ghost predicate Selection(roots: seq<Entry>, purpose: Option<string>, chosen: seq<Entry>) {
    exists at :: WantedAt(roots, purpose, at) && Picks(roots, at, chosen)
  }

  ghost predicate Picks<T(!new)>(all: seq<T>, at: seq<nat>, chosen: seq<T>) {
    |chosen| == |at| && forall i | 0 <= i < |at| :: at[i] < |all| && chosen[i] == all[at[i]]
  }

  lemma {:induction false} ForPurposeIsWanted(e: Entry, purpose: string)
    ensures ForPurpose(e, purpose) <==> Wanted(e, Some(purpose))
  {
    hide AsciiLowerText, SameButCase;
    forall p ensures AsciiLowerText(p) == AsciiLowerText(purpose) <==> SameButCase(p, purpose) {
      LowerTextAgrees(p, purpose);
    }
  }

  /** One place later, after a first root that is wanted or not. */
  function Later(first: bool, at: seq<nat>): (r: seq<nat>) {
    (if first then [0] else []) + seq(|at|, i requires 0 <= i < |at| => at[i] + 1)
  }

  lemma {:induction false} LaterHolds(first: bool, at: seq<nat>, k: nat)
    ensures k in Later(first, at) <==> if k == 0 then first else k - 1 in at
  {
    var all, n := Later(first, at), if first then 1 else 0;
    assert |all| == n + |at| && forall i | 0 <= i < |at| :: all[n + i] == at[i] + 1;
    if k in all {
      var i :| 0 <= i < |all| && all[i] == k;
      assert i >= n ==> all[n + (i - n)] == at[i - n] + 1;
    }
    if k > 0 && k - 1 in at {
      var i :| 0 <= i < |at| && at[i] == k - 1;
      assert all[n + i] == k;
    }
  }

  lemma LaterRises(first: bool, at: seq<nat>, limit: nat)
    requires forall i | 0 <= i < |at| :: at[i] < limit
    requires forall i, j | 0 <= i < j < |at| :: at[i] < at[j]
    ensures forall i | 0 <= i < |Later(first, at)| :: Later(first, at)[i] < limit + 1
    ensures forall i, j | 0 <= i < j < |Later(first, at)| :: Later(first, at)[i] < Later(first, at)[j]
  {}

  lemma {:induction false} WantedLater(roots: seq<Entry>, purpose: Option<string>, at: seq<nat>)
    requires roots != [] && WantedAt(roots[1..], purpose, at)
    ensures WantedAt(roots, purpose, Later(Wanted(roots[0], purpose), at))
  {
    hide Wanted, Later;
    var first := Wanted(roots[0], purpose);
    LaterRises(first, at, |roots| - 1);
    forall k: nat | k < |roots| ensures k in Later(first, at) <==> Wanted(roots[k], purpose) {
      LaterHolds(first, at, k);
      assert k > 0 ==> roots[1..][k - 1] == roots[k];
    }
  }

  lemma {:induction false} PicksLater<T(!new)>(all: seq<T>, first: bool, at: seq<nat>, chosen: seq<T>)
    requires all != [] && Picks(all[1..], at, chosen)
    ensures Picks(all, Later(first, at), (if first then [all[0]] else []) + chosen)
  {}

  /** The roots for a purpose, place by place. */
  lemma {:induction false} RootsForPurposeSelects(roots: seq<Entry>, purpose: string) returns (at: seq<nat>)
    ensures WantedAt(roots, Some(purpose), at) && Picks(roots, at, RootsForPurpose(roots, purpose))
    ensures Selection(roots, Some(purpose), RootsForPurpose(roots, purpose))
  {
    hide ForPurpose, Wanted, WantedAt, Picks;
    if roots == [] {
      at := [];
      NoneWanted(Some(purpose));
    } else {
      at := RootsForPurposeSelects(roots[1..], purpose);
      ForPurposeIsWanted(roots[0], purpose);
      WantedLater(roots, Some(purpose), at);
      PicksLater(roots, Wanted(roots[0], Some(purpose)), at, RootsForPurpose(roots[1..], purpose));
      at := Later(Wanted(roots[0], Some(purpose)), at);
    }
  }

  lemma NoneWanted(purpose: Option<string>)
    ensures WantedAt([], purpose, []) && Picks<Entry>([], [], [])
  {}

  lemma {:induction false} PlacesUnique(roots: seq<Entry>, purpose: Option<string>, a: seq<nat>, b: seq<nat>)
    requires WantedAt(roots, purpose, a) && WantedAt(roots, purpose, b)
    ensures a == b
  {
    hide Wanted;
    assert forall k: nat :: k in a <==> k in b;
    SamePlaces(a, b);
  }

  lemma {:induction false} SamePlaces(a: seq<nat>, b: seq<nat>)
    requires forall i, j | 0 <= i < j < |a| :: a[i] < a[j]
    requires forall i, j | 0 <= i < j < |b| :: b[i] < b[j]
    requires forall k: nat :: k in a <==> k in b
    ensures a == b
  {
    assert b != [] ==> b[0] in b && b[0] in a;
    if a != [] {
      assert a[0] in a && a[0] in b;
      LeastPlace(a, b[0]);
      LeastPlace(b, a[0]);
      forall k: nat ensures k in a[1..] <==> k in b[1..] {
        LaterPlaces(a, k);
        LaterPlaces(b, k);
      }
      SamePlaces(a[1..], b[1..]);
      assert a == [a[0]] + a[1..] && b == [b[0]] + b[1..];
    }
  }

  lemma LeastPlace(a: seq<nat>, k: nat)
    requires forall i, j | 0 <= i < j < |a| :: a[i] < a[j]
    ensures k in a ==> a[0] <= k
  {}

  lemma LaterPlaces(a: seq<nat>, k: nat)
    requires a != [] && forall i, j | 0 <= i < j < |a| :: a[i] < a[j]
    ensures k in a[1..] <==> k in a && k != a[0]
  {
    assert a == [a[0]] + a[1..];
  }

  /** There is one selection. */
  lemma {:induction false} SelectionUnique(roots: seq<Entry>, purpose: Option<string>, a: seq<Entry>, b: seq<Entry>)
    requires Selection(roots, purpose, a) && Selection(roots, purpose, b)
    ensures a == b
  {
    hide WantedAt;
    var i :| WantedAt(roots, purpose, i) && Picks(roots, i, a);
    var j :| WantedAt(roots, purpose, j) && Picks(roots, j, b);
    PlacesUnique(roots, purpose, i, j);
  }

  // ---------------------------------------------------------------- composing, step by step

  /** What the loops have built: the result so far and every fingerprint met. */
  datatype Work = Work(out: Composed, seen: seq<string>)

  const START: Work := Work(Composed([], 0, 0, 0, 0, []), [])

  function Warn(w: Work, warning: Warning): Work {
    w.(out := w.out.(warnings := w.out.warnings + [warning]))
  }

  predicate Holds(roots: seq<Entry>, fingerprint: string) {
    exists r | r in roots :: r.parsed.fingerprint == fingerprint
  }

  /** One candidate taken: into the set, or turned away and counted. */
  function Push(w: Work, denied: seq<string>, e: Entry): Work {
    var met := w.(seen := w.seen + [e.parsed.fingerprint]);
    if e.parsed.fingerprint in denied then Warn(met, Distrusted(e.parsed.subject, e.parsed.fingerprint))
    else if Holds(w.out.roots, e.parsed.fingerprint) then
      if e.source == Added then Warn(met, DuplicateAddition(if e.name.Some? then e.name.value else "")) else met
    else met.(out := met.out.(roots := met.out.roots + [e]))
  }

  function ShippedEntry(parsed: Parsed): Entry {
    Entry(parsed, Shipped, None, [SERVER_AUTH])
  }

  function AddedEntry(a: Addition, parsed: Parsed): Entry {
    Entry(parsed, Added, Some(a.name), if a.purposes == [] then [SERVER_AUTH] else a.purposes)
  }

  /** A shipped certificate is parsed without a clock: an expired one is kept. */
  function AddShipped(parse: Parser, denied: seq<string>, w: Work, der: Der): Work {
    match parse(der, None)
    case Ok(parsed) => Push(w.(out := w.out.(shipped := w.out.shipped + 1)), denied, ShippedEntry(parsed))
    case Err(e) => Warn(w.(out := w.out.(skipped := w.out.skipped + 1)), BadShipped(e))
  }

  function AddAddition(parse: Parser, now: Option<int>, denied: seq<string>, w: Work, a: Addition): Work {
    match parse(a.der, now)
    case Ok(parsed) => Push(w.(out := w.out.(added := w.out.added + 1)), denied, AddedEntry(a, parsed))
    case Err(e) => Warn(w.(out := w.out.(skipped := w.out.skipped + 1)), BadAddition(a.name, e))
  }

  function AllShipped(parse: Parser, denied: seq<string>, w: Work, ders: seq<Der>): Work
    decreases |ders|
  {
    if ders == [] then w else AllShipped(parse, denied, AddShipped(parse, denied, w, ders[0]), ders[1..])
  }

  function AllAdditions(parse: Parser, now: Option<int>, denied: seq<string>, w: Work, additions: seq<Addition>): Work
    decreases |additions|
  {
    if additions == [] then w
    else AllAdditions(parse, now, denied, AddAddition(parse, now, denied, w, additions[0]), additions[1..])
  }

  function AllUnmatched(w: Work, denied: seq<string>): Work
    decreases |denied|
  {
    if denied == [] then w
    else AllUnmatched(if denied[0] in w.seen then w else Warn(w, UnmatchedDistrust(denied[0])), denied[1..])
  }

  predicate EntryLe(a: Entry, b: Entry) {
    TextLe(a.parsed.fingerprint, b.parsed.fingerprint)
  }

  function Compose(parse: Parser, bundle: string, additions: seq<Addition>, distrust: seq<string>, now: Option<int>)
    : Result<Composed, ComposeError>
  {
    var shipped := Pem.FromPem(bundle);
    if |shipped| < MINIMUM_SHIPPED then Err(TooFewShipped(|shipped|))
    else
      var denied := Map(NormaliseFingerprint, distrust);
      var w := AllAdditions(parse, now, denied, AllShipped(parse, denied, START, shipped), additions);
      var out := AllUnmatched(w, denied).out.(distrusted := |denied|, roots := Sort(w.out.roots, EntryLe));
      if out.roots == [] then Err(NothingLeft) else Ok(out)
  }

  method ComposeStore(parse: Parser, bundle: string, additions: seq<Addition>, distrust: seq<string>, now: Option<int>)
    returns (r: Result<Composed, ComposeError>)
    ensures r == Compose(parse, bundle, additions, distrust, now)
  {
    var shipped := Pem.ReadPem(bundle);
    if |shipped| < MINIMUM_SHIPPED {
      return Err(TooFewShipped(|shipped|));
    }
    hide AddShipped, AddAddition, Sort;
    var denied := Map(NormaliseFingerprint, distrust);
    var w := START;
    for i := 0 to |shipped|
      invariant AllShipped(parse, denied, START, shipped) == AllShipped(parse, denied, w, shipped[i..])
    {
      assert shipped[i..][1..] == shipped[i + 1..];
      w := AddShipped(parse, denied, w, shipped[i]);
    }
    ghost var afterShipped := w;
    for i := 0 to |additions|
      invariant AllAdditions(parse, now, denied, afterShipped, additions)
             == AllAdditions(parse, now, denied, w, additions[i..])
    {
      assert additions[i..][1..] == additions[i + 1..];
      w := AddAddition(parse, now, denied, w, additions[i]);
    }
    ghost var afterAdditions := w;
    for i := 0 to |denied|
      invariant AllUnmatched(afterAdditions, denied) == AllUnmatched(w, denied[i..])
      invariant w.out.roots == afterAdditions.out.roots
    {
      assert denied[i..][1..] == denied[i + 1..];
      if denied[i] !in w.seen {
        w := Warn(w, UnmatchedDistrust(denied[i]));
      }
    }
    var out := w.out.(distrusted := |denied|, roots := Sort(w.out.roots, EntryLe));
    if out.roots == [] {
      return Err(NothingLeft);
    }
    return Ok(out);
  }

  // ---------------------------------------------------------------- what composing means

  function ShippedCandidates(parse: Parser, ders: seq<Der>): seq<Entry> {
    if ders == [] then []
    else (match parse(ders[0], None) case Ok(p) => [ShippedEntry(p)] case Err(_) => [])
         + ShippedCandidates(parse, ders[1..])
  }

  function AddedCandidates(parse: Parser, now: Option<int>, additions: seq<Addition>): seq<Entry> {
    if additions == [] then []
    else (match parse(additions[0].der, now) case Ok(p) => [AddedEntry(additions[0], p)] case Err(_) => [])
         + AddedCandidates(parse, now, additions[1..])
  }

  /** Every certificate that parses, shipped before added. */
  function Candidates(parse: Parser, ders: seq<Der>, additions: seq<Addition>, now: Option<int>): seq<Entry> {
    ShippedCandidates(parse, ders) + AddedCandidates(parse, now, additions)
  }

  /** `e` is the first candidate with its fingerprint, and no distrust names it. */
  ghost predicate Chosen(candidates: seq<Entry>, denied: seq<string>, e: Entry) {
    && e.parsed.fingerprint !in denied
    && exists i :: FirstAt(candidates, e, i)
  }

  ghost predicate FirstAt(candidates: seq<Entry>, e: Entry, i: int) {
    && 0 <= i < |candidates| && candidates[i] == e
    && forall j | 0 <= j < i :: candidates[j].parsed.fingerprint != e.parsed.fingerprint
  }

  /** In strict fingerprint order, so no fingerprint occurs twice. */
  ghost predicate Increasing(roots: seq<Entry>) {
    forall i, j | 0 <= i < j < |roots| ::
      && TextLe(roots[i].parsed.fingerprint, roots[j].parsed.fingerprint)
      && roots[i].parsed.fingerprint != roots[j].parsed.fingerprint
  }

  /** The declarative definition of the effective set: its members, and their order. */
  ghost predicate EffectiveSet(roots: seq<Entry>, candidates: seq<Entry>, denied: seq<string>) {
    && Increasing(roots)
    && forall e :: e in roots <==> Chosen(candidates, denied, e)
  }

  /** What the accumulating loops maintain, for the candidates met so far. */
  ghost predicate Accumulated(w: Work, candidates: seq<Entry>, denied: seq<string>) {
    && |w.seen| == |candidates|
    && (forall i | 0 <= i < |candidates| :: w.seen[i] == candidates[i].parsed.fingerprint)
    && (forall e :: e in w.out.roots <==> Chosen(candidates, denied, e))
    && (forall i, j | 0 <= i < j < |w.out.roots| ::
          w.out.roots[i].parsed.fingerprint != w.out.roots[j].parsed.fingerprint)
  }

  /** One more candidate is chosen exactly when `Push` adds it; earlier choices stand. */
  lemma ChosenAppend(candidates: seq<Entry>, denied: seq<string>, c: Entry, e: Entry)
    ensures Chosen(candidates + [c], denied, e) <==>
              || Chosen(candidates, denied, e)
              || (&& e == c && c.parsed.fingerprint !in denied
                  && forall x | x in candidates :: x.parsed.fingerprint != c.parsed.fingerprint)
  {
    var all := candidates + [c];
    assert forall j | 0 <= j < |candidates| :: all[j] == candidates[j];
    if Chosen(all, denied, e) {
      var i :| FirstAt(all, e, i);
      if i < |candidates| {
        assert FirstAt(candidates, e, i);
      } else {
        forall x | x in candidates ensures x.parsed.fingerprint != c.parsed.fingerprint {
          var j :| 0 <= j < |candidates| && candidates[j] == x;
          assert all[j] == x;
        }
      }
    }
    if Chosen(candidates, denied, e) {
      var i :| FirstAt(candidates, e, i);
      assert FirstAt(all, e, i);
    }
    if e == c && c.parsed.fingerprint !in denied
        && forall x | x in candidates :: x.parsed.fingerprint != c.parsed.fingerprint {
      assert forall j | 0 <= j < |candidates| :: all[j] in candidates;
      assert FirstAt(all, e, |candidates|);
    }
  }

  /** Every fingerprint met and not distrusted has its first candidate in the set. */
  lemma {:induction false} FirstExists(candidates: seq<Entry>, denied: seq<string>, x: Entry)
    requires x in candidates && x.parsed.fingerprint !in denied
    ensures exists e :: Chosen(candidates, denied, e) && e.parsed.fingerprint == x.parsed.fingerprint
  {
    var n := |candidates| - 1;
    var front, last := candidates[..n], candidates[n];
    assert candidates == front + [last];
    if x in front {
      FirstExists(front, denied, x);
      var e :| Chosen(front, denied, e) && e.parsed.fingerprint == x.parsed.fingerprint;
      ChosenAppend(front, denied, last, e);
    } else if y :| y in front && y.parsed.fingerprint == x.parsed.fingerprint {
      FirstExists(front, denied, y);
      var e :| Chosen(front, denied, e) && e.parsed.fingerprint == y.parsed.fingerprint;
      ChosenAppend(front, denied, last, e);
    } else {
      ChosenAppend(front, denied, last, x);
    }
  }

  lemma {:induction false} PushAccumulates(w: Work, candidates: seq<Entry>, denied: seq<string>, c: Entry)
    requires Accumulated(w, candidates, denied)
    ensures Accumulated(Push(w, denied, c), candidates + [c], denied)
  {
    hide Chosen;
    forall e ensures Chosen(candidates + [c], denied, e) <==> e in Push(w, denied, c).out.roots {
      ChosenAppend(candidates, denied, c, e);
      if c.parsed.fingerprint !in denied && !Holds(w.out.roots, c.parsed.fingerprint) {
        forall x | x in candidates ensures x.parsed.fingerprint != c.parsed.fingerprint {
          if x.parsed.fingerprint == c.parsed.fingerprint {
            FirstExists(candidates, denied, x);
          }
        }
      } else if c.parsed.fingerprint !in denied {
        var r :| r in w.out.roots && r.parsed.fingerprint == c.parsed.fingerprint;
        ChosenIsCandidate(candidates, denied, r);
      }
    }
  }

  lemma ChosenIsCandidate(candidates: seq<Entry>, denied: seq<string>, e: Entry)
    requires Chosen(candidates, denied, e)
    ensures e in candidates && e.parsed.fingerprint !in denied
  {}

  lemma {:induction false} ShippedAccumulate(parse: Parser, denied: seq<string>, w: Work, before: seq<Entry>,
      ders: seq<Der>)
    requires Accumulated(w, before, denied)
    ensures Accumulated(AllShipped(parse, denied, w, ders), before + ShippedCandidates(parse, ders), denied)
    decreases |ders|
  {
    hide Accumulated, Push;
    if ders == [] {
      assert before + [] == before;
    } else {
      var next := AddShipped(parse, denied, w, ders[0]);
      var met := match parse(ders[0], None) case Ok(p) => [ShippedEntry(p)] case Err(_) => [];
      OnlyRootsMatter(w, before, denied);
      if met != [] {
        PushAccumulates(w.(out := w.out.(shipped := w.out.shipped + 1)), before, denied, met[0]);
      } else {
        assert before + [] == before;
      }
      ShippedAccumulate(parse, denied, next, before + met, ders[1..]);
      assert before + met + ShippedCandidates(parse, ders[1..]) == before + ShippedCandidates(parse, ders);
    }
  }

  lemma {:induction false} AdditionsAccumulate(parse: Parser, now: Option<int>, denied: seq<string>, w: Work,
                                               before: seq<Entry>, additions: seq<Addition>)
    requires Accumulated(w, before, denied)
    ensures Accumulated(AllAdditions(parse, now, denied, w, additions),
                        before + AddedCandidates(parse, now, additions), denied)
    decreases |additions|
  {
    hide Accumulated, Push;
    if additions == [] {
      assert before + [] == before;
    } else {
      var a := additions[0];
      var next := AddAddition(parse, now, denied, w, a);
      var met := match parse(a.der, now) case Ok(p) => [AddedEntry(a, p)] case Err(_) => [];
      OnlyRootsMatter(w, before, denied);
      if met != [] {
        PushAccumulates(w.(out := w.out.(added := w.out.added + 1)), before, denied, met[0]);
      } else {
        assert before + [] == before;
      }
      AdditionsAccumulate(parse, now, denied, next, before + met, additions[1..]);
      assert before + met + AddedCandidates(parse, now, additions[1..]) == before + AddedCandidates(parse, now,
          additions);
    }
  }

  /** Counting and warning do not disturb what has been accumulated. */
  lemma OnlyRootsMatter(w: Work, candidates: seq<Entry>, denied: seq<string>)
    requires Accumulated(w, candidates, denied)
    ensures forall v: Work | v.seen == w.seen && v.out.roots == w.out.roots :: Accumulated(v, candidates, denied)
  {}

  lemma {:induction false} UnmatchedKeeps(w: Work, denied: seq<string>)
    ensures var v := AllUnmatched(w, denied);
            v.seen == w.seen && v.out == w.out.(warnings := v.out.warnings)
    decreases |denied|
  {
    if denied != [] {
      UnmatchedKeeps(if denied[0] in w.seen then w else Warn(w, UnmatchedDistrust(denied[0])), denied[1..]);
    }
  }

  lemma {:induction false} SortedIsIncreasing(roots: seq<Entry>)
    requires forall i, j | 0 <= i < j < |roots| :: roots[i].parsed.fingerprint != roots[j].parsed.fingerprint
    ensures Increasing(Sort(roots, EntryLe))
    ensures forall e :: e in Sort(roots, EntryLe) <==> e in roots
    ensures |Sort(roots, EntryLe)| == |roots|
  {
    hide Sort, TextLe;
    EntryOrder();
    SortCorrect(roots, EntryLe);
    var sorted := Sort(roots, EntryLe);
    PermutationMembers(sorted, roots);
    SortDistinct(roots);
  }

  ghost predicate Distinct(roots: seq<Entry>) {
    forall i, j | 0 <= i < j < |roots| :: roots[i].parsed.fingerprint != roots[j].parsed.fingerprint
  }

  lemma {:induction false} InsertDistinct(x: Entry, s: seq<Entry>)
    requires Distinct(s) && forall e | e in s :: e.parsed.fingerprint != x.parsed.fingerprint
    ensures Distinct(Insert(x, s, EntryLe))
  {
    if s != [] && !EntryLe(x, s[0]) {
      InsertDistinct(x, s[1..]);
      InsertPermutes(x, s[1..], EntryLe);
      var rest := Insert(x, s[1..], EntryLe);
      PermutationMembers(rest, [x] + s[1..]);
      forall e | e in rest ensures e.parsed.fingerprint != s[0].parsed.fingerprint {
        assert e in [x] + s[1..];
      }
    }
  }

  lemma {:induction false} SortDistinct(s: seq<Entry>)
    requires Distinct(s)
    ensures Distinct(Sort(s, EntryLe))
  {
    if s != [] {
      hide EntryLe, Insert;
      SortDistinct(s[1..]);
      EntryOrder();
      SortCorrect(s[1..], EntryLe);
      PermutationMembers(Sort(s[1..], EntryLe), s[1..]);
      InsertDistinct(s[0], Sort(s[1..], EntryLe));
    }
  }

  lemma {:induction false} EntryOrder()
    ensures TotalPreorder(EntryLe)
  {
    hide TextLe;
    TextOrder();
  }

  /** Composition computes the declarative set, refuses in exactly two cases, and loses count of nothing. */
  lemma {:induction false} ComposeIsDeclarative(parse: Parser, bundle: string, additions: seq<Addition>,
      distrust: seq<string>, now: Option<int>)
    ensures
      var blocks := Pem.FromPem(bundle);
      var candidates := Candidates(parse, blocks, additions, now);
      var denied := Map(NormaliseFingerprint, distrust);
      match Compose(parse, bundle, additions, distrust, now)
      case Ok(c) =>
        && |blocks| >= MINIMUM_SHIPPED && c.roots != []
        && EffectiveSet(c.roots, candidates, denied)
        && c.shipped + c.added + c.skipped == |blocks| + |additions|
        && c.shipped + c.added == |candidates|
        && c.distrusted == |distrust|
      case Err(TooFewShipped(n)) => n == |blocks| < MINIMUM_SHIPPED
      case Err(NothingLeft) => |blocks| >= MINIMUM_SHIPPED && forall e :: !Chosen(candidates, denied, e)
  {
    var blocks := Pem.FromPem(bundle);
    if |blocks| >= MINIMUM_SHIPPED {
      var denied := Map(NormaliseFingerprint, distrust);
      var w1 := AllShipped(parse, denied, START, blocks);
      var w2 := AllAdditions(parse, now, denied, w1, additions);
      hide Sort, Chosen, AllShipped, AllAdditions, AllUnmatched, Increasing;
      NothingAccumulated(denied);
      ShippedAccumulate(parse, denied, START, [], blocks);
      assert [] + ShippedCandidates(parse, blocks) == ShippedCandidates(parse, blocks);
      AdditionsAccumulate(parse, now, denied, w1, ShippedCandidates(parse, blocks), additions);
      UnmatchedKeeps(w2, denied);
      SortedIsIncreasing(w2.out.roots);
      ShippedCount(parse, denied, START, blocks);
      AdditionsCount(parse, now, denied, w1, additions);
    }
  }

  lemma NothingAccumulated(denied: seq<string>)
    ensures Accumulated(START, [], denied)
  {}

  lemma PushCounts(w: Work, denied: seq<string>, e: Entry)
    ensures var v := Push(w, denied, e).out;
            v.shipped == w.out.shipped && v.added == w.out.added && v.skipped == w.out.skipped
  {}

  lemma {:induction false} ShippedCount(parse: Parser, denied: seq<string>, w: Work, ders: seq<Der>)
    ensures var v := AllShipped(parse, denied, w, ders).out;
            && v.shipped == w.out.shipped + |ShippedCandidates(parse, ders)|
            && v.skipped == w.out.skipped + |ders| - |ShippedCandidates(parse, ders)|
            && v.added == w.out.added
    decreases |ders|
  {
    if ders != [] {
      hide Push;
      forall v, e {
        PushCounts(v, denied, e);
      }
      ShippedCount(parse, denied, AddShipped(parse, denied, w, ders[0]), ders[1..]);
    }
  }

  lemma {:induction false} AdditionsCount(parse: Parser, now: Option<int>, denied: seq<string>, w: Work,
      additions: seq<Addition>)
    ensures var v := AllAdditions(parse, now, denied, w, additions).out;
            && v.added == w.out.added + |AddedCandidates(parse, now, additions)|
            && v.skipped == w.out.skipped + |additions| - |AddedCandidates(parse, now, additions)|
            && v.shipped == w.out.shipped
    decreases |additions|
  {
    if additions != [] {
      hide Push;
      forall v, e {
        PushCounts(v, denied, e);
      }
      AdditionsCount(parse, now, denied, AddAddition(parse, now, denied, w, additions[0]), additions[1..]);
    }
  }

  // ---------------------------------------------------------------- one set, one result

  lemma {:induction false} IncreasingHead(a: seq<Entry>, b: seq<Entry>)
    requires Increasing(a) && Increasing(b) && a != []
    requires forall e :: e in a <==> e in b
    ensures b != [] && a[0] == b[0]
  {
    hide TextLe;
    TextOrder();
    assert a[0] in b && b[0] in a;
    var i :| 0 <= i < |b| && b[i] == a[0];
    var j :| 0 <= j < |a| && a[j] == b[0];
  }

  /** The members of the effective set determine it. */
  lemma {:induction false} IncreasingUnique(a: seq<Entry>, b: seq<Entry>)
    requires Increasing(a) && Increasing(b)
    requires forall e :: e in a <==> e in b
    ensures a == b
  {
    assert b != [] ==> b[0] in a;
    if a != [] {
      IncreasingHead(a, b);
      assert a == [a[0]] + a[1..] && b == [b[0]] + b[1..];
      forall e ensures e in a[1..] <==> e in b[1..] {
        TailMembers(a, e);
        TailMembers(b, e);
      }
      IncreasingUnique(a[1..], b[1..]);
    }
  }

  lemma TailMembers(a: seq<Entry>, e: Entry)
    requires Increasing(a) && a != []
    ensures e in a[1..] <==> e in a && e != a[0]
  {
    assert a == [a[0]] + a[1..];
    if e in a[1..] {
      var k :| 0 <= k < |a| - 1 && a[1..][k] == e;
      assert a[k + 1] == e;
    }
  }

  ghost predicate SomeChosen(candidates: seq<Entry>, denied: seq<string>) {
    exists e :: Chosen(candidates, denied, e)
  }

  /** Composition succeeds exactly when the bundle is plausible and something is chosen. */
  lemma {:induction false} ComposeSucceeds(parse: Parser, bundle: string, additions: seq<Addition>,
      distrust: seq<string>, now: Option<int>)
    ensures Compose(parse, bundle, additions, distrust, now).Ok? <==>
              && |Pem.FromPem(bundle)| >= 50
              && SomeChosen(Candidates(parse, Pem.FromPem(bundle), additions, now), Map(NormaliseFingerprint, distrust))
  {
    hide Compose, Chosen, Increasing, Candidates, Map;
    ComposeIsDeclarative(parse, bundle, additions, distrust, now);
    var r := Compose(parse, bundle, additions, distrust, now);
    if r.Ok? {
      assert r.value.roots[0] in r.value.roots;
    }
  }

  /** Two compositions choose alike, so they agree on their roots or both find nothing left. */
  ghost predicate SameRoots(r: Result<Composed, ComposeError>, s: Result<Composed, ComposeError>) {
    (r.Ok? <==> s.Ok?) && (r.Ok? ==> r.value.roots == s.value.roots)
  }

  lemma {:induction false} SameChoices(parse: Parser, b1: string, b2: string, additions: seq<Addition>,
                    d1: seq<string>, d2: seq<string>, now: Option<int>)
    requires |Pem.FromPem(b1)| >= MINIMUM_SHIPPED <==> |Pem.FromPem(b2)| >= MINIMUM_SHIPPED
    requires forall e ::
               Chosen(Candidates(parse, Pem.FromPem(b1), additions, now), Map(NormaliseFingerprint, d1), e) <==>
               Chosen(Candidates(parse, Pem.FromPem(b2), additions, now), Map(NormaliseFingerprint, d2), e)
    ensures SameRoots(Compose(parse, b1, additions, d1, now), Compose(parse, b2, additions, d2, now))
  {
    hide Compose, Chosen, Increasing, Candidates, Map;
    ComposeIsDeclarative(parse, b1, additions, d1, now);
    ComposeIsDeclarative(parse, b2, additions, d2, now);
    ComposeSucceeds(parse, b1, additions, d1, now);
    ComposeSucceeds(parse, b2, additions, d2, now);
    var r, s := Compose(parse, b1, additions, d1, now), Compose(parse, b2, additions, d2, now);
    assert SomeChosen(Candidates(parse, Pem.FromPem(b1), additions, now), Map(NormaliseFingerprint, d1)) <==>
           SomeChosen(Candidates(parse, Pem.FromPem(b2), additions, now), Map(NormaliseFingerprint, d2));
    if r.Ok? && s.Ok? {
      IncreasingUnique(r.value.roots, s.value.roots);
    }
  }

  /** Distrusts that hold the same spellings, but for order, repetition, case and separators, leave the same roots. */
  lemma {:induction false} DistrustIsASet(parse: Parser, bundle: string, additions: seq<Addition>,
                       d1: seq<string>, d2: seq<string>, now: Option<int>)
    requires SameSpellings(d1, d2)
    ensures SameRoots(Compose(parse, bundle, additions, d1, now), Compose(parse, bundle, additions, d2, now))
  {
    hide Compose, Map, SameSpellings;
    SameSpellingsAgree(d1, d2);
    SameChoices(parse, bundle, bundle, additions, d1, d2, now);
  }

  /** The parser gives two different certificates different fingerprints. */
  ghost predicate FingerprintsIdentify(parse: Parser) {
    forall a, b, m, n | parse(a, m).Ok? && parse(b, n).Ok? ::
      parse(a, m).value.fingerprint == parse(b, n).value.fingerprint ==> a == b
  }

  lemma {:induction false} ShippedMembers(parse: Parser, ders: seq<Der>, e: Entry)
    ensures e in ShippedCandidates(parse, ders) <==>
              exists d :: d in ders && parse(d, None).Ok? && e == ShippedEntry(parse(d, None).value)
  {
    if ders != [] {
      ShippedMembers(parse, ders[1..], e);
      assert ders == [ders[0]] + ders[1..];
    }
  }

  /** With identifying fingerprints a shipped candidate is chosen if it is not distrusted; position is nothing. */
  lemma ChosenByMembership(parse: Parser, ders: seq<Der>, added: seq<Entry>, denied: seq<string>, e: Entry)
    requires FingerprintsIdentify(parse)
    ensures var shipped := ShippedCandidates(parse, ders);
            Chosen(shipped + added, denied, e) <==>
              && e.parsed.fingerprint !in denied
              && (e in shipped
                  || ((forall x | x in shipped :: x.parsed.fingerprint != e.parsed.fingerprint)
                      && exists i :: FirstAt(added, e, i)))
  {
    var shipped := ShippedCandidates(parse, ders);
    var all := shipped + added;
    if e.parsed.fingerprint !in denied {
      if i :| FirstAt(all, e, i) {
        if i >= |shipped| {
          forall x | x in shipped ensures x.parsed.fingerprint != e.parsed.fingerprint {
            var j :| 0 <= j < |shipped| && shipped[j] == x;
            assert all[j] == x;
          }
          assert forall j | 0 <= j < |added| :: added[j] == all[|shipped| + j];
          assert FirstAt(added, e, i - |shipped|);
        } else {
          assert shipped[i] == e;
        }
      }
      if e in shipped {
        FirstExists(shipped, denied, e);
        var x :| Chosen(shipped, denied, x) && x.parsed.fingerprint == e.parsed.fingerprint;
        ShippedMembers(parse, ders, e);
        ShippedMembers(parse, ders, x);
        assert x == e;
        var i :| FirstAt(shipped, e, i);
        assert FirstAt(all, e, i);
      } else if (forall x | x in shipped :: x.parsed.fingerprint != e.parsed.fingerprint)
                && exists i :: FirstAt(added, e, i) {
        var i :| FirstAt(added, e, i);
        assert forall j | 0 <= j < |shipped| :: all[j] in shipped;
        assert FirstAt(all, e, |shipped| + i);
      }
    }
  }

  /** Permuting or repeating the bundle's blocks leaves the roots alone. */
  lemma {:induction false} BundleIsASet(parse: Parser, b1: string, b2: string, additions: seq<Addition>,
      distrust: seq<string>, now: Option<int>)
    requires FingerprintsIdentify(parse)
    requires |Pem.FromPem(b1)| >= MINIMUM_SHIPPED <==> |Pem.FromPem(b2)| >= MINIMUM_SHIPPED
    requires forall d :: d in Pem.FromPem(b1) <==> d in Pem.FromPem(b2)
    ensures SameRoots(Compose(parse, b1, additions, distrust, now), Compose(parse, b2, additions, distrust, now))
  {
    hide Compose, Chosen, Map, FingerprintsIdentify, ShippedCandidates, AddedCandidates;
    var denied := Map(NormaliseFingerprint, distrust);
    var added := AddedCandidates(parse, now, additions);
    forall e
      ensures Chosen(Candidates(parse, Pem.FromPem(b1), additions, now), denied, e) <==>
              Chosen(Candidates(parse, Pem.FromPem(b2), additions, now), denied, e)
    {
      forall x ensures x in ShippedCandidates(parse, Pem.FromPem(b1)) <==> x in ShippedCandidates(parse,
          Pem.FromPem(b2)) {
        ShippedMembers(parse, Pem.FromPem(b1), x);
        ShippedMembers(parse, Pem.FromPem(b2), x);
      }
      ChosenByMembership(parse, Pem.FromPem(b1), added, denied, e);
      ChosenByMembership(parse, Pem.FromPem(b2), added, denied, e);
    }
    SameChoices(parse, b1, b2, additions, distrust, distrust, now);
  }

  function Without(roots: seq<Entry>, fingerprint: string): (r: seq<Entry>)
    ensures forall e :: e in r <==> e in roots && e.parsed.fingerprint != fingerprint
  {
    if roots == [] then []
    else (if roots[0].parsed.fingerprint == fingerprint then [] else [roots[0]]) + Without(roots[1..], fingerprint)
  }

  lemma {:induction false} WithoutIncreasing(roots: seq<Entry>, fingerprint: string)
    requires Increasing(roots)
    ensures Increasing(Without(roots, fingerprint))
  {
    if roots != [] {
      hide TextLe;
      WithoutIncreasing(roots[1..], fingerprint);
      var rest := Without(roots[1..], fingerprint);
      forall e | e in rest
        ensures TextLe(roots[0].parsed.fingerprint, e.parsed.fingerprint)
        ensures roots[0].parsed.fingerprint != e.parsed.fingerprint
      {
        assert e in roots[1..];
        var k :| 0 <= k < |roots| - 1 && roots[1..][k] == e;
        assert roots[k + 1] == e;
      }
      FirstIncreasing(roots[0], rest);
      assert [] + rest == rest;
    }
  }

  lemma FirstIncreasing(first: Entry, rest: seq<Entry>)
    requires Increasing(rest)
    requires forall e | e in rest :: && TextLe(first.parsed.fingerprint, e.parsed.fingerprint)
                                     && first.parsed.fingerprint != e.parsed.fingerprint
    ensures Increasing([first] + rest)
  {
    hide TextLe;
  }

  /** One more distrust takes out exactly the root it names, and only an emptied store refuses. */
  lemma {:induction false} DistrustIsExact(parse: Parser, bundle: string, additions: seq<Addition>,
      distrust: seq<string>,
                        extra: string, now: Option<int>)
    ensures
      match Compose(parse, bundle, additions, distrust, now)
      case Err(e) => Compose(parse, bundle, additions, distrust + [extra], now) == Err(e)
      case Ok(c) =>
        var kept := Without(c.roots, NormaliseFingerprint(extra));
        if kept == [] then Compose(parse, bundle, additions, distrust + [extra], now) == Err(NothingLeft)
        else && Compose(parse, bundle, additions, distrust + [extra], now).Ok?
             && Compose(parse, bundle, additions, distrust + [extra], now).value.roots == kept
  {
    hide Compose, Increasing, Map, Candidates, NormaliseFingerprint;
    var candidates := Candidates(parse, Pem.FromPem(bundle), additions, now);
    var denied, more := Map(NormaliseFingerprint, distrust), Map(NormaliseFingerprint, distrust + [extra]);
    var n := NormaliseFingerprint(extra);
    MoreDenied(distrust, extra);
    ComposeIsDeclarative(parse, bundle, additions, distrust, now);
    ComposeIsDeclarative(parse, bundle, additions, distrust + [extra], now);
    var r, s := Compose(parse, bundle, additions, distrust, now),
                Compose(parse, bundle, additions, distrust + [extra], now);
    assert forall e :: Chosen(candidates, more, e) <==> Chosen(candidates, denied, e) && e.parsed.fingerprint != n;
    hide Chosen;
    ComposeSucceeds(parse, bundle, additions, distrust, now);
    ComposeSucceeds(parse, bundle, additions, distrust + [extra], now);
    if r.Ok? {
      var kept := Without(r.value.roots, n);
      WithoutIncreasing(r.value.roots, n);
      assert SomeChosen(candidates, more) <==> kept != [] by {
        assert kept != [] ==> Chosen(candidates, more, kept[0]);
        assert forall e :: Chosen(candidates, more, e) ==> e in kept;
      }
      if s.Ok? {
        IncreasingUnique(s.value.roots, kept);
      }
    }
  }

  lemma {:induction false} MoreDenied(distrust: seq<string>, extra: string)
    ensures forall f :: f in Map(NormaliseFingerprint, distrust + [extra]) <==>
              f in Map(NormaliseFingerprint, distrust) || f == NormaliseFingerprint(extra)
  {
    hide Map, NormaliseFingerprint;
    var m := Map(NormaliseFingerprint, distrust + [extra]);
    assert m == Map(NormaliseFingerprint, distrust) + [NormaliseFingerprint(extra)];
  }

  /** A distrust is reported as matching nothing exactly when no certificate met had its fingerprint. */
  lemma {:induction false} UnmatchedReported(parse: Parser, bundle: string, additions: seq<Addition>,
      distrust: seq<string>,
                          now: Option<int>, f: string)
    requires Compose(parse, bundle, additions, distrust, now).Ok?
    ensures UnmatchedDistrust(f) in Compose(parse, bundle, additions, distrust, now).value.warnings <==>
              && f in Map(NormaliseFingerprint, distrust)
              && forall c | c in Candidates(parse, Pem.FromPem(bundle), additions, now) :: c.parsed.fingerprint != f
  {
    var blocks := Pem.FromPem(bundle);
    var denied := Map(NormaliseFingerprint, distrust);
    var w1 := AllShipped(parse, denied, START, blocks);
    var w2 := AllAdditions(parse, now, denied, w1, additions);
    var candidates := Candidates(parse, blocks, additions, now);
    hide AllShipped, AllAdditions, AllUnmatched, Chosen, Map, Sort;
    ShippedQuiet(parse, denied, START, blocks, f);
    AdditionsQuiet(parse, now, denied, w1, additions, f);
    UnmatchedWarns(w2, denied, f);
    NothingAccumulated(denied);
    ShippedAccumulate(parse, denied, START, [], blocks);
    assert [] + ShippedCandidates(parse, blocks) == ShippedCandidates(parse, blocks);
    AdditionsAccumulate(parse, now, denied, w1, ShippedCandidates(parse, blocks), additions);
    SeenAreCandidates(w2, candidates, denied, f);
  }

  lemma SeenAreCandidates(w: Work, candidates: seq<Entry>, denied: seq<string>, f: string)
    requires Accumulated(w, candidates, denied)
    ensures f in w.seen <==> exists c :: c in candidates && c.parsed.fingerprint == f
  {
    if c :| c in candidates && c.parsed.fingerprint == f {
      var i :| 0 <= i < |candidates| && candidates[i] == c;
      assert w.seen[i] == f;
    }
  }

  lemma {:induction false} ShippedQuiet(parse: Parser, denied: seq<string>, w: Work, ders: seq<Der>, f: string)
    ensures UnmatchedDistrust(f) in AllShipped(parse, denied, w, ders).out.warnings <==>
            UnmatchedDistrust(f) in w.out.warnings
    decreases |ders|
  {
    if ders != [] {
      ShippedQuiet(parse, denied, AddShipped(parse, denied, w, ders[0]), ders[1..], f);
    }
  }

  lemma {:induction false} AdditionsQuiet(parse: Parser, now: Option<int>, denied: seq<string>, w: Work,
                                          additions: seq<Addition>, f: string)
    ensures UnmatchedDistrust(f) in AllAdditions(parse, now, denied, w, additions).out.warnings <==>
            UnmatchedDistrust(f) in w.out.warnings
    decreases |additions|
  {
    if additions != [] {
      AdditionsQuiet(parse, now, denied, AddAddition(parse, now, denied, w, additions[0]), additions[1..], f);
    }
  }

  lemma {:induction false} UnmatchedWarns(w: Work, denied: seq<string>, f: string)
    ensures UnmatchedDistrust(f) in AllUnmatched(w, denied).out.warnings <==>
              UnmatchedDistrust(f) in w.out.warnings || (f in denied && f !in w.seen)
    decreases |denied|
  {
    if denied != [] {
      assert denied == [denied[0]] + denied[1..];
      UnmatchedWarns(if denied[0] in w.seen then w else Warn(w, UnmatchedDistrust(denied[0])), denied[1..], f);
    }
  }
}
