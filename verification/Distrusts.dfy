/**
  When a distrust takes hold. It leaves the set, the files and what subscribers hold with the first composition made
  under it, and not before: exactly which steps those are, and what a distrust that is loaded without one leaves in
  place.
 */
module Distrusts {
  import opened Basics
  import opened Spelling
  import opened Store
  import opened Messages
  import opened Rendering
  import opened Install
  import opened Daemon
  import opened Runs
  import Audit
  import Leftovers
  import Pem
  import Service

  // ---------------------------------------------------------------- in good health

  ghost predicate Undenied(roots: seq<Entry>, distrust: seq<string>) {
    forall e | e in roots :: e.parsed.fingerprint !in Audit.Denied(distrust)
  }

  lemma {:induction false} ComposedUndenied(parse: Parser, bundle: string, config: Config, now: Option<int>)
    ensures var r := Compose(parse, bundle, config.additions, config.distrust, now);
            r.Ok? ==> Undenied(r.value.roots, config.distrust)
  {
    var r := Compose(parse, bundle, config.additions, config.distrust, now);
    hide Compose, Increasing, FirstAt, Map, Candidates;
    ComposeIsDeclarative(parse, bundle, config.additions, config.distrust, now);
    DeniedIsMapped(config.distrust);
  }

  lemma {:induction false} DeniedIsMapped(distrust: seq<string>)
    ensures forall f | f in Audit.Denied(distrust) :: f in Map(NormaliseFingerprint, distrust)
  {
    hide Map, NormaliseFingerprint;
    var mapped := Map(NormaliseFingerprint, distrust);
    forall f | f in Audit.Denied(distrust) ensures f in mapped {
      var d :| d in distrust && NormaliseFingerprint(d) == f;
      var i :| 0 <= i < |distrust| && distrust[i] == d;
      assert mapped[i] == f;
    }
  }

  lemma {:induction false} StepUndenied(parse: Parser, lazy: bool, s: State, v: Event)
    requires s.health == HealthOk ==> Undenied(s.composed.roots, s.config.distrust)
    ensures var t := Step(parse, lazy, s, v); t.health == HealthOk ==> Undenied(t.composed.roots, t.config.distrust)
  {
    hide Compose, Undenied, Delivered, Project, RenderedPaths, Audit.Changes;
    if !v.Departed? && v.found.config.Some? && v.found.bundle.Some? {
      ComposedUndenied(parse, v.found.bundle.value, v.found.config.value, v.found.now);
    }
  }

  lemma {:induction false} RunUndenied(parse: Parser, lazy: bool, config: Config, files: Disk, events: seq<Event>)
    ensures var s := Run(parse, lazy, Start(config, files), events);
            s.health == HealthOk ==> Undenied(s.composed.roots, s.config.distrust)
  {
    hide Step;
    if events != [] {
      var front := events[..|events| - 1];
      RunUndenied(parse, lazy, config, files, front);
      StepUndenied(parse, lazy, Run(parse, lazy, Start(config, files), front), events[|events| - 1]);
    }
  }

  lemma {:induction false} ProjectedFrom(roots: seq<Entry>, withDer: bool, r: Root)
    requires r in Project(roots, withDer, None)
    ensures exists e :: e in roots && e.parsed.fingerprint == r.fingerprint
  {
    if r in Project(roots[1..], withDer, None) {
      ProjectedFrom(roots[1..], withDer, r);
      var e :| e in roots[1..] && e.parsed.fingerprint == r.fingerprint;
      assert e in roots;
    } else {
      assert roots[0] in roots;
    }
  }

  /**
    Distrust is absolute in good health: no current root bears a fingerprint that is distrusted, nor any root rendered,
    nor any in the last snapshot of a listed subscriber.
   */
  lemma {:induction false} DistrustIsAbsolute(parse: Parser, config: Config, files: Disk, events: seq<Event>)
    requires AllPossible(parse, events)
    ensures var s := Run(parse, true, Start(config, files), events);
            s.health == HealthOk ==>
              && Undenied(s.composed.roots, s.config.distrust)
              && (s.composedOnce ==>
                    && Rendered(s.files.dirs, s.files.certPem, s.composed.roots, s.config.compat)
                    && Undenied(ServerAuth(s.composed.roots), s.config.distrust))
              && forall b, r | b in s.subscribers && b.delivered != [] && r in b.delivered[|b.delivered| - 1].roots ::
                   r.fingerprint !in Audit.Denied(s.config.distrust)
  {
    hide Run, Rendered, Project, AllPossible;
    var s := Run(parse, true, Start(config, files), events);
    RunUndenied(parse, true, config, files, events);
    HealthMeansRendered(parse, config, files, events);
    SubscribersAreCurrent(parse, config, files, events);
    if s.health == HealthOk {
      forall b, r | b in s.subscribers && b.delivered != [] && r in b.delivered[|b.delivered| - 1].roots
        ensures r.fingerprint !in Audit.Denied(s.config.distrust)
      {
        assert Current(s, b);
        ProjectedFrom(s.composed.roots, b.withDer, r);
      }
    }
  }

  // ---------------------------------------------------------------- at every step

  /** The event takes a new configuration, and with it a new list of distrusts. */
  predicate Loads(v: Event) {
    && !v.Departed? && (v.Handled? ==> v.permitted && v.request.Reload?)
    && v.found.config.Some?
  }

  /** No root sent in this snapshot is distrusted. */
  ghost predicate Heeds(snapshot: Snapshot, distrust: seq<string>) {
    forall r | r in snapshot.roots :: r.fingerprint !in Audit.Denied(distrust)
  }

  lemma {:induction false} ProjectedHeeds(s: State, withDer: bool, distrust: seq<string>)
    ensures Heeds(CurrentSnapshot(s, withDer), distrust) <==> Undenied(s.composed.roots, distrust)
  {
    hide Project;
    var roots := s.composed.roots;
    forall r | r in Project(roots, withDer, None)
      ensures exists e :: e in roots && e.parsed.fingerprint == r.fingerprint
    {
      ProjectedFrom(roots, withDer, r);
    }
    forall e | e in roots ensures ToRoot(e, withDer) in Project(roots, withDer, None) {
      ProjectedTo(roots, withDer, e);
    }
    assert forall e :: ToRoot(e, withDer).fingerprint == e.parsed.fingerprint;
  }

  lemma {:induction false} ProjectedTo(roots: seq<Entry>, withDer: bool, e: Entry)
    requires e in roots
    ensures ToRoot(e, withDer) in Project(roots, withDer, None)
  {
    if e != roots[0] {
      ProjectedTo(roots[1..], withDer, e);
    }
  }

  lemma {:induction false} StepTakesHold(parse: Parser, lazy: bool, s: State, v: Event)
    requires Loads(v)
    ensures var t, distrust := Step(parse, lazy, s, v), v.found.config.value.distrust;
            && t.config == v.found.config.value
            && (Undenied(t.composed.roots, distrust)
                <==> Composes(parse, v).Some? || Undenied(s.composed.roots, distrust))
  {
    hide Compose, Undenied, Delivered, Project, RenderedPaths, Audit.Changes;
    if v.found.bundle.Some? {
      ComposedUndenied(parse, v.found.bundle.value, v.found.config.value, v.found.now);
    }
  }

  lemma {:induction false} RunMore(parse: Parser, config: Config, files: Disk, events: seq<Event>, v: Event)
    ensures Run(parse, true, Start(config, files), events + [v])
            == Step(parse, true, Run(parse, true, Start(config, files), events), v)
  {
    hide Step;
    assert (events + [v])[..|events|] == events;
  }

  /**
    After any run, a distrust that is loaded takes hold of the set, and of what every listed subscriber has been sent
    last, exactly when the set can be composed then, or held no such root anyway.
   */
  lemma {:induction false} DistrustTakesHold(parse: Parser, config: Config, files: Disk, events: seq<Event>, v: Event)
    requires AllPossible(parse, events + [v]) && Loads(v)
    ensures var s := Run(parse, true, Start(config, files), events);
            var t := Run(parse, true, Start(config, files), events + [v]);
            var distrust := v.found.config.value.distrust;
            var heeded := Composes(parse, v).Some? || Undenied(s.composed.roots, distrust);
            && t.config.distrust == distrust
            && (Undenied(t.composed.roots, distrust) <==> heeded)
            && forall b | b in t.subscribers ::
                 b.delivered != [] && (Heeds(b.delivered[|b.delivered| - 1], distrust) <==> heeded)
  {
    hide Run, Step, Undenied, Project, AllPossible, Composes, Heeds;
    RunMore(parse, config, files, events, v);
    var s := Run(parse, true, Start(config, files), events);
    var t := Run(parse, true, Start(config, files), events + [v]);
    StepTakesHold(parse, true, s, v);
    SubscribersAreCurrent(parse, config, files, events + [v]);
    ProjectedHeeds(t, true, v.found.config.value.distrust);
    ProjectedHeeds(t, false, v.found.config.value.distrust);
    forall b | b in t.subscribers
      ensures b.delivered != [] && b.delivered[|b.delivered| - 1] == CurrentSnapshot(t, b.withDer)
    {
      assert Current(t, b);
    }
  }

  // ---------------------------------------------------------------- in the files

  /** A certificate is distrusted when it parses to a fingerprint on the list. */
  ghost predicate Distrusted(parse: Parser, distrust: seq<string>, der: Der) {
    exists now :: parse(der, now).Ok? && parse(der, now).value.fingerprint in Audit.Denied(distrust)
  }

  /** Reading the text gives no distrusted certificate. */
  ghost predicate TextHeeds(parse: Parser, text: string, distrust: seq<string>) {
    forall der | der in Pem.FromPem(text) :: !Distrusted(parse, distrust, der)
  }

  ghost predicate FileHeeds(parse: Parser, file: Option<string>, distrust: seq<string>) {
    file.Some? ==> TextHeeds(parse, file.value, distrust)
  }

  ghost predicate DirHeeds(parse: Parser, dir: Option<Dir>, distrust: seq<string>) {
    dir.Some? ==> forall name | name in dir.value && dir.value[name].File? ::
      TextHeeds(parse, dir.value[name].text, distrust)
  }

  /** No root's comments spell a distrusted certificate. */
  ghost predicate CommentsHeed(parse: Parser, roots: seq<Entry>, distrust: seq<string>) {
    forall e | e in roots :: TextHeeds(parse, Comments(e), distrust)
  }

  /** Parsing keeps the certificate, and the clock has no part in its fingerprint. */
  ghost predicate Steady(parse: Parser) {
    forall der, m, n | parse(der, m).Ok? && parse(der, n).Ok? ::
      parse(der, m).value.der == der && parse(der, m).value.fingerprint == parse(der, n).value.fingerprint
  }

  ghost predicate AllParsed(parse: Parser, roots: seq<Entry>) {
    forall e | e in roots :: FromParser(parse, e)
  }

  ghost predicate FromParser(parse: Parser, e: Entry) {
    exists der, now :: parse(der, now).Ok? && e.parsed == parse(der, now).value
  }

  lemma {:induction false} CandidatesParsed(parse: Parser, ders: seq<Der>, additions: seq<Addition>, now: Option<int>)
    ensures AllParsed(parse, ShippedCandidates(parse, ders)) && AllParsed(parse, AddedCandidates(parse, now, additions))
    decreases |ders| + |additions|
  {
    if ders != [] {
      CandidatesParsed(parse, ders[1..], [], now);
      assert parse(ders[0], None).Ok? ==> FromParser(parse, ShippedEntry(parse(ders[0], None).value));
    }
    if additions != [] {
      CandidatesParsed(parse, [], additions[1..], now);
      var a := additions[0];
      assert parse(a.der, now).Ok? ==> FromParser(parse, AddedEntry(a, parse(a.der, now).value));
    }
  }

  lemma {:induction false} ComposedParsed(parse: Parser, bundle: string, config: Config, now: Option<int>)
    ensures var r := Compose(parse, bundle, config.additions, config.distrust, now);
            r.Ok? ==> AllParsed(parse, r.value.roots)
  {
    var r := Compose(parse, bundle, config.additions, config.distrust, now);
    var ders := Pem.FromPem(bundle);
    var candidates := Candidates(parse, ders, config.additions, now);
    hide Compose, Increasing, Map, FromParser, ShippedCandidates, AddedCandidates, Chosen;
    ComposeIsDeclarative(parse, bundle, config.additions, config.distrust, now);
    CandidatesParsed(parse, ders, config.additions, now);
    if r.Ok? {
      forall e | e in r.value.roots ensures e in candidates {
        ChosenIsCandidate(candidates, Map(NormaliseFingerprint, config.distrust), e);
      }
    }
  }

  lemma {:induction false} OwnDerHeeds(parse: Parser, e: Entry, distrust: seq<string>)
    requires Steady(parse) && FromParser(parse, e) && e.parsed.fingerprint !in Audit.Denied(distrust)
    ensures !Distrusted(parse, distrust, e.parsed.der)
  {
    var der, now :| parse(der, now).Ok? && e.parsed == parse(der, now).value;
    assert e.parsed.der == der;
  }

  lemma {:induction false} FoundMembers(roots: seq<Entry>, der: Der)
    ensures der in Found(roots)
       <==> exists e :: e in roots && (der in Pem.FromPem(Comments(e)) || der == e.parsed.der)
  {
    hide Comments, Pem.FromPem;
    if roots != [] {
      FoundMembers(roots[1..], der);
      assert roots[0] in roots && forall e | e in roots :: e == roots[0] || e in roots[1..];
    }
  }

  /** A rendered bundle heeds the distrusts its roots do, unless a comment spells a distrusted certificate. */
  lemma {:induction false} BundleHeeds(parse: Parser, roots: seq<Entry>, distrust: seq<string>)
    requires Steady(parse) && AllParsed(parse, roots) && Undenied(roots, distrust)
    ensures TextHeeds(parse, Bundle(roots), distrust) <==> CommentsHeed(parse, roots, distrust)
  {
    hide Comments, Found, Header, Blocks, Pem.FromPem, Distrusted, FromParser, Steady, Audit.Denied;
    HeaderIgnored(roots, Blocks(roots));
    BlocksFound(roots);
    forall der ensures der in Found(roots)
                  <==> exists e :: e in roots && (der in Pem.FromPem(Comments(e)) || der == e.parsed.der)
    {
      FoundMembers(roots, der);
    }
    forall e | e in roots ensures !Distrusted(parse, distrust, e.parsed.der) {
      OwnDerHeeds(parse, e, distrust);
    }
  }

  lemma {:induction false} OwnFileHeeds(parse: Parser, e: Entry, distrust: seq<string>)
    requires Steady(parse) && FromParser(parse, e) && e.parsed.fingerprint !in Audit.Denied(distrust)
    ensures TextHeeds(parse, Pem.ToPem(e.parsed.der), distrust)
  {
    assert Pem.FromPem("") == [] by { NoText(); }
    hide Pem.FromPem, Pem.ToPem, Distrusted, FromParser, Steady;
    OwnDerHeeds(parse, e, distrust);
    Pem.Resynchronises("", e.parsed.der, "");
    assert "" + Pem.ToPem(e.parsed.der) + "" == Pem.ToPem(e.parsed.der);
  }

  lemma {:induction false} HashedHeeds(parse: Parser, roots: seq<Entry>, base: Dir, distrust: seq<string>)
    requires Steady(parse) && AllParsed(parse, roots) && Undenied(roots, distrust)
    ensures DirHeeds(parse, Some(base), distrust) ==> DirHeeds(parse, Some(Hashed(roots, base)), distrust)
  {
    hide HashedName, CountHash, Pem.ToPem, TextHeeds, FromParser, Steady, Audit.Denied;
    if roots != [] {
      var front, e := roots[..|roots| - 1], roots[|roots| - 1];
      assert e in roots && forall x | x in front :: x in roots;
      HashedHeeds(parse, front, base, distrust);
      OwnFileHeeds(parse, e, distrust);
    }
  }

  lemma {:induction false} CertsDirHeeds(parse: Parser, roots: seq<Entry>, distrust: seq<string>)
    requires EightDigits(roots) && Steady(parse) && AllParsed(parse, roots) && Undenied(roots, distrust)
    ensures DirHeeds(parse, Some(CertsDir(roots)), distrust) <==> CommentsHeed(parse, roots, distrust)
  {
    hide Bundle, Hashed, LooksUp, EightDigits, BUNDLE_NAME, TextHeeds, CommentsHeed, AllParsed, Undenied, Steady;
    CertsDirExact(roots);
    BundleHeeds(parse, roots, distrust);
    HashedHeeds(parse, roots, map[BUNDLE_NAME := File(Bundle(roots))], distrust);
  }

  /** The event's rendering is made and succeeds, or there is none to make. */
  predicate WrittenOut(parse: Parser, s: State, v: Event) {
    Composes(parse, v).Some? && (!Announces(parse, s, v) || v.renders(s.files).ok)
  }

  /** The event's rendering fails, and this is the disk it leaves. */
  function Failing(parse: Parser, s: State, v: Event): Option<Disk> {
    if Announces(parse, s, v) && !v.renders(s.files).ok then Some(v.renders(s.files).files) else None
  }

  /** What a step leaves on disk. */
  lemma {:induction false} StepWrites(parse: Parser, s: State, v: Event)
    requires Invariant(s) && Possible(parse, v) && Loads(v)
    ensures var t := Step(parse, true, s, v);
            var compat := v.found.config.value.compat;
            && (WrittenOut(parse, s, v) ==> Rendered(t.files.dirs, t.files.certPem, t.composed.roots, compat))
            && (Failing(parse, s, v).Some? ==>
                  && t.files == Failing(parse, s, v).value
                  && TrueRendition(t.composed.roots, compat, s.files, Rendition(false, t.files)))
            && (!WrittenOut(parse, s, v) && Failing(parse, s, v).None? ==> t.files == s.files)
  {
    hide Compose, CertsDir, Bundle, ServerAuth, Delivered, Project, RenderedPaths, Audit.Changes, Increasing, Within;
    if Composes(parse, v).Some? {
      var composed := Composes(parse, v).value;
      ComposedRoots(parse, v.found.bundle.value, v.found.config.value, v.found.now);
      assert TrueRendition(composed.roots, v.found.config.value.compat, s.files, v.renders(s.files));
    }
  }

  lemma {:induction false} WrittenParsed(parse: Parser, s: State, v: Event)
    requires Composes(parse, v).Some?
    ensures var t := Step(parse, true, s, v);
            && t.composed == Composes(parse, v).value
            && AllParsed(parse, ServerAuth(t.composed.roots))
            && Undenied(ServerAuth(t.composed.roots), v.found.config.value.distrust)
            && (Service.PrintsHashes(parse) ==> EightDigits(ServerAuth(t.composed.roots)))
  {
    hide Compose, FromParser, Delivered, Project, RenderedPaths, Audit.Changes, Audit.Denied, Service.PrintsHashes,
         EightDigits;
    var loaded := v.found.config.value;
    ComposedParsed(parse, v.found.bundle.value, loaded, v.found.now);
    ComposedUndenied(parse, v.found.bundle.value, loaded, v.found.now);
    if Service.PrintsHashes(parse) {
      Leftovers.ComposesDigits(parse, v);
    }
  }

  /**
    A distrust that is loaded takes hold of the single file exactly when the file is written or taken away then, and no
    comment spells a distrusted certificate in it; a file that is left as it is heeds what it did.
   */
  ghost predicate FileTakesHold(parse: Parser, s: State, v: Event, t: State)
    requires Loads(v)
  {
    var loaded := v.found.config.value;
    var failing := Failing(parse, s, v);
    FileHeeds(parse, t.files.certPem, loaded.distrust)
    <==> if WrittenOut(parse, s, v) then
           loaded.compat.NoFiles? || CommentsHeed(parse, ServerAuth(t.composed.roots), loaded.distrust)
         else
           || (failing.Some? && failing.value.certPem == None)
           || FileHeeds(parse, s.files.certPem, loaded.distrust)
  }

  lemma {:induction false} StepHeedsFile(parse: Parser, s: State, v: Event)
    requires Invariant(s) && Possible(parse, v) && Loads(v) && Steady(parse)
    ensures FileTakesHold(parse, s, v, Step(parse, true, s, v))
  {
    hide Composes, Step, Invariant, Possible, Announces, Steady, CertsDir, Bundle, ServerAuth, TextHeeds, CommentsHeed,
         AllParsed, Undenied, Within, EightDigits, Service.PrintsHashes;
    StepWrites(parse, s, v);
    if Composes(parse, v).Some? {
      WrittenParsed(parse, s, v);
      BundleHeeds(parse, ServerAuth(Step(parse, true, s, v).composed.roots), v.found.config.value.distrust);
    }
  }

  lemma {:induction false} PartHeeds(parse: Parser, part: Dir, whole: Dir, distrust: seq<string>)
    requires Within(part, whole) && DirHeeds(parse, Some(whole), distrust)
    ensures DirHeeds(parse, Some(part), distrust)
  {
    hide TextHeeds;
  }

  /** The same of the directory; what a withdrawal that fails leaves is part of what was there. */
  ghost predicate DirTakesHold(parse: Parser, s: State, v: Event, t: State)
    requires Loads(v)
  {
    var loaded := v.found.config.value;
    var failing := Failing(parse, s, v);
    var comments := CommentsHeed(parse, ServerAuth(t.composed.roots), loaded.distrust);
    var was := DirHeeds(parse, s.files.dirs.live, loaded.distrust);
    var heeded := DirHeeds(parse, t.files.dirs.live, loaded.distrust);
    if loaded.compat.NoFiles? then (WrittenOut(parse, s, v) ==> heeded) && (was ==> heeded)
    else
      heeded <==> if WrittenOut(parse, s, v) then comments
                  else if failing.Some? && failing.value.dirs.live != s.files.dirs.live then
                    failing.value.dirs.live == None || comments
                  else was
  }

  lemma {:induction false} StepHeedsDir(parse: Parser, s: State, v: Event)
    requires Invariant(s) && Possible(parse, v) && Loads(v) && Steady(parse) && Service.PrintsHashes(parse)
    ensures DirTakesHold(parse, s, v, Step(parse, true, s, v))
  {
    hide Composes, Step, Invariant, Possible, Unchanged, Steady, CertsDir, Bundle, ServerAuth, TextHeeds, CommentsHeed,
         AllParsed, Undenied, Within, EightDigits, Service.PrintsHashes;
    var t := Step(parse, true, s, v);
    StepWrites(parse, s, v);
    if Composes(parse, v).Some? {
      WrittenParsed(parse, s, v);
      CertsDirHeeds(parse, ServerAuth(t.composed.roots), v.found.config.value.distrust);
    }
    if s.files.dirs.live.Some? && t.files.dirs.live.Some?
       && Within(t.files.dirs.live.value, s.files.dirs.live.value)
       && DirHeeds(parse, s.files.dirs.live, v.found.config.value.distrust) {
      PartHeeds(parse, t.files.dirs.live.value, s.files.dirs.live.value, v.found.config.value.distrust);
    }
  }

  /** After any run, this is when a distrust that is loaded takes hold of the files. */
  lemma {:induction false} DistrustReachesFiles(parse: Parser, config: Config, files: Disk, events: seq<Event>,
                                                v: Event)
    requires AllPossible(parse, events + [v]) && Loads(v) && Steady(parse) && Service.PrintsHashes(parse)
    ensures var s := Run(parse, true, Start(config, files), events);
            var t := Run(parse, true, Start(config, files), events + [v]);
            FileTakesHold(parse, s, v, t) && DirTakesHold(parse, s, v, t)
  {
    hide Run, Step, Invariant, Possible, Loads, Steady, FileTakesHold, DirTakesHold, Service.PrintsHashes;
    RunMore(parse, config, files, events, v);
    var s := Run(parse, true, Start(config, files), events);
    assert v in events + [v] && forall u | u in events :: u in events + [v];
    RunKeeps(parse, true, config, files, events);
    StepHeedsFile(parse, s, v);
    StepHeedsDir(parse, s, v);
  }

  lemma {:induction false} NoneSpellsHeeds(parse: Parser, roots: seq<Entry>, distrust: seq<string>)
    requires NoneSpells(roots)
    ensures CommentsHeed(parse, roots, distrust)
  {
    hide Pem.FromPem, Comments, CommentLines, Pem.SpellsBlock, Distrusted;
    forall e | e in roots ensures TextHeeds(parse, Comments(e), distrust) {
      CommentsSpell(e);
    }
  }

  // ---------------------------------------------------------------- a distrust that waits

  /** A refresh that finds the shipped bundle, and renders it. */
  function FirstRefresh(): Event {
    Leftovers.Filling(OneRoot, Refreshed(PlainInputs(Files), Emptied, NoneTaken))
  }

  /** A refresh that finds the one root distrusted, and the bundle unreadable. */
  function DistrustAlone(): Event {
    Refreshed(Inputs(Some(Config([], ["f"], Files, None)), None, None), Service.NotRendered, NoneTaken)
  }

  lemma {:induction false} PlainRoots()
    ensures var r := Compose(OneRoot, Repeated(MINIMUM_SHIPPED), [], [], None);
            r.Ok? && ShippedEntry(THE_ROOT) in r.value.roots
  {
    var r := Compose(OneRoot, Repeated(MINIMUM_SHIPPED), [], [], None);
    PlainCompose();
    var config := Config([], [], Files, None);
    ComposedRoots(OneRoot, Repeated(MINIMUM_SHIPPED), config, None);
    var ders := Pem.FromPem(Repeated(MINIMUM_SHIPPED));
    hide Compose, Repeated, Increasing, Chosen, Map, Pem.FromPem;
    ComposeIsDeclarative(OneRoot, Repeated(MINIMUM_SHIPPED), [], [], None);
    var e := r.value.roots[0];
    assert e in r.value.roots;
    ChosenIsCandidate(Candidates(OneRoot, ders, [], None), Map(NormaliseFingerprint, []), e);
    ShippedMembers(OneRoot, ders, e);
  }

  lemma {:induction false} TheRootIsDenied(roots: seq<Entry>)
    requires ShippedEntry(THE_ROOT) in roots
    ensures !Undenied(roots, ["f"]) && !FileHeeds(OneRoot, Some(Bundle(ServerAuth(roots))), ["f"])
  {
    assert NormaliseFingerprint("f") == "f" && "f" in ["f"];
    assert OneRoot([], None).value.fingerprint in Audit.Denied(["f"]);
    assert Distrusted(OneRoot, ["f"], []);
    TheRootServes(roots);
    hide Comments, Header, Blocks, Found, Pem.FromPem, Distrusted, Audit.Denied;
    var rendered := ServerAuth(roots);
    HeaderIgnored(rendered, Blocks(rendered));
    BlocksFound(rendered);
    FoundMembers(rendered, []);
  }

  lemma {:induction false} FirstStep(config: Config, files: Disk)
    ensures var t := Step(OneRoot, true, Start(config, files), FirstRefresh());
            && ShippedEntry(THE_ROOT) in t.composed.roots
            && t.files.certPem == Some(Bundle(ServerAuth(t.composed.roots)))
    ensures Possible(OneRoot, FirstRefresh())
  {
    PlainRoots();
    Leftovers.FillingIsPossible(OneRoot, Refreshed(PlainInputs(Files), Emptied, NoneTaken));
    hide Compose, Repeated, Bundle, CertsDir, AfterPublish, RenderedPaths, Audit.Changes, ForPurpose;
    forall u, sends ensures AfterPublish(u, sends) == u.(subscribers := AfterPublish(u, sends).subscribers) {
      PublishLeaves(u, sends);
    }
    var r := Compose(OneRoot, Repeated(MINIMUM_SHIPPED), [], [], None);
    TheRootServes(r.value.roots);
  }

  lemma TheRootServes(roots: seq<Entry>)
    requires ShippedEntry(THE_ROOT) in roots
    ensures ShippedEntry(THE_ROOT) in ServerAuth(roots)
  {
    var e := ShippedEntry(THE_ROOT);
    assert e.purposes == [SERVER_AUTH] && SERVER_AUTH in e.purposes;
  }

  lemma {:induction false} SecondStep(s: State)
    ensures var loaded := Config([], ["f"], Files, None);
            Step(OneRoot, true, s, DistrustAlone()) == Degrade(s.(config := loaded), NoBundle)
    ensures Possible(OneRoot, DistrustAlone()) && Loads(DistrustAlone())
  {}

  /** The distrusted root stays in use, and in the file, until the bundle can be read again. */
  lemma {:induction false} DistrustWaits(config: Config, files: Disk)
    ensures var events := [FirstRefresh(), DistrustAlone()];
            var t := Run(OneRoot, true, Start(config, files), events);
            && AllPossible(OneRoot, events) && Loads(DistrustAlone())
            && t.config.distrust == ["f"] && t.health == Degraded
            && !Undenied(t.composed.roots, ["f"]) && !FileHeeds(OneRoot, t.files.certPem, ["f"])
  {
    var start := Start(config, files);
    var once := Step(OneRoot, true, start, FirstRefresh());
    FirstStep(config, files);
    SecondStep(once);
    TheRootIsDenied(once.composed.roots);
    hide FileHeeds, Undenied, Run, Step, Possible, FirstRefresh, DistrustAlone;
    RunMore(OneRoot, config, files, [FirstRefresh()], DistrustAlone());
    RunMore(OneRoot, config, files, [], FirstRefresh());
    RunNothing(OneRoot, start);
    assert [FirstRefresh()] + [DistrustAlone()] == [FirstRefresh(), DistrustAlone()];
    assert [] + [FirstRefresh()] == [FirstRefresh()];
  }

  lemma RunNothing(parse: Parser, s: State)
    ensures Run(parse, true, s, []) == s
  {}
}
