/**
  trustd's state: what a refresh, a request and a departing subscriber do to it, and what holds over every run of them
  with any failures.
 */
module Daemon {
  import opened Basics
  import opened Store
  import opened Messages
  import opened Rendering
  import opened Install
  import opened Framing
  import opened Transfer
  import Audit

  datatype Config = Config(additions: seq<Addition>, distrust: seq<string>, compat: Compat,
                           controlSecurity: Option<seq<byte>>)

  /** Why the store is degraded. */
  datatype Why = BadConfiguration | NoBundle | BadStore(error: ComposeError) | RenderFailed

  /** A connection held open by `subscribe`: the snapshots sent on it whole, and every byte its socket has taken. */
  datatype Subscriber = Subscriber(withDer: bool, delivered: seq<Snapshot>, stream: seq<byte>)

  datatype Disk = Disk(dirs: Dirs, certPem: Option<string>)

  datatype State = State(config: Config, composed: Composed, generation: nat, health: Health, message: Option<Why>,
                         composedOnce: bool, subscribers: seq<Subscriber>, files: Disk,
                         rendered: seq<string>, log: seq<Audit.Event>)

  /** What one refresh finds: either reading may fail. */
  datatype Inputs = Inputs(config: Option<Config>, bundle: Option<string>, now: Option<int>)

  /** What one rendering comes to, and what it would come to on any disk it meets. */
  datatype Rendition = Rendition(ok: bool, files: Disk)
  type Renders = Disk -> Rendition

  /** What one send comes to, with the bytes the socket took, and what it would for each subscriber and snapshot. */
  datatype Send = Send(ok: bool, bytes: seq<byte>)
  type Sends = (nat, Snapshot) -> Send

  const BUNDLE_PATH: string := "certs/ca-certificates.crt"
  const CERT_PEM_PATH: string := "cert.pem"

  const NOTHING: Composed := Composed([], 0, 0, 0, 0, [])

  // ---------------------------------------------------------------- projections

  function ToRoot(e: Entry, withDer: bool): Root {
    Root(e.parsed.fingerprint, e.parsed.subject, e.purposes, e.source, e.name, e.parsed.notAfter,
         if withDer then e.parsed.der else [])
  }

  /** The wire form of a set, whole or for one purpose. */
  function Project(roots: seq<Entry>, withDer: bool, purpose: Option<string>): seq<Root> {
    if roots == [] then []
    else
      (if purpose.None? || ForPurpose(roots[0], purpose.value) then [ToRoot(roots[0], withDer)] else [])
      + Project(roots[1..], withDer, purpose)
  }

  /** The root in a reply is this entry: each of its fields, with the certificate exactly when it was asked for. */
  predicate Tells(e: Entry, withDer: bool, r: Root) {
    && r.fingerprint == e.parsed.fingerprint && r.subject == e.parsed.subject && r.notAfter == e.parsed.notAfter
    && r.purposes == e.purposes && r.source == e.source && r.name == e.name
    && (withDer ==> r.der == e.parsed.der) && (!withDer ==> r.der == [])
  }

  ghost predicate TellsAt(roots: seq<Entry>, at: seq<nat>, withDer: bool, told: seq<Root>) {
    |told| == |at| && forall i | 0 <= i < |at| :: at[i] < |roots| && Tells(roots[at[i]], withDer, told[i])
  }

  /** Exactly the roots with the purpose asked for, or all if none is, in the order of the set. */
  ghost predicate Told(roots: seq<Entry>, withDer: bool, purpose: Option<string>, told: seq<Root>) {
    exists at :: WantedAt(roots, purpose, at) && TellsAt(roots, at, withDer, told)
  }

  lemma {:induction false} TellsLater(roots: seq<Entry>, first: bool, at: seq<nat>, withDer: bool, told: seq<Root>)
    requires roots != [] && TellsAt(roots[1..], at, withDer, told)
    ensures TellsAt(roots, Later(first, at), withDer, (if first then [ToRoot(roots[0], withDer)] else []) + told)
  {}

  /** What a client is told of a set. */
  lemma {:induction false} ProjectTells(roots: seq<Entry>, withDer: bool, purpose: Option<string>)
    ensures Told(roots, withDer, purpose, Project(roots, withDer, purpose))
  {
    hide ForPurpose, Wanted, WantedAt, TellsAt, Later, ToRoot;
    if roots == [] {
      NoneWanted(purpose);
      NothingTold(withDer);
    } else {
      ProjectTells(roots[1..], withDer, purpose);
      var others := Project(roots[1..], withDer, purpose);
      var at :| WantedAt(roots[1..], purpose, at) && TellsAt(roots[1..], at, withDer, others);
      WantedOne(roots[0], purpose);
      WantedLater(roots, purpose, at);
      TellsLater(roots, Wanted(roots[0], purpose), at, withDer, others);
    }
  }

  lemma WantedOne(e: Entry, purpose: Option<string>)
    ensures Wanted(e, purpose) <==> purpose.None? || ForPurpose(e, purpose.value)
  {
    if purpose.Some? {
      ForPurposeIsWanted(e, purpose.value);
    }
  }

  lemma NothingTold(withDer: bool)
    ensures TellsAt([], [], withDer, [])
  {}

  function CurrentSnapshot(s: State, withDer: bool): Snapshot {
    Snapshot(s.generation, Project(s.composed.roots, withDer, None))
  }

  // ---------------------------------------------------------------- steps

  function Start(config: Config, files: Disk): State {
    State(config, NOTHING, 0, HealthOk, None, false, [], files, [], [])
  }

  function Degrade(s: State, why: Why): State {
    s.(health := Degraded, message := Some(why))
  }

  /** The files a status reply lists: those that are there. */
  function RenderedPaths(files: Disk): seq<string> {
    (if files.dirs.live.Some? && BUNDLE_NAME in files.dirs.live.value then [BUNDLE_PATH] else [])
    + if files.certPem.Some? then [CERT_PEM_PATH] else []
  }

  function AfterRender(s: State, rendition: Rendition): State {
    var next := s.(files := rendition.files);
    if rendition.ok then next.(rendered := RenderedPaths(rendition.files)) else Degrade(next, RenderFailed)
  }

  /** The snapshot for this subscriber. */
  function Meant(b: Subscriber, withDer: Snapshot, without: Snapshot): Snapshot {
    if b.withDer then withDer else without
  }

  function AfterSend(b: Subscriber, snapshot: Snapshot, bytes: seq<byte>): Subscriber {
    b.(delivered := b.delivered + [snapshot], stream := b.stream + bytes)
  }

  /** Each subscriber that takes the new set whole is kept; the others are gone. */
  function Delivered(subscribers: seq<Subscriber>, withDer: Snapshot, without: Snapshot, sends: Sends): seq<Subscriber>
  {
    if subscribers == [] then []
    else
      var n := |subscribers| - 1;
      var b := subscribers[n];
      var snapshot := Meant(b, withDer, without);
      Delivered(subscribers[..n], withDer, without, sends)
      + if sends(n, snapshot).ok then [AfterSend(b, snapshot, sends(n, snapshot).bytes)] else []
  }

  function AfterPublish(s: State, sends: Sends): State {
    s.(subscribers := Delivered(s.subscribers, CurrentSnapshot(s, true), CurrentSnapshot(s, false), sends))
  }

  /** The state once a composition has succeeded, before anything is rendered. */
  function AfterCompose(s: State, loaded: Config, composed: Composed): State {
    s.(config := loaded, composed := composed, health := HealthOk, message := None, composedOnce := true,
       log := if s.composedOnce then s.log + Audit.Changes(s.composed.roots, composed.roots, loaded.distrust)
           else s.log)
  }

  /** Nothing to render or publish: the same roots and configuration, over a store in good health. */
  predicate Unchanged(s: State, loaded: Config, composed: Composed) {
    composed.roots == s.composed.roots && s.health == HealthOk && loaded == s.config
  }

  function AfterRefresh(parse: Parser, lazy: bool, s: State, found: Inputs, renders: Renders, sends: Sends): State {
    if found.config.None? then Degrade(s, BadConfiguration)
    else
      var loaded := found.config.value;
      if found.bundle.None? then Degrade(s.(config := loaded), NoBundle)
      else match Compose(parse, found.bundle.value, loaded.additions, loaded.distrust, found.now)
        case Err(e) => Degrade(s.(config := loaded), BadStore(e))
        case Ok(composed) =>
          var next := AfterCompose(s, loaded, composed);
          if lazy && Unchanged(s, loaded, composed) then next
          else AfterPublish(AfterRender(next.(generation := next.generation + 1), renders(s.files)), sends)
  }

  /**
    What a rendering of these roots may come to. Success leaves exactly the files it should. Failure leaves the live
    directory as it was, absent, or wholly new; but where the files are being withdrawn it may leave a part of them.
   */
  ghost predicate TrueRendition(roots: seq<Entry>, compat: Compat, before: Disk, r: Rendition) {
    if r.ok then Rendered(r.files.dirs, r.files.certPem, roots, compat)
    else if compat.NoFiles? then HalfWithdrawn(before.dirs, before.certPem, r.files.dirs, r.files.certPem)
    else
      && r.files.certPem == before.certPem
      && (|| r.files.dirs.live == before.dirs.live
          || (r.files.dirs.live == None && r.files.dirs.previous == before.dirs.live)
          || r.files.dirs.live == Some(CertsDir(ServerAuth(roots))))
  }

  ghost predicate TrueRenders(parse: Parser, found: Inputs, renders: Renders) {
    found.config.Some? && found.bundle.Some? ==>
      var c := found.config.value;
      var r := Compose(parse, found.bundle.value, c.additions, c.distrust, found.now);
      r.Ok? ==> forall before :: TrueRendition(r.value.roots, c.compat, before, renders(before))
  }

  /** What a send may come to: a prefix of the snapshot's frames, and all of them exactly when it says so. */
  ghost predicate TrueSend(c: Codec, snapshot: Snapshot, send: Send) {
    var frames := Frames(c, Chunks(snapshot));
    send.bytes <= frames && (send.ok <==> AllWritable(c, Chunks(snapshot)) && send.bytes == frames)
  }

  ghost predicate TrueSends(c: Codec, sends: Sends) {
    forall n: nat, snapshot :: TrueSend(c, snapshot, sends(n, snapshot))
  }

  /** What may happen to the daemon. A request is `permitted` or refused by the control object. */
  datatype Event =
    | Refreshed(found: Inputs, renders: Renders, sends: Sends)
    | Handled(request: Request, permitted: bool, found: Inputs, renders: Renders, sends: Sends)
    | Departed(index: nat)

  function AfterSubscribe(s: State, withDer: bool, send: Send): State {
    if send.ok then
      s.(subscribers := s.subscribers + [Subscriber(withDer, [CurrentSnapshot(s, withDer)], send.bytes)])
    else s
  }

  function Step(parse: Parser, lazy: bool, s: State, v: Event): State {
    match v
    case Refreshed(found, renders, sends) => AfterRefresh(parse, lazy, s, found, renders, sends)
    case Departed(i) =>
      if i < |s.subscribers| then s.(subscribers := s.subscribers[..i] + s.subscribers[i + 1..]) else s
    case Handled(request, permitted, found, renders, sends) =>
      if !permitted then s
      else match request
        case Reload => AfterRefresh(parse, lazy, s, found, renders, sends)
        case Subscribe(withDer) => AfterSubscribe(s, withDer, sends(0, CurrentSnapshot(s, withDer)))
        case _ => s
  }

  ghost predicate Possible(parse: Parser, v: Event) {
    !v.Departed? ==> TrueRenders(parse, v.found, v.renders)
  }

  /** The state after a run of events. */
  function Run(parse: Parser, lazy: bool, s: State, events: seq<Event>): State {
    if events == [] then s
    else Step(parse, lazy, Run(parse, lazy, s, events[..|events| - 1]), events[|events| - 1])
  }

  ghost predicate AllPossible(parse: Parser, events: seq<Event>) {
    forall v | v in events :: Possible(parse, v)
  }

  // ---------------------------------------------------------------- the invariant

  /** The subscriber has whole snapshots of ever later generations, and the last is the current set. */
  ghost predicate Current(s: State, b: Subscriber) {
    && b.delivered != []
    && b.delivered[|b.delivered| - 1] == CurrentSnapshot(s, b.withDer)
    && forall i, j | 0 <= i < j < |b.delivered| :: b.delivered[i].generation < b.delivered[j].generation
  }

  ghost predicate Invariant(s: State) {
    && Increasing(s.composed.roots)
    && (s.composedOnce <==> s.composed.roots != [])
    && (s.composedOnce <==> s.generation > 0)
    && (s.health == Degraded <==> s.message.Some?)
    && (s.health == HealthOk && s.composedOnce ==>
          && Rendered(s.files.dirs, s.files.certPem, s.composed.roots, s.config.compat)
          && s.rendered == if s.config.compat.NoFiles? then [] else [BUNDLE_PATH, CERT_PEM_PATH])
    && forall b | b in s.subscribers :: Current(s, b)
  }

  lemma StartInvariant(config: Config, files: Disk)
    ensures Invariant(Start(config, files))
  {}

  /** `after` was one of the subscribers, and has been sent one snapshot more. */
  ghost predicate Kept(subscribers: seq<Subscriber>, after: Subscriber, withDer: Snapshot, without: Snapshot,
                       sends: Sends)
  {
    exists n :: 0 <= n < |subscribers| && KeptAt(subscribers[n], n, after, withDer, without, sends)
  }

  ghost predicate KeptAt(b: Subscriber, n: nat, after: Subscriber, withDer: Snapshot, without: Snapshot, sends: Sends) {
    var snapshot := Meant(b, withDer, without);
    sends(n, snapshot).ok && after == AfterSend(b, snapshot, sends(n, snapshot).bytes)
  }

  lemma {:induction false} AllKept(subscribers: seq<Subscriber>, withDer: Snapshot, without: Snapshot, sends: Sends,
                                   after: Subscriber)
    requires after in Delivered(subscribers, withDer, without, sends)
    ensures Kept(subscribers, after, withDer, without, sends)
  {
    var n := |subscribers| - 1;
    if after in Delivered(subscribers[..n], withDer, without, sends) {
      AllKept(subscribers[..n], withDer, without, sends, after);
      var k :| 0 <= k < n && KeptAt(subscribers[..n][k], k, after, withDer, without, sends);
      assert subscribers[..n][k] == subscribers[k];
    } else {
      assert KeptAt(subscribers[n], n, after, withDer, without, sends);
    }
  }

  /** Publishing a later generation leaves every kept subscriber current. */
  lemma {:induction false} PublishKeepsCurrent(s: State, now: State, sends: Sends)
    requires forall b | b in s.subscribers :: Current(s, b)
    requires now.subscribers == s.subscribers && now.generation > s.generation
    ensures var p := AfterPublish(now, sends); forall b | b in p.subscribers :: Current(p, b)
  {
    hide Delivered, Project;
    var withDer, without := CurrentSnapshot(now, true), CurrentSnapshot(now, false);
    var p := AfterPublish(now, sends);
    forall after | after in p.subscribers ensures Current(p, after) {
      AllKept(now.subscribers, withDer, without, sends, after);
      var n :| 0 <= n < |now.subscribers| && KeptAt(now.subscribers[n], n, after, withDer, without, sends);
      var b := now.subscribers[n];
      assert b in s.subscribers;
      assert Current(s, b);
      assert b.delivered[|b.delivered| - 1].generation == s.generation;
    }
  }

  lemma {:induction false} ComposedRoots(parse: Parser, bundle: string, config: Config, now: Option<int>)
    ensures var r := Compose(parse, bundle, config.additions, config.distrust, now);
            r.Ok? ==> r.value.roots != [] && Increasing(r.value.roots)
  {
    hide Compose, Increasing, Chosen, Map, Candidates;
    ComposeIsDeclarative(parse, bundle, config.additions, config.distrust, now);
  }

  lemma {:induction false} BundleStays(roots: seq<Entry>, base: Dir)
    requires BUNDLE_NAME in base
    ensures BUNDLE_NAME in Hashed(roots, base)
  {
    if roots != [] {
      BundleStays(roots[..|roots| - 1], base);
    }
  }

  lemma {:induction false} RenderedLists(files: Disk, roots: seq<Entry>, compat: Compat)
    requires Rendered(files.dirs, files.certPem, roots, compat)
    ensures RenderedPaths(files) == if compat.NoFiles? then [] else [BUNDLE_PATH, CERT_PEM_PATH]
  {
    hide Hashed, Bundle, BUNDLE_NAME;
    BundleStays(ServerAuth(roots), map[BUNDLE_NAME := File(Bundle(ServerAuth(roots)))]);
  }

  lemma {:induction false} RefreshKeeps(parse: Parser, lazy: bool, s: State, found: Inputs, renders: Renders,
                                        sends: Sends)
    requires Invariant(s) && TrueRenders(parse, found, renders)
    ensures Invariant(AfterRefresh(parse, lazy, s, found, renders, sends))
  {
    hide Compose, Increasing, Rendered, Delivered, Project, RenderedPaths, BUNDLE_PATH, CERT_PEM_PATH;
    if found.config.Some? && found.bundle.Some? {
      var loaded := found.config.value;
      ComposedRoots(parse, found.bundle.value, loaded, found.now);
      var r := Compose(parse, found.bundle.value, loaded.additions, loaded.distrust, found.now);
      if r.Ok? && !(lazy && Unchanged(s, loaded, r.value)) {
        var next := AfterCompose(s, loaded, r.value);
        var rendition := renders(s.files);
        assert TrueRendition(r.value.roots, loaded.compat, s.files, rendition);
        if rendition.ok {
          RenderedLists(rendition.files, r.value.roots, loaded.compat);
        }
        PublishKeepsCurrent(s, AfterRender(next.(generation := next.generation + 1), rendition), sends);
      }
    }
  }

  lemma {:induction false} StepKeeps(parse: Parser, lazy: bool, s: State, v: Event)
    requires Invariant(s) && Possible(parse, v)
    ensures Invariant(Step(parse, lazy, s, v))
  {
    hide AfterRefresh, Increasing, Rendered, Project, TrueRenders, BUNDLE_PATH, CERT_PEM_PATH;
    if v.Departed? {
      if v.index < |s.subscribers| {
        var rest := s.subscribers[..v.index] + s.subscribers[v.index + 1..];
        assert forall b | b in rest :: b in s.subscribers;
        assert forall b | b in rest :: Current(s, b) && Current(s.(subscribers := rest), b);
      }
    } else {
      RefreshKeeps(parse, lazy, s, v.found, v.renders, v.sends);
      if v.Handled? && v.request.Subscribe? {
        var snapshot := CurrentSnapshot(s, v.request.withDer);
        var more := s.subscribers + [Subscriber(v.request.withDer, [snapshot], v.sends(0, snapshot).bytes)];
        assert forall b | b in s.subscribers :: Current(s, b) && Current(s.(subscribers := more), b);
      }
    }
  }

  /** The invariant holds in every state of every run, whatever fails in it. */
  lemma {:induction false} RunKeeps(parse: Parser, lazy: bool, config: Config, files: Disk, events: seq<Event>)
    requires AllPossible(parse, events)
    ensures Invariant(Run(parse, lazy, Start(config, files), events))
  {
    hide Invariant, Step;
    if events == [] {
      StartInvariant(config, files);
    } else {
      RunKeeps(parse, lazy, config, files, events[..|events| - 1]);
      StepKeeps(parse, lazy, Run(parse, lazy, Start(config, files), events[..|events| - 1]), events[|events| - 1]);
    }
  }

  // ---------------------------------------------------------------- over whole runs

  /** The same certificates at every path a reader looks at; an empty directory is as good as none. */
  predicate SameToReaders(a: Disk, b: Disk) {
    a.certPem == b.certPem && FilesIn(a.dirs.live) == FilesIn(b.dirs.live)
  }

  function FilesIn(dir: Option<Dir>): Dir {
    if dir.Some? then dir.value else map[]
  }

  /** Two runs that find the same things, whatever their renderings and deliveries come to. */
  ghost predicate SameFindings(a: Event, b: Event) {
    match a
    case Refreshed(found, _, _) => b.Refreshed? && found == b.found
    case Handled(request, permitted, found, _, _) =>
      b.Handled? && b.request == request && b.permitted == permitted && found == b.found
    case Departed(_) => b.Departed?
  }

  predicate Agree(s: State, t: State) {
    s.config == t.config && s.composed == t.composed && s.composedOnce == t.composedOnce
  }

  lemma {:induction false} AgreeRefresh(parse: Parser, s: State, t: State, found: Inputs, r: Renders, q: Renders,
                                        d: Sends, e: Sends)
    requires Agree(s, t)
    ensures Agree(AfterRefresh(parse, true, s, found, r, d), AfterRefresh(parse, false, t, found, q, e))
  {
    hide Compose, AfterPublish, Audit.Changes;
    forall u, sends ensures Agree(AfterPublish(u, sends), u) {
      PublishKeepsSet(u, sends);
    }
  }

  lemma PublishKeepsSet(s: State, sends: Sends)
    ensures AfterPublish(s, sends) == s.(subscribers := AfterPublish(s, sends).subscribers)
  {}

  lemma {:induction false} AgreeStep(parse: Parser, s: State, t: State, a: Event, b: Event)
    requires Agree(s, t) && SameFindings(a, b)
    ensures Agree(Step(parse, true, s, a), Step(parse, false, t, b))
  {
    hide AfterRefresh, Project;
    if !a.Departed? {
      AgreeRefresh(parse, s, t, a.found, a.renders, b.renders, a.sends, b.sends);
    }
  }

  /**
    The lazy daemon agrees with one that renders and publishes at every refresh. Over the same findings, with
    renderings that fail where they like, both hold the same set in the same mode, and whenever both are in good
    health a reader finds the same files.
   */
  lemma {:induction false} LazyAgreesWithEager(parse: Parser, config: Config, files: Disk, a: seq<Event>, b: seq<Event>)
    requires AllPossible(parse, a) && AllPossible(parse, b)
    requires |a| == |b| && forall i | 0 <= i < |a| :: SameFindings(a[i], b[i])
    ensures var s := Run(parse, true, Start(config, files), a);
            var t := Run(parse, false, Start(config, files), b);
            && Agree(s, t)
            && (s.health == HealthOk && t.health == HealthOk && s.composedOnce ==> SameToReaders(s.files, t.files))
  {
    hide Step;
    if a != [] {
      var n := |a| - 1;
      LazyAgreesWithEager(parse, config, files, a[..n], b[..n]);
      AgreeStep(parse, Run(parse, true, Start(config, files), a[..n]), Run(parse, false, Start(config, files),
          b[..n]), a[n], b[n]);
    }
    RunKeeps(parse, true, config, files, a);
    RunKeeps(parse, false, config, files, b);
  }

  /** In good health, once composed, the files on disk are exactly the rendering of the current set. */
  lemma HealthMeansRendered(parse: Parser, config: Config, files: Disk, events: seq<Event>)
    requires AllPossible(parse, events)
    ensures var s := Run(parse, true, Start(config, files), events);
            s.health == HealthOk && s.composedOnce ==>
              && Rendered(s.files.dirs, s.files.certPem, s.composed.roots, s.config.compat)
              && s.rendered == if s.config.compat.NoFiles? then [] else ["certs/ca-certificates.crt", "cert.pem"]
  {
    RunKeeps(parse, true, config, files, events);
  }

  lemma {:induction false} StepFromNothing(parse: Parser, lazy: bool, s: State, v: Event)
    requires !s.composedOnce ==> s.composed == Composed([], 0, 0, 0, 0, []) && s.generation == 0 && s.log == []
    ensures var t := Step(parse, lazy, s, v);
            !t.composedOnce ==> t.composed == Composed([], 0, 0, 0, 0, []) && t.generation == 0 && t.log == []
  {
    hide Compose, Delivered, Project, RenderedPaths, Audit.Changes;
  }

  /** Until a first composition succeeds the set is empty, with nothing counted, at generation 0. */
  lemma {:induction false} NothingBeforeFirst(parse: Parser, lazy: bool, config: Config, files: Disk,
                                              events: seq<Event>)
    ensures var s := Run(parse, lazy, Start(config, files), events);
            !s.composedOnce ==> s.composed == Composed([], 0, 0, 0, 0, []) && s.generation == 0 && s.log == []
  {
    hide Step;
    if events != [] {
      var front := events[..|events| - 1];
      NothingBeforeFirst(parse, lazy, config, files, front);
      StepFromNothing(parse, lazy, Run(parse, lazy, Start(config, files), front), events[|events| - 1]);
    }
  }

  /** Every listed subscriber's last whole snapshot is the current set at the current generation. */
  lemma SubscribersAreCurrent(parse: Parser, config: Config, files: Disk, events: seq<Event>)
    requires AllPossible(parse, events)
    ensures var s := Run(parse, true, Start(config, files), events);
            forall b | b in s.subscribers ::
              && Current(s, b)
              && var last := b.delivered[|b.delivered| - 1];
              && last.generation == s.generation && Told(s.composed.roots, b.withDer, None, last.roots)
  {
    hide Run, Told, Project;
    RunKeeps(parse, true, config, files, events);
    var s := Run(parse, true, Start(config, files), events);
    ProjectTells(s.composed.roots, true, None);
    ProjectTells(s.composed.roots, false, None);
  }

  lemma {:induction false} GenerationStep(parse: Parser, lazy: bool, s: State, v: Event)
    requires Invariant(s) && Possible(parse, v)
    ensures var t := Step(parse, lazy, s, v);
            && t.generation >= s.generation
            && (t.generation == s.generation ==> t.composed.roots == s.composed.roots)
  {
    hide Compose, Increasing, Rendered, Delivered, Project;
    if !v.Departed? && v.found.config.Some? && v.found.bundle.Some? {
      ComposedRoots(parse, v.found.bundle.value, v.found.config.value, v.found.now);
    }
  }

  /** The generation never falls, and two states of a run with one generation have one set of roots. */
  lemma {:induction false} GenerationsNameSets(parse: Parser, lazy: bool, config: Config, files: Disk,
      before: seq<Event>, after: seq<Event>)
    requires AllPossible(parse, before + after)
    ensures var s := Run(parse, lazy, Start(config, files), before);
            var t := Run(parse, lazy, Start(config, files), before + after);
            && s.generation <= t.generation
            && (s.generation == t.generation ==> s.composed.roots == t.composed.roots)
  {
    hide Step, Invariant;
    if after == [] {
      assert before + after == before;
    } else {
      var n := |after| - 1;
      var all := before + after;
      assert all[..|all| - 1] == before + after[..n] && all[|all| - 1] == after[n];
      GenerationsNameSets(parse, lazy, config, files, before, after[..n]);
      RunKeeps(parse, lazy, config, files, before + after[..n]);
      GenerationStep(parse, lazy, Run(parse, lazy, Start(config, files), before + after[..n]), after[n]);
    }
  }

  /** A step records nothing and leaves the roots, or records the difference it makes to them. */
  lemma {:induction false} StepRecords(parse: Parser, lazy: bool, s: State, v: Event)
    requires Invariant(s) && s.composedOnce
    ensures var t := Step(parse, lazy, s, v);
            && t.composedOnce
            && (|| (t.log == s.log && t.composed.roots == s.composed.roots)
                || (&& t.log == s.log + Audit.Changes(s.composed.roots, t.composed.roots, t.config.distrust)
                    && Increasing(s.composed.roots) && Increasing(t.composed.roots)))
  {
    hide Compose, Increasing, Rendered, Delivered, Project, Current, Audit.Changes;
    if !v.Departed? && v.found.config.Some? && v.found.bundle.Some? {
      ComposedRoots(parse, v.found.bundle.value, v.found.config.value, v.found.now);
    }
  }

  /** A step's events turn the old set into the new; a departure is put down to distrust when one names it. */
  lemma {:induction false} StepAudits(parse: Parser, lazy: bool, s: State, v: Event)
    requires Invariant(s) && s.composedOnce
    ensures var t := Step(parse, lazy, s, v);
            && t.composedOnce && Accounts(s, t)
            && forall e | e in t.log[|s.log|..] && e.change != Audit.RootAdded ::
                 e.change == Audit.RootDistrusted <==>
                 e.entry.parsed.fingerprint in Audit.Denied(t.config.distrust)
  {
    hide Step, Invariant, Increasing, Audit.Fingerprints, Audit.Denied, Audit.Changes;
    var t := Step(parse, lazy, s, v);
    StepRecords(parse, lazy, s, v);
    if t.log != s.log || t.composed.roots != s.composed.roots {
      var changes := Audit.Changes(s.composed.roots, t.composed.roots, t.config.distrust);
      assert t.log[|s.log|..] == changes;
      Audit.ChangesReplay(s.composed.roots, t.composed.roots, t.config.distrust);
      forall e | e in changes && e.change != Audit.RootAdded
        ensures e.change == Audit.RootDistrusted <==> e.entry.parsed.fingerprint in Audit.Denied(t.config.distrust)
      {
        Audit.ChangesAreExact(s.composed.roots, t.composed.roots, t.config.distrust, e);
      }
    }
  }

  /** From the first success on, replaying the log over that baseline gives the current fingerprints, event by event. */
  lemma {:induction false} AuditConserves(parse: Parser, lazy: bool, config: Config, files: Disk,
      before: seq<Event>, after: seq<Event>)
    requires AllPossible(parse, before + after)
    requires Run(parse, lazy, Start(config, files), before).composedOnce
    ensures var s := Run(parse, lazy, Start(config, files), before);
            var t := Run(parse, lazy, Start(config, files), before + after);
            && t.composedOnce && Accounts(s, t)
  {
    hide Step, Invariant, Accounts;
    var s := Run(parse, lazy, Start(config, files), before);
    if after == [] {
      assert before + after == before;
      AccountsSelf(s);
    } else {
      var n := |after| - 1;
      var all := before + after;
      assert all[..|all| - 1] == before + after[..n] && all[|all| - 1] == after[n];
      AuditConserves(parse, lazy, config, files, before, after[..n]);
      RunKeeps(parse, lazy, config, files, before + after[..n]);
      var m := Run(parse, lazy, Start(config, files), before + after[..n]);
      StepAudits(parse, lazy, m, after[n]);
      AuditJoins(s, m, Step(parse, lazy, m, after[n]));
    }
  }

  /** The log since `s`, replayed over the set at `s`, gives the set at `t`. */
  ghost predicate Accounts(s: State, t: State) {
    && s.log <= t.log
    && Audit.Replay(Audit.Fingerprints(s.composed.roots),
        t.log[|s.log|..]) == Some(Audit.Fingerprints(t.composed.roots))
  }

  lemma AccountsSelf(s: State)
    ensures Accounts(s, s)
  {
    assert s.log[|s.log|..] == [];
  }

  lemma {:induction false} AuditJoins(s: State, m: State, t: State)
    requires Accounts(s, m) && Accounts(m, t)
    ensures Accounts(s, t)
  {
    hide Audit.Replay, Audit.Fingerprints;
    assert t.log[|s.log|..] == m.log[|s.log|..] + t.log[|m.log|..];
    Audit.ReplayAppend(Audit.Fingerprints(s.composed.roots), m.log[|s.log|..], t.log[|m.log|..]);
  }

  lemma {:induction false} BaselineStep(parse: Parser, lazy: bool, s: State, v: Event)
    ensures s.composedOnce ==> Step(parse, lazy, s, v).composedOnce
    ensures !s.composedOnce ==> Step(parse, lazy, s, v).log == s.log
  {
    hide Compose, Delivered, Project, Audit.Changes;
  }

  /** Until a first composition has succeeded, and by that composition itself, nothing is recorded. */
  lemma {:induction false} NoEventsBeforeBaseline(parse: Parser, lazy: bool, config: Config, files: Disk,
      events: seq<Event>)
    requires events != [] ==> !Run(parse, lazy, Start(config, files), events[..|events| - 1]).composedOnce
    ensures Run(parse, lazy, Start(config, files), events).log == []
  {
    hide Step;
    if events != [] {
      var front := events[..|events| - 1];
      if front != [] {
        BaselineStep(parse, lazy, Run(parse, lazy, Start(config, files), front[..|front| - 1]), front[|front| - 1]);
      }
      NoEventsBeforeBaseline(parse, lazy, config, files, front);
      BaselineStep(parse, lazy, Run(parse, lazy, Start(config, files), front), events[|events| - 1]);
    }
  }
}
