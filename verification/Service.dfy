/** The daemon object: the same steps as methods over its own fields and the store directory it renders into. */
module Service {
  import opened Basics
  import opened Spelling
  import opened Store
  import opened Messages
  import opened Rendering
  import opened Install
  import opened Framing
  import opened Transfer
  import opened Daemon
  import Audit
  import BundleStamp
  import Pem

  /** What a request is answered with: one reply, or a root set in chunks. */
  datatype Answer = One(reply: Reply) | Set(snapshot: Snapshot)

  function Replies(answer: Answer): seq<Reply> {
    match answer case One(reply) => [reply] case Set(snapshot) => Chunks(snapshot)
  }

  /** Subject hashes are printed as eight hex digits. */
  ghost predicate PrintsHashes(parse: Parser) {
    forall d, n | parse(d, n).Ok? :: |parse(d, n).value.subjectHash| == 8
  }

  function MessageFor(why: Why): string {
    match why
    case BadConfiguration => "keeping previous configuration"
    case NoBundle => "cannot read the shipped bundle"
    case BadStore(TooFewShipped(_)) => "the shipped bundle is broken"
    case BadStore(NothingLeft) => "every root was distrusted or unusable"
    case RenderFailed => "render failed"
  }

  /** The reply to a reload says which step failed. */
  lemma MessagesTell(why: Why)
    ensures MessageFor(why) == "keeping previous configuration" <==> why.BadConfiguration?
    ensures MessageFor(why) == "cannot read the shipped bundle" <==> why.NoBundle?
    ensures MessageFor(why) == "the shipped bundle is broken" <==> why.BadStore? && why.error.TooFewShipped?
    ensures MessageFor(why) == "every root was distrusted or unusable" <==> why.BadStore? && why.error.NothingLeft?
    ensures MessageFor(why) == "render failed" <==> why.RenderFailed?
  {
    var text := MessageFor(why);
    assert |"keeping previous configuration"| == 30 && |"cannot read the shipped bundle"| == 30;
    assert "keeping previous configuration"[0] == 'k' && "cannot read the shipped bundle"[0] == 'c';
    assert |"the shipped bundle is broken"| == 28 && |"every root was distrusted or unusable"| == 37;
    assert |"render failed"| == 13;
  }

  lemma {:induction false} CandidateDigits(parse: Parser, ders: seq<Der>, additions: seq<Addition>, now: Option<int>)
    requires PrintsHashes(parse)
    ensures EightDigits(Candidates(parse, ders, additions, now))
    decreases |ders| + |additions|
  {
    if ders != [] {
      CandidateDigits(parse, ders[1..], [], now);
    }
    if additions != [] {
      CandidateDigits(parse, [], additions[1..], now);
    }
    var shipped, added := ShippedCandidates(parse, ders), AddedCandidates(parse, now, additions);
    assert EightDigits(shipped) by {
      assert ShippedCandidates(parse, []) + AddedCandidates(parse, now, []) == [];
      if ders != [] {
        assert ShippedCandidates(parse, ders[1..]) + [] == ShippedCandidates(parse, ders[1..]);
      }
    }
    assert EightDigits(added) by {
      if additions != [] {
        assert [] + AddedCandidates(parse, now, additions[1..]) == AddedCandidates(parse, now, additions[1..]);
      }
    }
  }

  lemma {:induction false} ComposedDigits(parse: Parser, bundle: string, config: Config, now: Option<int>)
    requires PrintsHashes(parse)
    ensures var r := Compose(parse, bundle, config.additions, config.distrust, now);
            r.Ok? ==> EightDigits(r.value.roots)
  {
    var r := Compose(parse, bundle, config.additions, config.distrust, now);
    var candidates := Candidates(parse, Pem.FromPem(bundle), config.additions, now);
    hide Compose, Increasing, Map, Candidates;
    ComposeIsDeclarative(parse, bundle, config.additions, config.distrust, now);
    CandidateDigits(parse, Pem.FromPem(bundle), config.additions, now);
    if r.Ok? {
      forall e | e in r.value.roots ensures e in candidates {
        ChosenIsCandidate(candidates, Map(NormaliseFingerprint, config.distrust), e);
      }
    }
  }

  lemma {:induction false} RefreshFails(parse: Parser, s: State, found: Inputs, renders: Renders, sends: Sends)
    ensures found.config.None? ==>
              AfterRefresh(parse, true, s, found, renders, sends) == Degrade(s, BadConfiguration)
    ensures found.config.Some? && found.bundle.None? ==>
              AfterRefresh(parse, true, s, found, renders, sends)
              == Degrade(s.(config := found.config.value), NoBundle)
  {
    hide Compose, AfterPublish;
  }

  /** What is found can be composed. */
  predicate CanCompose(parse: Parser, found: Inputs) {
    && found.config.Some? && found.bundle.Some?
    && Compose(parse, found.bundle.value, found.config.value.additions, found.config.value.distrust, found.now).Ok?
  }

  /** The rest of a refresh, once the configuration and the bundle have been read. */
  function Recomposed(parse: Parser, s: State, configChanged: bool, bundle: string, now: Option<int>,
                      renders: Renders, sends: Sends): State {
    match Compose(parse, bundle, s.config.additions, s.config.distrust, now)
    case Err(e) => Degrade(s, BadStore(e))
    case Ok(composed) =>
      var next := AfterCompose(s, s.config, composed);
      if composed.roots == s.composed.roots && s.health == HealthOk && !configChanged then next
      else AfterPublish(AfterRender(next.(generation := next.generation + 1), renders(s.files)), sends)
  }

  lemma {:induction false} RefreshComposes(parse: Parser, s: State, found: Inputs, renders: Renders, sends: Sends)
    requires found.config.Some? && found.bundle.Some?
    ensures var loaded := found.config.value;
            AfterRefresh(parse, true, s, found, renders, sends)
            == Recomposed(parse, s.(config := loaded), loaded != s.config, found.bundle.value, found.now, renders,
                          sends)
  {
    hide Compose, AfterPublish, AfterRender;
  }

  lemma {:induction false} MessageMeansDegraded(s: State)
    requires Invariant(s)
    ensures s.health == Degraded <==> s.message.Some?
  {
    hide Increasing, Rendered, Current;
  }

  // ---------------------------------------------------------------- what is observed of one rendering and of sends

  /** A rendering that is not made: it fails, and leaves the disk as it is. */
  function NotRendered(before: Disk): Rendition {
    Rendition(false, before)
  }

  /** A rendering seen on one disk. */
  function SeenOn(disk: Disk, r: Rendition): Renders {
    (before: Disk) => if before == disk then r else NotRendered(before)
  }

  lemma NotRenderedIsTrue(roots: seq<Entry>, compat: Compat, before: Disk)
    ensures TrueRendition(roots, compat, before, NotRendered(before))
  {
    WithinItself(before.dirs);
  }

  lemma {:induction false} NoRenderIsTrue(parse: Parser, found: Inputs)
    ensures TrueRenders(parse, found, NotRendered)
  {
    hide TrueRendition, Compose;
    forall roots, compat, before ensures TrueRendition(roots, compat, before, NotRendered(before)) {
      NotRenderedIsTrue(roots, compat, before);
    }
  }

  lemma {:induction false} SeenIsTrue(parse: Parser, found: Inputs, disk: Disk, r: Rendition)
    requires found.config.Some? && found.bundle.Some?
    requires var c := found.config.value;
             var composed := Compose(parse, found.bundle.value, c.additions, c.distrust, found.now);
             composed.Ok? && TrueRendition(composed.value.roots, c.compat, disk, r)
    ensures TrueRenders(parse, found, SeenOn(disk, r))
  {
    hide TrueRendition, Compose;
    forall roots, compat, before ensures TrueRendition(roots, compat, before, NotRendered(before)) {
      NotRenderedIsTrue(roots, compat, before);
    }
  }

  /** What sending a snapshot comes to, over a socket that takes bytes as this schedule says. */
  function SendOf(c: Codec, snapshot: Snapshot, schedule: seq<WriteEvent>): Send {
    var p := Pushed(c, Chunks(snapshot), schedule);
    Send(p.1, p.0)
  }

  function SendsOver(c: Codec, schedules: nat -> seq<WriteEvent>): Sends {
    (n: nat, snapshot: Snapshot) => SendOf(c, snapshot, schedules(n))
  }

  lemma {:induction false} SendsOverAreTrue(c: Codec, schedules: nat -> seq<WriteEvent>)
    ensures TrueSends(c, SendsOver(c, schedules))
  {
    hide Pushed, Frames, AllWritable, ChunksOf;
    forall n: nat, snapshot ensures TrueSend(c, snapshot, SendsOver(c, schedules)(n, snapshot)) {
      PushedIsPrefix(c, Chunks(snapshot), schedules(n));
    }
  }

  function Only(schedule: seq<WriteEvent>): nat -> seq<WriteEvent> {
    (n: nat) => schedule
  }

  /** The sends of an event: to the connection that subscribes, or to the subscribers in turn. */
  function SendsIn(c: Codec, request: Request, schedule: seq<WriteEvent>, schedules: nat -> seq<WriteEvent>): Sends {
    if request.Subscribe? then SendsOver(c, Only(schedule)) else SendsOver(c, schedules)
  }

  lemma {:induction false} NothingBefore(c: Codec, replies: seq<Reply>, schedule: seq<WriteEvent>)
    ensures Behind([], Pushed(c, replies, schedule)) == Pushed(c, replies, schedule)
  {
    assert [] + Pushed(c, replies, schedule).0 == Pushed(c, replies, schedule).0;
  }

  lemma {:induction false} SentFirst(c: Codec, request: Request, schedule: seq<WriteEvent>,
                                     schedules: nat -> seq<WriteEvent>, snapshot: Snapshot)
    requires request.Subscribe?
    ensures var p := Pushed(c, Chunks(snapshot), schedule);
            SendsIn(c, request, schedule, schedules)(0, snapshot) == Send(p.1, p.0)
  {
    assert Only(schedule)(0) == schedule;
    assert SendsOver(c, Only(schedule))(0, snapshot) == SendOf(c, snapshot, schedule);
  }

  /** One subscriber more is served. */
  lemma {:induction false} ServedOneMore(was: seq<Subscriber>, n: nat, withDer: Snapshot, without: Snapshot,
                                         sends: Sends)
    requires n < |was|
    ensures var send := sends(n, Meant(was[n], withDer, without));
            Delivered(was[..n + 1], withDer, without, sends)
            == Delivered(was[..n], withDer, without, sends)
               + if send.ok then [AfterSend(was[n], Meant(was[n], withDer, without), send.bytes)] else []
  {
    hide AfterSend, Meant;
    assert was[..n + 1][..n] == was[..n];
  }

  lemma NoneDelivered(withDer: Snapshot, without: Snapshot, sends: Sends)
    ensures Delivered([], withDer, without, sends) == []
  {}

  lemma MeantIs(b: Subscriber, withDer: Snapshot, without: Snapshot)
    ensures Meant(b, withDer, without) == if b.withDer then withDer else without
  {}

  lemma AfterSendIs(b: Subscriber, snapshot: Snapshot, bytes: seq<byte>)
    ensures AfterSend(b, snapshot, bytes) == Subscriber(b.withDer, b.delivered + [snapshot], b.stream + bytes)
  {}

  // ---------------------------------------------------------------- the connections held open

  /** Each subscriber's stream, and whether it wants certificates. */
  type Connections = seq<(Stream, bool)>

  ghost function Streams(connections: Connections): set<Stream> {
    set k | k in connections :: k.0
  }

  ghost predicate Separate(connections: Connections) {
    forall i, j | 0 <= i < j < |connections| :: connections[i].0 != connections[j].0
  }

  /** Some of the first connections, in their order. */
  ghost predicate KeptFrom(connections: Connections, upTo: nat, kept: Connections, from: seq<int>) {
    && |from| == |kept|
    && (forall k | 0 <= k < |kept| :: 0 <= from[k] < upTo && from[k] < |connections| && kept[k] == connections[from[k]])
    && (forall k, l | 0 <= k < l < |kept| :: from[k] < from[l])
  }

  lemma NoneKept(connections: Connections)
    ensures KeptFrom(connections, 0, [], [])
  {}

  lemma KeepNone(connections: Connections, i: nat, kept: Connections, from: seq<int>)
    requires KeptFrom(connections, i, kept, from)
    ensures KeptFrom(connections, i + 1, kept, from)
  {}

  lemma KeepOne(connections: Connections, i: nat, kept: Connections, from: seq<int>)
    requires KeptFrom(connections, i, kept, from) && i < |connections|
    ensures KeptFrom(connections, i + 1, kept + [connections[i]], from + [i])
  {}

  lemma OthersThan(connections: Connections, i: nat, kept: Connections, from: seq<int>)
    requires KeptFrom(connections, i, kept, from) && i < |connections| && Separate(connections)
    ensures connections[i].0 !in Streams(kept)
    ensures forall j | i < j < |connections| :: connections[j].0 != connections[i].0
  {}

  lemma KeptSeparate(connections: Connections, kept: Connections, from: seq<int>)
    requires KeptFrom(connections, |connections|, kept, from)
    ensures Separate(connections) ==> Separate(kept)
    ensures Streams(kept) <= Streams(connections)
  {}

  /** The subscribers of the model: what each was sent, and what its socket has taken. */
  ghost function Listed(connections: Connections, delivered: seq<seq<Snapshot>>): (r: seq<Subscriber>)
    requires |connections| == |delivered|
    reads Streams(connections)
    ensures |r| == |connections|
    ensures forall i | 0 <= i < |r| ::
              r[i] == Subscriber(connections[i].1, delivered[i], connections[i].0.written)
  {
    seq(|connections|, i requires 0 <= i < |connections| reads Streams(connections) =>
      Subscriber(connections[i].1, delivered[i], connections[i].0.written))
  }

  lemma SeparateOneMore(connections: Connections, stream: Stream, wantsDer: bool)
    requires Separate(connections) && stream !in Streams(connections)
    ensures Separate(connections + [(stream, wantsDer)])
  {}

  lemma ListedOneMore(connections: Connections, delivered: seq<seq<Snapshot>>, stream: Stream, wantsDer: bool,
                      more: seq<Snapshot>)
    requires |connections| == |delivered|
    ensures Listed(connections + [(stream, wantsDer)], delivered + [more])
            == Listed(connections, delivered) + [Subscriber(wantsDer, more, stream.written)]
  {}

  class Trustd {
    const parse: Parser
    const codec: Codec
    const store: StoreDirectory
    var config: Config
    /** The descriptor requests are checked against. */
    var control: Option<seq<byte>>
    var composed: Composed
    var generation: nat
    var health: Health
    var message: Option<Why>
    var composedOnce: bool
    var rendered: seq<string>
    var bundleStamp: Option<BundleStamp.Stamp>
    var subscribers: Connections
    /** The snapshots each subscriber has been sent whole. */
    ghost var delivered: seq<seq<Snapshot>>
    /** The root events recorded so far. */
    var log: seq<Audit.Event>

    ghost predicate Valid()
      reads this
    {
      && |subscribers| == |delivered| && Separate(subscribers)
      && control == config.controlSecurity
    }

    ghost function AsState(): State
      requires Valid()
      reads this, store, Streams(subscribers)
    {
      State(config, composed, generation, health, message, composedOnce, Listed(subscribers, delivered),
            Disk(store.dirs, store.certPem), rendered, log)
    }

    constructor (parse: Parser, codec: Codec, store: StoreDirectory, config: Config)
      ensures Valid() && this.parse == parse && this.codec == codec && this.store == store
      ensures subscribers == [] && bundleStamp == None
      ensures AsState() == Start(config, Disk(store.dirs, store.certPem))
    {
      this.parse, this.codec, this.store, this.config, control := parse, codec, store, config, config.controlSecurity;
      composed, generation, health, message := NOTHING, 0, HealthOk, None;
      composedOnce, rendered, bundleStamp, subscribers, delivered, log := false, [], None, [], [], [];
    }

    method Degrade(why: Why)
      requires Valid()
      modifies `health, `message
      ensures Valid() && AsState() == Daemon.Degrade(old(AsState()), why)
    {
      health := Degraded;
      message := Some(why);
    }

    method RenderFiles() returns (ghost r: Rendition)
      requires Valid() && EightDigits(composed.roots)
      modifies `health, `message, `rendered, store
      ensures Valid() && AsState() == AfterRender(old(AsState()), r)
      ensures TrueRendition(composed.roots, config.compat, old(AsState()).files, r)
      ensures old(store.Faultless()) ==> store.Faultless() && r.ok
    {
      hide Rendered, EightDigits, BUNDLE_NAME, BUNDLE_PATH, CERT_PEM_PATH, CertsDir, Bundle, ServerAuth, Within;
      var ok := store.Render(composed.roots, config.compat);
      r := Rendition(ok, Disk(store.dirs, store.certPem));
      if ok {
        rendered := RenderedPaths(Disk(store.dirs, store.certPem));
      } else {
        Degrade(RenderFailed);
      }
    }

    /** Send each connection its snapshot in turn, and keep those that take all of it. */
    static method SendEach(c: Codec, connections: Connections, ghost delivered: seq<seq<Snapshot>>, withDer: Snapshot,
                           without: Snapshot, schedules: nat -> seq<WriteEvent>)
      returns (kept: Connections, ghost keptDelivered: seq<seq<Snapshot>>)
      requires |connections| == |delivered| && Separate(connections)
      modifies Streams(connections)
      ensures |kept| == |keptDelivered| && Separate(kept) && Streams(kept) <= Streams(connections)
      ensures Listed(kept, keptDelivered)
              == Delivered(old(Listed(connections, delivered)), withDer, without, SendsOver(c, schedules))
    {
      hide Delivered, Meant, AfterSend, KeptFrom, Separate, Pushed, ChunksOf;
      NoneKept(connections);
      ghost var was, sends := Listed(connections, delivered), SendsOver(c, schedules);
      kept, keptDelivered := [], [];
      ghost var from: seq<int> := [];
      NoneDelivered(withDer, without, sends);
      for i := 0 to |connections|
        invariant |kept| == |keptDelivered|
        invariant forall j | i <= j < |connections| :: connections[j].0.written == was[j].stream
        invariant KeptFrom(connections, i, kept, from)
        invariant Listed(kept, keptDelivered) == Delivered(was[..i], withDer, without, sends)
      {
        var (stream, wantsDer) := connections[i];
        OthersThan(connections, i, kept, from);
        var snapshot := if wantsDer then withDer else without;
        assert snapshot == Meant(was[i], withDer, without) by { MeantIs(was[i], withDer, without); }
        ghost var served := Listed(kept, keptDelivered);
        var ok := SendRoots(c, stream, snapshot, schedules(i));
        assert Listed(kept, keptDelivered) == served;
        ServedOneMore(was, i, withDer, without, sends);
        if ok {
          AfterSendIs(was[i], snapshot, sends(i, snapshot).bytes);
          KeepOne(connections, i, kept, from);
          ListedOneMore(kept, keptDelivered, stream, wantsDer, was[i].delivered + [snapshot]);
          kept := kept + [(stream, wantsDer)];
          keptDelivered, from := keptDelivered + [was[i].delivered + [snapshot]], from + [i];
        } else {
          KeepNone(connections, i, kept, from);
        }
      }
      KeptSeparate(connections, kept, from);
      assert was[..|connections|] == was;
    }

    /** Send the new set to each subscriber in turn, and forget those that do not take all of it. */
    method Publish(schedules: nat -> seq<WriteEvent>)
      requires Valid()
      modifies `subscribers, `delivered, Streams(subscribers)
      ensures Valid() && Streams(subscribers) <= old(Streams(subscribers))
      ensures AsState() == AfterPublish(old(AsState()), SendsOver(codec, schedules))
    {
      hide Project, Delivered, SendsOver, Separate, Listed, Streams;
      var withDer := Snapshot(generation, Project(composed.roots, true, None));
      var without := Snapshot(generation, Project(composed.roots, false, None));
      subscribers, delivered := SendEach(codec, subscribers, delivered, withDer, without, schedules);
    }

    /** Take a configuration; requests are checked against its descriptor from now on. */
    method Configure(loaded: Config) returns (changed: bool)
      requires Valid()
      modifies `config, `control
      ensures Valid() && config == loaded && changed == (loaded != old(config))
      ensures AsState() == old(AsState()).(config := loaded)
    {
      hide Separate, Listed;
      changed := loaded != config;
      if changed {
        control := loaded.controlSecurity;
      }
      config := loaded;
    }

    /** Take a new set as the current one, and record how it differs from the last. */
    method Adopt(next: Composed)
      requires Valid()
      modifies `log, `composedOnce, `composed, `health, `message
      ensures Valid() && AsState() == AfterCompose(old(AsState()), config, next)
    {
      hide Separate, Listed, Audit.Changes;
      if composedOnce {
        var changes := Audit.RecordChanges(composed.roots, next.roots, config.distrust);
        log := log + changes;
      }
      composedOnce := true;
      composed := next;
      health := HealthOk;
      message := None;
    }

    /** Render and publish the current set, under a new generation. */
    method Announce(schedules: nat -> seq<WriteEvent>) returns (ghost rendition: Rendition)
      requires Valid() && EightDigits(composed.roots)
      modifies `generation, `health, `message, `rendered, `subscribers, `delivered, store, Streams(subscribers)
      ensures Valid() && Streams(subscribers) <= old(Streams(subscribers))
      ensures TrueRendition(composed.roots, config.compat, old(AsState()).files, rendition)
      ensures old(store.Faultless()) ==> store.Faultless() && health == old(health)
      ensures var s := old(AsState());
              var rendered := AfterRender(s.(generation := s.generation + 1), rendition);
              AsState() == AfterPublish(rendered, SendsOver(codec, schedules))
    {
      hide EightDigits, TrueRendition, SendsOver, AfterPublish, Separate, Listed;
      generation := generation + 1;
      rendition := RenderFiles();
      Publish(schedules);
    }

    /** Compose, and if set, configuration or health is not what it was, render it and tell the subscribers. */
    method Recompose(bundle: string, now: Option<int>, configChanged: bool, schedules: nat -> seq<WriteEvent>)
      returns (ghost renders: Renders)
      requires Valid() && PrintsHashes(parse)
      modifies `log, `composedOnce, `composed, `generation, `health, `message, `rendered, `subscribers, `delivered
      modifies store, Streams(subscribers)
      ensures Valid() && Streams(subscribers) <= old(Streams(subscribers))
      ensures TrueRenders(parse, Inputs(Some(config), Some(bundle), now), renders)
      ensures AsState()
              == Recomposed(parse, old(AsState()), configChanged, bundle, now, renders, SendsOver(codec, schedules))
      ensures old(store.Faultless()) ==>
                && store.Faultless()
                && (Compose(parse, bundle, config.additions, config.distrust, now).Ok? <==> health == HealthOk)
    {
      hide EightDigits, Compose, PrintsHashes, AfterRender, AfterPublish, TrueRenders, SendsOver, TrueRendition,
           Separate, Listed;
      ghost var before := AsState();
      ghost var found := Inputs(Some(config), Some(bundle), now);
      renders := NotRendered;
      NoRenderIsTrue(parse, found);
      var r := ComposeStore(parse, bundle, config.additions, config.distrust, now);
      if r.Err? {
        Degrade(BadStore(r.error));
        return;
      }
      var same := r.value.roots == composed.roots && health == HealthOk;
      Adopt(r.value);
      if same && !configChanged {
        return;
      }
      ComposedDigits(parse, bundle, config, now);
      ghost var rendition := Announce(schedules);
      renders := SeenOn(before.files, rendition);
      SeenIsTrue(parse, found, before.files, rendition);
    }

    /** Read the configuration and the bundle, and compose from them; keep what there is if either cannot be read. */
    method Refresh(found: Inputs, stamp: Option<BundleStamp.Stamp>, schedules: nat -> seq<WriteEvent>)
      returns (ghost renders: Renders)
      requires Valid() && PrintsHashes(parse)
      modifies this, store, Streams(subscribers)
      ensures Valid() && Streams(subscribers) <= old(Streams(subscribers))
      ensures TrueRenders(parse, found, renders)
      ensures AsState() == AfterRefresh(parse, true, old(AsState()), found, renders, SendsOver(codec, schedules))
      ensures bundleStamp == if found.config.Some? then stamp else old(bundleStamp)
      ensures old(store.Faultless()) ==> store.Faultless() && (CanCompose(parse, found) <==> health == HealthOk)
    {
      hide PrintsHashes, AfterRefresh, Recomposed, TrueRenders, SendsOver, Separate, Listed, Compose;
      ghost var before := AsState();
      ghost var sends := SendsOver(codec, schedules);
      renders := NotRendered;
      NoRenderIsTrue(parse, found);
      RefreshFails(parse, before, found, renders, sends);
      if found.config.None? {
        Degrade(BadConfiguration);
        return;
      }
      var configChanged := Configure(found.config.value);
      bundleStamp := stamp;
      if found.bundle.None? {
        Degrade(NoBundle);
        return;
      }
      renders := Recompose(found.bundle.value, found.now, configChanged, schedules);
      RefreshComposes(parse, before, found, renders, sends);
    }

    /**
      Answer one request on a connection nothing has been written to, and keep the connection if it subscribes. The
      event says what rendering and sending came to.
     */
    method Handle(stream: Stream, request: Request, permitted: bool, found: Inputs, stamp: Option<BundleStamp.Stamp>,
                  schedule: seq<WriteEvent>, schedules: nat -> seq<WriteEvent>)
      returns (answer: Answer, ghost v: Event)
      requires Valid() && PrintsHashes(parse)
      requires stream !in Streams(subscribers) && stream.written == []
      modifies this, store, stream, Streams(subscribers)
      ensures Valid()
      ensures v.Handled? && v.request == request && v.permitted == permitted && v.found == found
      ensures v.sends == SendsIn(codec, request, schedule, schedules)
      ensures Possible(parse, v) && TrueSends(codec, v.sends)
      ensures AsState() == Step(parse, true, old(AsState()), v)
      ensures stream.written == Pushed(codec, Replies(answer), schedule).0
      ensures !permitted ==> answer == One(Refused("access denied"))
      ensures permitted && request.Roots? ==>
                && answer.Set? && answer.snapshot.generation == generation
                && Told(composed.roots, request.withDer, request.purpose, answer.snapshot.roots)
      ensures permitted && request.Subscribe? ==>
                && answer == Set(CurrentSnapshot(old(AsState()), request.withDer))
                && Told(composed.roots, request.withDer, None, answer.snapshot.roots)
      ensures permitted && request.Reload? && Invariant(old(AsState())) ==>
                && Invariant(AsState())
                && (health == HealthOk ==> answer == One(Done))
                && (health == Degraded ==> message.Some? && answer == One(Refused(MessageFor(message.value))))
      ensures permitted && request.GetStatus? ==>
                && answer.One? && answer.reply.StatusReply?
                && var st := answer.reply.status;
                && st.generation == generation && st.health == health && (st.message.Some? <==> message.Some?)
                && (message.Some? ==> st.message == Some(MessageFor(message.value)))
                && st.shipped == composed.shipped && st.added == composed.added
                && st.distrusted == composed.distrusted && st.skipped == composed.skipped
                && st.effective == |composed.roots| && st.rendered == rendered
                && Compat.FromDword(st.compatMode) == config.compat
    {
      hide Rendered, Compose, Increasing, Project, PrintsHashes, AfterRefresh, Invariant, TrueRenders, TrueSends,
           Separate, Listed, Pushed, ChunksOf, Told;
      ghost var renders: Renders, sends: Sends := NotRendered, SendsIn(codec, request, schedule, schedules);
      NoRenderIsTrue(parse, found);
      SendsOverAreTrue(codec, if request.Subscribe? then Only(schedule) else schedules);
      ghost var before := AsState();
      forall replies ensures Behind([], Pushed(codec, replies, schedule)) == Pushed(codec, replies, schedule) {
        NothingBefore(codec, replies, schedule);
      }
      if !permitted {
        answer := One(Refused("access denied"));
        var done := Respond(codec, stream, answer.reply, schedule);
        v := Handled(request, permitted, found, renders, sends);
        return;
      }
      match request {
        case GetStatus =>
          answer := One(StatusReply(StatusNow()));
          var done := Respond(codec, stream, answer.reply, schedule);
        case Roots(withDer, purpose) =>
          answer := Set(Snapshot(generation, Project(composed.roots, withDer, purpose)));
          ProjectTells(composed.roots, withDer, purpose);
          var done := SendRoots(codec, stream, answer.snapshot, schedule);
        case Subscribe(withDer) =>
          var snapshot := Snapshot(generation, Project(composed.roots, withDer, None));
          answer := Set(snapshot);
          ProjectTells(composed.roots, withDer, None);
          var ok := SendRoots(codec, stream, snapshot, schedule);
          SentFirst(codec, request, schedule, schedules, snapshot);
          if ok {
            ListedOneMore(subscribers, delivered, stream, withDer, [snapshot]);
            SeparateOneMore(subscribers, stream, withDer);
            subscribers, delivered := subscribers + [(stream, withDer)], delivered + [[snapshot]];
          }
        case Reload =>
          renders := Refresh(found, stamp, schedules);
          if Invariant(before) {
            RefreshKeeps(parse, true, before, found, renders, sends);
            MessageMeansDegraded(AsState());
          }
          answer := One(if health == Degraded
                        then Refused(if message.Some? then MessageFor(message.value) else "trust store is degraded")
                        else Done);
          var done := Respond(codec, stream, answer.reply, schedule);
      }
      v := Handled(request, permitted, found, renders, sends);
    }

    function StatusNow(): Status
      reads this
    {
      Status(generation, health, if message.Some? then Some(MessageFor(message.value)) else None,
             composed.shipped, composed.added, composed.distrusted, composed.skipped, |composed.roots|,
             config.compat.AsDword(), rendered)
    }

    /** A subscriber that closed its end leaves the table. */
    method Remove(index: nat)
      requires Valid() && index < |subscribers|
      modifies `subscribers, `delivered
      ensures Valid() && AsState() == Step(parse, true, old(AsState()), Departed(index))
    {
      subscribers := subscribers[..index] + subscribers[index + 1..];
      delivered := delivered[..index] + delivered[index + 1..];
    }
  }
}
