/** What holds over whole runs of the daemon: the bytes sent, and the generation. */
module Runs {
  import opened Basics
  import opened Spelling
  import opened Store
  import opened Messages
  import opened Rendering
  import opened Install
  import opened Framing
  import opened Daemon
  import Audit
  import Delivery
  import Pem

  // ---------------------------------------------------------------- the bytes sent

  /** Every send in the run is one that a socket can come to. */
  ghost predicate AllSent(c: Codec, events: seq<Event>) {
    forall v | v in events && !v.Departed? :: TrueSends(c, v.sends)
  }

  /** Each listed subscriber's socket has taken exactly the snapshots it was sent. */
  ghost predicate Carried(c: Codec, s: State) {
    forall b | b in s.subscribers :: Delivery.Sent(c, b.delivered, None, b.stream)
  }

  /** A send that succeeds puts one snapshot more, and nothing else, behind what the socket had taken. */
  lemma {:induction false} OneMoreSent(c: Codec, b: Subscriber, snapshot: Snapshot, send: Send)
    requires Delivery.Sent(c, b.delivered, None, b.stream) && TrueSend(c, snapshot, send) && send.ok
    ensures Delivery.Sent(c, b.delivered + [snapshot], None, b.stream + send.bytes)
  {
    hide Delivery.Sent, Frames, AllWritable;
    var after := b.stream + send.bytes;
    assert after[|b.stream|..] == send.bytes;
    Delivery.SendingExtends(c, b.delivered, b.stream, snapshot, after, true);
  }

  lemma {:induction false} FirstSent(c: Codec, snapshot: Snapshot, send: Send)
    requires TrueSend(c, snapshot, send) && send.ok
    ensures Delivery.Sent(c, [snapshot], None, send.bytes)
  {
    NothingSent(c);
    hide Delivery.Sent, TrueSend;
    OneMoreSent(c, Subscriber(true, [], []), snapshot, send);
    assert [] + [snapshot] == [snapshot] && [] + send.bytes == send.bytes;
  }

  lemma NothingSent(c: Codec)
    ensures Delivery.Sent(c, [], None, [])
  {}

  lemma {:induction false} PublishCarries(c: Codec, s: State, sends: Sends)
    requires Carried(c, s) && TrueSends(c, sends)
    ensures Carried(c, AfterPublish(s, sends))
  {
    hide Delivery.Sent, Delivered, TrueSend, CurrentSnapshot;
    var withDer, without := CurrentSnapshot(s, true), CurrentSnapshot(s, false);
    var p := AfterPublish(s, sends);
    forall after | after in p.subscribers ensures Delivery.Sent(c, after.delivered, None, after.stream) {
      AllKept(s.subscribers, withDer, without, sends, after);
      var n :| 0 <= n < |s.subscribers| && KeptAt(s.subscribers[n], n, after, withDer, without, sends);
      var b := s.subscribers[n];
      var snapshot := Meant(b, withDer, without);
      assert TrueSend(c, snapshot, sends(n, snapshot));
      OneMoreSent(c, b, snapshot, sends(n, snapshot));
    }
  }

  lemma {:induction false} StepCarries(parse: Parser, lazy: bool, c: Codec, s: State, v: Event)
    requires Carried(c, s) && (!v.Departed? ==> TrueSends(c, v.sends))
    ensures Carried(c, Step(parse, lazy, s, v))
  {
    hide Delivery.Sent, Compose, AfterPublish, TrueSend, CurrentSnapshot;
    if !v.Departed? {
      forall u: State | u.subscribers == s.subscribers ensures Carried(c, AfterPublish(u, v.sends)) {
        PublishCarries(c, u, v.sends);
      }
      if v.Handled? && v.request.Subscribe? {
        var snapshot := CurrentSnapshot(s, v.request.withDer);
        assert TrueSend(c, snapshot, v.sends(0, snapshot));
        if v.sends(0, snapshot).ok {
          FirstSent(c, snapshot, v.sends(0, snapshot));
        }
      }
    }
  }

  /** In every state of every run, what each listed subscriber's socket has taken is what it was sent, whole. */
  lemma {:induction false} RunCarries(parse: Parser, lazy: bool, c: Codec, config: Config, files: Disk,
                                      events: seq<Event>)
    requires AllSent(c, events)
    ensures Carried(c, Run(parse, lazy, Start(config, files), events))
  {
    hide Delivery.Sent, TrueSends, Step;
    if events != [] {
      var front := events[..|events| - 1];
      RunCarries(parse, lazy, c, config, files, front);
      StepCarries(parse, lazy, c, Run(parse, lazy, Start(config, files), front), events[|events| - 1]);
    }
  }

  // ---------------------------------------------------------------- the generation

  /** The composition this event makes, if it makes one. */
  function Composes(parse: Parser, v: Event): Option<Composed> {
    if v.Departed? || (v.Handled? && !(v.permitted && v.request.Reload?)) then None
    else if v.found.config.None? || v.found.bundle.None? then None
    else
      var c := v.found.config.value;
      match Compose(parse, v.found.bundle.value, c.additions, c.distrust, v.found.now)
      case Ok(composed) => Some(composed)
      case Err(_) => None
  }

  /** The event composes, and the set or the configuration it finds is not the one in use in good health. */
  predicate Announces(parse: Parser, s: State, v: Event) {
    Composes(parse, v).Some? && !Unchanged(s, v.found.config.value, Composes(parse, v).value)
  }

  lemma PublishLeaves(s: State, sends: Sends)
    ensures AfterPublish(s, sends) == s.(subscribers := AfterPublish(s, sends).subscribers)
  {}

  lemma {:induction false} RefreshRises(parse: Parser, s: State, found: Inputs, renders: Renders, sends: Sends)
    ensures var t := AfterRefresh(parse, true, s, found, renders, sends);
            t.generation
            == s.generation + if Announces(parse, s, Refreshed(found, renders, sends)) then 1 else 0
  {
    hide Compose, AfterPublish, RenderedPaths, Audit.Changes;
    forall u ensures AfterPublish(u, sends) == u.(subscribers := AfterPublish(u, sends).subscribers) {
      PublishLeaves(u, sends);
    }
  }

  lemma {:induction false} StepRises(parse: Parser, s: State, v: Event)
    ensures var t := Step(parse, true, s, v);
            t.generation == s.generation + if Announces(parse, s, v) then 1 else 0
  {
    hide AfterRefresh, Compose;
    if !v.Departed? {
      RefreshRises(parse, s, v.found, v.renders, v.sends);
    }
  }

  /** The generation rises, and by one, exactly when what an event composes is not the set in use in good health. */
  lemma {:induction false} GenerationRises(parse: Parser, config: Config, files: Disk, events: seq<Event>, v: Event)
    ensures var s := Run(parse, true, Start(config, files), events);
            var t := Run(parse, true, Start(config, files), events + [v]);
            t.generation == s.generation + if Announces(parse, s, v) then 1 else 0
  {
    hide Step, Announces;
    assert (events + [v])[..|events|] == events;
    StepRises(parse, Run(parse, true, Start(config, files), events), v);
  }

  const THE_ROOT: Parsed := Parsed([], "f", "s", 0, "00000000")

  function OneRoot(der: Der, now: Option<int>): Result<Parsed, CertError> {
    Ok(THE_ROOT)
  }

  function Repeated(n: nat): string {
    if n == 0 then "" else Pem.ToPem([]) + Repeated(n - 1)
  }

  lemma {:induction false} RepeatedReads(n: nat)
    ensures |Pem.FromPem(Repeated(n))| == n
  {
    if n > 0 {
      hide Pem.FromPem, Pem.ToPem;
      RepeatedReads(n - 1);
      assert Pem.FromPem("") == [] by { NoText(); }
      assert "" + Pem.ToPem([]) + Repeated(n - 1) == Repeated(n);
      Pem.Resynchronises("", [], Repeated(n - 1));
    } else {
      NoText();
    }
  }

  lemma NoText()
    ensures Pem.FromPem("") == []
  {}

  function Emptied(before: Disk): Rendition {
    Rendition(true, Disk(Dirs(None, None, None), None))
  }

  function NoneTaken(n: nat, snapshot: Snapshot): Send {
    Send(false, [])
  }

  /** The shipped bundle, no additions and no distrusts. */
  function PlainInputs(compat: Compat): Inputs {
    Inputs(Some(Config([], [], compat, None)), Some(Repeated(MINIMUM_SHIPPED)), None)
  }

  /** A refresh that finds them in a mode without files. */
  function PlainRefresh(): Event {
    Refreshed(PlainInputs(NoFiles), Emptied, NoneTaken)
  }

  lemma {:induction false} PlainComposes()
    ensures Composes(OneRoot, PlainRefresh()).Some? && Possible(OneRoot, PlainRefresh())
  {
    hide Compose, Repeated;
    PlainCompose();
  }

  lemma {:induction false} PlainCompose()
    ensures Compose(OneRoot, Repeated(MINIMUM_SHIPPED), [], [], None).Ok?
  {
    var bundle := Repeated(MINIMUM_SHIPPED);
    var ders := Pem.FromPem(bundle);
    hide Compose, Repeated, Pem.FromPem;
    RepeatedReads(MINIMUM_SHIPPED);
    ComposeSucceeds(OneRoot, bundle, [], [], None);
    FirstIsChosen(ders);
  }

  lemma {:induction false} FirstIsChosen(ders: seq<Der>)
    requires ders != []
    ensures SomeChosen(Candidates(OneRoot, ders, [], None), Map(NormaliseFingerprint, []))
  {
    var candidates := Candidates(OneRoot, ders, [], None);
    assert candidates != [];
    assert FirstAt(candidates, candidates[0], 0);
    assert Chosen(candidates, Map(NormaliseFingerprint, []), candidates[0]);
  }

  /** A second successful composition of the same set leaves the generation where it was. */
  lemma {:induction false} SecondCompositionDoesNotRaise(config: Config, files: Disk)
    ensures var v := PlainRefresh();
            var s, t := Run(OneRoot, true, Start(config, files), [v]), Run(OneRoot, true, Start(config, files), [v, v]);
            && AllPossible(OneRoot, [v, v]) && Composes(OneRoot, v).Some?
            && s.composedOnce && s.generation == 1 && t.generation == 1
  {
    hide *;
    var v := PlainRefresh();
    var start := Start(config, files);
    var once := Step(OneRoot, true, start, v);
    PlainComposes();
    PlainSteps(start);
    PlainSteps(once);
    StartsSo(config, files);
    SameAgain(once, Step(OneRoot, true, once, v));
    RunTwice(OneRoot, start, v);
    BothPossible(OneRoot, v);
  }

  lemma StartsSo(config: Config, files: Disk)
    ensures var start := Start(config, files); start == Start(start.config, start.files) && start.generation == 0
  {}

  lemma SameAgain(s: State, t: State)
    requires t.composed == s.composed && t.config == s.config && s.health == HealthOk
    ensures Unchanged(s, t.config, t.composed)
  {}

  lemma BothPossible(parse: Parser, v: Event)
    requires Possible(parse, v)
    ensures AllPossible(parse, [v, v])
  {}

  lemma {:induction false} RunTwice(parse: Parser, s: State, v: Event)
    ensures Run(parse, true, s, [v]) == Step(parse, true, s, v)
    ensures Run(parse, true, s, [v, v]) == Step(parse, true, Step(parse, true, s, v), v)
  {
    hide Step;
    assert [v][..0] == [] && [v, v][..1] == [v];
    assert Run(parse, true, s, []) == s;
  }

  /** Where composing is bound to succeed and the rendering does, a step ends in good health, at the set composed. */
  lemma {:induction false} PlainSteps(s: State)
    ensures var v := PlainRefresh();
            var t := Step(OneRoot, true, s, v);
            && t.composedOnce && t.health == HealthOk
            && t.config == v.found.config.value && Some(t.composed) == Composes(OneRoot, v)
            && t.generation == s.generation + if Unchanged(s, t.config, t.composed) then 0 else 1
    ensures s == Start(s.config, s.files) ==>
              var t := Step(OneRoot, true, s, PlainRefresh()); !Unchanged(s, t.config, t.composed)
  {
    PlainComposes();
    StepRises(OneRoot, s, PlainRefresh());
    var bundle := Repeated(MINIMUM_SHIPPED);
    ComposedRoots(OneRoot, bundle, Config([], [], NoFiles, None), None);
    hide Compose, Repeated, RenderedPaths, Audit.Changes, AfterPublish;
    forall u, sends ensures AfterPublish(u, sends) == u.(subscribers := AfterPublish(u, sends).subscribers) {
      PublishLeaves(u, sends);
    }
  }
}
