/** The parts put together: what software on the machine reads, and what a subscribed client is given. */
module EndToEnd {
  import opened Basics
  import opened Store
  import opened Messages
  import opened Rendering
  import opened Install
  import opened Daemon
  import Service
  import Pem
  import Framing
  import Subscriptions
  import Delivery
  import Runs
  import Transfer
  import Wire
  import WireForms
  import Requests
  import RoundTrips

  // ---------------------------------------------------------------- the wire

  /** MessagePack values to bytes and back. */
  datatype Packing = Packing(pack: seq<Wire.Token> -> seq<byte>, unpack: seq<byte> -> Option<seq<Wire.Token>>)

  function Unpacked(p: Packing, bytes: seq<byte>): Option<Reply> {
    match p.unpack(bytes)
    case None => None
    case Some(tokens) => match Wire.DecodeReply(tokens) case Ok(reply) => Some(reply) case Err(_) => None
  }

  function WireCodec(p: Packing): Framing.Codec {
    Framing.Codec((r: Reply) => p.pack(WireForms.EncodeReply(r)), (b: seq<byte>) => Unpacked(p, b))
  }

  /** MessagePack has room for this: a number of 64 bits, a length or a count of 32. */
  predicate Packable(t: Wire.Token) {
    match t
    case UintToken(n) => n < 0x1_0000_0000_0000_0000
    case IntToken(i) => -0x8000_0000_0000_0000 <= i < 0x8000_0000_0000_0000
    case StrToken(s) => |s| < 0x4000_0000
    case BinToken(bytes) => |bytes| < 0x1_0000_0000
    case ArrayToken(count) => count < 0x1_0000_0000
    case MapToken(count) => count < 0x1_0000_0000
    case _ => true
  }

  ghost predicate AllPackable(tokens: seq<Wire.Token>) {
    forall t | t in tokens :: Packable(t)
  }

  /** What is packed of the messages that are written can be unpacked again. */
  ghost predicate UnpacksReplies(p: Packing) {
    forall r: Reply | AllPackable(WireForms.EncodeReply(r)) ::
      p.unpack(p.pack(WireForms.EncodeReply(r))) == Some(WireForms.EncodeReply(r))
  }

  ghost predicate UnpacksRequests(p: Packing) {
    forall r: Request | AllPackable(WireForms.EncodeRequest(r)) ::
      p.unpack(p.pack(WireForms.EncodeRequest(r))) == Some(WireForms.EncodeRequest(r))
  }

  /** Replies that MessagePack has room for survive the wire. */
  lemma {:induction false} RepliesSurvive(p: Packing, replies: seq<Reply>)
    requires UnpacksReplies(p) && forall r | r in replies :: AllPackable(WireForms.EncodeReply(r))
    ensures Framing.ReadBack(WireCodec(p), replies)
  {
    hide WireForms.EncodeReply, Wire.DecodeReply, AllPackable;
    forall r | r in replies ensures Unpacked(p, p.pack(WireForms.EncodeReply(r))) == Some(r) {
      RoundTrips.ReplyRoundTrips(r);
    }
  }

  /** What is wrong with a request, in few words. */
  function Complaint(e: Wire.WireError): string {
    match e
    case Encoding => "malformed message"
    case Missing(key) => "missing field " + key
    case Duplicate(key) => "duplicate field " + key
    case UnknownQuery(query) => "unknown query " + query
    case TooLarge(_) => "message exceeds the ceiling"
  }

  function RequestReader(p: Packing): Requests.RequestReader {
    (bytes: seq<byte>) =>
      match p.unpack(bytes)
      case None => Err(Complaint(Wire.Encoding))
      case Some(tokens) =>
        match Wire.DecodeRequest(tokens)
        case Ok(request) => Ok(request)
        case Err(e) => Err(Complaint(e))
  }

  /** A request a client may send is taken by the daemon as that request, however its frame arrives. */
  lemma {:induction false} RequestsSurvive(p: Packing, r: Request, calls: seq<seq<Requests.Input>>)
    requires UnpacksRequests(p) && AllPackable(WireForms.EncodeRequest(r))
    requires var payload := p.pack(WireForms.EncodeRequest(r));
             |payload| <= Framing.MAX_MESSAGE && Requests.AllData(calls) == Framing.Frame(payload)
    requires forall k | 0 <= k < |calls| :: Requests.Calm(calls[k])
    ensures Requests.Answer(RequestReader(p), [], calls) == Requests.Arrived(r)
  {
    hide Requests.Answer, Requests.AllData, Framing.Frame, Requests.Calm, WireForms.EncodeRequest, Wire.DecodeRequest,
         AllPackable;
    var payload := p.pack(WireForms.EncodeRequest(r));
    RoundTrips.RequestRoundTrips(r);
    Requests.FrameLength(payload);
    assert [] + Requests.AllData(calls) == Framing.Frame(payload);
    Requests.RequestArrivesWhole(RequestReader(p), payload, [], calls);
  }

  // ---------------------------------------------------------------- subscribers

  lemma ListedIsCurrent(parse: Parser, config: Config, files: Disk, events: seq<Event>, b: Subscriber)
    requires AllPossible(parse, events) && b in Run(parse, true, Start(config, files), events).subscribers
    ensures Current(Run(parse, true, Start(config, files), events), b)
  {
    hide Run;
    SubscribersAreCurrent(parse, config, files, events);
  }

  lemma ToldCurrent(s: State, withDer: bool)
    ensures Told(s.composed.roots, withDer, None, CurrentSnapshot(s, withDer).roots)
  {
    ProjectTells(s.composed.roots, withDer, None);
  }

  lemma CarriedOne(c: Framing.Codec, s: State, b: Subscriber)
    requires Runs.Carried(c, s) && b in s.subscribers
    ensures Delivery.Sent(c, b.delivered, None, b.stream)
  {}

  lemma {:induction false} CurrentClient(c: Framing.Codec, s: State, b: Subscriber,
                                         calls: seq<seq<Framing.ReadEvent>>)
    requires Current(s, b) && Delivery.Sent(c, b.delivered, None, b.stream)
    requires Framing.ReadBack(c, Transfer.Pieces(b.delivered))
    ensures var start := Subscriptions.Sub(Some(Framing.Link([], b.stream)), []);
            var given := Delivery.Successes(c, Subscribe(b.withDer), start, calls);
            var ended := Delivery.Unbroken(calls)
                         && Delivery.After(c, Subscribe(b.withDer), start, calls).link.None?;
            && given <= Delivery.Acceptable(c, b.delivered)
            && (ended ==> given == Delivery.Acceptable(c, b.delivered))
            && (ended && (forall s | s in b.delivered :: Delivery.Fits(c, s)) ==>
                  given != [] && given[|given| - 1] == CurrentSnapshot(s, b.withDer))
  {
    hide Delivery.Sent, Delivery.Fits, Delivery.Successes, Delivery.After, Framing.ReadBack, Project;
    assert Delivery.Offered(b.delivered, None) == b.delivered;
    Delivery.ClientIsGivenWhatWasSent(c, Subscribe(b.withDer), b.delivered, None, b.stream, calls);
    Delivery.AcceptableIsAll(c, b.delivered);
  }

  /**
    A subscriber the daemon still lists, in any state of any run, and a client reading what its socket has taken: its
    calls give a prefix of what the subscriber was sent, and when it was never broken and has closed, all of it up to
    the first snapshot that no client accepts. Where there is none such, the last snapshot given is the current set.
   */
  lemma {:induction false} SubscribedClientsAreCurrent(
      parse: Parser, config: Config, files: Disk, events: seq<Event>, b: Subscriber,
      c: Framing.Codec, calls: seq<seq<Framing.ReadEvent>>)
    requires AllPossible(parse, events) && Runs.AllSent(c, events)
    requires b in Run(parse, true, Start(config, files), events).subscribers
    requires Framing.ReadBack(c, Transfer.Pieces(b.delivered))
    ensures var s := Run(parse, true, Start(config, files), events);
            var start := Subscriptions.Sub(Some(Framing.Link([], b.stream)), []);
            var given := Delivery.Successes(c, Subscribe(b.withDer), start, calls);
            var ended := Delivery.Unbroken(calls)
                         && Delivery.After(c, Subscribe(b.withDer), start, calls).link.None?;
            && given <= Delivery.Acceptable(c, b.delivered)
            && (ended ==> given == Delivery.Acceptable(c, b.delivered))
            && (ended && (forall s | s in b.delivered :: Delivery.Fits(c, s)) ==>
                  && given != [] && given[|given| - 1] == CurrentSnapshot(s, b.withDer)
                  && Told(s.composed.roots, b.withDer, None, given[|given| - 1].roots))
  {
    hide *;
    var s := Run(parse, true, Start(config, files), events);
    ListedIsCurrent(parse, config, files, events, b);
    Runs.RunCarries(parse, true, c, config, files, events);
    CarriedOne(c, s, b);
    CurrentClient(c, s, b, calls);
    ToldCurrent(s, b.withDer);
  }

  // ---------------------------------------------------------------- files

  lemma {:induction false} StepDigits(parse: Parser, s: State, v: Event)
    requires Service.PrintsHashes(parse) && EightDigits(s.composed.roots)
    ensures EightDigits(Step(parse, true, s, v).composed.roots)
  {
    hide Compose, EightDigits, Increasing, Delivered, Project, RenderedPaths, Service.PrintsHashes;
    if !v.Departed? && v.found.config.Some? && v.found.bundle.Some? {
      Service.ComposedDigits(parse, v.found.bundle.value, v.found.config.value, v.found.now);
    }
  }

  lemma {:induction false} RunDigits(parse: Parser, config: Config, files: Disk, events: seq<Event>)
    requires Service.PrintsHashes(parse)
    ensures EightDigits(Run(parse, true, Start(config, files), events).composed.roots)
  {
    hide Step;
    if events != [] {
      RunDigits(parse, config, files, events[..|events| - 1]);
      StepDigits(parse, Run(parse, true, Start(config, files), events[..|events| - 1]), events[|events| - 1]);
    }
  }

  /** The text of a bundle that reads back as exactly these roots' certificates. */
  predicate ReadsAs(text: string, roots: seq<Entry>) {
    Pem.FromPem(text) == Ders(roots)
  }

  /**
    In good health, once composed, in a mode that renders: both bundle paths read back as exactly the certificates of
    the current server-authentication roots, exactly when no root's comment lines spell a block, and looking a subject
    hash up in the directory finds exactly the roots with it.
   */
  lemma {:induction false} FilesHoldTheCurrentSet(parse: Parser, config: Config, files: Disk, events: seq<Event>)
    requires AllPossible(parse, events) && Service.PrintsHashes(parse)
    ensures var s := Run(parse, true, Start(config, files), events);
            var roots := ServerAuth(s.composed.roots);
            Selection(s.composed.roots, Some("ServerAuth"), roots)
            && (s.health == HealthOk && s.composedOnce && !s.config.compat.NoFiles? ==>
              && s.files.certPem.Some? && (ReadsAs(s.files.certPem.value, roots) <==> NoneSpells(roots))
              && s.files.dirs.live.Some?
              && BUNDLE_NAME in s.files.dirs.live.value
              && s.files.dirs.live.value[BUNDLE_NAME].File?
              && (ReadsAs(s.files.dirs.live.value[BUNDLE_NAME].text, roots) <==> NoneSpells(roots))
              && |s.files.dirs.live.value| == |roots| + 1
              && forall hash: string | |hash| == 8 :: LooksUp(s.files.dirs.live.value, roots, hash))
  {
    hide Run, Bundle, CertsDir, LooksUp, EightDigits, OneLiners, Pem.FromPem, Ders, ServerAuth, BUNDLE_NAME,
         Pem.SpellsBlock, CommentLines, Selection;
    var s := Run(parse, true, Start(config, files), events);
    var roots := ServerAuth(s.composed.roots);
    HealthMeansRendered(parse, config, files, events);
    RenderedAreServing(s.files.dirs, s.files.certPem, s.composed.roots, Files);
    RunDigits(parse, config, files, events);
    ServerAuthDigits(s.composed.roots);
    CertsDirExact(roots);
    BundleReadsBack(roots);
  }
}
