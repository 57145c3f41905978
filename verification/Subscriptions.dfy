/** A client's side of a reply in chunks: whole snapshots out of frames, kept in part from one call to the next. */
module Subscriptions {
  import opened Basics
  import opened Messages
  import opened Framing
  import opened Transfer

  // ---------------------------------------------------------------- one complete reply

  predicate Expects(request: Request, reply: Reply) {
    || reply.Refused?
    || (request.GetStatus? && reply.StatusReply?)
    || (request.Reload? && reply.Done?)
    || ((request.Roots? || request.Subscribe?) && reply.RootsChunk?)
  }

  /** The payload bytes of these replies. */
  function Size(c: Codec, replies: seq<Reply>): nat {
    if replies == [] then 0 else Size(c, replies[..|replies| - 1]) + |c.encode(replies[|replies| - 1])|
  }

  function AssembleFrom(generation: Option<nat>, roots: seq<Root>, pending: seq<Reply>): Outcome<Reply>
    decreases |pending|
  {
    if pending == [] then
      Got(RootsChunk(if generation.Some? then generation.value else 0, roots, false))
    else match pending[0]
      case RootsChunk(current, batch, _) =>
        if generation.Some? && generation.value != current then Failed(Mixed)
        else AssembleFrom(Some(current), roots + batch, pending[1..])
      case _ => AssembleFrom(generation, roots, pending[1..])
  }

  /** The reply that chunks amount to. */
  function Assemble(pending: seq<Reply>): Outcome<Reply> {
    AssembleFrom(None, [], pending)
  }

  /** A reply, the link after it, and the chunks still waiting for their last. */
  function Completed(c: Codec, request: Request, link: Link, pending: seq<Reply>, schedule: seq<ReadEvent>)
    : (r: (Outcome<Reply>, Link, seq<Reply>))
    requires Partial(link.incoming)
    ensures Partial(r.1.incoming)
    decreases |schedule|
  {
    var (outcome, after, others) := Received(c, link, schedule);
    match outcome
    case TimedOut => (TimedOut, after, pending)
    case Failed(why) => (Failed(why), after, pending)
    case Got(reply) =>
      if !Expects(request, reply) then (Failed(Unexpected), after, pending)
      else if !reply.RootsChunk? then (Got(reply), after, [])
      else if Size(c, pending + [reply]) > MAX_SNAPSHOT then (Failed(TooBig), after, pending)
      else if reply.more then Completed(c, request, after, pending + [reply], others)
      else (Assemble(pending + [reply]), after, [])
  }

  /** The reply is no answer to the request: neither a refusal, nor what was asked for. */
  predicate Astray(request: Request, reply: Reply) {
    match reply
    case Refused(_) => false
    case StatusReply(_) => !request.GetStatus?
    case Done => !request.Reload?
    case RootsChunk(_, _, _) => !(request.Roots? || request.Subscribe?)
  }

  /** What each reply comes to when it is the next that is read, request by request. */
  lemma {:induction false} CompletedAnswers(c: Codec, request: Request, link: Link, pending: seq<Reply>,
                                            schedule: seq<ReadEvent>)
    requires Partial(link.incoming) && Received(c, link, schedule).0.Got?
    ensures var (got, after, others) := Received(c, link, schedule);
            var reply := got.value;
            && (Astray(request, reply) ==>
                  Completed(c, request, link, pending, schedule) == (Failed(Unexpected), after, pending))
            && (!Astray(request, reply) && !reply.RootsChunk? ==>
                  Completed(c, request, link, pending, schedule) == (Got(reply), after, []))
            && (!Astray(request, reply) && reply.RootsChunk? ==>
                  Completed(c, request, link, pending, schedule)
                  == if Size(c, pending + [reply]) > 16 * 1024 * 1024 then (Failed(TooBig), after, pending)
                     else if reply.more then Completed(c, request, after, pending + [reply], others)
                     else (Assemble(pending + [reply]), after, []))
  {
    hide Received, Size, Assemble;
  }

  method AssembleChunks(pending: seq<Reply>) returns (outcome: Outcome<Reply>)
    ensures outcome == Assemble(pending)
  {
    var roots: seq<Root> := [];
    var generation := None;
    for i := 0 to |pending|
      invariant AssembleFrom(generation, roots, pending[i..]) == Assemble(pending)
    {
      assert pending[i..][0] == pending[i] && pending[i..][1..] == pending[i + 1..];
      match pending[i] {
        case RootsChunk(current, batch, _) =>
          if generation.Some? && generation.value != current {
            return Failed(Mixed);
          }
          generation := Some(current);
          roots := roots + batch;
        case _ =>
      }
    }
    assert pending[|pending|..] == [];
    outcome := Got(RootsChunk(if generation.Some? then generation.value else 0, roots, false));
  }

  method TotalSize(c: Codec, replies: seq<Reply>) returns (size: nat)
    ensures size == Size(c, replies)
  {
    size := 0;
    for i := 0 to |replies|
      invariant size == Size(c, replies[..i])
    {
      assert replies[..i + 1][..i] == replies[..i];
      size := size + |c.encode(replies[i])|;
    }
    assert replies[..|replies|] == replies;
  }

  lemma OneMoreSized(c: Codec, replies: seq<Reply>, reply: Reply)
    ensures Size(c, replies + [reply]) == Size(c, replies) + |c.encode(reply)|
  {
    assert (replies + [reply])[..|replies|] == replies;
  }

  method ReceiveComplete(c: Codec, channel: Channel, request: Request, before: seq<Reply>, schedule: seq<ReadEvent>)
    returns (outcome: Outcome<Reply>, pending: seq<Reply>)
    requires Partial(channel.incoming)
    modifies channel
    ensures (outcome, channel.AsLink(), pending) == Completed(c, request, old(channel.AsLink()), before, schedule)
  {
    hide Partial, Received, Assemble, Size, Expects;
    pending := before;
    var others := schedule;
    var size := TotalSize(c, pending);
    while true
      invariant Partial(channel.incoming) && size == Size(c, pending)
      invariant Completed(c, request, channel.AsLink(), pending, others)
                == Completed(c, request, old(channel.AsLink()), before, schedule)
      decreases |others|
    {
      var got, rest := channel.Receive(c, others);
      match got {
        case TimedOut => return TimedOut, pending;
        case Failed(why) => return Failed(why), pending;
        case Got(reply) =>
          OneMoreSized(c, pending, reply);
          if !Expects(request, reply) {
            return Failed(Unexpected), pending;
          }
          if !reply.RootsChunk? {
            return Got(reply), [];
          }
          size := size + |c.encode(reply)|;
          if size > MAX_SNAPSHOT {
            return Failed(TooBig), pending;
          }
          pending := pending + [reply];
          if !reply.more {
            outcome := AssembleChunks(pending);
            pending := [];
            return;
          }
      }
      others := rest;
    }
  }

  // ---------------------------------------------------------------- subscriptions

  /** An open subscription has its link; a closed one has nothing. */
  datatype Sub = Sub(link: Option<Link>, pending: seq<Reply>)

  ghost predicate Sound(sub: Sub) {
    sub.link.Some? ==> Partial(sub.link.value.incoming)
  }

  /** What the caller is given for a reply. */
  function ReplyResult(outcome: Outcome<Reply>): Outcome<Reply> {
    if outcome.Got? && outcome.value.Refused? then Failed(Denied(outcome.value.message)) else outcome
  }

  /** A refusal is given to the caller as one, with its message, and anything else as it is. */
  lemma RefusalsAreDenied(outcome: Outcome<Reply>)
    ensures forall message :: outcome == Got(Refused(message)) ==> ReplyResult(outcome) == Failed(Denied(message))
    ensures (outcome.Got? ==> !outcome.value.Refused?) ==> ReplyResult(outcome) == outcome
  {}

  /** One call: a deadline that passes keeps what has come in, and any other failure closes the subscription. */
  function Update(c: Codec, request: Request, sub: Sub, schedule: seq<ReadEvent>): (r: (Outcome<Reply>, Sub))
    requires Sound(sub)
    ensures Sound(r.1)
  {
    if sub.link.None? then (Failed(NotConnected), sub)
    else
      var (got, link, pending) := Completed(c, request, sub.link.value, sub.pending, schedule);
      var outcome := ReplyResult(got);
      (outcome, if outcome.Failed? then Sub(None, []) else Sub(Some(link), pending))
  }

  class Subscription {
    const request: Request
    var channel: Channel?
    var pending: seq<Reply>

    ghost function AsSub(): Sub
      reads this, channel
    {
      Sub(if channel == null then None else Some(channel.AsLink()), pending)
    }

    constructor (request: Request, channel: Channel)
      ensures this.request == request && this.channel == channel && pending == []
    {
      this.request, this.channel, pending := request, channel, [];
    }

    method Next(c: Codec, schedule: seq<ReadEvent>) returns (outcome: Outcome<Reply>)
      requires Sound(AsSub()) && (channel == null ==> pending == [])
      modifies this, channel
      ensures (outcome, AsSub()) == Update(c, request, old(AsSub()), schedule)
      ensures channel == null || channel == old(channel)
      ensures Sound(AsSub()) && (channel == null ==> pending == [])
    {
      hide Partial, Completed;
      if channel == null {
        return Failed(NotConnected);
      }
      outcome, pending := ReceiveComplete(c, channel, request, pending, schedule);
      outcome := ReplyResult(outcome);
      if outcome.Failed? {
        channel, pending := null, [];
      }
    }
  }
}
