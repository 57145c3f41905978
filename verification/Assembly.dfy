/** The other client's way with a root set: every reply first, then the roots out of them. Both ways agree. */
module Assembly {
  import opened Basics
  import opened Messages
  import opened Framing
  import opened Transfer
  import opened Subscriptions

  /** Why `RootsOf` has no root set to give. */
  datatype Refusal = AfterLast | ChangedGeneration | DaemonSaid(message: string) | OtherReply | Incomplete

  function RootsFrom(generation: Option<nat>, roots: seq<Root>, complete: bool, replies: seq<Reply>)
    : Result<Snapshot, Refusal>
    decreases |replies|
  {
    if replies == [] then
      if complete && generation.Some? then Ok(Snapshot(generation.value, roots)) else Err(Incomplete)
    else if complete then Err(AfterLast)
    else match replies[0]
      case RootsChunk(current, batch, more) =>
        if generation.Some? && generation.value != current then Err(ChangedGeneration)
        else RootsFrom(Some(current), roots + batch, !more, replies[1..])
      case Refused(message) => Err(DaemonSaid(message))
      case _ => Err(OtherReply)
  }

  /** What a collected list of replies comes to: one snapshot, or the reason it is none. */
  function RootsIn(replies: seq<Reply>): Result<Snapshot, Refusal> {
    RootsFrom(None, [], false, replies)
  }

  method RootsOf(replies: seq<Reply>) returns (r: Result<Snapshot, Refusal>)
    ensures r == RootsIn(replies)
  {
    var generation := None;
    var roots: seq<Root> := [];
    var complete := false;
    for i := 0 to |replies|
      invariant complete ==> generation.Some?
      invariant RootsFrom(generation, roots, complete, replies[i..]) == RootsIn(replies)
    {
      assert replies[i..][0] == replies[i] && replies[i..][1..] == replies[i + 1..];
      if complete {
        return Err(AfterLast);
      }
      match replies[i] {
        case RootsChunk(current, batch, more) =>
          if generation.Some? && generation.value != current {
            return Err(ChangedGeneration);
          }
          generation := Some(current);
          roots := roots + batch;
          complete := !more;
        case Refused(message) => return Err(DaemonSaid(message));
        case _ => return Err(OtherReply);
      }
    }
    assert replies[|replies|..] == [];
    if !complete {
      return Err(Incomplete);
    }
    r := Ok(Snapshot(generation.value, roots));
  }

  /** Every reply up to the first that says no other follows, within the same budget as a snapshot. */
  function Collected(c: Codec, link: Link, replies: seq<Reply>, schedule: seq<ReadEvent>): Outcome<seq<Reply>>
    requires Partial(link.incoming)
    decreases |schedule|
  {
    var (outcome, after, others) := Received(c, link, schedule);
    match outcome
    case TimedOut => TimedOut
    case Failed(why) => Failed(why)
    case Got(reply) =>
      if Size(c, replies + [reply]) > MAX_SNAPSHOT then Failed(TooBig)
      else if reply.RootsChunk? && reply.more then Collected(c, after, replies + [reply], others)
      else Got(replies + [reply])
  }

  method BoundedCall(c: Codec, channel: Channel, schedule: seq<ReadEvent>) returns (outcome: Outcome<seq<Reply>>)
    requires Partial(channel.incoming)
    modifies channel
    ensures outcome == Collected(c, old(channel.AsLink()), [], schedule)
  {
    hide Partial, Received;
    var replies: seq<Reply> := [];
    var bytes := 0;
    var others := schedule;
    while true
      invariant Partial(channel.incoming) && bytes == Size(c, replies)
      invariant Collected(c, channel.AsLink(), replies, others) == Collected(c, old(channel.AsLink()), [], schedule)
      decreases |others|
    {
      var got, rest := channel.Receive(c, others);
      match got {
        case TimedOut => return TimedOut;
        case Failed(why) => return Failed(why);
        case Got(reply) =>
          assert (replies + [reply])[..|replies|] == replies;
          bytes := bytes + |c.encode(reply)|;
          if bytes > MAX_SNAPSHOT {
            return Failed(TooBig);
          }
          replies := replies + [reply];
          if !(reply.RootsChunk? && reply.more) {
            return Got(replies);
          }
      }
      others := rest;
    }
  }

  // ---------------------------------------------------------------- agreement

  predicate AllMore(replies: seq<Reply>) {
    forall r | r in replies :: r.RootsChunk? && r.more
  }

  /** The whole of what each assembler makes of the chunks so far, and one more reply. */
  lemma {:induction false} AgreeOnReplies(generation: Option<nat>, roots: seq<Root>, pending: seq<Reply>, last: Reply,
                                          s: Snapshot)
    requires AllMore(pending) && (last.RootsChunk? ==> !last.more)
    ensures RootsFrom(generation, roots, false, pending + [last]) == Ok(s)
       <==> last.RootsChunk?
            && AssembleFrom(generation, roots, pending + [last]) == Got(RootsChunk(s.generation, s.roots, false))
    decreases |pending|
  {
    var all := pending + [last];
    if pending == [] {
      assert all == [last] && all[1..] == [];
    } else {
      assert all[1..] == pending[1..] + [last] && all[0] == pending[0] && pending[0] in pending;
      var current, batch := pending[0].generation, pending[0].roots;
      AgreeOnReplies(Some(current), roots + batch, pending[1..], last, s);
    }
  }

  /** The first assembler's root set. */
  predicate Gives(c: Codec, link: Link, before: seq<Reply>, schedule: seq<ReadEvent>, s: Snapshot)
    requires Partial(link.incoming)
  {
    var replies := Collected(c, link, before, schedule);
    replies.Got? && RootsIn(replies.value) == Ok(s)
  }

  lemma {:induction false} AssemblersAgreeFrom(c: Codec, request: Request, link: Link, before: seq<Reply>,
                                               schedule: seq<ReadEvent>, s: Snapshot)
    requires request.Roots? && Partial(link.incoming) && AllMore(before)
    ensures Gives(c, link, before, schedule, s)
       <==> Completed(c, request, link, before, schedule).0 == Got(RootsChunk(s.generation, s.roots, false))
    decreases |schedule|
  {
    hide Received, Partial, RootsFrom, AssembleFrom, Size;
    var (outcome, after, others) := Received(c, link, schedule);
    if outcome.Got? {
      var reply := outcome.value;
      if reply.RootsChunk? && reply.more {
        AssemblersAgreeFrom(c, request, after, before + [reply], others, s);
      } else {
        AgreeOnReplies(None, [], before, reply, s);
      }
    }
  }

  /**
    On every stream and every schedule, collecting the replies of a root request and reading the roots out of them
    gives a root set exactly when completing the reply chunk by chunk gives the same set at the same generation.
   */
  lemma {:induction false} AssemblersAgree(c: Codec, request: Request, link: Link, schedule: seq<ReadEvent>,
      s: Snapshot)
    requires request.Roots? && Partial(link.incoming)
    ensures Gives(c, link, [], schedule, s)
       <==> Completed(c, request, link, [], schedule).0 == Got(RootsChunk(s.generation, s.roots, false))
  {
    AssemblersAgreeFrom(c, request, link, [], schedule, s);
  }
}
