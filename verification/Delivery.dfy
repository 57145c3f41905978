/** The two ends together: what the calls of a subscription give, against what the daemon sent. */
module Delivery {
  import opened Basics
  import opened Messages
  import opened Framing
  import opened Transfer
  import opened Subscriptions

  /** No message and no snapshot is more than a client accepts. */
  ghost predicate Fits(c: Codec, s: Snapshot) {
    (forall r | r in Chunks(s) :: |c.encode(r)| <= MAX_MESSAGE) && Size(c, Chunks(s)) <= MAX_SNAPSHOT
  }

  function Bytes(c: Codec, s: Snapshot): nat {
    |Frames(c, Chunks(s))|
  }

  /** The snapshots, in order, that a client accepts and that are whole within so many bytes. */
  ghost function Arrived(c: Codec, ss: seq<Snapshot>, bytes: nat): seq<Snapshot> {
    if ss == [] || !Fits(c, ss[0]) || bytes < Bytes(c, ss[0]) then []
    else [ss[0]] + Arrived(c, ss[1..], bytes - Bytes(c, ss[0]))
  }

  // ---------------------------------------------------------------- chunks

  predicate IsChunk(reply: Reply, generation: nat, more: bool) {
    reply.RootsChunk? && reply.generation == generation && reply.more == more
  }

  lemma {:induction false} ChunkShape(generation: nat, roots: seq<Root>, i: nat)
    requires i < |ChunksOf(generation, roots)|
    ensures IsChunk(ChunksOf(generation, roots)[i], generation, i + 1 < |ChunksOf(generation, roots)|)
    decreases |roots|
  {
    if |roots| > ROOTS_PER_CHUNK && i > 0 {
      ChunkShape(generation, roots[ROOTS_PER_CHUNK..], i - 1);
    }
  }

  lemma {:induction false} ChunksAssembleFrom(generation: nat, before: seq<Root>, roots: seq<Root>, seen: Option<nat>)
    requires seen.None? || seen.value == generation
    ensures AssembleFrom(seen, before, ChunksOf(generation, roots)) == Got(RootsChunk(generation, before + roots,
        false))
    decreases |roots|
  {
    var chunks := ChunksOf(generation, roots);
    if |roots| <= ROOTS_PER_CHUNK {
      assert chunks == [RootsChunk(generation, roots, false)] && chunks[1..] == [];
    } else {
      var head, tail := roots[..ROOTS_PER_CHUNK], roots[ROOTS_PER_CHUNK..];
      assert chunks[1..] == ChunksOf(generation, tail);
      ChunksAssembleFrom(generation, before + head, tail, Some(generation));
      assert before + head + tail == before + roots by { assert head + tail == roots; }
    }
  }

  /** Splitting a snapshot into chunks and putting the chunks together again loses nothing and adds nothing. */
  lemma ChunksAssemble(s: Snapshot)
    ensures Assemble(Chunks(s)) == Got(RootsChunk(s.generation, s.roots, false))
  {
    ChunksAssembleFrom(s.generation, [], s.roots, None);
    assert [] + s.roots == s.roots;
  }

  lemma {:induction false} SizeGrows(c: Codec, replies: seq<Reply>, k: nat)
    requires k <= |replies|
    ensures Size(c, replies[..k]) <= Size(c, replies)
  {
    if k == |replies| {
      assert replies[..k] == replies;
    } else {
      assert replies[..|replies| - 1][..k] == replies[..k];
      SizeGrows(c, replies[..|replies| - 1], k);
    }
  }

  // ---------------------------------------------------------------- a client among what was sent

  /** The first `|pending|` chunks of the next snapshot are in hand, and the link carries what follows them. */
  ghost predicate Follows(c: Codec, link: Link, pending: seq<Reply>, ss: seq<Snapshot>) {
    && (if ss == [] then pending == [] else |pending| < |Chunks(ss[0])| && pending == Chunks(ss[0])[..|pending|])
    && |pending| <= |Pieces(ss)|
    && (forall r | r in pending :: |c.encode(r)| <= MAX_MESSAGE)
    && Carries(c, link, Pieces(ss)[|pending|..])
    && ReadBack(c, Pieces(ss)[|pending|..])
  }

  /** The bytes of the chunks in hand, and of all that is still to be read. */
  function Held(c: Codec, link: Link, pending: seq<Reply>): nat {
    |Frames(c, pending)| + |link.incoming| + |link.unread|
  }

  lemma {:induction false} StartFollows(c: Codec, stream: seq<byte>, ss: seq<Snapshot>)
    requires stream <= Frames(c, Pieces(ss)) && ReadBack(c, Pieces(ss))
    ensures Follows(c, Link([], stream), [], ss) && Held(c, Link([], stream), []) == |stream|
  {
    hide ChunksOf;
    FramesNone(c);
    assert [] + stream == stream && Pieces(ss)[0..] == Pieces(ss);
    if ss != [] {
      assert Chunks(ss[0])[..0] == [];
    }
  }

  /** The next reply is the next chunk of the first snapshot. */
  lemma {:induction false} NextPiece(ss: seq<Snapshot>, k: nat)
    requires ss != [] && k < |Chunks(ss[0])|
    ensures k < |Pieces(ss)| && Pieces(ss)[k] == Chunks(ss[0])[k]
    ensures Pieces(ss)[k..][1..] == Pieces(ss)[k + 1..]
    ensures k + 1 == |Chunks(ss[0])| ==> Pieces(ss)[k + 1..] == Pieces(ss[1..])
    ensures IsChunk(Chunks(ss[0])[k], ss[0].generation, k + 1 < |Chunks(ss[0])|)
    ensures Chunks(ss[0])[..k] + [Chunks(ss[0])[k]] == Chunks(ss[0])[..k + 1]
  {
    ChunkShape(ss[0].generation, ss[0].roots, k);
  }

  lemma {:induction false} PendingBytes(c: Codec, pending: seq<Reply>, reply: Reply)
    requires forall r | r in pending + [reply] :: |c.encode(r)| <= MAX_MESSAGE
    ensures Frames(c, pending + [reply]) == Frames(c, pending) + Frame(c.encode(reply))
    ensures |Frame(c.encode(reply))| == 4 + |c.encode(reply)|
  {
    hide Frames;
    assert forall r | r in pending :: r in pending + [reply];
    assert reply in pending + [reply];
    FramesStep(c, pending, reply, []);
    FramesNone(c);
    assert pending + [reply] + [] == pending + [reply];
    assert Frame(c.encode(reply)) + [] == Frame(c.encode(reply));
  }

  lemma {:induction false} FailsForCause(c: Codec, link: Link, pending: seq<Reply>, ss: seq<Snapshot>)
    requires Follows(c, link, pending, ss) && NothingToRead(c, link, Pieces(ss)[|pending|..])
    ensures ss == [] || !Fits(c, ss[0]) || Held(c, link, pending) < Bytes(c, ss[0])
  {
    hide Frames, ChunksOf, Carries, Size;
    if ss != [] && Fits(c, ss[0]) {
      var k := |pending|;
      var chunks := Chunks(ss[0]);
      NextPiece(ss, k);
      var reply := chunks[k];
      assert reply in chunks;
      assert forall r | r in chunks[..k + 1] :: r in chunks;
      assert chunks == chunks[..k + 1] + chunks[k + 1..];
      FramesAppend(c, chunks[..k + 1], chunks[k + 1..]);
      PendingBytes(c, pending, reply);
    }
  }

  /** What one call comes to. */
  ghost predicate Delivers(c: Codec, link: Link, pending: seq<Reply>, ss: seq<Snapshot>,
                           r: (Outcome<Reply>, Link, seq<Reply>)) {
    && (r.0.TimedOut? ==> Follows(c, r.1, r.2, ss) && Held(c, r.1, r.2) == Held(c, link, pending))
    && (r.0.Got? ==>
          && ss != [] && r.0.value == RootsChunk(ss[0].generation, ss[0].roots, false)
          && Fits(c, ss[0]) && r.2 == [] && Follows(c, r.1, [], ss[1..])
          && Held(c, link, pending) == Bytes(c, ss[0]) + Held(c, r.1, []))
  }

  /** There is no next snapshot, or it is one no client accepts, or it never came whole. */
  ghost predicate NoneDue(c: Codec, link: Link, pending: seq<Reply>, ss: seq<Snapshot>) {
    ss == [] || !Fits(c, ss[0]) || Held(c, link, pending) < Bytes(c, ss[0])
  }

  lemma CompletedUnfolds(c: Codec, request: Request, link: Link, pending: seq<Reply>, schedule: seq<ReadEvent>)
    requires Partial(link.incoming)
    ensures var r, done := Received(c, link, schedule), Completed(c, request, link, pending, schedule);
            && (r.0.TimedOut? ==> done == (TimedOut, r.1, pending))
            && (r.0.Failed? ==> done == (Failed(r.0.why), r.1, pending))
            && (r.0.Got? && Expects(request, r.0.value) && r.0.value.RootsChunk? ==>
                  var more := pending + [r.0.value];
                  done == if Size(c, more) > MAX_SNAPSHOT then (Failed(TooBig), r.1, pending)
                          else if r.0.value.more then Completed(c, request, r.1, more, r.2)
                          else (Assemble(more), r.1, []))
  {}

  /** One chunk more is in hand. */
  lemma {:induction false} ChunkIn(c: Codec, link: Link, pending: seq<Reply>, ss: seq<Snapshot>, after: Link)
    requires Follows(c, link, pending, ss) && ss != []
    requires ReadsFirst(c, link, Pieces(ss)[|pending|..], (Got(Pieces(ss)[|pending|..][0]), after, []))
    requires Partial(after.incoming)
    ensures |pending| < |Chunks(ss[0])|
    ensures var reply := Chunks(ss[0])[|pending|];
            && reply == Pieces(ss)[|pending|..][0]
            && IsChunk(reply, ss[0].generation, |pending| + 1 < |Chunks(ss[0])|)
            && pending + [reply] == Chunks(ss[0])[..|pending| + 1]
            && Held(c, after, pending + [reply]) == Held(c, link, pending)
            && (reply.more ==> Follows(c, after, pending + [reply], ss))
            && (!reply.more ==> Follows(c, after, [], ss[1..]) && pending + [reply] == Chunks(ss[0]))
    ensures forall r | r in Chunks(ss[0])[..|pending| + 1] :: |c.encode(r)| <= MAX_MESSAGE
  {
    hide Frames, Frame, ChunksOf, Partial;
    NextPiece(ss, |pending|);
    var reply := Chunks(ss[0])[|pending|];
    assert [] + after.unread == after.unread;
    assert forall r | r in Pieces(ss)[|pending|..][1..] :: r in Pieces(ss)[|pending|..];
    PendingBytes(c, pending, reply);
    if !reply.more {
      assert Pieces(ss[1..])[0..] == Pieces(ss[1..]);
      NoPending(ss[1..]);
    }
  }

  lemma NoPending(ss: seq<Snapshot>)
    ensures if ss == [] then true else 0 < |Chunks(ss[0])| && [] == Chunks(ss[0])[..0]
  {}

  lemma LastChunkIn(c: Codec, link: Link, pending: seq<Reply>, s: Snapshot, after: Link)
    requires forall r | r in Chunks(s) :: |c.encode(r)| <= MAX_MESSAGE
    requires Held(c, after, Chunks(s)) == Held(c, link, pending)
    ensures Held(c, link, pending) == Bytes(c, s) + Held(c, after, [])
  {
    FramesNone(c);
  }

  lemma {:induction false} CompletedDelivers(c: Codec, request: Request, link: Link, pending: seq<Reply>,
                                             ss: seq<Snapshot>, schedule: seq<ReadEvent>)
    requires (request.Roots? || request.Subscribe?) && Follows(c, link, pending, ss)
    ensures Delivers(c, link, pending, ss, Completed(c, request, link, pending, schedule))
    ensures Completed(c, request, link, pending, schedule).0.Failed? && Broken !in schedule ==>
              NoneDue(c, link, pending, ss)
    decreases |schedule|
  {
    hide Received, Completed, Partial, Frames, Frame, ChunksOf, Size, Assemble, Held, ReadBack, Bytes;
    var rest := Pieces(ss)[|pending|..];
    var (outcome, after, others) := Received(c, link, schedule);
    ReceivedIsFirst(c, link, rest, schedule);
    CompletedUnfolds(c, request, link, pending, schedule);
    match outcome {
      case TimedOut =>
        SameHeld(c, link, after, pending);
      case Failed(_) =>
        if Broken !in schedule {
          FailsForCause(c, link, pending, ss);
        }
      case Got(_) =>
        assert ss != [];
        ChunkIn(c, link, pending, ss, after);
        var reply := Chunks(ss[0])[|pending|];
        SizeGrows(c, Chunks(ss[0]), |pending| + 1);
        if Size(c, pending + [reply]) <= MAX_SNAPSHOT {
          if reply.more {
            OthersLater(c, link, schedule);
            CompletedDelivers(c, request, after, pending + [reply], ss, others);
          } else {
            ChunksAssemble(ss[0]);
            LastChunkIn(c, link, pending, ss[0], after);
          }
        }
    }
  }

  lemma SameHeld(c: Codec, a: Link, b: Link, pending: seq<Reply>)
    requires a.incoming + a.unread == b.incoming + b.unread
    ensures Held(c, a, pending) == Held(c, b, pending)
  {
    assert |a.incoming + a.unread| == |b.incoming + b.unread|;
  }

  /** A reader's turns are used up from the front. */
  lemma {:induction false} OthersLater(c: Codec, link: Link, schedule: seq<ReadEvent>)
    requires Partial(link.incoming)
    ensures var others := Received(c, link, schedule).2; Broken !in schedule ==> Broken !in others
    decreases |schedule|
  {
    hide Partial, ReadLittleEndian, Taken;
    if schedule != [] && Needed(link.incoming).More? {
      if schedule[0].NotReady? || schedule[0].ReadInterrupted? {
        OthersLater(c, link, schedule[1..]);
      } else if schedule[0].Arrives? && link.unread != [] {
        var n := Taken(schedule[0].count, Needed(link.incoming).count, |link.unread|);
        PartialGrows(link.incoming, link.unread[..n]);
        OthersLater(c, Link(link.incoming + link.unread[..n], link.unread[n..]), schedule[1..]);
      }
    }
  }

  // ---------------------------------------------------------------- whole runs

  /** The snapshots a run of calls gives, in order. */
  function Successes(c: Codec, request: Request, sub: Sub, calls: seq<seq<ReadEvent>>): seq<Snapshot>
    requires Sound(sub)
    decreases |calls|
  {
    if calls == [] then []
    else
      var (outcome, after) := Update(c, request, sub, calls[0]);
      (if outcome.Got? && outcome.value.RootsChunk? then [Snapshot(outcome.value.generation,
          outcome.value.roots)] else [])
      + Successes(c, request, after, calls[1..])
  }

  function After(c: Codec, request: Request, sub: Sub, calls: seq<seq<ReadEvent>>): (r: Sub)
    requires Sound(sub)
    ensures Sound(r)
    decreases |calls|
  {
    if calls == [] then sub else After(c, request, Update(c, request, sub, calls[0]).1, calls[1..])
  }

  /** No call met a broken connection. */
  ghost predicate Unbroken(calls: seq<seq<ReadEvent>>) {
    forall k | 0 <= k < |calls| :: Broken !in calls[k]
  }

  lemma {:induction false} ClosedGivesNothing(c: Codec, request: Request, sub: Sub, calls: seq<seq<ReadEvent>>)
    requires sub.link.None?
    decreases |calls|
    ensures Successes(c, request, sub, calls) == [] && After(c, request, sub, calls) == sub
  {
    if calls != [] {
      ClosedGivesNothing(c, request, sub, calls[1..]);
    }
  }

  /** The snapshots due from here on. */
  ghost function Due(c: Codec, link: Link, pending: seq<Reply>, ss: seq<Snapshot>): seq<Snapshot> {
    Arrived(c, ss, Held(c, link, pending))
  }

  lemma {:induction false} OneCall(c: Codec, request: Request, link: Link, pending: seq<Reply>, ss: seq<Snapshot>,
                                   schedule: seq<ReadEvent>)
    requires (request.Roots? || request.Subscribe?) && Follows(c, link, pending, ss)
    ensures var r := Update(c, request, Sub(Some(link), pending), schedule);
            && (r.0.Failed? <==> r.1.link.None?)
            && (r.0.TimedOut? ==>
                  && Follows(c, r.1.link.value, r.1.pending, ss)
                  && Due(c, r.1.link.value, r.1.pending, ss) == Due(c, link, pending, ss))
            && (r.0.Got? ==>
                  && ss != [] && r.0.value == RootsChunk(ss[0].generation, ss[0].roots, false)
                  && Follows(c, r.1.link.value, r.1.pending, ss[1..])
                  && Due(c, link, pending, ss) == [ss[0]] + Due(c, r.1.link.value, r.1.pending, ss[1..]))
            && (r.0.Failed? && Broken !in schedule ==> Due(c, link, pending, ss) == [])
  {
    hide Completed, Follows, Held, Bytes, Fits, Partial;
    CompletedDelivers(c, request, link, pending, ss, schedule);
  }

  /**
    Over any run of calls, what a client is given is a prefix of the snapshots it accepts that came whole: never cut
    short, run together or given twice. A subscription that was never broken closes only once it has given them all.
   */
  lemma {:induction false} RunDelivers(c: Codec, request: Request, link: Link, pending: seq<Reply>, ss: seq<Snapshot>,
                                       calls: seq<seq<ReadEvent>>)
    requires (request.Roots? || request.Subscribe?) && Follows(c, link, pending, ss)
    ensures Successes(c, request, Sub(Some(link), pending), calls) <= Due(c, link, pending, ss)
    ensures Unbroken(calls) && After(c, request, Sub(Some(link), pending), calls).link.None? ==>
              Successes(c, request, Sub(Some(link), pending), calls) == Due(c, link, pending, ss)
    decreases |calls|
  {
    hide Update, Follows, Due, Partial;
    FollowsPartial(c, link, pending, ss);
    if calls != [] {
      OneCall(c, request, link, pending, ss, calls[0]);
      var sub := Sub(Some(link), pending);
      var (outcome, after) := Update(c, request, sub, calls[0]);
      assert Unbroken(calls) ==> Broken !in calls[0] && Unbroken(calls[1..]);
      if outcome.Failed? {
        ClosedGivesNothing(c, request, after, calls[1..]);
      } else {
        RunDelivers(c, request, after.link.value, after.pending, if outcome.Got? then ss[1..] else ss, calls[1..]);
      }
    }
  }

  // ---------------------------------------------------------------- progress

  /** Bytes keep arriving for as long as there can be any use for them. */
  predicate LongEnough(link: Link, schedule: seq<ReadEvent>) {
    AllArrive(schedule) && |schedule| > |link.incoming| + 2 * |link.unread|
  }

  lemma {:induction false} BytesOnlyFall(c: Codec, link: Link, schedule: seq<ReadEvent>)
    requires Partial(link.incoming)
    ensures var r := Received(c, link, schedule);
            && (r.0.Got? ==> |r.1.incoming| + |r.1.unread| < |link.incoming| + |link.unread|)
            && |r.1.unread| <= |link.unread|
    decreases |schedule|
  {
    hide Partial, ReadLittleEndian, Taken;
    if schedule != [] && Needed(link.incoming).More? {
      if schedule[0].NotReady? || schedule[0].ReadInterrupted? {
        BytesOnlyFall(c, link, schedule[1..]);
      } else if schedule[0].Arrives? && link.unread != [] {
        var n := Taken(schedule[0].count, Needed(link.incoming).count, |link.unread|);
        PartialGrows(link.incoming, link.unread[..n]);
        BytesOnlyFall(c, Link(link.incoming + link.unread[..n], link.unread[n..]), schedule[1..]);
      }
    }
  }

  lemma {:induction false} Finishes(c: Codec, request: Request, link: Link, pending: seq<Reply>,
      schedule: seq<ReadEvent>)
    requires Partial(link.incoming) && LongEnough(link, schedule)
    ensures !Completed(c, request, link, pending, schedule).0.TimedOut?
    decreases |schedule|
  {
    hide Partial, Received, Expects, AssembleFrom, Size;
    var (outcome, after, others) := Received(c, link, schedule);
    ReceivedMakesProgress(c, link, schedule);
    BytesOnlyFall(c, link, schedule);
    if outcome.Got? {
      AssembleEnds(None, [], pending + [outcome.value]);
      Finishes(c, request, after, pending + [outcome.value], others);
    }
  }

  lemma {:induction false} AssembleEnds(generation: Option<nat>, roots: seq<Root>, pending: seq<Reply>)
    ensures !AssembleFrom(generation, roots, pending).TimedOut?
    decreases |pending|
  {
    if pending != [] {
      match pending[0]
      case RootsChunk(current, batch, _) => AssembleEnds(Some(current), roots + batch, pending[1..]);
      case _ => AssembleEnds(generation, roots, pending[1..]);
    }
  }

  /** With time enough, one call gives the next snapshot exactly when one is due. */
  lemma {:induction false} CallDelivers(c: Codec, request: Request, link: Link, pending: seq<Reply>, ss: seq<Snapshot>,
                                        schedule: seq<ReadEvent>)
    requires (request.Roots? || request.Subscribe?) && Follows(c, link, pending, ss)
    requires LongEnough(link, schedule)
    ensures var r := Update(c, request, Sub(Some(link), pending), schedule);
            r.0.Got? <==> Due(c, link, pending, ss) != []
  {
    hide Completed, Follows, Due, Partial;
    OneCall(c, request, link, pending, ss, schedule);
    FollowsPartial(c, link, pending, ss);
    Finishes(c, request, link, pending, schedule);
    assert Broken !in schedule;
  }

  lemma FollowsPartial(c: Codec, link: Link, pending: seq<Reply>, ss: seq<Snapshot>)
    requires Follows(c, link, pending, ss)
    ensures Partial(link.incoming)
  {}

  // ---------------------------------------------------------------- from the daemon to the client

  /**
    What the peer has been sent: these snapshots whole, and perhaps part of one more, at which the daemon gave up.
   */
  ghost predicate Sent(c: Codec, whole: seq<Snapshot>, last: Option<Snapshot>, stream: seq<byte>) {
    && (forall s | s in whole :: AllWritable(c, Chunks(s)))
    && Frames(c, Pieces(whole)) <= stream
    && var part := stream[|Frames(c, Pieces(whole))|..];
      if last.None? then part == []
      else part <= Frames(c, Chunks(last.value)) && !(AllWritable(c, Chunks(last.value)) && part == Frames(c,
          Chunks(last.value)))
  }

  function Offered(whole: seq<Snapshot>, last: Option<Snapshot>): seq<Snapshot> {
    whole + if last.Some? then [last.value] else []
  }

  /** The snapshots before the first that no client accepts. */
  ghost function Acceptable(c: Codec, ss: seq<Snapshot>): (r: seq<Snapshot>)
    ensures r <= ss
  {
    if ss == [] || !Fits(c, ss[0]) then [] else [ss[0]] + Acceptable(c, ss[1..])
  }

  lemma {:induction false} PiecesAppend(ss: seq<Snapshot>, last: Snapshot)
    ensures Pieces(ss + [last]) == Pieces(ss) + Chunks(last)
  {
    if ss == [] {
      assert ss + [last] == [last] && [last][1..] == [];
      assert Chunks(last) + [] == Chunks(last);
    } else {
      assert (ss + [last])[1..] == ss[1..] + [last];
      PiecesAppend(ss[1..], last);
    }
  }

  lemma {:induction false} PiecesWritable(c: Codec, ss: seq<Snapshot>)
    requires forall s | s in ss :: AllWritable(c, Chunks(s))
    ensures AllWritable(c, Pieces(ss))
  {
    if ss != [] {
      PiecesWritable(c, ss[1..]);
    }
  }

  lemma PiecesFrames(c: Codec, ss: seq<Snapshot>)
    requires ss != [] && forall s | s in ss :: AllWritable(c, Chunks(s))
    ensures Frames(c, Pieces(ss)) == Frames(c, Chunks(ss[0])) + Frames(c, Pieces(ss[1..]))
  {
    FramesAppend(c, Chunks(ss[0]), Pieces(ss[1..]));
  }

  /** Sending one snapshot more: it joins those sent whole if the daemon could send all of it, and ends them if not. */
  lemma {:induction false} SendingExtends(c: Codec, whole: seq<Snapshot>, stream: seq<byte>, s: Snapshot,
                                          after: seq<byte>, ok: bool)
    requires Sent(c, whole, None, stream) && stream <= after && after[|stream|..] <= Frames(c, Chunks(s))
    requires ok <==> AllWritable(c, Chunks(s)) && after == stream + Frames(c, Chunks(s))
    ensures if ok then Sent(c, whole + [s], None, after) else Sent(c, whole, Some(s), after)
  {
    hide Frames, AllWritable, Pieces;
    var sent := Frames(c, Pieces(whole));
    assert stream == sent;
    if ok {
      PiecesAppend(whole, s);
      PiecesWritable(c, whole);
      FramesAppend(c, Pieces(whole), Chunks(s));
      assert Frames(c, Pieces(whole + [s])) == after;
    } else if AllWritable(c, Chunks(s)) {
      assert after == stream + after[|stream|..];
    }
  }

  lemma {:induction false} SentIsOffered(c: Codec, whole: seq<Snapshot>, last: Option<Snapshot>, stream: seq<byte>)
    requires Sent(c, whole, last, stream)
    ensures stream <= Frames(c, Pieces(Offered(whole, last)))
  {
    hide Frames, AllWritable, Pieces;
    var sent := Frames(c, Pieces(whole));
    assert stream == sent + stream[|sent|..];
    if last.Some? {
      PiecesAppend(whole, last.value);
      PiecesWritable(c, whole);
      FramesAppend(c, Pieces(whole), Chunks(last.value));
      PrefixJoins(sent, stream[|sent|..], Frames(c, Chunks(last.value)));
    } else {
      assert whole + [] == whole;
    }
  }

  /** A snapshot of which so many bytes came is not one a client can be given. */
  ghost predicate CutShort(c: Codec, last: Option<Snapshot>, bytes: nat) {
    if last.None? then bytes == 0 else Fits(c, last.value) ==> bytes < Bytes(c, last.value)
  }

  lemma NoPieces()
    ensures Pieces([]) == []
  {}

  lemma {:induction false} ArrivedWhole(c: Codec, whole: seq<Snapshot>, last: Option<Snapshot>, extra: nat)
    requires (forall s | s in whole :: AllWritable(c, Chunks(s))) && CutShort(c, last, extra)
    ensures Arrived(c, Offered(whole, last), |Frames(c, Pieces(whole))| + extra) == Acceptable(c, whole)
  {
    hide Fits, AllWritable, Frames, Chunks, Pieces;
    var all := Offered(whole, last);
    if whole == [] {
      FramesNone(c);
      NoPieces();
      assert all == if last.Some? then [last.value] else [];
    } else {
      PiecesFrames(c, whole);
      assert all[0] == whole[0] && all[1..] == Offered(whole[1..], last);
      if Fits(c, whole[0]) {
        ArrivedWhole(c, whole[1..], last, extra);
      }
    }
  }

  lemma {:induction false} PartIsCutShort(c: Codec, whole: seq<Snapshot>, last: Option<Snapshot>, stream: seq<byte>)
    requires Sent(c, whole, last, stream)
    ensures |stream| >= |Frames(c, Pieces(whole))|
    ensures CutShort(c, last, |stream| - |Frames(c, Pieces(whole))|)
  {
    hide Frames, Pieces, Size;
    if last.Some? && Fits(c, last.value) {
      assert AllWritable(c, Chunks(last.value));
      var part, all := stream[|Frames(c, Pieces(whole))|..], Frames(c, Chunks(last.value));
      assert |part| >= |all| ==> part == all;
    }
  }

  /**
    From the daemon to the client: over any run of calls on what was sent, the client is given a prefix of the
    snapshots sent whole, and one that was never broken closes only when it has been given every one up to the first
    that no client accepts.
   */
  lemma {:induction false} ClientIsGivenWhatWasSent(c: Codec, request: Request, whole: seq<Snapshot>,
                                                    last: Option<Snapshot>, stream: seq<byte>,
                                                        calls: seq<seq<ReadEvent>>)
    requires (request.Roots? || request.Subscribe?) && Sent(c, whole, last, stream)
    requires ReadBack(c, Pieces(Offered(whole, last)))
    ensures var start := Sub(Some(Link([], stream)), []);
            && Successes(c, request, start, calls) <= Acceptable(c, whole) <= whole
            && (Unbroken(calls) && After(c, request, start, calls).link.None? ==>
                  Successes(c, request, start, calls) == Acceptable(c, whole))
  {
    hide Successes, After, Follows, Arrived, Sent, Held, CutShort, Frames, ReadBack;
    var ss := Offered(whole, last);
    SentIsOffered(c, whole, last, stream);
    StartFollows(c, stream, ss);
    RunDelivers(c, request, Link([], stream), [], ss, calls);
    PartIsCutShort(c, whole, last, stream);
    SentWritable(c, whole, last, stream);
    ArrivedWhole(c, whole, last, |stream| - |Frames(c, Pieces(whole))|);
  }

  lemma SentWritable(c: Codec, whole: seq<Snapshot>, last: Option<Snapshot>, stream: seq<byte>)
    requires Sent(c, whole, last, stream)
    ensures forall s | s in whole :: AllWritable(c, Chunks(s))
  {}

  /** The most that one message may hold is not always enough: a single root can pass it, and then a client closes. */
  lemma {:induction false} OversizeCloses(c: Codec, request: Request, generation: nat, root: Root, more: seq<Snapshot>,
                                          stream: seq<byte>, schedule: seq<ReadEvent>)
    requires request.Roots? || request.Subscribe?
    requires |root.der| > MAX_MESSAGE && |c.encode(RootsChunk(generation, [root], false))| >= |root.der|
    requires var ss := [Snapshot(generation, [root])] + more; stream <= Frames(c, Pieces(ss)) && ReadBack(c, Pieces(ss))
    requires LongEnough(Link([], stream), schedule)
    ensures !Fits(c, Snapshot(generation, [root]))
    ensures var r := Update(c, request, Sub(Some(Link([], stream)), []), schedule);
            r.0.Failed? && r.1 == Sub(None, [])
  {
    hide Completed, Follows, Frames, ReadBack, Held, Size, Assemble;
    var s := Snapshot(generation, [root]);
    var ss := [s] + more;
    assert Chunks(s)[0] == RootsChunk(generation, [root], false) && Chunks(s)[0] in Chunks(s);
    StartFollows(c, stream, ss);
    CallDelivers(c, request, Link([], stream), [], ss, schedule);
    Finishes(c, request, Link([], stream), [], schedule);
  }

  /** Nothing sent whole is lost exactly when no message and no snapshot passes a client's limits. */
  lemma {:induction false} AcceptableIsAll(c: Codec, ss: seq<Snapshot>)
    ensures Acceptable(c, ss) == ss <==> forall s | s in ss :: Fits(c, s)
  {
    hide Fits;
    if ss != [] {
      AcceptableIsAll(c, ss[1..]);
      if Fits(c, ss[0]) {
        assert ss == [ss[0]] + ss[1..];
        if Acceptable(c, ss) == ss {
          assert Acceptable(c, ss)[1..] == Acceptable(c, ss[1..]);
        }
      }
    }
  }
}
