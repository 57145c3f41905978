/** Length-prefixed frames over a byte stream: written piecemeal by the daemon, put together again by a client. */
module Framing {
  import opened Basics
  import opened Messages

  /** Ceiling on one message, payload only, that a reader accepts. */
  const MAX_MESSAGE: nat := 65_536

  /** One read takes no more than this. */
  const READ_BUFFER: nat := 4_096

  /** How a reply becomes a payload and a payload a reply. */
  datatype Codec = Codec(encode: Reply -> seq<byte>, decode: seq<byte> -> Option<Reply>)

  /** These replies, written, can be read back. */
  ghost predicate ReadBack(c: Codec, replies: seq<Reply>) {
    forall r | r in replies :: c.decode(c.encode(r)) == Some(r)
  }

  // ---------------------------------------------------------------- frames

  function LittleEndian(n: nat): seq<byte> {
    [n % 0x100, n / 0x100 % 0x100, n / 0x1_0000 % 0x100, n / 0x100_0000 % 0x100]
  }

  function ReadLittleEndian(b: seq<byte>): nat
    requires |b| >= 4
  {
    b[0] as int + 0x100 * (b[1] as int) + 0x1_0000 * (b[2] as int) + 0x100_0000 * (b[3] as int)
  }

  lemma LengthReadsBack(n: nat)
    requires n < 0x1_0000_0000
    ensures ReadLittleEndian(LittleEndian(n)) == n
  {
    assert n / 0x1_0000 == n / 0x100 / 0x100 && n / 0x100_0000 == n / 0x1_0000 / 0x100;
  }

  /** A payload's length fits its header, so the writer takes it. */
  predicate Writable(payload: seq<byte>) {
    |payload| < 0x1_0000_0000
  }

  function Frame(payload: seq<byte>): seq<byte> {
    LittleEndian(|payload|) + payload
  }

  /** All the bytes that can be written of these replies: nothing from the first that fits no frame. */
  function Frames(c: Codec, replies: seq<Reply>): seq<byte> {
    if replies == [] || !Writable(c.encode(replies[0])) then []
    else Frame(c.encode(replies[0])) + Frames(c, replies[1..])
  }

  predicate AllWritable(c: Codec, replies: seq<Reply>) {
    forall r | r in replies :: Writable(c.encode(r))
  }

  lemma {:induction false} FramesAppend(c: Codec, a: seq<Reply>, b: seq<Reply>)
    requires AllWritable(c, a)
    ensures Frames(c, a + b) == Frames(c, a) + Frames(c, b)
  {
    if a == [] {
      assert a + b == b;
    } else {
      assert (a + b)[1..] == a[1..] + b;
      FramesAppend(c, a[1..], b);
    }
  }

  // ---------------------------------------------------------------- writing

  /** What one attempt to write meets. */
  datatype WriteEvent = Accepts(count: nat) | WriteLater | WriteFails

  /** How much of what is pending is taken, whether that is all, and what is left of the schedule. */
  datatype Uptake = Uptake(count: nat, whole: bool, others: seq<WriteEvent>)

  /** What writing so many bytes comes to. */
  function Taking(pending: nat, schedule: seq<WriteEvent>): (r: Uptake)
    ensures r.count <= pending && (r.whole <==> r.count == pending)
  {
    if pending == 0 then Uptake(0, true, schedule)
    else if schedule == [] then Uptake(0, false, [])
    else
      match schedule[0]
      case WriteLater => Taking(pending, schedule[1..])
      case WriteFails => Uptake(0, false, schedule[1..])
      case Accepts(count) =>
        if count == 0 then Uptake(0, false, schedule[1..])
        else
          var n := if count < pending then count else pending;
          var r := Taking(pending - n, schedule[1..]);
          Uptake(n + r.count, r.whole, r.others)
  }

  /** The writing end of a connection: every byte its peer has accepted. */
  class Stream {
    var written: seq<byte>

    constructor ()
      ensures written == []
    {
      written := [];
    }

    /**
      Write one frame, however little of it is taken at a time. The daemon's ceiling is what the header can hold; a
      client's is `MAX_MESSAGE`. A schedule that runs out is a deadline that has passed.
     */
    method WriteFrame(payload: seq<byte>, ceiling: dword, schedule: seq<WriteEvent>)
      returns (ok: bool, others: seq<WriteEvent>)
      modifies this
      ensures |payload| > ceiling ==> !ok && others == schedule && written == old(written)
      ensures |payload| <= ceiling ==>
                var frame := Frame(payload);
                var t := Taking(|frame|, schedule);
                ok == t.whole && others == t.others && written == old(written) + frame[..t.count]
    {
      hide Frame, Taking;
      others := schedule;
      if |payload| > ceiling {
        return false, others;
      }
      ghost var frame := Frame(payload);
      var pending := Frame(payload);
      ghost var part: seq<byte> := [];
      ghost var all := Taking(|frame|, schedule);
      assert old(written) + [] == old(written) && part + pending == frame;
      while pending != []
        invariant part + pending == frame && written == old(written) + part
        invariant all == Onward(|part|, Taking(|pending|, others))
        decreases |others|
      {
        TakingStep(|part|, |pending|, others);
        if others == [] {
          assert frame[..all.count] == part;
          return false, others;
        }
        var event := others[0];
        others := others[1..];
        match event {
          case WriteLater =>
          case WriteFails =>
            assert frame[..all.count] == part;
            return false, others;
          case Accepts(count) =>
            if count == 0 {
              assert frame[..all.count] == part;
              return false, others;
            }
            var taken := if count < |pending| then count else |pending|;
            PartGrows(old(written), part, pending, taken);
            written := written + pending[..taken];
            part, pending := part + pending[..taken], pending[taken..];
        }
      }
      NothingPending(others);
      assert frame[..all.count] == part;
      ok := true;
    }
  }

  /** What is taken in all, when so many bytes were taken before. */
  function Onward(before: nat, t: Uptake): Uptake {
    Uptake(before + t.count, t.whole, t.others)
  }

  lemma TakingStep(before: nat, pending: nat, schedule: seq<WriteEvent>)
    requires pending > 0
    ensures schedule == [] ==> Taking(pending, schedule) == Uptake(0, false, [])
    ensures schedule != [] ==>
              match schedule[0]
              case WriteLater => Taking(pending, schedule) == Taking(pending, schedule[1..])
              case WriteFails => Taking(pending, schedule) == Uptake(0, false, schedule[1..])
              case Accepts(count) =>
                if count == 0 then Taking(pending, schedule) == Uptake(0, false, schedule[1..])
                else
                  var n := if count < pending then count else pending;
                  Onward(before, Taking(pending, schedule)) == Onward(before + n, Taking(pending - n, schedule[1..]))
  {}

  lemma NothingPending(schedule: seq<WriteEvent>)
    ensures Taking(0, schedule) == Uptake(0, true, schedule)
  {}

  lemma PartGrows(start: seq<byte>, part: seq<byte>, pending: seq<byte>, n: nat)
    requires n <= |pending|
    ensures start + part + pending[..n] == start + (part + pending[..n])
    ensures part + pending == part + pending[..n] + pending[n..]
  {}

  /** A peer that always comes to take something more. */
  ghost predicate Patient(schedule: seq<WriteEvent>) {
    forall e | e in schedule :: e.WriteLater? || (e.Accepts? && e.count > 0)
  }

  /** How often it takes something. */
  function Accepted(schedule: seq<WriteEvent>): nat {
    if schedule == [] then 0 else (if schedule[0].Accepts? then 1 else 0) + Accepted(schedule[1..])
  }

  /** A peer that takes something often enough takes the whole, and has as many turns left but those it needed. */
  lemma {:induction false} PatientTakes(pending: nat, schedule: seq<WriteEvent>)
    requires Patient(schedule) && Accepted(schedule) >= pending
    ensures var t := Taking(pending, schedule);
            t.whole && Patient(t.others) && Accepted(t.others) >= Accepted(schedule) - pending
    decreases |schedule|
  {
    if pending > 0 {
      var rest := schedule[1..];
      assert forall e | e in rest :: e in schedule;
      assert schedule[0] in schedule;
      if schedule[0].WriteLater? {
        PatientTakes(pending, rest);
      } else {
        PatientTakes(pending - if schedule[0].count < pending then schedule[0].count else pending, rest);
      }
    }
  }

  // ---------------------------------------------------------------- reading

  /** What one turn of a read loop meets; a schedule that runs out is a deadline that has passed. */
  datatype ReadEvent = Arrives(count: nat) | NotReady | ReadInterrupted | Broken | Expired

  datatype Failure =
    | TooLong
    | Malformed
    | Ended
    | Severed
    | Unexpected
    | TooBig
    | Mixed
    | Denied(message: string)
    | NotConnected

  datatype Outcome<T> = Got(value: T) | TimedOut | Failed(why: Failure)

  /** A client's end: what it holds of the next frame, and what the peer has sent and it has yet to read. */
  datatype Link = Link(incoming: seq<byte>, unread: seq<byte>)

  datatype Need = More(count: nat) | Complete | Oversize

  /** No more than one frame has been taken in, so what is still wanted can be counted. */
  predicate Partial(incoming: seq<byte>) {
    |incoming| > 4 ==> ReadLittleEndian(incoming) <= MAX_MESSAGE && |incoming| <= 4 + ReadLittleEndian(incoming)
  }

  /** How much of a frame is still to come. */
  function Needed(incoming: seq<byte>): (r: Need)
    requires Partial(incoming)
    ensures r.More? ==> r.count > 0
  {
    if |incoming| < 4 then More(4 - |incoming|)
    else
      var length := ReadLittleEndian(incoming);
      if length > MAX_MESSAGE then Oversize
      else if |incoming| == 4 + length then Complete
      else More(4 + length - |incoming|)
  }

  function Min(a: nat, b: nat): nat {
    if a < b then a else b
  }

  /** The bytes one successful read gives: at least one, at most what is wanted and what is there. */
  function Taken(count: nat, wanted: nat, there: nat): (n: nat)
    requires wanted > 0 && there > 0
    ensures 0 < n <= wanted && n <= there
  {
    Min(if count == 0 then 1 else count, Min(Min(READ_BUFFER, wanted), there))
  }

  lemma PartialGrows(incoming: seq<byte>, more: seq<byte>)
    requires Partial(incoming) && Needed(incoming).More? && |more| <= Needed(incoming).count
    ensures Partial(incoming + more)
  {}

  /** One reply, or why none: the frame in hand is kept when the deadline passes. */
  function Received(c: Codec, link: Link, schedule: seq<ReadEvent>): (r: (Outcome<Reply>, Link, seq<ReadEvent>))
    requires Partial(link.incoming)
    ensures Partial(r.1.incoming)
    ensures r.0.Got? ==> |r.2| < |schedule|
    decreases |schedule|
  {
    if schedule == [] || schedule[0].Expired? then (TimedOut, link, [])
    else
      var others := schedule[1..];
      match Needed(link.incoming)
      case Oversize => (Failed(TooLong), link, others)
      case Complete =>
        var reply := c.decode(link.incoming[4..]);
        (if reply.Some? then Got(reply.value) else Failed(Malformed), link.(incoming := []), others)
      case More(wanted) =>
        match schedule[0]
        case NotReady => Received(c, link, others)
        case ReadInterrupted => Received(c, link, others)
        case Broken => (Failed(Severed), link, others)
        case Arrives(count) =>
          if link.unread == [] then (Failed(Ended), link, others)
          else
            var n := Taken(count, wanted, |link.unread|);
            PartialGrows(link.incoming, link.unread[..n]);
            Received(c, Link(link.incoming + link.unread[..n], link.unread[n..]), others)
  }

  // ---------------------------------------------------------------- what a reader gets

  /** Between them the client and the socket hold the first bytes of these replies' frames. */
  ghost predicate Carries(c: Codec, link: Link, replies: seq<Reply>) {
    Partial(link.incoming) && link.incoming + link.unread <= Frames(c, replies)
  }

  lemma HeaderIsFirst(c: Codec, link: Link, replies: seq<Reply>)
    requires Carries(c, link, replies) && |link.incoming| >= 4
    ensures replies != [] && Writable(c.encode(replies[0]))
    ensures ReadLittleEndian(link.incoming) == |c.encode(replies[0])|
    ensures |link.incoming| == 4 + |c.encode(replies[0])| ==> link.incoming[4..] == c.encode(replies[0])
  {
    var stream := link.incoming + link.unread;
    var payload := c.encode(replies[0]);
    var frames := Frames(c, replies);
    assert frames == Frame(payload) + Frames(c, replies[1..]);
    assert forall i | 0 <= i < |link.incoming| :: link.incoming[i] == stream[i] == frames[i];
    assert forall i | 0 <= i < 4 :: frames[i] == LittleEndian(|payload|)[i];
    LengthReadsBack(|payload|);
    if |link.incoming| == 4 + |payload| {
      assert forall i | 0 <= i < |payload| :: frames[4 + i] == payload[i];
    }
  }

  lemma StreamSplits(link: Link, n: nat)
    requires n <= |link.unread|
    ensures (link.incoming + link.unread[..n]) + link.unread[n..] == link.incoming + link.unread
  {}

  lemma FirstLeaves(c: Codec, link: Link, replies: seq<Reply>)
    requires Carries(c, link, replies) && Needed(link.incoming).Complete?
    ensures link.incoming + link.unread == Frame(c.encode(replies[0])) + link.unread
    ensures link.unread <= Frames(c, replies[1..])
  {
    HeaderIsFirst(c, link, replies);
    var payload := c.encode(replies[0]);
    var frames := Frames(c, replies);
    var stream := link.incoming + link.unread;
    assert frames == Frame(payload) + Frames(c, replies[1..]);
    assert forall i | 0 <= i < |stream| :: stream[i] == frames[i];
    assert link.incoming == Frame(payload) by {
      assert forall i | 0 <= i < |Frame(payload)| :: link.incoming[i] == stream[i] == Frame(payload)[i];
    }
    assert forall i | 0 <= i < |link.unread| :: link.unread[i] == stream[|link.incoming| + i];
  }

  /** What one frame's reader comes to, for every fragmentation. */
  ghost predicate ReadsFirst(c: Codec, link: Link, replies: seq<Reply>, r: (Outcome<Reply>, Link, seq<ReadEvent>)) {
    var stream := link.incoming + link.unread;
    && (r.0.TimedOut? ==> r.1.incoming + r.1.unread == stream)
    && (r.0.Got? ==>
          && replies != [] && r.0.value == replies[0]
          && |c.encode(replies[0])| <= MAX_MESSAGE
          && r.1.incoming == []
          && stream == Frame(c.encode(replies[0])) + r.1.unread
          && r.1.unread <= Frames(c, replies[1..]))
  }

  /** The reader can only fail, on a sound connection, once nothing more that it accepts is to come. */
  ghost predicate NothingToRead(c: Codec, link: Link, replies: seq<Reply>) {
    || replies == []
    || |c.encode(replies[0])| > MAX_MESSAGE
    || |link.incoming + link.unread| < 4 + |c.encode(replies[0])|
  }

  lemma {:induction false} ReceivedIsFirst(c: Codec, link: Link, replies: seq<Reply>, schedule: seq<ReadEvent>)
    requires ReadBack(c, replies) && Carries(c, link, replies)
    ensures ReadsFirst(c, link, replies, Received(c, link, schedule))
    ensures Received(c, link, schedule).0.Failed? && Broken !in schedule ==> NothingToRead(c, link, replies)
    decreases |schedule|
  {
    hide Frames, Frame, ReadLittleEndian, Taken, Partial;
    if schedule != [] && !schedule[0].Expired? {
      if |link.incoming| >= 4 {
        HeaderIsFirst(c, link, replies);
      }
      if Needed(link.incoming).Complete? {
        FirstLeaves(c, link, replies);
      } else if Needed(link.incoming).More? && schedule[0].Arrives? && link.unread != [] {
        var wanted := Needed(link.incoming).count;
        var n := Taken(schedule[0].count, wanted, |link.unread|);
        PartialGrows(link.incoming, link.unread[..n]);
        StreamSplits(link, n);
        ReceivedIsFirst(c, Link(link.incoming + link.unread[..n], link.unread[n..]), replies, schedule[1..]);
      } else if Needed(link.incoming).More? && (schedule[0].NotReady? || schedule[0].ReadInterrupted?) {
        ReceivedIsFirst(c, link, replies, schedule[1..]);
      }
    }
  }

  predicate AllArrive(schedule: seq<ReadEvent>) {
    forall v | v in schedule :: v.Arrives?
  }

  /** One turn of the read loop when bytes arrive. */
  lemma ReceivedArrives(c: Codec, link: Link, schedule: seq<ReadEvent>)
    requires Partial(link.incoming) && schedule != [] && schedule[0].Arrives?
    ensures var need := Needed(link.incoming);
            && (!need.More? || link.unread == [] ==>
                  var r := Received(c, link, schedule);
                  !r.0.TimedOut? && r.1.unread == link.unread && r.2 == schedule[1..])
            && (need.More? && link.unread != [] ==>
                  var n := Taken(schedule[0].count, need.count, |link.unread|);
                  && Partial(link.incoming + link.unread[..n])
                  && Received(c, link, schedule)
                     == Received(c, Link(link.incoming + link.unread[..n], link.unread[n..]), schedule[1..]))
  {
    hide ReadLittleEndian, Taken, Partial;
    if Needed(link.incoming).More? && link.unread != [] {
      PartialGrows(link.incoming, link.unread[..Taken(schedule[0].count, Needed(link.incoming).count, |link.unread|)]);
    }
  }

  /** While bytes keep arriving, every turn takes at least one, and one more turn ends the frame. */
  lemma {:induction false} ReceivedMakesProgress(c: Codec, link: Link, schedule: seq<ReadEvent>)
    requires Partial(link.incoming) && AllArrive(schedule)
    ensures var r := Received(c, link, schedule);
            && |r.1.unread| <= |link.unread| && AllArrive(r.2)
            && (r.0.TimedOut? ==> |schedule| <= |link.unread| - |r.1.unread|)
            && (r.0.Got? ==> |schedule| - |r.2| <= |link.unread| - |r.1.unread| + 1)
    decreases |schedule|
  {
    if schedule == [] {
      assert Received(c, link, schedule) == (TimedOut, link, []);
    } else {
      hide ReadLittleEndian, Taken, Partial, Received, Needed;
      ReceivedArrives(c, link, schedule);
      assert forall v | v in schedule[1..] :: v in schedule;
      var need := Needed(link.incoming);
      if need.More? && link.unread != [] {
        var n := Taken(schedule[0].count, need.count, |link.unread|);
        ReceivedMakesProgress(c, Link(link.incoming + link.unread[..n], link.unread[n..]), schedule[1..]);
      }
    }
  }

  /** A client's end of a connection, over the bytes the peer will have sent. */
  class Channel {
    var incoming: seq<byte>
    var unread: seq<byte>

    ghost function AsLink(): Link
      reads this
    {
      Link(incoming, unread)
    }

    constructor (unread: seq<byte>)
      ensures AsLink() == Link([], unread)
    {
      incoming := [];
      this.unread := unread;
    }

    method Receive(c: Codec, schedule: seq<ReadEvent>) returns (outcome: Outcome<Reply>, others: seq<ReadEvent>)
      requires Partial(incoming)
      modifies this
      ensures (outcome, AsLink(), others) == Received(c, old(AsLink()), schedule)
    {
      hide Partial, ReadLittleEndian, Taken;
      others := schedule;
      while true
        invariant Partial(incoming)
        invariant Received(c, AsLink(), others) == Received(c, old(AsLink()), schedule)
        decreases |others|
      {
        if others == [] || others[0].Expired? {
          return TimedOut, [];
        }
        var event := others[0];
        var wanted: nat;
        match Needed(incoming) {
          case Oversize =>
            return Failed(TooLong), others[1..];
          case Complete =>
            var reply := c.decode(incoming[4..]);
            incoming := [];
            return if reply.Some? then Got(reply.value) else Failed(Malformed), others[1..];
          case More(count) =>
            wanted := count;
        }
        match event {
          case NotReady =>
          case ReadInterrupted =>
          case Broken =>
            return Failed(Severed), others[1..];
          case Arrives(count) =>
            if unread == [] {
              return Failed(Ended), others[1..];
            }
            var n := Taken(count, wanted, |unread|);
            PartialGrows(incoming, unread[..n]);
            incoming, unread := incoming + unread[..n], unread[n..];
        }
        others := others[1..];
      }
    }
  }
}
