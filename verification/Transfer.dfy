/**
  A root set sent in chunks, and the client that puts snapshots together again. What its calls give is a prefix of
  what was sent, however the bytes are split, whenever its deadlines pass and wherever the daemon's writes stop.
 */
module Transfer {
  import opened Basics
  import opened Messages
  import opened Framing

  const ROOTS_PER_CHUNK: nat := 24

  /** Ceiling on one snapshot's payloads together. */
  const MAX_SNAPSHOT: nat := 16_777_216

  /** The daemon's own ceiling on a payload: what a frame's header can hold. */
  const HEADER_CEILING: dword := 0xFFFF_FFFF

  // ---------------------------------------------------------------- sending

  function ChunksOf(generation: nat, roots: seq<Root>): (r: seq<Reply>)
    ensures r != []
    decreases |roots|
  {
    if |roots| <= ROOTS_PER_CHUNK then [RootsChunk(generation, roots, false)]
    else [RootsChunk(generation, roots[..ROOTS_PER_CHUNK], true)] + ChunksOf(generation, roots[ROOTS_PER_CHUNK..])
  }

  /** A snapshot as replies: at most so many roots in each, and every one but the last says another follows. */
  function Chunks(s: Snapshot): seq<Reply> {
    ChunksOf(s.generation, s.roots)
  }

  function Pieces(ss: seq<Snapshot>): seq<Reply> {
    if ss == [] then [] else Chunks(ss[0]) + Pieces(ss[1..])
  }

  lemma FramesStep(c: Codec, before: seq<Reply>, reply: Reply, after: seq<Reply>)
    requires AllWritable(c, before)
    ensures Frames(c, before + [reply] + after)
            == Frames(c, before) + if Writable(c.encode(reply)) then Frame(c.encode(reply)) + Frames(c, after) else []
  {
    assert before + [reply] + after == before + ([reply] + after);
    assert ([reply] + after)[1..] == after;
    FramesAppend(c, before, [reply] + after);
  }

  lemma PrefixJoins(a: seq<byte>, b: seq<byte>, all: seq<byte>)
    requires b <= all
    ensures a + b <= a + all
  {}

  function ChunkEnd(s: Snapshot, at: nat): (end: nat)
    requires at <= |s.roots|
    ensures at <= end <= |s.roots| && (at < |s.roots| ==> at < end)
  {
    if |s.roots| - at <= ROOTS_PER_CHUNK then |s.roots| else at + ROOTS_PER_CHUNK
  }

  /** The chunk that starts at `at`. */
  function ChunkAt(s: Snapshot, at: nat): Reply
    requires at <= |s.roots|
  {
    RootsChunk(s.generation, s.roots[at..ChunkEnd(s, at)], ChunkEnd(s, at) < |s.roots|)
  }

  lemma {:induction false} NextChunk(s: Snapshot, at: nat)
    requires at <= |s.roots|
    ensures var end := ChunkEnd(s, at);
            ChunksOf(s.generation, s.roots[at..])
            == [ChunkAt(s, at)] + if end < |s.roots| then ChunksOf(s.generation, s.roots[end..]) else []
  {
    hide ChunksOf;
    var end, rest := ChunkEnd(s, at), s.roots[at..];
    ChunksUnfold(s.generation, rest);
    if end == |s.roots| {
      assert rest == s.roots[at..end];
    } else {
      assert rest[..ROOTS_PER_CHUNK] == s.roots[at..end] && rest[ROOTS_PER_CHUNK..] == s.roots[end..];
    }
  }

  lemma ChunksUnfold(generation: nat, roots: seq<Root>)
    ensures ChunksOf(generation, roots)
            == if |roots| <= ROOTS_PER_CHUNK then [RootsChunk(generation, roots, false)]
               else [RootsChunk(generation, roots[..ROOTS_PER_CHUNK], true)] + ChunksOf(generation,
                   roots[ROOTS_PER_CHUNK..])
  {}

  /** A snapshot is cut into chunks of 24 roots and a last of no more, which alone says that none follows. */
  lemma {:induction false} ChunkSizes(generation: nat, roots: seq<Root>, i: nat)
    requires i < |ChunksOf(generation, roots)|
    ensures var chunks := ChunksOf(generation, roots);
            var last := i == |chunks| - 1;
            && 24 * i <= |roots| && (last ==> |roots| - 24 * i <= 24) && (!last ==> |roots| - 24 * i > 24)
            && chunks[i] == RootsChunk(generation, if last then roots[24 * i..] else roots[24 * i..24 * i + 24], !last)
    decreases i
  {
    hide ChunksOf;
    ChunksUnfold(generation, roots);
    if i > 0 {
      var later := ChunksOf(generation, roots[24..]);
      assert ChunksOf(generation, roots)[i] == later[i - 1] && |ChunksOf(generation, roots)| == 1 + |later|;
      ChunkSizes(generation, roots[24..], i - 1);
      var at := 24 * (i - 1);
      assert roots[24..][at..] == roots[24 * i..];
      assert i < |later| ==> roots[24..][at..at + 24] == roots[24 * i..24 * i + 24];
    } else {
      assert roots[0..] == roots;
    }
  }

  /** The bytes a socket takes of these replies, and whether it takes them all. */
  function Pushed(c: Codec, replies: seq<Reply>, schedule: seq<WriteEvent>): (seq<byte>, bool) {
    if replies == [] then ([], true)
    else if !Writable(c.encode(replies[0])) then ([], false)
    else
      var frame := Frame(c.encode(replies[0]));
      var t := Taking(|frame|, schedule);
      if t.whole then
        var rest := Pushed(c, replies[1..], t.others);
        (frame + rest.0, rest.1)
      else (frame[..t.count], false)
  }

  /** What is taken in all, behind what was written before. */
  function Behind(written: seq<byte>, p: (seq<byte>, bool)): (seq<byte>, bool) {
    (written + p.0, p.1)
  }

  /** What is taken is a prefix of the frames, and the whole of them exactly when this says so. */
  lemma {:induction false} PushedIsPrefix(c: Codec, replies: seq<Reply>, schedule: seq<WriteEvent>)
    ensures var p := Pushed(c, replies, schedule);
            p.0 <= Frames(c, replies) && (p.1 <==> AllWritable(c, replies) && p.0 == Frames(c, replies))
  {
    hide Frame, Taking;
    if replies != [] && Writable(c.encode(replies[0])) {
      var frame := Frame(c.encode(replies[0]));
      var t := Taking(|frame|, schedule);
      PushedIsPrefix(c, replies[1..], t.others);
      if t.whole {
        var rest := Pushed(c, replies[1..], t.others).0;
        PrefixJoins(frame, rest, Frames(c, replies[1..]));
        assert (frame + rest)[|frame|..] == rest;
        assert (frame + Frames(c, replies[1..]))[|frame|..] == Frames(c, replies[1..]);
      }
    }
  }

  /** A peer that takes something often enough is sent the whole. */
  lemma {:induction false} PatientPeersAreServed(c: Codec, replies: seq<Reply>, schedule: seq<WriteEvent>)
    requires AllWritable(c, replies) && Patient(schedule) && Accepted(schedule) >= |Frames(c, replies)|
    ensures Pushed(c, replies, schedule) == (Frames(c, replies), true)
  {
    hide Frame, Taking, Accepted, Patient;
    PushedIsPrefix(c, replies, schedule);
    if replies != [] {
      assert replies[0] in replies;
      var frame := Frame(c.encode(replies[0]));
      PatientTakes(|frame|, schedule);
      PatientPeersAreServed(c, replies[1..], Taking(|frame|, schedule).others);
    }
  }

  lemma PushedStep(c: Codec, done: seq<byte>, reply: Reply, after: seq<Reply>, schedule: seq<WriteEvent>)
    ensures var p := Pushed(c, [reply] + after, schedule);
            if !Writable(c.encode(reply)) then p == ([], false)
            else
              var frame := Frame(c.encode(reply));
              var t := Taking(|frame|, schedule);
              if t.whole then
                && Behind(done, p) == Behind(done + frame, Pushed(c, after, t.others))
                && frame[..t.count] == frame
              else p == (frame[..t.count], false)
  {
    hide Frame, Taking;
    assert ([reply] + after)[1..] == after;
    if Writable(c.encode(reply)) {
      var frame := Frame(c.encode(reply));
      var t := Taking(|frame|, schedule);
      assert done + (frame + Pushed(c, after, t.others).0) == done + frame + Pushed(c, after, t.others).0;
    }
  }

  lemma PushedNone(c: Codec, schedule: seq<WriteEvent>)
    ensures Pushed(c, [], schedule) == ([], true)
  {}

  /** Send one reply. */
  method Respond(c: Codec, stream: Stream, reply: Reply, schedule: seq<WriteEvent>) returns (ok: bool)
    modifies stream
    ensures (stream.written, ok) == Behind(old(stream.written), Pushed(c, [reply], schedule))
  {
    hide Frame, Taking, Pushed;
    assert [reply] + [] == [reply] && old(stream.written) + [] == old(stream.written);
    PushedStep(c, old(stream.written), reply, [], schedule);
    var others;
    ok, others := stream.WriteFrame(c.encode(reply), HEADER_CEILING, schedule);
    PushedNone(c, others);
    assert stream.written + [] == stream.written;
  }

  /** Send a snapshot chunk by chunk, until one is not taken whole. */
  method SendRoots(c: Codec, stream: Stream, s: Snapshot, schedule: seq<WriteEvent>) returns (ok: bool)
    modifies stream
    ensures (stream.written, ok) == Behind(old(stream.written), Pushed(c, Chunks(s), schedule))
  {
    hide Frame, Taking, Pushed, ChunksOf, ChunkEnd;
    var others := schedule;
    var at := 0;
    assert s.roots[0..] == s.roots && old(stream.written) + [] == old(stream.written);
    if s.roots == [] {
      var reply := RootsChunk(s.generation, [], false);
      NextChunk(s, 0);
      assert Chunks(s) == [reply];
      ok := Respond(c, stream, reply, schedule);
      return;
    }
    ghost var all := Pushed(c, Chunks(s), schedule);
    while at < |s.roots|
      invariant at <= |s.roots|
      invariant Behind(old(stream.written), all) == Behind(stream.written, Pushed(c, FromChunk(s, at), others))
    {
      var reply, end := ChunkAt(s, at), ChunkEnd(s, at);
      NextChunk(s, at);
      EndsLater(s, at);
      PushedStep(c, stream.written, reply, FromChunk(s, end), others);
      ghost var before := stream.written;
      ok, others := stream.WriteFrame(c.encode(reply), HEADER_CEILING, others);
      if !ok {
        assert before + [] == before;
        return;
      }
      at := end;
    }
    PushedNone(c, others);
    assert stream.written + [] == stream.written;
    ok := true;
  }

  /** The chunks from this root on. */
  function FromChunk(s: Snapshot, at: nat): seq<Reply>
    requires at <= |s.roots|
  {
    if at < |s.roots| then ChunksOf(s.generation, s.roots[at..]) else []
  }

  lemma EndsLater(s: Snapshot, at: nat)
    requires at < |s.roots|
    ensures at < ChunkEnd(s, at) <= |s.roots|
  {}

  lemma FramesNone(c: Codec)
    ensures Frames(c, []) == [] && AllWritable(c, [])
  {}
}
