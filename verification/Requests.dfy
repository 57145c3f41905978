/** The reading of one request, over as many calls as its bytes take to come. */
module Requests {
  import opened Basics
  import opened Messages
  import opened Framing

  /** What one read of the connection gives; running out is the same as there being no more for now. */
  datatype Input = Bytes(data: seq<byte>) | PeerClosed | NoMore | Retry | ReadFailed

  datatype Progress = Incomplete | Arrived(request: Request) | Closed(reply: Option<Reply>)

  /** A payload as a request, or what is wrong with it. */
  type RequestReader = seq<byte> -> Result<Request, string>

  const TOO_LARGE: Progress := Closed(Some(Refused("request too large")))

  /** What a whole payload is answered with. */
  function Decoded(decode: RequestReader, payload: seq<byte>): Progress {
    match decode(payload) case Ok(request) => Arrived(request) case Err(why) => Closed(Some(Refused(why)))
  }

  /** What the bytes so far amount to. A malformed request is answered and the connection closed. */
  function Assess(decode: RequestReader, buf: seq<byte>): Progress {
    if |buf| < 4 then Incomplete
    else
      var length := ReadLittleEndian(buf);
      if length > MAX_MESSAGE then TOO_LARGE
      else if |buf| < 4 + length then Incomplete
      else Decoded(decode, buf[4..4 + length])
  }

  /** One call: take what there is, then see what has come. */
  function AfterRead(decode: RequestReader, buf: seq<byte>, inputs: seq<Input>): (Progress, seq<byte>)
    decreases |inputs|
  {
    if inputs == [] then (Assess(decode, buf), buf)
    else match inputs[0]
      case PeerClosed => (Closed(None), buf)
      case ReadFailed => (Closed(None), buf)
      case NoMore => (Assess(decode, buf), buf)
      case Retry => AfterRead(decode, buf, inputs[1..])
      case Bytes(data) =>
        if data == [] then (Closed(None), buf)
        else if |buf| + |data| > 4 + MAX_MESSAGE then (TOO_LARGE, buf + data)
        else AfterRead(decode, buf + data, inputs[1..])
  }

  class Client {
    var buf: seq<byte>

    constructor ()
      ensures buf == []
    {
      buf := [];
    }

    method Read(decode: RequestReader, inputs: seq<Input>) returns (progress: Progress)
      modifies this
      ensures (progress, buf) == AfterRead(decode, old(buf), inputs)
    {
      hide ReadLittleEndian;
      var others := inputs;
      while others != [] && !others[0].NoMore?
        invariant AfterRead(decode, buf, others) == AfterRead(decode, old(buf), inputs)
        decreases |others|
      {
        match others[0] {
          case Bytes(data) =>
            if data == [] {
              return Closed(None);
            }
            buf := buf + data;
            if |buf| > 4 + MAX_MESSAGE {
              return TOO_LARGE;
            }
          case Retry =>
          case _ => return Closed(None);
        }
        others := others[1..];
      }
      if |buf| < 4 {
        return Incomplete;
      }
      var length := ReadLittleEndian(buf);
      if length > MAX_MESSAGE {
        return TOO_LARGE;
      }
      if |buf| < 4 + length {
        return Incomplete;
      }
      var request := decode(buf[4..4 + length]);
      progress := if request.Ok? then Arrived(request.value) else Closed(Some(Refused(request.error)));
    }
  }

  // ---------------------------------------------------------------- one request on an open connection

  /** The connection stays open and sound. */
  predicate Calm(inputs: seq<Input>) {
    forall v | v in inputs :: v.NoMore? || v.Retry? || (v.Bytes? && v.data != [])
  }

  /** The bytes one call takes. */
  function Data(inputs: seq<Input>): seq<byte> {
    if inputs == [] || inputs[0].NoMore? then []
    else (if inputs[0].Bytes? then inputs[0].data else []) + Data(inputs[1..])
  }

  function AllData(calls: seq<seq<Input>>): seq<byte> {
    if calls == [] then [] else Data(calls[0]) + AllData(calls[1..])
  }

  /** The first answer other than that more is to come. */
  function Answer(decode: RequestReader, buf: seq<byte>, calls: seq<seq<Input>>): Progress
    decreases |calls|
  {
    if calls == [] then Incomplete
    else
      var (progress, after) := AfterRead(decode, buf, calls[0]);
      if progress.Incomplete? then Answer(decode, after, calls[1..]) else progress
  }

  lemma {:induction false} CalmRead(decode: RequestReader, buf: seq<byte>, inputs: seq<Input>)
    requires Calm(inputs) && |buf| + |Data(inputs)| <= 4 + MAX_MESSAGE
    ensures AfterRead(decode, buf, inputs) == (Assess(decode, buf + Data(inputs)), buf + Data(inputs))
    decreases |inputs|
  {
    hide Assess;
    if inputs == [] || inputs[0].NoMore? {
      assert buf + [] == buf;
    } else if inputs[0].Retry? {
      assert [] + Data(inputs[1..]) == Data(inputs[1..]);
      CalmRead(decode, buf, inputs[1..]);
    } else {
      assert inputs[0] in inputs;
      assert buf + (inputs[0].data + Data(inputs[1..])) == buf + inputs[0].data + Data(inputs[1..]);
      CalmRead(decode, buf + inputs[0].data, inputs[1..]);
    }
  }

  lemma {:induction false} AssessPrefix(decode: RequestReader, payload: seq<byte>, buf: seq<byte>)
    requires |payload| <= MAX_MESSAGE && buf <= Frame(payload)
    ensures Assess(decode, buf) == if buf != Frame(payload) then Incomplete
                                   else Decoded(decode, payload)
  {
    hide ReadLittleEndian;
    if |buf| >= 4 {
      LengthReadsBack(|payload|);
      assert forall i | 0 <= i < 4 :: buf[i] == Frame(payload)[i] == LittleEndian(|payload|)[i];
      HeaderDecides(buf, LittleEndian(|payload|));
      if buf == Frame(payload) {
        assert buf[4..4 + |payload|] == payload;
      }
    }
  }

  lemma HeaderDecides(a: seq<byte>, b: seq<byte>)
    requires |a| >= 4 && |b| >= 4 && forall i | 0 <= i < 4 :: a[i] == b[i]
    ensures ReadLittleEndian(a) == ReadLittleEndian(b)
  {}

  /**
    However one request is split, within calls and between them, nothing is answered before its last byte, and then the
    answer is what the request decodes to.
   */
  lemma {:induction false} RequestArrivesWhole(decode: RequestReader, payload: seq<byte>, buf: seq<byte>,
                                               calls: seq<seq<Input>>)
    requires |payload| <= 65_536 && buf + AllData(calls) <= Frame(payload) && buf != Frame(payload)
    requires forall k | 0 <= k < |calls| :: Calm(calls[k])
    ensures Answer(decode, buf, calls)
            == if buf + AllData(calls) != Frame(payload) then Incomplete
               else match decode(payload)
                    case Ok(request) => Arrived(request)
                    case Err(why) => Closed(Some(Refused(why)))
    decreases |calls|
  {
    hide Assess, Frame, Data, Calm, AfterRead;
    if calls == [] {
      assert buf + [] == buf;
    } else {
      var now, later := buf + Data(calls[0]), AllData(calls[1..]);
      assert buf + AllData(calls) == now + later;
      assert now <= Frame(payload);
      FrameLength(payload);
      CalmRead(decode, buf, calls[0]);
      AssessPrefix(decode, payload, now);
      if now == Frame(payload) {
        assert later == [];
        assert now + [] == now;
      } else {
        RequestArrivesWhole(decode, payload, now, calls[1..]);
      }
    }
  }

  lemma {:induction false} CalmOrLarge(decode: RequestReader, buf: seq<byte>, inputs: seq<Input>)
    requires Calm(inputs)
    ensures var r := AfterRead(decode, buf, inputs);
            || r == (Assess(decode, buf + Data(inputs)), buf + Data(inputs))
            || (r.0 == Closed(Some(Refused("request too large"))) && |buf + Data(inputs)| > 4 + 65_536)
    decreases |inputs|
  {
    hide Assess;
    if inputs == [] || inputs[0].NoMore? {
      assert buf + [] == buf;
    } else if inputs[0].Retry? {
      assert [] + Data(inputs[1..]) == Data(inputs[1..]);
      CalmOrLarge(decode, buf, inputs[1..]);
    } else {
      assert inputs[0] in inputs;
      assert buf + (inputs[0].data + Data(inputs[1..])) == buf + inputs[0].data + Data(inputs[1..]);
      CalmOrLarge(decode, buf + inputs[0].data, inputs[1..]);
    }
  }

  lemma {:induction false} AssessOversize(decode: RequestReader, payload: seq<byte>, buf: seq<byte>)
    requires 65_536 < |payload| < 0x1_0000_0000 && buf <= Frame(payload)
    ensures Assess(decode, buf) == if |buf| < 4 then Incomplete else Closed(Some(Refused("request too large")))
  {
    hide ReadLittleEndian;
    if |buf| >= 4 {
      LengthReadsBack(|payload|);
      assert forall i | 0 <= i < 4 :: buf[i] == Frame(payload)[i] == LittleEndian(|payload|)[i];
      HeaderDecides(buf, LittleEndian(|payload|));
    }
  }

  /** One request too large is refused as such as soon as its header has come, however it is split. */
  lemma {:induction false} OversizeIsRefused(decode: RequestReader, payload: seq<byte>, buf: seq<byte>,
                                             calls: seq<seq<Input>>)
    requires 65_536 < |payload| < 0x1_0000_0000 && buf + AllData(calls) <= Frame(payload) && |buf| < 4
    requires forall k | 0 <= k < |calls| :: Calm(calls[k])
    ensures Answer(decode, buf, calls)
            == if |buf + AllData(calls)| < 4 then Incomplete else Closed(Some(Refused("request too large")))
    decreases |calls|
  {
    hide Assess, Frame, Data, Calm, AfterRead;
    if calls == [] {
      assert buf + [] == buf;
    } else {
      var now, later := buf + Data(calls[0]), AllData(calls[1..]);
      assert buf + AllData(calls) == now + later;
      assert now <= Frame(payload);
      CalmOrLarge(decode, buf, calls[0]);
      AssessOversize(decode, payload, now);
      if |now| < 4 {
        OversizeIsRefused(decode, payload, now, calls[1..]);
      }
    }
  }

  lemma FrameLength(payload: seq<byte>)
    ensures |Frame(payload)| == 4 + |payload|
  {}
}
