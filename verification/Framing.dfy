/** transcript.py:20-46: length-prefixed frames over a byte stream that the socket hands out in
    pieces of its own choosing. */
module Framing {
  import opened Bytes

  const MAX_FRAME := 4194304

  /** The bytes `send_frame` writes. */
  function Frame(payload: bytes): Result<bytes> {
    if |payload| < Pow256(4) then Ok(BE(|payload|, 4) + payload) else Err(DoesNotFit)
  }

  /** One TCP connection seen from one end: the bytes still to arrive before the peer closes, and
      the bytes sent. */
  class Socket {
    var incoming: bytes
    var outgoing: bytes

    constructor (stream: bytes)
      ensures incoming == stream && outgoing == []
    {
      incoming := stream;
      outgoing := [];
    }

    /** `recv`: any non-empty piece of at most n bytes, or nothing once the peer has closed. */
    method Recv(n: nat) returns (chunk: bytes)
      requires 0 < n
      modifies this`incoming
      ensures old(incoming) == chunk + incoming && |chunk| <= n
      ensures chunk == [] <==> old(incoming) == []
    {
      if incoming == [] {
        return [];
      }
      var k: nat :| 1 <= k && k <= n && k <= |incoming|;
      chunk := incoming[..k];
      incoming := incoming[k..];
    }

    method SendAll(data: bytes)
      modifies this`outgoing
      ensures outgoing == old(outgoing) + data
    {
      outgoing := outgoing + data;
    }

    /** `_recv_exactly` */
    method RecvExactly(n: nat) returns (r: Result<bytes>)
      modifies this`incoming
      ensures |old(incoming)| >= n ==> r == Ok(old(incoming)[..n]) && incoming == old(incoming)[n..]
      ensures |old(incoming)| < n ==> r == Err(PeerClosed) && incoming == []
    {
      var buf: bytes := [];
      while |buf| < n
        invariant |buf| <= n && old(incoming) == buf + incoming
        decreases n - |buf|
      {
        var chunk := Recv(n - |buf|);
        if chunk == [] {
          return Err(PeerClosed);
        }
        buf := buf + chunk;
      }
      return Ok(buf);
    }

    /** `recv_frame` */
    method RecvFrame() returns (r: Result<bytes>)
      modifies this`incoming
      ensures NextFrame(old(incoming)).Ok? ==>
        r == Ok(NextFrame(old(incoming)).value.0) && incoming == NextFrame(old(incoming)).value.1
      ensures NextFrame(old(incoming)).Err? ==> r == Err(NextFrame(old(incoming)).error)
      ensures |incoming| <= |old(incoming)| && (r.Ok? ==> |incoming| < |old(incoming)|)
    {
      var header :- RecvExactly(4);
      var length := Value(header);
      if length > MAX_FRAME {
        return Err(FrameTooLarge);
      }
      ghost var rest := incoming;
      r := RecvExactly(length);
      assert rest == old(incoming)[4..];
      assert |rest| >= length ==>
        rest[..length] == old(incoming)[4..4 + length] && rest[length..] == old(incoming)[4 + length..];
    }

    /** `send_frame` */
    method SendFrame(payload: bytes) returns (r: Result<()>)
      modifies this`outgoing
      ensures r == if Frame(payload).Ok? then Ok(()) else Err(DoesNotFit)
      ensures outgoing == old(outgoing) + (if Frame(payload).Ok? then Frame(payload).value else [])
    {
      if |payload| >= Pow256(4) {
        return Err(DoesNotFit);
      }
      SendAll(BE(|payload|, 4) + payload);
      return Ok(());
    }
  }

  /** The first frame of a stream and the stream after it, however the socket cuts it. */
  function NextFrame(stream: bytes): Result<(bytes, bytes)> {
    if |stream| < 4 then Err(PeerClosed)
    else
      var n := Value(stream[..4]);
      if n > MAX_FRAME then Err(FrameTooLarge)
      else if |stream| < 4 + n then Err(PeerClosed)
      else Ok((stream[4..4 + n], stream[4 + n..]))
  }

  /** What `send_frame` sends without raising. */
  predicate Sendable(payloads: seq<bytes>) {
    forall i :: 0 <= i < |payloads| ==> |payloads[i]| < Pow256(4)
  }

  /** What `recv_frame` accepts. */
  predicate Receivable(payloads: seq<bytes>) {
    forall i :: 0 <= i < |payloads| ==> |payloads[i]| <= MAX_FRAME
  }

  /** The stream of a list of frames. */
  function Stream(payloads: seq<bytes>): bytes
    requires Sendable(payloads)
  {
    if payloads == [] then [] else Frame(payloads[0]).value + Stream(payloads[1..])
  }

  lemma {:induction false} StreamSnoc(payloads: seq<bytes>, payload: bytes)
    requires Sendable(payloads) && |payload| < Pow256(4)
    ensures Sendable(payloads + [payload]) && Stream(payloads + [payload]) == Stream(payloads) + Frame(payload).value
  {
    if payloads == [] {
      assert [payload][1..] == [] && [] + [payload] == [payload];
      assert Stream([payload]) == Frame(payload).value + Stream([payload][1..]);
    } else {
      StreamSnoc(payloads[1..], payload);
      assert (payloads + [payload])[1..] == payloads[1..] + [payload];
      Assoc(Frame(payloads[0]).value, Stream(payloads[1..]), Frame(payload).value);
    }
  }

  /** k frames read one after the other, or the first error. */
  function ReadFrames(k: nat, stream: bytes): Result<(seq<bytes>, bytes)> {
    if k == 0 then Ok(([], stream))
    else
      var (payload, rest) :- NextFrame(stream);
      var (more, last) :- ReadFrames(k - 1, rest);
      Ok(([payload] + more, last))
  }

  /** A sent frame is received exactly up to MAX_FRAME bytes; a longer one is refused at its header. */
  lemma NextOfFrame(payload: bytes, rest: bytes)
    requires |payload| < Pow256(4)
    ensures NextFrame(Frame(payload).value + rest) ==
      if |payload| <= MAX_FRAME then Ok((payload, rest)) else Err(FrameTooLarge)
  {
    var s := Frame(payload).value + rest;
    assert s[..4] == BE(|payload|, 4);
    assert s[4..4 + |payload|] == payload && s[4 + |payload|..] == rest;
  }

  /** Reading past one sent frame. */
  lemma ReadOn(k: nat, payload: bytes, rest: bytes)
    requires |payload| < Pow256(4)
    ensures ReadFrames(k + 1, Frame(payload).value + rest) ==
      if |payload| > MAX_FRAME then Err(FrameTooLarge)
      else
        match ReadFrames(k, rest)
        case Err(e) => Err(e)
        case Ok((more, last)) => Ok(([payload] + more, last))
  {
    NextOfFrame(payload, rest);
  }

  lemma ReceivableTail(payloads: seq<bytes>)
    requires payloads != []
    ensures Receivable(payloads) <==> |payloads[0]| <= MAX_FRAME && Receivable(payloads[1..])
  {
    if Receivable(payloads[1..]) {
      assert forall i :: 0 < i < |payloads| ==> payloads[i] == payloads[1..][i - 1];
    }
  }

  /** Reading as many frames as were sent returns exactly the payloads, in order, and what follows; if one is
      longer than MAX_FRAME, the sender has sent it and the receiver refuses it. */
  lemma {:induction false} FramesArrive(payloads: seq<bytes>, rest: bytes)
    requires Sendable(payloads)
    ensures ReadFrames(|payloads|, Stream(payloads) + rest) ==
      if Receivable(payloads) then Ok((payloads, rest)) else Err(FrameTooLarge)
  {
    if payloads == [] {
      assert Stream(payloads) + rest == rest;
    } else {
      var first, more := payloads[0], payloads[1..];
      ReceivableTail(payloads);
      ReadOn(|more|, first, Stream(more) + rest);
      FramesArrive(more, rest);
      Assoc(Frame(first).value, Stream(more), rest);
      assert payloads == [first] + more;
    }
  }

  lemma CutFrame(payload: bytes, stream: bytes)
    requires |payload| < Pow256(4) && stream < Frame(payload).value
    ensures NextFrame(stream) == Err(if |stream| >= 4 && |payload| > MAX_FRAME then FrameTooLarge else PeerClosed)
  {
    if |stream| >= 4 {
      assert stream[..4] == Frame(payload).value[..4] == BE(|payload|, 4);
    }
  }

  /** A stream cut anywhere inside its frames ends in an error and never in a shorter payload: the peer has
      closed, unless a frame was too long. */
  lemma {:induction false} CutStream(payloads: seq<bytes>, stream: bytes)
    requires Sendable(payloads) && stream < Stream(payloads)
    ensures ReadFrames(|payloads|, stream).Err?
    ensures Receivable(payloads) ==> ReadFrames(|payloads|, stream) == Err(PeerClosed)
  {
    var first := Frame(payloads[0]).value;
    ReceivableTail(payloads);
    if |stream| < |first| {
      assert stream == first[..|stream|];
      CutFrame(payloads[0], stream);
    } else {
      var rest := stream[|first|..];
      assert stream == first + rest;
      ReadOn(|payloads| - 1, payloads[0], rest);
      assert rest < Stream(payloads[1..]);
      CutStream(payloads[1..], rest);
    }
  }
}
