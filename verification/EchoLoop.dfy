/** The encrypted echo service of server.py:186-206. */
module EchoLoop {
  import opened Bytes
  import opened Wire
  import opened Codec
  import opened Framing
  import opened Record

  /** How the loop ends: it stops by itself, or an exception leaves it. */
  datatype Exit = Stopped | Refused(reason: Error) | Raised(error: Error)

  /** The reply to the k-th plaintext: its log entry and its frame; None when its record or its encoding
      does not fit. */
  function ReplyOf(cipher: (bytes, bytes, bytes) -> bytes, iv: bytes, k: nat, reply: bytes): Option<(Sealed, bytes)>
    requires |iv| == IV_LEN
  {
    match SealRecord(cipher, iv, CT_APP_DATA, k, reply)
    case None => None
    case Some(e) =>
      match EncodeAppData(AppData(k, e.ciphertext))
      case Err(_) => None
      case Ok(m) => match Frame(m) case Err(_) => None case Ok(f) => Some((e, f))
  }

  /** The log entries of the replies to a list of plaintexts, the k-th sealed with sequence number k, and
      the bytes sent once they follow what was sent before. */
  function Replies(cipher: (bytes, bytes, bytes) -> bytes, iv: bytes, echo: bytes -> bytes, before: bytes,
                   accepted: seq<bytes>): Option<(seq<Sealed>, bytes)>
    requires |iv| == IV_LEN
  {
    if accepted == [] then Some(([], before))
    else
      var k := |accepted| - 1;
      FollowedBy(Replies(cipher, iv, echo, before, accepted[..k]), ReplyOf(cipher, iv, k, echo(accepted[k])))
  }

  function FollowedBy(replies: Option<(seq<Sealed>, bytes)>, reply: Option<(Sealed, bytes)>)
    : Option<(seq<Sealed>, bytes)>
  {
    if replies.Some? && reply.Some? then
      Some((replies.value.0 + [reply.value.0], replies.value.1 + reply.value.1))
    else None
  }

  /** What has been sealed and sent in reply: the i-th record seals the echo of the i-th plaintext with number i, and
      the bytes are one AppData frame per record. */
  ghost predicate RepliesTo(cipher: (bytes, bytes, bytes) -> bytes, iv: bytes, echo: bytes -> bytes, before: bytes,
                            accepted: seq<bytes>, log: seq<Sealed>, sent: bytes, payloads: seq<bytes>)
    requires |iv| == IV_LEN
  {
    Sendable(payloads) && sent == before + Stream(payloads) && EachReply(cipher, iv, echo, accepted, log, payloads)
  }

  ghost predicate EachReply(cipher: (bytes, bytes, bytes) -> bytes, iv: bytes, echo: bytes -> bytes,
                            accepted: seq<bytes>, log: seq<Sealed>, payloads: seq<bytes>)
    requires |iv| == IV_LEN
  {
    |log| == |payloads| == |accepted| <= Pow256(8) &&
    forall i :: 0 <= i < |accepted| ==> ReplyRecord(cipher, iv, i, echo(accepted[i]), log[i], payloads[i])
  }

  predicate ReplyRecord(cipher: (bytes, bytes, bytes) -> bytes, iv: bytes, i: nat, reply: bytes, e: Sealed,
                        payload: bytes)
    requires |iv| == IV_LEN
  {
    && i < Pow256(8) && |reply| + TAG_LEN < Pow256(4)
    && e.plaintext == reply && e.nonce == Nonce(iv, i) && e.aad == Aad(CT_APP_DATA, i, |reply| + TAG_LEN)
    && e.ciphertext == cipher(e.nonce, e.aad, reply)
    && EncodeAppData(AppData(i, e.ciphertext)) == Ok(payload)
  }

  /** The k-th reply really seals the echo of the k-th plaintext. */
  lemma {:induction false} RepliesSeal(cipher: (bytes, bytes, bytes) -> bytes, iv: bytes, echo: bytes -> bytes,
                                       before: bytes, accepted: seq<bytes>) returns (payloads: seq<bytes>)
    requires |iv| == IV_LEN && Replies(cipher, iv, echo, before, accepted).Some?
    ensures var (log, sent) := Replies(cipher, iv, echo, before, accepted).value;
      RepliesTo(cipher, iv, echo, before, accepted, log, sent, payloads)
  {
    if accepted == [] {
      payloads := [];
      assert before + Stream([]) == before;
    } else {
      var k := |accepted| - 1;
      var (log, sent) := Replies(cipher, iv, echo, before, accepted[..k]).value;
      var earlier := RepliesSeal(cipher, iv, echo, before, accepted[..k]);
      var (e, frame) := ReplyOf(cipher, iv, k, echo(accepted[k])).value;
      var payload := EncodeAppData(AppData(k, e.ciphertext)).value;
      payloads := earlier + [payload];
      RepliesGrow(cipher, iv, echo, before, accepted[..k], accepted[k], log, sent, earlier, e, payload);
      assert accepted[..k] + [accepted[k]] == accepted;
    }
  }

  lemma RepliesGrow(cipher: (bytes, bytes, bytes) -> bytes, iv: bytes, echo: bytes -> bytes, before: bytes,
                    accepted: seq<bytes>, p: bytes, log: seq<Sealed>, sent: bytes, payloads: seq<bytes>,
                    e: Sealed, payload: bytes)
    requires |iv| == IV_LEN && RepliesTo(cipher, iv, echo, before, accepted, log, sent, payloads)
    requires ReplyRecord(cipher, iv, |accepted|, echo(p), e, payload) && |payload| < Pow256(4)
    ensures RepliesTo(cipher, iv, echo, before, accepted + [p], log + [e], sent + Frame(payload).value,
                      payloads + [payload])
  {
    StreamSnoc(payloads, payload);
    Assoc(before, Stream(payloads), Frame(payload).value);
    EachGrows(cipher, iv, echo, accepted, p, log, payloads, e, payload);
  }

  lemma EachGrows(cipher: (bytes, bytes, bytes) -> bytes, iv: bytes, echo: bytes -> bytes, accepted: seq<bytes>,
                  p: bytes, log: seq<Sealed>, payloads: seq<bytes>, e: Sealed, payload: bytes)
    requires |iv| == IV_LEN && EachReply(cipher, iv, echo, accepted, log, payloads)
    requires ReplyRecord(cipher, iv, |accepted|, echo(p), e, payload)
    ensures EachReply(cipher, iv, echo, accepted + [p], log + [e], payloads + [payload])
  {
    var ps, es, ms := accepted + [p], log + [e], payloads + [payload];
    forall i | 0 <= i < |ps| ensures ReplyRecord(cipher, iv, i, echo(ps[i]), es[i], ms[i]) {
      if i < |accepted| {
        assert ps[i] == accepted[i] && es[i] == log[i] && ms[i] == payloads[i];
      }
    }
  }

  /** The client opens the i-th reply, received as the i-th record, to the echo of the i-th plaintext. */
  lemma ReplyOpens(cipher: (bytes, bytes, bytes) -> bytes, iv: bytes, echo: bytes -> bytes, before: bytes,
                   accepted: seq<bytes>, log: seq<Sealed>, sent: bytes, payloads: seq<bytes>, i: nat)
    requires |iv| == IV_LEN && RepliesTo(cipher, iv, echo, before, accepted, log, sent, payloads)
    requires i < |accepted| && |log[i].ciphertext| == |log[i].plaintext| + TAG_LEN
    ensures OpenRecord(log, iv, CT_APP_DATA, i, i, log[i].ciphertext) == Ok(echo(accepted[i]))
    ensures Starts(EncodeAppData(AppData(i, log[i].ciphertext)), payloads[i])
  {
    forall k | 0 <= k < |log| ensures log[k].nonce == Nonce(iv, k) {
      assert ReplyRecord(cipher, iv, k, echo(accepted[k]), log[k], payloads[k]);
    }
    assert ReplyRecord(cipher, iv, i, echo(accepted[i]), log[i], payloads[i]);
    OwnRecordOpens(log, iv, i);
  }

  /** The bytes `_alert` manages to send. */
  function AlertFrame(text: bytes): bytes {
    match EncodeAlert(Alert(2, text))
    case Err(_) => []
    case Ok(m) => match Frame(m) case Err(_) => [] case Ok(f) => f
  }

  /** An alert whose text fits is one frame that decodes to a fatal alert with this text; a longer text sends
      nothing. */
  lemma AlertArrives(text: bytes, rest: bytes) returns (m: bytes)
    ensures if |text| < 65536 then
        NextFrame(AlertFrame(text) + rest) == Ok((m, rest)) && Starts(EncodeAlert(Alert(2, text)), m)
      else AlertFrame(text) == []
  {
    Widths();
    AlertOnWire(Alert(2, text));
    m := [];
    if |text| < 65536 {
      m := EncodeAlert(Alert(2, text)).value;
      NextOfFrame(m, rest);
    }
  }

  method SendAlert(conn: Socket, text: bytes)
    modifies conn`outgoing
    ensures conn.outgoing == old(conn.outgoing) + AlertFrame(text)
  {
    var m := EncodeAlert(Alert(2, text));
    if m.Ok? {
      var _ := conn.SendFrame(m.value);
    }
  }

  /** Sealing and sending one reply. */
  method Reply(conn: Socket, sendEnc: DirectionState, reply: bytes) returns (r: Result<()>)
    requires sendEnc.Valid()
    modifies conn`outgoing, sendEnc, sendEnc.aead
    ensures sendEnc.seqNum == old(sendEnc.seqNum) + 1
    ensures match ReplyOf(sendEnc.aead.cipher, sendEnc.iv, old(sendEnc.seqNum), reply)
            case None => r == Err(DoesNotFit) && conn.outgoing == old(conn.outgoing)
            case Some((e, frame)) =>
              && r.Ok? && conn.outgoing == old(conn.outgoing) + frame
              && sendEnc.aead.log == old(sendEnc.aead.log) + [e]
  {
    var record :- sendEnc.Encrypt(CT_APP_DATA, reply);
    var (k, ciphertext) := record;
    var m :- EncodeAppData(AppData(k, ciphertext));
    r := conn.SendFrame(m);
    if r.Err? {
      assert Frame(m).Err?;
    }
  }

  // ---------------------------------------------------------------- what the loop does, as a function

  /** One frame handled: answered, or the loop is left. */
  datatype Handled = Answered(plaintext: bytes) | Left(exit: Exit)

  /** What both directions of a session are made of: the cipher and IV replies are sealed with, the log
      and IV records are opened with, and the echo. */
  datatype Service = Service(cipher: (bytes, bytes, bytes) -> bytes, sendIv: bytes, log: seq<Sealed>, recvIv: bytes,
                             echo: bytes -> bytes)

  predicate Sound(sv: Service) {
    |sv.sendIv| == IV_LEN && |sv.recvIv| == IV_LEN
  }

  /** The AppData message that starts a frame. */
  ghost function AppDataIn(frame: bytes): Option<AppData> {
    if ad :| Starts(EncodeAppData(ad), frame) then Some(ad) else None
  }

  lemma AppDataFound(frame: bytes, ad: AppData)
    requires Starts(EncodeAppData(ad), frame)
    ensures AppDataIn(frame) == Some(ad)
  {
    AppDataUnique(ad, AppDataIn(frame).value, frame);
  }

  /** A record opened and answered with sequence number k. */
  function Answer(sv: Service, k: nat, ad: AppData): Handled
    requires Sound(sv)
  {
    match OpenRecord(sv.log, sv.recvIv, CT_APP_DATA, k, ad.seqNum, ad.ciphertext)
    case Err(e) => Left(Refused(e))
    case Ok(p) =>
      if ReplyOf(sv.cipher, sv.sendIv, k, sv.echo(p)).Some? then Answered(p) else Left(Raised(DoesNotFit))
  }

  /** What the loop makes of a frame after k accepted records. */
  ghost function Classify(sv: Service, k: nat, frame: bytes): Handled
    requires Sound(sv)
  {
    if frame == [] then Left(Raised(EmptyInput))
    else if frame[0] != TAG_APP_DATA then Left(Stopped)
    else match AppDataIn(frame) case None => Left(Raised(Truncated)) case Some(ad) => Answer(sv, k, ad)
  }

  /** A loop over the frames of a stream: the plaintexts accepted once it has been read after `accepted`, and
      how the loop ends. */
  function Loop(handle: (nat, bytes) -> Handled, accepted: seq<bytes>, stream: bytes): (seq<bytes>, Exit)
    decreases |stream|
  {
    match NextFrame(stream)
    case Err(PeerClosed) => (accepted, Stopped)
    case Err(e) => (accepted, Raised(e))
    case Ok((frame, rest)) =>
      match handle(|accepted|, frame)
      case Left(exit) => (accepted, exit)
      case Answered(p) => Loop(handle, accepted + [p], rest)
  }

  ghost function Handler(sv: Service): (nat, bytes) -> Handled
    requires Sound(sv)
  {
    (k: nat, frame: bytes) => Classify(sv, k, frame)
  }

  /** What the echo loop makes of a stream. */
  ghost function Serve(sv: Service, accepted: seq<bytes>, stream: bytes): (seq<bytes>, Exit)
    requires Sound(sv)
  {
    Loop(Handler(sv), accepted, stream)
  }

  predicate NeverSealed(log: seq<Sealed>, ciphertext: bytes) {
    forall i :: 0 <= i < |log| ==> log[i].ciphertext != ciphertext
  }

  /** What every other frame does: an empty one raises, another type stops the loop, a cut AppData raises, and an
      AppData record with an unexpected number, or that was never sealed, is refused. */
  lemma OtherFrames(sv: Service, k: nat, frame: bytes, ad: AppData)
    requires Sound(sv)
    ensures Classify(sv, k, []) == Left(Raised(EmptyInput))
    ensures frame != [] && frame[0] != TAG_APP_DATA ==> Classify(sv, k, frame) == Left(Stopped)
    ensures NoAppData([TAG_APP_DATA] + frame) ==> Classify(sv, k, [TAG_APP_DATA] + frame) == Left(Raised(Truncated))
    ensures Starts(EncodeAppData(ad), frame) && ad.seqNum != k ==> Classify(sv, k, frame) == Left(Refused(BadSequence))
    ensures Starts(EncodeAppData(ad), frame) && ad.seqNum == k && NeverSealed(sv.log, ad.ciphertext) ==>
      Classify(sv, k, frame) == Left(Refused(BadRecord))
  {
    if Starts(EncodeAppData(ad), frame) {
      OpensWithTag(APP_DATA, AppDataFields(ad), TAG_APP_DATA, frame);
      AppDataFound(frame, ad);
      AppDataOnWire(ad);
      if ad.seqNum == k {
        OpenInLog(sv.log, Nonce(sv.recvIv, k), Aad(CT_APP_DATA, k, |ad.ciphertext|), ad.ciphertext);
      }
    }
  }

  /** Whatever stream arrives, the plaintexts accepted from it are a prefix of what the sender sealed. */
  lemma {:induction false} ServePrefix(sv: Service, ch: Channel, stream: bytes)
    requires Sound(sv) && Inv(sv.recvIv, ch) && ch.log == sv.log
    ensures Serve(sv, ch.accepted, stream).0 <= Sent(sv.log)
    decreases |stream|
  {
    var next := NextFrame(stream);
    if next.Ok? && Classify(sv, |ch.accepted|, next.value.0).Answered? {
      var ad := AppDataIn(next.value.0).value;
      DeliverKeeps(sv.cipher, sv.recvIv, ch, CT_APP_DATA, ad.seqNum, ad.ciphertext);
      ServePrefix(sv, Step(sv.cipher, sv.recvIv, ch, Deliver(CT_APP_DATA, ad.seqNum, ad.ciphertext)), next.value.1);
    }
  }

  /** The i-th payload of an honest client: it carries the i-th sealed record and fits a frame, and the reply
      to it fits a record. */
  predicate HonestAt(sv: Service, cipher: (bytes, bytes, bytes) -> bytes, payloads: seq<bytes>, i: nat)
    requires Sound(sv) && i < |payloads| == |sv.log|
  {
    var e := sv.log[i];
    && SealRecord(cipher, sv.recvIv, CT_APP_DATA, i, e.plaintext) == Some(e)
    && |e.ciphertext| == |e.plaintext| + TAG_LEN
    && EncodeAppData(AppData(i, e.ciphertext)) == Ok(payloads[i])
    && ReplyOf(sv.cipher, sv.sendIv, i, sv.echo(e.plaintext)).Some?
  }

  ghost predicate HonestStream(sv: Service, cipher: (bytes, bytes, bytes) -> bytes, payloads: seq<bytes>)
    requires Sound(sv)
  {
    |payloads| == |sv.log| && Receivable(payloads) &&
    forall i :: 0 <= i < |payloads| ==> HonestAt(sv, cipher, payloads, i)
  }

  /** Each record opens with its own number to its own plaintext: no other entry has its nonce. */
  lemma OwnRecordOpens(log: seq<Sealed>, iv: bytes, k: nat)
    requires |iv| == IV_LEN && k < |log| <= Pow256(8)
    requires forall i :: 0 <= i < |log| ==> log[i].nonce == Nonce(iv, i)
    requires |log[k].ciphertext| < Pow256(4) && log[k].aad == Aad(CT_APP_DATA, k, |log[k].ciphertext|)
    ensures OpenRecord(log, iv, CT_APP_DATA, k, k, log[k].ciphertext) == Ok(log[k].plaintext)
  {
    var nonce, aad, c := log[k].nonce, log[k].aad, log[k].ciphertext;
    OpenInLog(log, nonce, aad, c);
    var i :| 0 <= i < |log| && log[i] == Sealed(nonce, aad, Open(log, nonce, aad, c).value, c);
    NonceInjective(iv, i, k);
  }

  lemma HonestLog(sv: Service, cipher: (bytes, bytes, bytes) -> bytes, payloads: seq<bytes>)
    requires Sound(sv) && HonestStream(sv, cipher, payloads)
    ensures |sv.log| <= Pow256(8)
    ensures forall i :: 0 <= i < |sv.log| ==> i < Pow256(8) && sv.log[i].nonce == Nonce(sv.recvIv, i)
  {
    forall i | 0 <= i < |sv.log| ensures i < Pow256(8) && sv.log[i].nonce == Nonce(sv.recvIv, i) {
      assert HonestAt(sv, cipher, payloads, i);
    }
    if |sv.log| > 0 {
      assert HonestAt(sv, cipher, payloads, |sv.log| - 1);
    }
  }

  /** The k-th frame of an honest client, arriving after k accepted records, is answered. */
  lemma HonestFrameAnswered(sv: Service, cipher: (bytes, bytes, bytes) -> bytes, payloads: seq<bytes>, k: nat)
    requires Sound(sv) && HonestStream(sv, cipher, payloads) && k < |payloads|
    ensures Classify(sv, k, payloads[k]) == Answered(sv.log[k].plaintext)
  {
    var ad := AppData(k, sv.log[k].ciphertext);
    assert HonestAt(sv, cipher, payloads, k);
    OpensWithTag(APP_DATA, AppDataFields(ad), TAG_APP_DATA, payloads[k]);
    AppDataFound(payloads[k], ad);
    HonestLog(sv, cipher, payloads);
    OwnRecordOpens(sv.log, sv.recvIv, k);
  }

  /** Each payload is answered with the plaintext at its place, the first with sequence number k. */
  ghost predicate AllAnswered(handle: (nat, bytes) -> Handled, k: nat, payloads: seq<bytes>, ps: seq<bytes>) {
    |ps| == |payloads| && forall i: nat :: i < |payloads| ==> handle(k + i, payloads[i]) == Answered(ps[i])
  }

  lemma AnsweredTail(handle: (nat, bytes) -> Handled, k: nat, payloads: seq<bytes>, ps: seq<bytes>)
    requires AllAnswered(handle, k, payloads, ps) && payloads != []
    ensures handle(k, payloads[0]) == Answered(ps[0]) && AllAnswered(handle, k + 1, payloads[1..], ps[1..])
  {
    assert handle(k + 0, payloads[0]) == Answered(ps[0]);
    forall i: nat | i < |payloads[1..]| ensures handle(k + 1 + i, payloads[1..][i]) == Answered(ps[1..][i]) {
      assert handle(k + (i + 1), payloads[i + 1]) == Answered(ps[i + 1]);
    }
  }

  lemma {:induction false} LoopOverFrames(handle: (nat, bytes) -> Handled, accepted: seq<bytes>, payloads: seq<bytes>,
                                          ps: seq<bytes>, tail: bytes)
    requires Sendable(payloads) && Receivable(payloads) && AllAnswered(handle, |accepted|, payloads, ps)
    ensures Loop(handle, accepted, Stream(payloads) + tail) == Loop(handle, accepted + ps, tail)
    decreases |payloads|
  {
    if payloads == [] {
      assert accepted + ps == accepted && [] + tail == tail;
    } else {
      AnsweredTail(handle, |accepted|, payloads, ps);
      LoopOn(handle, accepted, payloads[0], Stream(payloads[1..]) + tail, ps[0]);
      Assoc(Frame(payloads[0]).value, Stream(payloads[1..]), tail);
      LoopOverFrames(handle, accepted + [ps[0]], payloads[1..], ps[1..], tail);
      FirstAndRest(accepted, ps);
    }
  }

  lemma LoopOn(handle: (nat, bytes) -> Handled, accepted: seq<bytes>, payload: bytes, rest: bytes, p: bytes)
    requires |payload| < Pow256(4) && |payload| <= MAX_FRAME && handle(|accepted|, payload) == Answered(p)
    ensures Loop(handle, accepted, Frame(payload).value + rest) == Loop(handle, accepted + [p], rest)
  {
    NextOfFrame(payload, rest);
  }

  lemma FirstAndRest(front: seq<bytes>, ps: seq<bytes>)
    requires ps != []
    ensures front + [ps[0]] + ps[1..] == front + ps
  {
  }

  /** Without interference every record of an honest client is accepted, in order, and the loop goes on to what
      follows. */
  lemma HonestPart(sv: Service, cipher: (bytes, bytes, bytes) -> bytes, payloads: seq<bytes>, tail: bytes)
    requires Sound(sv) && HonestStream(sv, cipher, payloads)
    ensures Sendable(payloads) && Serve(sv, [], Stream(payloads) + tail) == Serve(sv, Sent(sv.log), tail)
  {
    Widths();
    LoopOverHonest(Handler(sv), payloads, Sent(sv.log), tail) by {
      forall i: nat | i < |payloads| ensures Handler(sv)(i, payloads[i]) == Answered(Sent(sv.log)[i]) {
        HonestFrameAnswered(sv, cipher, payloads, i);
      }
    }
  }

  lemma LoopOverHonest(handle: (nat, bytes) -> Handled, payloads: seq<bytes>, ps: seq<bytes>, tail: bytes)
    requires Sendable(payloads) && Receivable(payloads) && |ps| == |payloads|
    requires forall i: nat :: i < |payloads| ==> handle(i, payloads[i]) == Answered(ps[i])
    ensures Loop(handle, [], Stream(payloads) + tail) == Loop(handle, ps, tail)
  {
    assert AllAnswered(handle, 0, payloads, ps);
    LoopOverFrames(handle, [], payloads, ps, tail);
    assert [] + ps == ps;
  }

  /** The loop stops when the client closes the connection or sends Close, and reads nothing after that. */
  lemma StopsAtClose(sv: Service, accepted: seq<bytes>, rest: bytes)
    requires Sound(sv)
    ensures Serve(sv, accepted, []) == (accepted, Stopped)
    ensures |CLOSE| < Pow256(4) && Serve(sv, accepted, Frame(CLOSE).value + rest) == (accepted, Stopped)
  {
    Widths();
    NextOfFrame(CLOSE, rest);
  }

  /** It also stops where the stream breaks off inside a frame, and raises on a frame longer than the limit. */
  lemma StopsInsideFrame(sv: Service, accepted: seq<bytes>, payload: bytes, cut: bytes, rest: bytes)
    requires Sound(sv) && |payload| < Pow256(4) && cut < Frame(payload).value
    ensures |payload| <= MAX_FRAME ==> Serve(sv, accepted, cut) == (accepted, Stopped)
    ensures |payload| > MAX_FRAME ==>
      Serve(sv, accepted, Frame(payload).value + rest) == (accepted, Raised(FrameTooLarge))
  {
    CutFrame(payload, cut);
    NextOfFrame(payload, rest);
  }

  /** An honest client that ends with Close, or just closes, has all its records accepted, and the loop ends. */
  lemma HonestClientServed(sv: Service, cipher: (bytes, bytes, bytes) -> bytes, payloads: seq<bytes>, rest: bytes)
    requires Sound(sv) && HonestStream(sv, cipher, payloads)
    ensures Sendable(payloads) && Serve(sv, [], Stream(payloads)) == (Sent(sv.log), Stopped)
    ensures |CLOSE| < Pow256(4) &&
      Serve(sv, [], Stream(payloads) + (Frame(CLOSE).value + rest)) == (Sent(sv.log), Stopped)
  {
    HonestPart(sv, cipher, payloads, []);
    assert Stream(payloads) + [] == Stream(payloads);
    StopsAtClose(sv, Sent(sv.log), rest);
    HonestPart(sv, cipher, payloads, Frame(CLOSE).value + rest);
  }

  lemma {:induction false} RepliesFit(cipher: (bytes, bytes, bytes) -> bytes, iv: bytes, echo: bytes -> bytes,
                                      before: bytes, accepted: seq<bytes>)
    requires |iv| == IV_LEN
    requires forall i :: 0 <= i < |accepted| ==> ReplyOf(cipher, iv, i, echo(accepted[i])).Some?
    ensures Replies(cipher, iv, echo, before, accepted).Some?
  {
    if accepted != [] {
      RepliesFit(cipher, iv, echo, before, accepted[..|accepted| - 1]);
    }
  }

  /** The echo, from end to end: an honest client receives one AppData frame for each record it sent, and opens the
      i-th, with its own number i, to the echo of its i-th plaintext. */
  lemma EchoReturns(sv: Service, cipher: (bytes, bytes, bytes) -> bytes, payloads: seq<bytes>, before: bytes)
      returns (log: seq<Sealed>, frames: seq<bytes>)
    requires Sound(sv) && HonestStream(sv, cipher, payloads)
    requires forall n, a, p :: |sv.cipher(n, a, p)| == |p| + TAG_LEN
    ensures |log| == |frames| == |sv.log| && Sendable(frames)
    ensures Replies(sv.cipher, sv.sendIv, sv.echo, before, Sent(sv.log)) == Some((log, before + Stream(frames)))
    ensures forall i :: 0 <= i < |frames| ==>
      Starts(EncodeAppData(AppData(i, log[i].ciphertext)), frames[i]) &&
      OpenRecord(log, sv.sendIv, CT_APP_DATA, i, i, log[i].ciphertext) == Ok(sv.echo(sv.log[i].plaintext))
  {
    var ps := Sent(sv.log);
    forall i | 0 <= i < |ps| ensures ReplyOf(sv.cipher, sv.sendIv, i, sv.echo(ps[i])).Some? {
      assert HonestAt(sv, cipher, payloads, i);
    }
    RepliesFit(sv.cipher, sv.sendIv, sv.echo, before, ps);
    var sent := Replies(sv.cipher, sv.sendIv, sv.echo, before, ps).value.1;
    log := Replies(sv.cipher, sv.sendIv, sv.echo, before, ps).value.0;
    frames := RepliesSeal(sv.cipher, sv.sendIv, sv.echo, before, ps);
    forall i | 0 <= i < |frames|
      ensures Starts(EncodeAppData(AppData(i, log[i].ciphertext)), frames[i])
      ensures OpenRecord(log, sv.sendIv, CT_APP_DATA, i, i, log[i].ciphertext) == Ok(sv.echo(sv.log[i].plaintext))
    {
      assert ReplyRecord(sv.cipher, sv.sendIv, i, sv.echo(ps[i]), log[i], frames[i]);
      ReplyOpens(sv.cipher, sv.sendIv, sv.echo, before, ps, log, sent, frames, i);
    }
  }

  // ---------------------------------------------------------------- the loop

  function ServiceOf(send: DirectionState, recv: DirectionState, echo: bytes -> bytes): Service
    reads recv.aead
  {
    Service(send.aead.cipher, send.iv, recv.aead.log, recv.iv, echo)
  }

  /** The loop body after `recv_frame`, between two turns of which both sequence numbers are equal. */
  method Handle(frame: bytes, conn: Socket, sendEnc: DirectionState, recvEnc: DirectionState,
                echo: bytes -> bytes, describe: Error -> bytes) returns (h: Handled)
    requires sendEnc.Valid() && recvEnc.Valid() && sendEnc != recvEnc && sendEnc.aead != recvEnc.aead
    requires sendEnc.seqNum == recvEnc.seqNum
    modifies conn`outgoing, sendEnc, sendEnc.aead, recvEnc
    ensures h == Classify(ServiceOf(sendEnc, recvEnc, echo), old(recvEnc.seqNum), frame)
    ensures h.Answered? ==>
      var reply := ReplyOf(sendEnc.aead.cipher, sendEnc.iv, old(sendEnc.seqNum), echo(h.plaintext));
      && sendEnc.seqNum == recvEnc.seqNum == old(recvEnc.seqNum) + 1
      && reply.Some? && conn.outgoing == old(conn.outgoing) + reply.value.1
      && sendEnc.aead.log == old(sendEnc.aead.log) + [reply.value.0]
    ensures h.Left? && !h.exit.Raised? ==>
      sendEnc.seqNum == old(sendEnc.seqNum) && recvEnc.seqNum == old(recvEnc.seqNum)
    ensures h.Left? && !h.exit.Raised? ==> sendEnc.aead.log == old(sendEnc.aead.log)
    ensures h.Left? ==>
      conn.outgoing == old(conn.outgoing) + if h.exit.Refused? then AlertFrame(describe(h.exit.reason)) else []
  {
    if frame == [] {
      return Left(Raised(EmptyInput));
    }
    if frame[0] == TAG_CLOSE || frame[0] != TAG_APP_DATA {
      return Left(Stopped);
    }
    var ad := DecodeAppData(frame);
    if ad.Err? {
      return Left(Raised(ad.error));
    }
    AppDataFound(frame, ad.value);
    var plaintext := recvEnc.Decrypt(CT_APP_DATA, ad.value.seqNum, ad.value.ciphertext);
    if plaintext.Err? {
      SendAlert(conn, describe(plaintext.error));
      return Left(Refused(plaintext.error));
    }
    var sent := Reply(conn, sendEnc, echo(plaintext.value));
    if sent.Err? {
      return Left(Raised(sent.error));
    }
    return Answered(plaintext.value);
  }

  lemma RepliesSnoc(cipher: (bytes, bytes, bytes) -> bytes, iv: bytes, echo: bytes -> bytes, before: bytes,
                    accepted: seq<bytes>, p: bytes)
    requires |iv| == IV_LEN && Replies(cipher, iv, echo, before, accepted).Some?
    requires ReplyOf(cipher, iv, |accepted|, echo(p)).Some?
    ensures var (replies, reply) :=
        (Replies(cipher, iv, echo, before, accepted).value, ReplyOf(cipher, iv, |accepted|, echo(p)).value);
      Replies(cipher, iv, echo, before, accepted + [p]) == Some((replies.0 + [reply.0], replies.1 + reply.1))
  {
    assert (accepted + [p])[..|accepted|] == accepted;
  }

  /** `_app_loop` between two frames: both sequence numbers count the accepted plaintexts, and what was
      sealed and sent are the replies to them. */
  ghost predicate Serving(conn: Socket, send: DirectionState, recv: DirectionState, echo: bytes -> bytes,
                          before: bytes, accepted: seq<bytes>)
    requires send.Valid() && recv.Valid()
    reads conn, send, send.aead, recv
  {
    && send.seqNum == recv.seqNum == |accepted|
    && Replies(send.aead.cipher, send.iv, echo, before, accepted) == Some((send.aead.log, conn.outgoing))
  }

  /** `_app_loop`. It accepts what `Serve` says of the stream and ends as it says; both sequence numbers
      count the accepted plaintexts, the k-th reply seals the echo of the k-th plaintext, and after the
      first frame that is refused nothing but an alert is sent. */
  method AppLoop(conn: Socket, sendEnc: DirectionState, recvEnc: DirectionState, echo: bytes -> bytes,
                 describe: Error -> bytes) returns (accepted: seq<bytes>, exit: Exit)
    requires sendEnc.Valid() && recvEnc.Valid() && sendEnc != recvEnc && sendEnc.aead != recvEnc.aead
    requires sendEnc.seqNum == recvEnc.seqNum == 0 && sendEnc.aead.log == []
    modifies conn, sendEnc, sendEnc.aead, recvEnc
    ensures (accepted, exit) == Serve(ServiceOf(sendEnc, recvEnc, echo), [], old(conn.incoming))
    ensures recvEnc.aead.log == old(recvEnc.aead.log)
    ensures Replies(sendEnc.aead.cipher, sendEnc.iv, echo, old(conn.outgoing), accepted).Some?
    ensures !exit.Raised? ==> sendEnc.seqNum == recvEnc.seqNum == |accepted|
    ensures !exit.Raised? ==>
      sendEnc.aead.log == Replies(sendEnc.aead.cipher, sendEnc.iv, echo, old(conn.outgoing), accepted).value.0
    ensures conn.outgoing == Replies(sendEnc.aead.cipher, sendEnc.iv, echo, old(conn.outgoing), accepted).value.1 +
              if exit.Refused? then AlertFrame(describe(exit.reason)) else []
  {
    accepted := [];
    ghost var sv, before, start := ServiceOf(sendEnc, recvEnc, echo), conn.outgoing, conn.incoming;
    while true
      invariant ServiceOf(sendEnc, recvEnc, echo) == sv && Serve(sv, [], start) == Serve(sv, accepted, conn.incoming)
      invariant Serving(conn, sendEnc, recvEnc, echo, before, accepted)
      decreases |conn.incoming|
    {
      var frame := conn.RecvFrame();
      if frame.Err? {
        return accepted, if frame.error == PeerClosed then Stopped else Raised(frame.error);
      }
      var h := Handle(frame.value, conn, sendEnc, recvEnc, echo, describe);
      if h.Left? {
        return accepted, h.exit;
      }
      RepliesSnoc(sendEnc.aead.cipher, sendEnc.iv, echo, before, accepted, h.plaintext);
      accepted := accepted + [h.plaintext];
    }
  }
}
