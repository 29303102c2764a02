/** The byte pipe between the client and an engine that answers strictly in turn.

    Everything the environment may do is data: `respond` fixes what the engine answers to each
    history of requests, and `script` fixes how every I/O attempt ends (how many bytes move, which
    deadline falls where, which call fails). A statement for all engines and scripts is a statement
    about every adversary. */
module Wire {
  import opened Prelude
  import opened Framing

  const ERROR_OPERATION_ABORTED: u32 := 995

  /** How one overlapped operation ends. */
  datatype Io =
    | Expired                // the deadline had passed before the operation was started
    | StartFailed
    | Completed(moved: nat)  // at once, or signalled before the deadline
    | CompletionFailed
    | Cancelled(waitTimedOut: bool, cancelError: Option<u32>, reap: Result<nat, u32>)

  datatype CancelledCompletion = Moved(bytes: nat) | Aborted | Failed(code: u32)

  /** A completion that won the cancellation race is progress; only a confirmed abort after a real
      timeout is a timeout. */
  function ClassifyCancelledCompletion(waitTimedOut: bool, cancelError: Option<u32>, reap: Result<nat, u32>)
    : (r: CancelledCompletion)
    ensures r.Moved? <==> reap.Ok?
    ensures r == Aborted <==> waitTimedOut && cancelError.None? && reap == Err(ERROR_OPERATION_ABORTED)
  {
    match reap
    case Ok(bytes) => Moved(bytes)
    case Err(code) =>
      if cancelError.Some? then Failed(cancelError.value)
      else if waitTimedOut && code == ERROR_OPERATION_ABORTED then Aborted
      else Failed(code)
  }

  /** The bytes one attempt may move, or its error. Without a deadline nothing can time out. */
  function Transfer(io: Io, bounded: bool): (r: Result<nat, ErrorKind>)
    ensures r.Err? ==> r.error in {TimedOut, Other}
    ensures !bounded ==> r != Err(TimedOut)
  {
    match io
    case Expired => Err(if bounded then TimedOut else Other)
    case StartFailed => Err(Other)
    case Completed(n) => Ok(n)
    case CompletionFailed => Err(Other)
    case Cancelled(waitTimedOut, cancelError, reap) =>
      match ClassifyCancelledCompletion(waitTimedOut && bounded, cancelError, reap)
      case Moved(n) => Ok(n)
      case Aborted => Err(TimedOut)
      case Failed(_) => Err(Other)
  }

  /** The attempt moves bytes, perhaps in a race with its cancellation. */
  predicate Carries(io: Io) {
    (io.Completed? && io.moved > 0) || (io.Cancelled? && io.reap.Ok? && io.reap.value > 0)
  }

  /** The deadline ends the attempt. */
  predicate IsLate(io: Io) {
    io == Expired || io == Cancelled(true, None, Err(ERROR_OPERATION_ABORTED))
  }

  /** An engine: the body of its answer to a history of requests, all answer bytes it puts out for
      the bytes it has received, and how clients decode answers. */
  datatype Engine<R> = Engine(respond: seq<Body> -> Body, answers: Bytes -> Bytes, decode: Bytes -> Option<R>)

  /** The engine answers every complete request with exactly one frame, in order, and nothing else. */
  ghost predicate AnswersInTurn<R>(engine: Engine<R>) {
    forall written: Bytes :: engine.answers(written) == Stream(Replies(engine.respond, ParseFrames(written)))
  }

  /** The connection: all bytes written so far, the answer bytes not consumed yet, and the endings
      of the attempts to come. */
  datatype Wire = Wire(written: Bytes, inbox: Bytes, script: seq<Io>)

  /** The requests the engine has received completely. */
  function Sent(w: Wire): seq<Body> {
    ParseFrames(w.written)
  }

  function Replies(respond: seq<Body> -> Body, sent: seq<Body>): seq<Body> {
    if sent == [] then [] else Replies(respond, sent[..|sent| - 1]) + [respond(sent)]
  }

  /** One `ReadFile`: at most `want` bytes of the inbox. A script that has ended fails. */
  function ReadStep(w: Wire, want: nat, bounded: bool): (r: (Result<Bytes, ErrorKind>, Wire))
    ensures r.0.Ok? ==> |r.0.value| <= want && r.0.value + r.1.inbox == w.inbox
    ensures r.0.Err? ==> r.0.error in {TimedOut, Other} && r.1.inbox == w.inbox
    ensures r.0 == Err(TimedOut) ==> bounded && |r.1.script| < |w.script|
    ensures r.1.written == w.written && |r.1.script| <= |w.script|
  {
    if w.script == [] then (Err(Other), w)
    else
      var next := w.(script := w.script[1..]);
      match Transfer(w.script[0], bounded)
      case Err(kind) => (Err(kind), next)
      case Ok(n) =>
        var moved := Min(Min(n, want), |w.inbox|);
        (Ok(w.inbox[..moved]), next.(inbox := w.inbox[moved..]))
  }

  /** One `WriteFile`: a prefix of `bytes` reaches the engine, which answers every request that this
      completes. */
  function WriteStep<R>(engine: Engine<R>, w: Wire, bytes: Bytes, bounded: bool): (r: (Result<nat, ErrorKind>, Wire))
    ensures r.0.Ok? ==> r.0.value <= |bytes| && r.1.written == w.written + bytes[..r.0.value]
    ensures r.0.Err? ==> r.0.error in {TimedOut, Other} && r.1.written == w.written
    ensures r.0 == Err(TimedOut) ==> bounded
  {
    if w.script == [] then (Err(Other), w)
    else
      var next := w.(script := w.script[1..]);
      match Transfer(w.script[0], bounded)
      case Err(kind) => (Err(kind), next)
      case Ok(n) =>
        var moved := Min(n, |bytes|);
        (Ok(moved), Deliver(engine, next, bytes[..moved]))
  }

  function Deliver<R>(engine: Engine<R>, w: Wire, bytes: Bytes): Wire {
    var written := w.written + bytes;
    w.(written := written, inbox := w.inbox + Drop(engine.answers(written), |engine.answers(w.written)|))
  }

  datatype Progress = Progress(error: Option<ErrorKind>, got: Bytes, wire: Wire)

  /** `read_exact_progress`: from `got` up to `total` bytes, keeping what arrived before a failure. */
  function ReadExact(w: Wire, got: Bytes, total: nat, bounded: bool): (p: Progress)
    ensures got <= p.got && (p.error.None? ==> |p.got| == Max(|got|, total))
    ensures p.error.Some? ==> |p.got| < total
    decreases total - |got|
  {
    if |got| >= total then Progress(None, got, w)
    else
      var (outcome, w1) := ReadStep(w, total - |got|, bounded);
      if outcome.Err? then Progress(Some(outcome.error), got, w1)
      else if outcome.value == [] then Progress(Some(UnexpectedEof), got, w1)
      else ReadExact(w1, got + outcome.value, total, bounded)
  }

  /** `write_all`. */
  function WriteAll<R>(engine: Engine<R>, w: Wire, bytes: Bytes, bounded: bool): (Option<ErrorKind>, Wire)
    decreases |bytes|
  {
    if bytes == [] then (None, w)
    else
      var (outcome, w1) := WriteStep(engine, w, bytes, bounded);
      if outcome.Err? then (Some(outcome.error), w1)
      else if outcome.value == 0 then (Some(WriteZero), w1)
      else WriteAll(engine, w1, bytes[outcome.value..], bounded)
  }

  /** `write_request`; `body` is the serialized request, `None` a serde failure. An oversized
      request is refused before its first byte. */
  function WriteRequest<R>(engine: Engine<R>, w: Wire, body: Option<Bytes>, bounded: bool): (Option<ErrorKind>, Wire) {
    match body
    case None => (Some(InvalidData), w)
    case Some(b) =>
      if |b| > MAX_REQUEST_FRAME_LEN || |b| > U32_MAX then (Some(InvalidInput), w)
      else
        var (headerError, w1) := WriteAll(engine, w, ToLe(|b|), bounded);
        if headerError.Some? then (headerError, w1) else WriteAll(engine, w1, b, bounded)
  }

  /** What reading (part of) a response came to, and the bytes of its frame read by then. */
  datatype Response<R> = Response(result: Result<R, ErrorKind>, got: Bytes, wire: Wire)

  /** `read_response_progress`, where `got` are the bytes of the owed frame read so far. */
  function ReadResponse<R>(decode: Bytes -> Option<R>, w: Wire, got: Bytes, bounded: bool): Response<R> {
    var header := ReadExact(w, got, 4, bounded);
    if header.error.Some? then Response(Err(header.error.value), header.got, header.wire)
    else
      var len := FromLe(header.got[..4]);
      if len > MAX_RESPONSE_FRAME_LEN then Response(Err(InvalidData), header.got, header.wire)
      else ReadBody(decode, header.wire, header.got, len, bounded)
  }

  function ReadBody<R>(decode: Bytes -> Option<R>, w: Wire, got: Bytes, len: nat, bounded: bool): Response<R>
    requires |got| >= 4
  {
    var body := ReadExact(w, got, 4 + len, bounded);
    if body.error.Some? then Response(Err(body.error.value), body.got, body.wire)
    else Response(Verdict(decode, body.got[4..]), body.got, body.wire)
  }

  // ---- what writing does ----

  lemma {:induction false} WriteAllPuts<R>(engine: Engine<R>, w: Wire, bytes: Bytes, bounded: bool)
    ensures var (error, w1) := WriteAll(engine, w, bytes, bounded);
            && (error.None? ==> w1.written == w.written + bytes)
            && (error.Some? ==> error.value in {TimedOut, WriteZero, Other})
            && (error == Some(TimedOut) ==> bounded)
    decreases |bytes|
  {
    if bytes != [] {
      var (outcome, w1) := WriteStep(engine, w, bytes, bounded);
      if outcome.Ok? && outcome.value > 0 {
        assert bytes == bytes[..outcome.value] + bytes[outcome.value..];
        assert w.written + bytes == w1.written + bytes[outcome.value..];
        WriteAllPuts(engine, w1, bytes[outcome.value..], bounded);
      }
    }
  }

  /** The engine's answer to the bytes after `base` starts only with the last byte of `frame`. */
  ghost predicate CompletedBy<R>(engine: Engine<R>, base: Bytes, frame: Bytes, answer: Bytes) {
    forall part: Bytes :: part <= frame ==>
      engine.answers(base + part) == engine.answers(base) + if part == frame then answer else []
  }

  /** Part of `frame` was written after `base`; `answer` arrived exactly if it is complete. */
  ghost predicate UpToDate(w: Wire, base: Bytes, frame: Bytes, inbox: Bytes, answer: Bytes) {
    && base <= w.written <= base + frame
    && w.inbox == inbox + if w.written == base + frame then answer else []
  }

  lemma RepliesSnoc<R>(engine: Engine<R>, sent: seq<Body>, b: Body)
    ensures Stream(Replies(engine.respond, sent + [b])) ==
            Stream(Replies(engine.respond, sent)) + EncodeFrame(engine.respond(sent + [b]))
  {
    assert (sent + [b])[..|sent|] == sent;
    StreamSnoc(Replies(engine.respond, sent), engine.respond(sent + [b]));
  }

  /** The answers to whole frames plus an incomplete or just completed one. */
  lemma AnswersUpTo<R>(engine: Engine<R>, sent: seq<Body>, b: Body, part: Bytes)
    requires AnswersInTurn(engine)
    requires part <= EncodeFrame(b)
    ensures engine.answers(Stream(sent) + part) == Stream(Replies(engine.respond, sent)) +
            if part == EncodeFrame(b) then EncodeFrame(engine.respond(sent + [b])) else []
  {
    if part == EncodeFrame(b) {
      StreamSnoc(sent, b);
      assert Stream(sent + [b]) + [] == Stream(sent) + part;
      ParseStream(sent + [b], b, []);
      RepliesSnoc(engine, sent, b);
    } else {
      assert |part| < |EncodeFrame(b)| && part == EncodeFrame(b)[..|part|];
      ParseStream(sent, b, part);
      assert Stream(Replies(engine.respond, sent)) + [] == Stream(Replies(engine.respond, sent));
    }
  }

  /** An engine that answers in turn answers the next request only when its frame is complete. */
  lemma FrameCompletes<R>(engine: Engine<R>, sent: seq<Body>, b: Body)
    requires AnswersInTurn(engine)
    ensures CompletedBy(engine, Stream(sent), EncodeFrame(b), EncodeFrame(engine.respond(sent + [b])))
  {
    var base, frame, answer := Stream(sent), EncodeFrame(b), EncodeFrame(engine.respond(sent + [b]));
    var all := Stream(Replies(engine.respond, sent));
    forall part: Bytes | part <= frame
      ensures engine.answers(base + part) == all + if part == frame then answer else []
    {
      AnswersUpTo(engine, sent, b, part);
    }
    CompletedFrom(engine, base, frame, answer, all);
  }

  lemma CompletedFrom<R>(engine: Engine<R>, base: Bytes, frame: Bytes, answer: Bytes, all: Bytes)
    requires frame != []
    requires forall part: Bytes :: part <= frame ==>
               engine.answers(base + part) == all + if part == frame then answer else []
    ensures CompletedBy(engine, base, frame, answer)
  {
    assert base + [] == base && all + [] == all;
    assert engine.answers(base + []) == all;
  }

  lemma DeliverUpTo<R>(engine: Engine<R>, w: Wire, base: Bytes, frame: Bytes, inbox: Bytes, answer: Bytes, bytes: Bytes)
    requires CompletedBy(engine, base, frame, answer)
    requires UpToDate(w, base, frame, inbox, answer) && |w.written| < |base + frame|
    requires w.written + bytes <= base + frame
    ensures UpToDate(Deliver(engine, w, bytes), base, frame, inbox, answer)
  {
    var before, after := w.written[|base|..], (w.written + bytes)[|base|..];
    assert (base + frame)[|base|..] == frame;
    assert w.written == base + before && w.written + bytes == base + after;
    assert before <= frame && after <= frame && before != frame;
    var answered := engine.answers(base);
    assert engine.answers(w.written) == answered + [] == answered;
    assert engine.answers(w.written + bytes) == answered + if after == frame then answer else [];
    assert inbox + [] == inbox;
  }

  lemma {:induction false} WriteAllUpTo<R>(engine: Engine<R>, w: Wire, base: Bytes, frame: Bytes, inbox: Bytes,
                                           answer: Bytes, bytes: Bytes, bounded: bool)
    requires CompletedBy(engine, base, frame, answer)
    requires UpToDate(w, base, frame, inbox, answer)
    requires w.written + bytes <= base + frame
    ensures UpToDate(WriteAll(engine, w, bytes, bounded).1, base, frame, inbox, answer)
    decreases |bytes|
  {
    if bytes != [] {
      var (outcome, w1) := WriteStep(engine, w, bytes, bounded);
      if outcome.Ok? && w.script != [] {
        var n := outcome.value;
        assert bytes == bytes[..n] + bytes[n..];
        assert w.written + bytes == w.written + bytes[..n] + bytes[n..];
        DeliverUpTo(engine, w.(script := w.script[1..]), base, frame, inbox, answer, bytes[..n]);
        if n > 0 {
          WriteAllUpTo(engine, w1, base, frame, inbox, answer, bytes[n..], bounded);
        }
      }
    }
  }

  /** A frame written in two parts, prefix then body, brings exactly its answer. */
  lemma WriteTwoParts<R>(engine: Engine<R>, w: Wire, head: Bytes, body: Bytes, answer: Bytes, bounded: bool)
    requires head != [] && CompletedBy(engine, w.written, head + body, answer)
    ensures var (headError, w1) := WriteAll(engine, w, head, bounded);
            var (bodyError, w2) := WriteAll(engine, w1, body, bounded);
            headError.None? && bodyError.None? ==>
              w2.written == w.written + (head + body) && w2.inbox == w.inbox + answer
  {
    var base := w.written;
    assert base + (head + body) == base + head + body;
    assert w.inbox + [] == w.inbox;
    WriteAllUpTo(engine, w, base, head + body, w.inbox, answer, head, bounded);
    WriteAllPuts(engine, w, head, bounded);
    var (headError, w1) := WriteAll(engine, w, head, bounded);
    if headError.None? {
      WriteAllUpTo(engine, w1, base, head + body, w.inbox, answer, body, bounded);
      WriteAllPuts(engine, w1, body, bounded);
    }
  }

  /** A completed `write_request` puts exactly one frame on the wire and brings exactly one answer. */
  lemma WriteRequestPuts<R>(engine: Engine<R>, w: Wire, sent: seq<Body>, body: Option<Bytes>, bounded: bool)
    requires AnswersInTurn(engine)
    requires w.written == Stream(sent)
    ensures var (error, w1) := WriteRequest(engine, w, body, bounded);
            && (error.None? ==>
                  && body.Some? && |body.value| <= MAX_REQUEST_FRAME_LEN
                  && w1.written == Stream(sent + [body.value])
                  && w1.inbox == w.inbox + EncodeFrame(engine.respond(sent + [body.value])))
            && (error == Some(InvalidInput) <==> body.Some? && |body.value| > MAX_REQUEST_FRAME_LEN)
            && (error == Some(InvalidInput) ==> w1 == w)
            && (error == Some(TimedOut) ==> bounded)
  {
    if body.Some? && |body.value| <= MAX_REQUEST_FRAME_LEN {
      var b := body.value;
      WriteAllPuts(engine, w, ToLe(|b|), bounded);
      var (headerError, w1) := WriteAll(engine, w, ToLe(|b|), bounded);
      WriteAllPuts(engine, w1, b, bounded);
      FrameCompletes(engine, sent, b);
      WriteTwoParts(engine, w, ToLe(|b|), b, EncodeFrame(engine.respond(sent + [b])), bounded);
      StreamSnoc(sent, b);
    }
  }

  lemma WriteAllUnfold<R>(engine: Engine<R>, w: Wire, bytes: Bytes, bounded: bool)
    requires bytes != []
    ensures var (outcome, w1) := WriteStep(engine, w, bytes, bounded);
            WriteAll(engine, w, bytes, bounded) ==
            if outcome.Err? then (Some(outcome.error), w1)
            else if outcome.value == 0 then (Some(WriteZero), w1)
            else WriteAll(engine, w1, bytes[outcome.value..], bounded)
  {
  }

  // ---- what reading does ----

  /** What reading `got1` beyond `got` does: bytes move from the front of the inbox, nothing else. */
  ghost predicate Took(w: Wire, got: Bytes, w1: Wire, got1: Bytes) {
    && got1 + w1.inbox == got + w.inbox
    && w1.written == w.written
    && |w1.script| <= |w.script|
  }

  lemma {:induction false} ReadExactTakes(w: Wire, got: Bytes, total: nat, bounded: bool)
    ensures var p := ReadExact(w, got, total, bounded);
            && Took(w, got, p.wire, p.got)
            && (p.error.Some? ==> p.error.value in {TimedOut, UnexpectedEof, Other})
            && (p.error == Some(TimedOut) ==> bounded && |p.wire.script| < |w.script|)
    decreases total - |got|
  {
    if |got| < total {
      var (outcome, w1) := ReadStep(w, total - |got|, bounded);
      if outcome.Ok? {
        assert got + outcome.value + w1.inbox == got + w.inbox;
        if outcome.value != [] {
          ReadExactTakes(w1, got + outcome.value, total, bounded);
        } else {
          assert got + [] == got;
        }
      }
    }
  }

  /** A round that moves nothing ends the reading. */
  lemma ReadExactStops(w: Wire, got: Bytes, total: nat, bounded: bool)
    requires |got| < total
    requires var outcome := ReadStep(w, total - |got|, bounded).0; outcome.Err? || outcome.value == []
    ensures var (outcome, w1) := ReadStep(w, total - |got|, bounded);
            ReadExact(w, got, total, bounded) ==
            Progress(Some(if outcome.Err? then outcome.error else UnexpectedEof), got, w1)
  {
  }

  /** A round that moves bytes is followed by reading the rest. */
  lemma ReadExactGoesOn(w: Wire, got: Bytes, total: nat, bounded: bool, more: Bytes)
    requires |got| < total
    requires more != [] && ReadStep(w, total - |got|, bounded).0 == Ok(more)
    ensures ReadExact(w, got, total, bounded) ==
        ReadExact(ReadStep(w, total - |got|, bounded).1, got + more, total, bounded)
  {
  }

  /** Reading the body after the header is reading the whole frame from its fifth byte on. */
  lemma {:induction false} ReadExactShift(w: Wire, pre: Bytes, got: Bytes, total: nat, bounded: bool)
    ensures var p := ReadExact(w, got, total, bounded);
            ReadExact(w, pre + got, |pre| + total, bounded) == p.(got := pre + p.got)
    decreases total - |got|
  {
    if |got| < total {
      var (outcome, w1) := ReadStep(w, total - |got|, bounded);
      if outcome.Ok? && outcome.value != [] {
        assert pre + got + outcome.value == pre + (got + outcome.value);
        ReadExactShift(w1, pre, got + outcome.value, total, bounded);
      }
    }
  }

  /** What holds after reading part of the frame of `reply`: every byte is accounted for, a verdict
      is that of one-shot reading, and a timeout leaves the frame unfinished. */
  ghost predicate Resumed<R>(decode: Bytes -> Option<R>, reply: Body, r: Response<R>) {
    var frame := EncodeFrame(reply);
    var (verdict, rest) := ReadFrameSpec(decode, frame);
    && r.got + r.wire.inbox == frame
    && (r.result.Ok? || r.result == Err(InvalidData) ==> r.result == verdict && r.wire.inbox == rest)
    && (r.result.Err? ==> r.result.error in {InvalidData, TimedOut, UnexpectedEof, Other})
    && (r.result == Err(TimedOut) ==> |r.got| < |frame| && (|r.got| > 4 ==> |reply| <= MAX_RESPONSE_FRAME_LEN))
  }

  lemma FrameVerdict<R>(decode: Bytes -> Option<R>, reply: Body)
    requires |reply| <= MAX_RESPONSE_FRAME_LEN
    ensures ReadFrameSpec(decode, EncodeFrame(reply)) == (Verdict(decode, reply), [])
  {
    ReadEncoded(decode, reply, []);
    assert EncodeFrame(reply) + [] == EncodeFrame(reply);
  }

  /** Once everything is there, what follows the header is the body. */
  lemma WholeFrame(got: Bytes, rest: Bytes, reply: Body)
    requires got + rest == EncodeFrame(reply) && |got| == 4 + |reply|
    ensures got[4..] == reply && rest == []
  {
    assert |EncodeFrame(reply)| == 4 + |reply|;
    assert got == EncodeFrame(reply);
  }

  lemma ReadBodyRefines<R>(decode: Bytes -> Option<R>, w: Wire, got: Bytes, reply: Body, bounded: bool)
    requires 4 <= |got| <= 4 + |reply| && got + w.inbox == EncodeFrame(reply)
    requires |reply| <= MAX_RESPONSE_FRAME_LEN
    ensures Resumed(decode, reply, ReadBody(decode, w, got, |reply|, bounded))
  {
    ReadExactTakes(w, got, 4 + |reply|, bounded);
    FrameVerdict(decode, reply);
    var p := ReadExact(w, got, 4 + |reply|, bounded);
    if p.error.None? {
      WholeFrame(p.got, p.wire.inbox, reply);
    }
  }

  lemma ReadHeaderRefines(w: Wire, got: Bytes, reply: Body, bounded: bool)
    requires |got| < |EncodeFrame(reply)| && got + w.inbox == EncodeFrame(reply)
    ensures var p := ReadExact(w, got, 4, bounded);
            p.error.None? ==>
              && FromLe(p.got[..4]) == |reply|
              && (|got| <= 4 ==> p.got == ToLe(|reply|) && p.wire.inbox == reply)
  {
    var frame := EncodeFrame(reply);
    ReadExactTakes(w, got, 4, bounded);
    var p := ReadExact(w, got, 4, bounded);
    if p.error.None? {
      assert p.got <= frame;
      assert p.got[..4] == frame[..4] == ToLe(|reply|);
      LeRoundTrip(|reply|);
      if |got| <= 4 {
        assert p.got == frame[..4];
        assert p.wire.inbox == frame[4..] == reply;
      }
    }
  }

  /** Resuming a frame at any offset gives the verdict of one-shot reading on the uncut frame, or
      stops inside the frame with every byte accounted for. */
  lemma ReadResponseRefines<R>(decode: Bytes -> Option<R>, w: Wire, got: Bytes, reply: Body, bounded: bool)
    requires |got| < |EncodeFrame(reply)| && got + w.inbox == EncodeFrame(reply)
    requires |got| > 4 ==> |reply| <= MAX_RESPONSE_FRAME_LEN
    ensures Resumed(decode, reply, ReadResponse(decode, w, got, bounded))
  {
    ReadExactTakes(w, got, 4, bounded);
    ReadHeaderRefines(w, got, reply, bounded);
    var header := ReadExact(w, got, 4, bounded);
    if header.error.None? {
      if |reply| > MAX_RESPONSE_FRAME_LEN {
        ReadEncoded(decode, reply, []);
        assert EncodeFrame(reply) + [] == EncodeFrame(reply);
        assert reply + [] == reply;
      } else {
        ReadBodyRefines(decode, header.wire, header.got, reply, bounded);
      }
    }
  }

  lemma ReadBodyTakes<R>(decode: Bytes -> Option<R>, w: Wire, got: Bytes, len: nat, bounded: bool)
    requires |got| >= 4
    ensures var r := ReadBody(decode, w, got, len, bounded);
            && Took(w, got, r.wire, r.got)
            && (r.result == Err(TimedOut) ==> bounded && |r.wire.script| < |w.script|)
  {
    ReadExactTakes(w, got, 4 + len, bounded);
  }

  lemma ReadResponseTakes<R>(decode: Bytes -> Option<R>, w: Wire, got: Bytes, bounded: bool)
    ensures var r := ReadResponse(decode, w, got, bounded);
            && Took(w, got, r.wire, r.got)
            && (r.result == Err(TimedOut) ==> bounded && |r.wire.script| < |w.script|)
  {
    ReadExactTakes(w, got, 4, bounded);
    var header := ReadExact(w, got, 4, bounded);
    if header.error.None? {
      ReadBodyTakes(decode, header.wire, header.got, FromLe(header.got[..4]), bounded);
    }
  }
}
