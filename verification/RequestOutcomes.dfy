/** What becomes of a single request of the engine client: it is answered when nothing goes wrong, and a
    deadline or a failure at any byte has the effect that its entry point promises. */
module RequestOutcomes {
  import opened Prelude
  import opened Framing
  import opened Wire
  import opened EngineClient
  import opened ClientRuns

  // ---- requests that go through ----

  predicate AllCarry(script: seq<Io>) {
    forall i :: 0 <= i < |script| ==> Carries(script[i])
  }

  /** With one moving attempt for each byte, writing succeeds and leaves the attempts it did not need. */
  lemma {:induction false} WriteAllSucceeds<R>(engine: Engine<R>, w: Wire, bytes: Bytes, bounded: bool)
    requires AllCarry(w.script) && |w.script| >= |bytes|
    ensures var (error, w1) := WriteAll(engine, w, bytes, bounded);
            error.None? && AllCarry(w1.script) && |w1.script| >= |w.script| - |bytes|
    decreases |bytes|
  {
    if bytes != [] {
      assert Carries(w.script[0]);
      var (outcome, w1) := WriteStep(engine, w, bytes, bounded);
      assert w1.script == w.script[1..];
      WriteAllSucceeds(engine, w1, bytes[outcome.value..], bounded);
    }
  }

  lemma WriteRequestSucceeds<R>(engine: Engine<R>, w: Wire, body: Body, bounded: bool)
    requires |body| <= MAX_REQUEST_FRAME_LEN
    requires AllCarry(w.script) && |w.script| >= |EncodeFrame(body)|
    ensures var (error, w1) := WriteRequest(engine, w, Some(body), bounded);
            error.None? && AllCarry(w1.script) && |w1.script| >= |w.script| - |EncodeFrame(body)|
  {
    WriteAllSucceeds(engine, w, ToLe(|body|), bounded);
    WriteAllSucceeds(engine, WriteAll(engine, w, ToLe(|body|), bounded).1, body, bounded);
  }

  lemma {:induction false} ReadExactSucceeds(w: Wire, got: Bytes, total: nat, bounded: bool)
    requires |got| + |w.inbox| >= total
    requires AllCarry(w.script) && |got| + |w.script| >= total
    ensures var p := ReadExact(w, got, total, bounded);
            && p.error.None? && AllCarry(p.wire.script)
            && |p.got| + |p.wire.script| >= |got| + |w.script| && |p.got| + |p.wire.inbox| == |got| + |w.inbox|
    decreases total - |got|
  {
    if |got| < total {
      assert Carries(w.script[0]);
      var (outcome, w1) := ReadStep(w, total - |got|, bounded);
      assert w1.script == w.script[1..];
      ReadExactSucceeds(w1, got + outcome.value, total, bounded);
    }
  }

  lemma ReadHeaderSucceeds(w: Wire, reply: Body, bounded: bool)
    requires w.inbox == EncodeFrame(reply) && AllCarry(w.script) && |w.script| >= |w.inbox|
    ensures var p := ReadExact(w, [], 4, bounded);
            && p.error.None? && p.got == ToLe(|reply|) && p.wire.inbox == reply
            && AllCarry(p.wire.script) && |p.wire.script| >= |reply|
  {
    ReadExactSucceeds(w, [], 4, bounded);
    assert [] + w.inbox == EncodeFrame(reply);
    ReadHeaderRefines(w, [], reply, bounded);
  }

  lemma ReadBodySucceeds<R>(decode: Bytes -> Option<R>, w: Wire, reply: Body, bounded: bool)
    requires w.inbox == reply && AllCarry(w.script) && |w.script| >= |reply|
    ensures ReadBody(decode, w, ToLe(|reply|), |reply|, bounded).result == Verdict(decode, reply)
  {
    var body := ReadExact(w, ToLe(|reply|), 4 + |reply|, bounded);
    ReadExactSucceeds(w, ToLe(|reply|), 4 + |reply|, bounded);
    ReadExactTakes(w, ToLe(|reply|), 4 + |reply|, bounded);
    WholeFrame(body.got, body.wire.inbox, reply);
  }

  lemma ReadResponseSucceeds<R>(decode: Bytes -> Option<R>, w: Wire, reply: Body, bounded: bool)
    requires w.inbox == EncodeFrame(reply) && AllCarry(w.script) && |w.script| >= |w.inbox|
    ensures ReadResponse(decode, w, [], bounded).result ==
              if |reply| > MAX_RESPONSE_FRAME_LEN then Err(InvalidData) else Verdict(decode, reply)
  {
    ReadHeaderSucceeds(w, reply, bounded);
    LeRoundTrip(|reply|);
    assert ToLe(|reply|)[..4] == ToLe(|reply|);
    ReadBodySucceeds(decode, ReadExact(w, [], 4, bounded).wire, reply, bounded);
  }

  /** Sending a request without failure: one frame goes out, its answer is waiting, and enough attempts are left. */
  lemma SendingSucceeds<R>(engine: Engine<R>, s: ClientState, body: Body, bounded: bool)
    requires AnswersInTurn(engine) && Alternating(engine, s) && Ready(s)
    requires |body| <= MAX_REQUEST_FRAME_LEN && AllCarry(s.wire.script)
    requires |s.wire.script| >= |EncodeFrame(body)| + |EncodeFrame(engine.respond(Sent(s.wire) + [body]))|
    ensures var (error, w) := WriteRequest(engine, s.wire, Some(body), bounded);
            var reply := engine.respond(Sent(s.wire) + [body]);
            && error.None? && Sent(w) == Sent(s.wire) + [body]
            && w.inbox == EncodeFrame(reply) && AllCarry(w.script) && |w.script| >= |w.inbox|
  {
    WriteRequestSucceeds(engine, s.wire, body, bounded);
    WriteRequestPuts(engine, s.wire, Sent(s.wire), Some(body), bounded);
    SentIsWritten(Sent(s.wire) + [body]);
  }

  /** Through every entry point a request that meets no failure is answered: it is sent exactly once, and
      the result is the decoded answer to it. */
  lemma RequestSucceeds<R>(engine: Engine<R>, s: ClientState, body: Body, api: Api)
    requires AnswersInTurn(engine) && Alternating(engine, s) && Ready(s)
    requires |body| <= MAX_REQUEST_FRAME_LEN && AllCarry(s.wire.script)
    requires |s.wire.script| >= |EncodeFrame(body)| + |EncodeFrame(engine.respond(Sent(s.wire) + [body]))|
    ensures var e := Perform(engine, s, Send(Some(body), api));
            var reply := engine.respond(Sent(s.wire) + [body]);
            && e.result == Answer(if |reply| > MAX_RESPONSE_FRAME_LEN then Err(InvalidData)
                                  else Verdict(engine.decode, reply))
            && Sent(e.after.wire) == Sent(s.wire) + [body]
            && (e.result.Ok? <==> Ready(e.after)) && (e.result.Err? <==> e.after.poisoned)
  {
    SendingSucceeds(engine, s, body, api != Blocking);
    var w := WriteRequest(engine, s.wire, Some(body), api != Blocking).1;
    ReadResponseSucceeds(engine.decode, w, engine.respond(Sent(s.wire) + [body]), api != Blocking);
    ReadResponseTakes(engine.decode, w, [], api != Blocking);
  }

  // ---- requests that fail half-way ----

  /** What stops a transfer: the deadline, a failure, or an attempt that succeeds and moves nothing. */
  datatype Stop = Late | Broken | Dry

  predicate IsStop(io: Io, stop: Stop) {
    match stop
    case Late => IsLate(io)
    case Broken => io == StartFailed || io == CompletionFailed || (io.Cancelled? && io.reap.Err? && !IsLate(io))
    case Dry => io == Completed(0) || (io.Cancelled? && io.reap == Ok(0))
  }

  function ReadError(stop: Stop): ErrorKind {
    match stop
    case Late => TimedOut
    case Broken => Other
    case Dry => UnexpectedEof
  }

  function WriteError(stop: Stop): ErrorKind {
    if stop == Dry then WriteZero else ReadError(stop)
  }

  /** So many attempts that move one byte each, and then one that stops. */
  predicate StopsAfter(script: seq<Io>, moved: nat, stop: Stop) {
    moved < |script| && (forall i :: 0 <= i < moved ==> script[i] == Completed(1)) && IsStop(script[moved], stop)
  }

  lemma OneByteRead(w: Wire, got: Bytes, total: nat, bounded: bool)
    requires w.script != [] && w.script[0] == Completed(1) && w.inbox != [] && |got| < total
    ensures var w1 := w.(inbox := w.inbox[1..], script := w.script[1..]);
            ReadExact(w, got, total, bounded) == ReadExact(w1, got + w.inbox[..1], total, bounded)
  {
    ReadExactGoesOn(w, got, total, bounded, w.inbox[..1]);
  }

  lemma StoppedRead(w: Wire, got: Bytes, total: nat, bounded: bool, stop: Stop)
    requires w.script != [] && IsStop(w.script[0], stop) && |got| < total && (stop == Late ==> bounded)
    ensures ReadExact(w, got, total, bounded) == Progress(Some(ReadError(stop)), got, w.(script := w.script[1..]))
  {
    ReadExactStops(w, got, total, bounded);
    assert w.inbox[0..] == w.inbox;
  }

  lemma {:induction false} ReadExactFails(w: Wire, got: Bytes, total: nat, bounded: bool, moved: nat, stop: Stop)
    requires StopsAfter(w.script, moved, stop) && (stop == Late ==> bounded)
    requires moved <= |w.inbox| && |got| + moved < total
    ensures var p := ReadExact(w, got, total, bounded);
            p.error == Some(ReadError(stop)) && |p.got| == |got| + moved
    decreases moved
  {
    if moved > 0 {
      OneByteRead(w, got, total, bounded);
      var next := w.(inbox := w.inbox[1..], script := w.script[1..]);
      ReadExactFails(next, got + w.inbox[..1], total, bounded, moved - 1, stop);
    } else {
      StoppedRead(w, got, total, bounded, stop);
    }
  }

  lemma {:induction false} ReadExactByBytes(w: Wire, got: Bytes, total: nat, bounded: bool, moved: nat, stop: Stop)
    requires StopsAfter(w.script, moved, stop) && moved <= |w.inbox| && |got| <= total <= |got| + moved
    ensures var p := ReadExact(w, got, total, bounded);
            p.error == None && |p.got| == total && StopsAfter(p.wire.script, moved - (total - |got|), stop)
    decreases moved
  {
    if |got| < total {
      OneByteRead(w, got, total, bounded);
      var next := w.(inbox := w.inbox[1..], script := w.script[1..]);
      ReadExactByBytes(next, got + w.inbox[..1], total, bounded, moved - 1, stop);
    }
  }

  lemma PrefixOf(got: Bytes, rest: Bytes, frame: Bytes, n: nat)
    requires got + rest == frame && |got| == n
    ensures got == frame[..n] && rest == frame[n..]
  {
  }

  lemma HeaderFails<R>(decode: Bytes -> Option<R>, w: Wire, got: Bytes, bounded: bool, moved: nat, stop: Stop)
    requires StopsAfter(w.script, moved, stop) && (stop == Late ==> bounded)
    requires |got| + moved < 4 && moved <= |w.inbox|
    ensures var r := ReadResponse(decode, w, got, bounded); r.result == Err(ReadError(stop)) && |r.got| == |got| + moved
  {
    ReadExactFails(w, got, 4, bounded, moved, stop);
  }

  /** What is left to move once the header is there. */
  lemma HeaderByBytes(w: Wire, got: Bytes, reply: Body, bounded: bool, moved: nat, stop: Stop) returns (left: nat)
    requires got + w.inbox == EncodeFrame(reply) && StopsAfter(w.script, moved, stop)
    requires moved < |w.inbox| && |got| + moved >= 4
    ensures var p := ReadExact(w, got, 4, bounded);
            && p.error == None && 4 <= |p.got| && FromLe(p.got[..4]) == |reply|
            && StopsAfter(p.wire.script, left, stop) && |p.got| + left == |got| + moved
            && |p.got| + |p.wire.inbox| == |got| + |w.inbox|
  {
    ReadHeaderRefines(w, got, reply, bounded);
    if |got| < 4 {
      ReadExactByBytes(w, got, 4, bounded, moved, stop);
      left := moved - (4 - |got|);
    } else {
      left := moved;
    }
    ReadExactTakes(w, got, 4, bounded);
    var p := ReadExact(w, got, 4, bounded);
    assert |p.got + p.wire.inbox| == |got + w.inbox|;
  }

  lemma BodyFails<R>(decode: Bytes -> Option<R>, w: Wire, got: Bytes, len: nat, bounded: bool, moved: nat, stop: Stop)
    requires |got| >= 4 && StopsAfter(w.script, moved, stop) && (stop == Late ==> bounded)
    requires |got| + moved < 4 + len && moved <= |w.inbox|
    ensures var r := ReadBody(decode, w, got, len, bounded);
            r.result == Err(ReadError(stop)) && |r.got| == |got| + moved
  {
    ReadExactFails(w, got, 4 + len, bounded, moved, stop);
  }

  lemma FrameLength(got: Bytes, inbox: Bytes, reply: Body)
    requires got + inbox == EncodeFrame(reply)
    ensures |got| + |inbox| == 4 + |reply|
  {
    assert |got + inbox| == 4 + |reply|;
  }

  lemma ResponseFails<R>(decode: Bytes -> Option<R>, w: Wire, got: Bytes, reply: Body, bounded: bool, moved: nat,
                         stop: Stop)
    requires got + w.inbox == EncodeFrame(reply) && StopsAfter(w.script, moved, stop) && (stop == Late ==> bounded)
    requires moved < |w.inbox| && |got| + moved >= 4 && |reply| <= MAX_RESPONSE_FRAME_LEN
    ensures var r := ReadResponse(decode, w, got, bounded); r.result == Err(ReadError(stop)) && |r.got| == |got| + moved
  {
    FrameLength(got, w.inbox, reply);
    var left := HeaderByBytes(w, got, reply, bounded, moved, stop);
    var header := ReadExact(w, got, 4, bounded);
    BodyFails(decode, header.wire, header.got, |reply|, bounded, left, stop);
  }

  /** A stop at any offset inside the response, in its header or in its body, ends the read with the error of that
      stop, having taken exactly the bytes before it, wherever the read resumes. */
  lemma ReadResponseFails<R>(decode: Bytes -> Option<R>, w: Wire, got: Bytes, reply: Body, bounded: bool, moved: nat,
                             stop: Stop)
    requires got + w.inbox == EncodeFrame(reply) && StopsAfter(w.script, moved, stop) && (stop == Late ==> bounded)
    requires moved < |w.inbox| && (|got| + moved >= 4 ==> |reply| <= MAX_RESPONSE_FRAME_LEN)
    ensures var (r, taken) := (ReadResponse(decode, w, got, bounded), |got| + moved);
            && r.result == Err(ReadError(stop))
            && r.got == EncodeFrame(reply)[..taken] && r.wire.inbox == EncodeFrame(reply)[taken..]
  {
    var r := ReadResponse(decode, w, got, bounded);
    if |got| + moved < 4 {
      HeaderFails(decode, w, got, bounded, moved, stop);
    } else {
      ResponseFails(decode, w, got, reply, bounded, moved, stop);
    }
    ReadResponseTakes(decode, w, got, bounded);
    PrefixOf(r.got, r.wire.inbox, EncodeFrame(reply), |got| + moved);
  }

  /** When the response stops half-way, the request has been sent and ends with the error of the stop. Only the
      deadline of the keeping entry point leaves the connection usable: it saves exactly the bytes taken and leaves
      the rest to be drained. Everything else gives the connection up. */
  lemma FailureInResponse<R>(engine: Engine<R>, s: ClientState, body: Body, api: Api, moved: nat, stop: Stop)
    requires AnswersInTurn(engine) && Alternating(engine, s) && Ready(s) && (stop == Late ==> api != Blocking)
    requires var (error, w) := WriteRequest(engine, s.wire, Some(body), api != Blocking);
             error.None? && StopsAfter(w.script, moved, stop)
    requires var reply := engine.respond(Sent(s.wire) + [body]);
             moved < |EncodeFrame(reply)| && (moved >= 4 ==> |reply| <= MAX_RESPONSE_FRAME_LEN)
    ensures var e := Perform(engine, s, Send(Some(body), api));
            var frame := EncodeFrame(engine.respond(Sent(s.wire) + [body]));
            && e.result == Err(ReadError(stop)) && Sent(e.after.wire) == Sent(s.wire) + [body]
            && (e.after.poisoned <==> !(api == Keep && stop == Late))
            && (api == Keep && stop == Late ==>
                  e.after.pending == Some(frame[..moved]) && e.after.wire.inbox == frame[moved..])
  {
    var w := WriteRequest(engine, s.wire, Some(body), api != Blocking).1;
    WriteRequestPuts(engine, s.wire, Sent(s.wire), Some(body), api != Blocking);
    SentIsWritten(Sent(s.wire) + [body]);
    assert [] + w.inbox == w.inbox;
    ReadResponseFails(engine.decode, w, [], engine.respond(Sent(s.wire) + [body]), api != Blocking, moved, stop);
    ReadResponseTakes(engine.decode, w, [], api != Blocking);
  }

  /** The same while draining: only another deadline lets the rest be drained later. */
  lemma FailureInDrain<R>(engine: Engine<R>, s: ClientState, reply: Body, moved: nat, stop: Stop)
    requires !s.poisoned && s.pending.Some? && s.pending.value + s.wire.inbox == EncodeFrame(reply)
    requires StopsAfter(s.wire.script, moved, stop) && moved < |s.wire.inbox|
    requires |s.pending.value| + moved >= 4 ==> |reply| <= MAX_RESPONSE_FRAME_LEN
    ensures var (e, taken) := (Perform(engine, s, Drain), |s.pending.value| + moved);
            && e.result == Err(ReadError(stop)) && e.after.wire.written == s.wire.written
            && (e.after.poisoned <==> stop != Late)
            && (stop == Late ==> e.after.pending == Some(EncodeFrame(reply)[..taken])
                                 && e.after.wire.inbox == EncodeFrame(reply)[taken..])
  {
    ReadResponseFails(engine.decode, s.wire, s.pending.value, reply, true, moved, stop);
    ReadResponseTakes(engine.decode, s.wire, s.pending.value, true);
  }

  lemma OneByteWritten<R>(engine: Engine<R>, w: Wire, bytes: Bytes, bounded: bool) returns (w1: Wire)
    requires w.script != [] && w.script[0] == Completed(1) && bytes != []
    ensures w1.written == w.written + bytes[..1] && w1.script == w.script[1..]
    ensures WriteAll(engine, w, bytes, bounded) == WriteAll(engine, w1, bytes[1..], bounded)
  {
    WriteAllUnfold(engine, w, bytes, bounded);
    w1 := WriteStep(engine, w, bytes, bounded).1;
  }

  lemma StoppedWrite<R>(engine: Engine<R>, w: Wire, bytes: Bytes, bounded: bool, stop: Stop)
    requires w.script != [] && IsStop(w.script[0], stop) && bytes != [] && (stop == Late ==> bounded)
    ensures var (error, w1) := WriteAll(engine, w, bytes, bounded);
            error == Some(WriteError(stop)) && w1.written == w.written
  {
    WriteAllUnfold(engine, w, bytes, bounded);
    assert w.written + bytes[..0] == w.written;
  }

  lemma TakeOneFirst<T>(a: seq<T>, b: seq<T>, n: nat)
    requires 0 < n <= |b|
    ensures a + b[..1] + b[1..][..n - 1] == a + b[..n]
  {
    assert b[..1] + b[1..][..n - 1] == b[..n];
    Reassociate(a, b[..1], b[1..][..n - 1]);
  }

  lemma {:induction false} WriteAllFails<R>(engine: Engine<R>, w: Wire, bytes: Bytes, bounded: bool, moved: nat,
                                            stop: Stop)
    requires StopsAfter(w.script, moved, stop) && (stop == Late ==> bounded) && moved < |bytes|
    ensures var (error, w1) := WriteAll(engine, w, bytes, bounded);
            error == Some(WriteError(stop)) && w1.written == w.written + bytes[..moved]
    decreases moved
  {
    if moved > 0 {
      var next := OneByteWritten(engine, w, bytes, bounded);
      WriteAllFails(engine, next, bytes[1..], bounded, moved - 1, stop);
      TakeOneFirst(w.written, bytes, moved);
    } else {
      StoppedWrite(engine, w, bytes, bounded, stop);
      assert w.written + [] == w.written;
    }
  }

  lemma {:induction false} WriteAllByBytes<R>(engine: Engine<R>, w: Wire, bytes: Bytes, bounded: bool, moved: nat,
                                              stop: Stop)
    requires StopsAfter(w.script, moved, stop) && |bytes| <= moved
    ensures var (error, w1) := WriteAll(engine, w, bytes, bounded);
            error == None && w1.written == w.written + bytes && StopsAfter(w1.script, moved - |bytes|, stop)
    decreases moved
  {
    if bytes == [] {
      assert w.written + [] == w.written;
    } else {
      var next := OneByteWritten(engine, w, bytes, bounded);
      WriteAllByBytes(engine, next, bytes[1..], bounded, moved - 1, stop);
      TakeOneFirst(w.written, bytes, |bytes|);
      assert bytes[1..][..|bytes| - 1] == bytes[1..] && bytes[..|bytes|] == bytes;
    }
  }

  lemma PrefixWithin(w: Wire, body: Body, moved: nat)
    requires moved < |EncodeFrame(body)|
    ensures moved < 4 ==> ToLe(|body|)[..moved] == EncodeFrame(body)[..moved]
    ensures moved >= 4 ==> w.written + ToLe(|body|) + body[..moved - 4] == w.written + EncodeFrame(body)[..moved]
  {
    if moved >= 4 {
      assert ToLe(|body|) + body[..moved - 4] == EncodeFrame(body)[..moved];
      Reassociate(w.written, ToLe(|body|), body[..moved - 4]);
    }
  }

  /** The write half: the stop comes after `moved` bytes of the frame. */
  lemma WriteRequestFails<R>(engine: Engine<R>, w: Wire, body: Body, bounded: bool, moved: nat, stop: Stop)
    requires |body| <= MAX_REQUEST_FRAME_LEN && StopsAfter(w.script, moved, stop) && (stop == Late ==> bounded)
    requires moved < |EncodeFrame(body)|
    ensures var (error, w1) := WriteRequest(engine, w, Some(body), bounded);
            error == Some(WriteError(stop)) && w1.written == w.written + EncodeFrame(body)[..moved]
  {
    PrefixWithin(w, body, moved);
    if moved < 4 {
      WriteAllFails(engine, w, ToLe(|body|), bounded, moved, stop);
    } else {
      WriteAllByBytes(engine, w, ToLe(|body|), bounded, moved, stop);
      WriteAllFails(engine, WriteAll(engine, w, ToLe(|body|), bounded).1, body, bounded, moved - 4, stop);
    }
  }

  /** When the request itself stops half-way, part of it is on the wire and the connection is given up. The keeping
      entry point does not call that a timeout, because nothing can be drained. */
  lemma FailureInRequest<R>(engine: Engine<R>, s: ClientState, body: Body, api: Api, moved: nat, stop: Stop)
    requires Ready(s) && |body| <= MAX_REQUEST_FRAME_LEN && (stop == Late ==> api != Blocking)
    requires StopsAfter(s.wire.script, moved, stop) && moved < |EncodeFrame(body)|
    ensures var e := Perform(engine, s, Send(Some(body), api));
            && e.result == Err(if api == Keep && stop == Late then ConnectionAborted else WriteError(stop))
            && e.after.poisoned && e.after.wire.written == s.wire.written + EncodeFrame(body)[..moved]
  {
    WriteRequestFails(engine, s.wire, body, api != Blocking, moved, stop);
  }

  /** What never reaches the wire: a request on a connection that was given up or still owes an answer, one that is too
      long, and one that cannot be serialized; only the last ends the connection. */
  lemma RejectedRequests<R>(engine: Engine<R>, s: ClientState, body: Option<Bytes>, api: Api)
    requires !Ready(s) || body.None? || |body.value| > MAX_REQUEST_FRAME_LEN
    ensures Perform(engine, s, Send(body, api)) ==
              if s.poisoned then Event(Err(ConnectionAborted), s)
              else if s.pending.Some? then Event(Err(InvalidInput), s)
              else if body.None? then Event(Err(InvalidData), s.(poisoned := true))
              else Event(Err(InvalidInput), s)
  {
  }
}
