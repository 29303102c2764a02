/** What holds in every run of the engine client, for every engine that answers in turn and every
    way the I/O attempts may end. */
module ClientRuns {
  import opened Prelude
  import opened Framing
  import opened Wire
  import opened EngineClient

  datatype Call = Send(body: Option<Bytes>, api: Api) | Drain

  datatype Event<R> = Event(result: Result<Option<R>, ErrorKind>, after: ClientState)

  function Perform<R>(engine: Engine<R>, s: ClientState, call: Call): Event<R> {
    match call
    case Send(body, api) =>
      var (result, after) := RequestSpec(engine, s, body, api);
      Event(Answer(result), after)
    case Drain =>
      var (result, after) := DrainSpec(engine, s);
      Event(result, after)
  }

  /** The outcomes of a run, call by call. */
  function Run<R>(engine: Engine<R>, s: ClientState, calls: seq<Call>): (events: seq<Event<R>>)
    ensures |events| == |calls|
    decreases |calls|
  {
    if calls == [] then []
    else
      var first := Perform(engine, s, calls[0]);
      [first] + Run(engine, first.after, calls[1..])
  }

  function Final<R>(s: ClientState, events: seq<Event<R>>): ClientState {
    if events == [] then s else events[|events| - 1].after
  }

  /** The answer to the last complete request. */
  function LastReply<R>(engine: Engine<R>, w: Wire): Body {
    engine.respond(Sent(w))
  }

  /** What keeps answers and requests paired. A ready client has written whole requests only and
      has consumed every answer, so the stream is at a frame boundary; a pending client has consumed
      exactly the bytes it saved, a proper prefix of the one owed frame. */
  ghost predicate Alternating<R>(engine: Engine<R>, s: ClientState) {
    && (s.poisoned ==> s.pending.None?)
    && (!s.poisoned ==> s.wire.written == Stream(Sent(s.wire)))
    && (Ready(s) ==> s.wire.inbox == [])
    && (s.pending.Some? ==>
          var got, frame := s.pending.value, EncodeFrame(LastReply(engine, s.wire));
          && Sent(s.wire) != []
          && got + s.wire.inbox == frame
          && |got| < |frame|
          && (|got| > 4 ==> |LastReply(engine, s.wire)| <= MAX_RESPONSE_FRAME_LEN))
  }

  /** What one call may do. */
  ghost predicate Safe<R>(engine: Engine<R>, s: ClientState, call: Call, e: Event<R>) {
    var kept := e.after.pending.Some?;
    // an answer is the decoded answer to the last request, and for a request, to this one
    && (e.result.Ok? && e.result.value.Some? ==>
          Verdict(engine.decode, LastReply(engine, e.after.wire)) == Ok(e.result.value.value))
    && (e.result.Ok? && call.Send? ==>
          call.body.Some? && |call.body.value| <= MAX_REQUEST_FRAME_LEN
          && Sent(e.after.wire) == Sent(s.wire) + [call.body.value])
    && (call.Drain? ==> e.after.wire.written == s.wire.written)
    // a drain has nothing to do when nothing is owed
    && (call.Drain? && Ready(s) ==> e == Event(Ok(None), s))
    // after success nothing is owed
    && (e.result.Ok? ==> Ready(e.after))
    // a timeout is reported by a keeping call or a drain exactly when it leaves a partial frame
    && (call.Drain? || (Ready(s) && call.api == Keep) ==> (e.result == Err(TimedOut) <==> kept))
    && (Ready(s) && call.Send? && call.api != Keep ==> !kept)
    // any other failure changes nothing at all or makes the connection unusable for good
    && (e.result.Err? ==> e.after == s || e.after.poisoned || (kept && e.result.error == TimedOut))
    && (e.result == Err(InvalidInput) ==> e.after == s)
    && (s.poisoned ==> e.result == Err(ConnectionAborted) && e.after == s)
    // no request is sent while an answer is owed
    && (s.pending.Some? && call.Send? ==> e.after == s && e.result == Err(InvalidInput))
  }

  function Owed(s: ClientState): nat {
    if s.pending.Some? then 1 else 0
  }

  function Delivered<R>(events: seq<Event<R>>): nat {
    if events == [] then 0
    else (if events[0].result.Ok? && events[0].result.value.Some? then 1 else 0) + Delivered(events[1..])
  }

  lemma SentIsWritten(sent: seq<Body>)
    ensures ParseFrames(Stream(sent)) == sent
  {
    ParseStream(sent, [], []);
    assert Stream(sent) + [] == Stream(sent);
  }

  lemma SettleIsSafe<R>(engine: Engine<R>, w: Wire, got: Bytes, bounded: bool, keep: bool)
    requires AnswersInTurn(engine)
    requires Sent(w) != [] && w.written == Stream(Sent(w))
    requires got + w.inbox == EncodeFrame(LastReply(engine, w)) && |got| < |EncodeFrame(LastReply(engine, w))|
    requires |got| > 4 ==> |LastReply(engine, w)| <= MAX_RESPONSE_FRAME_LEN
    ensures var r := ReadResponse(engine.decode, w, got, bounded);
            var after := Settle(r, keep);
            && Alternating(engine, after)
            && after.wire.written == w.written
            && (r.result.Ok? ==> Ready(after) && r.result == Verdict(engine.decode, LastReply(engine, w)))
            && (after.pending.Some? <==> keep && r.result == Err(TimedOut))
            && (r.result.Err? && after.pending.None? ==> after.poisoned)
            && (r.result.Err? ==> r.result.error in {InvalidData, TimedOut, UnexpectedEof, Other})
  {
    var reply := LastReply(engine, w);
    ReadResponseTakes(engine.decode, w, got, bounded);
    ReadResponseRefines(engine.decode, w, got, reply, bounded);
    ReadEncoded(engine.decode, reply, []);
    assert EncodeFrame(reply) + [] == EncodeFrame(reply);
  }

  lemma RequestIsSafe<R>(engine: Engine<R>, s: ClientState, body: Option<Bytes>, api: Api)
    requires AnswersInTurn(engine) && Alternating(engine, s)
    ensures var e := Perform(engine, s, Send(body, api));
            Alternating(engine, e.after) && Safe(engine, s, Send(body, api), e)
  {
    if Ready(s) {
      var (error, w) := WriteRequest(engine, s.wire, body, api != Blocking);
      WriteRequestPuts(engine, s.wire, Sent(s.wire), body, api != Blocking);
      if error.None? {
        SentIsWritten(Sent(s.wire) + [body.value]);
        assert [] + w.inbox == w.inbox;
        SettleIsSafe(engine, w, [], api != Blocking, api == Keep);
        ReadResponseTakes(engine.decode, w, [], api != Blocking);
      }
    }
  }

  lemma DrainIsSafe<R>(engine: Engine<R>, s: ClientState)
    requires AnswersInTurn(engine) && Alternating(engine, s)
    ensures var e := Perform(engine, s, Drain);
            Alternating(engine, e.after) && Safe(engine, s, Drain, e)
  {
    if s.pending.Some? {
      SettleIsSafe(engine, s.wire, s.pending.value, true, true);
    }
  }

  lemma StepIsSafe<R>(engine: Engine<R>, s: ClientState, call: Call)
    requires AnswersInTurn(engine) && Alternating(engine, s)
    ensures var e := Perform(engine, s, call); Alternating(engine, e.after) && Safe(engine, s, call, e)
  {
    match call
    case Send(body, api) => RequestIsSafe(engine, s, body, api);
    case Drain => DrainIsSafe(engine, s);
  }

  lemma FinalStep<R>(s: ClientState, first: Event<R>, rest: seq<Event<R>>)
    ensures Final(s, [first] + rest) == Final(first.after, rest)
  {
  }

  /** After its first call a run is the run of the remaining calls. */
  lemma RunShift<R>(engine: Engine<R>, s: ClientState, calls: seq<Call>, k: nat)
    requires 0 < k < |calls|
    ensures var first := Perform(engine, s, calls[0]);
            var (events, rest) := (Run(engine, s, calls), Run(engine, first.after, calls[1..]));
            && events[k] == rest[k - 1] && calls[k] == calls[1..][k - 1]
            && Final(s, events[..k]) == Final(first.after, rest[..k - 1])
  {
    var first := Perform(engine, s, calls[0]);
    var events, rest := Run(engine, s, calls), Run(engine, first.after, calls[1..]);
    assert events == [first] + rest;
    assert events[..k] == [first] + rest[..k - 1];
    FinalStep(s, first, rest[..k - 1]);
  }

  /** The call is safe, and it leaves requests and answers paired as it found them. */
  ghost predicate KeepsPairing<R>(engine: Engine<R>, s: ClientState, call: Call, e: Event<R>) {
    Alternating(engine, s) && Alternating(engine, e.after) && Safe(engine, s, call, e)
  }

  /** Every call of every run is safe, and the pairing of requests and answers is never lost. */
  lemma {:induction false} EveryRunIsSafe<R>(engine: Engine<R>, s: ClientState, calls: seq<Call>, k: nat)
    requires AnswersInTurn(engine) && Alternating(engine, s)
    requires k < |calls|
    ensures var events := Run(engine, s, calls);
            KeepsPairing(engine, Final(s, events[..k]), calls[k], events[k])
    decreases k
  {
    StepIsSafe(engine, s, calls[0]);
    if k > 0 {
      RunShift(engine, s, calls, k);
      EveryRunIsSafe(engine, Perform(engine, s, calls[0]).after, calls[1..], k - 1);
    }
  }

  /** A fresh connection is alternating, so the theorem above covers every run. */
  lemma FreshIsAlternating<R>(engine: Engine<R>, script: seq<Io>)
    ensures Alternating(engine, Fresh(script))
  {
    SentIsWritten([]);
  }

  /** Conservation: while the connection is usable, every request sent has been answered to the
      caller exactly once, except the one that is owed. */
  lemma {:induction false} AnswersAreConserved<R>(engine: Engine<R>, s: ClientState, calls: seq<Call>)
    requires AnswersInTurn(engine) && Alternating(engine, s)
    ensures var events := Run(engine, s, calls);
            var end := Final(s, events);
            !end.poisoned && !s.poisoned ==>
              |Sent(s.wire)| + Delivered(events) + Owed(end) == |Sent(end.wire)| + Owed(s)
    decreases |calls|
  {
    if calls != [] {
      StepIsSafe(engine, s, calls[0]);
      var first := Perform(engine, s, calls[0]);
      var rest := Run(engine, first.after, calls[1..]);
      StepConserves(engine, s, calls[0]);
      AnswersAreConserved(engine, first.after, calls[1..]);
      FinalStep(s, first, rest);
      if first.after.poisoned {
        PoisonedForever(engine, first.after, calls[1..]);
      }
    }
  }

  lemma StepConserves<R>(engine: Engine<R>, s: ClientState, call: Call)
    requires AnswersInTurn(engine) && Alternating(engine, s)
    ensures var e := Perform(engine, s, call);
            !e.after.poisoned ==>
              |Sent(s.wire)| + (if e.result.Ok? && e.result.value.Some? then 1 else 0) + Owed(e.after)
              == |Sent(e.after.wire)| + Owed(s)
  {
    match call
    case Send(body, api) =>
      if Ready(s) {
        var (error, w) := WriteRequest(engine, s.wire, body, api != Blocking);
        WriteRequestPuts(engine, s.wire, Sent(s.wire), body, api != Blocking);
        if error.None? {
          SentIsWritten(Sent(s.wire) + [body.value]);
          ReadResponseTakes(engine.decode, w, [], api != Blocking);
        }
      }
    case Drain =>
      if s.pending.Some? {
        ReadResponseTakes(engine.decode, s.wire, s.pending.value, true);
      }
  }

  /** A poisoned client never reads or writes again: the whole connection stays as it is. */
  lemma {:induction false} PoisonedForever<R>(engine: Engine<R>, s: ClientState, calls: seq<Call>)
    requires s.poisoned
    ensures var events := Run(engine, s, calls);
            Final(s, events) == s && forall k :: 0 <= k < |calls| ==> events[k] == Event(Err(ConnectionAborted), s)
    decreases |calls|
  {
    if calls != [] {
      PoisonedForever(engine, s, calls[1..]);
    }
  }

  // ---- resuming refines reading in one go ----

  /** Drains until the outcome is not a timeout; every timeout uses up part of the script. */
  function DrainAll<R>(engine: Engine<R>, s: ClientState): Event<R>
    requires s.pending.Some? && !s.poisoned
    decreases |s.wire.script|
  {
    var e := Perform(engine, s, Drain);
    if e.result == Err(TimedOut) then
      ReadResponseTakes(engine.decode, s.wire, s.pending.value, true);
      DrainAll(engine, e.after)
    else e
  }

  /** `request_within_keep`, then as many drains as it takes. */
  function KeepThenDrain<R>(engine: Engine<R>, s: ClientState, body: Option<Bytes>): Event<R> {
    var e := Perform(engine, s, Send(body, Keep));
    if e.after.pending.Some? && Ready(s) then DrainAll(engine, e.after) else e
  }

  /** The number of attempts that carry bytes. */
  function Moves(script: seq<Io>): nat {
    if script == [] then 0 else (if Carries(script[0]) then 1 else 0) + Moves(script[1..])
  }

  predicate Faultless(script: seq<Io>) {
    forall i :: 0 <= i < |script| ==> Carries(script[i]) || IsLate(script[i])
  }

  /** The verdict of reading the whole owed frame at once, and what that leaves unread. */
  function OneShot<R>(engine: Engine<R>, w: Wire): (Result<R, ErrorKind>, Bytes) {
    ReadFrameSpec(engine.decode, EncodeFrame(LastReply(engine, w)))
  }

  /** The outcome of resumed reading is that of one-shot reading on the uncut bytes, and exactly the
      same bytes are consumed, unless the connection broke. */
  ghost predicate RefinesOneShot<R>(engine: Engine<R>, w: Wire, e: Event<R>) {
    var (verdict, rest) := OneShot(engine, w);
    || (e.result == Answer(verdict) && e.after.wire.inbox == rest && (verdict.Ok? <==> Ready(e.after)))
    || (e.result.Err? && e.result.error in {UnexpectedEof, Other} && e.after.poisoned)
  }

  lemma SettleRefines<R>(engine: Engine<R>, w: Wire, got: Bytes, bounded: bool)
    requires got + w.inbox == EncodeFrame(LastReply(engine, w)) && |got| < |EncodeFrame(LastReply(engine, w))|
    requires |got| > 4 ==> |LastReply(engine, w)| <= MAX_RESPONSE_FRAME_LEN
    ensures var r := ReadResponse(engine.decode, w, got, bounded);
            r.result != Err(TimedOut) ==> RefinesOneShot(engine, w, Event(Answer(r.result), Settle(r, true)))
  {
    ReadResponseRefines(engine.decode, w, got, LastReply(engine, w), bounded);
  }

  /** However the response is cut and wherever the deadlines fall, draining a pending frame to the
      end refines reading it at once; it never ends in a timeout. */
  lemma {:induction false} DrainingRefinesOneShot<R>(engine: Engine<R>, s: ClientState)
    requires AnswersInTurn(engine) && Alternating(engine, s)
    requires s.pending.Some? && !s.poisoned
    ensures RefinesOneShot(engine, s.wire, DrainAll(engine, s))
    decreases |s.wire.script|
  {
    var e := Perform(engine, s, Drain);
    SettleRefines(engine, s.wire, s.pending.value, true);
    if e.result == Err(TimedOut) {
      ReadResponseTakes(engine.decode, s.wire, s.pending.value, true);
      DrainIsSafe(engine, s);
      DrainingRefinesOneShot(engine, e.after);
    }
  }

  /** A keeping request that got its bytes out, followed by drains, refines one-shot reading of the
      answer to exactly that request. */
  lemma KeepThenDrainRefinesOneShot<R>(engine: Engine<R>, s: ClientState, body: Body)
    requires AnswersInTurn(engine) && Alternating(engine, s) && Ready(s)
    requires WriteRequest(engine, s.wire, Some(body), true).0.None?
    ensures var w := WriteRequest(engine, s.wire, Some(body), true).1;
            && Sent(w) == Sent(s.wire) + [body]
            && RefinesOneShot(engine, w, KeepThenDrain(engine, s, Some(body)))
  {
    var w := WriteRequest(engine, s.wire, Some(body), true).1;
    WriteRequestPuts(engine, s.wire, Sent(s.wire), Some(body), true);
    SentIsWritten(Sent(s.wire) + [body]);
    assert [] + w.inbox == w.inbox;
    SettleRefines(engine, w, [], true);
    RequestIsSafe(engine, s, Some(body), Keep);
    var e := Perform(engine, s, Send(Some(body), Keep));
    ReadResponseTakes(engine.decode, w, [], true);
    if e.after.pending.Some? {
      DrainingRefinesOneShot(engine, e.after);
    }
  }

  // ---- enough drains ----

  lemma {:induction false} ReadExactProgresses(w: Wire, got: Bytes, total: nat)
    requires Faultless(w.script) && |got| + |w.inbox| >= total
    requires Moves(w.script) >= |w.inbox|
    ensures var p := ReadExact(w, got, total, true);
            && Faultless(p.wire.script)
            && Moves(p.wire.script) >= |p.wire.inbox|
            && (p.error.Some? ==> p.error == Some(TimedOut))
    decreases total - |got|
  {
    if |got| < total {
      assert w.script != [];
      var (outcome, w1) := ReadStep(w, total - |got|, true);
      assert w1.script == w.script[1..];
      assert Transfer(w.script[0], true) == Err(TimedOut) || Transfer(w.script[0], true).Ok?;
      if outcome.Ok? && outcome.value != [] {
        ReadExactProgresses(w1, got + outcome.value, total);
      }
    }
  }

  /** With no fault and at least one moving attempt per missing byte, draining always finishes with
      the one-shot outcome. */
  lemma {:induction false} EnoughDrainsFinish<R>(engine: Engine<R>, s: ClientState)
    requires AnswersInTurn(engine) && Alternating(engine, s)
    requires s.pending.Some? && !s.poisoned
    requires Faultless(s.wire.script) && Moves(s.wire.script) >= |s.wire.inbox|
    ensures DrainAll(engine, s).result == Answer(OneShot(engine, s.wire).0)
    decreases |s.wire.script|
  {
    var e := Perform(engine, s, Drain);
    SettleRefines(engine, s.wire, s.pending.value, true);
    ReadResponseProgresses(engine.decode, s.wire, s.pending.value, LastReply(engine, s.wire));
    if e.result == Err(TimedOut) {
      ReadResponseTakes(engine.decode, s.wire, s.pending.value, true);
      DrainIsSafe(engine, s);
      EnoughDrainsFinish(engine, e.after);
    }
  }

  lemma ReadBodyProgresses<R>(decode: Bytes -> Option<R>, w: Wire, got: Bytes, len: nat)
    requires |got| >= 4 && |got| + |w.inbox| >= 4 + len
    requires Faultless(w.script) && Moves(w.script) >= |w.inbox|
    ensures var r := ReadBody(decode, w, got, len, true);
            && Faultless(r.wire.script) && Moves(r.wire.script) >= |r.wire.inbox|
            && (r.result.Err? ==> r.result.error in {TimedOut, InvalidData})
  {
    ReadExactProgresses(w, got, 4 + len);
  }

  lemma ReadResponseProgresses<R>(decode: Bytes -> Option<R>, w: Wire, got: Bytes, reply: Body)
    requires |got| < |EncodeFrame(reply)| && got + w.inbox == EncodeFrame(reply)
    requires Faultless(w.script) && Moves(w.script) >= |w.inbox|
    ensures var r := ReadResponse(decode, w, got, true);
            && Faultless(r.wire.script) && Moves(r.wire.script) >= |r.wire.inbox|
            && (r.result.Err? ==> r.result.error in {TimedOut, InvalidData})
  {
    ReadExactProgresses(w, got, 4);
    ReadExactTakes(w, got, 4, true);
    ReadHeaderRefines(w, got, reply, true);
    var header := ReadExact(w, got, 4, true);
    if header.error.None? {
      assert |header.got| + |header.wire.inbox| == 4 + |reply|;
      ReadBodyProgresses(decode, header.wire, header.got, |reply|);
    }
  }
}
