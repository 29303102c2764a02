/** The engine client: what each call does to the connection, and what holds in every run.

    Nothing on the wire ties an answer to its request, so the client is correct only as long as it
    keeps requests and answers strictly alternating. */
module EngineClient {
  import opened Prelude
  import opened Framing
  import opened Wire

  /** The three request entry points: `request`, `request_within`, `request_within_keep`. */
  datatype Api = Blocking | Within | Keep

  /** `pending` holds the bytes already read of the one frame that is owed. */
  datatype ClientState = ClientState(wire: Wire, pending: Option<Bytes>, poisoned: bool)

  function Fresh(script: seq<Io>): ClientState {
    ClientState(Wire([], [], script), None, false)
  }

  predicate Ready(s: ClientState) {
    !s.poisoned && s.pending.None?
  }

  /** After a read: only a timeout of a keeping call may leave a partial frame, any other failure
      makes the connection unusable. */
  function Settle<R>(r: Response<R>, keep: bool): ClientState {
    if r.result.Ok? then ClientState(r.wire, None, false)
    else if keep && r.result.error == TimedOut then ClientState(r.wire, Some(r.got), false)
    else ClientState(r.wire, None, true)
  }

  function RequestSpec<R>(engine: Engine<R>, s: ClientState, body: Option<Bytes>, api: Api)
    : (Result<R, ErrorKind>, ClientState)
  {
    if s.poisoned then (Err(ConnectionAborted), s)
    else if s.pending.Some? then (Err(InvalidInput), s)
    else
      var (error, w) := WriteRequest(engine, s.wire, body, api != Blocking);
      if error == Some(InvalidInput) then (Err(InvalidInput), ClientState(w, None, false))
      else if error.Some? then
        (Err(if api == Keep && error == Some(TimedOut) then ConnectionAborted else error.value),
         ClientState(w, None, true))
      else
        var r := ReadResponse(engine.decode, w, [], api != Blocking);
        (r.result, Settle(r, api == Keep))
  }

  function DrainSpec<R>(engine: Engine<R>, s: ClientState): (Result<Option<R>, ErrorKind>, ClientState) {
    if s.poisoned then (Err(ConnectionAborted), s)
    else if s.pending.None? then (Ok(None), s)
    else
      var r := ReadResponse(engine.decode, s.wire, s.pending.value, true);
      (Answer(r.result), Settle(r, true))
  }

  function Answer<R>(result: Result<R, ErrorKind>): Result<Option<R>, ErrorKind> {
    match result
    case Ok(v) => Ok(Some(v))
    case Err(kind) => Err(kind)
  }

  // ---- the client object ----

  /** `ReadBody` in terms of the two buffers the client keeps. */
  lemma ReadBodySplit<R>(decode: Bytes -> Option<R>, w: Wire, head: Bytes, got: Bytes, len: nat, bounded: bool)
    requires |head| == 4
    ensures var p := ReadExact(w, got, len, bounded);
            ReadBody(decode, w, head + got, len, bounded) ==
            Response(if p.error.Some? then Err(p.error.value) else Verdict(decode, p.got), head + p.got, p.wire)
  {
    ReadExactShift(w, head, got, len, bounded);
    var p := ReadExact(w, got, len, bounded);
    assert (head + p.got)[4..] == p.got;
  }

  /** The pipe handle. */
  class Pipe<R> {
    const engine: Engine<R>
    var wire: Wire

    constructor (engine: Engine<R>, script: seq<Io>)
      ensures this.engine == engine && wire == Wire([], [], script)
    {
      this.engine := engine;
      wire := Wire([], [], script);
    }

    /** One read into `buffer[start..]`. */
    method ReadFile(buffer: array<byte>, start: nat, bounded: bool) returns (r: Result<nat, ErrorKind>)
      requires start <= buffer.Length
      modifies this, buffer
      ensures var (outcome, w) := ReadStep(old(wire), buffer.Length - start, bounded);
              && wire == w
              && buffer[..start] == old(buffer[..start])
              && (outcome.Err? ==> r == Err(outcome.error))
              && (outcome.Ok? ==> r == Ok(|outcome.value|) && start + |outcome.value| <= buffer.Length
                                  && buffer[..start + |outcome.value|] == old(buffer[..start]) + outcome.value)
    {
      var (outcome, w) := ReadStep(wire, buffer.Length - start, bounded);
      wire := w;
      match outcome
      case Err(kind) => r := Err(kind);
      case Ok(bytes) =>
        forall i | 0 <= i < |bytes| {
          buffer[start + i] := bytes[i];
        }
        SliceSplit(buffer[..start + |bytes|], start, old(buffer[..start]), bytes);
        r := Ok(|bytes|);
    }

    method WriteFile(bytes: Bytes, bounded: bool) returns (r: Result<nat, ErrorKind>)
      modifies this
      ensures (r, wire) == WriteStep(engine, old(wire), bytes, bounded)
    {
      var (outcome, w) := WriteStep(engine, wire, bytes, bounded);
      wire := w;
      r := outcome;
    }

    /** One round of `read_exact_progress`: an attempt that moves nothing is an unexpected end. */
    method ReadSome(buffer: array<byte>, offset: nat, bounded: bool, ghost got: Bytes)
      returns (r: Result<nat, ErrorKind>, ghost more: Bytes)
      requires offset < buffer.Length && got == buffer[..offset]
      modifies this, buffer
      ensures r.Err? ==> buffer[..offset] == got
                         && ReadExact(old(wire), got, buffer.Length, bounded) == Progress(Some(r.error), got, wire)
      ensures r.Ok? ==> 0 < r.value == |more| <= buffer.Length - offset && buffer[..offset + r.value] == got + more
                        && ReadExact(old(wire), got, buffer.Length, bounded)
                           == ReadExact(wire, got + more, buffer.Length, bounded)
    {
      ghost var before, outcome := wire, ReadStep(wire, buffer.Length - offset, bounded).0;
      more := [];
      r := ReadFile(buffer, offset, bounded);
      if r.Ok? && r.value > 0 {
        more := outcome.value;
        ReadExactGoesOn(before, got, buffer.Length, bounded, more);
      } else {
        ReadExactStops(before, got, buffer.Length, bounded);
        if r.Ok? {
          assert buffer[..offset] == got;
          r := Err(UnexpectedEof);
        }
      }
    }

    method ReadExactProgress(buffer: array<byte>, offset: nat, bounded: bool)
      returns (error: Option<ErrorKind>, offset': nat)
      requires offset <= buffer.Length
      modifies this, buffer
      ensures offset <= offset' <= buffer.Length
      ensures Progress(error, buffer[..offset'], wire)
           == ReadExact(old(wire), old(buffer[..offset]), buffer.Length, bounded)
    {
      ghost var got := buffer[..offset];
      ghost var whole := ReadExact(wire, got, buffer.Length, bounded);
      offset' := offset;
      while offset' < buffer.Length
        invariant offset <= offset' <= buffer.Length
        invariant got == buffer[..offset']
        invariant ReadExact(wire, got, buffer.Length, bounded) == whole
      {
        var read, more := ReadSome(buffer, offset', bounded, got);
        if read.Err? {
          return Some(read.error), offset';
        }
        got := got + more;
        offset' := offset' + read.value;
      }
      error := None;
    }

    method WriteAllBytes(bytes: Bytes, bounded: bool) returns (error: Option<ErrorKind>)
      modifies this
      ensures (error, wire) == WriteAll(engine, old(wire), bytes, bounded)
    {
      ghost var rest, whole := bytes, WriteAll(engine, wire, bytes, bounded);
      var offset := 0;
      while offset < |bytes|
        invariant 0 <= offset <= |bytes| && rest == bytes[offset..]
        invariant WriteAll(engine, wire, rest, bounded) == whole
      {
        WriteAllUnfold(engine, wire, rest, bounded);
        var wrote := WriteFile(bytes[offset..], bounded);
        if wrote.Err? {
          return Some(wrote.error);
        }
        if wrote.value == 0 {
          return Some(WriteZero);
        }
        offset := offset + wrote.value;
        rest := rest[wrote.value..];
      }
      error := None;
    }

    method WriteRequestFrame(body: Option<Bytes>, bounded: bool) returns (error: Option<ErrorKind>)
      modifies this
      ensures (error, wire) == WriteRequest(engine, old(wire), body, bounded)
    {
      if body.None? {
        return Some(InvalidData);
      }
      if |body.value| > MAX_REQUEST_FRAME_LEN || |body.value| > U32_MAX {
        return Some(InvalidInput);
      }
      error := WriteAllBytes(ToLe(|body.value|), bounded);
      if error.None? {
        error := WriteAllBytes(body.value, bounded);
      }
    }
  }

  /** A response frame that can outlive one deadline, with its exact offsets. */
  class PendingResponseFrame {
    const header: array<byte>
    var headerRead: nat
    var body: array?<byte>
    var bodyRead: nat

    ghost predicate Valid()
      reads this, header, body
    {
      && header.Length == 4 && headerRead <= 4 && header != body
      && (body == null ==> bodyRead == 0)
      && (body != null ==> headerRead == 4 && bodyRead <= body.Length
                           && body.Length == FromLe(header[..]) <= MAX_RESPONSE_FRAME_LEN)
    }

    /** The bytes of the frame read so far. */
    ghost function Got(): Bytes
      reads this, header, body
      requires Valid()
    {
      header[..headerRead] + if body == null then [] else body[..bodyRead]
    }

    constructor ()
      ensures Valid() && Got() == [] && fresh(header) && body == null
    {
      header := new byte[4](_ => 0);
      headerRead := 0;
      body := null;
      bodyRead := 0;
    }

    /** `read_response_progress`: header first, then the body, each resumed at its offset. */
    method Read<R>(pipe: Pipe<R>, bounded: bool) returns (result: Result<R, ErrorKind>)
      requires Valid()
      modifies pipe, this, header, body
      ensures body != old(body) ==> body == null || fresh(body)
      ensures var r := ReadResponse(pipe.engine.decode, old(pipe.wire), old(Got()), bounded);
              && result == r.result && pipe.wire == r.wire
              && (result == Err(TimedOut) ==> Valid() && Got() == r.got)
    {
      ghost var w, got := pipe.wire, Got();
      assert body == null ==> got == header[..headerRead];
      assert body != null ==> got[..4] == header[..4] == header[..];
      var error: Option<ErrorKind>;
      error, headerRead := pipe.ReadExactProgress(header, headerRead, bounded);
      ghost var p := ReadExact(w, got, 4, bounded);
      assert error == p.error && pipe.wire == p.wire;
      if error.Some? {
        assert Got() == p.got;
        return Err(error.value);
      }
      assert header[..4] == header[..];
      assert p.got[..4] == header[..];
      if FromLe(header[..]) > MAX_RESPONSE_FRAME_LEN {
        return Err(InvalidData);
      }
      assert Got() == p.got;
      result := ReadRest(pipe, bounded);
    }

    method ReadRest<R>(pipe: Pipe<R>, bounded: bool) returns (result: Result<R, ErrorKind>)
      requires Valid() && headerRead == 4 && FromLe(header[..]) <= MAX_RESPONSE_FRAME_LEN
      modifies pipe, this, body
      ensures body != old(body) ==> body == null || fresh(body)
      ensures var r := ReadBody(pipe.engine.decode, old(pipe.wire), old(Got()), FromLe(old(header[..])), bounded);
              && result == r.result && pipe.wire == r.wire
              && (result == Err(TimedOut) ==> Valid() && Got() == r.got)
    {
      ghost var got, head := Got(), header[..];
      assert header[..4] == head;
      var len := FromLe(header[..]);
      if body == null {
        body := new byte[len](_ => 0);
      }
      ghost var w, bodyGot := pipe.wire, body[..bodyRead];
      assert got == head + bodyGot;
      var error: Option<ErrorKind>;
      error, bodyRead := pipe.ReadExactProgress(body, bodyRead, bounded);
      ReadBodySplit(pipe.engine.decode, w, head, bodyGot, len, bounded);
      if error.Some? {
        return Err(error.value);
      }
      var bytes := body[..];
      assert body[..bodyRead] == bytes;
      body := null;
      result := Verdict(pipe.engine.decode, bytes);
    }
  }

  class Client<R> {
    const pipe: Pipe<R>
    var pending: PendingResponseFrame?
    var poisoned: bool

    ghost predicate Valid()
      reads this, pending, if pending == null then {} else {pending.header, pending.body}
    {
      pending != null ==> pending.Valid() && !poisoned
    }

    ghost function Repr(): set<object>
      reads this, pending
    {
      {this, pipe} +
      if pending == null then {}
      else {pending, pending.header} + if pending.body == null then {} else {pending.body}
    }

    ghost function State(): ClientState
      requires Valid()
      reads this, pipe, pending, if pending == null then {} else {pending.header, pending.body}
    {
      ClientState(pipe.wire, if pending == null then None else Some(pending.Got()), poisoned)
    }

    constructor (engine: Engine<R>, script: seq<Io>)
      ensures Valid() && fresh(Repr()) && pipe.engine == engine && State() == Fresh(script)
    {
      pipe := new Pipe(engine, script);
      pending := null;
      poisoned := false;
    }

    /** A request may start exactly when the connection is ready; the two refusals tell a poisoned
        connection from one that owes a response. */
    method EnsureReady() returns (error: Option<ErrorKind>)
      requires Valid()
      ensures error.None? <==> Ready(State())
      ensures error == Some(ConnectionAborted) <==> State().poisoned
      ensures error == Some(InvalidInput) <==> State().pending.Some? && !State().poisoned
      ensures error.Some? ==> forall body: Option<Bytes>, api: Api ::
                RequestSpec(pipe.engine, State(), body, api) == (Err(error.value), State())
    {
      if poisoned {
        return Some(ConnectionAborted);
      }
      if pending != null {
        return Some(InvalidInput);
      }
      error := None;
    }

    /** `request`: no deadline. */
    method Request(body: Option<Bytes>) returns (result: Result<R, ErrorKind>)
      requires Valid()
      modifies Repr()
      ensures Valid() && fresh(Repr() - old(Repr()))
      ensures (result, State()) == RequestSpec(pipe.engine, old(State()), body, Blocking)
    {
      var error := EnsureReady();
      if error.Some? {
        return Err(error.value);
      }
      error := pipe.WriteRequestFrame(body, false);
      if error.Some? {
        if error.value == InvalidInput {
          return Err(error.value);
        }
        poisoned := true;
        return Err(error.value);
      }
      var frame := new PendingResponseFrame();
      result := frame.Read(pipe, false);
      if result.Err? {
        poisoned := true;
      }
    }

    /** `request_within`: a partial response is never kept. */
    method RequestWithin(body: Option<Bytes>) returns (result: Result<R, ErrorKind>)
      requires Valid()
      modifies Repr()
      ensures Valid() && fresh(Repr() - old(Repr()))
      ensures (result, State()) == RequestSpec(pipe.engine, old(State()), body, Within)
    {
      var error := EnsureReady();
      if error.Some? {
        return Err(error.value);
      }
      error := pipe.WriteRequestFrame(body, true);
      if error.Some? {
        if error.value == InvalidInput {
          return Err(error.value);
        }
        poisoned := true;
        return Err(error.value);
      }
      var frame := new PendingResponseFrame();
      result := frame.Read(pipe, true);
      if result.Err? {
        poisoned := true;
      }
    }

    /** `request_within_keep`: a response that is late is kept with its offsets. */
    method RequestWithinKeep(body: Option<Bytes>) returns (result: Result<R, ErrorKind>)
      requires Valid()
      modifies Repr()
      ensures Valid() && fresh(Repr() - old(Repr()))
      ensures (result, State()) == RequestSpec(pipe.engine, old(State()), body, Keep)
    {
      var error := EnsureReady();
      if error.Some? {
        return Err(error.value);
      }
      error := pipe.WriteRequestFrame(body, true);
      if error.Some? {
        if error.value == InvalidInput {
          return Err(error.value);
        }
        poisoned := true;
        if error.value == TimedOut {
          return Err(ConnectionAborted);
        }
        return Err(error.value);
      }
      var frame := new PendingResponseFrame();
      result := frame.Read(pipe, true);
      match result
      case Ok(_) =>
      case Err(kind) =>
        if kind == TimedOut {
          pending := frame;
        } else {
          poisoned := true;
        }
    }

    /** `drain_pending`. */
    method DrainPending() returns (result: Result<Option<R>, ErrorKind>)
      requires Valid()
      modifies Repr()
      ensures Valid() && fresh(Repr() - old(Repr()))
      ensures (result, State()) == DrainSpec(pipe.engine, old(State()))
    {
      if poisoned {
        return Err(ConnectionAborted);
      }
      if pending == null {
        return Ok(None);
      }
      var frame := pending;
      pending := null;
      var response := frame.Read(pipe, true);
      match response
      case Ok(v) => result := Ok(Some(v));
      case Err(kind) =>
        if kind == TimedOut {
          pending := frame;
        } else {
          poisoned := true;
        }
        result := Err(kind);
    }

    method IsPending() returns (owed: bool)
      requires Valid()
      ensures owed == State().pending.Some?
    {
      owed := pending != null;
    }
  }
}
