/** Length-prefixed frames of the engine pipe: a 4-byte little-endian length, then the body. */
module Framing {
  import opened Prelude

  const MAX_REQUEST_FRAME_LEN := 256 * 1024
  const MAX_RESPONSE_FRAME_LEN := 16 * 1024 * 1024

  /** The `io::ErrorKind`s that the framing code and the client tell apart. */
  datatype ErrorKind =
    | InvalidInput
    | InvalidData
    | UnexpectedEof
    | WriteZero
    | TimedOut
    | ConnectionAborted
    | Other

  /** A body whose length fits the 32-bit prefix. */
  type Body = b: Bytes | |b| <= U32_MAX

  /** The serializer of one message type; `None` is a serde failure. */
  datatype Codec<!M(==)> = Codec(encode: M -> Option<Bytes>, decode: Bytes -> Option<M>)

  /** What serde promises: decoding the encoding of a message gives the message back. */
  ghost predicate Faithful<M(!new)>(codec: Codec<M>) {
    forall m: M :: codec.encode(m).Some? ==> codec.decode(codec.encode(m).value) == Some(m)
  }

  function ToLe(n: u32): (r: Bytes)
    ensures |r| == 4
  {
    [n % 0x100, n / 0x100 % 0x100, n / 0x1_0000 % 0x100, n / 0x100_0000]
  }

  function FromLe(b: Bytes): u32
    requires |b| == 4
  {
    b[0] as int + 0x100 * (b[1] as int) + 0x1_0000 * (b[2] as int) + 0x100_0000 * (b[3] as int)
  }

  lemma LeRoundTrip(n: u32)
    ensures FromLe(ToLe(n)) == n
  {
    var q := n / 0x100;
    assert n == 0x100 * q + n % 0x100;
    assert n / 0x1_0000 == q / 0x100;
    assert n / 0x100_0000 == (q / 0x100) / 0x100;
  }

  function EncodeFrame(body: Body): Bytes {
    ToLe(|body|) + body
  }

  function Stream(bodies: seq<Body>): Bytes {
    if bodies == [] then [] else EncodeFrame(bodies[0]) + Stream(bodies[1..])
  }

  lemma {:induction false} StreamConcat(a: seq<Body>, b: seq<Body>)
    ensures Stream(a + b) == Stream(a) + Stream(b)
  {
    if a == [] {
      assert a + b == b;
    } else {
      assert (a + b)[1..] == a[1..] + b;
      StreamConcat(a[1..], b);
    }
  }

  lemma StreamSnoc(a: seq<Body>, b: Body)
    ensures Stream(a + [b]) == Stream(a) + EncodeFrame(b)
  {
    StreamConcat(a, [b]);
    assert Stream([b]) == EncodeFrame(b) + Stream([b][1..]);
  }

  /** The bodies of the complete frames at the front of a byte stream: what the peer has received. */
  function ParseFrames(s: Bytes): seq<Body>
    decreases |s|
  {
    if |s| < 4 then []
    else
      var len := FromLe(s[..4]);
      if |s| < 4 + len then [] else [s[4..4 + len]] + ParseFrames(s[4 + len..])
  }

  lemma ParseOne(body: Body, rest: Bytes)
    ensures ParseFrames(EncodeFrame(body) + rest) == [body] + ParseFrames(rest)
  {
    var s := EncodeFrame(body) + rest;
    assert s[..4] == ToLe(|body|);
    LeRoundTrip(|body|);
    assert s[4..4 + |body|] == body;
    assert s[4 + |body|..] == rest;
  }

  lemma ParseIncomplete(body: Body, tail: Bytes)
    requires |tail| < |EncodeFrame(body)| && tail == EncodeFrame(body)[..|tail|]
    ensures ParseFrames(tail) == []
  {
    if |tail| >= 4 {
      assert tail[..4] == ToLe(|body|);
      LeRoundTrip(|body|);
    }
  }

  /** A stream of whole frames followed by an incomplete one parses to exactly the whole frames. */
  lemma {:induction false} ParseStream(bodies: seq<Body>, last: Body, tail: Bytes)
    requires |tail| < |EncodeFrame(last)| && tail == EncodeFrame(last)[..|tail|]
    ensures ParseFrames(Stream(bodies) + tail) == bodies
  {
    if bodies == [] {
      ParseIncomplete(last, tail);
      assert Stream(bodies) + tail == tail;
    } else {
      var rest := Stream(bodies[1..]) + tail;
      assert Stream(bodies) + tail == EncodeFrame(bodies[0]) + rest;
      ParseOne(bodies[0], rest);
      ParseStream(bodies[1..], last, tail);
    }
  }

  /** A growing in-memory writer (`Vec<u8>`). */
  class Writer {
    var data: Bytes

    constructor ()
      ensures data == []
    {
      data := [];
    }

    method WriteAll(bytes: Bytes)
      modifies this
      ensures data == old(data) + bytes
    {
      data := data + bytes;
    }
  }

  /** A reader over a byte string; running out moves it to the end. */
  class Reader {
    var data: Bytes

    constructor (bytes: Bytes)
      ensures data == bytes
    {
      data := bytes;
    }

    method ReadExact(n: nat) returns (r: Result<Bytes, ErrorKind>)
      modifies this
      ensures n <= |old(data)| ==> r == Ok(old(data)[..n]) && data == old(data)[n..]
      ensures n > |old(data)| ==> r == Err(UnexpectedEof) && data == []
    {
      if n <= |data| {
        r := Ok(data[..n]);
        data := data[n..];
      } else {
        r := Err(UnexpectedEof);
        data := [];
      }
    }
  }

  function SerializeFrame<M>(codec: Codec<M>, msg: M, max: nat): (r: Result<Body, ErrorKind>)
    ensures r.Ok? ==> |r.value| <= max && codec.encode(msg) == Some(r.value)
    ensures r.Err? ==> r.error in {InvalidData, InvalidInput}
    ensures r == Err(InvalidInput) <==>
            codec.encode(msg).Some? && (|codec.encode(msg).value| > max || |codec.encode(msg).value| > U32_MAX)
  {
    match codec.encode(msg)
    case None => Err(InvalidData)
    case Some(body) => if |body| > max || |body| > U32_MAX then Err(InvalidInput) else Ok(body)
  }

  /** `write_frame` with the response limit, `write_request_frame` with the request limit:
      a rejected message puts no byte, not even the prefix, on the wire. */
  method WriteFrame<M>(w: Writer, codec: Codec<M>, msg: M, max: nat) returns (r: Result<(), ErrorKind>)
    modifies w
    ensures r.Err? ==> w.data == old(w.data) && SerializeFrame(codec, msg, max) == Err(r.error)
    ensures r.Ok? ==>
              && SerializeFrame(codec, msg, max).Ok?
              && w.data == old(w.data) + EncodeFrame(SerializeFrame(codec, msg, max).value)
  {
    var serialized := SerializeFrame(codec, msg, max);
    match serialized
    case Err(kind) => r := Err(kind);
    case Ok(body) =>
      w.WriteAll(ToLe(|body|));
      w.WriteAll(body);
      assert old(w.data) + ToLe(|body|) + body == old(w.data) + EncodeFrame(body);
      r := Ok(());
  }

  /** One-shot reading: the verdict on the first frame of `s` and the bytes left behind it. */
  function ReadFrameSpec<M>(decode: Bytes -> Option<M>, s: Bytes): (Result<M, ErrorKind>, Bytes) {
    if |s| < 4 then (Err(UnexpectedEof), [])
    else
      var len := FromLe(s[..4]);
      if len > MAX_RESPONSE_FRAME_LEN then (Err(InvalidData), s[4..])
      else if |s| < 4 + len then (Err(UnexpectedEof), [])
      else (Verdict(decode, s[4..4 + len]), s[4 + len..])
  }

  function Verdict<M>(decode: Bytes -> Option<M>, body: Bytes): Result<M, ErrorKind> {
    match decode(body)
    case None => Err(InvalidData)
    case Some(m) => Ok(m)
  }

  /** What reading does once the header says how long the body is. */
  lemma AfterHeader<M>(decode: Bytes -> Option<M>, s: Bytes, len: u32)
    requires |s| >= 4 && len == FromLe(s[..4])
    ensures ReadFrameSpec(decode, s) ==
            if len > MAX_RESPONSE_FRAME_LEN then (Err(InvalidData), s[4..])
            else if |s[4..]| < len then (Err(UnexpectedEof), [])
            else (Verdict(decode, s[4..][..len]), s[4..][len..])
  {
    if 4 + len <= |s| {
      assert s[4..][..len] == s[4..4 + len];
      assert s[4..][len..] == s[4 + len..];
    }
  }

  method ReadFrame<M>(r: Reader, codec: Codec<M>) returns (result: Result<M, ErrorKind>)
    modifies r
    ensures (result, r.data) == ReadFrameSpec(codec.decode, old(r.data))
  {
    ghost var s := r.data;
    var header := r.ReadExact(4);
    if header.Err? {
      return Err(header.error);
    }
    var len := FromLe(header.value);
    AfterHeader(codec.decode, s, len);
    if len > MAX_RESPONSE_FRAME_LEN {
      return Err(InvalidData);
    }
    var body := r.ReadExact(len);
    if body.Err? {
      return Err(body.error);
    }
    result := Verdict(codec.decode, body.value);
  }

  /** Reads `n` frames one after the other; the messages (or the first error) and what is left. */
  function ReadMany<M>(decode: Bytes -> Option<M>, s: Bytes, n: nat): (Result<seq<M>, ErrorKind>, Bytes) {
    if n == 0 then (Ok([]), s)
    else
      var (first, rest) := ReadFrameSpec(decode, s);
      if first.Err? then (Err(first.error), rest)
      else
        var (more, left) := ReadMany(decode, rest, n - 1);
        (if more.Err? then more else Ok([first.value] + more.value), left)
  }

  ghost predicate InLimit<M>(codec: Codec<M>, msgs: seq<M>) {
    forall i :: 0 <= i < |msgs| ==> SerializeFrame(codec, msgs[i], MAX_RESPONSE_FRAME_LEN).Ok?
  }

  /** The bytes that `write_frame` produces for the messages, in order. */
  function WrittenFrames<M>(codec: Codec<M>, msgs: seq<M>): Bytes
    requires InLimit(codec, msgs)
  {
    if msgs == [] then []
    else EncodeFrame(SerializeFrame(codec, msgs[0], MAX_RESPONSE_FRAME_LEN).value) + WrittenFrames(codec, msgs[1..])
  }

  lemma ReadEncoded<M>(decode: Bytes -> Option<M>, body: Body, rest: Bytes)
    ensures ReadFrameSpec(decode, EncodeFrame(body) + rest) ==
            if |body| > MAX_RESPONSE_FRAME_LEN then (Err(InvalidData), body + rest)
            else (Verdict(decode, body), rest)
  {
    var s := EncodeFrame(body) + rest;
    assert s[..4] == ToLe(|body|);
    LeRoundTrip(|body|);
    assert s[4..] == body + rest;
    assert s[4..4 + |body|] == body;
    assert s[4 + |body|..] == rest;
  }

  /** A frame that is cut short anywhere is an unexpected end that takes what is there; an oversized one is rejected as
      soon as its header is complete. */
  lemma CutFrame<M>(decode: Bytes -> Option<M>, body: Body, n: nat)
    requires n < |EncodeFrame(body)|
    ensures ReadFrameSpec(decode, EncodeFrame(body)[..n]) ==
              if n >= 4 && |body| > MAX_RESPONSE_FRAME_LEN then (Err(InvalidData), body[..n - 4])
              else (Err(UnexpectedEof), [])
  {
    if n >= 4 {
      var s := EncodeFrame(body)[..n];
      assert s[..4] == ToLe(|body|);
      LeRoundTrip(|body|);
      assert s[4..] == body[..n - 4];
    }
  }

  /** Reading inverts writing on every sequence of in-limit messages, whatever follows them. */
  lemma {:induction false} ReadInvertsWrite<M(!new)>(codec: Codec<M>, msgs: seq<M>, rest: Bytes)
    requires Faithful(codec)
    requires InLimit(codec, msgs)
    ensures ReadMany(codec.decode, WrittenFrames(codec, msgs) + rest, |msgs|) == (Ok(msgs), rest)
  {
    if msgs == [] {
      assert WrittenFrames(codec, msgs) + rest == rest;
    } else {
      var body := SerializeFrame(codec, msgs[0], MAX_RESPONSE_FRAME_LEN).value;
      var tail := WrittenFrames(codec, msgs[1..]) + rest;
      assert WrittenFrames(codec, msgs) + rest == EncodeFrame(body) + tail;
      ReadEncoded(codec.decode, body, tail);
      ReadInvertsWrite(codec, msgs[1..], rest);
      assert [msgs[0]] + msgs[1..] == msgs;
    }
  }
}
