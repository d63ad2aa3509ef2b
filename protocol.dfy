/**
 * The length-prefixed frame codec (client/src/protocol.rs): a frame is the
 * payload length as a 4-byte big-endian `u32`, then the payload.  The stream is
 * a sequence of bytes; receiving returns the decoded value and the bytes left
 * after the frame.  The JSON layer is opaque here: a type parameter `T` with a
 * `parse` function for `serde_json::from_slice`.
 */
module Protocol {
  import opened Wrappers

  type byte = b: int | 0 <= b < 256

  /** 2^32: lengths are sent as `u32`. */
  const U32Limit: nat := 0x1_0000_0000

  /** `u32::to_be_bytes`. */
  function ToBeBytes(n: nat): (b: seq<byte>)
    requires n < U32Limit
    ensures |b| == 4
  {
    [n / 0x100_0000, (n / 0x1_0000) % 0x100, (n / 0x100) % 0x100, n % 0x100]
  }

  /** `u32::from_be_bytes`. */
  function FromBeBytes(b: seq<byte>): (n: nat)
    requires |b| == 4
    ensures n < U32Limit
  {
    (b[0] as int) * 0x100_0000 + (b[1] as int) * 0x1_0000 + (b[2] as int) * 0x100 + b[3] as int
  }

  /** Decoding the big-endian encoding of a `u32` gives it back. */
  lemma BeRoundTrip(n: nat)
    requires n < U32Limit
    ensures FromBeBytes(ToBeBytes(n)) == n
  {
    var b := ToBeBytes(n);
    assert n == (n / 0x100) * 0x100 + n % 0x100;
    assert n / 0x100 == (n / 0x1_0000) * 0x100 + (n / 0x100) % 0x100;
    assert n / 0x1_0000 == (n / 0x100_0000) * 0x100 + (n / 0x1_0000) % 0x100;
  }

  /** Every four bytes are the encoding of exactly one `u32`. */
  lemma BeBytesRoundTrip(b: seq<byte>)
    requires |b| == 4
    ensures ToBeBytes(FromBeBytes(b)) == b
  {
    var n := FromBeBytes(b);
    var hi: int := (b[0] as int) * 0x100 + b[1] as int;
    var mid: int := hi * 0x100 + b[2] as int;
    assert n == mid * 0x100 + b[3] as int;
    DivMod256(n, mid, b[3]);
    DivMod256(mid, hi, b[2]);
    DivMod256(hi, b[0], b[1]);
    assert n / 0x1_0000 == hi;
    assert n / 0x100_0000 == b[0];
  }

  lemma DivMod256(x: int, q: int, r: int)
    requires x == q * 0x100 + r && 0 <= r < 0x100
    ensures x / 0x100 == q && x % 0x100 == r
  {
  }

  /**
   * `send_msg` on a serialised payload: the length prefix, then the payload.
   * The length is cast `as u32`, so it is taken modulo 2^32.
   */
  function EncodeFrame(payload: seq<byte>): (frame: seq<byte>)
    ensures |frame| == 4 + |payload|
    ensures FromBeBytes(frame[..4]) == |payload| % U32Limit
    ensures frame[4..] == payload
  {
    var prefix := ToBeBytes(|payload| % U32Limit);
    BeRoundTrip(|payload| % U32Limit);
    assert (prefix + payload)[..4] == prefix;
    prefix + payload
  }

  datatype IoError = UnexpectedEof | InvalidData

  /** The result of a read: the value and the bytes still unread, or an error. */
  datatype Received<T> = Got(value: T, rest: seq<byte>) | Failed(error: IoError)

  /** `recv_exact`: exactly n bytes, or `UnexpectedEof` when the stream ends first. */
  function RecvExact(stream: seq<byte>, n: nat): (r: Received<seq<byte>>)
    ensures r.Got? <==> n <= |stream|
    ensures r.Got? ==> |r.value| == n && r.value + r.rest == stream
    ensures r.Failed? ==> r.error == UnexpectedEof
  {
    if |stream| < n then Failed(UnexpectedEof)
    else
      assert stream[..n] + stream[n..] == stream;
      Got(stream[..n], stream[n..])
  }

  /**
   * `recv_msg`: four bytes of length, then that many bytes of payload, which
   * must parse.
   */
  function RecvMsg<T>(stream: seq<byte>, parse: seq<byte> -> Option<T>): (r: Received<T>)
    ensures |stream| < 4 ==> r == Failed(UnexpectedEof)
    ensures 4 <= |stream| && |stream| - 4 < FromBeBytes(stream[..4]) ==> r == Failed(UnexpectedEof)
    ensures 4 <= |stream| && FromBeBytes(stream[..4]) <= |stream| - 4 ==>
      var len := FromBeBytes(stream[..4]);
      var payload := stream[4..4 + len];
      && (parse(payload).None? ==> r == Failed(InvalidData))
      && (parse(payload).Some? ==> r == Got(parse(payload).value, stream[4 + len..]))
  {
    match RecvExact(stream, 4)
    case Failed(e) => Failed(e)
    case Got(lenBytes, afterLen) =>
      assert lenBytes == stream[..4] && afterLen == stream[4..];
      var len := FromBeBytes(lenBytes);
      match RecvExact(afterLen, len)
      case Failed(e) => Failed(e)
      case Got(payload, rest) =>
        assert payload == stream[4..4 + len] && rest == stream[4 + len..];
        match parse(payload)
        case None => Failed(InvalidData)
        case Some(v) => Got(v, rest)
  }

  /** A successful receive consumes at least the four bytes of the length prefix. */
  lemma RecvMsgConsumes<T>(stream: seq<byte>, parse: seq<byte> -> Option<T>)
    ensures RecvMsg(stream, parse).Got? ==> |RecvMsg(stream, parse).rest| + 4 <= |stream|
  {
  }

  /**
   * Round trip: receiving from a frame followed by more bytes gives back the
   * value and leaves exactly the bytes after the frame, provided the payload is
   * shorter than 2^32 bytes and parses to the value.
   */
  lemma FrameRoundTrip<T>(payload: seq<byte>, rest: seq<byte>, parse: seq<byte> -> Option<T>, v: T)
    requires |payload| < U32Limit && parse(payload) == Some(v)
    ensures RecvMsg(EncodeFrame(payload) + rest, parse) == Got(v, rest)
  {
    var stream := EncodeFrame(payload) + rest;
    assert stream[..4] == EncodeFrame(payload)[..4];
    assert stream[4..4 + |payload|] == payload;
    assert stream[4 + |payload|..] == rest;
  }

  /**
   * A payload of 2^32 bytes or more gets a wrapped length prefix, so the
   * receiver stops short of the payload's end and the stream loses its framing.
   */
  lemma OversizedFrameDesyncs<T>(payload: seq<byte>, rest: seq<byte>, parse: seq<byte> -> Option<T>)
    requires U32Limit <= |payload|
    ensures var r := RecvMsg(EncodeFrame(payload) + rest, parse);
      r.Got? ==> |r.rest| > |rest|
  {
    var stream := EncodeFrame(payload) + rest;
    assert stream[..4] == EncodeFrame(payload)[..4];
    var len := |payload| % U32Limit;
    assert len < |payload|;
  }

  /** The frames of several messages, one after another, as `send_msg` writes them. */
  function FrameAll<T>(msgs: seq<T>, serialize: T -> seq<byte>): seq<byte> {
    if msgs == [] then [] else FrameAll(msgs[..|msgs| - 1], serialize) + EncodeFrame(serialize(msgs[|msgs| - 1]))
  }

  lemma {:induction false} FrameAllCons<T>(m: T, msgs: seq<T>, serialize: T -> seq<byte>)
    ensures FrameAll([m] + msgs, serialize) == EncodeFrame(serialize(m)) + FrameAll(msgs, serialize)
  {
    if msgs == [] {
      assert [m] + msgs == [m];
    } else {
      var n := |msgs| - 1;
      var all := [m] + msgs;
      assert all[..|all| - 1] == [m] + msgs[..n];
      assert all[|all| - 1] == msgs[n];
      FrameAllCons(m, msgs[..n], serialize);
      var last := EncodeFrame(serialize(msgs[n]));
      assert FrameAll(all, serialize) == FrameAll([m] + msgs[..n], serialize) + last;
      assert FrameAll(msgs, serialize) == FrameAll(msgs[..n], serialize) + last;
    }
  }

  lemma FrameAllSnoc<T>(msgs: seq<T>, m: T, serialize: T -> seq<byte>)
    ensures FrameAll(msgs + [m], serialize) == FrameAll(msgs, serialize) + EncodeFrame(serialize(m))
  {
    assert (msgs + [m])[..|msgs|] == msgs;
  }

  /** The values received one after another from a stream, up to the first failed receive. */
  function Requests<T>(stream: seq<byte>, parse: seq<byte> -> Option<T>): seq<T>
    decreases |stream|
  {
    RecvMsgConsumes(stream, parse);
    match RecvMsg(stream, parse)
    case Got(v, rest) => [v] + Requests(rest, parse)
    case Failed(_) => []
  }

  /** One step of `Requests`: a failed receive ends the sequence, a successful one heads it. */
  lemma RequestsStep<T>(stream: seq<byte>, parse: seq<byte> -> Option<T>)
    ensures RecvMsg(stream, parse).Failed? ==> Requests(stream, parse) == []
    ensures RecvMsg(stream, parse).Got? ==>
      |RecvMsg(stream, parse).rest| < |stream| &&
      Requests(stream, parse) == [RecvMsg(stream, parse).value] + Requests(RecvMsg(stream, parse).rest, parse)
  {
    RecvMsgConsumes(stream, parse);
  }

  /**
   * Stream round trip: the frames of several messages read back as exactly
   * those messages, when each serialises to fewer than 2^32 bytes that parse
   * back to it.
   */
  lemma {:induction false} StreamRoundTrip<T>(msgs: seq<T>, serialize: T -> seq<byte>, parse: seq<byte> -> Option<T>)
    requires forall i :: 0 <= i < |msgs| ==> |serialize(msgs[i])| < U32Limit && parse(serialize(msgs[i])) == Some(msgs[i])
    ensures Requests(FrameAll(msgs, serialize), parse) == msgs
  {
    if msgs != [] {
      var m, tail := msgs[0], msgs[1..];
      assert msgs == [m] + tail;
      FrameAllCons(m, tail, serialize);
      FrameRoundTrip(serialize(m), FrameAll(tail, serialize), parse, m);
      StreamRoundTrip(tail, serialize, parse);
    }
  }
}
