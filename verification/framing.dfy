/** The wire framing of the remote-control protocol: every message in either
    direction is a 4-byte big-endian unsigned length followed by that many
    payload bytes (clementineremote/clementine.py, lines 110-112 and 240). */
module Framing {
  import opened Wrappers

  type byte = b: int | 0 <= b < 256

  /** The protocol version stamped on every outbound message. */
  const PROTOCOL_VERSION: int := 21

  /** Size of the length prefix in bytes. */
  const HEADER_SIZE: nat := 4

  /** One more than the largest length a 4-byte unsigned header can carry. */
  const LENGTH_LIMIT: nat := 0x1_0000_0000

  /** Raised by the header packing when the payload does not fit 32 bits. */
  datatype FrameError = LengthOutOfRange(length: nat)

  /** The `>I` packing of `n`: most significant byte first. */
  function EncodeLength(n: nat): (h: seq<byte>)
    requires n < LENGTH_LIMIT
    ensures |h| == HEADER_SIZE
  {
    var m1 := n / 0x100;
    var m2 := m1 / 0x100;
    [m2 / 0x100, m2 % 0x100, m1 % 0x100, n % 0x100]
  }

  /** The `>I` unpacking of a 4-byte header: the first byte is the most
      significant. */
  function DecodeLength(h: seq<byte>): (n: nat)
    requires |h| == HEADER_SIZE
    ensures n < LENGTH_LIMIT
    ensures n == h[0] as int * 0x100_0000 + h[1] as int * 0x1_0000 + h[2] as int * 0x100 + h[3]
  {
    ((h[0] as int * 0x100 + h[1]) * 0x100 + h[2]) * 0x100 + h[3]
  }

  /** Decoding an encoded length gives the length back. */
  lemma DecodeEncodeLength(n: nat)
    requires n < LENGTH_LIMIT
    ensures DecodeLength(EncodeLength(n)) == n
  {
    var m1 := n / 0x100;
    var m2 := m1 / 0x100;
    assert n == m1 * 0x100 + n % 0x100;
    assert m1 == m2 * 0x100 + m1 % 0x100;
    assert m2 == (m2 / 0x100) * 0x100 + m2 % 0x100;
  }

  /** Every 4-byte header is the encoding of the length it decodes to, so
      the header format has no redundant or invalid byte patterns. */
  lemma EncodeDecodeLength(h: seq<byte>)
    requires |h| == HEADER_SIZE
    ensures EncodeLength(DecodeLength(h)) == h
  {
    var m2: int := h[0] as int * 0x100 + h[1];
    var m1: int := m2 * 0x100 + h[2];
    DivModUnique(h[3], m1, 0x100);
    DivModUnique(h[2], m2, 0x100);
    DivModUnique(h[1], h[0], 0x100);
  }

  /** Division and remainder of `q * d + r` by `d` recover `q` and `r`. */
  lemma DivModUnique(r: int, q: int, d: int)
    requires 0 <= r < d
    ensures (q * d + r) / d == q
    ensures (q * d + r) % d == r
  {
    var a := q * d + r;
    var k, m := a / d, a % d;
    assert a == k * d + m;
    if q > k {
      Distribute(q - k, k, d);
      assert false;
    } else if q < k {
      Distribute(k - q, q, d);
      assert false;
    }
  }

  lemma Distribute(x: int, y: int, d: int)
    ensures (x + y) * d == x * d + y * d
  {
  }

  /** The bytes written for one outbound payload: the packed length, then the
      payload. Packing raises when the length needs more than 32 bits. */
  function EncodeFrame(payload: seq<byte>): (r: Result<seq<byte>, FrameError>)
    ensures r.Success? <==> |payload| < LENGTH_LIMIT
    ensures r.Failure? ==> r.error == LengthOutOfRange(|payload|)
    ensures r.Success? ==>
      && |r.value| == HEADER_SIZE + |payload|
      && DecodeLength(r.value[..HEADER_SIZE]) == |payload|
      && r.value[HEADER_SIZE..] == payload
  {
    if |payload| < LENGTH_LIMIT then
      DecodeEncodeLength(|payload|);
      var f := EncodeLength(|payload|) + payload;
      assert f[..HEADER_SIZE] == EncodeLength(|payload|);
      Success(f)
    else
      Failure(LengthOutOfRange(|payload|))
  }

  /** Splits one complete frame off the front of `bytes`: the payload whose
      length the header declares, and whatever follows it. `None` when the
      bytes hold no complete frame. */
  function DecodeFrame(bytes: seq<byte>): (r: Option<(seq<byte>, seq<byte>)>)
    ensures r.Some? <==>
      |bytes| >= HEADER_SIZE && |bytes| >= HEADER_SIZE + DecodeLength(bytes[..HEADER_SIZE])
    ensures r.Some? ==>
      && |r.value.0| == DecodeLength(bytes[..HEADER_SIZE])
      && bytes == bytes[..HEADER_SIZE] + r.value.0 + r.value.1
  {
    if |bytes| < HEADER_SIZE then None
    else
      var n := DecodeLength(bytes[..HEADER_SIZE]);
      if |bytes| < HEADER_SIZE + n then None
      else
        var payload := bytes[HEADER_SIZE..HEADER_SIZE + n];
        var rest := bytes[HEADER_SIZE + n..];
        assert bytes == bytes[..HEADER_SIZE] + payload + rest;
        Some((payload, rest))
  }

  /** Whatever follows an encoded frame, decoding yields the payload and
      leaves the following bytes untouched. */
  lemma FrameRoundTrip(payload: seq<byte>, rest: seq<byte>)
    requires |payload| < LENGTH_LIMIT
    ensures EncodeFrame(payload).Success?
    ensures DecodeFrame(EncodeFrame(payload).value + rest) == Some((payload, rest))
  {
    var f := EncodeFrame(payload).value;
    var b := f + rest;
    assert b[..HEADER_SIZE] == f[..HEADER_SIZE];
    var d := DecodeFrame(b);
    assert d.Some?;
    assert b[HEADER_SIZE..HEADER_SIZE + |payload|] == payload;
    assert b[HEADER_SIZE + |payload|..] == rest;
  }

  /** Conversely, a decoded frame is exactly the encoding of its payload, so
      decoding and encoding are mutually inverse on complete frames. */
  lemma DecodedFrameIsEncoding(bytes: seq<byte>)
    requires DecodeFrame(bytes).Some?
    ensures |DecodeFrame(bytes).value.0| < LENGTH_LIMIT
    ensures EncodeFrame(DecodeFrame(bytes).value.0).Success?
    ensures bytes == EncodeFrame(DecodeFrame(bytes).value.0).value + DecodeFrame(bytes).value.1
  {
    var (payload, rest) := DecodeFrame(bytes).value;
    EncodeDecodeLength(bytes[..HEADER_SIZE]);
  }
}
