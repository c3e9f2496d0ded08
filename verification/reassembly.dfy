/** Frame reassembly on the receiving side (clementineremote/clementine.py,
    lines 235-248). The socket is modelled as the sequence of deliveries the
    operating system hands out: `recv(n)` returns at most `n` bytes of the
    next delivery, and an exhausted sequence means the peer has closed, so
    `recv` returns no bytes. How the peer's bytes are cut into deliveries is
    left arbitrary, which makes the chunk sizes the loop sees arbitrary too. */
module Reassembly {
  import opened Wrappers
  import opened Framing

  /** What one `recv` can hand out: a non-empty run of bytes. */
  type Segment = s: seq<byte> | |s| > 0 witness [0]

  /** Capacity of each payload read. */
  const RECV_BUFFER: nat := 4096

  function Min(a: nat, b: nat): nat {
    if a <= b then a else b
  }

  /** All bytes still to be delivered, in order. */
  function Flatten(ss: seq<Segment>): seq<byte> {
    if |ss| == 0 then [] else ss[0] + Flatten(ss[1..])
  }

  lemma FlattenPrefix(ss: seq<Segment>)
    requires |ss| > 0
    ensures |Flatten(ss)| >= |ss[0]|
    ensures Flatten(ss)[..|ss[0]|] == ss[0]
  {
  }

  lemma SplitAt(a: seq<byte>, b: seq<byte>, c: seq<byte>)
    requires a + b == c
    ensures c[..|a|] == a && c[|a|..] == b
  {
  }

  /** One `recv(n)`: the bytes returned and the deliveries left. No byte is
      lost or invented, at most `n` bytes come back, and an empty result
      happens only when the peer has closed (or nothing was asked for). */
  function Recv(ss: seq<Segment>, n: nat): (r: (seq<byte>, seq<Segment>))
    ensures |r.0| <= n
    ensures r.0 + Flatten(r.1) == Flatten(ss)
    ensures |r.0| == 0 <==> (|ss| == 0 || n == 0)
    ensures |ss| > 0 ==> |r.0| == Min(n, |ss[0]|)
  {
    if |ss| == 0 || n == 0 then ([], ss)
    else if |ss[0]| <= n then (ss[0], ss[1..])
    else
      var rest := [ss[0][n..]] + ss[1..];
      assert rest[1..] == ss[1..];
      assert ss[0] == ss[0][..n] + ss[0][n..];
      (ss[0][..n], rest)
  }

  /** `requests` are the sizes a read of `n` bytes passed to `recv`, in
      order, and `before[i]` is how many bytes had arrived when request `i`
      was made, fewer than `read`: the first request is made with nothing
      read, each asks for `min(4096, n - before[i])` bytes, and each
      follows a read that returned at least one and at most the requested
      number of bytes. Stated one request at a time, from the last. */
  predicate RequestTrace(requests: seq<nat>, before: seq<nat>, n: nat, read: nat)
    decreases |before|
  {
    && |before| == |requests|
    && (|before| > 0 ==>
          var k := |before| - 1;
          && before[k] < read && before[k] < n
          && requests[k] == Min(RECV_BUFFER, n - before[k])
          && (k == 0 ==> before[k] == 0)
          && (k > 0 ==> before[k] <= before[k - 1] + requests[k - 1])
          && RequestTrace(requests[..k], before[..k], n, before[k]))
  }

  /** What the trace says about request `i`. */
  lemma {:induction false} RequestAt(requests: seq<nat>, before: seq<nat>, n: nat, read: nat, i: nat)
    requires RequestTrace(requests, before, n, read) && i < |before|
    ensures before[i] < read && before[i] < n && requests[i] == Min(RECV_BUFFER, n - before[i])
    ensures i == 0 ==> before[i] == 0
    ensures i > 0 ==> before[i - 1] < before[i] <= before[i - 1] + requests[i - 1]
    decreases |before|
  {
    var k := |before| - 1;
    if i < k {
      RequestAt(requests[..k], before[..k], n, before[k], i);
      assert before[..k][i] == before[i] && requests[..k][i] == requests[i];
      if i > 0 {
        assert before[..k][i - 1] == before[i - 1] && requests[..k][i - 1] == requests[i - 1];
      }
    } else if i > 0 {
      assert before[..k][i - 1] == before[i - 1];
    }
  }

  /** The trace read position by position. */
  lemma RequestTraceMeans(requests: seq<nat>, before: seq<nat>, n: nat, read: nat)
    requires RequestTrace(requests, before, n, read)
    ensures |before| == |requests|
    ensures |before| > 0 ==> before[0] == 0
    ensures forall i :: 0 <= i < |before| ==>
      before[i] < read && before[i] < n && requests[i] == Min(RECV_BUFFER, n - before[i])
    ensures forall i :: 0 < i < |before| ==> before[i - 1] < before[i] <= before[i - 1] + requests[i - 1]
  {
    forall i | 0 <= i < |before|
      ensures before[i] < read && before[i] < n && requests[i] == Min(RECV_BUFFER, n - before[i])
      ensures i > 0 ==> before[i - 1] < before[i] <= before[i - 1] + requests[i - 1]
    {
      RequestAt(requests, before, n, read, i);
    }
    if |before| > 0 {
      RequestAt(requests, before, n, read, 0);
    }
  }

  /** Extending a trace by one request made after `read` bytes, which
      returns `got` more bytes. */
  lemma RequestTraceSnoc(requests: seq<nat>, before: seq<nat>, n: nat, read: nat, got: nat)
    requires RequestTrace(requests, before, n, read)
    requires read < n && 0 < got
    requires |before| == 0 ==> read == 0
    requires |before| > 0 ==> read <= before[|before| - 1] + requests[|before| - 1]
    ensures RequestTrace(requests + [Min(RECV_BUFFER, n - read)], before + [read], n, read + got)
  {
    var rs, bs := requests + [Min(RECV_BUFFER, n - read)], before + [read];
    assert rs[..|before|] == requests && bs[..|before|] == before;
  }

  /** A trace of a read that has `read` bytes so far: the last read
      returned at most what it asked for, and nothing was asked yet
      exactly when nothing has arrived. */
  predicate Reading(requests: seq<nat>, before: seq<nat>, n: nat, read: nat) {
    && RequestTrace(requests, before, n, read)
    && (|before| == 0 <==> read == 0)
    && (|before| > 0 ==> read <= before[|before| - 1] + requests[|before| - 1])
  }

  /** One more read that returned `got` bytes keeps the trace. */
  lemma ReadingSnoc(requests: seq<nat>, before: seq<nat>, n: nat, read: nat, got: nat)
    requires Reading(requests, before, n, read)
    requires read < n && 0 < got <= Min(RECV_BUFFER, n - read)
    ensures Reading(requests + [Min(RECV_BUFFER, n - read)], before + [read], n, read + got)
  {
    RequestTraceSnoc(requests, before, n, read, got);
  }

  /** The outcome of reading up to `n` bytes: `complete` when all `n`
      arrived before the peer closed. The requests follow the loop of the
      code: a read never reaches past the `n`-th byte, none is issued at all
      when `n` is 0, the last one reaches the `n`-th byte when the read
      completes, and when it does not the last one was made after every
      available byte had arrived. */
  method ReadExactly(ss: seq<Segment>, n: nat)
    returns (data: seq<byte>, rest: seq<Segment>, complete: bool, requests: seq<nat>, before: seq<nat>)
    ensures complete <==> |Flatten(ss)| >= n
    ensures complete ==> data == Flatten(ss)[..n] && Flatten(rest) == Flatten(ss)[n..]
    ensures !complete ==> data == Flatten(ss) && rest == []
    ensures RequestTrace(requests, before, n, n)
    ensures |requests| == 0 <==> n == 0
    ensures complete && n > 0 ==> n <= before[|before| - 1] + requests[|before| - 1]
    ensures !complete ==> before[|before| - 1] == |Flatten(ss)|
  {
    data, rest, requests, before := [], ss, [], [];
    while |data| < n
      invariant |data| <= n
      invariant data + Flatten(rest) == Flatten(ss)
      invariant Reading(requests, before, n, |data|)
      decreases n - |data|
    {
      var want := Min(RECV_BUFFER, n - |data|);
      var got := Recv(rest, want);
      var chunk := got.0;
      if |chunk| == 0 {
        RequestTraceSnoc(requests, before, n, |data|, n - |data|);
        return data, [], false, requests + [want], before + [|data|];
      }
      ReadingSnoc(requests, before, n, |data|, |chunk|);
      requests, before := requests + [want], before + [|data|];
      rest := got.1;
      data := data + chunk;
    }
    complete := true;
    SplitAt(data, Flatten(rest), Flatten(ss));
  }

  /** What one pass of the receive loop obtains from the socket. */
  datatype FrameRead =
    | Frame(payload: seq<byte>)
    | PeerClosed
    /** The header read returned 1 to 3 bytes: unpacking them raises. */
    | ShortHeader(header: seq<byte>)

  /** One pass of the receive loop as written: a single `recv(4)` for the
      header, then payload reads until the declared length has arrived. A
      frame is delivered exactly when the first delivery holds the whole
      header and the stream holds the whole frame; the payload is then the
      one the header declares and nothing past it is consumed. A peer that
      closes part-way leaves nothing to read and no frame. */
  method ReadFrame(input: seq<Segment>) returns (r: FrameRead, rest: seq<Segment>)
    ensures r.ShortHeader? <==> |input| > 0 && |input[0]| < HEADER_SIZE
    ensures r.ShortHeader? ==> r.header == input[0]
    ensures r.Frame? <==>
      |input| > 0 && |input[0]| >= HEADER_SIZE && DecodeFrame(Flatten(input)).Some?
    ensures r.Frame? ==> DecodeFrame(Flatten(input)) == Some((r.payload, Flatten(rest)))
    ensures r.PeerClosed? ==> rest == [] && DecodeFrame(Flatten(input)).None?
  {
    var got := Recv(input, HEADER_SIZE);
    var (header, afterHeader) := got;
    if |header| == 0 {
      return PeerClosed, [];
    }
    if |header| < HEADER_SIZE {
      return ShortHeader(header), afterHeader;
    }
    FlattenPrefix(input);
    assert Flatten(input)[..HEADER_SIZE] == header;
    var n := DecodeLength(header);
    var data, complete, requests, before;
    data, rest, complete, requests, before := ReadExactly(afterHeader, n);
    if !complete {
      return PeerClosed, [];
    }
    assert Flatten(input) == header + data + Flatten(rest);
    return Frame(data), rest;
  }

  /** One pass of the receive loop with the header read to completion like
      the payload, so a header split across deliveries is reassembled. A
      frame is delivered exactly when the stream holds a complete one. */
  method ReadFrameExact(input: seq<Segment>) returns (r: FrameRead, rest: seq<Segment>)
    ensures !r.ShortHeader?
    ensures r.Frame? <==> DecodeFrame(Flatten(input)).Some?
    ensures r.Frame? ==> DecodeFrame(Flatten(input)) == Some((r.payload, Flatten(rest)))
    ensures r.PeerClosed? ==> rest == []
  {
    var header, afterHeader, gotHeader, requests, before := ReadExactly(input, HEADER_SIZE);
    if !gotHeader {
      return PeerClosed, [];
    }
    var n := DecodeLength(header);
    var data, complete;
    data, rest, complete, requests, before := ReadExactly(afterHeader, n);
    if !complete {
      return PeerClosed, [];
    }
    assert Flatten(input) == header + data + Flatten(rest);
    return Frame(data), rest;
  }

  /** A split header is rejected by the loop as written even though the
      stream holds a complete frame: two header bytes, then the other two
      with a one-byte payload. */
  lemma SplitHeaderIsRejected()
    ensures var input: seq<Segment> := [[0, 0], [0, 1, 7]];
      && |input[0]| < HEADER_SIZE
      && DecodeFrame(Flatten(input)) == Some(([7], []))
  {
    var input: seq<Segment> := [[0, 0], [0, 1, 7]];
    var bytes: seq<byte> := [0, 0, 0, 1, 7];
    assert Flatten(input[1..]) == [0, 1, 7];
    assert Flatten(input) == bytes;
    assert bytes[..HEADER_SIZE] == [0, 0, 0, 1];
    assert DecodeLength(bytes[..HEADER_SIZE]) == 1;
    assert bytes[HEADER_SIZE..HEADER_SIZE + 1] == [7];
  }
}
