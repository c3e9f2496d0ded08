/** The receive loop of one connection (clementineremote/clementine.py,
    lines 235-257): read a frame, parse its payload, apply it to the client
    state, repeat until the peer closes or a payload cannot be parsed. Each
    header is read to completion, as `ReadFrameExact` does, rather than with
    the code's single `recv(4)`. The wire-schema parser is a parameter; the user's `on_message` hook, which
    runs after each state update, is not part of this model. */
module Receiver {
  import opened Wrappers
  import opened Framing
  import opened Reassembly
  import opened Messages
  import opened Client

  /** The bytes of a sequence of frames, one per payload. */
  function Frames(ps: seq<seq<byte>>): seq<byte>
    requires forall i :: 0 <= i < |ps| ==> |ps[i]| < LENGTH_LIMIT
  {
    if |ps| == 0 then [] else Frames(ps[..|ps| - 1]) + EncodeFrame(ps[|ps| - 1]).value
  }

  lemma FramesSnoc(ps: seq<seq<byte>>, p: seq<byte>)
    requires forall i :: 0 <= i < |ps| ==> |ps[i]| < LENGTH_LIMIT
    requires |p| < LENGTH_LIMIT
    ensures forall i :: 0 <= i < |ps + [p]| ==> |(ps + [p])[i]| < LENGTH_LIMIT
    ensures Frames(ps + [p]) == Frames(ps) + EncodeFrame(p).value
  {
    assert (ps + [p])[..|ps|] == ps;
  }

  lemma ProcessAllSnoc(s: ClientState, rs: seq<Received>, item: Received, names: EnumNames)
    ensures ProcessAll(s, rs + [item], names) == Process(ProcessAll(s, rs, names), item.msg, item.at, names)
  {
    assert (rs + [item])[..|rs|] == rs;
  }

  /** Each received message is the parse of the payload at its position,
      stamped with the clock reading for that position. */
  ghost predicate ParsedInOrder(payloads: seq<seq<byte>>, received: seq<Received>,
                                parse: seq<byte> -> Option<Message>, clock: nat -> Time)
  {
    && |payloads| == |received|
    && forall i :: 0 <= i < |received| ==>
         parse(payloads[i]) == Some(received[i].msg) && received[i].at == clock(i)
  }

  lemma ParsedInOrderSnoc(payloads: seq<seq<byte>>, received: seq<Received>,
                          parse: seq<byte> -> Option<Message>, clock: nat -> Time,
                          p: seq<byte>, item: Received)
    requires ParsedInOrder(payloads, received, parse, clock)
    requires parse(p) == Some(item.msg) && item.at == clock(|received|)
    ensures ParsedInOrder(payloads + [p], received + [item], parse, clock)
  {
  }

  /** Why the loop stopped. */
  datatype SessionEnd =
    /** The peer closed; an incomplete last frame, if any, is discarded. */
    | ClosedCleanly
    /** A complete frame whose payload does not parse: parsing raises, and
        the exception ends the loop (the `Escaped` exit of the after-loop
        step). */
    | Undecodable(payload: seq<byte>)

  /** Runs the loop over the bytes the peer delivers. The messages applied
      are exactly the parsed payloads of the complete frames at the front of
      the stream, in order, each stamped with the clock reading of its
      position; the final state is the initial state with those messages
      applied. On a clean close the bytes left over hold no complete frame,
      so no partial message is ever applied. */
  method ReceiveLoop(s0: ClientState, input: seq<Segment>, parse: seq<byte> -> Option<Message>,
                     clock: nat -> Time, names: EnumNames)
    returns (s: ClientState, payloads: seq<seq<byte>>, received: seq<Received>,
             leftover: seq<byte>, end: SessionEnd)
    ensures |payloads| == |received|
    ensures forall i :: 0 <= i < |received| ==>
      parse(payloads[i]) == Some(received[i].msg) && received[i].at == clock(i)
    ensures forall i :: 0 <= i < |payloads| ==> |payloads[i]| < LENGTH_LIMIT
    ensures Flatten(input) == Frames(payloads) + leftover
    ensures s == ProcessAll(s0, received, names)
    ensures end.ClosedCleanly? ==> DecodeFrame(leftover).None?
    ensures end.Undecodable? ==>
      DecodeFrame(leftover).Some? && DecodeFrame(leftover).value.0 == end.payload
      && parse(end.payload).None?
  {
    s, payloads, received := s0, [], [];
    var stream := input;
    while true
      invariant ParsedInOrder(payloads, received, parse, clock)
      invariant forall i :: 0 <= i < |payloads| ==> |payloads[i]| < LENGTH_LIMIT
      invariant Flatten(input) == Frames(payloads) + Flatten(stream)
      invariant s == ProcessAll(s0, received, names)
      decreases |Flatten(stream)|
    {
      var r, rest := ReadFrameExact(stream);
      if !r.Frame? {
        return s, payloads, received, Flatten(stream), ClosedCleanly;
      }
      DecodedFrameIsEncoding(Flatten(stream));
      assert Flatten(stream) == EncodeFrame(r.payload).value + Flatten(rest);
      var parsed := parse(r.payload);
      if parsed.None? {
        return s, payloads, received, Flatten(stream), Undecodable(r.payload);
      }
      var item := Received(parsed.value, clock(|received|));
      FramesSnoc(payloads, r.payload);
      ProcessAllSnoc(s0, received, item, names);
      ParsedInOrderSnoc(payloads, received, parse, clock, r.payload, item);
      payloads := payloads + [r.payload];
      received := received + [item];
      s := Process(s, item.msg, item.at, names);
      stream := rest;
    }
  }
}
