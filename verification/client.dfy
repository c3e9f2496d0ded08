/** The client's mirror of the player (clementineremote/clementine.py):
    the state record, the transition applied to every incoming message, the
    framing of outbound messages, and the connect/disconnect lifecycle steps.
    Sockets are reduced to their status and the clock to a `now` parameter. */
module Client {
  import opened Wrappers
  import opened Framing
  import opened Messages

  /** Whether the client holds a socket object, and whether it was closed.
      Closing does not drop the object, so a closed socket is not `NoSocket`. */
  datatype SocketStatus = NoSocket | Open | Closed

  type Time = real

  datatype ClientState = ClientState(
    authCode: Option<int>,
    reconnect: bool,
    socket: SocketStatus,
    terminated: bool,
    /** The player's own version, from its Info message. */
    version: Option<int>,
    state: string,
    volume: Option<int>,
    trackPosition: Option<int>,
    /** The current-track dictionary, held as the metadata it is built
        from: its entry under key `k` is `TrackEntry(song, k)`. */
    currentTrack: Option<SongMetadata>,
    shuffle: Option<string>,
    repeat: Option<string>,
    playlists: map<int, Playlist>,
    activePlaylistId: Option<int>,
    firstDataSentComplete: Option<bool>,
    lastUpdate: Option<Time>)

  /** A freshly constructed client: nothing is known about the player yet. */
  function Init(authCode: Option<int>, reconnect: bool): (s: ClientState)
    ensures s.authCode == authCode && s.reconnect == reconnect
    ensures s.socket == NoSocket && !s.terminated && s.state == DISCONNECTED
    ensures s.version.None? && s.volume.None? && s.trackPosition.None?
    ensures s.currentTrack.None? && s.shuffle.None? && s.repeat.None?
    ensures s.playlists == map[] && s.activePlaylistId.None?
    ensures s.firstDataSentComplete.None? && s.lastUpdate.None?
  {
    ClientState(
      authCode, reconnect, NoSocket, false,
      None, DISCONNECTED, None, None, None, None, None,
      map[], None, None, None)
  }

  // ---------------------------------------------------------------------
  // Incoming messages

  /** No later entry of `es` has the same id as entry `i`. */
  ghost predicate LastWithId(es: seq<Playlist>, i: int)
    requires 0 <= i < |es|
  {
    forall j :: i < j < |es| ==> es[j].id != es[i].id
  }

  /** Entry `i` is active and no later entry is. */
  ghost predicate LastActive(es: seq<Playlist>, i: int)
    requires 0 <= i < |es|
  {
    es[i].active && forall j :: i < j < |es| ==> !es[j].active
  }

  /** The playlist table built from a Playlists message, entry by entry in
      message order: keyed by exactly the ids that occur, and holding for
      each id the last entry that carries it. */
  function IndexPlaylists(es: seq<Playlist>): (m: map<int, Playlist>)
    ensures forall i :: 0 <= i < |es| ==> es[i].id in m
    ensures forall k :: k in m ==> m[k].id == k && m[k] in es
    ensures forall i :: 0 <= i < |es| && LastWithId(es, i) ==> m[es[i].id] == es[i]
  {
    if |es| == 0 then map[]
    else
      var init := es[..|es| - 1];
      var last := es[|es| - 1];
      assert es == init + [last];
      assert forall x :: x in init ==> x in es;
      assert forall i :: 0 <= i < |init| && LastWithId(es, i) ==> LastWithId(init, i) && es[i].id != last.id;
      IndexPlaylists(init)[last.id := last]
  }

  /** The active playlist id after a Playlists message: the id of the last
      active entry, or the previous id when no entry is active. */
  function ActiveAfter(es: seq<Playlist>, previous: Option<int>): (r: Option<int>)
    ensures (forall i :: 0 <= i < |es| ==> !es[i].active) ==> r == previous
    ensures forall i :: 0 <= i < |es| && LastActive(es, i) ==> r == Some(es[i].id)
  {
    if |es| == 0 then previous
    else
      var init := es[..|es| - 1];
      var last := es[|es| - 1];
      assert es == init + [last];
      assert forall i :: 0 <= i < |init| && LastActive(es, i) ==> LastActive(init, i) && !last.active;
      if last.active then Some(last.id) else ActiveAfter(init, previous)
  }

  /** The state after processing one incoming message at time `now`. Every
      message records `now`; each recognised type stores what it carries in
      its own fields, and putting back the old values of exactly those fields
      and of the update time gives the old state, so nothing else changed. */
  function Process(s: ClientState, m: Message, now: Time, names: EnumNames): (r: ClientState)
    ensures r.lastUpdate == Some(now)
    ensures match m
      case Info(version, state) =>
        && r.version == Some(version) && r.state == EngineStateName(state)
        && r.(version := s.version, state := s.state, lastUpdate := s.lastUpdate) == s
      case UpdateTrackPosition(position) =>
        && r.trackPosition == Some(position)
        && r.(trackPosition := s.trackPosition, lastUpdate := s.lastUpdate) == s
      case Play => r.state == "Playing" && r.(state := s.state, lastUpdate := s.lastUpdate) == s
      case Pause => r.state == "Paused" && r.(state := s.state, lastUpdate := s.lastUpdate) == s
      case Stop => r.state == "Empty" && r.(state := s.state, lastUpdate := s.lastUpdate) == s
      case CurrentMetainfo(song) =>
        r.currentTrack == Some(song) && r.(currentTrack := s.currentTrack, lastUpdate := s.lastUpdate) == s
      case SetVolume(volume) =>
        r.volume == Some(volume) && r.(volume := s.volume, lastUpdate := s.lastUpdate) == s
      case Shuffle(mode) =>
        r.shuffle == Some(names.shuffle(mode)) && r.(shuffle := s.shuffle, lastUpdate := s.lastUpdate) == s
      case Repeat(mode) =>
        r.repeat == Some(names.repeat(mode)) && r.(repeat := s.repeat, lastUpdate := s.lastUpdate) == s
      case FirstDataSentComplete =>
        && r.firstDataSentComplete == Some(true)
        && r.(firstDataSentComplete := s.firstDataSentComplete, lastUpdate := s.lastUpdate) == s
      case Playlists(es) =>
        && r.playlists == IndexPlaylists(es)
        && r.activePlaylistId == ActiveAfter(es, s.activePlaylistId)
        && r.(playlists := s.playlists, activePlaylistId := s.activePlaylistId, lastUpdate := s.lastUpdate) == s
      case ActivePlaylistChanged(id) =>
        r.activePlaylistId == Some(id) && r.(activePlaylistId := s.activePlaylistId, lastUpdate := s.lastUpdate) == s
      // Playlist songs and keep-alive messages, and every unrecognised type.
      case _ => r == s.(lastUpdate := Some(now))
  {
    var s := s.(lastUpdate := Some(now));
    match m
    case Info(version, state) => s.(version := Some(version), state := EngineStateName(state))
    case UpdateTrackPosition(position) => s.(trackPosition := Some(position))
    case Play => s.(state := EngineStateName(Playing))
    case Stop => s.(state := EngineStateName(Empty))
    case Pause => s.(state := EngineStateName(Paused))
    case CurrentMetainfo(song) => s.(currentTrack := Some(song))
    case SetVolume(volume) => s.(volume := Some(volume))
    case Shuffle(mode) => s.(shuffle := Some(names.shuffle(mode)))
    case Repeat(mode) => s.(repeat := Some(names.repeat(mode)))
    case FirstDataSentComplete => s.(firstDataSentComplete := Some(true))
    case Playlists(es) =>
      s.(playlists := IndexPlaylists(es), activePlaylistId := ActiveAfter(es, s.activePlaylistId))
    case PlaylistSongs => s
    case ActivePlaylistChanged(id) => s.(activePlaylistId := Some(id))
    case KeepAlive => s
    case _ => s
  }

  /** A message together with the time it was processed. */
  datatype Received = Received(msg: Message, at: Time)

  /** The state after processing a sequence of messages in order. */
  function ProcessAll(s: ClientState, rs: seq<Received>, names: EnumNames): ClientState {
    if |rs| == 0 then s
    else
      var last := rs[|rs| - 1];
      Process(ProcessAll(s, rs[..|rs| - 1], names), last.msg, last.at, names)
  }

  /** One step of the fields that start unknown: the current track is
      replaced only by a current-track message, and a field becomes known
      only through a message of its own type. */
  lemma ProcessStep(s: ClientState, m: Message, now: Time, names: EnumNames)
    ensures var r := Process(s, m, now, names);
      && r.currentTrack == (if m.CurrentMetainfo? then Some(m.song) else s.currentTrack)
      && (r.version.Some? <==> s.version.Some? || m.Info?)
      && (r.trackPosition.Some? <==> s.trackPosition.Some? || m.UpdateTrackPosition?)
      && (r.volume.Some? <==> s.volume.Some? || m.SetVolume?)
      && (r.shuffle.Some? <==> s.shuffle.Some? || m.Shuffle?)
      && (r.repeat.Some? <==> s.repeat.Some? || m.Repeat?)
  {
  }

  /** Message `i` is the last current-track message of `rs`. */
  ghost predicate LastMetainfo(rs: seq<Received>, i: int)
    requires 0 <= i < |rs|
  {
    rs[i].msg.CurrentMetainfo? && forall j :: i < j < |rs| ==> !rs[j].msg.CurrentMetainfo?
  }

  /** After any sequence of messages the current track is built from the
      most recent current-track message alone, with nothing carried over
      from earlier tracks; with no such message it is unchanged. */
  lemma {:induction false} CurrentTrackIsLatest(s: ClientState, rs: seq<Received>, names: EnumNames)
    ensures (forall i :: 0 <= i < |rs| ==> !rs[i].msg.CurrentMetainfo?) ==>
      ProcessAll(s, rs, names).currentTrack == s.currentTrack
    ensures forall i :: 0 <= i < |rs| && LastMetainfo(rs, i) ==>
      ProcessAll(s, rs, names).currentTrack == Some(rs[i].msg.song)
  {
    if |rs| > 0 {
      var init, last := rs[..|rs| - 1], rs[|rs| - 1];
      assert rs == init + [last];
      var before := ProcessAll(s, init, names);
      CurrentTrackIsLatest(s, init, names);
      ProcessStep(before, last.msg, last.at, names);
      if !last.msg.CurrentMetainfo? {
        assert forall i :: 0 <= i < |init| && LastMetainfo(rs, i) ==> LastMetainfo(init, i);
      }
    }
  }

  /** A field that starts unknown becomes known exactly when a message of
      its type has been processed, and the time of the last update is known
      exactly when some message has been. */
  lemma {:induction false} KnownOnlyAfterReceived(s: ClientState, rs: seq<Received>, names: EnumNames)
    ensures var t := ProcessAll(s, rs, names);
      && (t.version.Some? <==> s.version.Some? || exists i :: 0 <= i < |rs| && rs[i].msg.Info?)
      && (t.trackPosition.Some? <==>
          s.trackPosition.Some? || exists i :: 0 <= i < |rs| && rs[i].msg.UpdateTrackPosition?)
      && (t.currentTrack.Some? <==>
          s.currentTrack.Some? || exists i :: 0 <= i < |rs| && rs[i].msg.CurrentMetainfo?)
      && (t.volume.Some? <==> s.volume.Some? || exists i :: 0 <= i < |rs| && rs[i].msg.SetVolume?)
      && (t.shuffle.Some? <==> s.shuffle.Some? || exists i :: 0 <= i < |rs| && rs[i].msg.Shuffle?)
      && (t.repeat.Some? <==> s.repeat.Some? || exists i :: 0 <= i < |rs| && rs[i].msg.Repeat?)
      && (t.lastUpdate.Some? <==> s.lastUpdate.Some? || |rs| > 0)
  {
    if |rs| > 0 {
      var init, last := rs[..|rs| - 1], rs[|rs| - 1];
      assert rs == init + [last];
      KnownOnlyAfterReceived(s, init, names);
      ProcessStep(ProcessAll(s, init, names), last.msg, last.at, names);
    }
  }

  /** A short session: Info reporting version 21 and Playing, then a Pause
      echo, then a volume echo of 42, leaves version 21, state Paused and
      volume 42. */
  lemma InfoPauseVolumeScenario(s: ClientState, names: EnumNames, t0: Time, t1: Time, t2: Time)
    ensures var t := ProcessAll(s, [Received(Info(21, Playing), t0), Received(Pause, t1),
                                    Received(SetVolume(42), t2)], names);
      t.version == Some(21) && t.state == "Paused" && t.volume == Some(42) && t.lastUpdate == Some(t2)
  {
    var rs := [Received(Info(21, Playing), t0), Received(Pause, t1), Received(SetVolume(42), t2)];
    var t1st := Process(s, Info(21, Playing), t0, names);
    assert rs[..2][..1][..0] == [];
    assert ProcessAll(s, rs[..1], names) == t1st;
    var t2nd := Process(t1st, Pause, t1, names);
    assert ProcessAll(s, rs[..2], names) == t2nd;
  }

  // ---------------------------------------------------------------------
  // Outgoing messages

  /** What happened to a message handed to the sender. */
  datatype SendOutcome =
    /** No socket: nothing is sent. */
    | NotSent
    /** The frame was handed to the socket. */
    | Written(envelope: Envelope, frame: seq<byte>)
    /** The socket refused the frame; the error is swallowed. */
    | Swallowed(envelope: Envelope, frame: seq<byte>)
    /** Packing the header failed; the error propagates to the caller. */
    | Raised(envelope: Envelope, error: FrameError)

  /** Sends a message through the client's socket. The sender has no state
      to change: the client record is the same afterwards, whatever the
      outcome. With a socket, the message is stamped with the protocol
      version, serialised, and framed with its length; `sendFails` stands for
      the socket raising on write, which a closed socket always does. */
  function SendMessage(s: ClientState, m: Message, serialize: Envelope -> seq<byte>, sendFails: bool): (r: SendOutcome)
    ensures r.NotSent? <==> s.socket.NoSocket?
    ensures !r.NotSent? ==> r.envelope == Envelope(PROTOCOL_VERSION, m)
    ensures r.Raised? <==>
      !s.socket.NoSocket? && |serialize(Envelope(PROTOCOL_VERSION, m))| >= LENGTH_LIMIT
    ensures r.Written? <==>
      s.socket.Open? && !sendFails && |serialize(Envelope(PROTOCOL_VERSION, m))| < LENGTH_LIMIT
    ensures (r.Written? || r.Swallowed?) ==> DecodeFrame(r.frame) == Some((serialize(r.envelope), []))
  {
    if s.socket.NoSocket? then NotSent
    else
      var envelope := Envelope(PROTOCOL_VERSION, m);
      var payload := serialize(envelope);
      match EncodeFrame(payload)
      case Failure(e) => Raised(envelope, e)
      case Success(frame) =>
        FrameRoundTrip(payload, []);
        assert frame + [] == frame;
        if s.socket.Open? && !sendFails then Written(envelope, frame) else Swallowed(envelope, frame)
  }

  /** The CONNECT request: the configured auth code, 0 when there is none
      (an auth code of 0 is sent as 0 too), and neither playlist songs nor
      downloader mode requested. */
  function ConnectRequest(authCode: Option<int>): (m: Message)
    ensures m == Connect(authCode.GetOr(0), false, false)
  {
    Connect(if authCode.Some? && authCode.value != 0 then authCode.value else 0, false, false)
  }

  /** A successful connect: the initial-data flag is reset, a socket is
      open, and the CONNECT request is sent through it: its frame is written
      unless the socket raises, which is swallowed, and packing raises only
      for a request of 2^32 bytes or more. */
  function Connected(s: ClientState, serialize: Envelope -> seq<byte>, sendFails: bool): (r: (ClientState, SendOutcome))
    ensures r.0.firstDataSentComplete == Some(false) && r.0.socket == Open
    ensures r.0.(firstDataSentComplete := s.firstDataSentComplete, socket := s.socket) == s
    ensures !r.1.NotSent?
    ensures r.1.envelope == Envelope(PROTOCOL_VERSION, Connect(s.authCode.GetOr(0), false, false))
    ensures r.1.Raised? <==> |serialize(r.1.envelope)| >= LENGTH_LIMIT
    ensures r.1.Written? <==> !sendFails && |serialize(r.1.envelope)| < LENGTH_LIMIT
    ensures (r.1.Written? || r.1.Swallowed?) ==> DecodeFrame(r.1.frame) == Some((serialize(r.1.envelope), []))
  {
    var t := s.(firstDataSentComplete := Some(false), socket := Open);
    (t, SendMessage(t, ConnectRequest(s.authCode), serialize, sendFails))
  }

  /** A connect attempt that the operating system refuses: the
      initial-data flag has already been reset and the socket object exists
      but is not connected, so writing to it raises. A client that does not
      reconnect is terminated and the error propagates; one that reconnects
      waits and carries on into its receive loop, whose first read fails. */
  function ConnectFailed(s: ClientState): (r: ClientState)
    ensures r.firstDataSentComplete == Some(false) && r.socket == Closed
    ensures r.terminated <==> s.terminated || !s.reconnect
    ensures r.(firstDataSentComplete := s.firstDataSentComplete, socket := s.socket, terminated := s.terminated) == s
  {
    var t := s.(firstDataSentComplete := Some(false), socket := Closed);
    if s.reconnect then t else t.(terminated := true)
  }

  /** Explicit disconnection: the client is terminated, reports
      Disconnected, and an open socket is closed. */
  function Disconnect(s: ClientState): (r: ClientState)
    ensures r.terminated && r.state == DISCONNECTED
    ensures r.socket == (if s.socket.Open? then Closed else s.socket)
    ensures r.(terminated := s.terminated, state := s.state, socket := s.socket) == s
  {
    var t := s.(terminated := true, state := DISCONNECTED);
    if s.socket.Open? then t.(socket := Closed) else t
  }

  /** Disconnecting twice is the same as disconnecting once. */
  lemma DisconnectIdempotent(s: ClientState)
    ensures Disconnect(Disconnect(s)) == Disconnect(s)
  {
  }

  // ---------------------------------------------------------------------
  // End of a connection's receive loop

  /** How the receive loop of one connection ended: the peer closed the
      connection, a socket error (`OSError`) was caught, or another
      exception escaped the loop (a short header that does not unpack, or a
      payload that does not parse) and ended the client's thread. */
  datatype LoopExit = ClosedByPeer | SocketError | Escaped

  /** The step after the receive loop as the code is written: only a
      socket error marks the state Disconnected, and a client that does not
      reconnect is terminated. An escaping exception skips the step
      altogether: the client is left as it was, not terminated even when
      it does not reconnect. */
  function AfterLoopAsWritten(s: ClientState, exit: LoopExit): (r: ClientState)
    ensures exit.Escaped? ==> r == s
    ensures !exit.Escaped? ==> (r.terminated <==> s.terminated || !s.reconnect)
    ensures !exit.Escaped? ==> r.state == (if exit.SocketError? then DISCONNECTED else s.state)
    ensures r.(terminated := s.terminated, state := s.state) == s
  {
    if exit.Escaped? then s
    else
      var t := if exit.SocketError? then s.(state := DISCONNECTED) else s;
      if !s.reconnect then t.(terminated := true) else t
  }

  /** As written, a peer that closes cleanly leaves a client that will
      never reconnect terminated but still reporting the last player state. */
  lemma GracefulCloseKeepsPlayerState(s: ClientState, e: EngineState)
    requires !s.reconnect && s.state == EngineStateName(e)
    ensures var r := AfterLoopAsWritten(s, ClosedByPeer);
      r.terminated && r.state == EngineStateName(e) && r.state != DISCONNECTED
  {
  }

  /** The step after the receive loop with the Disconnected state the
      client documents: whichever way the loop ended without an escaping
      exception, the connection is down and the state says so; a client
      that does not reconnect is terminated. An escaping exception still
      ends the thread and skips the step. */
  function AfterLoop(s: ClientState, exit: LoopExit): (r: ClientState)
    ensures exit.Escaped? ==> r == s
    ensures !exit.Escaped? ==> r.state == DISCONNECTED
    ensures !exit.Escaped? ==> (r.terminated <==> s.terminated || !s.reconnect)
    ensures r.(terminated := s.terminated, state := s.state) == s
  {
    if exit.Escaped? then s
    else
      var t := s.(state := DISCONNECTED);
      if !s.reconnect then t.(terminated := true) else t
  }
}
