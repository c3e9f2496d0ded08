# Clementine remote-control client, modelled in Dafny

This project models the protocol logic of `ClementineRemote`, the Python client for
the Clementine music player's TCP remote-control protocol
(`clementineremote/clementine.py`). The client sends and receives *frames*: each is
a 4-byte big-endian unsigned length followed by a serialised message. It keeps a
local mirror of the player: version, playback state, volume, track position,
current track, shuffle and repeat modes, playlists, active playlist, the
"first data sent complete" flag and the time of the last update.

The model has six modules, one file each:

- `wrappers.dfy` (`Wrappers`): `Option` and `Result`.
- `framing.dfy` (`Framing`): bytes, the protocol version constant 21, the `>I` length
  header, and frame encoding and decoding with round-trip lemmas in both directions.
- `reassembly.dfy` (`Reassembly`): the socket input as a sequence of non-empty
  deliveries. `recv(n)` returns at most `n` bytes of the next delivery, and no bytes
  once the peer has closed. How the peer's bytes are cut into deliveries is
  arbitrary, so the chunk sizes the loop sees are arbitrary too. The payload loop
  (`ReadExactly`) is an imperative method with loop invariants. The frame reader
  exists twice: `ReadFrame` as written and `ReadFrameExact` corrected (see Findings).
- `messages.dfy` (`Messages`): the message envelope as a datatype with one
  constructor per type tag the client builds or handles, plus `Other` for every
  other tag. Also the engine state and its names, song metadata, playlists, and
  the current-track dictionary's keys and entries.
- `client.dfy` (`Client`): the state record, the initial state, the incoming-message
  transition `Process` and its fold `ProcessAll`, `SendMessage`, connect,
  disconnect, and the step after a connection's receive loop ends.
- `receiver.dfy` (`Receiver`): the receive loop as a method. It reads frames, parses
  them with a parser given as a parameter, and applies them to the state.

The state record is immutable, and every transition is a pure function. The
clock (`time.time()`) is a `now` parameter. The wire-schema serialiser and parser
are function parameters. So are the shuffle- and repeat-mode name lookups.

Sending with no socket silently does nothing, which is what the code does. An
exception raised by the socket's `send` is swallowed. An exception raised while
packing the header, for a payload of 2^32 bytes or more, reaches the caller.

## Model

| member | source | states |
|---|---|---|
| Framing.EncodeLength | clementineremote/clementine.py:112 | the packed length header is exactly 4 bytes |
| Framing.DecodeLength | clementineremote/clementine.py:240 | an unpacked header is an unsigned 32-bit value read big-endian: the first byte weighs 2^24, the last 1 |
| Framing.DecodeEncodeLength | clementineremote/clementine.py:112 | unpacking a packed length gives the length back |
| Framing.EncodeDecodeLength | clementineremote/clementine.py:240 | every 4-byte header is the packing of the length it unpacks to |
| Framing.EncodeFrame | clementineremote/clementine.py:110-112 | framing succeeds exactly when the payload length is below 2^32; the frame is header then payload, and the header decodes to the payload length |
| Framing.DecodeFrame | clementineremote/clementine.py:240-246 | a complete frame is split off exactly when the bytes hold the 4-byte header and the declared number of payload bytes; header, payload and rest put back together give the input |
| Framing.FrameRoundTrip | clementineremote/clementine.py:110-112 | decoding an encoded frame, whatever follows it, gives back the payload and leaves the following bytes untouched |
| Framing.DecodedFrameIsEncoding | clementineremote/clementine.py:240-246 | a decoded frame is exactly the encoding of its payload, followed by the rest |
| Reassembly.Recv | clementineremote/clementine.py:244-245 | a read returns at most the requested number of bytes, loses or invents none, and returns none only when the peer has closed |
| Reassembly.ReadExactly | clementineremote/clementine.py:242-246 | the read completes exactly when the stream holds the declared number of bytes, and then yields exactly those bytes and leaves the rest; otherwise it yields everything up to the close; the requests form a `RequestTrace`: none when the length is 0, otherwise the first made with nothing read, each for min(4096, length - bytes already read), each after a read that returned between 1 and the requested number of bytes; the last request reaches the declared length when the read completes, and was made after every available byte had arrived when it does not |
| Reassembly.RequestTraceMeans | clementineremote/clementine.py:243-246 | in a request trace, request i is made after before[i] bytes (fewer than the length, strictly increasing, starting at 0) and asks for min(4096, length - before[i]) bytes |
| Reassembly.ReadFrame | clementineremote/clementine.py:235-248 | as written: a short header read is an error exactly when the first delivery has fewer than 4 bytes; a frame arrives exactly when the first delivery holds the header and the stream a complete frame, with no byte past it consumed; on a close nothing is left and no frame is produced |
| Reassembly.ReadFrameExact | clementineremote/clementine.py:235-248 | with the header read to completion, a frame arrives exactly when the stream holds a complete frame, and it is that frame |
| Reassembly.SplitHeaderIsRejected | clementineremote/clementine.py:237-240 | a stream holding a complete frame can have a first delivery shorter than the header |
| Messages.EngineStateName | clementineremote/clementine.py:274-286 | the state is stored as the engine state's non-empty symbolic name, which is never the Disconnected the client reports while not connected (line 58) |
| Messages.EngineStateNameInjective | clementineremote/clementine.py:274-286 | distinct engine states are stored under distinct names, so the stored name determines the state |
| Messages.KeyNameInjective | clementineremote/clementine.py:290-308 | the current-track dictionary's 17 keys are distinct strings, so it holds one entry per key |
| Messages.TrackEntriesDetermineSong | clementineremote/clementine.py:290-308 | the current-track dictionary determines every field of the metadata it was built from |
| Client.Init | clementineremote/clementine.py:54-91 | a new client is not terminated and has no socket; its state is Disconnected, its playlists are empty, and every other player field is unknown |
| Client.IndexPlaylists | clementineremote/clementine.py:323-332 | the playlist table holds exactly the ids of the message, and each id maps to the last entry carrying it |
| Client.ActiveAfter | clementineremote/clementine.py:324-335 | the active id becomes the id of the last active entry, and stays as it was when no entry is active |
| Client.Process | clementineremote/clementine.py:266-354 | every message sets the update time; Info sets version and state name; Play, Pause and Stop set Playing, Paused and Empty; the other recognised types store what they carry; putting back the written fields gives the old state; playlist songs, keep-alive and unrecognised types change nothing else |
| Client.ProcessStep | clementineremote/clementine.py:270-320 | one step: only a current-track message replaces the current track, and an unknown field becomes known only through a message of its own type |
| Client.CurrentTrackIsLatest | clementineremote/clementine.py:288-308 | after any sequence of messages, the current track is the one carried by the most recent current-track message, or unchanged if there was none |
| Client.KnownOnlyAfterReceived | clementineremote/clementine.py:266-320 | version, position, current track, volume, shuffle and repeat are known exactly when they were known before or a message of their type arrived; the update time is known exactly when some message arrived |
| Client.InfoPauseVolumeScenario | clementineremote/clementine.py:272-311 | Info(21, Playing), then Pause, then SetVolume(42) leaves version 21, state Paused and volume 42 |
| Client.SendMessage | clementineremote/clementine.py:103-119 | nothing is sent exactly when there is no socket; otherwise the message carries version 21; packing raises exactly for payloads of 2^32 bytes or more; every written or swallowed frame decodes to the serialised message; the client record is never changed |
| Client.ConnectRequest | clementineremote/clementine.py:131-135 | CONNECT carries the auth code, or 0 if there is none, and asks for neither playlist songs nor downloader mode |
| Client.Connected | clementineremote/clementine.py:122-137 | connecting resets the first-data flag to false and opens the socket, changing nothing else; it sends a version-21 CONNECT request through the open socket: the frame is written exactly when the socket does not raise and packing succeeds, a send error is swallowed, packing raises exactly for 2^32 bytes or more, and the frame decodes to the serialised request |
| Client.ConnectFailed | clementineremote/clementine.py:225-232 | a refused connect leaves the first-data flag false and an unusable socket; the client is terminated exactly when it was already terminated or does not reconnect |
| Client.Disconnect | clementineremote/clementine.py:140-145 | after disconnect the client is terminated, reports Disconnected, and an open socket is closed; nothing else changes |
| Client.DisconnectIdempotent | clementineremote/clementine.py:140-145 | disconnecting twice equals disconnecting once |
| Client.AfterLoopAsWritten | clementineremote/clementine.py:234-263 | as written: after a clean close or a socket error, only the socket error sets Disconnected, and a client that does not reconnect is terminated; an exception that escapes the loop (line 240 or 257) skips the step, so the client is left unchanged and not terminated |
| Client.GracefulCloseKeepsPlayerState | clementineremote/clementine.py:234-263 | as written, a clean close by the peer leaves a non-reconnecting client terminated but still reporting its last engine state (Playing, say), which is not Disconnected |
| Client.AfterLoop | clementineremote/clementine.py:259-263 | corrected: after a clean close or a socket error the state is Disconnected, and a client that does not reconnect is terminated; an escaping exception still skips the step |
| Receiver.ReceiveLoop | clementineremote/clementine.py:234-257 | corrected (header read to completion): the messages applied are the parsed payloads of the complete frames at the front of the stream, in order; the final state is the initial state with them applied; on a clean close the leftover bytes hold no complete frame, so no partial message is applied; a payload that does not parse ends the loop |

## Left out

- Sockets, the background thread and the reconnect delay (lines 94-95, 128-129, 221-233) are operating-system I/O, concurrency and wall-clock time. The socket is reduced to its status (`NoSocket`, `Open`, `Closed`). A read error in the middle of a stream is the `SocketError` argument of the after-loop step. The outer reconnect loop is not modelled beyond that step and `ConnectFailed`.
- The wire-schema codec is generated code that is not part of this model. Serialisation and parsing are function parameters. The shuffle- and repeat-mode name lookups are the `EnumNames` parameter. The engine state is a datatype with the schema's four states: Idle, Empty, Playing and Paused. The code names three of them.
- `time.time()` is the `now` parameter, as a real number.
- The `on_message` hook (lines 357-367), `__str__` (lines 98-101) and the `print` that logs an unrecognised message type (line 354) are user extension points, string formatting and console output, with no contract to state. An unrecognised message changes only the update time.
- The command methods `play`, `pause`, `stop`, `playpause`, `next`, `previous`, `set_volume`, `playlist_open` and `change_song` (lines 147-219) each call `SendMessage` with the matching `Message` constructor. They are not separate members. The `int(volume)` conversion of a non-integer argument is not modelled.
- Receiver.ReceiveLoop: reads each header to completion, as the corrected `ReadFrameExact` does. The code's single `recv(4)` raises `struct.error` when it returns 1 to 3 bytes, which ends the client's thread; the loop here instead waits for the rest of the header and applies the frame. That as-written behaviour is modelled by `ReadFrame` and `SplitHeaderIsRejected` alone. A payload that does not parse ends the loop with `Undecodable`, which is the `Escaped` exit of the after-loop step.
- Client.SendMessage: the code ignores how many bytes `socket.send` actually wrote. A partial write is not modelled; a write either hands over the whole frame or fails.
- The private `_current_track` field (line 289) holds the same metadata as `current_track`. Both are the one `currentTrack` field.
- `host` and `port` are used only to open the socket and are not part of the record.
- `auth_code` is any Python value in the code. Here it is an optional integer, and `auth_code or 0` becomes "the code, or 0 if absent".
- Integer fields of the schema (volume, track position, ids) are unbounded; 32-bit limits of the wire format are not modelled.
- The version an Info message carries (line 273) is the player's own version (the field comment at line 54), not the protocol version 21 of line 39. Its wire type is not shown in the code; it is held as an `int` here, and the model only ever stores and compares it.
- `clementineremote/cli.py` (argument parsing, printing, a polling wait) and `setup.py` (packaging) are outside the protocol core.

Where the code's own documentation and its behaviour differ, the model follows the behaviour:

- The class docstring (lines 30-31) says the state is Disconnected whenever the client is not connected. The receive loop sets it only on a socket error (`AfterLoopAsWritten`); see Findings.
- The field comment at line 60 gives the volume as 0-100. Volumes are stored as echoed, without clamping.

## Findings

| source | as written | input that shows it | evidently intended | confidence | as-written member | corrected member |
|---|---|---|---|---|---|---|
| clementineremote/clementine.py:237-240 | the header is read with one `recv(4)`; a read returning 1 to 3 bytes makes `struct.unpack` raise, which ends the receive thread | the peer's bytes `00 00 00 01 07` (a frame with a 1-byte payload) arrive as two deliveries, `00 00` and `00 01 07` | read the 4 header bytes to completion, as the payload is read | not executed; medium | Reassembly.ReadFrame (exhibited by Reassembly.SplitHeaderIsRejected) | Reassembly.ReadFrameExact |
| clementineremote/clementine.py:259-263 | only an `OSError` sets the state to Disconnected; when the peer closes cleanly the loop exits with the state unchanged | a client created with `reconnect=False` whose state is `Playing` when the peer closes the connection | the state is Disconnected whenever the client is not connected, as the class docstring says (lines 30-31) | not executed; medium | Client.AfterLoopAsWritten (exhibited by Client.GracefulCloseKeepsPlayerState) | Client.AfterLoop |
