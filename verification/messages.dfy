/** The protocol's message envelope as the client sees it once the wire
    schema's codec has run: one constructor per message type the client
    builds or handles, and `Other` for every remaining type tag. The codec
    itself (serialisation and parsing) is generated code that is not part of
    this model; it appears as function parameters where it is used. */
module Messages {
  import opened Wrappers
  import opened Framing

  /** The player's playback status, as embedded in an Info message. */
  datatype EngineState = Idle | Empty | Playing | Paused

  /** The state the client reports while it is not connected. */
  const DISCONNECTED: string := "Disconnected"

  /** The symbolic name of an engine state, which is what the client stores.
      No engine state is named like the disconnected state, so the stored
      state tells a connected client from a disconnected one. */
  function EngineStateName(e: EngineState): (name: string)
    ensures |name| > 0 && name != DISCONNECTED
  {
    match e
    case Idle => "Idle"
    case Empty => "Empty"
    case Playing => "Playing"
    case Paused => "Paused"
  }

  /** Distinct engine states have distinct names, so the stored name
      determines the state it came from. */
  lemma EngineStateNameInjective(a: EngineState, b: EngineState)
    ensures EngineStateName(a) == EngineStateName(b) ==> a == b
  {
  }

  /** Name lookups for the shuffle and repeat mode enumerations of the wire
      schema, which are not part of this model. */
  datatype EnumNames = EnumNames(shuffle: int -> string, repeat: int -> string)

  /** The fields of the current-track metadata the client reads. */
  datatype SongMetadata = SongMetadata(
    id: int, index: int, title: string, album: string, artist: string,
    track: int, prettyYear: string, genre: string, playcount: int,
    prettyLength: string, length: int, art: seq<byte>, isLocal: bool,
    filename: string, fileSize: int, rating: real, kind: int)

  /** A playlist entry, as sent in a Playlists message and as stored. */
  datatype Playlist = Playlist(id: int, name: string, itemCount: int, active: bool, closed: bool)

  datatype Message =
    // Sent by the client.
    | Connect(authCode: int, sendPlaylistSongs: bool, downloader: bool)
    | PlayPause
    | Next
    | Previous
    | OpenPlaylist(playlistId: int)
    | ChangeSong(playlistId: int, songIndex: int)
    // Sent by the client as commands and echoed back by the player.
    | Play
    | Pause
    | Stop
    | SetVolume(volume: int)
    // Sent by the player. The version in Info is the player's own version,
    // not the protocol version of the envelope.
    | Info(version: int, state: EngineState)
    | UpdateTrackPosition(position: int)
    | CurrentMetainfo(song: SongMetadata)
    | Shuffle(shuffleMode: int)
    | Repeat(repeatMode: int)
    | FirstDataSentComplete
    | Playlists(playlists: seq<Playlist>)
    | PlaylistSongs
    | ActivePlaylistChanged(activeId: int)
    | KeepAlive
    // Any other type tag of the schema.
    | Other(tag: int)

  /** A message together with the protocol version field of its envelope. */
  datatype Envelope = Envelope(version: int, body: Message)

  /** A value of the client's current-track dictionary. */
  datatype TrackValue = Text(text: string) | Number(number: int) | Flag(flag: bool) | Blob(bytes: seq<byte>) | Decimal(decimal: real)

  /** The keys of the current-track dictionary; `KeyName` gives the string
      each one is stored under. */
  datatype TrackKey =
    | Title
    | TrackId
    | TrackIndex
    | TrackAlbum
    | TrackArtist
    | TrackNumber
    | Year
    | Genre
    | Playcount
    | PrettyLength
    | Length
    | Art
    | IsLocal
    | Filename
    | FileSize
    | Rating
    | SongType

  /** The dictionary key under which the client stores each entry. */
  function KeyName(k: TrackKey): string {
    match k
    case Title => "title"
    case TrackId => "track_id"
    case TrackIndex => "track_index"
    case TrackAlbum => "track_album"
    case TrackArtist => "track_artist"
    case TrackNumber => "track"
    case Year => "year"
    case Genre => "genre"
    case Playcount => "playcount"
    case PrettyLength => "pretty_length"
    case Length => "length"
    case Art => "art"
    case IsLocal => "is_local"
    case Filename => "filename"
    case FileSize => "file_size"
    case Rating => "rating"
    case SongType => "type"
  }

  /** Distinct keys are stored under distinct names, so the dictionary
      holds exactly one entry per `TrackKey`. */
  lemma KeyNameInjective(a: TrackKey, b: TrackKey)
    ensures KeyName(a) == KeyName(b) ==> a == b
  {
  }

  /** The entry under key `k` of the current-track dictionary the client
      builds from metadata `m`. Every key has an entry, and each entry is
      taken from `m` alone. */
  function TrackEntry(m: SongMetadata, k: TrackKey): TrackValue {
    match k
    case Title => Text(m.title)
    case TrackId => Number(m.id)
    case TrackIndex => Number(m.index)
    case TrackAlbum => Text(m.album)
    case TrackArtist => Text(m.artist)
    case TrackNumber => Number(m.track)
    case Year => Text(m.prettyYear)
    case Genre => Text(m.genre)
    case Playcount => Number(m.playcount)
    case PrettyLength => Text(m.prettyLength)
    case Length => Number(m.length)
    case Art => Blob(m.art)
    case IsLocal => Flag(m.isLocal)
    case Filename => Text(m.filename)
    case FileSize => Number(m.fileSize)
    case Rating => Decimal(m.rating)
    case SongType => Number(m.kind)
  }

  /** The dictionary determines the metadata it was built from: two
      metadata records with the same entries under every key are equal, so
      no field of the record is left out of the dictionary. */
  lemma TrackEntriesDetermineSong(a: SongMetadata, b: SongMetadata)
    requires forall k :: TrackEntry(a, k) == TrackEntry(b, k)
    ensures a == b
  {
    assert TrackEntry(a, Title) == TrackEntry(b, Title);
    assert TrackEntry(a, TrackId) == TrackEntry(b, TrackId);
    assert TrackEntry(a, TrackIndex) == TrackEntry(b, TrackIndex);
    assert TrackEntry(a, TrackAlbum) == TrackEntry(b, TrackAlbum);
    assert TrackEntry(a, TrackArtist) == TrackEntry(b, TrackArtist);
    assert TrackEntry(a, TrackNumber) == TrackEntry(b, TrackNumber);
    assert TrackEntry(a, Year) == TrackEntry(b, Year);
    assert TrackEntry(a, Genre) == TrackEntry(b, Genre);
    assert TrackEntry(a, Playcount) == TrackEntry(b, Playcount);
    assert TrackEntry(a, PrettyLength) == TrackEntry(b, PrettyLength);
    assert TrackEntry(a, Length) == TrackEntry(b, Length);
    assert TrackEntry(a, Art) == TrackEntry(b, Art);
    assert TrackEntry(a, IsLocal) == TrackEntry(b, IsLocal);
    assert TrackEntry(a, Filename) == TrackEntry(b, Filename);
    assert TrackEntry(a, FileSize) == TrackEntry(b, FileSize);
    assert TrackEntry(a, Rating) == TrackEntry(b, Rating);
    assert TrackEntry(a, SongType) == TrackEntry(b, SongType);
  }
}
