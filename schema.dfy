/** Rows of the warehouse tables and the log of statements the ETL job issues.
    Every staging column is nullable; a column whose NULL changes behaviour
    (a join column, the page, the user id) is an `Option`. */
module Schema {

  datatype Option<T> = None | Some(value: T)

  /** A nullable `varchar`. */
  type Text = Option<string>

  /** An SQL `numeric` value. It is exact: an integer count of 10^-10 units, the
      finest scale any staging column uses (`numeric(30, 10)`). A `numeric(30, 3)`
      value is a multiple of 10^7 in this unit. */
  type Numeric = int

  /** A `double precision` value, compared only for equality of its bits. */
  datatype Double = Double(bits: bv64)

  /** Epoch milliseconds. */
  type Timestamp = int

  /** A row of `staging_events_table`, in the column order of the events query. */
  datatype StagingEvent = StagingEvent(
    artist: Text,
    auth: Text,
    firstName: Text,
    gender: Text,
    itemInSession: Option<int>,
    lastName: Text,
    length: Option<Numeric>,
    level: Text,
    location: Text,
    httpMethod: Text,
    page: Text,
    registration: Option<Numeric>,
    sessionId: Option<int>,
    song: Text,
    status: Option<int>,
    ts: Timestamp,
    userAgent: Text,
    userId: Option<int>)

  /** A row of `staging_songs_table`. */
  datatype CatalogEntry = CatalogEntry(
    numSongs: Option<int>,
    artistId: Text,
    artistLatitude: Option<Double>,
    artistLongitude: Option<Double>,
    artistLocation: Text,
    artistName: Text,
    songId: Text,
    title: Text,
    duration: Option<Numeric>,
    year: Option<int>)

  /** The parameters of one `users` insert, in placeholder order:
      (user_id, first_name, last_name, gender, level). */
  datatype UserRow = UserRow(userId: int, firstName: Text, lastName: Text, gender: Text, level: Text)

  /** The calendar decomposition of a timestamp (hour, day, week, month, year, weekday). */
  datatype CalendarParts = CalendarParts(hour: int, day: int, week: int, month: int, year: int, weekday: int)

  /** The parameters of one `time` insert: start_time followed by its calendar parts. */
  datatype TimeRow = TimeRow(startTime: Timestamp, parts: CalendarParts)

  /** A row of `songs`: (song_id, title, artist_id, duration, year). */
  datatype SongRow = SongRow(songId: Text, title: Text, artistId: Text, duration: Option<Numeric>, year: Option<int>)

  /** A row of `artists`: (artist_id, name, location, latitude, longitude). */
  datatype ArtistRow = ArtistRow(artistId: Text, name: Text, location: Text, latitude: Option<Double>, longitude: Option<Double>)

  /** A row of `songplays` without its warehouse-assigned identity column:
      (start_time, user_id, level, song_id, artist_id, session_id, location, user_agent). */
  datatype SongplayRow = SongplayRow(
    startTime: Timestamp,
    userId: Option<int>,
    level: Text,
    songId: Text,
    artistId: Text,
    sessionId: Option<int>,
    location: Text,
    userAgent: Text)

  /** One statement sent to the warehouse. Set-based inserts carry the rows they add. */
  datatype Statement =
    | InsertUser(user: UserRow)
    | InsertTime(time: TimeRow)
    | InsertSongs(songs: seq<SongRow>)
    | InsertArtists(artists: seq<ArtistRow>)
    | InsertSongplays(songplays: seq<SongplayRow>)
    | Commit

  /** The page value of a "track played" event. */
  const NextSong: string := "NextSong"

  /** The event is a track play: its page is exactly `NextSong` (a NULL page is not). */
  predicate IsPlay(e: StagingEvent) {
    e.page == Some(NextSong)
  }
}
