/** The records the batch job reads (song metadata and the activity log)
    and the rows of the five tables it writes. Columns that the JSON
    input may leave out are nullable (`Option`); the key columns the job
    deduplicates or partitions on are not. */
module Schema {
  import opened Options

  /** A JSON number read as a double (durations, coordinates). The model
      only compares such values for equality. */
  type Double(==, !new)

  /** A Spark `TimestampType` value. */
  type Timestamp(==, !new)

  /** The time functions the job relies on but does not define: the
      conversion of the `ts` column (milliseconds since the epoch) to a
      timestamp, which the job performs with `datetime.fromtimestamp` in
      the host's local time zone, and Spark's `hour`, `dayofmonth`,
      `month`, `year` and `dayofweek` on a timestamp. */
  datatype Calendar = Calendar(
    fromEpochMillis: int -> Timestamp,
    hour: Timestamp -> int,
    dayOfMonth: Timestamp -> int,
    month: Timestamp -> int,
    year: Timestamp -> int,
    dayOfWeek: Timestamp -> int)

  /** One record of `song_data`: a song together with its artist. */
  datatype SongRecord = SongRecord(
    songId: string,
    title: Option<string>,
    artistId: string,
    year: int,
    duration: Option<Double>,
    artistName: Option<string>,
    artistLocation: Option<string>,
    artistLatitude: Option<Double>,
    artistLongitude: Option<Double>)

  /** One record of `log_data`: a user action on the service. */
  datatype LogEvent = LogEvent(
    artist: Option<string>,
    firstName: Option<string>,
    gender: Option<string>,
    lastName: Option<string>,
    length: Option<Double>,
    level: string,
    location: Option<string>,
    page: string,
    sessionId: int,
    song: Option<string>,
    ts: int,
    userAgent: Option<string>,
    userId: string)

  /** A log event with the derived `timestamp` column added. */
  datatype StampedEvent = StampedEvent(event: LogEvent, timestamp: Timestamp)

  /** Rows of the songs table: song_id, title, artist_id, year, duration. */
  datatype SongRow = SongRow(
    songId: string,
    title: Option<string>,
    artistId: string,
    year: int,
    duration: Option<Double>)

  /** Rows of the artists table: artist_id, artist_name, artist_location,
      artist_latitude, artist_longitude. */
  datatype ArtistRow = ArtistRow(
    artistId: string,
    name: Option<string>,
    location: Option<string>,
    latitude: Option<Double>,
    longitude: Option<Double>)

  /** Rows of the users table: user_id, first_name, last_name, gender, level. */
  datatype UserRow = UserRow(
    userId: string,
    firstName: Option<string>,
    lastName: Option<string>,
    gender: Option<string>,
    level: string)

  /** Rows of the time table: start_time, hour, day, month, year, day_of_week. */
  datatype TimeRow = TimeRow(
    startTime: Timestamp,
    hour: int,
    day: int,
    month: int,
    year: int,
    dayOfWeek: int)

  /** Rows of the songplays table: user_id, level, song_id, artist_id,
      session_id, location, user_agent, year, month. song_id and
      artist_id are null for a play that matched no song. */
  datatype SongplayRow = SongplayRow(
    userId: string,
    level: string,
    songId: Option<string>,
    artistId: Option<string>,
    sessionId: int,
    location: Option<string>,
    userAgent: Option<string>,
    year: int,
    month: int)

  /** The partition columns each table is written with; the artists and
      users tables are written unpartitioned. */
  const SongsPartitionColumns: seq<string> := ["year", "artist_id"]
  const TimePartitionColumns: seq<string> := ["year", "month"]
  const SongplaysPartitionColumns: seq<string> := ["year", "month"]
}
