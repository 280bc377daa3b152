# Song-play data lake ETL, modelled in Dafny

`etl.py` is a PySpark batch job for a music-streaming service. It reads two
JSON datasets — song metadata (`song_data`) and user activity logs
(`log_data`) — and writes a star schema of five parquet tables:

- `process_song_data` builds the **songs** table (one row per `song_id`) and
  the **artists** table (one row per `artist_id`) by `dropDuplicates` on the
  key column followed by a `select` of the table's columns.
- `process_log_data` keeps the events whose `page` is `"NextSong"` (plays),
  builds the **users** table (one row per `userId`, with `firstName` and
  `lastName` renamed), adds a `timestamp` column derived from `ts`, builds
  the **time** table (one row per distinct timestamp, with its hour, day,
  month, year and day of week), and left-outer-joins the plays to the raw
  song metadata on (`artist`, `length`, `song`) = (`artist_name`,
  `duration`, `title`) to build the **songplays** fact table, whose `year`
  and `month` come from the play's timestamp.

The model keeps this dataflow and drops the I/O around it. A DataFrame is a
`seq` of rows (the row order is one the engine may deliver; the contents
properties below do not depend on it), a nullable column is an `Option`,
and each transformation is a pure function:

- `options.dfy` — `Option` and SQL equality on nullable values (a
  comparison with null never holds in a join condition).
- `frames.dfy` — the generic DataFrame operations: `Filter`, `Select`,
  `DropDuplicatesBy` (keeps the first row of each key group) with the
  predicate `DeduplicatedBy` that every admissible outcome of
  `dropDuplicates` satisfies, and `LeftOuterJoin`, with their lemmas.
- `schema.dfy` — input records, output rows, and the partition columns each
  table is written with.
- `song_data.dfy` — `process_song_data`.
- `log_data.dfy` — `process_log_data`.
- `scenarios.dfy` — two small runs worked out on concrete input.

Time conversion is a parameter: a `Calendar` value holds the conversion of
`ts` to a timestamp (`datetime.fromtimestamp(ts / 1000)` in the host's
local zone) and Spark's `hour`, `dayofmonth`, `month`, `year` and
`dayofweek`. Durations and coordinates are an opaque `Double` type compared
only for equality.

The timestamp is converted in the host's local zone, as the code does (a
parameter here). The songplays table has exactly the columns the code
selects: `songplay_id` and `start_time`, listed in the comment at
etl.py:137, are not produced.

## Model

| member | source | states |
|---|---|---|
| `Options.SqlEquals` | etl.py:139-141 | an equality inside the join condition holds iff both sides are non-null and equal; a null on either side never matches |
| `Frames.Filter` | etl.py:91 | a row is in the filtered table iff it is an input row satisfying the predicate; the result is no longer than the input |
| `Frames.FilterMultiplicity` | etl.py:91 | a selected row keeps its multiplicity, any other row occurs zero times |
| `Frames.FilterAppend` | etl.py:91 | filtering a table split into two parts is filtering each part and concatenating |
| `Frames.Select` | etl.py:143-153 | a projection (this one, and those at etl.py:55, 64, 95-101 and 119-126) has exactly one output row per input row |
| `Frames.SelectMembership` | etl.py:143-153 | every input row's projection is an output row, and every output row is the projection of an input row |
| `Frames.ProjectionMultiplicity` | etl.py:109 | a projection that maps no other row to the same output keeps a row's multiplicity |
| `Frames.DropDuplicatesBy` | etl.py:55 | the result is an admissible `dropDuplicates` outcome: only input rows, no key twice, and the same key set as the input |
| `Frames.DropDuplicatesKeepsFirst` | etl.py:55 | the tie-break chosen for the model: the first input row with a given key is the row kept |
| `Frames.DeduplicatedCount` | etl.py:55 | any admissible deduplication has exactly as many rows as distinct keys, at most as many as the input, and as many as the input when no key repeats |
| `Frames.DeduplicationChoiceIndependent` | etl.py:55 | two admissible deduplications of one table have the same row count and the same key set |
| `Frames.SelectDeduplicated` | etl.py:55 | deduplicating and then projecting with a key-preserving projection gives unique keys, one row per distinct input key, each row the projection of an input row |
| `Frames.Matches` | etl.py:139-141 | the right rows paired with a left row are exactly the right rows that satisfy the join condition with it |
| `Frames.MatchesMultiplicity` | etl.py:139-141 | a right row that satisfies the condition with a left row is matched as often as it occurs on the right |
| `Frames.NoMatchNoMatches` | etl.py:139-141 | a left row that satisfies the condition with no right row has no matches |
| `Frames.JoinRow` | etl.py:139-141 | one left row gives one pair per matching right row, or exactly one null-padded row when nothing matches |
| `Frames.LeftOuterJoin` | etl.py:139-141 | the output has at least as many rows as the left table |
| `Frames.LeftOuterJoinOrigin` | etl.py:139-141 | every output row carries a row of the left table |
| `Frames.LeftOuterJoinMatched` | etl.py:139-141 | for every left row l and right row x, the pair (l, x) is in the output iff l is a left row, x a right row, and the join condition holds between them |
| `Frames.LeftOuterJoinUnmatched` | etl.py:139-141 | for every l, the null-padded row (l, null) is in the output iff l is a left row that matches no right row |
| `Frames.LeftOuterJoinKeepsLeft` | etl.py:139-141 | no left row is lost: each one occurs in some output row |
| `Frames.LeftOuterJoinAppend` | etl.py:139-141 | the join treats left rows independently: joining a concatenation is concatenating the joins |
| `Frames.LeftOuterJoinSize` | etl.py:139-141 | the output size is the sum over left rows of max(1, matches); equal to the left size when each left row matches at most one right row, larger when one matches two |
| `Frames.LeftOuterJoinMissMultiplicity` | etl.py:139-141 | a left row without matches comes out null-padded exactly as often as it occurs on the left |
| `Frames.LeftOuterJoinMatchMultiplicity` | etl.py:139-141 | a matching pair (l, x) comes out exactly (copies of l on the left) × (copies of x on the right) times: the join neither merges nor drops duplicates on either side |
| `SongData.SongsTable` | etl.py:55 | songs table: song_id unique, its song_ids are exactly the input's, each row is the projection of an input record, and it has one row per distinct song_id |
| `SongData.ArtistsTable` | etl.py:64 | artists table: artist_id unique, its artist_ids are exactly the input's, each row's name, location, latitude and longitude come from one input record with that artist_id |
| `SongData.ProcessSongData` | etl.py:33-70 | both tables are built from one input, and every artist_id of the songs table is the artist_id of an artists row |
| `SongData.SongsReferenceArtists` | etl.py:55-64 | the artist_ids of the songs table are among those of the artists table |
| `LogData.NextSongEvents` | etl.py:91 | an event survives the filter iff it is an input event whose page is "NextSong" |
| `LogData.NextSongMultiplicity` | etl.py:91 | each play keeps its multiplicity; any other action is dropped entirely |
| `LogData.UsersTable` | etl.py:95-101 | users table: user_id unique, its user_ids are exactly those of plays (a user seen only on other pages has no row), each row is the renamed columns of one play by that user |
| `LogData.WithTimestamp` | etl.py:108-109 | the timestamp column is added to every event, in order, and a stamped row is an input event carrying its converted ts |
| `LogData.WithTimestampMultiplicity` | etl.py:108-109 | adding the timestamp column keeps each event's multiplicity |
| `LogData.TimeTable` | etl.py:119-126 | time table: start_time unique, its start times are exactly those of plays, hour/day/month/year/day_of_week are functions of start_time alone, at most one row per play |
| `LogData.TimeTableRowPerTs` | etl.py:108-126 | when the ts conversion separates the plays' ts values, the time table has one row per distinct ts |
| `LogData.ToSongplayRowRecordsPlay` | etl.py:143-153 | the projection of a stamped play and a matching song record, or of an unmatched play, copies the play's columns, takes year and month from its start time, and carries the record's ids or nulls |
| `LogData.SongMatches` | etl.py:139-141 | a play matches a song record iff its artist, length and song are all non-null and equal the record's artist_name, duration and title |
| `LogData.SongplaysTable` | etl.py:139-153 | songplays has one row per row of the join, so at least one per play; what each row records is stated by `LogData.SongplaysRecordPlays`, `LogData.SongplaysKeepPlays` and `LogData.SongplaysCount` |
| `LogData.JoinedRowRecordsPlay` | etl.py:139-153 | each row of the join comes from a play, and its projection records that play |
| `LogData.SongplaysRecordPlays` | etl.py:139-153 | every songplays row records a play: user_id, level, session_id, location, user_agent copied, year and month of its timestamp, and song_id/artist_id non-null only if a song record matches the play on artist, length and title (then that record's), null otherwise |
| `LogData.SongplaysKeepPlays` | etl.py:139-153 | each play yields a row per matching song record carrying that record's ids, and a row with null ids when no record matches |
| `LogData.PlayKeptWith` | etl.py:139-153 | a play joined with a song record it matches (or with nothing, when it matches none) gives a songplays row that records the play |
| `LogData.SongplaysCount` | etl.py:133-141 | songplays has at least one row per play, exactly one per play when each play matches at most one song record, more when some play matches two (the song metadata is not deduplicated) |
| `LogData.SongplaysMissOnce` | etl.py:139-141 | a play matching no song record appears null-padded in the join exactly as often as in the log |
| `LogData.SongplaysMatchMultiplicity` | etl.py:139-141 | a play matching a song record is paired with it in the join (copies of the play in the log) × (copies of the record in the song metadata) times, so a duplicated song record doubles the play's rows |
| `LogData.SongplaysAgreeWithTime` | etl.py:143-153 | the year and month of every songplays row are those of some row of the time table |
| `LogData.SongplaysKnownUsers` | etl.py:143-153 | every user_id of songplays is the user_id of a row of the users table (etl.py:95-101) |
| `LogData.ProcessLogData` | etl.py:72-157 | the three tables fit together: every user_id of songplays has a users row, and every (year, month) of songplays is that of a time row |
| `Scenarios.MixedLogPlays` | etl.py:91 | two plays and a home-page visit: the filter keeps the two plays |
| `Scenarios.MixedLogUsers` | etl.py:95-101 | that log gives one users row, for u1 |
| `Scenarios.MixedLogTime` | etl.py:119-126 | that log gives two time rows when the two play times convert to different timestamps |
| `Scenarios.MixedLogSongplays` | etl.py:139-153 | for any song metadata, that log gives two songplays rows, both for u1: none comes from the home-page visit |
| `Scenarios.NoArtistNoMatch` | etl.py:139-141 | an event with a null artist matches no song record |
| `Scenarios.MatchingPlayGetsIds` | etl.py:139-153 | a play matching one song record on artist, length and title gives one songplays row with that record's song_id and artist_id |

## Left out

- Reading `dl.cfg` and exporting the AWS keys into the process environment (etl.py:12-16): configuration, not dataflow.
- `create_spark_session` and `main` (etl.py:19-31, 159-169): engine start-up and entry point; the model is the two transformations as functions of their inputs.
- `spark.read.json`, the S3 paths and the `.show` calls (etl.py:47-51, 85-88, 110, 133-134): input/output; the datasets are function arguments.
- The parquet writes, overwrite mode and partition directories (etl.py:60, 70, 105, 130, 157): storage; only the partition column lists are kept, as constants in `Schema`.
- `datetime.fromtimestamp(x/1000)` (etl.py:108): float division and the host time zone; the conversion is the `fromEpochMillis` field of the `Calendar` parameter. A DST fold can map two `ts` values to one timestamp; `LogData.TimeTableRowPerTs` therefore assumes the conversion separates the plays' `ts` values.
- Spark's `hour`, `dayofmonth`, `month`, `year` and `dayofweek` (etl.py:121-125, 151-152): fields of the `Calendar` parameter, left uninterpreted.
- Floating-point comparison `length == duration` (etl.py:140): equality on the opaque `Double` type, so NaN and signed-zero behaviour are not modelled.
- Which duplicate `dropDuplicates` keeps: the engine does not say. The model keeps the first; every table property is stated so that it holds for any admissible choice (`Frames.DeduplicatedBy`), except `Frames.DropDuplicatesKeepsFirst`, which states the model's own choice.
- Distributed execution and shuffles: the model is sequential; `Frames.FilterAppend` and `Frames.LeftOuterJoinAppend` state that filter and join process rows independently.
- Null keys: `song_id`, `artist_id`, the song `year`, `userId`, `ts`, `page`, `level` and `sessionId` are modelled as never null. The other columns, which are only copied or used in the join, are nullable.
- Unused input columns (`num_songs`, `auth`, `itemInSession`, `method`, `registration`, `status`) are not part of the records.
