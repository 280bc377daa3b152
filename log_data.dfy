/** `process_log_data`: the users, time and songplays tables, all built
    from the log events whose page is "NextSong"; songplays also joins
    the song metadata, as read, without deduplicating it first. */
module LogData {
  import opened Options
  import opened Frames
  import opened Schema

  // ---------------------------------------------------------------------
  // the NextSong filter
  // ---------------------------------------------------------------------

  /** The action of playing a song. */
  predicate IsNextSong(e: LogEvent)
  {
    e.page == "NextSong"
  }

  /** The events every table of `process_log_data` is derived from. */
  function NextSongEvents(df: seq<LogEvent>): (r: seq<LogEvent>)
    ensures |r| <= |df|
    ensures forall e :: e in r <==> e in df && e.page == "NextSong"
  {
    Filter(IsNextSong, df)
  }

  /** The filter keeps each play as often as the log holds it and drops
      every other action. */
  lemma NextSongMultiplicity(df: seq<LogEvent>, e: LogEvent)
    ensures multiset(NextSongEvents(df))[e] == if e.page == "NextSong" then multiset(df)[e] else 0
  {
    FilterMultiplicity(IsNextSong, df, e);
  }

  // ---------------------------------------------------------------------
  // users table
  // ---------------------------------------------------------------------

  function UserKey(e: LogEvent): string { e.userId }

  /** The users-table columns of an event: userId, firstName and lastName
      renamed to user_id, first_name and last_name, then gender and level. */
  function ToUserRow(e: LogEvent): UserRow
  {
    UserRow(e.userId, e.firstName, e.lastName, e.gender, e.level)
  }

  /** The user ids that occur on some play. */
  ghost function PlayingUserIds(df: seq<LogEvent>): set<string>
  {
    set e | e in df && IsNextSong(e) :: e.userId
  }

  /** The users table: exactly one row per distinct userId among plays,
      each the renamed columns of one play by that user. A user who only
      appears on other pages gets no row. */
  function UsersTable(df: seq<LogEvent>): (t: seq<UserRow>)
    ensures forall i, j :: 0 <= i < j < |t| ==> t[i].userId != t[j].userId
    ensures forall row :: row in t ==> exists e :: e in df && e.page == "NextSong" && row == ToUserRow(e)
    ensures (set row | row in t :: row.userId) == PlayingUserIds(df)
    ensures |t| == |PlayingUserIds(df)|
  {
    var plays := NextSongEvents(df);
    var kept := DropDuplicatesBy(UserKey, plays);
    SelectDeduplicated(UserKey, ToUserRow, (r: UserRow) => r.userId, plays, kept);
    assert KeySet(UserKey, plays) == PlayingUserIds(df);
    Select(ToUserRow, kept)
  }

  // ---------------------------------------------------------------------
  // the timestamp column and the time table
  // ---------------------------------------------------------------------

  /** The start time of an event: its `ts` converted to a timestamp. */
  function StartTime(cal: Calendar, e: LogEvent): Timestamp
  {
    cal.fromEpochMillis(e.ts)
  }

  function Stamp(cal: Calendar, e: LogEvent): StampedEvent
  {
    StampedEvent(e, StartTime(cal, e))
  }

  /** `df.withColumn('timestamp', ...)`: every event, in order, with its
      start time attached. */
  function WithTimestamp(cal: Calendar, df: seq<LogEvent>): (r: seq<StampedEvent>)
    ensures |r| == |df| && forall i :: 0 <= i < |df| ==> r[i] == Stamp(cal, df[i])
    ensures forall p :: p in r <==> p.event in df && p.timestamp == StartTime(cal, p.event)
  {
    var r := Select((e: LogEvent) => Stamp(cal, e), df);
    assert forall e :: e in df ==> Stamp(cal, e) in r by {
      forall e | e in df ensures Stamp(cal, e) in r {
        var i :| 0 <= i < |df| && df[i] == e;
        assert r[i] == Stamp(cal, e);
      }
    }
    r
  }

  function TimeKey(p: StampedEvent): Timestamp { p.timestamp }

  /** The time-table row of a start time: the start time and its hour,
      day of month, month, year and day of week. */
  function TimeRowAt(cal: Calendar, t: Timestamp): TimeRow
  {
    TimeRow(t, cal.hour(t), cal.dayOfMonth(t), cal.month(t), cal.year(t), cal.dayOfWeek(t))
  }

  /** The distinct start times of plays. */
  ghost function PlayStartTimes(cal: Calendar, df: seq<LogEvent>): set<Timestamp>
  {
    set e | e in df && IsNextSong(e) :: StartTime(cal, e)
  }

  /** The time table: exactly one row per distinct start time of a play;
      every other column of a row is determined by its start time alone. */
  function TimeTable(cal: Calendar, df: seq<LogEvent>): (t: seq<TimeRow>)
    ensures forall i, j :: 0 <= i < j < |t| ==> t[i].startTime != t[j].startTime
    ensures forall row :: row in t ==> row == TimeRowAt(cal, row.startTime)
    ensures (set row | row in t :: row.startTime) == PlayStartTimes(cal, df)
    ensures |t| == |PlayStartTimes(cal, df)| <= |NextSongEvents(df)|
  {
    var stamped := WithTimestamp(cal, NextSongEvents(df));
    var kept := DropDuplicatesBy(TimeKey, stamped);
    var f := (p: StampedEvent) => TimeRowAt(cal, p.timestamp);
    TimeRowsOfPlays(cal, df, f, kept);
    Select(f, kept)
  }

  lemma TimeRowsOfPlays(cal: Calendar, df: seq<LogEvent>, f: StampedEvent -> TimeRow, kept: seq<StampedEvent>)
    requires forall p :: f(p) == TimeRowAt(cal, p.timestamp)
    requires DeduplicatedBy(TimeKey, WithTimestamp(cal, NextSongEvents(df)), kept)
    ensures var t := Select(f, kept);
      && (forall i, j :: 0 <= i < j < |t| ==> t[i].startTime != t[j].startTime)
      && (forall row :: row in t ==> row == TimeRowAt(cal, row.startTime))
      && (set row | row in t :: row.startTime) == PlayStartTimes(cal, df)
      && |t| == |PlayStartTimes(cal, df)| <= |NextSongEvents(df)|
  {
    var stamped := WithTimestamp(cal, NextSongEvents(df));
    var t := Select(f, kept);
    SelectDeduplicated(TimeKey, f, (r: TimeRow) => r.startTime, stamped, kept);
    StampedStartTimes(cal, df);
    forall row | row in t ensures row == TimeRowAt(cal, row.startTime) {
      var i :| 0 <= i < |t| && t[i] == row;
      assert row == f(kept[i]);
    }
  }

  /** The timestamps of the stamped plays are the start times of plays. */
  lemma StampedStartTimes(cal: Calendar, df: seq<LogEvent>)
    ensures KeySet(TimeKey, WithTimestamp(cal, NextSongEvents(df))) == PlayStartTimes(cal, df)
  {
    var stamped := WithTimestamp(cal, NextSongEvents(df));
    forall ts | ts in PlayStartTimes(cal, df) ensures ts in KeySet(TimeKey, stamped) {
      var e :| e in df && IsNextSong(e) && ts == StartTime(cal, e);
      assert Stamp(cal, e) in stamped;
    }
  }

  /** When no two distinct `ts` values of plays convert to the same
      timestamp, the time table has exactly one row per distinct `ts`. */
  lemma TimeTableRowPerTs(cal: Calendar, df: seq<LogEvent>)
    requires forall e1, e2 :: e1 in df && e2 in df && IsNextSong(e1) && IsNextSong(e2) && StartTime(cal, e1) == StartTime(cal, e2) ==> e1.ts == e2.ts
    ensures |TimeTable(cal, df)| == |set e | e in df && IsNextSong(e) :: e.ts|
  {
    PlayStartTimesSize(cal, df);
  }

  lemma PlayStartTimesSize(cal: Calendar, df: seq<LogEvent>)
    requires forall e1, e2 :: e1 in df && e2 in df && IsNextSong(e1) && IsNextSong(e2) && StartTime(cal, e1) == StartTime(cal, e2) ==> e1.ts == e2.ts
    ensures |PlayStartTimes(cal, df)| == |set e | e in df && IsNextSong(e) :: e.ts|
  {
    var tss := set e | e in df && IsNextSong(e) :: e.ts;
    var conv := cal.fromEpochMillis;
    var image := Image(conv, tss);
    assert PlayStartTimes(cal, df) == image by {
      forall ts | ts in image ensures ts in PlayStartTimes(cal, df) {
        var ms :| ms in tss && ts == conv(ms);
        var e :| e in df && IsNextSong(e) && e.ts == ms;
        assert ts == StartTime(cal, e);
      }
      forall ts | ts in PlayStartTimes(cal, df) ensures ts in image {
        var e :| e in df && IsNextSong(e) && ts == StartTime(cal, e);
        assert e.ts in tss;
      }
    }
    forall x, y | x in tss && y in tss && conv(x) == conv(y) ensures x == y {
      var e1 :| e1 in df && IsNextSong(e1) && e1.ts == x;
      var e2 :| e2 in df && IsNextSong(e2) && e2.ts == y;
      assert StartTime(cal, e1) == StartTime(cal, e2);
    }
    InjectiveImageSize(conv, tss);
    assert |image| == |tss|;
  }

  // ---------------------------------------------------------------------
  // the songplays table
  // ---------------------------------------------------------------------

  /** The join condition: artist, length and song of the event equal
      artist_name, duration and title of the song; a null on either side
      matches nothing. */
  predicate SongMatches(e: LogEvent, s: SongRecord)
    ensures SongMatches(e, s) ==> e.artist != None && e.length != None && e.song != None
    ensures SongMatches(e, s) <==>
      e.artist != None && e.length != None && e.song != None
      && e.artist == s.artistName && e.length == s.duration && e.song == s.title
  {
    SqlEquals(e.artist, s.artistName) && SqlEquals(e.length, s.duration) && SqlEquals(e.song, s.title)
  }

  predicate PlayMatches(p: StampedEvent, s: SongRecord)
  {
    SongMatches(p.event, s)
  }

  /** The song records an event matches; the song metadata is not
      deduplicated, so one event can match several records. */
  function CatalogMatches(e: LogEvent, songDf: seq<SongRecord>): seq<SongRecord>
  {
    Matches(SongMatches, e, songDf)
  }

  /** The songplays columns of one row of the join. */
  function ToSongplayRow(cal: Calendar, p: StampedEvent, m: Option<SongRecord>): SongplayRow
  {
    var e := p.event;
    SongplayRow(
      e.userId, e.level,
      if m.Some? then Some(m.value.songId) else None,
      if m.Some? then Some(m.value.artistId) else None,
      e.sessionId, e.location, e.userAgent,
      cal.year(p.timestamp), cal.month(p.timestamp))
  }

  /** The plays left-outer-joined to the song metadata. */
  function SongplaysJoin(cal: Calendar, df: seq<LogEvent>, songDf: seq<SongRecord>): seq<(StampedEvent, Option<SongRecord>)>
  {
    LeftOuterJoin(PlayMatches, WithTimestamp(cal, NextSongEvents(df)), songDf)
  }

  /** The songplays table: one row per row of the join; what the rows say
      is stated by the lemmas below. */
  function SongplaysTable(cal: Calendar, df: seq<LogEvent>, songDf: seq<SongRecord>): (t: seq<SongplayRow>)
    ensures |t| == |SongplaysJoin(cal, df, songDf)| >= |NextSongEvents(df)|
  {
    Select((j: (StampedEvent, Option<SongRecord>)) => ToSongplayRow(cal, j.0, j.1), SongplaysJoin(cal, df, songDf))
  }

  /** What a songplays row says about the play `e` it was built from: the
      copied event columns, the year and month of the play's start time,
      and either the ids of a song record the play matches, or nulls when
      the play matches no song record. */
  ghost predicate RecordsPlay(cal: Calendar, songDf: seq<SongRecord>, e: LogEvent, row: SongplayRow)
  {
    && row.userId == e.userId
    && row.level == e.level
    && row.sessionId == e.sessionId
    && row.location == e.location
    && row.userAgent == e.userAgent
    && row.year == cal.year(StartTime(cal, e))
    && row.month == cal.month(StartTime(cal, e))
    && (|| (exists s :: s in songDf && SongMatches(e, s) && row.songId == Some(s.songId) && row.artistId == Some(s.artistId))
        || (row.songId == None && row.artistId == None && forall s :: s in songDf ==> !SongMatches(e, s)))
  }

  /** The songplays row built from a stamped play and a song record it
      matches, or from the play alone when it matches none, records it. */
  lemma ToSongplayRowRecordsPlay(cal: Calendar, songDf: seq<SongRecord>, p: StampedEvent, m: Option<SongRecord>)
    requires p.timestamp == StartTime(cal, p.event)
    requires m.Some? ==> m.value in songDf && SongMatches(p.event, m.value)
    requires m.None? ==> forall s :: s in songDf ==> !SongMatches(p.event, s)
    ensures RecordsPlay(cal, songDf, p.event, ToSongplayRow(cal, p, m))
  {
    if m.Some? {
      var row := ToSongplayRow(cal, p, m);
      assert row.songId == Some(m.value.songId) && row.artistId == Some(m.value.artistId);
    }
  }

  /** A row of the join records the play on its left. */
  lemma JoinedRowRecordsPlay(cal: Calendar, df: seq<LogEvent>, songDf: seq<SongRecord>, j: (StampedEvent, Option<SongRecord>))
    requires j in SongplaysJoin(cal, df, songDf)
    ensures j.0.event in df && j.0.event.page == "NextSong"
    ensures RecordsPlay(cal, songDf, j.0.event, ToSongplayRow(cal, j.0, j.1))
  {
    var stamped := WithTimestamp(cal, NextSongEvents(df));
    LeftOuterJoinOrigin(PlayMatches, stamped, songDf);
    assert j.0 in stamped;
    if j.1.Some? {
      LeftOuterJoinMatched(PlayMatches, stamped, songDf, j.0, j.1.value);
      assert (j.0, Some(j.1.value)) in SongplaysJoin(cal, df, songDf);
      assert PlayMatches(j.0, j.1.value);
    } else {
      LeftOuterJoinUnmatched(PlayMatches, stamped, songDf, j.0);
      assert (j.0, None) in SongplaysJoin(cal, df, songDf);
      assert NoMatch(PlayMatches, j.0, songDf);
    }
    ToSongplayRowRecordsPlay(cal, songDf, j.0, j.1);
  }

  /** Every songplays row records a play of the log. In particular its
      song_id and artist_id are non-null only if a song record matches the
      play on artist, length and title, and then they are that record's. */
  lemma SongplaysRecordPlays(cal: Calendar, df: seq<LogEvent>, songDf: seq<SongRecord>)
    ensures forall row :: row in SongplaysTable(cal, df, songDf) ==>
              exists e :: e in df && e.page == "NextSong" && RecordsPlay(cal, songDf, e, row)
  {
    var joined := SongplaysJoin(cal, df, songDf);
    var t := SongplaysTable(cal, df, songDf);
    forall row | row in t ensures exists e :: e in df && e.page == "NextSong" && RecordsPlay(cal, songDf, e, row) {
      var i :| 0 <= i < |t| && t[i] == row;
      assert joined[i] in joined;
      JoinedRowRecordsPlay(cal, df, songDf, joined[i]);
    }
  }

  /** No play is lost: each play yields a songplays row recording it,
      one per matching song record with that record's ids, and one with
      null ids when no song record matches. */
  lemma SongplaysKeepPlays(cal: Calendar, df: seq<LogEvent>, songDf: seq<SongRecord>)
    ensures forall e, s :: e in df && e.page == "NextSong" && s in songDf && SongMatches(e, s) ==>
              exists row :: row in SongplaysTable(cal, df, songDf) && RecordsPlay(cal, songDf, e, row)
                && row.songId == Some(s.songId) && row.artistId == Some(s.artistId)
    ensures forall e :: e in df && e.page == "NextSong" && (forall s :: s in songDf ==> !SongMatches(e, s)) ==>
              exists row :: row in SongplaysTable(cal, df, songDf) && RecordsPlay(cal, songDf, e, row)
                && row.songId == None && row.artistId == None
  {
    forall e, s | e in df && e.page == "NextSong" && s in songDf && SongMatches(e, s)
      ensures exists row :: row in SongplaysTable(cal, df, songDf) && RecordsPlay(cal, songDf, e, row)
                && row.songId == Some(s.songId) && row.artistId == Some(s.artistId)
    {
      PlayKeptWith(cal, df, songDf, e, Some(s));
    }
    forall e | e in df && e.page == "NextSong" && (forall s :: s in songDf ==> !SongMatches(e, s))
      ensures exists row :: row in SongplaysTable(cal, df, songDf) && RecordsPlay(cal, songDf, e, row)
                && row.songId == None && row.artistId == None
    {
      PlayKeptWith(cal, df, songDf, e, None);
    }
  }

  /** A play, joined with a song record it matches or with nothing when
      it matches none, gives a songplays row recording it. */
  lemma PlayKeptWith(cal: Calendar, df: seq<LogEvent>, songDf: seq<SongRecord>, e: LogEvent, m: Option<SongRecord>)
    requires e in df && e.page == "NextSong"
    requires m.Some? ==> m.value in songDf && SongMatches(e, m.value)
    requires m.None? ==> forall s :: s in songDf ==> !SongMatches(e, s)
    ensures ToSongplayRow(cal, Stamp(cal, e), m) in SongplaysTable(cal, df, songDf)
    ensures RecordsPlay(cal, songDf, e, ToSongplayRow(cal, Stamp(cal, e), m))
  {
    var stamped := WithTimestamp(cal, NextSongEvents(df));
    var p := Stamp(cal, e);
    assert p in stamped;
    if m.Some? {
      LeftOuterJoinMatched(PlayMatches, stamped, songDf, p, m.value);
      assert PlayMatches(p, m.value);
    } else {
      LeftOuterJoinUnmatched(PlayMatches, stamped, songDf, p);
      assert NoMatch(PlayMatches, p, songDf);
    }
    assert (p, m) in SongplaysJoin(cal, df, songDf);
    SongplaysRowOf(cal, df, songDf, (p, m));
    ToSongplayRowRecordsPlay(cal, songDf, p, m);
  }

  /** Each row of the join gives its projection as a songplays row. */
  lemma SongplaysRowOf(cal: Calendar, df: seq<LogEvent>, songDf: seq<SongRecord>, j: (StampedEvent, Option<SongRecord>))
    requires j in SongplaysJoin(cal, df, songDf)
    ensures ToSongplayRow(cal, j.0, j.1) in SongplaysTable(cal, df, songDf)
  {
    var joined := SongplaysJoin(cal, df, songDf);
    var t := SongplaysTable(cal, df, songDf);
    var i :| 0 <= i < |joined| && joined[i] == j;
    assert t[i] == ToSongplayRow(cal, j.0, j.1);
  }

  /** With each play stamped, a play occurs among the stamped plays as
      often as in the log. */
  lemma WithTimestampMultiplicity(cal: Calendar, df: seq<LogEvent>, e: LogEvent)
    ensures multiset(WithTimestamp(cal, df))[Stamp(cal, e)] == multiset(df)[e]
  {
    ProjectionMultiplicity((x: LogEvent) => Stamp(cal, x), df, WithTimestamp(cal, df), e);
  }

  /** The row count of songplays: at least one row per play, exactly one
      per play when no play matches more than one song record, and more
      rows than plays as soon as one play matches two song records (the
      song metadata is joined without deduplication). */
  lemma SongplaysCount(cal: Calendar, df: seq<LogEvent>, songDf: seq<SongRecord>)
    ensures |SongplaysTable(cal, df, songDf)| >= |NextSongEvents(df)|
    ensures (forall e :: e in df && e.page == "NextSong" ==> |CatalogMatches(e, songDf)| <= 1) ==>
              |SongplaysTable(cal, df, songDf)| == |NextSongEvents(df)|
    ensures (exists e :: e in df && e.page == "NextSong" && |CatalogMatches(e, songDf)| >= 2) ==>
              |SongplaysTable(cal, df, songDf)| > |NextSongEvents(df)|
  {
    var stamped := WithTimestamp(cal, NextSongEvents(df));
    forall p | p in stamped ensures Matches(PlayMatches, p, songDf) == CatalogMatches(p.event, songDf) {
      MatchesAgree(PlayMatches, p, SongMatches, p.event, songDf);
    }
    LeftOuterJoinSize(PlayMatches, stamped, songDf);
    if e :| e in df && e.page == "NextSong" && |CatalogMatches(e, songDf)| >= 2 {
      assert Stamp(cal, e) in stamped;
    }
  }

  /** A play that matches no song record appears in the join exactly as
      often as in the log, each time with null song columns. */
  lemma SongplaysMissOnce(cal: Calendar, df: seq<LogEvent>, songDf: seq<SongRecord>, e: LogEvent)
    requires e.page == "NextSong"
    requires forall s :: s in songDf ==> !SongMatches(e, s)
    ensures multiset(SongplaysJoin(cal, df, songDf))[(Stamp(cal, e), None)] == multiset(df)[e]
  {
    var plays := NextSongEvents(df);
    LeftOuterJoinMissMultiplicity(PlayMatches, WithTimestamp(cal, plays), songDf, Stamp(cal, e));
    WithTimestampMultiplicity(cal, plays, e);
    NextSongMultiplicity(df, e);
  }

  /** A play that matches a song record is paired with it in the join once
      for every copy of the play in the log times every copy of the record
      in the song metadata: duplicate song records multiply the rows. */
  lemma SongplaysMatchMultiplicity(cal: Calendar, df: seq<LogEvent>, songDf: seq<SongRecord>, e: LogEvent, s: SongRecord)
    requires e.page == "NextSong"
    requires SongMatches(e, s)
    ensures multiset(SongplaysJoin(cal, df, songDf))[(Stamp(cal, e), Some(s))] == multiset(df)[e] * multiset(songDf)[s]
  {
    var plays := NextSongEvents(df);
    assert PlayMatches(Stamp(cal, e), s);
    LeftOuterJoinMatchMultiplicity(PlayMatches, WithTimestamp(cal, plays), songDf, Stamp(cal, e), s);
    WithTimestampMultiplicity(cal, plays, e);
    NextSongMultiplicity(df, e);
  }

  /** Every songplays row falls in a (year, month) partition that the time
      table also has: the start time of its play is a time-table row. */
  lemma SongplaysAgreeWithTime(cal: Calendar, df: seq<LogEvent>, songDf: seq<SongRecord>)
    ensures forall row :: row in SongplaysTable(cal, df, songDf) ==>
              exists tr :: tr in TimeTable(cal, df) && tr.year == row.year && tr.month == row.month
  {
    SongplaysRecordPlays(cal, df, songDf);
    var time := TimeTable(cal, df);
    forall row | row in SongplaysTable(cal, df, songDf)
      ensures exists tr :: tr in time && tr.year == row.year && tr.month == row.month
    {
      var e :| e in df && e.page == "NextSong" && RecordsPlay(cal, songDf, e, row);
      assert StartTime(cal, e) in PlayStartTimes(cal, df);
      assert StartTime(cal, e) in (set r | r in time :: r.startTime);
      var tr :| tr in time && tr.startTime == StartTime(cal, e);
      assert tr == TimeRowAt(cal, tr.startTime);
    }
  }

  // ---------------------------------------------------------------------
  // the whole job
  // ---------------------------------------------------------------------

  datatype LogTables = LogTables(users: seq<UserRow>, time: seq<TimeRow>, songplays: seq<SongplayRow>)

  /** The three tables of `process_log_data`. They fit together as a star
      schema: every user_id of songplays has a users row, and every
      (year, month) of songplays is that of a time row. */
  function ProcessLogData(cal: Calendar, df: seq<LogEvent>, songDf: seq<SongRecord>): (r: LogTables)
    ensures (set row | row in r.songplays :: row.userId) <= (set row | row in r.users :: row.userId)
    ensures forall row :: row in r.songplays ==>
              exists tr :: tr in r.time && tr.year == row.year && tr.month == row.month
  {
    SongplaysKnownUsers(cal, df, songDf);
    SongplaysAgreeWithTime(cal, df, songDf);
    LogTables(UsersTable(df), TimeTable(cal, df), SongplaysTable(cal, df, songDf))
  }

  /** Every user_id of songplays is the user_id of a users row. */
  lemma SongplaysKnownUsers(cal: Calendar, df: seq<LogEvent>, songDf: seq<SongRecord>)
    ensures (set row | row in SongplaysTable(cal, df, songDf) :: row.userId)
         <= (set row | row in UsersTable(df) :: row.userId)
  {
    var t := SongplaysTable(cal, df, songDf);
    var joined := SongplaysJoin(cal, df, songDf);
    var users := UsersTable(df);
    forall row | row in t ensures exists u :: u in users && u.userId == row.userId {
      var i :| 0 <= i < |t| && t[i] == row;
      assert joined[i] in joined;
      JoinedRowRecordsPlay(cal, df, songDf, joined[i]);
      var e := joined[i].0.event;
      assert row.userId == e.userId;
      assert e.userId in PlayingUserIds(df);
      var u :| u in users && u.userId == e.userId;
    }
  }
}
