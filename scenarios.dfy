/** Two small runs of the job worked out on concrete input: a log with a
    non-play action in it, and a play that matches a song record. */
module Scenarios {
  import opened Options
  import opened Schema
  import opened Frames
  import opened LogData

  /** A log event with only its user, page and `ts` of interest. */
  function Action(userId: string, page: string, ts: int): LogEvent
  {
    LogEvent(None, None, None, None, None, "free", None, page, 0, None, ts, None, userId)
  }

  /** Two plays by u1 and a visit of the home page by u2. */
  function MixedLog(): seq<LogEvent>
  {
    [Action("u1", "NextSong", 1000), Action("u1", "NextSong", 2000), Action("u2", "Home", 1500)]
  }

  lemma MixedLogPlays()
    ensures NextSongEvents(MixedLog()) == MixedLog()[..2]
  {
    var df := MixedLog();
    assert df[1..][1..][1..] == [];
  }

  /** The log above yields one user row, for u1: u2 only visited the
      home page. */
  lemma MixedLogUsers()
    ensures |UsersTable(MixedLog())| == 1 && UsersTable(MixedLog())[0].userId == "u1"
  {
    var df := MixedLog();
    MixedLogPlays();
    var plays := NextSongEvents(df);
    assert forall e :: e in plays ==> e.userId == "u1";
    assert PlayingUserIds(df) == {"u1"} by {
      assert df[0] in plays;
    }
    var t := UsersTable(df);
    assert t[0] in t;
  }

  /** One time row per distinct play time: two, when the two play times
      convert to different timestamps. */
  lemma MixedLogTime(cal: Calendar)
    requires cal.fromEpochMillis(1000) != cal.fromEpochMillis(2000)
    ensures |TimeTable(cal, MixedLog())| == 2
  {
    var df := MixedLog();
    MixedLogPlays();
    assert PlayStartTimes(cal, df) == {cal.fromEpochMillis(1000), cal.fromEpochMillis(2000)} by {
      assert df[0] in df && df[1] in df;
      assert StartTime(cal, df[0]) == cal.fromEpochMillis(1000);
      assert StartTime(cal, df[1]) == cal.fromEpochMillis(2000);
    }
  }

  /** An event without an artist matches no song record. */
  lemma NoArtistNoMatch(e: LogEvent, songDf: seq<SongRecord>)
    requires e.artist == None
    ensures CatalogMatches(e, songDf) == []
  {
    NoMatchNoMatches(SongMatches, e, songDf);
  }

  /** Whatever the song metadata, the log above gives one songplays row
      per play, and none for the home-page visit: its plays have no
      artist, so they match no song record. */
  lemma MixedLogSongplays(cal: Calendar, songDf: seq<SongRecord>)
    ensures |SongplaysTable(cal, MixedLog(), songDf)| == 2
    ensures forall row :: row in SongplaysTable(cal, MixedLog(), songDf) ==> row.userId == "u1"
  {
    var df := MixedLog();
    MixedLogPlays();
    forall e | e in df && e.page == "NextSong" ensures |CatalogMatches(e, songDf)| <= 1 {
      NoArtistNoMatch(e, songDf);
    }
    SongplaysCount(cal, df, songDf);
    SongplaysRecordPlays(cal, df, songDf);
  }

  /** A play of "Song A" by "Artist X" lasting `d`, against a song record
      with that title, artist name and duration: the songplays row carries
      the record's song_id and artist_id. */
  lemma MatchingPlayGetsIds(cal: Calendar, d: Double)
    ensures var song := SongRecord("S1", Some("Song A"), "P1", 0, Some(d), Some("Artist X"), None, None, None);
      var play := LogEvent(Some("Artist X"), None, None, None, Some(d), "free", None, "NextSong", 0, Some("Song A"), 1000, None, "u1");
      var t := SongplaysTable(cal, [play], [song]);
      |t| == 1 && t[0].songId == Some("S1") && t[0].artistId == Some("P1")
  {
    var song := SongRecord("S1", Some("Song A"), "P1", 0, Some(d), Some("Artist X"), None, None, None);
    var play := LogEvent(Some("Artist X"), None, None, None, Some(d), "free", None, "NextSong", 0, Some("Song A"), 1000, None, "u1");
    assert SongMatches(play, song);
    assert CatalogMatches(play, [song]) == [song];
    SongplaysCount(cal, [play], [song]);
    SongplaysRecordPlays(cal, [play], [song]);
    var t := SongplaysTable(cal, [play], [song]);
    assert t[0] in t;
  }
}
