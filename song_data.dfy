/** `process_song_data`: the songs and artists tables, built from the song
    metadata by deduplicating on a key column and projecting. */
module SongData {
  import opened Frames
  import opened Schema

  function SongKey(s: SongRecord): string { s.songId }

  function ArtistKey(s: SongRecord): string { s.artistId }

  /** The songs-table columns of a song record. */
  function ToSongRow(s: SongRecord): SongRow
  {
    SongRow(s.songId, s.title, s.artistId, s.year, s.duration)
  }

  /** The artists-table columns of a song record. */
  function ToArtistRow(s: SongRecord): ArtistRow
  {
    ArtistRow(s.artistId, s.artistName, s.artistLocation, s.artistLatitude, s.artistLongitude)
  }

  ghost function SongIds(df: seq<SongRecord>): set<string>
  {
    set s | s in df :: s.songId
  }

  ghost function ArtistIds(df: seq<SongRecord>): set<string>
  {
    set s | s in df :: s.artistId
  }

  /** The songs table: exactly one row per distinct song_id of the input,
      each the projection of an input record with that song_id. */
  function SongsTable(df: seq<SongRecord>): (t: seq<SongRow>)
    ensures forall i, j :: 0 <= i < j < |t| ==> t[i].songId != t[j].songId
    ensures forall row :: row in t ==> exists s :: s in df && row == ToSongRow(s)
    ensures (set row | row in t :: row.songId) == SongIds(df)
    ensures |t| == |SongIds(df)| <= |df|
  {
    var kept := DropDuplicatesBy(SongKey, df);
    SelectDeduplicated(SongKey, ToSongRow, (r: SongRow) => r.songId, df, kept);
    assert KeySet(SongKey, df) == SongIds(df);
    Select(ToSongRow, kept)
  }

  /** The artists table: exactly one row per distinct artist_id of the
      input; its name, location, latitude and longitude all come from one
      input record with that artist_id. */
  function ArtistsTable(df: seq<SongRecord>): (t: seq<ArtistRow>)
    ensures forall i, j :: 0 <= i < j < |t| ==> t[i].artistId != t[j].artistId
    ensures forall row :: row in t ==> exists s :: s in df && row == ToArtistRow(s)
    ensures (set row | row in t :: row.artistId) == ArtistIds(df)
    ensures |t| == |ArtistIds(df)| <= |df|
  {
    var kept := DropDuplicatesBy(ArtistKey, df);
    SelectDeduplicated(ArtistKey, ToArtistRow, (r: ArtistRow) => r.artistId, df, kept);
    assert KeySet(ArtistKey, df) == ArtistIds(df);
    Select(ToArtistRow, kept)
  }

  datatype CatalogTables = CatalogTables(songs: seq<SongRow>, artists: seq<ArtistRow>)

  /** Both tables of `process_song_data`, built from the same input. Every
      artist_id of the songs table has a row in the artists table. */
  function ProcessSongData(df: seq<SongRecord>): (r: CatalogTables)
    ensures (set row | row in r.songs :: row.artistId) <= (set row | row in r.artists :: row.artistId)
  {
    SongsReferenceArtists(df);
    CatalogTables(SongsTable(df), ArtistsTable(df))
  }

  /** Every artist_id of the songs table is the artist_id of an artists
      row. The converse can fail: an artist whose only record shares its
      song_id with a record kept for another artist has no song row. */
  lemma SongsReferenceArtists(df: seq<SongRecord>)
    ensures (set row | row in SongsTable(df) :: row.artistId) <= (set row | row in ArtistsTable(df) :: row.artistId)
  {
    var artists := ArtistsTable(df);
    forall row | row in SongsTable(df) ensures exists a :: a in artists && a.artistId == row.artistId {
      var s :| s in df && row == ToSongRow(s);
      assert s.artistId in ArtistIds(df);
      var a :| a in artists && a.artistId == s.artistId;
    }
  }
}
