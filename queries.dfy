/** The statements of sql_queries.py that carry behaviour, evaluated over the
    staging tables held as sequences of rows: the ordering of the events query,
    the fact-table join, the two `SELECT DISTINCT` dimension inserts, and the
    NOT NULL columns that make the warehouse refuse an insert. */
module Queries {
  import opened Schema
  import opened FirstWins

  // ---------------------------------------------------------------------------
  // select_song_play_events: every staging event, ordered by ts descending

  predicate SortedByTsDesc(rows: seq<StagingEvent>) {
    forall i, j :: 0 <= i < j < |rows| ==> rows[i].ts >= rows[j].ts
  }

  /** `df` is an answer the warehouse may give to the events query over `table`:
      the same rows, in non-increasing `ts` order; rows with equal `ts` may come
      in any order. */
  predicate IsSongPlayEventsResult(table: seq<StagingEvent>, df: seq<StagingEvent>) {
    multiset(df) == multiset(table) && SortedByTsDesc(df)
  }

  function InsertByTsDesc(e: StagingEvent, sorted: seq<StagingEvent>): (r: seq<StagingEvent>)
    requires SortedByTsDesc(sorted)
    ensures SortedByTsDesc(r)
    ensures multiset(r) == multiset(sorted) + multiset{e}
    ensures r[0] == e || r[0] == sorted[0]
  {
    if sorted == [] || e.ts >= sorted[0].ts then
      ConsSorted(e, sorted);
      [e] + sorted
    else
      var rest := InsertByTsDesc(e, sorted[1..]);
      assert sorted == [sorted[0]] + sorted[1..];
      ConsSorted(sorted[0], rest);
      [sorted[0]] + rest
  }

  /** A row no older than the head of a sorted sequence can be put in front of it. */
  lemma ConsSorted(x: StagingEvent, s: seq<StagingEvent>)
    requires SortedByTsDesc(s)
    requires s == [] || s[0].ts <= x.ts
    ensures SortedByTsDesc([x] + s)
  {
    var r := [x] + s;
    forall i, j | 0 <= i < j < |r| ensures r[i].ts >= r[j].ts {
      if i == 0 {
        assert r[j] == s[j - 1];
      } else {
        assert r[i] == s[i - 1] && r[j] == s[j - 1];
      }
    }
  }

  /** One answer to the events query: the table sorted by ts descending. */
  function OrderByTsDesc(table: seq<StagingEvent>): (df: seq<StagingEvent>)
    ensures IsSongPlayEventsResult(table, df)
  {
    if table == [] then []
    else
      assert table == [table[0]] + table[1..];
      InsertByTsDesc(table[0], OrderByTsDesc(table[1..]))
  }

  // ---------------------------------------------------------------------------
  // songplay_table_insert: staging events joined with the staging catalog

  /** SQL `=` in a join condition: it holds only when neither side is NULL. */
  predicate SqlEquals<T(==)>(a: Option<T>, b: Option<T>) {
    a.Some? && b.Some? && a.value == b.value
  }

  /** The join condition of the fact insert: equal artist name, equal title,
      equal duration (exact numeric equality) and a `NextSong` page. */
  predicate JoinsWith(e: StagingEvent, c: CatalogEntry) {
    SqlEquals(e.artist, c.artistName) && SqlEquals(c.title, e.song)
    && SqlEquals(c.duration, e.length) && IsPlay(e)
  }

  /** The fact row projected from a joined pair. */
  function SongplayOf(e: StagingEvent, c: CatalogEntry): SongplayRow {
    SongplayRow(e.ts, e.userId, e.level, c.songId, c.artistId, e.sessionId, e.location, e.userAgent)
  }

  /** The catalog entries an event joins with, each as often as it occurs in the catalog. */
  function MatchingEntries(e: StagingEvent, catalog: seq<CatalogEntry>): (m: seq<CatalogEntry>)
    ensures forall c :: multiset(m)[c] == if JoinsWith(e, c) then multiset(catalog)[c] else 0
    decreases |catalog|
  {
    if catalog == [] then []
    else
      var init, c := catalog[..|catalog| - 1], catalog[|catalog| - 1];
      assert catalog == init + [c];
      MatchingEntries(e, init) + (if JoinsWith(e, c) then [c] else [])
  }

  /** The fact rows one event contributes: one per matching catalog entry. */
  function SongplaysFor(e: StagingEvent, catalog: seq<CatalogEntry>): seq<SongplayRow> {
    var m := MatchingEntries(e, catalog);
    seq(|m|, k requires 0 <= k < |m| => SongplayOf(e, m[k]))
  }

  /** The rows `songplay_table_insert` adds, event by event. */
  function SongplayTableRows(events: seq<StagingEvent>, catalog: seq<CatalogEntry>): seq<SongplayRow> {
    if events == [] then [] else SongplaysFor(events[0], catalog) + SongplayTableRows(events[1..], catalog)
  }

  /** The fact rows of one event are the projections of exactly its joined pairs. */
  lemma SongplaysForMember(e: StagingEvent, catalog: seq<CatalogEntry>, r: SongplayRow)
    ensures r in SongplaysFor(e, catalog) <==>
      exists j :: 0 <= j < |catalog| && JoinsWith(e, catalog[j]) && r == SongplayOf(e, catalog[j])
  {
    var m := MatchingEntries(e, catalog);
    var rows := SongplaysFor(e, catalog);
    if r in rows {
      var k :| 0 <= k < |rows| && rows[k] == r;
      assert m[k] in multiset(m);
      assert m[k] in multiset(catalog);
      var j :| 0 <= j < |catalog| && catalog[j] == m[k];
      assert JoinsWith(e, catalog[j]) && r == SongplayOf(e, catalog[j]);
    }
    if exists j :: 0 <= j < |catalog| && JoinsWith(e, catalog[j]) && r == SongplayOf(e, catalog[j]) {
      var j :| 0 <= j < |catalog| && JoinsWith(e, catalog[j]) && r == SongplayOf(e, catalog[j]);
      assert catalog[j] in multiset(catalog);
      assert catalog[j] in multiset(m);
      var k :| 0 <= k < |m| && m[k] == catalog[j];
      assert rows[k] == r;
    }
  }

  /** A fact row is produced iff some (event, catalog entry) pair satisfies the
      join condition, and it carries the event's and the entry's fields. */
  lemma {:induction false} SongplayMembership(events: seq<StagingEvent>, catalog: seq<CatalogEntry>, r: SongplayRow)
    ensures r in SongplayTableRows(events, catalog) <==>
      exists i, j :: 0 <= i < |events| && 0 <= j < |catalog|
        && JoinsWith(events[i], catalog[j]) && r == SongplayOf(events[i], catalog[j])
  {
    if events != [] {
      var e, rest := events[0], events[1..];
      SongplayMembership(rest, catalog, r);
      SongplaysForMember(e, catalog, r);
      if r in SongplaysFor(e, catalog) {
        var j :| 0 <= j < |catalog| && JoinsWith(e, catalog[j]) && r == SongplayOf(e, catalog[j]);
        assert events[0] == e;
      } else if r in SongplayTableRows(rest, catalog) {
        var i, j :| 0 <= i < |rest| && 0 <= j < |catalog|
          && JoinsWith(rest[i], catalog[j]) && r == SongplayOf(rest[i], catalog[j]);
        assert events[i + 1] == rest[i];
      }
      if exists i, j :: (0 <= i < |events| && 0 <= j < |catalog|
          && JoinsWith(events[i], catalog[j]) && r == SongplayOf(events[i], catalog[j]))
      {
        var i, j :| 0 <= i < |events| && 0 <= j < |catalog|
          && JoinsWith(events[i], catalog[j]) && r == SongplayOf(events[i], catalog[j]);
        if i > 0 {
          assert rest[i - 1] == events[i];
        }
      }
    }
  }

  /** Events contribute their fact rows independently of each other. */
  lemma {:induction false} SongplayRowsAppend(a: seq<StagingEvent>, b: seq<StagingEvent>, catalog: seq<CatalogEntry>)
    ensures SongplayTableRows(a + b, catalog) == SongplayTableRows(a, catalog) + SongplayTableRows(b, catalog)
  {
    if a == [] {
      assert a + b == b;
    } else {
      assert (a + b)[0] == a[0] && (a + b)[1..] == a[1..] + b;
      SongplayRowsAppend(a[1..], b, catalog);
    }
  }

  /** Join fan-out: an event adds one fact row per matching catalog entry, so
      an entry listed twice in the catalog yields two rows. */
  lemma EventFanOut(before: seq<StagingEvent>, e: StagingEvent, after: seq<StagingEvent>, catalog: seq<CatalogEntry>)
    ensures SongplayTableRows(before + [e] + after, catalog)
      == SongplayTableRows(before, catalog) + SongplaysFor(e, catalog) + SongplayTableRows(after, catalog)
    ensures |SongplayTableRows(before + [e] + after, catalog)|
      == |SongplayTableRows(before + after, catalog)| + |MatchingEntries(e, catalog)|
  {
    var rb, re, ra := SongplayTableRows(before, catalog), SongplaysFor(e, catalog), SongplayTableRows(after, catalog);
    calc {
      SongplayTableRows(before + [e] + after, catalog);
      { SongplayRowsAppend(before + [e], after, catalog); }
      SongplayTableRows(before + [e], catalog) + ra;
      { SongplayRowsAppend(before, [e], catalog); SongplayRowsSingle(e, catalog); }
      rb + re + ra;
    }
    SongplayRowsAppend(before, after, catalog);
  }

  lemma SongplayRowsSingle(e: StagingEvent, catalog: seq<CatalogEntry>)
    ensures SongplayTableRows([e], catalog) == SongplaysFor(e, catalog)
  {
    assert [e][1..] == [];
    var re := SongplaysFor(e, catalog);
    assert re + [] == re;
  }

  /** An event that joins with no catalog entry is dropped without trace. */
  lemma UnmatchedEventDropped(before: seq<StagingEvent>, e: StagingEvent, after: seq<StagingEvent>, catalog: seq<CatalogEntry>)
    requires forall c :: c in catalog ==> !JoinsWith(e, c)
    ensures SongplayTableRows(before + [e] + after, catalog) == SongplayTableRows(before + after, catalog)
  {
    NoMatchNoRows(e, catalog);
    var rb, ra := SongplayTableRows(before, catalog), SongplayTableRows(after, catalog);
    calc {
      SongplayTableRows(before + [e] + after, catalog);
      { EventFanOut(before, e, after, catalog); }
      rb + SongplaysFor(e, catalog) + ra;
      rb + [] + ra;
      { assert rb + [] == rb; }
      rb + ra;
      { SongplayRowsAppend(before, after, catalog); }
      SongplayTableRows(before + after, catalog);
    }
  }

  lemma NoMatchNoRows(e: StagingEvent, catalog: seq<CatalogEntry>)
    requires forall c :: c in catalog ==> !JoinsWith(e, c)
    ensures SongplaysFor(e, catalog) == []
  {
  }

  /** An Eagles "Hotel California" play of 390.00 seconds joins the catalog entry
      of that track and duration once. */
  lemma HotelCaliforniaJoinsOnce()
    ensures SongplayTableRows([HotelCaliforniaPlay(3_900_000_000_000, NextSong)], [HotelCaliforniaEntry()])
      == [SongplayOf(HotelCaliforniaPlay(3_900_000_000_000, NextSong), HotelCaliforniaEntry())]
  {
    var c := HotelCaliforniaEntry();
    var hit := HotelCaliforniaPlay(3_900_000_000_000, NextSong);
    assert JoinsWith(hit, c);
    assert MatchingEntries(hit, [c]) == [c] by {
      assert [c][..0] == [];
    }
    SongplayRowsSingle(hit, [c]);
  }

  /** The same play on a page other than `NextSong` joins nothing. */
  lemma HotelCaliforniaOtherPageDropped()
    ensures SongplayTableRows([HotelCaliforniaPlay(3_900_000_000_000, "Home")], [HotelCaliforniaEntry()]) == []
  {
    var c := HotelCaliforniaEntry();
    var miss := HotelCaliforniaPlay(3_900_000_000_000, "Home");
    assert miss.page != Some(NextSong) by {
      assert |"Home"| != |NextSong|;
    }
    NoMatchNoRows(miss, [c]);
    SongplayRowsSingle(miss, [c]);
  }

  /** The same play 390.01 seconds long joins nothing: duration equality is exact. */
  lemma HotelCaliforniaOtherLengthDropped()
    ensures SongplayTableRows([HotelCaliforniaPlay(3_900_100_000_000, NextSong)], [HotelCaliforniaEntry()]) == []
  {
    var c := HotelCaliforniaEntry();
    var miss := HotelCaliforniaPlay(3_900_100_000_000, NextSong);
    assert !SqlEquals(c.duration, miss.length);
    NoMatchNoRows(miss, [c]);
    SongplayRowsSingle(miss, [c]);
  }

  /** An Eagles "Hotel California" event with the given length and page. */
  function HotelCaliforniaPlay(length: Numeric, page: string): StagingEvent {
    StagingEvent(Some("Eagles"), None, None, None, None, None, Some(length), None, None, None,
                 Some(page), None, None, Some("Hotel California"), None, 0, None, Some(1))
  }

  /** The catalog entry of "Hotel California", 390.00 seconds long. */
  function HotelCaliforniaEntry(): CatalogEntry {
    CatalogEntry(Some(1), Some("AR1"), None, None, None, Some("Eagles"), Some("SO1"), Some("Hotel California"),
                 Some(3_900_000_000_000), Some(1976))
  }

  // ---------------------------------------------------------------------------
  // song_table_insert, artist_table_insert: SELECT DISTINCT projections

  /** `SELECT DISTINCT proj(row)`: each projected tuple once, NULLs compared as equal. */
  function SelectDistinct<T, K(==, !new)>(rows: seq<T>, proj: T -> K): (r: seq<K>)
    ensures forall i, j :: 0 <= i < j < |r| ==> r[i] != r[j]
    ensures forall k :: k in r <==> k in Keys(rows, proj)
  {
    var kept := FirstByKey(rows, proj);
    FirstByKeyDistinct(rows, proj);
    FirstByKeyKeys(rows, proj);
    var r := seq(|kept|, i requires 0 <= i < |kept| => proj(kept[i]));
    assert forall k :: k in r <==> k in Keys(kept, proj) by {
      forall k | k in Keys(kept, proj) ensures k in r {
        var i :| 0 <= i < |kept| && proj(kept[i]) == k;
        assert r[i] == k;
      }
    }
    r
  }

  function ProjectSong(c: CatalogEntry): SongRow {
    SongRow(c.songId, c.title, c.artistId, c.duration, c.year)
  }

  function ProjectArtist(c: CatalogEntry): ArtistRow {
    ArtistRow(c.artistId, c.artistName, c.artistLocation, c.artistLatitude, c.artistLongitude)
  }

  /** The rows `song_table_insert` adds: no tuple twice, and exactly the tuples
      projected from some staging catalog row. */
  function SongTableRows(catalog: seq<CatalogEntry>): (r: seq<SongRow>)
    ensures forall i, j :: 0 <= i < j < |r| ==> r[i] != r[j]
    ensures forall s :: s in r <==> exists c :: c in catalog && ProjectSong(c) == s
  {
    var r := SelectDistinct(catalog, ProjectSong);
    assert forall s :: s in r ==> exists c :: c in catalog && ProjectSong(c) == s by {
      forall s | s in r ensures exists c :: c in catalog && ProjectSong(c) == s {
        var i :| 0 <= i < |catalog| && ProjectSong(catalog[i]) == s;
        assert catalog[i] in catalog;
      }
    }
    r
  }

  /** The rows `artist_table_insert` adds: no tuple twice, and exactly the
      tuples projected from some staging catalog row. */
  function ArtistTableRows(catalog: seq<CatalogEntry>): (r: seq<ArtistRow>)
    ensures forall i, j :: 0 <= i < j < |r| ==> r[i] != r[j]
    ensures forall a :: a in r <==> exists c :: c in catalog && ProjectArtist(c) == a
  {
    var r := SelectDistinct(catalog, ProjectArtist);
    assert forall a :: a in r ==> exists c :: c in catalog && ProjectArtist(c) == a by {
      forall a | a in r ensures exists c :: c in catalog && ProjectArtist(c) == a {
        var i :| 0 <= i < |catalog| && ProjectArtist(catalog[i]) == a;
        assert catalog[i] in catalog;
      }
    }
    r
  }

  // ---------------------------------------------------------------------------
  // insert_table_queries

  datatype InsertQuery = SongTableInsert | ArtistTableInsert | SongplayTableInsert

  /** The set-based inserts, in the order the job runs them. */
  const InsertTableQueries: seq<InsertQuery> := [SongTableInsert, ArtistTableInsert, SongplayTableInsert]

  /** The statement a set-based insert amounts to over the given staging tables. */
  function Execute(q: InsertQuery, events: seq<StagingEvent>, catalog: seq<CatalogEntry>): (s: Statement)
    ensures s.InsertSongs? || s.InsertArtists? || s.InsertSongplays?
  {
    match q
    case SongTableInsert => InsertSongs(SongTableRows(catalog))
    case ArtistTableInsert => InsertArtists(ArtistTableRows(catalog))
    case SongplayTableInsert => InsertSongplays(SongplayTableRows(events, catalog))
  }

  /** The statements of a list of set-based inserts, in list order. */
  function Statements(queries: seq<InsertQuery>, events: seq<StagingEvent>, catalog: seq<CatalogEntry>): (r: seq<Statement>)
    ensures |r| == |queries|
  {
    seq(|queries|, k requires 0 <= k < |queries| => Execute(queries[k], events, catalog))
  }

  // ---------------------------------------------------------------------------
  // NOT NULL columns of the target tables

  /** Some row of the statement puts NULL into a NOT NULL column, so the warehouse
      refuses the whole statement: songs.song_id and songs.artist_id
      (sql_queries.py:27-28), artists.artist_id (sql_queries.py:36), and
      songplays.user_id, song_id and artist_id (sql_queries.py:56-59). The
      NOT NULL columns users.user_id and time.start_time never receive NULL:
      the user pass skips NULL ids and `ts` is never NULL. */
  predicate Rejected(s: Statement) {
    match s
    case InsertSongs(rows) => exists i :: 0 <= i < |rows| && (rows[i].songId.None? || rows[i].artistId.None?)
    case InsertArtists(rows) => exists i :: 0 <= i < |rows| && rows[i].artistId.None?
    case InsertSongplays(rows) =>
      exists i :: 0 <= i < |rows| && (rows[i].userId.None? || rows[i].songId.None? || rows[i].artistId.None?)
    case _ => false
  }

  /** The songs insert is refused exactly when a catalog row has a NULL song id or artist id. */
  lemma SongsRejected(catalog: seq<CatalogEntry>)
    ensures Rejected(InsertSongs(SongTableRows(catalog)))
      <==> exists c :: c in catalog && (c.songId.None? || c.artistId.None?)
  {
    var r := SongTableRows(catalog);
    if exists c :: c in catalog && (c.songId.None? || c.artistId.None?) {
      var c :| c in catalog && (c.songId.None? || c.artistId.None?);
      assert ProjectSong(c) in r;
      var i :| 0 <= i < |r| && r[i] == ProjectSong(c);
    }
    if Rejected(InsertSongs(r)) {
      var i :| 0 <= i < |r| && (r[i].songId.None? || r[i].artistId.None?);
      assert r[i] in r;
      var c :| c in catalog && ProjectSong(c) == r[i];
    }
  }

  /** The artists insert is refused exactly when a catalog row has a NULL artist id. */
  lemma ArtistsRejected(catalog: seq<CatalogEntry>)
    ensures Rejected(InsertArtists(ArtistTableRows(catalog)))
      <==> exists c :: c in catalog && c.artistId.None?
  {
    var r := ArtistTableRows(catalog);
    if exists c :: c in catalog && c.artistId.None? {
      var c :| c in catalog && c.artistId.None?;
      assert ProjectArtist(c) in r;
      var i :| 0 <= i < |r| && r[i] == ProjectArtist(c);
    }
    if Rejected(InsertArtists(r)) {
      var i :| 0 <= i < |r| && r[i].artistId.None?;
      assert r[i] in r;
      var c :| c in catalog && ProjectArtist(c) == r[i];
    }
  }

  /** The fact insert is refused exactly when some joined pair has a NULL user id
      on the event side or a NULL song id or artist id on the catalog side. */
  lemma SongplaysRejected(events: seq<StagingEvent>, catalog: seq<CatalogEntry>)
    ensures Rejected(InsertSongplays(SongplayTableRows(events, catalog))) <==>
      exists i, j :: 0 <= i < |events| && 0 <= j < |catalog| && JoinsWith(events[i], catalog[j])
        && (events[i].userId.None? || catalog[j].songId.None? || catalog[j].artistId.None?)
  {
    if exists i, j :: 0 <= i < |events| && 0 <= j < |catalog| && JoinsWith(events[i], catalog[j])
        && (events[i].userId.None? || catalog[j].songId.None? || catalog[j].artistId.None?) {
      var i, j :| 0 <= i < |events| && 0 <= j < |catalog| && JoinsWith(events[i], catalog[j])
        && (events[i].userId.None? || catalog[j].songId.None? || catalog[j].artistId.None?);
      JoinedNullRejected(events, catalog, i, j);
    }
    if Rejected(InsertSongplays(SongplayTableRows(events, catalog))) {
      RejectedHasJoinedNull(events, catalog);
    }
  }

  /** A joined pair with a NULL in a NOT NULL fact column puts that NULL into the fact insert. */
  lemma JoinedNullRejected(events: seq<StagingEvent>, catalog: seq<CatalogEntry>, i: int, j: int)
    requires 0 <= i < |events| && 0 <= j < |catalog| && JoinsWith(events[i], catalog[j])
    requires events[i].userId.None? || catalog[j].songId.None? || catalog[j].artistId.None?
    ensures Rejected(InsertSongplays(SongplayTableRows(events, catalog)))
  {
    var r := SongplayTableRows(events, catalog);
    var row := SongplayOf(events[i], catalog[j]);
    SongplayMembership(events, catalog, row);
    var k :| 0 <= k < |r| && r[k] == row;
  }

  /** A NULL in a NOT NULL column of the fact insert comes from a joined pair. */
  lemma RejectedHasJoinedNull(events: seq<StagingEvent>, catalog: seq<CatalogEntry>)
    requires Rejected(InsertSongplays(SongplayTableRows(events, catalog)))
    ensures exists i, j :: 0 <= i < |events| && 0 <= j < |catalog| && JoinsWith(events[i], catalog[j])
              && (events[i].userId.None? || catalog[j].songId.None? || catalog[j].artistId.None?)
  {
    var r := SongplayTableRows(events, catalog);
    var k :| 0 <= k < |r| && (r[k].userId.None? || r[k].songId.None? || r[k].artistId.None?);
    SongplayMembership(events, catalog, r[k]);
  }

}
