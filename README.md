# Sparkify warehouse ETL: a Dafny model

This project models the transformation stages that run after the bulk load of a small
batch ETL job for a music-streaming warehouse. The job fills a star schema from two
staging tables:

- `staging_events_table` holds user activity events.
- `staging_songs_table` holds the song catalog.

It has two stages.

1. **The set-based stage.** `insert_tables` runs three `INSERT … SELECT` statements in
   order, committing after each one:
   - `songs` is a `SELECT DISTINCT` projection of the catalog;
   - `artists` is a `SELECT DISTINCT` projection of the catalog;
   - `songplays` is an inner join of the events with the catalog.
2. **The latest-state stage.** `process_staging_tables` reads the events ordered by `ts`
   descending and keeps the `NextSong` rows only. It then runs two passes, each with a
   seen-set, and commits after each pass:
   - the user pass inserts one `users` row per user id, on the id's first occurrence;
   - the time pass inserts one `time` row per distinct timestamp.

   Because the rows arrive newest first, the user row that gets in is the user's latest
   state.

The warehouse is a sequence of rows. What the job sends to it is a log of `Statement`s:
inserts and commits.

- `schema.dfy` (module `Schema`): the staging rows, the rows of the target tables and the
  statement log. A nullable column whose NULL changes behaviour is an `Option`.
- `first_wins.dfy` (module `FirstWins`): the reference definition of "first occurrence
  wins under a given order" (`FirstByKey`) and its properties. Both passes and SQL's
  `DISTINCT` are instances of it.
- `queries.dfy` (module `Queries`): the meaning of the SQL strings in the source:
  - the ordering promised by the events query;
  - the fact join;
  - the two `DISTINCT` projections;
  - the list of set-based inserts.
- `etl.dfy` (module `Etl`): the `NextSong` filter and the two frames as functions; the
  two passes as loops over a seen-set that append to the log; `insert_tables`; and the
  order of stages in `main`.

Representation choices:

- SQL `numeric` is exact. It is an integer count of 10^-10 units, so 390.00 is
  `3_900_000_000_000`. Join equality on durations is therefore exact equality.
- `double precision` latitude and longitude are opaque 64-bit patterns that are only
  compared for equality.
- In a join condition, SQL NULL equals nothing (`SqlEquals`). In `DISTINCT`, two NULLs
  count as the same value, so `DISTINCT` uses plain value equality of the `Option` values.
- The table the events query reads has no order of its own, and rows with equal `ts` can
  come back in any order. The answer `df` is therefore a parameter that is constrained by
  `IsSongPlayEventsResult`: it holds the same rows as the table, sorted by `ts` descending.
- The calendar decomposition of a timestamp into hour, day, ISO week, month, year and
  weekday is done by a library. It is the parameter `calendar`, so the model assumes
  nothing about it except that it is a function of `ts`.

The warehouse enforces the NOT NULL columns of the target tables. The model checks them
when a statement runs (`Rejected`):

- `songs.song_id` and `songs.artist_id` (sql_queries.py:27-28);
- `artists.artist_id` (sql_queries.py:36);
- `songplays.user_id`, `songplays.song_id` and `songplays.artist_id` (sql_queries.py:56-59).

A refused statement raises out of `insert_tables` and therefore out of `main`. The
statements committed before it stay, the refused one takes no effect, and
`process_staging_tables` never runs. The inputs that cause a refusal are:

- a catalog row with a NULL song id or artist id (songs);
- a catalog row with a NULL artist id (artists);
- a joined pair whose event has a NULL user id or whose catalog row has a NULL song id
  or artist id (songplays).

One might expect each fact row to join exactly one catalog entry. The code's inner join has
no such restriction: an event that matches several catalog entries yields one row per
entry, and an event that matches none yields no row. The model follows the code
(`EventFanOut`, `UnmatchedEventDropped`).

## Model

| member | source | states |
|---|---|---|
| Schema.IsPlay | etl.py:51 | the page test (also the page condition of the join, sql_queries.py:136): the page is exactly `NextSong`, and a NULL page fails it; used by the filter (`Plays`) and the join (`JoinsWith`) |
| Etl.Plays | etl.py:51 | a row is kept exactly when it is a row of the frame whose page is `NextSong` |
| Etl.PlaysCount | etl.py:51 | the filter keeps every `NextSong` row as many times as it occurs and drops every other row |
| Etl.PlaysKeepOrder | etl.py:48-51 | the filter keeps the `ts`-descending order of the events query's answer |
| Etl.PlaysAppend | etl.py:51 | the filter works row by row: filtering a concatenation is concatenating the filtered parts |
| Etl.NonPlaysIgnored | etl.py:51 | adding a non-`NextSong` row anywhere leaves every statement of `process_staging_tables` unchanged |
| Etl.UserFrame | etl.py:57-64 | the user columns of the rows whose user id is not NULL, in row order; characterised by `UserFrameAppend`, `UserFrameKeys` and `UserFrameAllKnown` |
| Etl.UserFrameAppend | etl.py:57-64 | the user frame is built row by row |
| Etl.UserFrameKeys | etl.py:57-64 | the user ids of the user frame are exactly the non-NULL user ids of the rows |
| Etl.UserFrameAllKnown | etl.py:57-64 | when no user id is NULL, the user frame is the user columns of every row, in order |
| Etl.TimeFrame | etl.py:78-83 | `ts` and its calendar parts for every filtered row, in row order; characterised by `TimeRowFromPlay`, `PlayGetsTimeRow` and `TimePassOnePerTimestamp` |
| Etl.UserPass | etl.py:68-74 | the seen-set loop issues one insert per row whose user id was not seen before, in row order, then one commit; the id joins the set on every row, as in the source |
| Etl.UserPassSnoc | etl.py:70-73 | one more row of the user frame: the pass keeps its user columns exactly when its user id is not NULL and it is the first row with that id |
| Etl.UserPassKeepsFirstEvent | etl.py:57-73 | a user row is inserted exactly when it is the user columns of a row with a non-NULL id that is the first row with that id |
| Etl.UserPassOnePerUser | etl.py:64-73 | at most one insert per user id; an insert for every user id of a `NextSong` row; every insert is the user columns of a `NextSong` row with that non-NULL id |
| Etl.LatestWins | etl.py:70-73 | on any answer of the `ts`-descending events query, each inserted user row comes from a `NextSong` row of that user, and no `NextSong` row of that user has a larger `ts` |
| Etl.FirstPlayIsNewest | etl.py:48-73 | on a `ts`-descending frame, the first `NextSong` row with a user id is no older than any other `NextSong` row with that id |
| Etl.FirstIsNewest | etl.py:70-73 | in a `ts`-descending sequence, the first row with a user id is no older than any later row with the same id |
| Etl.OneUserOneRow | etl.py:64-73 | when every `NextSong` row with a user id carries the same id, and one does, the user pass inserts exactly one row, for that id |
| Etl.LatestLevelExample | etl.py:48-73 | three plays of one user stored in any order, the newest on level paid: every answer of the events query gives one user row, with level paid |
| Etl.TimePass | etl.py:85-91 | the seen-set loop issues one insert per row whose start_time was not seen before, in row order, then one commit |
| Etl.TimeRowFromPlay | etl.py:78-83 | every inserted time row is the `ts` of a `NextSong` row together with the calendar parts of that `ts` |
| Etl.PlayGetsTimeRow | etl.py:82-90 | every `NextSong` row's `ts` gets a time row |
| Etl.TimePassOnePerTimestamp | etl.py:78-90 | exactly one time row per distinct `ts` of the `NextSong` rows, and its calendar parts depend on `ts` alone, whichever duplicate came first |
| Etl.NullUserIdOnlyTimed | etl.py:64 | a `NextSong` row with a NULL user id changes no user insert but still gets its time row, because the time frame comes from the filtered events and not from the user frame |
| Etl.LatestUsers | etl.py:48-73 | the user rows the user pass inserts: the first row per user id of the user frame of the filtered answer; characterised by `UserPassKeepsFirstEvent`, `UserPassOnePerUser` and `LatestWins` |
| Etl.DistinctTimes | etl.py:48-90 | the time rows the time pass inserts: the first row per `ts` of the time frame of the filtered answer; characterised by `TimeRowFromPlay`, `PlayGetsTimeRow` and `TimePassOnePerTimestamp` |
| Etl.ProcessLog | etl.py:44-91 | everything `process_staging_tables` issues: the user inserts, a commit, the time inserts, a commit; characterised by `CommitLayout`, `NonPlaysIgnored` and `NullUserIdOnlyTimed` |
| Etl.ProcessStagingTables | etl.py:44-91 | the statements are the user inserts, one commit, the time inserts, one commit |
| Etl.CommitsAfterEachPass | etl.py:68-91 | the commit layout of the two passes: a commit right after the `k` user inserts and one at the end, no other commit, user inserts before the first and time inserts between the two; proved of the log by `CommitLayout` |
| Etl.CommitLayout | etl.py:68-91 | in that log there is no other commit; every user insert comes before the first commit and every time insert lies between the two |
| Etl.CommitEach | etl.py:29-32 | each statement followed by its commit: twice as many entries as statements |
| Etl.CommitEachAt | etl.py:29-32 | statement `k` sits at position `2k` of that log and its commit at `2k+1` |
| Etl.InsertTables | etl.py:28-32 | runs the statements in list order with a commit after each; stops at the first one the warehouse refuses, keeping everything before it; reports the abort exactly when some statement was refused, and then the next statement is a refused one |
| Etl.SetBasedLayout | etl.py:28-32 | over the three set-based statements: no abort exactly when none is refused, and then the log is the three with their commits; after an abort, fewer than six entries and no user or time insert |
| Etl.CommittedUpToRefusal | etl.py:28-32 | the log after an abort: every statement before the first refused one with its commit, and nothing of the refused one or those after it |
| Etl.Run | etl.py:102-107 | completes exactly when none of the songs, artists and songplays inserts is refused; then the log is songs, commit, artists, commit, songplays, commit, followed by the statements of `process_staging_tables` on the events query's answer; otherwise the log is the inserts before the first refused one, each with its commit, and no user or time statement is issued |
| Etl.RunLayout | etl.py:102-107 | the same outcome and log, stated for the log built from the set-based stage's log and outcome |
| FirstWins.Keys | etl.py:68-73 | the key set holds exactly the keys of the rows, as the seen-set does after a scan |
| FirstWins.FirstByKey | etl.py:68-90 | the reference definition of "first occurrence wins": the rows whose key no earlier row has, in order; both passes are proved equal to it, `SelectDistinct` is defined by it, and it is characterised by `FirstByKeyMember`, `FirstByKeyDistinct` and `FirstByKeyKeys` |
| FirstWins.ScanStep | etl.py:70-73 | one more row of the scan adds its key to the seen-set and is kept exactly when its key was not yet seen |
| FirstWins.FirstByKeySnoc | etl.py:70-73 | an appended row is kept exactly when its key is not among the keys of the rows before it |
| FirstWins.NotInKeysIsFirst | etl.py:71 | the seen-set test: the last row is the first of its key exactly when its key is not among the earlier rows' keys |
| FirstWins.FirstByKeyMember | etl.py:68-73 | a row is kept exactly when it occurs at an index with no earlier row of the same key |
| FirstWins.FirstByKeyDistinct | etl.py:68-73 | no two kept rows share a key |
| FirstWins.FirstByKeyKeys | etl.py:68-73 | the kept rows have exactly the keys of all rows, so every key is kept once |
| FirstWins.FirstByKeyOneKey | etl.py:68-73 | when all rows share a key, only the first row is kept |
| FirstWins.KeysAppend | etl.py:68-73 | the keys of a concatenation are the union of the keys of its parts |
| Queries.IsSongPlayEventsResult | sql_queries.py:162 | an answer of the events query: the same rows as the table, as a multiset, in non-increasing `ts` order |
| Queries.InsertByTsDesc | sql_queries.py:162 | inserting a row into a `ts`-descending sequence keeps it descending and adds exactly that row |
| Queries.ConsSorted | sql_queries.py:162 | a row no older than the head of a descending sequence can be put in front of it |
| Queries.OrderByTsDesc | sql_queries.py:162 | an answer of the events query exists for every table |
| Queries.SqlEquals | sql_queries.py:133-135 | the join's `=`: true exactly when both sides are non-NULL and equal, so NULL matches nothing; used by `JoinsWith` |
| Queries.JoinsWith | sql_queries.py:131-136 | the join condition: artist, title and duration equal and non-NULL, page `NextSong`; characterised by `SongplayMembership` and the Hotel California lemmas |
| Queries.SongplayOf | sql_queries.py:119-128 | the fact row of a joined pair, column for column; characterised by `SongplaysForMember` and `SongplayMembership` |
| Queries.MatchingEntries | sql_queries.py:129-136 | each catalog entry that meets the join condition occurs as often as in the catalog, and every other entry not at all |
| Queries.SongplaysFor | sql_queries.py:119-136 | the fact rows of one event: the projection of each matching catalog entry, in catalog order; characterised by `SongplaysForMember` and `EventFanOut` |
| Queries.SongplayTableRows | sql_queries.py:116-137 | the rows of the fact insert, event by event; characterised by `SongplayMembership`, `SongplayRowsAppend`, `EventFanOut` and `UnmatchedEventDropped` |
| Queries.SongplaysForMember | sql_queries.py:119-136 | the fact rows of one event are exactly the projections of its joined pairs |
| Queries.SongplayMembership | sql_queries.py:116-137 | a fact row is produced exactly when some event and catalog entry agree on artist, title and exact duration (all non-NULL), the event's page is `NextSong`, and the row is their projection |
| Queries.SongplayRowsAppend | sql_queries.py:129-136 | the join works event by event |
| Queries.EventFanOut | sql_queries.py:129-136 | the number of fact rows one event adds equals the number of catalog entries it matches |
| Queries.UnmatchedEventDropped | sql_queries.py:131-136 | an event that matches no catalog entry adds no fact row |
| Queries.NoMatchNoRows | sql_queries.py:131-136 | an event with no matching catalog entry has no fact rows of its own |
| Queries.HotelCaliforniaJoinsOnce | sql_queries.py:130-136 | an Eagles "Hotel California" play of 390.00 seconds on page `NextSong` yields exactly one fact row with its catalog entry |
| Queries.HotelCaliforniaOtherPageDropped | sql_queries.py:136 | the same play on another page yields no fact row |
| Queries.HotelCaliforniaOtherLengthDropped | sql_queries.py:135 | the same play 390.01 seconds long yields no fact row: duration equality is exact |
| Queries.SelectDistinct | sql_queries.py:149-153 | the result has no duplicates and holds exactly the projections of the rows |
| Queries.ProjectSong | sql_queries.py:149-151 | the songs columns of a catalog row; characterised by `SongTableRows` and `SongsRejected` |
| Queries.ProjectArtist | sql_queries.py:153 | the artists columns of a catalog row; characterised by `ArtistTableRows` and `ArtistsRejected` |
| Queries.SongTableRows | sql_queries.py:149-151 | no duplicate songs tuple, and the set of tuples is the set of catalog projections |
| Queries.ArtistTableRows | sql_queries.py:153 | no duplicate artists tuple, and the set of tuples is the set of catalog projections |
| Queries.Execute | sql_queries.py:116-153 | each set-based query amounts to an insert of its rows into its own table, never a user or time insert |
| Queries.Statements | sql_queries.py:173 | one statement per query of the list, in list order; `InsertTableQueries` is that list: songs, artists, songplays |
| Queries.Rejected | sql_queries.py:26-65 | a statement is refused exactly when one of its rows has NULL in a NOT NULL column of its table; characterised by the three lemmas below |
| Queries.SongsRejected | sql_queries.py:26-32 | the songs insert is refused exactly when some catalog row has a NULL song id or artist id |
| Queries.ArtistsRejected | sql_queries.py:35-41 | the artists insert is refused exactly when some catalog row has a NULL artist id |
| Queries.SongplaysRejected | sql_queries.py:53-65 | the fact insert is refused exactly when some joined pair has a NULL user id on the event side or a NULL song id or artist id on the catalog side |
| Queries.JoinedNullRejected | sql_queries.py:53-65 | one direction: such a joined pair makes the fact insert refused |
| Queries.RejectedHasJoinedNull | sql_queries.py:53-65 | the other direction: a refused fact insert has such a joined pair |

## Left out

- Configuration reading and the database connection and cursor (sql_queries.py:5-6,
  etl.py:95-100, etl.py:108). These are I/O through a foreign library. Statements are
  appended to a log instead.
- `load_staging_tables` and the S3 `COPY` statements (etl.py:20-23,
  sql_queries.py:102-112). This is bulk transport from an external service: the staging
  tables are inputs.
- The DDL strings' primary keys, foreign keys and distribution choices. The warehouse
  enforces neither primary nor foreign keys, so the model never assumes it rejects a
  duplicate or a dangling reference. It does enforce NOT NULL, and that is modelled
  (`Rejected`).
- The NOT NULL columns `users.user_id`, `time.start_time` and `songplays.start_time`. The
  user frame drops NULL user ids (etl.py:64) and the model takes `ts` as always present,
  so no user, time or `start_time` value can be NULL.
- The numpy adapters (etl.py:12-15, etl.py:104-105). They convert types at the boundary
  and are modelled as the identity.
- The calendar decomposition: pandas `to_datetime` and the `.dt` fields, including ISO
  weeks (etl.py:54, etl.py:78). It is the parameter `calendar`.
- `song_select` (sql_queries.py:166). It is imported but never executed. The per-event
  songplay loop described in the doc comment of `process_staging_tables` does not exist in
  the code either.
- `songplay_id`, the warehouse-assigned identity column. The warehouse generates it.
- A NULL `ts`. The model takes `ts` as always present.
- Pandas stores a user id column that contains NULLs as floating point. The model keeps
  the ids as integers.
- Queries.JoinsWith: compares `varchar` values as exact strings. The warehouse ignores trailing
  blanks when it compares `varchar` values, so an artist `"Eagles "` would join
  `"Eagles"` and a page `'NextSong '` would pass the join's page test
  (sql_queries.py:133-136). The model does not capture this. The pandas filter at
  etl.py:51 is an exact comparison, and `IsPlay` models it exactly.
- Queries.SelectDistinct: treats two `varchar` values that differ only in trailing blanks as
  different, where the warehouse's `DISTINCT` merges them (sql_queries.py:151,
  sql_queries.py:153). The songs and artists rows are therefore exact for inputs without
  trailing blanks only.
- Equality of `double precision` values is exact equality of their bit patterns. Signed
  zeros and NaN are not modelled.
- Rerunning the job against tables that are not empty, and the `print` calls
  (etl.py:30, etl.py:92).
- Driver errors other than a NOT NULL refusal, such as a lost connection or an adapter
  type error. The model lets every statement that puts no NULL into a NOT NULL column
  succeed.
- The order in which the events query returns rows with equal `ts`. The warehouse does
  not fix it, and the model allows any order that `IsSongPlayEventsResult` admits.
