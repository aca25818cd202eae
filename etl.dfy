/** The latest-state processor (`process_staging_tables`), the set-based stage
    (`insert_tables`) and the order in which the job runs its stages. Statements
    are not sent anywhere: each step returns the statements it issues, in order. */
module Etl {
  import opened Schema
  import opened FirstWins
  import opened Queries

  // ---------------------------------------------------------------------------
  // The data frames of process_staging_tables

  /** The `page == 'NextSong'` filter on the events frame. */
  function Plays(df: seq<StagingEvent>): (p: seq<StagingEvent>)
    ensures forall e :: e in p <==> e in df && IsPlay(e)
  {
    if df == [] then [] else (if IsPlay(df[0]) then [df[0]] else []) + Plays(df[1..])
  }

  function ProjectUser(e: StagingEvent): UserRow
    requires e.userId.Some?
  {
    UserRow(e.userId.value, e.firstName, e.lastName, e.gender, e.level)
  }

  /** The user frame: the user columns of every row whose user id is not NULL. */
  function UserFrame(p: seq<StagingEvent>): seq<UserRow>
    decreases |p|
  {
    if p == [] then []
    else
      var init, e := p[..|p| - 1], p[|p| - 1];
      UserFrame(init) + (if e.userId.Some? then [ProjectUser(e)] else [])
  }

  /** The time frame: start_time and its calendar parts for every row. The
      calendar decomposition is a parameter; its only property used is that it
      is a function of the timestamp. */
  function TimeFrame(p: seq<StagingEvent>, calendar: Timestamp -> CalendarParts): seq<TimeRow> {
    seq(|p|, i requires 0 <= i < |p| => TimeRow(p[i].ts, calendar(p[i].ts)))
  }

  function UserKey(u: UserRow): int { u.userId }

  function StartTime(t: TimeRow): Timestamp { t.startTime }

  function InsertUsers(users: seq<UserRow>): seq<Statement> {
    seq(|users|, i requires 0 <= i < |users| => InsertUser(users[i]))
  }

  function InsertTimes(times: seq<TimeRow>): seq<Statement> {
    seq(|times|, i requires 0 <= i < |times| => InsertTime(times[i]))
  }

  // ---------------------------------------------------------------------------
  // The two passes

  /** The user pass: insert a row the first time its user id is seen, then commit. */
  method UserPass(userDf: seq<UserRow>) returns (issued: seq<Statement>)
    ensures issued == InsertUsers(FirstByKey(userDf, UserKey)) + [Commit]
  {
    var currentUsers: set<int> := {};
    issued := [];
    for i := 0 to |userDf|
      invariant currentUsers == Keys(userDf[..i], UserKey)
      invariant issued == InsertUsers(FirstByKey(userDf[..i], UserKey))
    {
      var row := userDf[i];
      ScanStep(userDf, UserKey, i);
      if row.userId !in currentUsers {
        InsertUsersSnoc(FirstByKey(userDf[..i], UserKey), row);
        issued := issued + [InsertUser(row)];
      } else {
        assert FirstByKey(userDf[..i], UserKey) + [] == FirstByKey(userDf[..i], UserKey);
      }
      currentUsers := currentUsers + {row.userId};
    }
    assert userDf[..|userDf|] == userDf;
    issued := issued + [Commit];
  }

  /** The time pass: insert a row the first time its start_time is seen, then commit. */
  method TimePass(timeDf: seq<TimeRow>) returns (issued: seq<Statement>)
    ensures issued == InsertTimes(FirstByKey(timeDf, StartTime)) + [Commit]
  {
    var timeData: set<Timestamp> := {};
    issued := [];
    for i := 0 to |timeDf|
      invariant timeData == Keys(timeDf[..i], StartTime)
      invariant issued == InsertTimes(FirstByKey(timeDf[..i], StartTime))
    {
      var row := timeDf[i];
      ScanStep(timeDf, StartTime, i);
      if row.startTime !in timeData {
        InsertTimesSnoc(FirstByKey(timeDf[..i], StartTime), row);
        issued := issued + [InsertTime(row)];
        timeData := timeData + {row.startTime};
      } else {
        assert FirstByKey(timeDf[..i], StartTime) + [] == FirstByKey(timeDf[..i], StartTime);
      }
    }
    assert timeDf[..|timeDf|] == timeDf;
    issued := issued + [Commit];
  }

  lemma InsertUsersSnoc(users: seq<UserRow>, u: UserRow)
    ensures InsertUsers(users + [u]) == InsertUsers(users) + [InsertUser(u)]
  {
  }

  lemma InsertTimesSnoc(times: seq<TimeRow>, t: TimeRow)
    ensures InsertTimes(times + [t]) == InsertTimes(times) + [InsertTime(t)]
  {
  }

  /** The users the user pass inserts, in insertion order. */
  function LatestUsers(df: seq<StagingEvent>): seq<UserRow> {
    FirstByKey(UserFrame(Plays(df)), UserKey)
  }

  /** The time rows the time pass inserts, in insertion order. */
  function DistinctTimes(df: seq<StagingEvent>, calendar: Timestamp -> CalendarParts): seq<TimeRow> {
    FirstByKey(TimeFrame(Plays(df), calendar), StartTime)
  }

  /** Everything `process_staging_tables` issues for the events frame `df`. */
  function ProcessLog(df: seq<StagingEvent>, calendar: Timestamp -> CalendarParts): seq<Statement> {
    InsertUsers(LatestUsers(df)) + [Commit] + InsertTimes(DistinctTimes(df, calendar)) + [Commit]
  }

  /** `process_staging_tables` on the answer `df` to the events query: filter,
      user pass, commit, time pass, commit. */
  method ProcessStagingTables(df: seq<StagingEvent>, calendar: Timestamp -> CalendarParts)
    returns (log: seq<Statement>)
    ensures log == ProcessLog(df, calendar)
    ensures CommitsAfterEachPass(log, |LatestUsers(df)|)
  {
    var plays := Plays(df);
    var userLog := UserPass(UserFrame(plays));
    var timeLog := TimePass(TimeFrame(plays, calendar));
    log := userLog + timeLog;
    CommitLayout(LatestUsers(df), DistinctTimes(df, calendar));
  }

  /** The log of the two passes when the user pass issued `k` inserts: the user
      inserts, a commit, the time inserts and a final commit, and no other commit. */
  predicate CommitsAfterEachPass(log: seq<Statement>, k: nat) {
    k < |log| - 1 && log[k] == Commit && log[|log| - 1] == Commit
    && (forall i :: 0 <= i < |log| && log[i] == Commit ==> i == k || i == |log| - 1)
    && (forall i :: 0 <= i < k ==> log[i].InsertUser?)
    && (forall i :: k < i < |log| - 1 ==> log[i].InsertTime?)
  }

  /** Each pass ends with exactly one commit, after all of its inserts. */
  lemma CommitLayout(users: seq<UserRow>, times: seq<TimeRow>)
    ensures CommitsAfterEachPass(InsertUsers(users) + [Commit] + InsertTimes(times) + [Commit], |users|)
  {
    var us, ts := InsertUsers(users), InsertTimes(times);
    var log := us + [Commit] + ts + [Commit];
    var k := |us|;
    assert forall i :: 0 <= i < k ==> log[i] == us[i];
    assert forall i :: k < i < |log| - 1 ==> log[i] == ts[i - k - 1];
  }

  // ---------------------------------------------------------------------------
  // What the filter keeps

  /** The filter applies row by row. */
  lemma {:induction false} PlaysAppend(a: seq<StagingEvent>, b: seq<StagingEvent>)
    ensures Plays(a + b) == Plays(a) + Plays(b)
  {
    if a == [] {
      assert a + b == b;
    } else {
      assert (a + b)[0] == a[0] && (a + b)[1..] == a[1..] + b;
      PlaysAppend(a[1..], b);
    }
  }

  /** The filter keeps every `NextSong` row as often as it occurs, and no other row. */
  lemma {:induction false} PlaysCount(df: seq<StagingEvent>, e: StagingEvent)
    ensures multiset(Plays(df))[e] == if IsPlay(e) then multiset(df)[e] else 0
  {
    if df != [] {
      assert df == [df[0]] + df[1..];
      PlaysCount(df[1..], e);
    }
  }

  /** The filter keeps the descending `ts` order of the events query. */
  lemma {:induction false} PlaysKeepOrder(df: seq<StagingEvent>)
    requires SortedByTsDesc(df)
    ensures SortedByTsDesc(Plays(df))
  {
    if df != [] {
      var tail := df[1..];
      assert SortedByTsDesc(tail) by {
        forall i, j | 0 <= i < j < |tail| ensures tail[i].ts >= tail[j].ts {
          assert tail[i] == df[i + 1] && tail[j] == df[j + 1];
        }
      }
      PlaysKeepOrder(tail);
      var rest := Plays(tail);
      if IsPlay(df[0]) && rest != [] {
        assert rest[0] in tail;
        var m :| 0 <= m < |tail| && tail[m] == rest[0];
        assert tail[m] == df[m + 1];
      }
      if IsPlay(df[0]) {
        ConsSorted(df[0], rest);
      } else {
        assert [] + rest == rest;
      }
    }
  }

  /** A row whose page is not `NextSong` changes nothing that the job issues. */
  lemma NonPlaysIgnored(before: seq<StagingEvent>, e: StagingEvent, after: seq<StagingEvent>,
                        calendar: Timestamp -> CalendarParts)
    requires !IsPlay(e)
    ensures ProcessLog(before + [e] + after, calendar) == ProcessLog(before + after, calendar)
  {
    PlaysAppend(before + [e], after);
    PlaysAppend(before, [e]);
    PlaysAppend(before, after);
    assert [e][1..] == [];
    assert Plays([e]) == [];
    assert Plays(before) + [] == Plays(before);
  }

  // ---------------------------------------------------------------------------
  // Properties of the user pass

  /** The user id of a staging row, NULL included: the key under which the
      user pass sees a row first. */
  function EventUserId(e: StagingEvent): Option<int> { e.userId }

  lemma UserFrameSnoc(p: seq<StagingEvent>, e: StagingEvent)
    ensures UserFrame(p + [e]) == UserFrame(p) + (if e.userId.Some? then [ProjectUser(e)] else [])
  {
    var s := p + [e];
    assert s[..|s| - 1] == p && s[|s| - 1] == e;
  }

  /** The user frame is built row by row. */
  lemma {:induction false} UserFrameAppend(a: seq<StagingEvent>, b: seq<StagingEvent>)
    ensures UserFrame(a + b) == UserFrame(a) + UserFrame(b)
    decreases |b|
  {
    if b == [] {
      assert a + b == a;
    } else {
      var n := |b| - 1;
      var init, e := b[..n], b[n];
      var tail := if e.userId.Some? then [ProjectUser(e)] else [];
      calc {
        UserFrame(a + b);
        { assert a + b == (a + init) + [e]; }
        UserFrame((a + init) + [e]);
        { UserFrameSnoc(a + init, e); }
        UserFrame(a + init) + tail;
        { UserFrameAppend(a, init); }
        UserFrame(a) + UserFrame(init) + tail;
        { assert b == init + [e]; UserFrameSnoc(init, e); }
        UserFrame(a) + UserFrame(b);
      }
    }
  }

  /** The keys of the user frame are exactly the non-NULL user ids of the rows. */
  lemma {:induction false} UserFrameKeys(p: seq<StagingEvent>, id: int)
    ensures id in Keys(UserFrame(p), UserKey) <==> exists j :: 0 <= j < |p| && p[j].userId == Some(id)
    decreases |p|
  {
    if p != [] {
      var n := |p| - 1;
      var init, e := p[..n], p[n];
      assert p == init + [e];
      UserFrameSnoc(init, e);
      UserFrameKeys(init, id);
      var tail := if e.userId.Some? then [ProjectUser(e)] else [];
      KeysAppend(UserFrame(init), tail, UserKey);
      if e.userId.Some? {
        KeysSingleton(ProjectUser(e), UserKey);
      }
      if exists j :: 0 <= j < |p| && p[j].userId == Some(id) {
        var j :| 0 <= j < |p| && p[j].userId == Some(id);
        if j < n {
          assert init[j] == p[j];
        }
      }
      if exists j :: 0 <= j < n && init[j].userId == Some(id) {
        var j :| 0 <= j < n && init[j].userId == Some(id);
        assert p[j] == init[j];
      }
    }
  }

  /** A row with a user id, appended, is the first with it exactly when the id
      is not yet among the keys of the user frame of the earlier rows. */
  lemma LastFirstUserEvent(init: seq<StagingEvent>, e: StagingEvent)
    requires e.userId.Some?
    ensures IsFirstOf(init + [e], EventUserId, |init|) <==> e.userId.value !in Keys(UserFrame(init), UserKey)
  {
    var p := init + [e];
    var n := |init|;
    UserFrameKeys(init, e.userId.value);
    if !IsFirstOf(p, EventUserId, n) {
      var j :| 0 <= j < n && EventUserId(p[j]) == EventUserId(p[n]);
      assert init[j] == p[j];
    }
    if exists j :: 0 <= j < n && init[j].userId == e.userId {
      var j :| 0 <= j < n && init[j].userId == e.userId;
      assert p[j] == init[j] && EventUserId(p[j]) == EventUserId(p[n]);
    }
  }

  /** One more row of the user frame: the pass keeps its user columns exactly
      when its user id is not NULL and it is the first row with that id. */
  lemma UserPassSnoc(init: seq<StagingEvent>, e: StagingEvent)
    ensures FirstByKey(UserFrame(init + [e]), UserKey) == FirstByKey(UserFrame(init), UserKey)
      + (if e.userId.Some? && IsFirstOf(init + [e], EventUserId, |init|) then [ProjectUser(e)] else [])
  {
    UserFrameSnoc(init, e);
    var prev := UserFrame(init);
    if e.userId.Some? {
      FirstByKeySnoc(prev, ProjectUser(e), UserKey);
      LastFirstUserEvent(init, e);
    } else {
      assert prev + [] == prev;
    }
  }

  /** The user pass inserts exactly the user columns of the rows that are the
      first of their user id, and nothing for a row whose user id is NULL. */
  lemma {:induction false} UserPassKeepsFirstEvent(p: seq<StagingEvent>, u: UserRow)
    ensures u in FirstByKey(UserFrame(p), UserKey) <==>
      exists i :: 0 <= i < |p| && p[i].userId.Some? && IsFirstOf(p, EventUserId, i) && u == ProjectUser(p[i])
    decreases |p|
  {
    if p != [] {
      var n := |p| - 1;
      var init := p[..n];
      assert p == init + [p[n]];
      UserPassSnoc(init, p[n]);
      UserPassKeepsFirstEvent(init, u);
      var tail := if p[n].userId.Some? && IsFirstOf(p, EventUserId, n) then [ProjectUser(p[n])] else [];
      if u in FirstByKey(UserFrame(p), UserKey) {
        if u in FirstByKey(UserFrame(init), UserKey) {
          var i :| 0 <= i < n && init[i].userId.Some? && IsFirstOf(init, EventUserId, i) && u == ProjectUser(init[i]);
          IsFirstOfPrefix(p, EventUserId, i);
          assert p[i] == init[i];
        } else {
          assert u in tail;
        }
      }
      if exists i :: 0 <= i < |p| && p[i].userId.Some? && IsFirstOf(p, EventUserId, i) && u == ProjectUser(p[i]) {
        var i :| 0 <= i < |p| && p[i].userId.Some? && IsFirstOf(p, EventUserId, i) && u == ProjectUser(p[i]);
        if i < n {
          IsFirstOfPrefix(p, EventUserId, i);
          assert init[i] == p[i];
        } else {
          assert u in tail;
        }
      }
    }
  }

  /** The user pass inserts at most one row per user id, at least one for every
      user id of a `NextSong` row, and only projections of `NextSong` rows with
      a non-NULL user id. */
  lemma UserPassOnePerUser(df: seq<StagingEvent>)
    ensures var users := LatestUsers(df);
      (forall i, j :: 0 <= i < j < |users| ==> users[i].userId != users[j].userId)
      && (forall e :: e in df && IsPlay(e) && e.userId.Some? ==>
            exists k :: 0 <= k < |users| && users[k].userId == e.userId.value)
      && (forall k :: 0 <= k < |users| ==>
            exists e :: e in df && IsPlay(e) && e.userId == Some(users[k].userId) && users[k] == ProjectUser(e))
  {
    var plays := Plays(df);
    var frame := UserFrame(plays);
    var users := LatestUsers(df);
    FirstByKeyDistinct(frame, UserKey);
    FirstByKeyKeys(frame, UserKey);
    forall e | e in df && IsPlay(e) && e.userId.Some?
      ensures exists k :: 0 <= k < |users| && users[k].userId == e.userId.value
    {
      var j :| 0 <= j < |plays| && plays[j] == e;
      UserFrameKeys(plays, e.userId.value);
      assert e.userId.value in Keys(users, UserKey);
    }
    forall k | 0 <= k < |users|
      ensures exists e :: e in df && IsPlay(e) && e.userId == Some(users[k].userId) && users[k] == ProjectUser(e)
    {
      UserPassKeepsFirstEvent(plays, users[k]);
      var i :| 0 <= i < |plays| && plays[i].userId.Some? && IsFirstOf(plays, EventUserId, i) && users[k] == ProjectUser(plays[i]);
      assert plays[i] in plays;
    }
  }

  /** `e` is a `NextSong` row of `table` whose user columns are `u`, and no
      `NextSong` row of that user in `table` is more recent. */
  ghost predicate IsLatestPlayOf(table: seq<StagingEvent>, e: StagingEvent, u: UserRow) {
    IsPlay(e) && e.userId == Some(u.userId) && u == ProjectUser(e)
    && forall e' :: e' in table && IsPlay(e') && e'.userId == e.userId ==> e'.ts <= e.ts
  }

  /** Latest state wins: when `df` is the answer to the events query, every user
      row inserted is the user columns of a `NextSong` row of the staging table
      with that user id, and no `NextSong` row of that user is more recent. */
  lemma LatestWins(table: seq<StagingEvent>, df: seq<StagingEvent>, u: UserRow)
    requires IsSongPlayEventsResult(table, df)
    requires u in LatestUsers(df)
    ensures exists e :: e in table && IsLatestPlayOf(table, e, u)
  {
    var plays := Plays(df);
    UserPassKeepsFirstEvent(plays, u);
    var i :| 0 <= i < |plays| && plays[i].userId.Some? && IsFirstOf(plays, EventUserId, i) && u == ProjectUser(plays[i]);
    var e := plays[i];
    assert e in plays;
    assert e in multiset(df);
    forall e' | e' in table && IsPlay(e') && e'.userId == e.userId ensures e'.ts <= e.ts {
      assert e' in multiset(df);
      FirstPlayIsNewest(df, i, e');
    }
    assert IsLatestPlayOf(table, e, u);
  }

  /** On a `ts`-descending frame, the first `NextSong` row with a user id is no
      older than any `NextSong` row with that id. */
  lemma FirstPlayIsNewest(df: seq<StagingEvent>, i: int, e: StagingEvent)
    requires SortedByTsDesc(df)
    requires 0 <= i < |Plays(df)| && IsFirstOf(Plays(df), EventUserId, i)
    requires e in df && IsPlay(e) && e.userId == Plays(df)[i].userId
    ensures e.ts <= Plays(df)[i].ts
  {
    var plays := Plays(df);
    PlaysKeepOrder(df);
    assert e in plays;
    var j :| 0 <= j < |plays| && plays[j] == e;
    FirstIsNewest(plays, i, j);
  }

  /** In a `ts`-descending sequence, the first row with a user id is no older than
      any other row with that id. */
  lemma FirstIsNewest(p: seq<StagingEvent>, i: int, j: int)
    requires SortedByTsDesc(p)
    requires 0 <= i < |p| && 0 <= j < |p| && IsFirstOf(p, EventUserId, i)
    requires p[j].userId == p[i].userId
    ensures p[j].ts <= p[i].ts
  {
    assert EventUserId(p[j]) == EventUserId(p[i]);
  }

  /** Three plays of user 17, the newest on the paid level, stored in any order:
      whichever answer the events query gives, the user pass inserts one row for
      user 17, with level paid. */
  lemma LatestLevelExample(df: seq<StagingEvent>)
    requires IsSongPlayEventsResult([Play17(100, "free"), Play17(200, "free"), Play17(300, "paid")], df)
    ensures LatestUsers(df) == [UserRow(17, Some("Ann"), Some("Lee"), Some("F"), Some("paid"))]
  {
    var table := [Play17(100, "free"), Play17(200, "free"), Play17(300, "paid")];
    var newest := table[2];
    assert newest in multiset(df);
    forall e | e in df && IsPlay(e) && e.userId.Some? ensures e.userId == Some(17) {
      assert e in multiset(table);
    }
    OneUserOneRow(df, 17);
    var u := LatestUsers(df)[0];
    LatestWins(table, df, u);
    var e :| e in table && IsLatestPlayOf(table, e, u);
    assert IsPlay(newest) && newest in table && newest.userId == e.userId;
    assert e == table[0] || e == table[1] || e == table[2];
    assert e == newest;
  }

  /** When every `NextSong` row with a user id carries the same id, and one does,
      the user pass inserts exactly one row, for that id. */
  lemma OneUserOneRow(df: seq<StagingEvent>, id: int)
    requires exists e :: e in df && IsPlay(e) && e.userId == Some(id)
    requires forall e :: e in df && IsPlay(e) && e.userId.Some? ==> e.userId == Some(id)
    ensures |LatestUsers(df)| == 1 && LatestUsers(df)[0].userId == id
  {
    var users := LatestUsers(df);
    UserPassOnePerUser(df);
    forall k | 0 <= k < |users| ensures users[k].userId == id {
      var e :| e in df && IsPlay(e) && e.userId == Some(users[k].userId) && users[k] == ProjectUser(e);
    }
    FirstTwoDistinct(users);
  }

  lemma FirstTwoDistinct(users: seq<UserRow>)
    requires forall i, j :: 0 <= i < j < |users| ==> users[i].userId != users[j].userId
    ensures |users| > 1 ==> users[0].userId != users[1].userId
  {
  }

  /** When no user id is NULL, the user frame is the user columns of every row. */
  lemma {:induction false} UserFrameAllKnown(p: seq<StagingEvent>)
    requires forall i :: 0 <= i < |p| ==> p[i].userId.Some?
    ensures |UserFrame(p)| == |p|
    ensures forall i :: 0 <= i < |p| ==> UserFrame(p)[i] == ProjectUser(p[i])
    decreases |p|
  {
    if p != [] {
      var n := |p| - 1;
      var init := p[..n];
      assert forall i :: 0 <= i < n ==> init[i] == p[i];
      UserFrameAllKnown(init);
    }
  }

  /** A `NextSong` play of user 17 at time `ts` on a level. */
  function Play17(ts: Timestamp, level: string): StagingEvent {
    StagingEvent(None, None, Some("Ann"), Some("F"), None, Some("Lee"), None, Some(level), None, None,
                 Some(NextSong), None, None, None, None, ts, None, Some(17))
  }

  // ---------------------------------------------------------------------------
  // Properties of the time pass

  /** Every time row inserted is a timestamp of a `NextSong` row together with
      that timestamp's own calendar parts. */
  lemma TimeRowFromPlay(df: seq<StagingEvent>, calendar: Timestamp -> CalendarParts, t: TimeRow)
    requires t in DistinctTimes(df, calendar)
    ensures t == TimeRow(t.startTime, calendar(t.startTime))
    ensures exists e :: e in df && IsPlay(e) && e.ts == t.startTime
  {
    var plays := Plays(df);
    var frame := TimeFrame(plays, calendar);
    FirstByKeyMember(frame, StartTime, t);
    var i :| 0 <= i < |frame| && frame[i] == t && IsFirstOf(frame, StartTime, i);
    assert plays[i] in plays;
  }

  /** Every `NextSong` row's timestamp gets its time row. */
  lemma PlayGetsTimeRow(df: seq<StagingEvent>, calendar: Timestamp -> CalendarParts, e: StagingEvent)
    requires e in df && IsPlay(e)
    ensures TimeRow(e.ts, calendar(e.ts)) in DistinctTimes(df, calendar)
  {
    var plays := Plays(df);
    var frame := TimeFrame(plays, calendar);
    var times := DistinctTimes(df, calendar);
    FirstByKeyKeys(frame, StartTime);
    var j :| 0 <= j < |plays| && plays[j] == e;
    assert StartTime(frame[j]) in Keys(frame, StartTime);
    var k :| 0 <= k < |times| && StartTime(times[k]) == e.ts;
    TimeRowFromPlay(df, calendar, times[k]);
  }

  /** The time pass inserts exactly one row per distinct timestamp of the
      `NextSong` rows, and that row is the timestamp with its own calendar
      parts: which of several rows with that timestamp came first is invisible. */
  lemma TimePassOnePerTimestamp(df: seq<StagingEvent>, calendar: Timestamp -> CalendarParts)
    ensures var times := DistinctTimes(df, calendar);
      (forall i, j :: 0 <= i < j < |times| ==> times[i].startTime != times[j].startTime)
      && (forall t :: t in times ==>
            t == TimeRow(t.startTime, calendar(t.startTime))
            && exists e :: e in df && IsPlay(e) && e.ts == t.startTime)
      && (forall e :: e in df && IsPlay(e) ==> TimeRow(e.ts, calendar(e.ts)) in times)
  {
    var times := DistinctTimes(df, calendar);
    var frame := TimeFrame(Plays(df), calendar);
    assert times == FirstByKey(frame, StartTime);
    FirstByKeyDistinct(frame, StartTime);
    forall i, j | 0 <= i < j < |times| ensures times[i].startTime != times[j].startTime {
      assert StartTime(times[i]) != StartTime(times[j]);
    }
    forall t | t in times
      ensures t == TimeRow(t.startTime, calendar(t.startTime))
      ensures exists e :: e in df && IsPlay(e) && e.ts == t.startTime
    {
      TimeRowFromPlay(df, calendar, t);
    }
    forall e | e in df && IsPlay(e) ensures TimeRow(e.ts, calendar(e.ts)) in times {
      PlayGetsTimeRow(df, calendar, e);
    }
  }

  /** A `NextSong` row with a NULL user id adds no user row, yet its timestamp
      still gets a time row: the time frame is built from the events frame, not
      from the user frame. */
  lemma NullUserIdOnlyTimed(before: seq<StagingEvent>, e: StagingEvent, after: seq<StagingEvent>,
                            calendar: Timestamp -> CalendarParts)
    requires IsPlay(e) && e.userId.None?
    ensures LatestUsers(before + [e] + after) == LatestUsers(before + after)
    ensures TimeRow(e.ts, calendar(e.ts)) in DistinctTimes(before + [e] + after, calendar)
  {
    var pb, pa := Plays(before), Plays(after);
    PlaysAppend(before + [e], after);
    PlaysAppend(before, [e]);
    PlaysAppend(before, after);
    assert [e][1..] == [];
    assert Plays([e]) == [e];
    calc {
      UserFrame(Plays(before + [e] + after));
      UserFrame(pb + [e] + pa);
      { UserFrameAppend(pb + [e], pa); UserFrameSnoc(pb, e); }
      UserFrame(pb) + [] + UserFrame(pa);
      { assert UserFrame(pb) + [] == UserFrame(pb); UserFrameAppend(pb, pa); }
      UserFrame(Plays(before + after));
    }
    assert e in before + [e] + after;
    PlayGetsTimeRow(before + [e] + after, calendar, e);
  }

  // ---------------------------------------------------------------------------
  // insert_tables and the order of stages in main

  /** Each statement followed by a commit, in order. */
  function CommitEach(stmts: seq<Statement>): (r: seq<Statement>)
    ensures |r| == 2 * |stmts|
  {
    if stmts == [] then [] else CommitEach(stmts[..|stmts| - 1]) + [stmts[|stmts| - 1], Commit]
  }

  /** Statement `k` sits at position `2 k` of the log, its commit right after it. */
  lemma {:induction false} CommitEachAt(stmts: seq<Statement>, k: int)
    requires 0 <= k < |stmts|
    ensures CommitEach(stmts)[2 * k] == stmts[k] && CommitEach(stmts)[2 * k + 1] == Commit
    decreases |stmts|
  {
    var n := |stmts| - 1;
    var init := stmts[..n];
    assert CommitEach(stmts) == CommitEach(init) + [stmts[n], Commit];
    if k < n {
      CommitEachAt(init, k);
      assert init[k] == stmts[k];
    }
  }

  /** `insert_tables` over `stmts`, the statements its queries amount to in list
      order: run each one and commit after it. The first statement the warehouse
      refuses raises out of the job: it takes no effect and the job stops, with
      everything committed before it kept. */
  method InsertTables(stmts: seq<Statement>) returns (log: seq<Statement>, aborted: bool)
    ensures |log| / 2 <= |stmts| && log == CommitEach(stmts[..|log| / 2])
    ensures forall k :: 0 <= k < |log| / 2 ==> !Rejected(stmts[k])
    ensures aborted <==> |log| / 2 < |stmts|
    ensures aborted ==> Rejected(stmts[|log| / 2])
  {
    log := [];
    aborted := false;
    var k := 0;
    while k < |stmts|
      invariant 0 <= k <= |stmts| && log == CommitEach(stmts[..k])
      invariant forall m :: 0 <= m < k ==> !Rejected(stmts[m])
    {
      if Rejected(stmts[k]) {
        aborted := true;
        break;
      }
      assert stmts[..k + 1][..k] == stmts[..k];
      log := log + [stmts[k], Commit];
      k := k + 1;
    }
    assert |log| / 2 == k;
    assert k == |stmts| ==> stmts[..k] == stmts;
  }

  /** The job after the bulk load: the set-based stage over the staging tables,
      then, unless a statement of it was refused, the latest-state stage over the
      events query's answer `df`. */
  method Run(events: seq<StagingEvent>, catalog: seq<CatalogEntry>, df: seq<StagingEvent>,
             calendar: Timestamp -> CalendarParts)
    returns (log: seq<Statement>, completed: bool)
    requires IsSongPlayEventsResult(events, df)
    ensures completed <==>
      !Rejected(InsertSongs(SongTableRows(catalog))) && !Rejected(InsertArtists(ArtistTableRows(catalog)))
      && !Rejected(InsertSongplays(SongplayTableRows(events, catalog)))
    ensures completed ==>
      log == [InsertSongs(SongTableRows(catalog)), Commit, InsertArtists(ArtistTableRows(catalog)), Commit,
              InsertSongplays(SongplayTableRows(events, catalog)), Commit] + ProcessLog(df, calendar)
    ensures !completed ==>
      |log| < 6 && forall i :: 0 <= i < |log| ==> !log[i].InsertUser? && !log[i].InsertTime?
    ensures !completed ==>
      CommittedUpToRefusal(log, InsertSongs(SongTableRows(catalog)), InsertArtists(ArtistTableRows(catalog)),
                           InsertSongplays(SongplayTableRows(events, catalog)))
  {
    var stmts := Statements(InsertTableQueries, events, catalog);
    var setBased, aborted := InsertTables(stmts);
    log := setBased;
    completed := !aborted;
    if !aborted {
      var latest := ProcessStagingTables(df, calendar);
      log := setBased + latest;
    }
    RunLayout(events, catalog, setBased, aborted, ProcessLog(df, calendar), log);
  }

  /** The whole job's log, given the log and outcome of the set-based stage and
      the statements `latest` of `process_staging_tables`, which run only when
      the set-based stage was not aborted. */
  lemma RunLayout(events: seq<StagingEvent>, catalog: seq<CatalogEntry>, setBased: seq<Statement>,
                  aborted: bool, latest: seq<Statement>, log: seq<Statement>)
    requires |setBased| / 2 <= 3
    requires setBased == CommitEach(Statements(InsertTableQueries, events, catalog)[..|setBased| / 2])
    requires forall k :: 0 <= k < |setBased| / 2 ==> !Rejected(Statements(InsertTableQueries, events, catalog)[k])
    requires aborted <==> |setBased| / 2 < 3
    requires aborted ==> Rejected(Statements(InsertTableQueries, events, catalog)[|setBased| / 2])
    requires log == if aborted then setBased else setBased + latest
    ensures !aborted <==>
      !Rejected(InsertSongs(SongTableRows(catalog))) && !Rejected(InsertArtists(ArtistTableRows(catalog)))
      && !Rejected(InsertSongplays(SongplayTableRows(events, catalog)))
    ensures !aborted ==>
      log == [InsertSongs(SongTableRows(catalog)), Commit, InsertArtists(ArtistTableRows(catalog)), Commit,
              InsertSongplays(SongplayTableRows(events, catalog)), Commit] + latest
    ensures aborted ==>
      |log| < 6 && forall i :: 0 <= i < |log| ==> !log[i].InsertUser? && !log[i].InsertTime?
    ensures aborted ==>
      CommittedUpToRefusal(log, InsertSongs(SongTableRows(catalog)), InsertArtists(ArtistTableRows(catalog)),
                           InsertSongplays(SongplayTableRows(events, catalog)))
  {
    var stmts := Statements(InsertTableQueries, events, catalog);
    SetBasedLayout(setBased, aborted, stmts);
    assert stmts[0] == InsertSongs(SongTableRows(catalog));
    assert stmts[1] == InsertArtists(ArtistTableRows(catalog));
    assert stmts[2] == InsertSongplays(SongplayTableRows(events, catalog));
    if !aborted {
      assert setBased == [stmts[0], Commit, stmts[1], Commit, stmts[2], Commit];
    }
  }

  /** The job stopped at the first refused one of the statements `a`, `b`, `c`
      (run in that order): every statement before it is in the log with its
      commit, and the refused one and those after it are not. */
  predicate CommittedUpToRefusal(log: seq<Statement>, a: Statement, b: Statement, c: Statement) {
    || (Rejected(a) && log == [])
    || (!Rejected(a) && Rejected(b) && log == [a, Commit])
    || (!Rejected(a) && !Rejected(b) && Rejected(c) && log == [a, Commit, b, Commit])
  }

  /** The log of the set-based stage over three statements that are not user or
      time inserts: all three with their commits when none is refused, and
      otherwise fewer than six entries, all of them statements of that stage. */
  lemma SetBasedLayout(log: seq<Statement>, aborted: bool, stmts: seq<Statement>)
    requires |stmts| == 3 && forall k :: 0 <= k < 3 ==> stmts[k].InsertSongs? || stmts[k].InsertArtists? || stmts[k].InsertSongplays?
    requires |log| / 2 <= |stmts| && log == CommitEach(stmts[..|log| / 2])
    requires forall k :: 0 <= k < |log| / 2 ==> !Rejected(stmts[k])
    requires aborted <==> |log| / 2 < |stmts|
    requires aborted ==> Rejected(stmts[|log| / 2])
    ensures !aborted <==> !Rejected(stmts[0]) && !Rejected(stmts[1]) && !Rejected(stmts[2])
    ensures !aborted ==> log == [stmts[0], Commit, stmts[1], Commit, stmts[2], Commit]
    ensures aborted ==> |log| < 6 && forall i :: 0 <= i < |log| ==> !log[i].InsertUser? && !log[i].InsertTime?
    ensures aborted ==> CommittedUpToRefusal(log, stmts[0], stmts[1], stmts[2])
  {
    var n := |log| / 2;
    var done := stmts[..n];
    if n == 1 {
      assert done[..0] == [];
    } else if n == 2 {
      assert done[..1] == [stmts[0]] && done[..1][..0] == [];
    }
    forall i | 0 <= i < |log| ensures log[i] == Commit || log[i] == done[i / 2] {
      var k := i / 2;
      assert i == 2 * k || i == 2 * k + 1;
      CommitEachAt(done, k);
    }
    if !aborted {
      assert done == stmts;
      CommitEachAt(stmts, 0);
      CommitEachAt(stmts, 1);
      CommitEachAt(stmts, 2);
    }
  }
}
