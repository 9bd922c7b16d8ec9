/** Sequences of `/increment` requests, and concrete scenarios over them. */
module History {
  import opened Wrappers
  import opened Clock
  import opened Ids
  import opened Tables
  import opened Views

  /** One `/increment` request: its cookie and the time it is served. */
  datatype Visit = Visit(cookie: Option<string>, at: int)

  /** The database after a sequence of requests and each request's reply. */
  datatype Trace = Trace(db: Db, replies: seq<Result<Reply>>)

  /** A fresh database: both tables empty. */
  const Fresh: Db := Db(map[], map[])

  /** Serves the requests one after another, in order. No row is ever
      deleted and no day's count ever goes down. */
  function Replay(db: Db, visits: seq<Visit>): (t: Trace)
    ensures |t.replies| == |visits|
    ensures db.days.Keys <= t.db.days.Keys && db.users.Keys <= t.db.users.Keys
    ensures forall d :: CountOf(t.db.days, d) >= CountOf(db.days, d)
    decreases |visits|
  {
    if visits == [] then Trace(db, [])
    else
      var s := Increment(db, visits[0].cookie, visits[0].at);
      var rest := Replay(s.db, visits[1..]);
      Trace(rest.db, [s.reply] + rest.replies)
  }

  /** The ids carried by the successful replies. */
  function RepliedIds(replies: seq<Result<Reply>>): set<string>
    decreases |replies|
  {
    if replies == [] then {}
    else (if replies[0].Ok? then {replies[0].value.userId} else {}) + RepliedIds(replies[1..])
  }

  /** N requests served on the same day raise that day's count by exactly N,
      whatever their cookies and whether or not their user part fails. */
  lemma {:induction false} SameDayReplay(db: Db, visits: seq<Visit>, d: int)
    requires forall i :: 0 <= i < |visits| ==> Day(visits[i].at) == d
    ensures CountOf(Replay(db, visits).db.days, d) == CountOf(db.days, d) + |visits|
    decreases |visits|
  {
    if visits != [] {
      var s := Increment(db, visits[0].cookie, visits[0].at);
      SameDayReplay(s.db, visits[1..], d);
    }
  }

  /** Requests on other days never change day `d`'s count. */
  lemma {:induction false} OtherDaysReplay(db: Db, visits: seq<Visit>, d: int)
    requires forall i :: 0 <= i < |visits| ==> Day(visits[i].at) != d
    ensures CountOf(Replay(db, visits).db.days, d) == CountOf(db.days, d)
    decreases |visits|
  {
    if visits != [] {
      var s := Increment(db, visits[0].cookie, visits[0].at);
      OtherDaysReplay(s.db, visits[1..], d);
    }
  }

  /** The ids of a reply followed by more replies. */
  lemma RepliedIdsCons(r: Result<Reply>, rest: seq<Result<Reply>>)
    ensures RepliedIds([r] + rest) == (if r.Ok? then {r.value.userId} else {}) + RepliedIds(rest)
  {
    assert ([r] + rest)[1..] == rest;
  }

  /** One request adds at most its reply's id to the users. */
  lemma IncrementUserKeys(db: Db, cookie: Option<string>, now: int)
    ensures var s := Increment(db, cookie, now);
      s.db.users.Keys == db.users.Keys + (if s.reply.Ok? then {s.reply.value.userId} else {})
  {
  }

  /** Users are never removed, and the users after a sequence of requests are
      those before it plus the ids of the successful replies. */
  lemma {:induction false} ReplayUsers(db: Db, visits: seq<Visit>)
    ensures var t := Replay(db, visits);
      t.db.users.Keys == db.users.Keys + RepliedIds(t.replies)
    decreases |visits|
  {
    if visits != [] {
      var s := Increment(db, visits[0].cookie, visits[0].at);
      var rest := Replay(s.db, visits[1..]);
      ReplayUsers(s.db, visits[1..]);
      var replies := [s.reply] + rest.replies;
      assert Replay(db, visits).replies == replies;
      assert Replay(db, visits).db == rest.db;
      RepliedIdsCons(s.reply, rest.replies);
      IncrementUserKeys(db, visits[0].cookie, visits[0].at);
    }
  }

  /** From a fresh database, `unique_users` is the number of distinct ids
      that were successfully upserted. */
  lemma UniqueUsersCountsDistinctIds(visits: seq<Visit>)
    ensures var t := Replay(Fresh, visits);
      UniqueUsers(t.db.users) == |RepliedIds(t.replies)|
  {
    ReplayUsers(Fresh, visits);
    var t := Replay(Fresh, visits);
    assert t.db.users.Keys == RepliedIds(t.replies);
  }

  /** Three cookieless requests at three different times of one day, on a
      fresh database: three distinct generated ids, three users, a count of
      three. */
  lemma ThreeNewVisitors(t1: int, t2: int, t3: int)
    requires t1 != t2 && t1 != t3 && t2 != t3
    requires Day(t1) == Day(t2) == Day(t3)
    ensures var s1 := Increment(Fresh, None, t1);
      var s2 := Increment(s1.db, None, t2);
      var s3 := Increment(s2.db, None, t3);
      && s1.reply == Ok(Reply(1, TimestampId(t1)))
      && s2.reply == Ok(Reply(2, TimestampId(t2)))
      && s3.reply == Ok(Reply(3, TimestampId(t3)))
      && TimestampId(t1) != TimestampId(t2) && TimestampId(t1) != TimestampId(t3) && TimestampId(t2) != TimestampId(t3)
      && UniqueUsers(s3.db.users) == 3
      && GetCount(s3.db.days, t3).today == 3
  {
    TimestampIdInjective(t1, t2);
    TimestampIdInjective(t1, t3);
    TimestampIdInjective(t2, t3);
    var s1 := Increment(Fresh, None, t1);
    NewVisitor(Fresh, None, t1);
    assert s1.db.users == map[TimestampId(t1) := t1];
    var s2 := Increment(s1.db, None, t2);
    NewVisitor(s1.db, None, t2);
    var s3 := Increment(s2.db, None, t3);
    NewVisitor(s2.db, None, t3);
  }

  /** Cookie "abc" at 10:00 and again at 10:02 of one day: one user, a count
      of two, online at 10:03 and no longer at 10:10. */
  lemma ReturningCookie(d: int)
    ensures var t0 := d * SecondsPerDay + 10 * 3600;
      var s1 := Increment(Fresh, Some("abc"), t0);
      var s2 := Increment(s1.db, Some("abc"), t0 + 120);
      && s1.reply == Ok(Reply(1, "abc"))
      && s2.reply == Ok(Reply(2, "abc"))
      && UniqueUsers(s2.db.users) == 1
      && GetCount(s2.db.days, t0 + 180).today == 2
      && OnlineCount(s2.db.users, t0 + 180) == 1
      && OnlineCount(s2.db.users, t0 + 600) == 0
  {
    var t0 := d * SecondsPerDay + 10 * 3600;
    DayIff(t0, d);
    DayIff(t0 + 120, d);
    DayIff(t0 + 180, d);
    var s1 := Increment(Fresh, Some("abc"), t0);
    var s2 := Increment(s1.db, Some("abc"), t0 + 120);
    assert s2.db.users == map["abc" := t0 + 120];
    assert OnlineSet(s2.db.users, t0 + 180) == {"abc"};
    assert OnlineSet(s2.db.users, t0 + 600) == {};
  }

  /** As written, a fresh user table never gains a row: every request fails
      (status 500, no cookie) while its view is still counted, so no
      visitor is ever registered and `unique_users` stays 0. The corrected
      handler registers the first visitor. */
  lemma FirstVisitAsWritten(db: Db, cookie: Option<string>, now: int)
    requires db.users == map[]
    ensures var s := IncrementAsWritten(db, cookie, now);
      && s.reply.Failed?
      && s.db.users == map[]
      && CountOf(s.db.days, Day(now)) == CountOf(db.days, Day(now)) + 1
    ensures var s := Increment(db, cookie, now);
      && s.reply.Ok?
      && UniqueUsers(s.db.users) == 1
  {
    var s := IncrementAsWritten(db, cookie, now);
    assert s.db.users.Keys == {};
  }
}
