/** The request handlers of app.py as functions over the two tables:
    `increment_views` (a day-bucket increment followed by a user upsert or
    create), `get_count`, `get_unique_users` and `get_online_count`. */
module Views {
  import opened Wrappers
  import opened Clock
  import opened Ids
  import opened Tables

  /** The whole database: both tables. */
  datatype Db = Db(days: DayTable, users: UserTable)

  /** A successful `/increment` response: the `views` field of the JSON body
      and the `user_id` cookie it sets. */
  datatype Reply = Reply(views: nat, userId: string)

  /** The database after a request, and what the request answered. */
  datatype Step = Step(db: Db, reply: Result<Reply>)

  /** The `/count` response. */
  datatype Counts = Counts(today: nat, yesterday: nat)

  /** The user half of a request: the table after it and the id in the cookie. */
  datatype Registered = Registered(users: UserTable, id: string)

  /** `if user_id:` — a missing cookie and an empty one are both falsy. */
  predicate HasCookie(cookie: Option<string>) {
    cookie.Some? && cookie.value != ""
  }

  /** Lines 40-47 of `increment_views`. With a cookie the user is found or
      created (`get_or_create`); without one a row is created for the
      timestamp id (`create`). Either way `last_visit := now` is saved.
      `created` is the `last_visit` the INSERT of a new row carries. */
  function Register(users: UserTable, cookie: Option<string>, now: int, created: Option<int>): (r: Result<Registered>)
    // the id is the cookie's when there is one, otherwise the generated one
    ensures r.Ok? ==> r.value.id == (if HasCookie(cookie) then cookie.value else TimestampId(now))
    // only that user's row is written, with last_visit = now
    ensures r.Ok? ==> r.value.users == users[r.value.id := now]
    // an existing user is found; anyone else needs an INSERT, which has to pass the constraints
    ensures r.Ok? <==> (HasCookie(cookie) && cookie.value in users)
                       || (created.Some? && (if HasCookie(cookie) then cookie.value else TimestampId(now)) !in users)
  {
    var id := if HasCookie(cookie) then cookie.value else TimestampId(now);
    var found := if HasCookie(cookie) && id in users then Ok(users) else Insert(users, id, created);
    match found
    case Ok(table) => Ok(Registered(table[id := now], id))
    case Failed => Failed
  }

  /** `increment_views` with the INSERT of a new user carrying `created`.
      The day bucket is counted and saved before the user part runs, so a
      failure there leaves the view counted and the user table as it was. */
  function Handle(db: Db, cookie: Option<string>, now: int, created: Option<int>): (s: Step)
    ensures s.db.days == Bump(db.days, Day(now))
    ensures s.reply.Ok? <==> Register(db.users, cookie, now, created).Ok?
    ensures s.reply.Ok? ==> s.reply.value == Reply(CountOf(s.db.days, Day(now)), Register(db.users, cookie, now, created).value.id)
    ensures s.reply.Ok? ==> s.db.users == Register(db.users, cookie, now, created).value.users
    ensures s.reply.Failed? ==> s.db.users == db.users
  {
    var days := Bump(db.days, Day(now));
    match Register(db.users, cookie, now, created)
    case Ok(reg) => Step(Db(days, reg.users), Ok(Reply(CountOf(days, Day(now)), reg.id)))
    case Failed => Step(Db(days, db.users), Failed)
  }

  /** `POST /increment`, with new users created with `last_visit = now`. */
  function Increment(db: Db, cookie: Option<string>, now: int): (s: Step)
    // the current day goes up by one and no other day changes, error or not
    ensures CountOf(s.db.days, Day(now)) == CountOf(db.days, Day(now)) + 1
    ensures forall d :: d != Day(now) ==> CountOf(s.db.days, d) == CountOf(db.days, d)
    // a success reports the new count of the current day
    ensures s.reply.Ok? ==> s.reply.value.views == CountOf(s.db.days, Day(now))
    // a success touches exactly one user: the one in the cookie it sets
    ensures s.reply.Ok? ==> s.db.users == db.users[s.reply.value.userId := now]
    // a failure leaves the user table alone
    ensures s.reply.Failed? ==> s.db.users == db.users
    // with a cookie the request succeeds and echoes it
    ensures HasCookie(cookie) ==> s.reply.Ok? && s.reply.value.userId == cookie.value
    // without one it succeeds exactly when the generated id is free, and uses it
    ensures !HasCookie(cookie) ==> (s.reply.Ok? <==> TimestampId(now) !in db.users)
    ensures !HasCookie(cookie) && s.reply.Ok? ==> s.reply.value.userId == TimestampId(now)
  {
    Handle(db, cookie, now, Some(now))
  }

  /** `POST /increment` as app.py:41 and app.py:44 write it: the new row is
      inserted with `last_visit` unset, which the NOT NULL column refuses.
      Only a cookie naming an existing user succeeds, and the set of users
      never changes. */
  function IncrementAsWritten(db: Db, cookie: Option<string>, now: int): (s: Step)
    // the view is counted on the current day and no other day changes
    ensures CountOf(s.db.days, Day(now)) == CountOf(db.days, Day(now)) + 1
    ensures forall d :: d != Day(now) ==> CountOf(s.db.days, d) == CountOf(db.days, d)
    // only a returning cookie succeeds: it replies with the new count and the
    // cookie, and refreshes that user's last_visit
    ensures s.reply.Ok? <==> HasCookie(cookie) && cookie.value in db.users
    ensures s.reply.Ok? ==> s.reply.value == Reply(CountOf(s.db.days, Day(now)), cookie.value)
    ensures s.reply.Ok? ==> s.db.users == db.users[cookie.value := now]
    // a failure leaves the user table alone; the set of users never changes
    ensures s.reply.Failed? ==> s.db.users == db.users
    ensures s.db.users.Keys == db.users.Keys
  {
    Handle(db, cookie, now, None)
  }

  /** `GET /count`: the buckets of today and of the day before, 0 where no
      row exists. "Yesterday" is the bucket of the same moment one day
      earlier. */
  function GetCount(days: DayTable, now: int): (c: Counts)
    ensures Day(now) in days ==> c.today == days[Day(now)]
    ensures Day(now) !in days ==> c.today == 0
    ensures Day(now) - 1 in days ==> c.yesterday == days[Day(now) - 1]
    ensures Day(now) - 1 !in days ==> c.yesterday == 0
    ensures c.yesterday == CountOf(days, Day(now - SecondsPerDay))
  {
    YesterdayBucket(now);
    Counts(CountOf(days, Day(now)), CountOf(days, Day(now) - 1))
  }

  /** `GET /unique_users`: the number of user rows, one per distinct
      `user_id`. */
  function UniqueUsers(users: UserTable): (n: nat)
    ensures n == |users.Keys|
  {
    |users|
  }

  /** The users the `/online` query selects: `last_visit >= now - 5 min`. */
  function OnlineSet(users: UserTable, now: int): (s: set<string>)
    ensures s <= users.Keys
  {
    set u | u in users && users[u] >= now - OnlineWindow
  }

  /** `GET /online`: never more than the number of users. */
  function OnlineCount(users: UserTable, now: int): (n: nat)
    ensures n <= UniqueUsers(users)
  {
    SubsetCard(OnlineSet(users, now), users.Keys);
    |OnlineSet(users, now)|
  }

  lemma SubsetCard<T>(a: set<T>, b: set<T>)
    requires a <= b
    ensures |a| <= |b|
  {
    assert b == a + (b - a);
  }

  /** A user last seen at T is online at every query time up to T + 5 min
      inclusive and at no later one. */
  lemma OnlineIff(users: UserTable, u: string, q: int)
    requires u in users
    ensures u in OnlineSet(users, q) <==> q <= users[u] + OnlineWindow
  {
  }

  /** A visitor whose request succeeded at `now` is counted online at every
      query time in [now, now + 5 min], and stops being counted after. */
  lemma {:induction false} VisitorOnlineWindow(db: Db, cookie: Option<string>, now: int, q: int)
    requires Increment(db, cookie, now).reply.Ok?
    ensures var s := Increment(db, cookie, now);
      (now <= q <= now + OnlineWindow ==> s.reply.value.userId in OnlineSet(s.db.users, q) && OnlineCount(s.db.users, q) >= 1)
      && (q > now + OnlineWindow ==> s.reply.value.userId !in OnlineSet(s.db.users, q))
  {
    var s := Increment(db, cookie, now);
    var id := s.reply.value.userId;
    OnlineIff(s.db.users, id, q);
    if now <= q <= now + OnlineWindow {
      SubsetCard({id}, OnlineSet(s.db.users, q));
    }
  }

  /** A returning visitor adds no row: `unique_users` is unchanged, their
      `last_visit` becomes `now` and nobody else's record changes. */
  lemma ReturningVisitor(db: Db, id: string, now: int)
    requires id != "" && id in db.users
    ensures var s := Increment(db, Some(id), now);
      && s.reply == Ok(Reply(CountOf(db.days, Day(now)) + 1, id))
      && UniqueUsers(s.db.users) == UniqueUsers(db.users)
      && s.db.users[id] == now
      && forall u :: u in db.users && u != id ==> u in s.db.users && s.db.users[u] == db.users[u]
  {
    var s := Increment(db, Some(id), now);
    assert s.db.users.Keys == db.users.Keys;
  }

  /** A cookie naming an unknown id registers it: one more user. */
  lemma CookieRegistersNewUser(db: Db, id: string, now: int)
    requires id != "" && id !in db.users
    ensures var s := Increment(db, Some(id), now);
      && s.reply == Ok(Reply(CountOf(db.days, Day(now)) + 1, id))
      && UniqueUsers(s.db.users) == UniqueUsers(db.users) + 1
  {
  }

  /** Without a cookie, a free generated id is created: exactly one new user,
      keyed by the id generated from `now`, which the reply then carries. */
  lemma NewVisitor(db: Db, cookie: Option<string>, now: int)
    requires !HasCookie(cookie) && TimestampId(now) !in db.users
    ensures var s := Increment(db, cookie, now);
      && s.reply == Ok(Reply(CountOf(db.days, Day(now)) + 1, TimestampId(now)))
      && s.db.users == db.users[TimestampId(now) := now]
      && UniqueUsers(s.db.users) == UniqueUsers(db.users) + 1
  {
  }

  /** Without a cookie, a generated id that is already taken breaks the
      UNIQUE constraint: the request fails, but the view stays counted. */
  lemma IdCollision(db: Db, cookie: Option<string>, now: int)
    requires !HasCookie(cookie) && TimestampId(now) in db.users
    ensures var s := Increment(db, cookie, now);
      && s.reply.Failed?
      && s.db.users == db.users
      && s.db.days == Bump(db.days, Day(now))
  {
  }

  /** An increment raises today's count by one and leaves yesterday's alone:
      nothing leaks or is reset across days. */
  lemma IncrementThenCount(db: Db, cookie: Option<string>, now: int)
    ensures var before := GetCount(db.days, now);
      GetCount(Increment(db, cookie, now).db.days, now) == Counts(before.today + 1, before.yesterday)
  {
  }

  /** The `yesterday` of one query is the `today` of a query made one day
      earlier. */
  lemma YesterdayIsPreviousToday(days: DayTable, now: int)
    ensures GetCount(days, now).yesterday == GetCount(days, now - SecondsPerDay).today
  {
  }
}
