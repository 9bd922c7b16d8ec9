# advcounter: the visit counter behind `app.py`

`app.py` is a small Flask service over two SQLite tables, accessed through peewee:

- **ViewCount**: one row per calendar day, holding that day's page-view count.
- **User**: one row per visitor. Each row holds a unique `user_id`, carried in a cookie, and the visitor's `last_visit` time.

`POST /increment` raises today's count. It then looks up the visitor's row (creating one when the visitor is new), sets its `last_visit` to now, and answers with the new count and the visitor's id. As written, the creation step fails (see "## Findings"), so only an existing row is ever refreshed. `GET /count`, `GET /unique_users` and `GET /online` are read-only queries over the same two tables.

This project models that state machine in Dafny:

- `Clock` (clock.dfy): time is a whole number of seconds of local time. The day bucket is the time truncated to midnight, `t / 86400`. The online window is 300 seconds.
- `Ids` (ids.dfy): the id generated for a visitor without a cookie. It mirrors `str(now.timestamp())`: the decimal integer of the clock reading followed by `.0`, which is how Python prints a float with no fraction. It is proved injective through a parser for the digits that inverts them.
- `Tables` (tables.dfy): the ViewCount table as `map<int, nat>` and the User table as `map<string, int>`. Also the row operations: find-or-create-then-increment, and an INSERT that checks the UNIQUE and NOT NULL constraints.
- `Views` (views.dfy): the four handlers as functions over the tables, with the lemmas about them.
- `History` (history.dfy): sequences of requests, the counting lemmas over them, and concrete scenarios.
- `App` (tracker.dfy): the class `Tracker`. Its fields are the two tables. Its method `IncrementViews` updates them step by step in the order the handler does, with the creation fix of "## Findings" applied, and is proved to agree with `Views.Increment`.

`Views.Increment`, and every member built on it, is the corrected handler: it inserts new users with `last_visit = now`. `Views.IncrementAsWritten` is the handler exactly as `app.py` writes it. Rows below marked "corrected handler" describe the corrected behaviour.

Other points where this service's behaviour is easy to misread:

- The online count is read from the persistent User table. There is no separate in-memory presence map.
- A user is online while `last_visit >= now - 5 min`. That window includes its end point: a user seen at T is still counted at T + 300 s.
- Incoming cookies are not checked for a well-formed value. A missing cookie and an empty one are both treated as "no cookie" (`if user_id:`). Any other value is used as the id.
- New ids come from the timestamp, not from a random token, so two cookieless visits at the same clock reading collide. The second one fails.
- No handler resets another day's count. `Views.Increment` and `Views.IncrementThenCount` prove that.

## Model

| member | source | states |
|---|---|---|
| `Clock.Day` | app.py:33-34 | the day bucket of t starts at or before t and the next bucket starts after t (truncation to midnight) |
| `Clock.DayIff` | app.py:34 | t is in bucket d exactly when it lies between the midnight opening day d (inclusive) and the next midnight (exclusive) |
| `Clock.SameDateSameBucket` | app.py:34 | two times on the same calendar date get the same bucket |
| `Clock.MidnightBoundary` | app.py:34 | 23:59:59 belongs to its day and 00:00:00 to the next |
| `Clock.YesterdayBucket` | app.py:60-61 | the same moment one day earlier lies in the previous bucket (`today_start - timedelta(days=1)`) |
| `Ids.ParseDigitsInverse` | app.py:43 | reading the decimal digits of n gives n back |
| `Ids.TimestampId` | app.py:43 | the generated id is never empty, so a later request that sends it back as a cookie takes the cookie branch |
| `Ids.TimestampIdInjective` | app.py:43 | distinct times give distinct generated ids |
| `Tables.Bump` | app.py:36-38 | find-or-create (starting at 0), then increment and save: the day's count goes up by one, no other day changes, and the day's row exists afterwards |
| `Tables.Insert` | app.py:21-23 | An INSERT succeeds exactly when last_visit is given and the id is not yet taken, and then adds exactly that row with that last_visit and keeps every other row. |
| `Views.Register` | app.py:40-47 | the id is the cookie's when there is one, otherwise the generated one; only that user's row is written, with last_visit = now; the step succeeds exactly when the user exists or the INSERT passes its constraints |
| `Views.Handle` | app.py:30-54 | the day bucket is counted whatever happens afterwards; on success the reply holds the new count and the user's id; on failure the user table is as it was |
| `Views.Increment` | app.py:30-54 | corrected handler: the current day goes up by one and no other day changes; success reports that count and writes only the replying user, with last_visit = now; success always happens with a cookie, and without one exactly when the generated id is free; failure keeps the user table |
| `Views.IncrementAsWritten` | app.py:30-54 | with new rows inserted without last_visit: the current day goes up by one and no other day changes; only a cookie naming an existing user succeeds, replying with the new count and that cookie and setting only that user's last_visit to now; a failure keeps the user table; the set of users never changes |
| `Views.GetCount` | app.py:57-71 | today and yesterday are the stored counts of the current bucket and the one before, or 0 where no row exists; yesterday is the bucket of the same moment one day earlier |
| `Views.UniqueUsers` | app.py:74-76 | the count is the number of distinct user ids in the table; `ReturningVisitor`, `NewVisitor` and `History.UniqueUsersCountsDistinctIds` say how requests change it |
| `Views.OnlineSet` | app.py:84-85 | the online users are a subset of the users |
| `Views.OnlineCount` | app.py:76-85 | the online count never exceeds the unique-user count |
| `Views.OnlineIff` | app.py:84-85 | a user is online at query time q exactly when q <= last_visit + 300 |
| `Views.VisitorOnlineWindow` | app.py:46-47 | after a successful request at T, its user is online at every q in [T, T + 300] and not at any later q |
| `Views.ReturningVisitor` | app.py:40-41 | an existing cookie adds no row, so unique_users is unchanged; that user's last_visit becomes now, no other record changes, and the reply is (old count + 1, the cookie) |
| `Views.CookieRegistersNewUser` | app.py:40-41 | corrected handler: a cookie with an unknown id registers it: one more user, and the reply echoes the cookie |
| `Views.NewVisitor` | app.py:43-44 | corrected handler: without a cookie and with a free generated id, exactly one user is added, keyed by the id generated from now, and the reply carries that id |
| `Views.IdCollision` | app.py:36-44 | without a cookie and with the generated id already taken, the request fails, the user table is unchanged and the view stays counted |
| `Views.IncrementThenCount` | app.py:36-38 | after an increment, today's count is one higher and yesterday's is unchanged |
| `Views.YesterdayIsPreviousToday` | app.py:60-64 | the yesterday of a query is the today of a query made one day earlier |
| `History.Replay` | app.py:36-47 | corrected handler: over any sequence of requests no ViewCount or User row is deleted and no day's count goes down |
| `History.SameDayReplay` | app.py:36-38 | N requests on one day raise that day's count by exactly N, whether or not their user part fails |
| `History.OtherDaysReplay` | app.py:36-38 | requests on other days never change a day's count |
| `History.ReplayUsers` | app.py:40-47 | corrected handler: users are never removed; after a sequence of requests the users are the earlier ones plus the ids in the successful replies |
| `History.UniqueUsersCountsDistinctIds` | app.py:74-76 | corrected handler: starting from a fresh database, unique_users equals the number of distinct ids successfully upserted |
| `History.ThreeNewVisitors` | app.py:36-50 | corrected handler: three cookieless visits at different times of one day give three distinct ids, three users and a count of three |
| `History.ReturningCookie` | app.py:40-47 | corrected handler: cookie "abc" at 10:00 and 10:02 gives one user and a count of two; it is online at 10:03 and not at 10:10 |
| `History.FirstVisitAsWritten` | app.py:41-44 | as written, on an empty user table every request fails, no user is ever added and the view is still counted; the corrected handler registers the visitor |
| `App.Tracker.constructor` | app.py:25-27 | a new database has both tables empty |
| `App.Tracker.IncrementViews` | app.py:30-51 | corrected handler: the updated tables and the reply are exactly those of `Views.Increment` on the old tables |

## Findings

| source | as written | input that shows it | evidently intended | confidence | as-written member | corrected member |
|---|---|---|---|---|---|---|
| app.py:41-44 | New user rows are inserted with only `user_id`. `last_visit` (app.py:23) is declared without `null=True`, so its column is NOT NULL, and the INSERT fails with an integrity error. The handler then answers 500 without a cookie, after the view was saved. | the first `POST /increment` without a cookie on a fresh database (or one with a cookie that names no user) | insert the new row with `last_visit = now` (`User.create(user_id=..., last_visit=now)`, `get_or_create(..., defaults={'last_visit': now})`) | not executed; high, given peewee's default `null=False` for fields | `Views.IncrementAsWritten`, `History.FirstVisitAsWritten` | `Views.Increment`, `History.UniqueUsersCountsDistinctIds` |

## Left out

- HTTP plumbing: routing, JSON bodies and messages, response objects, CORS, and the cookie's one-year `max_age`. A reply is the `views` value plus the cookie id.
- The database connection, table creation and ORM internals. The tables are modelled as maps. Storage failures are not modelled, so the read-only queries always return a value.
- The unused `online_count` column of ViewCount.
- Concurrency: races between concurrent read-modify-write increments, and between concurrent creates of one user.
- The calendar and time zone behaviour of `datetime`: local time is a count of seconds from a local midnight, with no daylight-saving jumps.
- Clock resolution: the clock has whole seconds, where `datetime.now()` has microseconds. So a generated id is the decimal time followed by `.0`, which is what Python prints for a float with no fraction below 10^16. As a result, cookieless visits collide within the same second in the model, rather than within the same microsecond.
- TimestampId: renders the local-clock reading in seconds, whereas `timestamp()` gives POSIX seconds, which differ from local time by the UTC offset. The model keeps only that the id is a fixed injective function of the clock reading.
- Exception messages. Every `except` branch becomes the single `Failed` result, and the two constraint violations are not told apart.
- The 64-bit limit of SQLite integers. Counts are unbounded naturals.
- The `__main__` server startup.
