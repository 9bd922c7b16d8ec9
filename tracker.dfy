/** The database the handlers update in place: the ViewCount and User
    tables as fields, and `increment_views` as the method that changes them
    row by row. */
module App {
  import opened Wrappers
  import opened Clock
  import opened Ids
  import opened Tables
  import Views

  class Tracker {
    /** ViewCount rows: day bucket to count. */
    var days: DayTable
    /** User rows: `user_id` to `last_visit`. */
    var users: UserTable

    /** The tables as `create_tables` leaves them on a new database file. */
    constructor ()
      ensures days == map[] && users == map[]
    {
      days := map[];
      users := map[];
    }

    /** The database as a value. */
    function Db(): Views.Db
      reads this
    {
      Views.Db(days, users)
    }

    /** `POST /increment` at time `now`, with the request's `user_id`
        cookie, in its corrected form: a new user row is inserted with
        `last_visit = now` (app.py:41 and :44 leave that column unset, which
        `Views.IncrementAsWritten` models). The new tables and the reply are
        those of `Views.Increment`, so every property proved of it holds of
        this method. */
    method IncrementViews(cookie: Option<string>, now: int) returns (r: Result<Views.Reply>)
      modifies this
      ensures Views.Step(Db(), r) == Views.Increment(old(Db()), cookie, now)
    {
      var today := Day(now);
      // ViewCount.get_or_create(date=today_start): a new row starts at 0
      if today !in days {
        days := days[today := 0];
      }
      var count := days[today] + 1;
      // view_count_today.save()
      days := days[today := count];

      var id: string;
      if cookie.Some? && cookie.value != "" {
        id := cookie.value;
        // User.get_or_create(user_id=user_id), creating with last_visit = now
        if id !in users {
          var created := Insert(users, id, Some(now));
          if created.Failed? {
            r := Failed;
            return;
          }
          users := created.value;
        }
      } else {
        id := TimestampId(now);
        // User.create(user_id=user_id) with last_visit = now: fails when the id is taken
        var created := Insert(users, id, Some(now));
        if created.Failed? {
          r := Failed;
          return;
        }
        users := created.value;
      }
      // user.last_visit = now; user.save()
      users := users[id := now];
      r := Ok(Views.Reply(count, id));
    }
  }
}
