/** The two database tables, as maps, and the row operations the handlers
    perform on them. */
module Tables {
  import opened Wrappers

  /** The ViewCount table: one row per day bucket, holding that day's count.
      The unused `online_count` column is not modelled. */
  type DayTable = map<int, nat>

  /** The User table: `user_id` (a unique column) to `last_visit`. */
  type UserTable = map<string, int>

  /** The count stored for day `d`, or 0 when there is no row for it. */
  function CountOf(days: DayTable, d: int): nat {
    if d in days then days[d] else 0
  }

  /** `get_or_create(date=d)` (a missing row starts at the default 0), then
      `count += 1` and `save()`. Day `d` goes up by one, no other day
      changes, and a row for `d` now exists. */
  function Bump(days: DayTable, d: int): (r: DayTable)
    ensures CountOf(r, d) == CountOf(days, d) + 1
    ensures forall e :: e != d ==> CountOf(r, e) == CountOf(days, e)
    ensures r.Keys == days.Keys + {d}
  {
    var withRow := if d in days then days else days[d := 0];
    withRow[d := withRow[d] + 1]
  }

  /** `User.create`: an INSERT with the given `last_visit`, or with the
      column left unset (`None`). It fails when `last_visit` is unset
      (the column is NOT NULL) or when `id` is already taken (the column is
      UNIQUE); otherwise it adds exactly one row and keeps every other. */
  function Insert(users: UserTable, id: string, lastVisit: Option<int>): (r: Result<UserTable>)
    ensures r.Ok? <==> lastVisit.Some? && id !in users
    ensures r.Ok? ==> r.value.Keys == users.Keys + {id} && |r.value| == |users| + 1
    ensures r.Ok? ==> r.value[id] == lastVisit.value
    ensures r.Ok? ==> forall u :: u in users ==> r.value[u] == users[u]
  {
    if lastVisit.None? || id in users then Failed
    else Ok(users[id := lastVisit.value])
  }
}
