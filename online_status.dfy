/** Global online status (`online_status`): the upsert done at login and GET /online-users.
    The stored flag is never cleared by any route and /online-users applies no time window. */
module OnlineStatus {
  import opened Tables
  import opened Ordering

  /** `LIMIT 10` of GET /online-users. */
  const OnlineUsersLimit := 10

  /** A row of `online_status`, keyed by userId. */
  datatype StatusRow = StatusRow(userId: int, online: bool, lastActive: int)

  /** What GET /online-users returns per user. */
  datatype OnlineUser = OnlineUser(id: int, username: Value, firstName: Value, lastName: Value, avatarUrl: Value)

  /** The unique key user_id of online_status holds. */
  ghost predicate StatusKeysUnique(rows: seq<StatusRow>)
  {
    forall i, j :: 0 <= i < j < |rows| ==> rows[i].userId != rows[j].userId
  }

  /** The keyed view of the table: the row stored for userId, if any. */
  function StatusOf(rows: seq<StatusRow>, userId: int): (r: Option<StatusRow>)
    ensures r.Some? <==> exists i :: 0 <= i < |rows| && rows[i].userId == userId
    ensures r.Some? ==> r.value in rows && r.value.userId == userId
  {
    if rows == [] then None
    else if rows[0].userId == userId then Some(rows[0])
    else
      var r := StatusOf(rows[1..], userId);
      assert forall i :: 0 <= i < |rows[1..]| ==> rows[1..][i] == rows[i + 1];
      r
  }

  /** Replaces every row of userId by `row`. */
  function Overwrite(rows: seq<StatusRow>, row: StatusRow): (r: seq<StatusRow>)
    ensures |r| == |rows|
    ensures forall i :: 0 <= i < |rows| ==> r[i].userId == rows[i].userId
  {
    seq(|rows|, i requires 0 <= i < |rows| => if rows[i].userId == row.userId then row else rows[i])
  }

  lemma {:induction false} OverwriteStatusOf(rows: seq<StatusRow>, row: StatusRow, userId: int)
    ensures StatusOf(Overwrite(rows, row), userId)
         == if userId == row.userId && StatusOf(rows, userId).Some? then Some(row) else StatusOf(rows, userId)
  {
    if rows != [] {
      OverwriteStatusOf(rows[1..], row, userId);
      assert Overwrite(rows, row)[1..] == Overwrite(rows[1..], row);
    }
  }

  lemma {:induction false} AppendStatusOf(rows: seq<StatusRow>, row: StatusRow, userId: int)
    ensures StatusOf(rows + [row], userId)
         == if StatusOf(rows, userId).None? && row.userId == userId then Some(row) else StatusOf(rows, userId)
  {
    if rows != [] {
      assert (rows + [row])[1..] == rows[1..] + [row];
      AppendStatusOf(rows[1..], row, userId);
    }
  }

  /** The login upsert: `INSERT INTO online_status (user_id, online, last_active) VALUES (?, TRUE, NOW())
      ON DUPLICATE KEY UPDATE online = TRUE, last_active = NOW()`. */
  function RecordLogin(rows: seq<StatusRow>, userId: int, now: int): (r: seq<StatusRow>)
    ensures forall u {:trigger StatusOf(r, u)} ::
      StatusOf(r, u) == if u == userId then Some(StatusRow(userId, true, now)) else StatusOf(rows, u)
    ensures |r| == if StatusOf(rows, userId).Some? then |rows| else |rows| + 1
    ensures StatusKeysUnique(rows) ==> StatusKeysUnique(r)
  {
    var row := StatusRow(userId, true, now);
    var r := if StatusOf(rows, userId).Some? then Overwrite(rows, row) else rows + [row];
    assert forall u {:trigger StatusOf(r, u)} ::
      StatusOf(r, u) == if u == userId then Some(row) else StatusOf(rows, u) by {
      forall u ensures StatusOf(r, u) == if u == userId then Some(row) else StatusOf(rows, u) {
        if StatusOf(rows, userId).Some? {
          OverwriteStatusOf(rows, row, u);
        } else {
          AppendStatusOf(rows, row, u);
        }
      }
    }
    r
  }

  /** `WHERE o.online = TRUE AND o.user_id != ?` together with the inner join on profiles. */
  predicate Listable(row: StatusRow, profiles: seq<Profile>, exclude: int)
  {
    row.online && row.userId != exclude && ProfileOf(profiles, row.userId).Some?
  }

  function Listed(rows: seq<StatusRow>, profiles: seq<Profile>, exclude: int): (r: seq<StatusRow>)
    ensures forall x :: x in r <==> x in rows && Listable(x, profiles, exclude)
  {
    if rows == [] then []
    else
      var rest := Listed(rows[1..], profiles, exclude);
      assert rows == [rows[0]] + rows[1..];
      if Listable(rows[0], profiles, exclude) then [rows[0]] + rest else rest
  }

  function LastActive(row: StatusRow): int
  {
    row.lastActive
  }

  /** `ORDER BY o.last_active DESC LIMIT 10` over the listable rows: at most ten rows, never the
      excluded user, and only rows flagged online whose user has a profile. */
  function TopOnline(rows: seq<StatusRow>, profiles: seq<Profile>, exclude: int): (r: seq<StatusRow>)
    ensures |r| == if |Listed(rows, profiles, exclude)| < OnlineUsersLimit
      then |Listed(rows, profiles, exclude)| else OnlineUsersLimit
    ensures multiset(r) <= multiset(Listed(rows, profiles, exclude))
    ensures forall k :: 0 <= k < |r| ==> r[k] in rows && Listable(r[k], profiles, exclude)
  {
    var listed := Listed(rows, profiles, exclude);
    var sorted := SortDesc(listed, LastActive);
    var r := Limit(sorted, OnlineUsersLimit);
    assert forall k :: 0 <= k < |r| ==> r[k] in multiset(r);
    r
  }

  /** Newest first: the list is non-increasing in last_active. */
  lemma TopOnlineOrdered(rows: seq<StatusRow>, profiles: seq<Profile>, exclude: int)
    ensures NonIncreasing(TopOnline(rows, profiles, exclude), LastActive)
  {
    var sorted := SortDesc(Listed(rows, profiles, exclude), LastActive);
    assert TopOnline(rows, profiles, exclude) == Limit(sorted, OnlineUsersLimit);
    TopRows(sorted, LastActive, OnlineUsersLimit);
  }

  /** LIMIT keeps the newest: a listable row left out means ten rows were returned, each at least as
      recent as it; so with ten or fewer listable rows none is left out. */
  lemma TopOnlineComplete(rows: seq<StatusRow>, profiles: seq<Profile>, exclude: int, x: StatusRow)
    requires x in rows && Listable(x, profiles, exclude)
    ensures var r := TopOnline(rows, profiles, exclude);
      x !in r ==> |r| == OnlineUsersLimit && x.lastActive <= r[|r| - 1].lastActive
  {
    var listed := Listed(rows, profiles, exclude);
    var sorted := SortDesc(listed, LastActive);
    var r := TopOnline(rows, profiles, exclude);
    assert r == Limit(sorted, OnlineUsersLimit);
    assert x in listed;
    SameMembers(sorted, listed);
    LimitDropsOnlyLower(sorted, LastActive, OnlineUsersLimit, x);
  }

  function OnlineUserOf(row: StatusRow, p: Profile): OnlineUser
  {
    OnlineUser(row.userId, p.Get(Username), p.Get(FirstName), p.Get(LastName), p.Get(AvatarUrl))
  }

  /** GET /online-users?exclude=...: 400 (None) without `exclude`, otherwise one entry per row of
      TopOnline, in its order: a user flagged online, other than the excluded one, with a profile. */
  function OnlineUsers(rows: seq<StatusRow>, profiles: seq<Profile>, exclude: Option<int>): (r: Option<seq<OnlineUser>>)
    ensures r.None? <==> exclude.None?
    ensures r.Some? ==> |r.value| <= OnlineUsersLimit
    ensures r.Some? ==> |r.value| == |TopOnline(rows, profiles, exclude.value)|
    ensures r.Some? ==> forall k :: 0 <= k < |r.value| ==>
      var x := TopOnline(rows, profiles, exclude.value)[k];
      && x in rows && x.online && x.userId != exclude.value
      && r.value[k].id == x.userId && ProfileOf(profiles, x.userId).Some?
  {
    if exclude.None? then None
    else
      var top := TopOnline(rows, profiles, exclude.value);
      Some(seq(|top|, k requires 0 <= k < |top| => OnlineUserOf(top[k], ProfileOf(profiles, top[k].userId).value)))
  }
}
