/** Directed blocks (`blocked_users`): the lookups the routes make, the unblock delete, and the
    two flags GET /profile/:userId reports. */
module Blocks {
  import opened Tables

  /** A row of `blocked_users` (its `id` and `created_at` play no part in any decision). */
  datatype BlockRow = BlockRow(blockerId: int, blockedId: int)

  /** `SELECT id FROM blocked_users WHERE blocker_id = ? AND blocked_id = ?`, scanned row by row:
      it finds a row exactly when that ordered pair is in the table. */
  function HasBlocked(rows: seq<BlockRow>, blockerId: int, blockedId: int): (b: bool)
    ensures b <==> BlockRow(blockerId, blockedId) in rows
  {
    if rows == [] then false
    else
      assert rows == [rows[0]] + rows[1..];
      rows[0] == BlockRow(blockerId, blockedId) || HasBlocked(rows[1..], blockerId, blockedId)
  }

  /** The single query of the image route, `(blocker_id = ? AND blocked_id = ?) OR
      (blocker_id = ? AND blocked_id = ?)` with the pair in both orders, scanned row by row: it
      finds a row exactly when the pair is in the table in one order or the other. */
  function BlockedEitherWay(rows: seq<BlockRow>, a: int, b: int): (r: bool)
    ensures r <==> BlockRow(a, b) in rows || BlockRow(b, a) in rows
  {
    if rows == [] then false
    else
      assert rows == [rows[0]] + rows[1..];
      var x := rows[0];
      (x.blockerId == a && x.blockedId == b) || (x.blockerId == b && x.blockedId == a)
      || BlockedEitherWay(rows[1..], a, b)
  }

  /** The combined check of the image route refuses exactly what the two checks of the text route
      refuse. */
  lemma EitherWayIsBothChecks(rows: seq<BlockRow>, a: int, b: int)
    ensures BlockedEitherWay(rows, a, b) <==> HasBlocked(rows, a, b) || HasBlocked(rows, b, a)
  {
  }

  /** At most one row per ordered pair: the 409 check of POST /block-user keeps this. */
  ghost predicate PairsUnique(rows: seq<BlockRow>)
  {
    forall i, j :: 0 <= i < j < |rows| ==> rows[i] != rows[j]
  }

  /** `affectedRows` of the unblock delete: the rows of that ordered pair. */
  function PairCount(rows: seq<BlockRow>, blockerId: int, blockedId: int): (n: nat)
    ensures n == 0 <==> !HasBlocked(rows, blockerId, blockedId)
    ensures PairsUnique(rows) ==> n <= 1
  {
    if rows == [] then 0
    else
      var rest := PairCount(rows[1..], blockerId, blockedId);
      assert forall i :: 0 <= i < |rows[1..]| ==> rows[1..][i] == rows[i + 1];
      assert PairsUnique(rows) ==> PairsUnique(rows[1..]);
      if rows[0] == BlockRow(blockerId, blockedId) then
        assert PairsUnique(rows) ==> !HasBlocked(rows[1..], blockerId, blockedId);
        rest + 1
      else rest
  }

  /** `DELETE FROM blocked_users WHERE blocker_id = ? AND blocked_id = ?`: only that ordered pair
      goes, so the reverse direction and every other pair keep their blocks. */
  function RemovePair(rows: seq<BlockRow>, blockerId: int, blockedId: int): (r: seq<BlockRow>)
    ensures |r| == |rows| - PairCount(rows, blockerId, blockedId)
    ensures PairCount(rows, blockerId, blockedId) == 0 ==> r == rows
    ensures forall x :: x in r <==> x in rows && x != BlockRow(blockerId, blockedId)
    ensures PairsUnique(rows) ==> PairsUnique(r)
  {
    if rows == [] then []
    else
      var rest := RemovePair(rows[1..], blockerId, blockedId);
      assert rows == [rows[0]] + rows[1..];
      assert forall i :: 0 <= i < |rows[1..]| ==> rows[1..][i] == rows[i + 1];
      assert PairsUnique(rows) ==> PairsUnique(rows[1..]) && rows[0] !in rows[1..];
      if rows[0] == BlockRow(blockerId, blockedId) then rest else [rows[0]] + rest
  }

  lemma UnblockLeavesOthers(rows: seq<BlockRow>, blockerId: int, blockedId: int, a: int, b: int)
    ensures !HasBlocked(RemovePair(rows, blockerId, blockedId), blockerId, blockedId)
    ensures a != blockerId || b != blockedId ==>
      (HasBlocked(RemovePair(rows, blockerId, blockedId), a, b) <==> HasBlocked(rows, a, b))
  {
    var r := RemovePair(rows, blockerId, blockedId);
    assert BlockRow(blockerId, blockedId) !in r;
  }

  /** The flags added to GET /profile/:userId?current_user_id=... */
  datatype BlockFlags = BlockFlags(isBlockedByCurrentUser: bool, hasBlockedCurrentUser: bool)

  /** `current` is the parsed current_user_id (None when absent or NaN); a value of 0 is falsy in
      the handler, so it too skips both lookups. */
  function ProfileBlockFlags(rows: seq<BlockRow>, current: Option<int>, userId: int): (f: BlockFlags)
    ensures f.isBlockedByCurrentUser <==>
      current.Some? && current.value != 0 && BlockRow(current.value, userId) in rows
    ensures f.hasBlockedCurrentUser <==>
      current.Some? && current.value != 0 && BlockRow(userId, current.value) in rows
  {
    if current.Some? && current.value != 0 then
      BlockFlags(HasBlocked(rows, current.value, userId), HasBlocked(rows, userId, current.value))
    else BlockFlags(false, false)
  }

  /** The data GET /profile/:userId returns besides the stored columns. */
  datatype ProfileView = ProfileView(profile: Profile, flags: BlockFlags)

  /** GET /profile/:userId: 404 (None) without a profile for the user. */
  function ViewProfile(profiles: seq<Profile>, rows: seq<BlockRow>, userId: int, current: Option<int>): (r: Option<ProfileView>)
    ensures r.None? <==> ProfileOf(profiles, userId).None?
    ensures r.Some? ==> r.value.profile in profiles && r.value.profile.userId == userId
  {
    var p := ProfileOf(profiles, userId);
    if p.None? then None else Some(ProfileView(p.value, ProfileBlockFlags(rows, current, userId)))
  }
}
