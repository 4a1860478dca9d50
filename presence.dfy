/** Room membership (`room_participants`) and room presence (`room_presence`): the heartbeat
    upsert, the leave delete, the membership check and the 30-second online window. */
module Presence {
  import opened Tables
  import opened Ordering

  /** THRESHOLD_SECONDS of GET /rooms/:roomId/online-participants. */
  const ThresholdSeconds := 30

  /** A row of `room_participants`, keyed by the pair itself. */
  datatype Membership = Membership(roomId: int, userId: int)

  /** A row of `room_presence`, keyed by (roomId, userId). */
  datatype PresenceRow = PresenceRow(roomId: int, userId: int, lastSeen: int)

  /** What the online-participants route returns per user. */
  datatype Participant = Participant(id: int, username: Value, avatarUrl: Value)

  // ---------------------------------------------------------------- room_participants

  /** `INSERT IGNORE INTO room_participants`: adds the row unless it is already there. */
  function InsertIgnore(rows: seq<Membership>, m: Membership): (r: seq<Membership>)
    ensures m in r
    ensures rows <= r
    ensures forall k :: 0 <= k < |r| ==> r[k] in rows || r[k] == m
    ensures Distinct(rows) ==> Distinct(r)
  {
    if m in rows then rows else rows + [m]
  }

  /** `SELECT 1 FROM room_participants WHERE user_id = ? AND room_id = ?` returns a row. */
  function IsMember(rows: seq<Membership>, roomId: int, userId: int): (r: bool)
    ensures r <==> Membership(roomId, userId) in rows
  {
    if rows == [] then false
    else
      assert rows == [rows[0]] + rows[1..];
      (rows[0].userId == userId && rows[0].roomId == roomId) || IsMember(rows[1..], roomId, userId)
  }

  /** Joining through a heartbeat makes the user a member and keeps every earlier membership. */
  lemma InsertIgnoreEnrolls(rows: seq<Membership>, roomId: int, userId: int, room': int, user': int)
    ensures IsMember(InsertIgnore(rows, Membership(roomId, userId)), roomId, userId)
    ensures IsMember(rows, room', user') ==> IsMember(InsertIgnore(rows, Membership(roomId, userId)), room', user')
  {
  }

  // ---------------------------------------------------------------- room_presence

  predicate HasKey(row: PresenceRow, roomId: int, userId: int)
  {
    row.roomId == roomId && row.userId == userId
  }

  /** The unique key (room_id, user_id) of room_presence holds. */
  ghost predicate PresenceKeysUnique(rows: seq<PresenceRow>)
  {
    forall i, j :: 0 <= i < j < |rows| ==> !HasKey(rows[j], rows[i].roomId, rows[i].userId)
  }

  /** The keyed view of the table: the last_seen stored for (roomId, userId), if any. */
  function LastSeen(rows: seq<PresenceRow>, roomId: int, userId: int): (r: Option<int>)
    ensures r.Some? <==> exists i :: 0 <= i < |rows| && HasKey(rows[i], roomId, userId)
    ensures r.Some? ==> exists i :: 0 <= i < |rows| && HasKey(rows[i], roomId, userId) && rows[i].lastSeen == r.value
  {
    if rows == [] then None
    else if HasKey(rows[0], roomId, userId) then Some(rows[0].lastSeen)
    else
      var r := LastSeen(rows[1..], roomId, userId);
      assert forall i :: 0 <= i < |rows[1..]| ==> rows[1..][i] == rows[i + 1];
      r
  }

  /** `ON DUPLICATE KEY UPDATE last_seen = NOW()` applied to the existing row. */
  function Touch(rows: seq<PresenceRow>, roomId: int, userId: int, now: int): (r: seq<PresenceRow>)
    ensures |r| == |rows|
    ensures forall i :: 0 <= i < |rows| ==> HasKey(r[i], rows[i].roomId, rows[i].userId)
  {
    seq(|rows|, i requires 0 <= i < |rows| =>
      if HasKey(rows[i], roomId, userId) then rows[i].(lastSeen := now) else rows[i])
  }

  lemma {:induction false} TouchLastSeen(rows: seq<PresenceRow>, roomId: int, userId: int, now: int, room': int, user': int)
    ensures LastSeen(Touch(rows, roomId, userId, now), room', user')
         == if room' == roomId && user' == userId && LastSeen(rows, room', user').Some? then Some(now)
            else LastSeen(rows, room', user')
  {
    if rows != [] {
      TouchLastSeen(rows[1..], roomId, userId, now, room', user');
      assert Touch(rows, roomId, userId, now)[1..] == Touch(rows[1..], roomId, userId, now);
    }
  }

  /** The presence heartbeat: `INSERT INTO room_presence ... VALUES (?, ?, NOW())
      ON DUPLICATE KEY UPDATE last_seen = NOW()`. */
  function Upsert(rows: seq<PresenceRow>, roomId: int, userId: int, now: int): (r: seq<PresenceRow>)
    ensures forall room', user' {:trigger LastSeen(r, room', user')} ::
      LastSeen(r, room', user') == if room' == roomId && user' == userId then Some(now) else LastSeen(rows, room', user')
    ensures |r| == if LastSeen(rows, roomId, userId).Some? then |rows| else |rows| + 1
    ensures PresenceKeysUnique(rows) ==> PresenceKeysUnique(r)
  {
    var r := if LastSeen(rows, roomId, userId).Some? then Touch(rows, roomId, userId, now)
             else rows + [PresenceRow(roomId, userId, now)];
    assert forall room', user' {:trigger LastSeen(r, room', user')} ::
      LastSeen(r, room', user') == if room' == roomId && user' == userId then Some(now) else LastSeen(rows, room', user') by {
      forall room', user' ensures LastSeen(r, room', user') == if room' == roomId && user' == userId then Some(now) else LastSeen(rows, room', user') {
        if LastSeen(rows, roomId, userId).Some? {
          TouchLastSeen(rows, roomId, userId, now, room', user');
        } else {
          LastSeenAppend(rows, PresenceRow(roomId, userId, now), room', user');
        }
      }
    }
    r
  }

  lemma {:induction false} LastSeenAppend(rows: seq<PresenceRow>, row: PresenceRow, roomId: int, userId: int)
    ensures LastSeen(rows + [row], roomId, userId)
         == if LastSeen(rows, roomId, userId).None? && HasKey(row, roomId, userId) then Some(row.lastSeen)
            else LastSeen(rows, roomId, userId)
  {
    if rows != [] {
      assert (rows + [row])[1..] == rows[1..] + [row];
      LastSeenAppend(rows[1..], row, roomId, userId);
    }
  }

  /** After a heartbeat there is exactly one row for (roomId, userId), and it carries `now`. */
  lemma UpsertSingleRow(rows: seq<PresenceRow>, roomId: int, userId: int, now: int)
    requires PresenceKeysUnique(rows)
    ensures var r := Upsert(rows, roomId, userId, now);
      exists i :: 0 <= i < |r| && HasKey(r[i], roomId, userId) && r[i].lastSeen == now
        && forall j :: 0 <= j < |r| && HasKey(r[j], roomId, userId) ==> j == i
  {
    var r := Upsert(rows, roomId, userId, now);
    assert LastSeen(r, roomId, userId) == Some(now);
    var i :| 0 <= i < |r| && HasKey(r[i], roomId, userId) && r[i].lastSeen == now;
    assert PresenceKeysUnique(r);
  }

  /** Two heartbeats in a row leave the table exactly as one heartbeat with the later time. */
  lemma UpsertIdempotent(rows: seq<PresenceRow>, roomId: int, userId: int, t1: int, t2: int)
    ensures Upsert(Upsert(rows, roomId, userId, t1), roomId, userId, t2) == Upsert(rows, roomId, userId, t2)
  {
    var once := Upsert(rows, roomId, userId, t1);
    assert LastSeen(once, roomId, userId).Some?;
    if LastSeen(rows, roomId, userId).Some? {
      assert Touch(once, roomId, userId, t2) == Touch(rows, roomId, userId, t2);
    } else {
      var row := PresenceRow(roomId, userId, t1);
      forall i | 0 <= i < |rows|
        ensures !HasKey(rows[i], roomId, userId)
      {
      }
      assert Touch(rows + [row], roomId, userId, t2) == rows + [row.(lastSeen := t2)];
    }
  }

  /** `DELETE FROM room_presence WHERE room_id = ? AND user_id = ?`. */
  function Delete(rows: seq<PresenceRow>, roomId: int, userId: int): (r: seq<PresenceRow>)
    ensures forall row :: row in r <==> row in rows && !HasKey(row, roomId, userId)
    ensures forall room', user' {:trigger LastSeen(r, room', user')} ::
      LastSeen(r, room', user') == if room' == roomId && user' == userId then None else LastSeen(rows, room', user')
    ensures PresenceKeysUnique(rows) ==> PresenceKeysUnique(r)
  {
    if rows == [] then []
    else
      var rest := Delete(rows[1..], roomId, userId);
      assert rows == [rows[0]] + rows[1..];
      forall k | 0 <= k < |rest| && PresenceKeysUnique(rows)
        ensures !HasKey(rest[k], rows[0].roomId, rows[0].userId)
      {
        assert rest[k] in rows[1..];
        var j :| 0 <= j < |rows[1..]| && rows[1..][j] == rest[k];
        assert rows[j + 1] == rest[k];
      }
      if HasKey(rows[0], roomId, userId) then rest else [rows[0]] + rest
  }

  // ---------------------------------------------------------------- online participants

  /** `TIMESTAMPDIFF(SECOND, rp.last_seen, NOW()) <= 30`: seen at most thirty seconds ago, or at a
      time stamped after now. */
  predicate IsOnline(lastSeen: int, now: int)
  {
    now - lastSeen <= ThresholdSeconds
  }

  /** The window is inclusive: a row seen exactly thirty seconds ago is online, one seen
      thirty-one seconds ago is not. */
  lemma OnlineBoundary(now: int)
    ensures IsOnline(now - 30, now)
    ensures !IsOnline(now - 31, now)
  {
  }

  /** A later heartbeat never takes a user offline, and whoever is online now was online at every
      earlier moment. */
  lemma OnlineWindowMonotone(seen: int, laterSeen: int, now: int, earlier: int)
    requires seen <= laterSeen && earlier <= now
    ensures IsOnline(seen, now) ==> IsOnline(laterSeen, now) && IsOnline(seen, earlier)
    ensures IsOnline(now, now)
  {
  }

  /** Presence rows counted as online in the room. */
  predicate Fresh(row: PresenceRow, roomId: int, now: int)
  {
    row.roomId == roomId && IsOnline(row.lastSeen, now)
  }

  function ParticipantOf(p: Profile): Participant
  {
    Participant(p.userId, p.Get(Username), p.Get(AvatarUrl))
  }

  /** GET /rooms/:roomId/online-participants with the profile joined on `user_id`: one entry per
      presence row of the room that is at most 30 seconds old and whose user has a profile. */
  function OnlineParticipants(rows: seq<PresenceRow>, profiles: seq<Profile>, roomId: int, now: int): (r: seq<Participant>)
    ensures |r| <= |rows|
    ensures forall k :: 0 <= k < |r| ==> ProfileOf(profiles, r[k].id).Some? && r[k] == ParticipantOf(ProfileOf(profiles, r[k].id).value)
  {
    if rows == [] then []
    else
      var rest := OnlineParticipants(rows[1..], profiles, roomId, now);
      var p := ProfileOf(profiles, rows[0].userId);
      if Fresh(rows[0], roomId, now) && p.Some? then
        var r := [ParticipantOf(p.value)] + rest;
        assert forall k :: 0 < k < |r| ==> r[k] == rest[k - 1];
        r
      else rest
  }

  /** The result lists user u. */
  predicate ListsParticipant(r: seq<Participant>, u: int)
  {
    exists k :: 0 <= k < |r| && r[k].id == u
  }

  /** The room has a presence row of user u at most 30 seconds old. */
  predicate SeenRecently(rows: seq<PresenceRow>, roomId: int, now: int, u: int)
  {
    exists i :: 0 <= i < |rows| && rows[i].userId == u && Fresh(rows[i], roomId, now)
  }

  predicate IdsDistinct(r: seq<Participant>)
  {
    forall k, l :: 0 <= k < l < |r| ==> r[k].id != r[l].id
  }

  lemma ListsParticipantCons(x: Participant, rest: seq<Participant>, u: int)
    ensures ListsParticipant([x] + rest, u) <==> x.id == u || ListsParticipant(rest, u)
  {
    var r := [x] + rest;
    if ListsParticipant(rest, u) {
      var k :| 0 <= k < |rest| && rest[k].id == u;
      assert r[k + 1] == rest[k];
    }
    if ListsParticipant(r, u) && x.id != u {
      var k :| 0 <= k < |r| && r[k].id == u;
      assert r[0] == x;
      assert rest[k - 1] == r[k];
    }
  }

  lemma SeenRecentlyTail(rows: seq<PresenceRow>, roomId: int, now: int, u: int)
    requires rows != []
    ensures SeenRecently(rows, roomId, now, u) <==>
      (rows[0].userId == u && Fresh(rows[0], roomId, now)) || SeenRecently(rows[1..], roomId, now, u)
  {
    if SeenRecently(rows[1..], roomId, now, u) {
      var i :| 0 <= i < |rows[1..]| && rows[1..][i].userId == u && Fresh(rows[1..][i], roomId, now);
      assert rows[i + 1] == rows[1..][i];
    }
    if SeenRecently(rows, roomId, now, u) && !(rows[0].userId == u && Fresh(rows[0], roomId, now)) {
      var i :| 0 <= i < |rows| && rows[i].userId == u && Fresh(rows[i], roomId, now);
      assert rows[1..][i - 1] == rows[i];
    }
  }

  lemma IdsDistinctCons(x: Participant, rest: seq<Participant>)
    requires IdsDistinct(rest) && !ListsParticipant(rest, x.id)
    ensures IdsDistinct([x] + rest)
  {
    var r := [x] + rest;
    forall k, l | 0 <= k < l < |r|
      ensures r[k].id != r[l].id
    {
      assert r[l] == rest[l - 1];
      if k > 0 {
        assert r[k] == rest[k - 1];
      }
    }
  }

  /** A user is listed exactly when the room has a presence row of theirs at most 30 seconds old
      and the user has a profile. */
  lemma {:induction false} OnlineParticipantsExact(rows: seq<PresenceRow>, profiles: seq<Profile>, roomId: int, now: int, userId: int)
    ensures ListsParticipant(OnlineParticipants(rows, profiles, roomId, now), userId)
        <==> SeenRecently(rows, roomId, now, userId) && ProfileOf(profiles, userId).Some?
  {
    if rows != [] {
      var rest := OnlineParticipants(rows[1..], profiles, roomId, now);
      OnlineParticipantsExact(rows[1..], profiles, roomId, now, userId);
      SeenRecentlyTail(rows, roomId, now, userId);
      var p := ProfileOf(profiles, rows[0].userId);
      if Fresh(rows[0], roomId, now) && p.Some? {
        ListsParticipantCons(ParticipantOf(p.value), rest, userId);
      }
    }
  }

  /** With the table's unique key, nobody is listed twice. */
  lemma {:induction false} OnlineParticipantsDistinct(rows: seq<PresenceRow>, profiles: seq<Profile>, roomId: int, now: int)
    requires PresenceKeysUnique(rows)
    ensures IdsDistinct(OnlineParticipants(rows, profiles, roomId, now))
  {
    if rows != [] {
      var rest := OnlineParticipants(rows[1..], profiles, roomId, now);
      assert PresenceKeysUnique(rows[1..]) by {
        assert forall i :: 0 <= i < |rows[1..]| ==> rows[1..][i] == rows[i + 1];
      }
      OnlineParticipantsDistinct(rows[1..], profiles, roomId, now);
      var p := ProfileOf(profiles, rows[0].userId);
      if Fresh(rows[0], roomId, now) && p.Some? {
        var u := rows[0].userId;
        forall i | 0 <= i < |rows[1..]|
          ensures !(rows[1..][i].userId == u && Fresh(rows[1..][i], roomId, now))
        {
          assert rows[1..][i] == rows[i + 1];
          assert !HasKey(rows[i + 1], rows[0].roomId, u);
        }
        OnlineParticipantsExact(rows[1..], profiles, roomId, now, u);
        IdsDistinctCons(ParticipantOf(p.value), rest);
      }
    }
  }

  /** The participants without user `userId`. */
  function WithoutUser(ps: seq<Participant>, userId: int): (r: seq<Participant>)
    ensures forall x :: x in r <==> x in ps && x.id != userId
  {
    if ps == [] then []
    else if ps[0].id == userId then WithoutUser(ps[1..], userId)
    else [ps[0]] + WithoutUser(ps[1..], userId)
  }

  /** Leaving is immediate: right after the delete the user is no longer listed in that room,
      every other participant list entry stays as it was, and other rooms are unaffected. */
  lemma {:induction false} LeaveExcludesAtOnce(rows: seq<PresenceRow>, profiles: seq<Profile>, roomId: int, userId: int, room': int, now: int)
    ensures OnlineParticipants(Delete(rows, roomId, userId), profiles, room', now)
         == if room' == roomId then WithoutUser(OnlineParticipants(rows, profiles, room', now), userId)
            else OnlineParticipants(rows, profiles, room', now)
  {
    if rows != [] {
      LeaveExcludesAtOnce(rows[1..], profiles, roomId, userId, room', now);
      assert rows == [rows[0]] + rows[1..];
    }
  }

  /** A heartbeat makes the user an online participant of the room at that instant, provided the
      user has a profile. */
  lemma HeartbeatShowsOnline(rows: seq<PresenceRow>, profiles: seq<Profile>, roomId: int, userId: int, now: int)
    ensures ListsParticipant(OnlineParticipants(Upsert(rows, roomId, userId, now), profiles, roomId, now), userId)
      <==> ProfileOf(profiles, userId).Some?
  {
    var up := Upsert(rows, roomId, userId, now);
    assert LastSeen(up, roomId, userId) == Some(now);
    var i :| 0 <= i < |up| && HasKey(up[i], roomId, userId) && up[i].lastSeen == now;
    assert Fresh(up[i], roomId, now);
    OnlineParticipantsExact(up, profiles, roomId, now, userId);
  }

  // ---------------------------------------------------------------- the route as written

  /** The first profile whose own key `id` equals x. */
  function ProfileWithRowId(profiles: seq<Profile>, rowId: int): (r: Option<Profile>)
    ensures r.Some? ==> r.value in profiles && r.value.rowId == rowId
    ensures r.None? ==> forall p :: p in profiles ==> p.rowId != rowId
  {
    if profiles == [] then None
    else if profiles[0].rowId == rowId then Some(profiles[0])
    else ProfileWithRowId(profiles[1..], rowId)
  }

  /** The online-participants query as written, `JOIN room_presence rp ON u.id = rp.user_id`,
      returning `u.id`: it matches a presence row's user id against the profile's own row key, so
      every id it reports is a profile row key. */
  function OnlineParticipantsAsWritten(rows: seq<PresenceRow>, profiles: seq<Profile>, roomId: int, now: int): (r: seq<Participant>)
    ensures forall k :: 0 <= k < |r| ==> ProfileWithRowId(profiles, r[k].id).Some?
  {
    if rows == [] then []
    else
      var rest := OnlineParticipantsAsWritten(rows[1..], profiles, roomId, now);
      var p := ProfileWithRowId(profiles, rows[0].userId);
      if Fresh(rows[0], roomId, now) && p.Some? then
        var r := [Participant(p.value.rowId, p.value.Get(Username), p.value.Get(AvatarUrl))] + rest;
        assert forall k :: 0 < k < |r| ==> r[k] == rest[k - 1];
        r
      else rest
  }

  /** A user 2 whose profile row has id 1 sends a heartbeat and is fresh, yet the query as written
      lists nobody; joined on user_id the user is listed. */
  lemma AsWrittenMissesFreshUser()
    ensures var profiles := [Profile(1, 2, map[], 0)];
      var rows := [PresenceRow(7, 2, 100)];
      OnlineParticipantsAsWritten(rows, profiles, 7, 100) == []
      && OnlineParticipants(rows, profiles, 7, 100) == [Participant(2, Null, Null)]
  {
    var profiles := [Profile(1, 2, map[], 0)];
    assert ProfileWithRowId(profiles, 2) == None;
    assert ProfileOf(profiles, 2) == Some(profiles[0]);
  }
}
