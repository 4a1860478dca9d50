/** The private-message table (`private_messages`) as GET /private-conversations/:userId reads it
    and as PUT /private-messages/mark-as-read updates it. */
module Conversations {
  import opened Tables
  import opened Ordering

  /** `CASE WHEN sender_id = ? THEN receiver_id ELSE sender_id END`: the other endpoint. A message a
      user sent to themself has that user as its counterpart. */
  function Counterpart(m: Message, viewer: int): (c: int)
    ensures Involves(m, viewer) ==> Between(m, viewer, c)
    ensures m.senderId != viewer ==> c == m.senderId
  {
    if m.senderId == viewer then m.receiverId else m.senderId
  }

  /** `WHERE sender_id = ? OR receiver_id = ?` of the derived table. */
  predicate Involves(m: Message, viewer: int)
  {
    m.senderId == viewer || m.receiverId == viewer
  }

  /** The filter of the latest-message subquery: the pair in either direction. */
  predicate Between(m: Message, viewer: int, other: int)
  {
    (m.senderId == viewer && m.receiverId == other) || (m.senderId == other && m.receiverId == viewer)
  }

  /** A message falls in the group of `other` exactly when it is between the pair, so messages in
      both directions collapse into one group. */
  lemma GroupIsPair(m: Message, viewer: int, other: int)
    ensures Involves(m, viewer) && Counterpart(m, viewer) == other <==> Between(m, viewer, other)
  {
  }

  ghost predicate IsCounterpart(msgs: seq<Message>, viewer: int, other: int)
  {
    exists m :: m in msgs && Involves(m, viewer) && Counterpart(m, viewer) == other
  }

  /** The group keys of `GROUP BY t.other_user_id`, each once. */
  function Counterparts(msgs: seq<Message>, viewer: int): (r: seq<int>)
    ensures Distinct(r)
    ensures forall o :: o in r <==> IsCounterpart(msgs, viewer, o)
  {
    if msgs == [] then []
    else
      var rest := Counterparts(msgs[1..], viewer);
      assert msgs == [msgs[0]] + msgs[1..];
      var o := Counterpart(msgs[0], viewer);
      if Involves(msgs[0], viewer) && o !in rest then [o] + rest else rest
  }

  /** The messages of the pair, in table order. */
  function PairMessages(msgs: seq<Message>, viewer: int, other: int): (r: seq<Message>)
    ensures forall m :: m in r <==> m in msgs && Between(m, viewer, other)
    ensures IsCounterpart(msgs, viewer, other) ==> r != []
  {
    if msgs == [] then []
    else
      var rest := PairMessages(msgs[1..], viewer, other);
      assert msgs == [msgs[0]] + msgs[1..];
      if Between(msgs[0], viewer, other) then [msgs[0]] + rest else rest
  }

  /** A message of maximal created_at: what `ORDER BY created_at DESC LIMIT 1` may return (ties
      are broken here by table order; MySQL promises no particular one). */
  function Latest(s: seq<Message>): (m: Message)
    requires s != []
    ensures m in s
    ensures forall x :: x in s ==> x.createdAt <= m.createdAt
  {
    if |s| == 1 then s[0]
    else
      var rest := Latest(s[1..]);
      assert s == [s[0]] + s[1..];
      if s[0].createdAt >= rest.createdAt then s[0] else rest
  }

  predicate UnreadFromTo(m: Message, senderId: int, receiverId: int)
  {
    m.senderId == senderId && m.receiverId == receiverId && !m.isRead
  }

  /** `SELECT COUNT(*) FROM private_messages WHERE receiver_id = ? AND is_read = 0 AND sender_id = ?`. */
  function UnreadCount(msgs: seq<Message>, senderId: int, receiverId: int): (r: nat)
    ensures r <= |msgs|
    ensures r == 0 <==> forall m :: m in msgs ==> !UnreadFromTo(m, senderId, receiverId)
  {
    if msgs == [] then 0
    else
      var rest := UnreadCount(msgs[1..], senderId, receiverId);
      assert msgs == [msgs[0]] + msgs[1..];
      if UnreadFromTo(msgs[0], senderId, receiverId) then rest + 1 else rest
  }

  /** One entry of the conversation list (`id`/`user_id` and `profile.id` all carry otherUserId). */
  datatype ConversationRow = ConversationRow(otherUserId: int, lastMessage: string, lastMessageAt: int,
                                             unreadCount: nat, profile: ProfileSummary)

  function LastMessageAt(row: ConversationRow): int
  {
    row.lastMessageAt
  }

  /** The row of the group of `other`: MAX(created_at), the latest content, the unread count and
      the counterpart's profile. */
  function RowFor(msgs: seq<Message>, viewer: int, other: int, p: Profile): (row: ConversationRow)
    requires IsCounterpart(msgs, viewer, other)
    ensures row.otherUserId == other
  {
    var latest := Latest(PairMessages(msgs, viewer, other));
    ConversationRow(other, latest.content, latest.createdAt, UnreadCount(msgs, other, viewer), Summary(p))
  }

  /** What the source promises of a row: last_message_at is the greatest created_at between the
      pair in either direction, last_message the content of a message at that time, unread_count
      the number of unread messages from the counterpart to the viewer, profile the counterpart's. */
  ghost predicate RowMeaning(msgs: seq<Message>, profiles: seq<Profile>, viewer: int, row: ConversationRow)
  {
    var o := row.otherUserId;
    && (exists m :: m in msgs && Between(m, viewer, o) && m.createdAt == row.lastMessageAt && m.content == row.lastMessage)
    && (forall m :: m in msgs && Between(m, viewer, o) ==> m.createdAt <= row.lastMessageAt)
    && row.unreadCount == UnreadCount(msgs, o, viewer)
    && ProfileOf(profiles, o).Some? && row.profile == Summary(ProfileOf(profiles, o).value)
  }

  lemma RowForMeaning(msgs: seq<Message>, profiles: seq<Profile>, viewer: int, other: int)
    requires IsCounterpart(msgs, viewer, other) && ProfileOf(profiles, other).Some?
    ensures RowMeaning(msgs, profiles, viewer, RowFor(msgs, viewer, other, ProfileOf(profiles, other).value))
  {
    var latest := Latest(PairMessages(msgs, viewer, other));
    assert latest in msgs && Between(latest, viewer, other);
  }

  /** The joined rows, one per counterpart of cps that has a profile, in the order of cps. */
  function Rows(msgs: seq<Message>, profiles: seq<Profile>, viewer: int, cps: seq<int>): (r: seq<ConversationRow>)
    requires forall o :: o in cps ==> IsCounterpart(msgs, viewer, o)
    ensures |r| <= |cps|
    ensures forall k :: 0 <= k < |r| ==> r[k].otherUserId in cps
  {
    if cps == [] then []
    else
      var rest := Rows(msgs, profiles, viewer, cps[1..]);
      var p := ProfileOf(profiles, cps[0]);
      if p.Some? then
        var r := [RowFor(msgs, viewer, cps[0], p.value)] + rest;
        assert forall k :: 0 < k < |r| ==> r[k] == rest[k - 1];
        r
      else rest
  }

  lemma {:induction false} RowsAreRowFor(msgs: seq<Message>, profiles: seq<Profile>, viewer: int, cps: seq<int>, k: int)
    requires forall o :: o in cps ==> IsCounterpart(msgs, viewer, o)
    requires 0 <= k < |Rows(msgs, profiles, viewer, cps)|
    ensures var row := Rows(msgs, profiles, viewer, cps)[k];
      ProfileOf(profiles, row.otherUserId).Some?
      && row == RowFor(msgs, viewer, row.otherUserId, ProfileOf(profiles, row.otherUserId).value)
  {
    var r := Rows(msgs, profiles, viewer, cps);
    var rest := Rows(msgs, profiles, viewer, cps[1..]);
    var p := ProfileOf(profiles, cps[0]);
    if p.Some? {
      assert r == [RowFor(msgs, viewer, cps[0], p.value)] + rest;
      if k > 0 {
        assert r[k] == rest[k - 1];
        RowsAreRowFor(msgs, profiles, viewer, cps[1..], k - 1);
      }
    } else {
      assert r == rest;
      RowsAreRowFor(msgs, profiles, viewer, cps[1..], k);
    }
  }

  lemma {:induction false} RowsCover(msgs: seq<Message>, profiles: seq<Profile>, viewer: int, cps: seq<int>, o: int)
    requires forall o :: o in cps ==> IsCounterpart(msgs, viewer, o)
    requires o in cps && ProfileOf(profiles, o).Some?
    ensures exists k :: 0 <= k < |Rows(msgs, profiles, viewer, cps)| && Rows(msgs, profiles, viewer, cps)[k].otherUserId == o
  {
    var r := Rows(msgs, profiles, viewer, cps);
    if cps[0] == o {
      assert r == [RowFor(msgs, viewer, o, ProfileOf(profiles, o).value)] + Rows(msgs, profiles, viewer, cps[1..]);
      assert 0 <= 0 < |r| && r[0].otherUserId == o;
      assert exists k :: 0 <= k < |r| && r[k].otherUserId == o;
    } else {
      RowsCover(msgs, profiles, viewer, cps[1..], o);
      var rest := Rows(msgs, profiles, viewer, cps[1..]);
      var k :| 0 <= k < |rest| && rest[k].otherUserId == o;
      if ProfileOf(profiles, cps[0]).Some? {
        assert r[k + 1] == rest[k];
      }
    }
  }

  /** No two rows are about the same counterpart. */
  predicate OneRowPerUser(r: seq<ConversationRow>)
  {
    forall k, l :: 0 <= k < l < |r| ==> r[k].otherUserId != r[l].otherUserId
  }

  /** Distinct rows drawn from a list with one row per user have one row per user. */
  lemma OneRowPerUserSubset(r: seq<ConversationRow>, rows: seq<ConversationRow>)
    requires Distinct(r) && OneRowPerUser(rows)
    requires forall x :: x in r ==> x in rows
    ensures OneRowPerUser(r)
  {
    forall k, l | 0 <= k < l < |r|
      ensures r[k].otherUserId != r[l].otherUserId
    {
      assert r[k] in rows && r[l] in rows;
      var i :| 0 <= i < |rows| && rows[i] == r[k];
      var j :| 0 <= j < |rows| && rows[j] == r[l];
      assert i != j;
    }
  }

  lemma {:induction false} RowsDistinct(msgs: seq<Message>, profiles: seq<Profile>, viewer: int, cps: seq<int>)
    requires forall o :: o in cps ==> IsCounterpart(msgs, viewer, o)
    requires Distinct(cps)
    ensures OneRowPerUser(Rows(msgs, profiles, viewer, cps))
  {
    if cps != [] {
      var r := Rows(msgs, profiles, viewer, cps);
      var rest := Rows(msgs, profiles, viewer, cps[1..]);
      assert Distinct(cps[1..]) by {
        assert forall i :: 0 <= i < |cps[1..]| ==> cps[1..][i] == cps[i + 1];
      }
      RowsDistinct(msgs, profiles, viewer, cps[1..]);
      var p := ProfileOf(profiles, cps[0]);
      if p.Some? {
        assert r == [RowFor(msgs, viewer, cps[0], p.value)] + rest;
        forall k, l | 0 <= k < l < |r|
          ensures r[k].otherUserId != r[l].otherUserId
        {
          assert r[l] == rest[l - 1];
          if k == 0 {
            assert rest[l - 1].otherUserId in cps[1..];
            assert cps[0] !in cps[1..];
          } else {
            assert r[k] == rest[k - 1];
          }
        }
      }
    }
  }

  /** GET /private-conversations/:userId: the rows of every counterpart with a profile, ordered by
      last_message_at descending. */
  function Conversations(msgs: seq<Message>, profiles: seq<Profile>, viewer: int): (r: seq<ConversationRow>)
    ensures multiset(r) == multiset(Rows(msgs, profiles, viewer, Counterparts(msgs, viewer)))
    ensures NonIncreasing(r, LastMessageAt)
  {
    SortDesc(Rows(msgs, profiles, viewer, Counterparts(msgs, viewer)), LastMessageAt)
  }

  /** The result lists a row for user o. */
  predicate ListsUser(r: seq<ConversationRow>, o: int)
  {
    exists k :: 0 <= k < |r| && r[k].otherUserId == o
  }

  lemma ListsUserSameRows(a: seq<ConversationRow>, b: seq<ConversationRow>, o: int)
    requires forall x :: x in a <==> x in b
    ensures ListsUser(a, o) <==> ListsUser(b, o)
  {
    if ListsUser(a, o) {
      var k :| 0 <= k < |a| && a[k].otherUserId == o;
      assert a[k] in b;
    }
    if ListsUser(b, o) {
      var k :| 0 <= k < |b| && b[k].otherUserId == o;
      assert b[k] in a;
    }
  }

  lemma RowsListExactly(msgs: seq<Message>, profiles: seq<Profile>, viewer: int, o: int)
    ensures ListsUser(Rows(msgs, profiles, viewer, Counterparts(msgs, viewer)), o)
            <==> IsCounterpart(msgs, viewer, o) && ProfileOf(profiles, o).Some?
  {
    var cps := Counterparts(msgs, viewer);
    var rows := Rows(msgs, profiles, viewer, cps);
    if ListsUser(rows, o) {
      var j :| 0 <= j < |rows| && rows[j].otherUserId == o;
      RowsAreRowFor(msgs, profiles, viewer, cps, j);
    }
    if IsCounterpart(msgs, viewer, o) && ProfileOf(profiles, o).Some? {
      RowsCover(msgs, profiles, viewer, cps, o);
    }
  }

  /** A counterpart is listed exactly when the viewer exchanged a message with them and they have
      a profile (the inner join on profiles drops the others). */
  lemma ConversationsCover(msgs: seq<Message>, profiles: seq<Profile>, viewer: int, o: int)
    ensures ListsUser(Conversations(msgs, profiles, viewer), o)
            <==> IsCounterpart(msgs, viewer, o) && ProfileOf(profiles, o).Some?
  {
    var rows := Rows(msgs, profiles, viewer, Counterparts(msgs, viewer));
    SameMembers(Conversations(msgs, profiles, viewer), rows);
    ListsUserSameRows(Conversations(msgs, profiles, viewer), rows, o);
    RowsListExactly(msgs, profiles, viewer, o);
  }

  /** One row per counterpart: the GROUP BY on the unordered pair. */
  lemma ConversationsOneRowEach(msgs: seq<Message>, profiles: seq<Profile>, viewer: int)
    ensures OneRowPerUser(Conversations(msgs, profiles, viewer))
  {
    var cps := Counterparts(msgs, viewer);
    var rows := Rows(msgs, profiles, viewer, cps);
    RowsDistinct(msgs, profiles, viewer, cps);
    assert Distinct(rows);
    SortDescDistinct(rows, LastMessageAt);
    SameMembers(Conversations(msgs, profiles, viewer), rows);
    OneRowPerUserSubset(Conversations(msgs, profiles, viewer), rows);
  }

  /** Every row carries the latest time and content of the pair, the unread count and the profile. */
  lemma ConversationsRowsMean(msgs: seq<Message>, profiles: seq<Profile>, viewer: int)
    ensures forall k :: 0 <= k < |Conversations(msgs, profiles, viewer)| ==>
      RowMeaning(msgs, profiles, viewer, Conversations(msgs, profiles, viewer)[k])
  {
    var cps := Counterparts(msgs, viewer);
    var rows := Rows(msgs, profiles, viewer, cps);
    var r := Conversations(msgs, profiles, viewer);
    SameMembers(r, rows);
    forall k | 0 <= k < |r|
      ensures RowMeaning(msgs, profiles, viewer, r[k])
    {
      assert r[k] in rows;
      var j :| 0 <= j < |rows| && rows[j] == r[k];
      RowsAreRowFor(msgs, profiles, viewer, cps, j);
      RowForMeaning(msgs, profiles, viewer, r[k].otherUserId);
    }
  }

  // ---------------------------------------------------------------- mark-as-read

  /** `UPDATE private_messages SET is_read = 1 WHERE sender_id = ? AND receiver_id = ? AND is_read = 0`. */
  function MarkRead(msgs: seq<Message>, senderId: int, receiverId: int): (r: seq<Message>)
    ensures |r| == |msgs|
    ensures forall i :: 0 <= i < |msgs| ==> r[i] == msgs[i].(isRead := r[i].isRead)
    ensures forall i :: 0 <= i < |msgs| ==>
      r[i].isRead == (msgs[i].isRead || (msgs[i].senderId == senderId && msgs[i].receiverId == receiverId))
  {
    if msgs == [] then []
    else
      var m := msgs[0];
      var rest := MarkRead(msgs[1..], senderId, receiverId);
      var r := [if UnreadFromTo(m, senderId, receiverId) then m.(isRead := true) else m] + rest;
      assert forall i :: 0 < i < |msgs| ==> r[i] == rest[i - 1] && msgs[i] == msgs[1..][i - 1];
      r
  }

  /** After the update no message from senderId to receiverId is unread, so a second call affects
      zero rows. */
  lemma {:induction false} MarkReadClears(msgs: seq<Message>, senderId: int, receiverId: int)
    ensures UnreadCount(MarkRead(msgs, senderId, receiverId), senderId, receiverId) == 0
  {
    var r := MarkRead(msgs, senderId, receiverId);
    forall m | m in r
      ensures !UnreadFromTo(m, senderId, receiverId)
    {
      var i :| 0 <= i < |r| && r[i] == m;
    }
  }

  /** The unread counts of every other direction and pair are untouched. */
  lemma {:induction false} MarkReadKeepsOthers(msgs: seq<Message>, senderId: int, receiverId: int, s': int, r': int)
    requires s' != senderId || r' != receiverId
    ensures UnreadCount(MarkRead(msgs, senderId, receiverId), s', r') == UnreadCount(msgs, s', r')
  {
    if msgs != [] {
      MarkReadKeepsOthers(msgs[1..], senderId, receiverId, s', r');
      var r := MarkRead(msgs, senderId, receiverId);
      assert r[1..] == MarkRead(msgs[1..], senderId, receiverId);
    }
  }

  /** Marking keeps every group: the sender and receiver of each message are unchanged. */
  lemma MarkReadKeepsCounterparts(msgs: seq<Message>, senderId: int, receiverId: int, viewer: int, o: int)
    ensures IsCounterpart(MarkRead(msgs, senderId, receiverId), viewer, o) <==> IsCounterpart(msgs, viewer, o)
  {
    var r := MarkRead(msgs, senderId, receiverId);
    if IsCounterpart(msgs, viewer, o) {
      var m :| m in msgs && Involves(m, viewer) && Counterpart(m, viewer) == o;
      var i :| 0 <= i < |msgs| && msgs[i] == m;
      assert r[i] in r && Involves(r[i], viewer) && Counterpart(r[i], viewer) == o;
    }
    if IsCounterpart(r, viewer, o) {
      var m :| m in r && Involves(m, viewer) && Counterpart(m, viewer) == o;
      var i :| 0 <= i < |r| && r[i] == m;
      assert msgs[i] in msgs && Involves(msgs[i], viewer) && Counterpart(msgs[i], viewer) == o;
    }
  }

  /** After the viewer marks a counterpart's messages as read, that counterpart's row in the
      viewer's list reports zero unread messages. */
  lemma MarkReadZeroesRow(msgs: seq<Message>, profiles: seq<Profile>, senderId: int, viewer: int)
    ensures var r := Conversations(MarkRead(msgs, senderId, viewer), profiles, viewer);
      forall k :: 0 <= k < |r| && r[k].otherUserId == senderId ==> r[k].unreadCount == 0
  {
    ConversationsRowsMean(MarkRead(msgs, senderId, viewer), profiles, viewer);
    MarkReadClears(msgs, senderId, viewer);
  }

  /** A newly sent message is unread, so the receiver's count for the sender grows by one. */
  lemma {:induction false} SendAddsUnread(msgs: seq<Message>, m: Message)
    requires !m.isRead
    ensures UnreadCount(msgs + [m], m.senderId, m.receiverId) == UnreadCount(msgs, m.senderId, m.receiverId) + 1
  {
    if msgs != [] {
      assert (msgs + [m])[1..] == msgs[1..] + [m];
      SendAddsUnread(msgs[1..], m);
    } else {
      assert [m][1..] == [];
    }
  }
}
