/** The backend's MySQL database as one object whose write routes change its tables. Each method is
    one route handler: it validates the request, answers with the handler's status, and changes the
    tables as the handler's SQL statements do, stated through the table functions of the other
    modules. The read routes are those functions applied to the fields. */
module Backend {
  import opened Tables
  import opened Ordering
  import opened Presence
  import opened OnlineStatus
  import opened Conversations
  import opened Blocks
  import opened PrivateMessages
  import opened ProfileUpdate

  class Database {
    var profiles: seq<Profile>
    var roomParticipants: seq<Membership>
    var roomPresence: seq<PresenceRow>
    var onlineStatus: seq<StatusRow>
    var privateMessages: seq<Message>
    var blockedUsers: seq<BlockRow>
    /** The AUTO_INCREMENT counter of private_messages. */
    var nextMessageId: int

    /** The keys the tables' declarations imply stay unique, and every stored message id is below
        the counter. */
    ghost predicate Valid()
      reads this
    {
      && ProfileUsersUnique(profiles)
      && Distinct(roomParticipants)
      && PresenceKeysUnique(roomPresence)
      && StatusKeysUnique(onlineStatus)
      && PairsUnique(blockedUsers)
      && forall i :: 0 <= i < |privateMessages| ==> privateMessages[i].id < nextMessageId
    }

    /** A database holding the given profiles and no other rows. */
    constructor (profiles: seq<Profile>)
      requires ProfileUsersUnique(profiles)
      ensures Valid()
      ensures this.profiles == profiles
      ensures roomParticipants == [] && roomPresence == [] && onlineStatus == []
      ensures privateMessages == [] && blockedUsers == [] && nextMessageId == 1
    {
      this.profiles := profiles;
      roomParticipants, roomPresence, onlineStatus := [], [], [];
      privateMessages, blockedUsers, nextMessageId := [], [], 1;
    }

    /** The status upsert of POST /login, once the credentials are accepted. */
    method Login(userId: int, now: int)
      requires Valid()
      modifies this`onlineStatus
      ensures Valid()
      ensures onlineStatus == RecordLogin(old(onlineStatus), userId, now)
      ensures StatusOf(onlineStatus, userId) == Some(StatusRow(userId, true, now))
    {
      onlineStatus := RecordLogin(onlineStatus, userId, now);
    }

    /** POST /rooms/:roomId/presence: 400 without both ids; otherwise INSERT IGNORE the membership,
        then upsert last_seen. */
    method Heartbeat(roomId: Option<int>, userId: Option<int>, now: int) returns (status: Status)
      requires Valid()
      modifies this`roomParticipants, this`roomPresence
      ensures Valid()
      ensures status == if roomId.None? || userId.None? then BadRequest else OK
      ensures status == BadRequest ==>
        roomParticipants == old(roomParticipants) && roomPresence == old(roomPresence)
      ensures status == OK ==>
        && roomParticipants == InsertIgnore(old(roomParticipants), Membership(roomId.value, userId.value))
        && roomPresence == Upsert(old(roomPresence), roomId.value, userId.value, now)
    {
      if roomId.None? || userId.None? {
        return BadRequest;
      }
      roomParticipants := InsertIgnore(roomParticipants, Membership(roomId.value, userId.value));
      roomPresence := Upsert(roomPresence, roomId.value, userId.value, now);
      status := OK;
    }

    /** DELETE /rooms/:roomId/presence: 400 without both ids; otherwise the presence row goes (200
        whether or not it existed). Membership is kept. */
    method Leave(roomId: Option<int>, userId: Option<int>) returns (status: Status)
      requires Valid()
      modifies this`roomPresence
      ensures Valid()
      ensures status == if roomId.None? || userId.None? then BadRequest else OK
      ensures status == BadRequest ==> roomPresence == old(roomPresence)
      ensures status == OK ==> roomPresence == Delete(old(roomPresence), roomId.value, userId.value)
    {
      if roomId.None? || userId.None? {
        return BadRequest;
      }
      roomPresence := Delete(roomPresence, roomId.value, userId.value);
      status := OK;
    }

    /** The INSERT both send routes make: the next id, the accepted sender and receiver, the content,
        `created_at` NOW(), and `is_read` left to its column default, taken here to be unread. */
    method Insert(d: SendDecision, content: string, now: int) returns (id: int)
      requires Valid() && d.Accept?
      modifies this`privateMessages, this`nextMessageId
      ensures Valid()
      ensures id == old(nextMessageId) && nextMessageId == id + 1
      ensures privateMessages == old(privateMessages) + [Message(id, d.senderId, d.receiverId, content, now, false)]
      ensures forall i :: 0 <= i < |old(privateMessages)| ==> old(privateMessages)[i].id != id
    {
      id := nextMessageId;
      privateMessages := privateMessages + [Message(id, d.senderId, d.receiverId, content, now, false)];
      nextMessageId := nextMessageId + 1;
    }

    /** POST /private-messages: exactly one message is appended when the request is accepted, and
        nothing changes when it is refused (400 or 403). */
    method SendMessage(sender: Option<int>, receiver: Option<int>, content: Option<string>, now: int)
      returns (status: Status, id: Option<int>)
      requires Valid()
      modifies this`privateMessages, this`nextMessageId
      ensures Valid()
      ensures status == TextSend(blockedUsers, sender, receiver, content).Status()
      ensures status == Created ==>
        && id == Some(old(nextMessageId))
        && privateMessages == old(privateMessages) + [Message(id.value, sender.value, receiver.value, content.value, now, false)]
      ensures status != Created ==>
        id.None? && privateMessages == old(privateMessages) && nextMessageId == old(nextMessageId)
    {
      var d := TextSend(blockedUsers, sender, receiver, content);
      if !d.Accept? {
        return d.Status(), None;
      }
      var n := Insert(d, content.value, now);
      status, id := Created, Some(n);
    }

    /** POST /private-messages/upload-image: the same as SendMessage with the image's public URL as
        content; the URL derives from the stored file's generated name and is a parameter here. */
    method SendImage(hasFile: bool, sender: Option<int>, receiver: Option<int>, imageUrl: string, now: int)
      returns (status: Status, id: Option<int>)
      requires Valid()
      modifies this`privateMessages, this`nextMessageId
      ensures Valid()
      ensures status == ImageSend(blockedUsers, hasFile, sender, receiver).Status()
      ensures status == Created ==>
        && id == Some(old(nextMessageId))
        && privateMessages == old(privateMessages) + [Message(id.value, sender.value, receiver.value, imageUrl, now, false)]
      ensures status != Created ==>
        id.None? && privateMessages == old(privateMessages) && nextMessageId == old(nextMessageId)
    {
      var d := ImageSend(blockedUsers, hasFile, sender, receiver);
      if !d.Accept? {
        return d.Status(), None;
      }
      var n := Insert(d, imageUrl, now);
      status, id := Created, Some(n);
    }

    /** PUT /private-messages/mark-as-read: 400 without both ids; otherwise the unread messages
        from senderId to receiverId become read and their number is reported. */
    method MarkAsRead(senderId: Option<int>, receiverId: Option<int>) returns (status: Status, affected: nat)
      requires Valid()
      modifies this`privateMessages
      ensures Valid()
      ensures status == if senderId.None? || receiverId.None? then BadRequest else OK
      ensures status == BadRequest ==> privateMessages == old(privateMessages) && affected == 0
      ensures status == OK ==>
        && privateMessages == MarkRead(old(privateMessages), senderId.value, receiverId.value)
        && affected == UnreadCount(old(privateMessages), senderId.value, receiverId.value)
    {
      if senderId.None? || receiverId.None? {
        return BadRequest, 0;
      }
      affected := UnreadCount(privateMessages, senderId.value, receiverId.value);
      privateMessages := MarkRead(privateMessages, senderId.value, receiverId.value);
      status := OK;
    }

    /** POST /block-user: 400 on a NaN id or a self-block, 409 when the ordered pair is already
        blocked, otherwise one row is inserted. */
    method Block(blockerId: Option<int>, blockedId: Option<int>) returns (status: Status)
      requires Valid()
      modifies this`blockedUsers
      ensures Valid()
      ensures status == BadRequest <==>
        blockerId.None? || blockedId.None? || blockerId.value == blockedId.value
      ensures status != BadRequest ==>
        status == if HasBlocked(old(blockedUsers), blockerId.value, blockedId.value) then Conflict else OK
      ensures status == OK ==> blockedUsers == old(blockedUsers) + [BlockRow(blockerId.value, blockedId.value)]
      ensures status != OK ==> blockedUsers == old(blockedUsers)
    {
      if blockerId.None? || blockedId.None? || blockerId.value == blockedId.value {
        return BadRequest;
      }
      var row := BlockRow(blockerId.value, blockedId.value);
      if HasBlocked(blockedUsers, row.blockerId, row.blockedId) {
        return Conflict;
      }
      assert row !in blockedUsers;
      blockedUsers := blockedUsers + [row];
      status := OK;
    }

    /** POST /unblock-user: 400 on a NaN id or a self-unblock; otherwise the ordered pair's row is
        deleted, with 404 when there was none. */
    method Unblock(blockerId: Option<int>, blockedId: Option<int>) returns (status: Status)
      requires Valid()
      modifies this`blockedUsers
      ensures Valid()
      ensures status == BadRequest <==>
        blockerId.None? || blockedId.None? || blockerId.value == blockedId.value
      ensures status != BadRequest ==>
        && blockedUsers == RemovePair(old(blockedUsers), blockerId.value, blockedId.value)
        && status == if HasBlocked(old(blockedUsers), blockerId.value, blockedId.value) then OK else NotFound
      ensures status != OK ==> blockedUsers == old(blockedUsers)
    {
      if blockerId.None? || blockedId.None? || blockerId.value == blockedId.value {
        return BadRequest;
      }
      var affected := PairCount(blockedUsers, blockerId.value, blockedId.value);
      blockedUsers := RemovePair(blockedUsers, blockerId.value, blockedId.value);
      status := if affected == 0 then NotFound else OK;
    }

    /** PUT /profile/:userId: builds the SET list, runs the UPDATE, and answers 404 when no profile
        of the user matched, otherwise 200 with the row read back. */
    method UpdateProfile(userId: int, patch: ProfilePatch, now: int) returns (status: Status, profile: Option<Profile>)
      requires Valid()
      modifies this`profiles
      ensures Valid()
      ensures profiles == ApplyUpdate(old(profiles), userId, patch, now)
      ensures status == if ProfileOf(old(profiles), userId).None? then NotFound else OK
      ensures status == NotFound ==> profiles == old(profiles) && profile.None?
      ensures status == OK ==> profile == Some(Patched(ProfileOf(old(profiles), userId).value, patch, now))
      ensures status == OK ==> forall k :: 0 <= k < |Supplied(patch)| ==>
        profile.value.Get(Supplied(patch)[k]) == SuppliedValues(patch)[k]
    {
      var fields, values := BuildUpdate(patch, userId);
      var matched := ProfileOf(profiles, userId);
      profiles := ApplyUpdate(profiles, userId, patch, now);
      if matched.None? {
        assert profiles == old(profiles);
        return NotFound, None;
      }
      status, profile := OK, ProfileOf(profiles, userId);
      // The row read back holds, in each column the SET list names, the value bound to it.
      BindingPairsColumnsWithValues(patch, userId, fields, values);
      assert forall k :: 0 <= k < |values| - 1 ==> profile.value.Get(Supplied(patch)[k]) == values[k];
    }
  }
}
