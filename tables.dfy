/** Row types of the chat backend's MySQL tables and the values a route handler sees. */
module Tables {

  datatype Option<+T> = None | Some(value: T)

  /** HTTP statuses the modelled routes answer with: 200, 201, 400, 403, 404 and 409. */
  datatype Status = OK | Created | BadRequest | Forbidden | NotFound | Conflict

  /** A column value of the profiles table. */
  datatype Value = Null | Int(i: int) | Text(s: string)

  /** The profile columns a client may change through PUT /profile/:userId. */
  datatype Column = Username | FirstName | LastName | Age | Gender | Bio | Location | Interests | AvatarUrl

  /** A row of `profiles`: its own key `rowId` (column `id`), the owning `userId` (column `user_id`),
      the editable columns (a missing entry reads as NULL) and `updated_at`. */
  datatype Profile = Profile(rowId: int, userId: int, columns: map<Column, Value>, updatedAt: int)
  {
    function Get(c: Column): Value
    {
      if c in columns then columns[c] else Null
    }
  }

  /** A row of `private_messages`. `isRead` is the `is_read` flag (0 = false, 1 = true). */
  datatype Message = Message(id: int, senderId: int, receiverId: int, content: string, createdAt: int, isRead: bool)

  /** The display fields of a profile that the conversation list and /online-users return. */
  datatype ProfileSummary = ProfileSummary(username: Value, firstName: Value, lastName: Value, avatarUrl: Value)

  function Summary(p: Profile): ProfileSummary
  {
    ProfileSummary(p.Get(Username), p.Get(FirstName), p.Get(LastName), p.Get(AvatarUrl))
  }

  /** At most one profile per user. The schema is not part of this model; POST /signup, the only
      route that inserts into `profiles`, adds one row for a freshly generated user id. */
  ghost predicate ProfileUsersUnique(profiles: seq<Profile>)
  {
    forall i, j :: 0 <= i < j < |profiles| ==> profiles[i].userId != profiles[j].userId
  }

  /** The profile that `JOIN profiles p ON p.user_id = x` attaches to x, if any. */
  function ProfileOf(profiles: seq<Profile>, userId: int): (r: Option<Profile>)
    ensures r.Some? <==> exists i :: 0 <= i < |profiles| && profiles[i].userId == userId
    ensures r.Some? ==> r.value in profiles && r.value.userId == userId
  {
    if profiles == [] then None
    else if profiles[0].userId == userId then Some(profiles[0])
    else ProfileOf(profiles[1..], userId)
  }

  /** Under unique user ids, ProfileOf returns the one profile of that user. */
  lemma {:induction false} ProfileOfUnique(profiles: seq<Profile>, p: Profile)
    requires ProfileUsersUnique(profiles)
    requires p in profiles
    ensures ProfileOf(profiles, p.userId) == Some(p)
  {
    if profiles[0] != p {
      assert p in profiles[1..];
      ProfileOfUnique(profiles[1..], p);
    }
  }
}
