/** PUT /profile/:userId: the SET-clause builder and the UPDATE it issues. */
module ProfileUpdate {
  import opened Tables

  /** The body fields of the request; None is `undefined` (the field is absent). `interests` holds
      the text JSON.stringify produced for the client's array. */
  datatype ProfilePatch = ProfilePatch(
    username: Option<Value>, firstName: Option<Value>, lastName: Option<Value>, age: Option<Value>,
    gender: Option<Value>, bio: Option<Value>, location: Option<Value>, interests: Option<Value>,
    avatarUrl: Option<Value>)

  function Field(patch: ProfilePatch, c: Column): Option<Value>
  {
    match c
    case Username => patch.username
    case FirstName => patch.firstName
    case LastName => patch.lastName
    case Age => patch.age
    case Gender => patch.gender
    case Bio => patch.bio
    case Location => patch.location
    case Interests => patch.interests
    case AvatarUrl => patch.avatarUrl
  }

  /** The order in which the handler tests the fields. */
  const ColumnOrder: seq<Column> := [Username, FirstName, LastName, Age, Gender, Bio, Location, Interests, AvatarUrl]

  function ColumnName(c: Column): string
  {
    match c
    case Username => "username"
    case FirstName => "first_name"
    case LastName => "last_name"
    case Age => "age"
    case Gender => "gender"
    case Bio => "bio"
    case Location => "location"
    case Interests => "interests"
    case AvatarUrl => "avatar_url"
  }

  function Clause(c: Column): string
  {
    ColumnName(c) + " = ?"
  }

  const UpdatedAtClause := "updated_at = NOW()"

  /** Every column is tested once. */
  lemma ColumnOrderComplete(c: Column)
    ensures exists i :: 0 <= i < |ColumnOrder| && ColumnOrder[i] == c
  {
    match c
    case Username => assert ColumnOrder[0] == c;
    case FirstName => assert ColumnOrder[1] == c;
    case LastName => assert ColumnOrder[2] == c;
    case Age => assert ColumnOrder[3] == c;
    case Gender => assert ColumnOrder[4] == c;
    case Bio => assert ColumnOrder[5] == c;
    case Location => assert ColumnOrder[6] == c;
    case Interests => assert ColumnOrder[7] == c;
    case AvatarUrl => assert ColumnOrder[8] == c;
  }

  /** The supplied columns among the first n tested, in test order. */
  function SuppliedUpTo(n: nat, patch: ProfilePatch): seq<Column>
    requires n <= |ColumnOrder|
  {
    if n == 0 then []
    else
      var c := ColumnOrder[n - 1];
      SuppliedUpTo(n - 1, patch) + if Field(patch, c).Some? then [c] else []
  }

  /** The values the patch supplies among the first n columns tested, in test order. */
  function ValuesUpTo(n: nat, patch: ProfilePatch): seq<Value>
    requires n <= |ColumnOrder|
  {
    if n == 0 then []
    else
      var f := Field(patch, ColumnOrder[n - 1]);
      ValuesUpTo(n - 1, patch) + if f.Some? then [f.value] else []
  }

  /** The first n tests pick exactly the supplied columns among the first n, and pair each with
      the value the patch gives it. */
  lemma {:induction false} UpToFacts(n: nat, patch: ProfilePatch)
    requires n <= |ColumnOrder|
    ensures forall c :: c in SuppliedUpTo(n, patch) <==>
      Field(patch, c).Some? && exists i :: 0 <= i < n && ColumnOrder[i] == c
    ensures |ValuesUpTo(n, patch)| == |SuppliedUpTo(n, patch)|
    ensures forall k :: 0 <= k < |ValuesUpTo(n, patch)| ==>
      Field(patch, SuppliedUpTo(n, patch)[k]) == Some(ValuesUpTo(n, patch)[k])
  {
    if n > 0 {
      UpToFacts(n - 1, patch);
    }
  }

  /** The columns the patch supplies, in the handler's order: exactly those whose field is
      defined. */
  function Supplied(patch: ProfilePatch): (r: seq<Column>)
    ensures forall c :: c in r <==> Field(patch, c).Some?
  {
    var r := SuppliedUpTo(|ColumnOrder|, patch);
    UpToFacts(|ColumnOrder|, patch);
    assert forall c :: c in r <==> Field(patch, c).Some? by {
      forall c ensures c in r <==> Field(patch, c).Some? {
        ColumnOrderComplete(c);
      }
    }
    r
  }

  function SuppliedValues(patch: ProfilePatch): (r: seq<Value>)
    ensures |r| == |Supplied(patch)|
    ensures forall k :: 0 <= k < |r| ==> Field(patch, Supplied(patch)[k]) == Some(r[k])
  {
    UpToFacts(|ColumnOrder|, patch);
    ValuesUpTo(|ColumnOrder|, patch)
  }

  function Clauses(cols: seq<Column>): (r: seq<string>)
    ensures |r| == |cols|
  {
    seq(|cols|, k requires 0 <= k < |cols| => Clause(cols[k]))
  }

  lemma ClausesSnoc(cols: seq<Column>, c: Column)
    ensures Clauses(cols + [c]) == Clauses(cols) + [Clause(c)]
  {
  }

  /** One of the handler's nine tests: `if (x !== undefined) { updateFields.push(clause);
      updateValues.push(x); }`. When x is the field of the n-th column tested and clause is that
      column's clause, the two lists grow from those of the first n columns to those of the first
      n + 1. */
  method PushIfDefined(fields: seq<string>, values: seq<Value>, x: Option<Value>, clause: string,
                       ghost n: nat, ghost patch: ProfilePatch)
    returns (fields': seq<string>, values': seq<Value>)
    requires n < |ColumnOrder| && x == Field(patch, ColumnOrder[n]) && clause == Clause(ColumnOrder[n])
    requires fields == Clauses(SuppliedUpTo(n, patch)) && values == ValuesUpTo(n, patch)
    ensures fields' == Clauses(SuppliedUpTo(n + 1, patch))
    ensures values' == ValuesUpTo(n + 1, patch)
  {
    fields', values' := fields, values;
    if x.Some? {
      fields' := fields' + [clause];
      values' := values' + [x.value];
      ClausesSnoc(SuppliedUpTo(n, patch), ColumnOrder[n]);
    }
  }

  /** The handler's builder: one clause `<column> = ?` and one value per supplied field, in the
      fixed order, then `updated_at = NOW()` with no value, then userId for the WHERE. Since the
      last clause is always there, the list of clauses is never empty, and the "nothing to update"
      400 that follows it cannot be reached. The query then has exactly one `?` per value. */
  method BuildUpdate(patch: ProfilePatch, userId: int) returns (fields: seq<string>, values: seq<Value>)
    ensures fields == Clauses(Supplied(patch)) + [UpdatedAtClause]
    ensures values == SuppliedValues(patch) + [Int(userId)]
    ensures |fields| != 0
    ensures Placeholders(UpdateQuery(fields)) == |values|
  {
    fields, values := [], [];
    fields, values := PushIfDefined(fields, values, patch.username, Clause(Username), 0, patch);
    fields, values := PushIfDefined(fields, values, patch.firstName, Clause(FirstName), 1, patch);
    fields, values := PushIfDefined(fields, values, patch.lastName, Clause(LastName), 2, patch);
    fields, values := PushIfDefined(fields, values, patch.age, Clause(Age), 3, patch);
    fields, values := PushIfDefined(fields, values, patch.gender, Clause(Gender), 4, patch);
    fields, values := PushIfDefined(fields, values, patch.bio, Clause(Bio), 5, patch);
    fields, values := PushIfDefined(fields, values, patch.location, Clause(Location), 6, patch);
    fields, values := PushIfDefined(fields, values, patch.interests, Clause(Interests), 7, patch);
    fields, values := PushIfDefined(fields, values, patch.avatarUrl, Clause(AvatarUrl), 8, patch);
    fields := fields + [UpdatedAtClause];
    values := values + [Int(userId)];
    QueryPlaceholders(Supplied(patch));
  }

  /** `Array.prototype.join`. */
  function Join(parts: seq<string>, sep: string): string
  {
    if |parts| == 0 then ""
    else if |parts| == 1 then parts[0]
    else parts[0] + sep + Join(parts[1..], sep)
  }

  function UpdateQuery(fields: seq<string>): string
  {
    QueryHead + Join(fields, ", ") + QueryTail
  }

  /** The number of `?` placeholders in a query. */
  function Placeholders(s: string): nat
  {
    if s == [] then 0 else (if s[0] == '?' then 1 else 0) + Placeholders(s[1..])
  }

  function TotalPlaceholders(parts: seq<string>): nat
  {
    if parts == [] then 0 else Placeholders(parts[0]) + TotalPlaceholders(parts[1..])
  }

  lemma {:induction false} PlaceholdersConcat(a: string, b: string)
    ensures Placeholders(a + b) == Placeholders(a) + Placeholders(b)
  {
    if a == [] {
      assert a + b == b;
    } else {
      assert (a + b)[1..] == a[1..] + b;
      PlaceholdersConcat(a[1..], b);
    }
  }

  lemma {:induction false} NoPlaceholders(s: string)
    requires '?' !in s
    ensures Placeholders(s) == 0
  {
    if s != [] {
      assert s == [s[0]] + s[1..];
      NoPlaceholders(s[1..]);
    }
  }

  lemma {:induction false} JoinPlaceholders(parts: seq<string>, sep: string)
    requires Placeholders(sep) == 0
    ensures Placeholders(Join(parts, sep)) == TotalPlaceholders(parts)
  {
    if |parts| > 1 {
      JoinPlaceholders(parts[1..], sep);
      PlaceholdersConcat(parts[0], sep);
      PlaceholdersConcat(parts[0] + sep, Join(parts[1..], sep));
      assert TotalPlaceholders(parts[1..]) == Placeholders(parts[1]) + TotalPlaceholders(parts[2..]);
    } else if |parts| == 1 {
      assert parts[1..] == [];
    }
  }

  /** A text without `?` followed by one `?` holds one placeholder. */
  lemma {:induction false} MarkAfter(t: string)
    requires '?' !in t
    ensures Placeholders(t + ['?']) == 1
  {
    NoPlaceholders(t);
    PlaceholdersConcat(t, ['?']);
    assert ['?'][1..] == [];
  }

  lemma ClausePlaceholders(c: Column)
    ensures Placeholders(Clause(c)) == 1
  {
    assert Clause(c) == (ColumnName(c) + " = ") + ['?'];
    MarkAfter(ColumnName(c) + " = ");
  }

  lemma {:induction false} TotalPlaceholdersConcat(a: seq<string>, b: seq<string>)
    ensures TotalPlaceholders(a + b) == TotalPlaceholders(a) + TotalPlaceholders(b)
  {
    if a == [] {
      assert a + b == b;
    } else {
      assert (a + b)[1..] == a[1..] + b;
      TotalPlaceholdersConcat(a[1..], b);
    }
  }

  lemma {:induction false} ClausesPlaceholders(cols: seq<Column>)
    ensures TotalPlaceholders(Clauses(cols)) == |cols|
  {
    if cols != [] {
      ClausesPlaceholders(cols[1..]);
      ClausePlaceholders(cols[0]);
      assert Clauses(cols)[1..] == Clauses(cols[1..]);
    }
  }

  lemma UpdatedAtPlaceholders()
    ensures Placeholders(UpdatedAtClause) == 0
  {
    NoPlaceholders(UpdatedAtClause);
  }

  lemma {:induction false} TotalSingleton(x: string)
    ensures TotalPlaceholders([x]) == Placeholders(x)
  {
    assert [x][1..] == [];
  }

  /** The query built from a list of supplied columns has one placeholder per column, plus the one
      of the WHERE clause. */
  lemma QueryPlaceholders(cols: seq<Column>)
    ensures Placeholders(UpdateQuery(Clauses(cols) + [UpdatedAtClause])) == |cols| + 1
  {
    JoinedPlaceholders(cols);
    WrappedPlaceholders(Clauses(cols) + [UpdatedAtClause]);
  }

  lemma JoinedPlaceholders(cols: seq<Column>)
    ensures Placeholders(Join(Clauses(cols) + [UpdatedAtClause], ", ")) == |cols|
  {
    NoPlaceholders(", ");
    JoinPlaceholders(Clauses(cols) + [UpdatedAtClause], ", ");
    ClausesPlaceholders(cols);
    UpdatedAtPlaceholders();
    TotalSingleton(UpdatedAtClause);
    TotalPlaceholdersConcat(Clauses(cols), [UpdatedAtClause]);
  }

  const QueryHead := "UPDATE profiles SET "
  const TailText := " WHERE user_id = "
  const QueryTail := TailText + ['?']

  lemma {:induction false} Placeholders3(a: string, b: string, c: string)
    ensures Placeholders(a + b + c) == Placeholders(a) + Placeholders(b) + Placeholders(c)
  {
    PlaceholdersConcat(a, b);
    PlaceholdersConcat(a + b, c);
  }

  lemma HeadPlaceholders()
    ensures Placeholders(QueryHead) == 0
  {
    NoPlaceholders(QueryHead);
  }

  lemma TailPlaceholders()
    ensures Placeholders(QueryTail) == 1
  {
    MarkAfter(TailText);
  }

  /** The text around the SET list adds only the WHERE clause's placeholder. */
  lemma WrappedPlaceholders(fields: seq<string>)
    ensures Placeholders(UpdateQuery(fields)) == Placeholders(Join(fields, ", ")) + 1
  {
    HeadPlaceholders();
    TailPlaceholders();
    Placeholders3(QueryHead, Join(fields, ", "), QueryTail);
  }

  /** Positional binding of the built query: the k-th clause names the k-th supplied column and
      the k-th value is what the patch supplies for it; the last value goes to the WHERE. */
  lemma BindingPairsColumnsWithValues(patch: ProfilePatch, userId: int, fields: seq<string>, values: seq<Value>)
    requires fields == Clauses(Supplied(patch)) + [UpdatedAtClause]
    requires values == SuppliedValues(patch) + [Int(userId)]
    ensures |fields| == |values|
    ensures values[|values| - 1] == Int(userId)
    ensures forall k :: 0 <= k < |values| - 1 ==>
      var c := Supplied(patch)[k];
      fields[k] == Clause(c) && Field(patch, c) == Some(values[k])
  {
  }

  /** The row after `SET`: supplied columns take the patch's value (a supplied null clears the
      column), the others keep theirs, and `updated_at` becomes now. */
  function Patched(p: Profile, patch: ProfilePatch, now: int): (q: Profile)
    ensures q.rowId == p.rowId && q.userId == p.userId && q.updatedAt == now
    ensures forall c :: q.Get(c) == if Field(patch, c).Some? then Field(patch, c).value else p.Get(c)
  {
    var cols := map c: Column | c in p.columns.Keys || Field(patch, c).Some? ::
      if Field(patch, c).Some? then Field(patch, c).value else p.columns[c];
    p.(columns := cols, updatedAt := now)
  }

  /** `UPDATE profiles SET ... WHERE user_id = ?`: every row of that user is patched, no other row
      changes. User ids are kept, so they stay unique, and the profile the route then reads back
      (index.js:857-866) is the patched one while every other user reads back unchanged. */
  function ApplyUpdate(profiles: seq<Profile>, userId: int, patch: ProfilePatch, now: int): (r: seq<Profile>)
    ensures |r| == |profiles|
    ensures forall i :: 0 <= i < |profiles| ==>
      r[i] == if profiles[i].userId == userId then Patched(profiles[i], patch, now) else profiles[i]
    ensures forall u {:trigger ProfileOf(r, u)} ::
      ProfileOf(r, u) == match ProfileOf(profiles, u)
        case None => None
        case Some(p) => Some(if u == userId then Patched(p, patch, now) else p)
    ensures ProfileUsersUnique(profiles) ==> ProfileUsersUnique(r)
  {
    if profiles == [] then []
    else
      var head := if profiles[0].userId == userId then Patched(profiles[0], patch, now) else profiles[0];
      var rest := ApplyUpdate(profiles[1..], userId, patch, now);
      var r := [head] + rest;
      assert r[1..] == rest;
      assert forall i :: 0 <= i < |r| ==> r[i].userId == profiles[i].userId;
      r
  }
}
