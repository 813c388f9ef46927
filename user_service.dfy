/**
 * UserService: the in-memory user store. Each public method is one atomic
 * step on the object (the source serialises them with a read/write lock).
 * `now` stands for the time.Now() reading taken during the call.
 */
module UserStore {
  import opened Wrappers
  import opened Records
  import opened AppErrors
  import Text
  import Decimal
  import Sorting
  import Pagination
  import Snapshot

  /** No two live users share a username, and no two share an email (exact comparison). */
  ghost predicate UniqueNamesAndEmails(users: map<string, User>) {
    forall a, b :: a in users && b in users && a != b ==>
      users[a].username != users[b].username && users[a].email != users[b].email
  }

  /** The field checkUniqueField compares: the username for "username", the email for anything else. */
  function FieldValue(u: User, field: string): string {
    if field == "username" then u.username else u.email
  }

  /** Some live user other than `excludeId` has `value` in `field`. */
  ghost predicate TakenByOther(users: map<string, User>, excludeId: string, field: string, value: string) {
    exists k :: k in users && k != excludeId && FieldValue(users[k], field) == value
  }

  /** Some live user has `value` in `field`. */
  ghost predicate Taken(users: map<string, User>, field: string, value: string) {
    exists k :: k in users && FieldValue(users[k], field) == value
  }

  /** Adding a user whose username and email nobody has keeps both unique. */
  lemma InsertKeepsUnique(users: map<string, User>, user: User)
    requires UniqueNamesAndEmails(users) && user.id !in users
    requires !Taken(users, "username", user.username) && !Taken(users, "email", user.email)
    ensures UniqueNamesAndEmails(users[user.id := user])
  {
    forall k | k in users
      ensures users[k].username != user.username && users[k].email != user.email
    {
      assert FieldValue(users[k], "username") == users[k].username;
      assert FieldValue(users[k], "email") == users[k].email;
    }
  }

  /** CreateUser's required-field check fails. */
  predicate MissingField(req: CreateUserRequest) {
    req.username == "" || req.email == "" || req.fullName == ""
  }

  /** The partial patch of UpdateUser: given fields overwrite, absent ones stay, UpdatedAt becomes `now`. */
  function ApplyPatch(u: User, req: UpdateUserRequest, now: nat): (v: User)
    ensures v.id == u.id && v.createdAt == u.createdAt && v.updatedAt == now
    ensures v.username == (if req.username.Some? then req.username.value else u.username)
    ensures v.email == (if req.email.Some? then req.email.value else u.email)
    ensures v.fullName == (if req.fullName.Some? then req.fullName.value else u.fullName)
    ensures v.isActive == (if req.isActive.Some? then req.isActive.value else u.isActive)
  {
    u.(username := req.username.GetOr(u.username),
       email := req.email.GetOr(u.email),
       fullName := req.fullName.GetOr(u.fullName),
       isActive := req.isActive.GetOr(u.isActive),
       updatedAt := now)
  }

  /**
   * What UpdateUser does to the store and what it returns, written as one
   * expression. The username is written to the store before the email is
   * checked, so an email conflict leaves a new username behind.
   */
  ghost function UpdateOutcome(users: map<string, User>, req: UpdateUserRequest, now: nat)
    : (o: (map<string, User>, Result<User, AppError>))
    ensures o.0.Keys == users.Keys
    ensures o.1.Ok? ==> req.id in users && o.1.value == ApplyPatch(users[req.id], req, now)
    ensures o.1.Ok? ==> o.0 == users[req.id := o.1.value]
    ensures o.1.Err? ==> o.1.error.code == NotFound || o.1.error.code == AlreadyExists
    ensures o.1.Err? && o.1.error.code == NotFound ==> req.id !in users && o.0 == users
    ensures req.id !in users ==> o == (users, Err(NewNotFoundError("user", req.id)))
  {
    if req.id !in users then
      (users, Err(NewNotFoundError("user", req.id)))
    else if req.username.Some? && TakenByOther(users, req.id, "username", req.username.value) then
      (users, Err(NewAlreadyExistsError("user", "username", req.username.value)))
    else
      var renamed := users[req.id := users[req.id].(username := req.username.GetOr(users[req.id].username))];
      if req.email.Some? && TakenByOther(renamed, req.id, "email", req.email.value) then
        (renamed, Err(NewAlreadyExistsError("user", "email", req.email.value)))
      else
        var u := ApplyPatch(users[req.id], req, now);
        (users[req.id := u], Ok(u))
  }

  /** The filter value filterUsers works with: the lowercased filter, or "" when there is none. */
  function FilterKey(filter: Option<string>): (k: string)
    ensures k == "" <==> filter.None? || filter.value == ""
  {
    if filter.Some? then Text.Lower(filter.value) else ""
  }

  /** The key is already in lowercase. */
  lemma FilterKeyIsLower(filter: Option<string>)
    ensures Text.Lower(FilterKey(filter)) == FilterKey(filter)
  {
    if filter.Some? {
      Text.LowerIdempotent(filter.value);
    }
  }

  /** matchesFilter: the (already lowercased) filter occurs in the lowercased username, email or full name. */
  predicate MatchesFilter(u: User, filter: string)
  {
    Text.Contains(Text.Lower(u.username), filter)
      || Text.Contains(Text.Lower(u.email), filter)
      || Text.Contains(Text.Lower(u.fullName), filter)
  }

  /** The empty filter matches every user. */
  lemma EmptyFilterMatches(u: User)
    ensures MatchesFilter(u, "")
  {
    Text.ContainsEmpty(Text.Lower(u.username));
  }

  /** A filter longer than the username, the email and the full name matches nothing. */
  lemma LongFilterMatchesNothing(u: User, filter: string)
    requires |filter| > |u.username| && |filter| > |u.email| && |filter| > |u.fullName|
    ensures !MatchesFilter(u, filter)
  {
    Text.ContainsLength(Text.Lower(u.username), filter);
    Text.ContainsLength(Text.Lower(u.email), filter);
    Text.ContainsLength(Text.Lower(u.fullName), filter);
  }

  /** filterUsers keeps a user when the filter is empty or matches. */
  predicate Selected(u: User, filterLower: string): (b: bool)
    ensures b <==> MatchesFilter(u, filterLower)
  {
    filterLower == "" || MatchesFilter(u, filterLower)
  }

  /** filterUsers' test for a given lowercased filter. */
  function SelectedBy(filterLower: string): User -> bool {
    u => Selected(u, filterLower)
  }

  /** The filter ignores letter case: a filter and its lowercase form select the same users. */
  lemma FilterIgnoresCase(u: User, filter: string)
    ensures Selected(u, FilterKey(Some(filter))) <==> Selected(u, FilterKey(Some(Text.Lower(filter))))
  {
    Text.LowerIdempotent(filter);
  }

  /** With no filter, or an empty one, every user is kept. */
  lemma EmptyFilterSelectsAll(u: User, filter: Option<string>)
    requires filter.None? || filter.value == ""
    ensures Selected(u, FilterKey(filter))
  {
    if filter.Some? {
      Text.LowerEmpty(filter.value);
    }
  }

  /** The live users that filterUsers keeps. */
  ghost function MatchingUsers(users: map<string, User>, filterLower: string): set<User> {
    Snapshot.Selection(users, users.Keys, SelectedBy(filterLower))
  }

  /** Every user is stored under its own identifier. */
  ghost predicate KeyedById(users: map<string, User>) {
    forall k :: k in users ==> users[k].id == k
  }

  /** The field sortUsers orders by: the one requested, or "id" when none or "" is given. */
  function SortField(sortBy: Option<string>): string {
    if sortBy.Some? && sortBy.value != "" then sortBy.value else "id"
  }

  /** sortUsers' comparison for `field`; any field name it does not know compares ids as strings. */
  predicate UserLess(field: string, a: User, b: User): (r: bool)
    ensures field !in {"username", "email", "full_name", "created_at"} ==> (r <==> Text.Less(a.id, b.id))
    ensures a == b ==> !r
  {
    Text.LessIrreflexive(a.username);
    Text.LessIrreflexive(a.email);
    Text.LessIrreflexive(a.fullName);
    Text.LessIrreflexive(a.id);
    if field == "username" then Text.Less(a.username, b.username)
    else if field == "email" then Text.Less(a.email, b.email)
    else if field == "full_name" then Text.Less(a.fullName, b.fullName)
    else if field == "created_at" then a.createdAt < b.createdAt
    else Text.Less(a.id, b.id)
  }

  function UserOrder(field: string): (User, User) -> bool {
    (a, b) => UserLess(field, a, b)
  }

  /** Ordering strings is a strict weak order, as sort.Slice needs. */
  lemma StringKeyOrder(x: string, y: string, z: string)
    ensures Text.Less(x, y) ==> !Text.Less(y, x)
    ensures Text.Less(x, z) ==> Text.Less(x, y) || Text.Less(y, z)
  {
    if Text.Less(x, y) {
      Text.LessAsymmetric(x, y);
    }
    if Text.Less(x, z) && !Text.Less(x, y) {
      if x == y {
      } else {
        Text.LessTotal(x, y);
        Text.LessTransitive(y, x, z);
      }
    }
  }

  /** Every comparison sortUsers can use is a strict weak order. */
  lemma UserOrderIsStrictWeak(field: string)
    ensures Sorting.StrictWeakOrder(UserOrder(field))
  {
    var less := UserOrder(field);
    forall a: User, b: User, c: User
      ensures less(a, b) ==> !less(b, a)
      ensures less(a, c) ==> less(a, b) || less(b, c)
    {
      if field == "username" {
        StringKeyOrder(a.username, b.username, c.username);
      } else if field == "email" {
        StringKeyOrder(a.email, b.email, c.email);
      } else if field == "full_name" {
        StringKeyOrder(a.fullName, b.fullName, c.fullName);
      } else if field != "created_at" {
        StringKeyOrder(a.id, b.id, c.id);
      }
    }
  }

  /**
   * The store's invariant: the counter is positive, every stored id was issued,
   * no issued id is the rendering of a value the counter has yet to reach,
   * every user sits under its own id, and usernames and emails are unique.
   */
  ghost predicate StoreInvariant(users: map<string, User>, issued: set<string>, next: nat) {
    && next >= 1
    && users.Keys <= issued
    && Decimal.IssuedBelow(issued, next)
    && KeyedById(users)
    && UniqueNamesAndEmails(users)
  }

  class UserService {
    var users: map<string, User>
    var nextID: nat
    /** Every identifier this store has ever handed out, including those of deleted users. */
    ghost var Issued: set<string>

    ghost predicate Valid()
      reads this
    {
      StoreInvariant(users, Issued, nextID)
    }

    /** NewUserService: an empty store whose counter starts at 1. */
    constructor ()
      ensures Valid()
      ensures users == map[] && nextID == 1 && Issued == {}
    {
      users := map[];
      nextID := 1;
      Issued := {};
    }

    /** generateID: the counter's current value in decimal; the counter moves on by one. */
    method GenerateID() returns (id: string)
      requires Decimal.IssuedBelow(Issued, nextID)
      modifies this`nextID, this`Issued
      ensures id == Decimal.DecimalString(old(nextID)) && id != ""
      ensures id !in old(Issued)
      ensures nextID == old(nextID) + 1 && Issued == old(Issued) + {id}
      ensures Decimal.IssuedBelow(Issued, nextID)
    {
      Decimal.FreshId(Issued, nextID);
      Decimal.ParseDecimalString(nextID);
      id := Decimal.DecimalString(nextID);
      nextID := nextID + 1;
      Issued := Issued + {id};
    }

    method CreateUser(req: CreateUserRequest, now: nat) returns (r: Result<User, AppError>)
      requires Valid()
      modifies this
      ensures Valid()
      ensures MissingField(req) ==>
        && r == Err(NewValidationError("fields", "username, email, and full_name are required"))
        && users == old(users) && nextID == old(nextID) && Issued == old(Issued)
      ensures !MissingField(req) && (Taken(old(users), "username", req.username) || Taken(old(users), "email", req.email)) ==>
        && (|| (r == Err(NewAlreadyExistsError("user", "username", req.username)) && Taken(old(users), "username", req.username))
            || (r == Err(NewAlreadyExistsError("user", "email", req.email)) && Taken(old(users), "email", req.email)))
        && users == old(users) && nextID == old(nextID) && Issued == old(Issued)
      // A user is checked for the username before the email, so the email
      // error needs a user holding the email under another username.
      ensures r == Err(NewAlreadyExistsError("user", "email", req.email)) ==>
        exists k :: k in old(users) && old(users)[k].email == req.email && old(users)[k].username != req.username
      ensures !MissingField(req) && !Taken(old(users), "username", req.username) && !Taken(old(users), "email", req.email) ==>
        && r == Ok(User(Decimal.DecimalString(old(nextID)), req.username, req.email, req.fullName, true, now, now))
        && r.value.id !in old(Issued)
        && users == old(users)[r.value.id := r.value]
        && nextID == old(nextID) + 1 && Issued == old(Issued) + {r.value.id}
    {
      if req.username == "" || req.email == "" || req.fullName == "" {
        return Err(NewValidationError("fields", "username, email, and full_name are required"));
      }
      // The scan visits the users in an unspecified order, like ranging over a Go map.
      var remaining := users.Keys;
      while remaining != {}
        invariant remaining <= users.Keys
        invariant forall k :: k in users && k !in remaining ==>
          users[k].username != req.username && users[k].email != req.email
        decreases remaining
      {
        var k :| k in remaining;
        if users[k].username == req.username {
          assert FieldValue(users[k], "username") == req.username;
          return Err(NewAlreadyExistsError("user", "username", req.username));
        }
        if users[k].email == req.email {
          assert FieldValue(users[k], "email") == req.email;
          return Err(NewAlreadyExistsError("user", "email", req.email));
        }
        remaining := remaining - {k};
      }
      var id := GenerateID();
      var user := User(id, req.username, req.email, req.fullName, true, now, now);
      InsertKeepsUnique(users, user);
      users := users[id := user];
      return Ok(user);
    }

    method GetUser(id: string) returns (r: Result<User, AppError>)
      ensures id in users ==> r == Ok(users[id])
      ensures id !in users ==> r == Err(NewNotFoundError("user", id))
    {
      if id !in users {
        return Err(NewNotFoundError("user", id));
      }
      return Ok(users[id]);
    }

    /** checkUniqueField: fails exactly when another live user already has `value` in `field`. */
    method CheckUniqueField(excludeID: string, field: string, value: string) returns (err: Option<AppError>)
      ensures err.None? <==> !TakenByOther(users, excludeID, field, value)
      ensures err.Some? ==> err.value == NewAlreadyExistsError("user", field, value)
    {
      var remaining := users.Keys;
      while remaining != {}
        invariant remaining <= users.Keys
        invariant forall k :: k in users && k !in remaining && k != excludeID ==> FieldValue(users[k], field) != value
        decreases remaining
      {
        var id :| id in remaining;
        remaining := remaining - {id};
        if id == excludeID {
          continue;
        }
        var existing := if field == "username" then users[id].username else users[id].email;
        if existing == value {
          return Some(NewAlreadyExistsError("user", field, value));
        }
      }
      return None;
    }

    /**
     * UpdateUser. The stored record is changed field by field: the new
     * username is in the store before the email is checked; the remaining
     * fields are stored together at the end, as nothing reads them between.
     */
    method UpdateUser(req: UpdateUserRequest, now: nat) returns (r: Result<User, AppError>)
      requires Valid()
      modifies this`users
      ensures Valid()
      ensures (users, r) == UpdateOutcome(old(users), req, now)
    {
      if req.id !in users {
        return Err(NewNotFoundError("user", req.id));
      }
      UpdateOutcomeValid(users, Issued, nextID, req, now);
      var user := users[req.id];
      ghost var renamed := users[req.id := user.(username := req.username.GetOr(user.username))];
      if req.username.Some? {
        var err := CheckUniqueField(req.id, "username", req.username.value);
        if err.Some? {
          return Err(err.value);
        }
        user := user.(username := req.username.value);
        users := users[req.id := user];
      } else {
        StoreSame(users, req.id);
      }
      assert users == renamed;
      if req.email.Some? {
        var err := CheckUniqueField(req.id, "email", req.email.value);
        if err.Some? {
          return Err(err.value);
        }
        TakenByOtherIgnoresSelf(old(users), req.id, user, "email", req.email.value);
        user := user.(email := req.email.value);
      }
      if req.fullName.Some? {
        user := user.(fullName := req.fullName.value);
      }
      if req.isActive.Some? {
        user := user.(isActive := req.isActive.value);
      }
      user := user.(updatedAt := now);
      StoreTwice(old(users), req.id, renamed[req.id], user);
      users := users[req.id := user];
      UpdateSucceeds(old(users), req, now);
      return Ok(user);
    }

    method DeleteUser(id: string) returns (err: Option<AppError>)
      requires Valid()
      modifies this`users
      ensures Valid()
      ensures id in old(users) ==> err == None && users == old(users) - {id}
      ensures id !in old(users) ==> err == Some(NewNotFoundError("user", id)) && users == old(users)
    {
      if id !in users {
        return Some(NewNotFoundError("user", id));
      }
      users := users - {id};
      return None;
    }

    /** filterUsers: every live user the filter selects, each once, in map order. */
    method FilterUsers(filter: Option<string>) returns (result: seq<User>)
      requires KeyedById(users)
      ensures multiset(result) == multiset(MatchingUsers(users, FilterKey(filter)))
    {
      var filterLower := FilterKey(filter);
      result := [];
      var remaining := users.Keys;
      ghost var visited: set<string> := {};
      assert Snapshot.Injective(users);
      Snapshot.SelectionEmpty(users, SelectedBy(filterLower));
      while remaining != {}
        invariant remaining <= users.Keys && visited == users.Keys - remaining
        invariant multiset(result) == multiset(Snapshot.Selection(users, visited, SelectedBy(filterLower)))
        decreases remaining
      {
        var k :| k in remaining;
        Snapshot.SelectionStep(users, visited, k, SelectedBy(filterLower), result);
        if Selected(users[k], filterLower) {
          result := result + [users[k]];
        }
        visited := visited + {k};
        remaining := remaining - {k};
      }
    }

    /** ListUsers: filter, sort by the requested field, then cut the requested page. */
    method ListUsers(req: ListUsersRequest) returns (r: Pagination.Page<User>, ghost ordered: seq<User>)
      requires Valid()
      ensures multiset(ordered) == multiset(MatchingUsers(users, FilterKey(req.filter)))
      ensures Sorting.SortedBy(ordered, UserOrder(SortField(req.sortBy)))
      ensures r == Pagination.Paginate(ordered, req.page, req.pageSize)
      ensures r.total == |MatchingUsers(users, FilterKey(req.filter))|
    {
      var filtered := FilterUsers(req.filter);
      var sorted := SortUsers(filtered, req.sortBy);
      ordered := sorted;
      r := Pagination.Paginate(sorted, req.page, req.pageSize);
      assert |multiset(sorted)| == |multiset(MatchingUsers(users, FilterKey(req.filter)))|;
    }
  }

  /** sortUsers: the users ordered by the requested field, as a permutation of the input. */
  method SortUsers(users: seq<User>, sortBy: Option<string>) returns (sorted: seq<User>)
    ensures multiset(sorted) == multiset(users)
    ensures Sorting.SortedBy(sorted, UserOrder(SortField(sortBy)))
  {
    var field := "id";
    if sortBy.Some? && sortBy.value != "" {
      field := sortBy.value;
    }
    UserOrderIsStrictWeak(field);
    sorted := Sorting.SortSlice(users, UserOrder(field));
  }

  /** Storing a record under its own key changes nothing. */
  lemma StoreSame(users: map<string, User>, id: string)
    requires id in users
    ensures users[id := users[id]] == users
  {
  }

  /** Storing twice under one key keeps only the second record. */
  lemma StoreTwice(users: map<string, User>, id: string, u: User, v: User)
    ensures users[id := u][id := v] == users[id := v]
  {
  }

  /** An update never adds or removes users and touches no user but the one named. */
  lemma UpdateFrame(users: map<string, User>, req: UpdateUserRequest, now: nat)
    ensures UpdateOutcome(users, req, now).0.Keys == users.Keys
    ensures forall k :: k in users && k != req.id ==> UpdateOutcome(users, req, now).0[k] == users[k]
  {
  }

  /** An update keeps the user's identifier and creation time, whatever the patch holds. */
  lemma UpdateKeepsIdentity(users: map<string, User>, req: UpdateUserRequest, now: nat)
    requires req.id in users
    ensures UpdateOutcome(users, req, now).0[req.id].id == users[req.id].id
    ensures UpdateOutcome(users, req, now).0[req.id].createdAt == users[req.id].createdAt
  {
  }

  /** No update, successful or not, lets two users share a username or an email. */
  lemma UpdatePreservesUniqueness(users: map<string, User>, req: UpdateUserRequest, now: nat)
    requires UniqueNamesAndEmails(users)
    ensures UniqueNamesAndEmails(UpdateOutcome(users, req, now).0)
  {
    var after := UpdateOutcome(users, req, now).0;
    if req.id in users {
      var u := users[req.id];
      var renamed := users[req.id := u.(username := req.username.GetOr(u.username))];
      forall a, b | a in after && b in after && a != b
        ensures after[a].username != after[b].username && after[a].email != after[b].email
      {
        if a == req.id || b == req.id {
          var other := if a == req.id then b else a;
          assert after[other] == users[other] == renamed[other];
        }
      }
    }
  }

  /** When neither the username nor the email conflicts, the update stores and returns the patched user. */
  lemma UpdateSucceeds(users: map<string, User>, req: UpdateUserRequest, now: nat)
    requires req.id in users
    requires req.username.Some? ==> !TakenByOther(users, req.id, "username", req.username.value)
    requires req.email.Some? ==> !TakenByOther(users, req.id, "email", req.email.value)
    ensures var u := ApplyPatch(users[req.id], req, now);
      UpdateOutcome(users, req, now) == (users[req.id := u], Ok(u))
  {
    var u := users[req.id];
    if req.email.Some? {
      TakenByOtherIgnoresSelf(users, req.id, u.(username := req.username.GetOr(u.username)), "email", req.email.value);
    }
  }

  /** Whether another user holds a value does not depend on the excluded user's own record. */
  lemma TakenByOtherIgnoresSelf(users: map<string, User>, id: string, u: User, field: string, value: string)
    requires id in users
    ensures TakenByOther(users[id := u], id, field, value) == TakenByOther(users, id, field, value)
  {
    if TakenByOther(users[id := u], id, field, value) {
      var k :| k in users[id := u] && k != id && FieldValue(users[id := u][k], field) == value;
      assert k in users && FieldValue(users[k], field) == value;
    }
    if TakenByOther(users, id, field, value) {
      var k :| k in users && k != id && FieldValue(users[k], field) == value;
      assert k in users[id := u] && FieldValue(users[id := u][k], field) == value;
    }
  }

  /**
   * Whatever an update does, the store keeps its set of ids, every user stays
   * under its own id and uniqueness holds, so the store invariant is kept.
   */
  lemma UpdateOutcomeValid(users: map<string, User>, issued: set<string>, next: nat, req: UpdateUserRequest, now: nat)
    requires StoreInvariant(users, issued, next)
    ensures UpdateOutcome(users, req, now).0.Keys == users.Keys
    ensures KeyedById(UpdateOutcome(users, req, now).0)
    ensures UniqueNamesAndEmails(UpdateOutcome(users, req, now).0)
    ensures StoreInvariant(UpdateOutcome(users, req, now).0, issued, next)
  {
    var after := UpdateOutcome(users, req, now).0;
    UpdatePreservesUniqueness(users, req, now);
    UpdateFrame(users, req, now);
    forall k | k in after
      ensures after[k].id == k
    {
      if k == req.id {
        UpdateKeepsIdentity(users, req, now);
      }
    }
  }

  /**
   * Re-sending a user's own username and email is not a conflict: the
   * uniqueness check leaves the user's own record out.
   */
  lemma SelfUpdateSucceeds(users: map<string, User>, req: UpdateUserRequest, now: nat)
    requires UniqueNamesAndEmails(users) && req.id in users
    requires req.username.Some? ==> req.username.value == users[req.id].username
    requires req.email.Some? ==> req.email.value == users[req.id].email
    ensures UpdateOutcome(users, req, now).1 == Ok(ApplyPatch(users[req.id], req, now))
  {
    var u := users[req.id];
    assert forall k :: k in users && k != req.id ==> users[k].username != u.username && users[k].email != u.email;
  }

  /** A username another user holds fails the update with the username error and changes nothing. */
  lemma UsernameConflictFails(users: map<string, User>, req: UpdateUserRequest, now: nat)
    requires req.id in users && req.username.Some?
    requires TakenByOther(users, req.id, "username", req.username.value)
    ensures UpdateOutcome(users, req, now) == (users, Err(NewAlreadyExistsError("user", "username", req.username.value)))
  {
  }

  /**
   * Without a new username, an email another user holds fails the update with
   * the email error and changes nothing.
   */
  lemma EmailConflictFails(users: map<string, User>, req: UpdateUserRequest, now: nat)
    requires req.id in users && req.username.None? && req.email.Some?
    requires TakenByOther(users, req.id, "email", req.email.value)
    ensures UpdateOutcome(users, req, now) == (users, Err(NewAlreadyExistsError("user", "email", req.email.value)))
  {
    StoreSame(users, req.id);
  }

  /**
   * The username is written before the email is checked: when the email
   * conflicts, the error is returned and the new username stays.
   */
  lemma EmailConflictKeepsNewUsername(users: map<string, User>, req: UpdateUserRequest, now: nat)
    requires req.id in users && req.username.Some? && req.email.Some?
    requires !TakenByOther(users, req.id, "username", req.username.value)
    requires TakenByOther(users, req.id, "email", req.email.value)
    ensures UpdateOutcome(users, req, now).1 == Err(NewAlreadyExistsError("user", "email", req.email.value))
    ensures UpdateOutcome(users, req, now).0[req.id].username == req.username.value
    ensures UpdateOutcome(users, req, now).0[req.id].email == users[req.id].email
    ensures UpdateOutcome(users, req, now).0 == users[req.id := users[req.id].(username := req.username.value)]
  {
    var renamed := users[req.id := users[req.id].(username := req.username.value)];
    var k :| k in users && k != req.id && FieldValue(users[k], "email") == req.email.value;
    assert k in renamed && FieldValue(renamed[k], "email") == req.email.value;
  }

  /** A patch that names only the full name changes nothing else but the update time. */
  lemma FullNameOnlyPatch(users: map<string, User>, req: UpdateUserRequest, now: nat)
    requires req.id in users
    requires req.username.None? && req.email.None? && req.isActive.None? && req.fullName.Some?
    ensures UpdateOutcome(users, req, now).1.Ok?
    ensures var v := UpdateOutcome(users, req, now).1.value;
      v == users[req.id].(fullName := req.fullName.value, updatedAt := now)
  {
  }

  /** Deleting a user and then asking for it gives "not found". */
  method DeleteThenGet(s: UserService, id: string) returns (r: Result<User, AppError>)
    requires s.Valid() && id in s.users
    modifies s
    ensures r == Err(NewNotFoundError("user", id))
  {
    var err := s.DeleteUser(id);
    r := s.GetUser(id);
  }
}
