/** The user directory: lookups by id and by alias that select every column
    except the password, and the profile built from the lookup by id.
    The users table is a map from id to row; the functions only read it. */
module Users {
  import opened Entities

  /** The unique constraint on the alias column. */
  ghost predicate AliasesUnique(users: map<int, User>)
  {
    forall i, j :: i in users && j in users && users[i].alias == users[j].alias ==> i == j
  }

  /** The columns `id, firstName, lastName, alias, birthDate, email` of row `id`. */
  function Select(id: int, u: User): (p: UserProfile)
  {
    UserProfile(id, u.firstName, u.lastName, u.alias, u.birthDate, u.email)
  }

  /** The projection keeps every selected column of the row. */
  ghost predicate ProfileOf(p: UserProfile, id: int, u: User)
  {
    && p.id == id
    && p.firstName == u.firstName
    && p.lastName == u.lastName
    && p.alias == u.alias
    && p.birthDate == u.birthDate
    && p.email == u.email
  }

  function FindById(users: map<int, User>, id: int): (r: Result<UserProfile>)
    ensures r.Ok? <==> id in users
    ensures r.Ok? ==> ProfileOf(r.value, id, users[id])
    ensures !r.Ok? ==> r == NotFound(UserNotFound)
  {
    if id in users then Ok(Select(id, users[id])) else NotFound(UserNotFound)
  }

  function FindByAlias(users: map<int, User>, alias: string): (r: Result<UserProfile>)
    requires AliasesUnique(users)
    ensures r.Ok? <==> exists id :: id in users && users[id].alias == alias
    ensures r.Ok? ==> r.value.id in users && users[r.value.id].alias == alias
    ensures r.Ok? ==> ProfileOf(r.value, r.value.id, users[r.value.id])
    ensures !r.Ok? ==> r == NotFound(UserNotFound)
  {
    if exists id :: id in users && users[id].alias == alias then
      var id :| id in users && users[id].alias == alias;
      Ok(Select(id, users[id]))
    else
      NotFound(UserNotFound)
  }

  /** The profile: the lookup by id, copied field by field into a record of
      the same six fields, which is that same record; its NotFound is passed
      on as it is. */
  function GetProfile(users: map<int, User>, id: int): (r: Result<UserProfile>)
    ensures r.Ok? <==> id in users
    ensures r.Ok? ==> ProfileOf(r.value, id, users[id])
    ensures !r.Ok? ==> r == NotFound(UserNotFound)
  {
    match FindById(users, id)
    case Ok(p) => Ok(p)
    case NotFound(m) => NotFound(m)
    case Conflict(m) => Conflict(m)
  }

  /** The profile carries exactly what the lookup by id selected. */
  lemma GetProfileIsFindById(users: map<int, User>, id: int)
    ensures GetProfile(users, id) == FindById(users, id)
  {
  }

  /** The password is never selected: changing any user's password changes
      the result of no lookup. */
  lemma PasswordNeverSelected(users: map<int, User>, k: int, pw: string, id: int, alias: string)
    requires k in users
    requires AliasesUnique(users)
    ensures AliasesUnique(users[k := users[k].(password := pw)])
    ensures FindById(users[k := users[k].(password := pw)], id) == FindById(users, id)
    ensures GetProfile(users[k := users[k].(password := pw)], id) == GetProfile(users, id)
    ensures FindByAlias(users[k := users[k].(password := pw)], alias) == FindByAlias(users, alias)
  {
    var users' := users[k := users[k].(password := pw)];
    assert forall i :: i in users <==> i in users';
    assert forall i :: i in users ==> users'[i].alias == users[i].alias;
    var a := FindByAlias(users', alias);
    var b := FindByAlias(users, alias);
    if a.Ok? {
      assert b.Ok?;
      assert a.value.id == b.value.id;
    }
  }

  /** An id with no row, zero and negative ids included, fails with NotFound. */
  lemma UnknownIdNotFound(users: map<int, User>, id: int)
    requires id !in users
    ensures FindById(users, id) == NotFound(UserNotFound)
    ensures GetProfile(users, id) == NotFound(UserNotFound)
  {
  }

  /** An alias no user has, the empty string included, fails with NotFound. */
  lemma UnknownAliasNotFound(users: map<int, User>, alias: string)
    requires AliasesUnique(users)
    requires forall id :: id in users ==> users[id].alias != alias
    ensures FindByAlias(users, alias) == NotFound(UserNotFound)
  {
  }

  /** Looking a user up by its alias finds the same profile as looking it up by id. */
  lemma AliasAndIdAgree(users: map<int, User>, id: int)
    requires AliasesUnique(users)
    requires id in users
    ensures FindByAlias(users, users[id].alias) == FindById(users, id)
  {
  }
}
