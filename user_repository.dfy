/** UserRepository: the user table. */
module UserRepository {
  import opened Wrappers
  import opened Exceptions
  import opened Linq
  import opened Entities
  import opened Schema

  function NameIs(userName: string): User -> bool {
    (u: User) => u.userName == userName
  }

  function IdIs(id: Guid): User -> bool {
    (u: User) => u.id == id
  }

  function UserIds(users: seq<User>): set<Guid> {
    set u | u in users :: u.id
  }

  /** Under the unique name index a name matches at most one row. */
  lemma NameMatchesAtMostOne(users: seq<User>, userName: string)
    ensures UserKeysUnique(users) ==> |Where(users, NameIs(userName))| <= 1
  {
    if UserKeysUnique(users) {
      WhereOfKeyUnique(users, NameIs(userName));
    }
  }

  /** Under the primary key an id matches at most one row. */
  lemma IdMatchesAtMostOne(users: seq<User>, id: Guid)
    ensures UserKeysUnique(users) ==> |Where(users, IdIs(id))| <= 1
  {
    if UserKeysUnique(users) {
      WhereOfKeyUnique(users, IdIs(id));
    }
  }

  /** GetByUsernameAsync (SingleOrDefault): the user with that name, None when there is none.
      On a table that keeps the unique index the lookup never throws. */
  function GetByUsername(users: seq<User>, userName: string): (r: Result<Option<User>, Exception>)
    ensures UserKeysUnique(users) ==> r.Ok?
    ensures r.Ok? && r.value.Some? ==> r.value.value in users && r.value.value.userName == userName
    ensures r == Ok(None) <==> forall u :: u in users ==> u.userName != userName
  {
    NameMatchesAtMostOne(users, userName);
    SingleOrDefault(users, NameIs(userName))
  }

  /** GetByIdAsync (SingleOrDefault): the user with that id, None when there is none. */
  function GetById(users: seq<User>, id: Guid): (r: Result<Option<User>, Exception>)
    ensures UserKeysUnique(users) ==> r.Ok?
    ensures r.Ok? && r.value.Some? ==> r.value.value in users && r.value.value.id == id
    ensures r == Ok(None) <==> forall u :: u in users ==> u.id != id
  {
    IdMatchesAtMostOne(users, id);
    SingleOrDefault(users, IdIs(id))
  }

  /** On a valid table the name lookup finds exactly the stored user. */
  lemma GetByUsernameFindsStored(users: seq<User>, u: User)
    requires UserKeysUnique(users) && u in users
    ensures GetByUsername(users, u.userName) == Ok(Some(u))
  {
    var found := GetByUsername(users, u.userName);
    var i :| 0 <= i < |users| && users[i] == u;
    var j :| 0 <= j < |users| && users[j] == found.value.value;
  }

  /** On a valid table the id lookup finds exactly the stored user. */
  lemma GetByIdFindsStored(users: seq<User>, u: User)
    requires UserKeysUnique(users) && u in users
    ensures GetById(users, u.id) == Ok(Some(u))
  {
    var found := GetById(users, u.id);
    var i :| 0 <= i < |users| && users[i] == u;
    var j :| 0 <= j < |users| && users[j] == found.value.value;
  }

  /** AddAsync: stores the user as its columns keep it when SaveChanges accepts it (fresh id, the
      name as stored unused, values the columns take) and throws DbUpdateException otherwise; the
      other users are unchanged, and both lookups find the stored row. */
  method Add(db: ChatDbContext, user: User) returns (r: Outcome<Exception>)
    requires db.Valid()
    modifies db
    ensures db.Valid()
    ensures r.Pass? <==> CanInsertUser(old(db.users), user)
    ensures r.Fail? ==> r.error == DbUpdate
    ensures db.users == if r.Pass? then old(db.users) + [StoredUser(user).value] else old(db.users)
    ensures r.Pass? ==>
      var row := StoredUser(user).value;
      GetByUsername(db.users, row.userName) == Ok(Some(row)) && GetById(db.users, user.id) == Ok(Some(row))
    ensures db.rooms == old(db.rooms) && db.members == old(db.members) && db.messages == old(db.messages)
  {
    if CanInsertUser(db.users, user) {
      InsertUserValid(db.users, user);
      var row := StoredUser(user).value;
      MembersValidGrow(db.members, db.rooms, db.users, db.rooms, db.users + [row]);
      db.users := db.users + [row];
      GetByUsernameFindsStored(db.users, row);
      GetByIdFindsStored(db.users, row);
      r := Pass;
    } else {
      r := Fail(DbUpdate);
    }
  }
}
