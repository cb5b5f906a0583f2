/** SeedData: makes sure the admin account and the sample room exist. */
module SeedData {
  import opened Wrappers
  import opened Exceptions
  import opened Linq
  import opened Entities
  import opened Schema
  import UserRepository

  /** The values used when `Admin:Username` or `Admin:Password` is not configured. */
  const DefaultAdminUserName := "admin"
  const DefaultAdminPassword := "admin123!"

  /** The sample room's slug and title. */
  const SampleSlug := "math101"
  const SampleTitle := "Math 101"

  /** The state seeding establishes: a user with the admin name exists and there is a room. */
  predicate Seeded(users: seq<User>, rooms: seq<Room>, adminName: string) {
    (exists u :: u in users && u.userName == adminName) && rooms != []
  }

  /**
   * The first step of EnsureSeededAsync: the user named `adminUser`, created with a fresh id,
   * Hash(adminPass) and Roles.Admin only when no user has that name, and saved as its columns keep
   * it (SaveChanges throws when a column refuses a value or the name as stored is taken). The
   * result is the user object itself: an existing user of that name whatever its role, or the new
   * one as built, whose stored row has the same id.
   */
  method EnsureAdmin(db: ChatDbContext, p: Platform, adminUser: string, adminPass: string) returns (r: Result<User, Exception>)
    requires db.Valid()
    modifies db
    ensures db.Valid()
    ensures db.rooms == old(db.rooms) && db.members == old(db.members) && db.messages == old(db.messages)
    ensures r.Ok? ==> r.value.userName == adminUser && HasUser(db.users, r.value.id)
    ensures (exists u :: u in old(db.users) && u.userName == adminUser) ==>
      r.Ok? && r.value in old(db.users) && db.users == old(db.users)
    ensures r.Err? <==>
      (forall u :: u in old(db.users) ==> u.userName != adminUser) && !UserAccepted(old(db.users), adminUser, p.adminRole)
    ensures r.Err? ==> r.error == DbUpdate && db.users == old(db.users)
    ensures (forall u :: u in old(db.users) ==> u.userName != adminUser) && r.Ok? ==>
      && r.value == User(r.value.id, adminUser, p.hash(adminPass), p.adminRole)
      && r.value.id !in UserRepository.UserIds(old(db.users))
      && db.users == old(db.users) + [StoredUser(r.value).value]
  {
    var found := FirstOrDefault(db.users, UserRepository.NameIs(adminUser));
    if found.Some? {
      return Ok(found.value);
    }
    var id := NewGuid(UserRepository.UserIds(db.users));
    var admin := User(id, adminUser, p.hash(adminPass), p.adminRole);
    assert CanInsertUser(db.users, admin) <==> UserAccepted(db.users, adminUser, p.adminRole) by {
      assert forall u :: u in db.users ==> u.id in UserRepository.UserIds(db.users);
    }
    var added := UserRepository.Add(db, admin);
    if added.Fail? {
      return Err(added.error);
    }
    assert StoredUser(admin).value in db.users;
    r := Ok(admin);
  }

  /**
   * The second step of EnsureSeededAsync: only when the rooms table is empty, the room "math101"
   * ("Math 101") owned by the admin is added together with the admin's membership, in one save.
   * On an empty rooms table that save always succeeds.
   */
  method EnsureSampleRoom(db: ChatDbContext, admin: User)
    requires db.Valid() && HasUser(db.users, admin.id)
    modifies db
    ensures db.Valid()
    ensures db.users == old(db.users) && db.messages == old(db.messages)
    ensures old(db.rooms) != [] ==> db.rooms == old(db.rooms) && db.members == old(db.members)
    ensures old(db.rooms) == [] ==>
      exists roomId :: db.rooms == [Room(roomId, SampleSlug, SampleTitle, admin.id)] &&
        db.members == old(db.members) + [RoomMember(roomId, admin.id)]
    ensures db.rooms != []
  {
    if db.rooms != [] {
      return;
    }
    var roomId := NewGuid(set m | m in db.members :: m.roomId);
    var room := Room(roomId, SampleSlug, SampleTitle, admin.id);
    var member := RoomMember(roomId, admin.id);
    assert StoredRoom(room) == Some(room);
    InsertRoomValid(db.rooms, room);
    MembersValidGrow(db.members, db.rooms, db.users, db.rooms + [room], db.users);
    db.rooms := db.rooms + [room];
    assert HasRoom(db.rooms, roomId) by {
      assert db.rooms[0] == room;
    }
    InsertMemberValid(db.members, db.rooms, db.users, member);
    db.members := db.members + [member];
  }

  /**
   * EnsureSeededAsync, with the configured admin name and password (absent ones take their
   * defaults): the admin step, then the sample-room step. A failed admin save ends the seeding.
   * On a database already seeded for that name nothing changes, so a second run adds nothing.
   * An admin name padded with spaces past the column's length is stored cut: the run succeeds,
   * but the database is then not seeded for the configured name, and the next run's insert of
   * the same name clashes with the stored one and fails.
   */
  method EnsureSeeded(db: ChatDbContext, p: Platform, adminUserConfig: Option<string>, adminPassConfig: Option<string>)
    returns (r: Outcome<Exception>)
    requires db.Valid()
    modifies db
    ensures db.Valid()
    ensures db.messages == old(db.messages)
    ensures var name := adminUserConfig.GetOr(DefaultAdminUserName);
      (exists u :: u in old(db.users) && u.userName == name) ==> db.users == old(db.users)
    ensures var name := adminUserConfig.GetOr(DefaultAdminUserName);
      r.Fail? <==> (forall u :: u in old(db.users) ==> u.userName != name) && !UserAccepted(old(db.users), name, p.adminRole)
    ensures var name := adminUserConfig.GetOr(DefaultAdminUserName);
      var password := adminPassConfig.GetOr(DefaultAdminPassword);
      (forall u :: u in old(db.users) ==> u.userName != name) && r.Pass? ==>
        exists id :: id !in UserRepository.UserIds(old(db.users)) &&
          db.users == old(db.users) + [StoredUser(User(id, name, p.hash(password), p.adminRole)).value]
    ensures r.Fail? ==> r.error == DbUpdate && db.users == old(db.users)
    ensures old(db.rooms) != [] || r.Fail? ==> db.rooms == old(db.rooms) && db.members == old(db.members)
    ensures var name := adminUserConfig.GetOr(DefaultAdminUserName);
      r.Pass? ==>
        exists admin :: admin in db.users && Varchar(name, UserNameMaxLength) == Some(admin.userName) &&
          (old(db.rooms) == [] ==>
             exists roomId :: db.rooms == [Room(roomId, SampleSlug, SampleTitle, admin.id)] &&
               db.members == old(db.members) + [RoomMember(roomId, admin.id)])
    ensures r.Pass? ==> db.rooms != []
    ensures var name := adminUserConfig.GetOr(DefaultAdminUserName);
      r.Pass? ==> (Seeded(db.users, db.rooms, name) <==> |name| <= UserNameMaxLength)
    ensures Seeded(old(db.users), old(db.rooms), adminUserConfig.GetOr(DefaultAdminUserName)) ==>
      r == Pass && db.users == old(db.users) && db.rooms == old(db.rooms) && db.members == old(db.members)
  {
    var adminUser := adminUserConfig.GetOr(DefaultAdminUserName);
    var adminPass := adminPassConfig.GetOr(DefaultAdminPassword);
    var admin := EnsureAdmin(db, p, adminUser, adminPass);
    if admin.Err? {
      return Fail(admin.error);
    }
    ghost var row: User;
    if exists u :: u in old(db.users) && u.userName == adminUser {
      row := admin.value;
      assert row in db.users && UserFits(row);
    } else {
      row := StoredUser(admin.value).value;
      assert row in db.users;
    }
    assert row.id == admin.value.id && Varchar(adminUser, UserNameMaxLength) == Some(row.userName);
    EnsureSampleRoom(db, admin.value);
    assert row in db.users;
    r := Pass;
  }
}
