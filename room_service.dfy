/** RoomService: room creation, joining and leaving, and the owner-or-admin rule. */
module RoomService {
  import opened Wrappers
  import opened Exceptions
  import opened Linq
  import opened Entities
  import opened Schema
  import RoomRepository
  import UserRepository

  function RoomIds(rooms: seq<Room>): set<Guid> {
    set r | r in rooms :: r.id
  }

  /**
   * CreateRoomAsync: a slug already in use throws "Slug already in use" and changes nothing.
   * Otherwise one room with a fresh id, the given slug and title and the caller as owner is
   * stored as its columns keep it, then the owner is made a member; the DTO mirrors the room
   * object as built, not as stored. A save the database refuses throws DbUpdateException. The two
   * inserts are saved separately: when the second is rejected (the owner is not a user) the
   * room stays without its owner's membership.
   */
  method CreateRoom(db: ChatDbContext, ownerId: Guid, request: CreateRoomRequest) returns (r: Result<RoomDto, Exception>)
    requires db.Valid()
    modifies db
    ensures db.Valid()
    ensures db.users == old(db.users) && db.messages == old(db.messages)
    ensures RoomRepository.GetBySlug(old(db.rooms), request.slug).Some? ==>
      r == Err(InvalidOperation("Slug already in use")) && db.rooms == old(db.rooms) && db.members == old(db.members)
    ensures r.Err? && RoomRepository.GetBySlug(old(db.rooms), request.slug).None? ==> r.error == DbUpdate
    ensures r.Ok? <==>
      && RoomRepository.GetBySlug(old(db.rooms), request.slug).None?
      && RoomAccepted(old(db.rooms), request.slug, request.title)
      && HasUser(old(db.users), ownerId)
    ensures r.Ok? ==>
      && r.value.id !in RoomIds(old(db.rooms))
      && r.value == RoomDto(r.value.id, request.slug, request.title, ownerId)
      && db.rooms == old(db.rooms) + [StoredRoom(Room(r.value.id, request.slug, request.title, ownerId)).value]
      && db.members == old(db.members) + [RoomMember(r.value.id, ownerId)]
    ensures r.Err? ==> db.members == old(db.members)
    ensures r.Err? && !(RoomRepository.GetBySlug(old(db.rooms), request.slug).None? && RoomAccepted(old(db.rooms), request.slug, request.title)) ==>
      db.rooms == old(db.rooms)
    ensures r.Err? && RoomRepository.GetBySlug(old(db.rooms), request.slug).None? && RoomAccepted(old(db.rooms), request.slug, request.title) ==>
      exists id :: id !in RoomIds(old(db.rooms)) && db.rooms == old(db.rooms) + [StoredRoom(Room(id, request.slug, request.title, ownerId)).value]
  {
    var existing := RoomRepository.GetBySlug(db.rooms, request.slug);
    if existing.Some? {
      return Err(InvalidOperation("Slug already in use"));
    }
    var id := NewGuid(RoomIds(db.rooms));
    var room := Room(id, request.slug, request.title, ownerId);
    assert CanInsertRoom(db.rooms, room) <==> RoomAccepted(db.rooms, request.slug, request.title) by {
      assert forall x :: x in db.rooms ==> x.id in RoomIds(db.rooms);
    }
    var added := RoomRepository.Add(db, room);
    if added.Fail? {
      return Err(added.error);
    }
    var row := StoredRoom(room).value;
    assert HasRoom(db.rooms, id) by { assert row in db.rooms; }
    var linked := RoomRepository.AddMember(db, room.id, ownerId);
    if linked.Fail? {
      assert db.rooms == old(db.rooms) + [row];
      return Err(linked.error);
    }
    r := Ok(ToRoomDto(room));
  }

  /**
   * JoinAsync: a room that does not exist throws KeyNotFoundException and changes nothing;
   * a caller who is already a member changes nothing; otherwise the membership is added.
   */
  method Join(db: ChatDbContext, roomId: Guid, userId: Guid) returns (r: Outcome<Exception>)
    requires db.Valid()
    modifies db
    ensures db.Valid()
    ensures db.users == old(db.users) && db.rooms == old(db.rooms) && db.messages == old(db.messages)
    ensures RoomRepository.GetById(old(db.rooms), roomId).None? ==>
      r == Fail(KeyNotFound("Room not Found")) && db.members == old(db.members)
    ensures RoomRepository.GetById(old(db.rooms), roomId).Some? && RoomMember(roomId, userId) in old(db.members) ==>
      r == Pass && db.members == old(db.members)
    ensures RoomRepository.GetById(old(db.rooms), roomId).Some? && RoomMember(roomId, userId) !in old(db.members) ==>
      (r.Pass? <==> HasUser(old(db.users), userId))
    ensures db.members == old(db.members) || db.members == old(db.members) + [RoomMember(roomId, userId)]
    ensures r.Pass? ==> RoomMember(roomId, userId) in db.members
    ensures RoomRepository.GetById(old(db.rooms), roomId).Some? && RoomMember(roomId, userId) !in old(db.members) && !HasUser(old(db.users), userId) ==>
      r == Fail(DbUpdate)
    ensures r.Fail? ==> db.members == old(db.members)
  {
    var room := RoomRepository.GetById(db.rooms, roomId);
    if room.None? {
      return Fail(KeyNotFound("Room not Found"));
    }
    var isMember := RoomRepository.IsMember(db.members, roomId, userId);
    if !isMember {
      assert HasRoom(db.rooms, roomId) by { assert room.value in db.rooms; }
      r := RoomRepository.AddMember(db, roomId, userId);
    } else {
      r := Pass;
    }
  }

  /** LeaveAsync: removes exactly the caller's membership, and does nothing when there is none. */
  method Leave(db: ChatDbContext, roomId: Guid, userId: Guid)
    requires db.Valid()
    modifies db
    ensures db.Valid()
    ensures RoomMember(roomId, userId) !in db.members
    ensures forall m :: m != RoomMember(roomId, userId) ==> (m in db.members <==> m in old(db.members))
    ensures RoomMember(roomId, userId) !in old(db.members) ==> db.members == old(db.members)
    ensures db.users == old(db.users) && db.rooms == old(db.rooms) && db.messages == old(db.messages)
  {
    RoomRepository.RemoveMember(db, roomId, userId);
  }

  /** IsMemberAsync: true exactly when the (room, user) membership record exists. */
  function IsMember(members: seq<RoomMember>, roomId: Guid, userId: Guid): (r: bool)
    ensures r <==> RoomMember(roomId, userId) in members
  {
    RoomRepository.IsMember(members, roomId, userId)
  }

  /**
   * IsOwnerOrAdminAsync: false for a missing room, true for its owner, and otherwise whether
   * the user's role is Roles.Admin (false for an unknown user).
   */
  function IsOwnerOrAdmin(rooms: seq<Room>, users: seq<User>, roomId: Guid, userId: Guid, adminRole: string): (r: Result<bool, Exception>)
    ensures RoomRepository.GetById(rooms, roomId).None? ==> r == Ok(false)
    ensures RoomRepository.GetById(rooms, roomId).Some? && RoomRepository.GetById(rooms, roomId).value.ownerId == userId ==> r == Ok(true)
    ensures r == Ok(true) ==>
      exists room :: room in rooms && room.id == roomId &&
        (room.ownerId == userId || exists u :: u in users && u.id == userId && u.role == adminRole)
    ensures UserKeysUnique(users) ==> r.Ok?
  {
    match RoomRepository.GetById(rooms, roomId)
    case None => Ok(false)
    case Some(room) =>
      if room.ownerId == userId then Ok(true)
      else
        match UserRepository.GetById(users, userId)
        case Err(e) => Err(e)
        case Ok(None) => Ok(false)
        case Ok(Some(u)) => Ok(u.role == adminRole)
  }

  /** On valid tables the rule reads: the room exists and the user owns it or is an admin user. */
  lemma IsOwnerOrAdminMeaning(rooms: seq<Room>, users: seq<User>, roomId: Guid, userId: Guid, adminRole: string)
    requires RoomsValid(rooms) && UsersValid(users)
    ensures IsOwnerOrAdmin(rooms, users, roomId, userId, adminRole) ==
      Ok(exists room :: (room in rooms && room.id == roomId &&
        (room.ownerId == userId || exists u :: u in users && u.id == userId && u.role == adminRole)))
  {
    var found := RoomRepository.GetById(rooms, roomId);
    if found.Some? {
      forall room | room in rooms && room.id == roomId ensures room == found.value {
        RoomRepository.GetByIdFindsStored(rooms, room);
      }
      if found.value.ownerId != userId {
        forall u | u in users && u.id == userId ensures UserRepository.GetById(users, userId) == Ok(Some(u)) {
          UserRepository.GetByIdFindsStored(users, u);
        }
      }
    }
  }

  /** GetRoomsForUserAsync: DTOs of exactly the rooms the user is a member of. */
  function GetRoomsForUser(rooms: seq<Room>, members: seq<RoomMember>, userId: Guid): (r: seq<RoomDto>)
    ensures forall d :: d in r <==> exists room :: room in rooms && RoomMember(room.id, userId) in members && d == ToRoomDto(room)
  {
    Select(RoomRepository.GetRoomsForUser(rooms, members, userId), ToRoomDto)
  }
}
