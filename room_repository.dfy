/** RoomRepository: the room table and the (room, user) membership relation. */
module RoomRepository {
  import opened Wrappers
  import opened Exceptions
  import opened Linq
  import opened Entities
  import opened Schema

  function IdIs(id: Guid): Room -> bool {
    (r: Room) => r.id == id
  }

  function SlugIs(slug: string): Room -> bool {
    (r: Room) => r.slug == slug
  }

  function PairIs(roomId: Guid, userId: Guid): RoomMember -> bool {
    (m: RoomMember) => m.roomId == roomId && m.userId == userId
  }

  function UserIs(userId: Guid): RoomMember -> bool {
    (m: RoomMember) => m.userId == userId
  }

  function RoomIdOf(m: RoomMember): Guid {
    m.roomId
  }

  function IdIn(ids: seq<Guid>): Room -> bool {
    (r: Room) => r.id in ids
  }

  function IsNot(m: RoomMember): RoomMember -> bool {
    (x: RoomMember) => x != m
  }

  /** GetByIdAsync: the room with that id, or None. */
  function GetById(rooms: seq<Room>, id: Guid): (r: Option<Room>)
    ensures r.Some? ==> r.value in rooms && r.value.id == id
    ensures r.None? <==> forall room :: room in rooms ==> room.id != id
  {
    FirstOrDefault(rooms, IdIs(id))
  }

  /** GetBySlugAsync: the room with that slug, or None. */
  function GetBySlug(rooms: seq<Room>, slug: string): (r: Option<Room>)
    ensures r.Some? ==> r.value in rooms && r.value.slug == slug
    ensures r.None? <==> forall room :: room in rooms ==> room.slug != slug
  {
    FirstOrDefault(rooms, SlugIs(slug))
  }

  /** On a valid table the id lookup finds exactly the stored room. */
  lemma GetByIdFindsStored(rooms: seq<Room>, room: Room)
    requires RoomKeysUnique(rooms) && room in rooms
    ensures GetById(rooms, room.id) == Some(room)
  {
    var found := GetById(rooms, room.id);
    var i :| 0 <= i < |rooms| && rooms[i] == room;
    var j :| 0 <= j < |rooms| && rooms[j] == found.value;
  }

  /** On a valid table the slug lookup finds exactly the stored room. */
  lemma GetBySlugFindsStored(rooms: seq<Room>, room: Room)
    requires RoomKeysUnique(rooms) && room in rooms
    ensures GetBySlug(rooms, room.slug) == Some(room)
  {
    var found := GetBySlug(rooms, room.slug);
    var i :| 0 <= i < |rooms| && rooms[i] == room;
    var j :| 0 <= j < |rooms| && rooms[j] == found.value;
  }

  /** AddAsync: stores the room as its columns keep it when SaveChanges accepts it (fresh id, the
      slug as stored unused, values the columns take) and throws DbUpdateException otherwise; no
      other table changes. */
  method Add(db: ChatDbContext, room: Room) returns (r: Outcome<Exception>)
    requires db.Valid()
    modifies db
    ensures db.Valid()
    ensures r.Pass? <==> CanInsertRoom(old(db.rooms), room)
    ensures r.Fail? ==> r.error == DbUpdate
    ensures db.rooms == if r.Pass? then old(db.rooms) + [StoredRoom(room).value] else old(db.rooms)
    ensures db.users == old(db.users) && db.members == old(db.members) && db.messages == old(db.messages)
  {
    if CanInsertRoom(db.rooms, room) {
      InsertRoomValid(db.rooms, room);
      var row := StoredRoom(room).value;
      MembersValidGrow(db.members, db.rooms, db.users, db.rooms + [row], db.users);
      db.rooms := db.rooms + [row];
      r := Pass;
    } else {
      r := Fail(DbUpdate);
    }
  }

  /** IsMemberAsync: whether a (roomId, userId) record exists. */
  function IsMember(members: seq<RoomMember>, roomId: Guid, userId: Guid): (r: bool)
    ensures r <==> RoomMember(roomId, userId) in members
  {
    exists i | 0 <= i < |members| :: PairIs(roomId, userId)(members[i])
  }

  /** AddMemberAsync: inserts the pair. A pair already present violates the composite key, and a
      pair whose room or user does not exist violates a foreign key: both throw DbUpdateException. */
  method AddMember(db: ChatDbContext, roomId: Guid, userId: Guid) returns (r: Outcome<Exception>)
    requires db.Valid()
    modifies db
    ensures db.Valid()
    ensures r.Pass? <==> CanInsertMember(old(db.members), db.rooms, db.users, RoomMember(roomId, userId))
    ensures RoomMember(roomId, userId) in old(db.members) ==> r.Fail?
    ensures r.Fail? ==> r.error == DbUpdate
    ensures db.members == if r.Pass? then old(db.members) + [RoomMember(roomId, userId)] else old(db.members)
    ensures db.users == old(db.users) && db.rooms == old(db.rooms) && db.messages == old(db.messages)
  {
    var m := RoomMember(roomId, userId);
    if CanInsertMember(db.members, db.rooms, db.users, m) {
      InsertMemberValid(db.members, db.rooms, db.users, m);
      db.members := db.members + [m];
      r := Pass;
    } else {
      r := Fail(DbUpdate);
    }
  }

  /** RemoveMemberAsync: deletes the pair's record when there is one; otherwise nothing happens. */
  method RemoveMember(db: ChatDbContext, roomId: Guid, userId: Guid)
    requires db.Valid()
    modifies db
    ensures db.Valid()
    ensures RoomMember(roomId, userId) !in db.members
    ensures forall m :: m != RoomMember(roomId, userId) ==> (m in db.members <==> m in old(db.members))
    ensures RoomMember(roomId, userId) !in old(db.members) ==> db.members == old(db.members)
    ensures RoomMember(roomId, userId) in old(db.members) ==> |db.members| == |old(db.members)| - 1
    ensures db.users == old(db.users) && db.rooms == old(db.rooms) && db.messages == old(db.messages)
  {
    var entity := FirstOrDefault(db.members, PairIs(roomId, userId));
    if entity.Some? {
      var kept := Where(db.members, IsNot(entity.value));
      assert entity.value == RoomMember(roomId, userId);
      assert multiset(db.members) == multiset(kept) + multiset{entity.value} by {
        RemovedOnce(db.members, entity.value);
      }
      db.members := kept;
    }
  }

  /** Filtering out a record that occurs once leaves a multiset one smaller. */
  lemma {:induction false} RemovedOnce(ms: seq<RoomMember>, m: RoomMember)
    requires m in ms && multiset(ms)[m] == 1
    ensures multiset(ms) == multiset(Where(ms, IsNot(m))) + multiset{m}
  {
    assert ms == [ms[0]] + ms[1..];
    assert multiset(ms) == multiset{ms[0]} + multiset(ms[1..]);
    if ms[0] == m {
      assert m !in ms[1..];
      NoneRemoved(ms[1..], m);
    } else {
      RemovedOnce(ms[1..], m);
    }
  }

  lemma {:induction false} NoneRemoved(ms: seq<RoomMember>, m: RoomMember)
    requires m !in ms
    ensures Where(ms, IsNot(m)) == ms
  {
    if ms != [] {
      assert ms == [ms[0]] + ms[1..];
      NoneRemoved(ms[1..], m);
    }
  }

  /** GetRoomsForUserAsync: the rooms whose id appears among the user's memberships. */
  function GetRoomsForUser(rooms: seq<Room>, members: seq<RoomMember>, userId: Guid): (r: seq<Room>)
    ensures forall room :: room in r <==> room in rooms && RoomMember(room.id, userId) in members
    ensures multiset(r) <= multiset(rooms)
  {
    var mine := Where(members, UserIs(userId));
    var roomIds := Select(mine, RoomIdOf);
    assert forall id :: id in roomIds <==> RoomMember(id, userId) in members by {
      forall id | id in roomIds ensures RoomMember(id, userId) in members {
        var m :| m in mine && RoomIdOf(m) == id;
        assert m == RoomMember(id, userId);
      }
      forall id | RoomMember(id, userId) in members ensures id in roomIds {
        assert RoomMember(id, userId) in mine;
        assert RoomIdOf(RoomMember(id, userId)) in roomIds;
      }
    }
    Where(rooms, IdIn(roomIds))
  }
}
