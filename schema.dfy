/**
 * ChatDbContext: the four tables and the constraints OnModelCreating declares on them
 * (keys, unique indexes, maximum lengths, foreign keys). The database rejects, at
 * SaveChanges, any insert that would break one of them; `Valid()` is their conjunction.
 */
module Schema {
  import opened Wrappers
  import opened Entities

  const MessageRoomIdMaxLength := 100
  const MessageUserIdMaxLength := 100
  const MessageContentMaxLength := 2000
  const UserNameMaxLength := 100
  const RoleMaxLength := 32
  const SlugMaxLength := 100
  const TitleMaxLength := 200

  /**
   * What PostgreSQL stores for `s` in a varchar(n) column (section 8.3 of the PostgreSQL
   * documentation): `s` itself when it fits; `s` cut to n characters when every character past
   * the n-th is a space; nothing otherwise, and the statement fails.
   */
  function Varchar(s: string, n: nat): (c: Option<string>)
    ensures c.Some? <==> |s| <= n || forall i :: n <= i < |s| ==> s[i] == ' '
    ensures |s| <= n ==> c == Some(s)
    ensures c.Some? ==> |c.value| <= n && c.value == s[..|c.value|] && forall i :: |c.value| <= i < |s| ==> s[i] == ' '
  {
    if |s| <= n then Some(s)
    else if forall i :: n <= i < |s| ==> s[i] == ' ' then Some(s[..n])
    else None
  }

  /** A stored value is stored again unchanged. */
  lemma VarcharStable(s: string, n: nat)
    requires Varchar(s, n).Some?
    ensures Varchar(Varchar(s, n).value, n) == Varchar(s, n)
  {
  }

  /** DateTime ticks are 100 ns; Npgsql writes a timestamp as whole microseconds. */
  const TicksPerMicrosecond := 10

  /** The timestamp PostgreSQL keeps for `t`: the ticks below a whole microsecond are dropped. */
  function StoredTime(t: Timestamp): (s: Timestamp)
    ensures s <= t < s + TicksPerMicrosecond && s % TicksPerMicrosecond == 0
  {
    t - t % TicksPerMicrosecond
  }

  // ---- Messages: key Id; RoomId and UserId varchar(100), Content varchar(2000).

  /** A stored message row fits its columns. */
  predicate MessageFits(m: ChatMessage) {
    |m.roomId| <= MessageRoomIdMaxLength && |m.userId| <= MessageUserIdMaxLength && |m.content| <= MessageContentMaxLength
  }

  /** The message columns take these values (possibly cut of trailing spaces). */
  predicate MessageColumnsAccept(roomId: string, userId: string, content: string) {
    && Varchar(roomId, MessageRoomIdMaxLength).Some?
    && Varchar(userId, MessageUserIdMaxLength).Some?
    && Varchar(content, MessageContentMaxLength).Some?
  }

  /** The row PostgreSQL stores when `m` is inserted, or None when a column refuses its value. */
  function StoredMessage(m: ChatMessage): (r: Option<ChatMessage>)
    ensures r.Some? <==> MessageColumnsAccept(m.roomId, m.userId, m.content)
    ensures r.Some? ==> MessageFits(r.value) && r.value.id == m.id && r.value.timeStamp == StoredTime(m.timeStamp)
    ensures r.Some? ==>
      && Varchar(m.roomId, MessageRoomIdMaxLength) == Some(r.value.roomId)
      && Varchar(m.userId, MessageUserIdMaxLength) == Some(r.value.userId)
      && Varchar(m.content, MessageContentMaxLength) == Some(r.value.content)
    ensures MessageFits(m) ==> r == Some(m.(timeStamp := StoredTime(m.timeStamp)))
  {
    if MessageColumnsAccept(m.roomId, m.userId, m.content) then
      Some(ChatMessage(m.id, Varchar(m.roomId, MessageRoomIdMaxLength).value, Varchar(m.userId, MessageUserIdMaxLength).value,
                       Varchar(m.content, MessageContentMaxLength).value, StoredTime(m.timeStamp)))
    else None
  }

  predicate MessageIdsUnique(ms: seq<ChatMessage>) {
    forall i, j :: 0 <= i < |ms| && 0 <= j < |ms| && ms[i].id == ms[j].id ==> i == j
  }

  predicate MessagesValid(ms: seq<ChatMessage>) {
    MessageIdsUnique(ms) && forall m :: m in ms ==> MessageFits(m)
  }

  /** What SaveChanges accepts when `m` is added to the message table. */
  predicate CanInsertMessage(ms: seq<ChatMessage>, m: ChatMessage) {
    MessageColumnsAccept(m.roomId, m.userId, m.content) && forall x :: x in ms ==> x.id != m.id
  }

  /** The database's admission test is exactly the schema: a message the columns take keeps a
      valid table valid, once stored, if and only if SaveChanges accepts it. */
  lemma InsertMessageValid(ms: seq<ChatMessage>, m: ChatMessage)
    requires MessagesValid(ms)
    ensures CanInsertMessage(ms, m) <==> StoredMessage(m).Some? && MessagesValid(ms + [StoredMessage(m).value])
  {
    if StoredMessage(m).Some? {
      var row := StoredMessage(m).value;
      var s := ms + [row];
      assert s[|ms|] == row;
      if MessagesValid(s) {
        forall x | x in ms ensures x.id != m.id {
          var i :| 0 <= i < |ms| && ms[i] == x;
          assert s[i] == x;
        }
      }
      if CanInsertMessage(ms, m) {
        forall i, j | 0 <= i < |s| && 0 <= j < |s| && s[i].id == s[j].id ensures i == j {
          if i < |ms| { assert s[i] == ms[i]; }
          if j < |ms| { assert s[j] == ms[j]; }
        }
      }
    }
  }

  // ---- Users: key Id; unique UserName varchar(100); PasswordHash text; Role varchar(32).

  predicate UserFits(u: User) {
    |u.userName| <= UserNameMaxLength && |u.role| <= RoleMaxLength
  }

  predicate UserColumnsAccept(userName: string, role: string) {
    Varchar(userName, UserNameMaxLength).Some? && Varchar(role, RoleMaxLength).Some?
  }

  /** The row PostgreSQL stores when `u` is inserted, or None when a column refuses its value. */
  function StoredUser(u: User): (r: Option<User>)
    ensures r.Some? <==> UserColumnsAccept(u.userName, u.role)
    ensures r.Some? ==> UserFits(r.value) && r.value.id == u.id && r.value.passwordHash == u.passwordHash
    ensures r.Some? ==> Varchar(u.userName, UserNameMaxLength) == Some(r.value.userName)
    ensures r.Some? ==> Varchar(u.role, RoleMaxLength) == Some(r.value.role)
    ensures UserFits(u) ==> r == Some(u)
  {
    if UserColumnsAccept(u.userName, u.role) then
      Some(User(u.id, Varchar(u.userName, UserNameMaxLength).value, u.passwordHash, Varchar(u.role, RoleMaxLength).value))
    else None
  }

  predicate UserKeysUnique(us: seq<User>) {
    forall i, j :: 0 <= i < |us| && 0 <= j < |us| && (us[i].id == us[j].id || us[i].userName == us[j].userName) ==> i == j
  }

  predicate UsersValid(us: seq<User>) {
    UserKeysUnique(us) && forall u :: u in us ==> UserFits(u)
  }

  /** A new user with this name and role passes the columns and the unique index on the name as stored. */
  predicate UserAccepted(us: seq<User>, userName: string, role: string) {
    UserColumnsAccept(userName, role) && forall x :: x in us ==> x.userName != Varchar(userName, UserNameMaxLength).value
  }

  predicate CanInsertUser(us: seq<User>, u: User) {
    UserAccepted(us, u.userName, u.role) && forall x :: x in us ==> x.id != u.id
  }

  lemma InsertUserValid(us: seq<User>, u: User)
    requires UsersValid(us)
    ensures CanInsertUser(us, u) <==> StoredUser(u).Some? && UsersValid(us + [StoredUser(u).value])
  {
    if StoredUser(u).Some? {
      var row := StoredUser(u).value;
      var s := us + [row];
      assert s[|us|] == row;
      if UsersValid(s) {
        forall x | x in us ensures x.id != u.id && x.userName != row.userName {
          var i :| 0 <= i < |us| && us[i] == x;
          assert s[i] == x;
        }
      }
      if CanInsertUser(us, u) {
        forall i, j | 0 <= i < |s| && 0 <= j < |s| && (s[i].id == s[j].id || s[i].userName == s[j].userName) ensures i == j {
          if i < |us| { assert s[i] == us[i]; }
          if j < |us| { assert s[j] == us[j]; }
        }
      }
    }
  }

  // ---- Rooms: key Id; unique Slug varchar(100); Title varchar(200).

  predicate RoomFits(r: Room) {
    |r.slug| <= SlugMaxLength && |r.title| <= TitleMaxLength
  }

  predicate RoomColumnsAccept(slug: string, title: string) {
    Varchar(slug, SlugMaxLength).Some? && Varchar(title, TitleMaxLength).Some?
  }

  /** The row PostgreSQL stores when `r` is inserted, or None when a column refuses its value. */
  function StoredRoom(r: Room): (s: Option<Room>)
    ensures s.Some? <==> RoomColumnsAccept(r.slug, r.title)
    ensures s.Some? ==> RoomFits(s.value) && s.value.id == r.id && s.value.ownerId == r.ownerId
    ensures s.Some? ==> Varchar(r.slug, SlugMaxLength) == Some(s.value.slug)
    ensures s.Some? ==> Varchar(r.title, TitleMaxLength) == Some(s.value.title)
    ensures RoomFits(r) ==> s == Some(r)
  {
    if RoomColumnsAccept(r.slug, r.title) then
      Some(Room(r.id, Varchar(r.slug, SlugMaxLength).value, Varchar(r.title, TitleMaxLength).value, r.ownerId))
    else None
  }

  predicate RoomKeysUnique(rs: seq<Room>) {
    forall i, j :: 0 <= i < |rs| && 0 <= j < |rs| && (rs[i].id == rs[j].id || rs[i].slug == rs[j].slug) ==> i == j
  }

  predicate RoomsValid(rs: seq<Room>) {
    RoomKeysUnique(rs) && forall r :: r in rs ==> RoomFits(r)
  }

  /** A new room with this slug and title passes the columns and the unique index on the slug as stored. */
  predicate RoomAccepted(rs: seq<Room>, slug: string, title: string) {
    RoomColumnsAccept(slug, title) && forall x :: x in rs ==> x.slug != Varchar(slug, SlugMaxLength).value
  }

  predicate CanInsertRoom(rs: seq<Room>, r: Room) {
    RoomAccepted(rs, r.slug, r.title) && forall x :: x in rs ==> x.id != r.id
  }

  lemma InsertRoomValid(rs: seq<Room>, r: Room)
    requires RoomsValid(rs)
    ensures CanInsertRoom(rs, r) <==> StoredRoom(r).Some? && RoomsValid(rs + [StoredRoom(r).value])
  {
    if StoredRoom(r).Some? {
      var row := StoredRoom(r).value;
      var s := rs + [row];
      assert s[|rs|] == row;
      if RoomsValid(s) {
        forall x | x in rs ensures x.id != r.id && x.slug != row.slug {
          var i :| 0 <= i < |rs| && rs[i] == x;
          assert s[i] == x;
        }
      }
      if CanInsertRoom(rs, r) {
        forall i, j | 0 <= i < |s| && 0 <= j < |s| && (s[i].id == s[j].id || s[i].slug == s[j].slug) ensures i == j {
          if i < |rs| { assert s[i] == rs[i]; }
          if j < |rs| { assert s[j] == rs[j]; }
        }
      }
    }
  }

  // ---- Memberships: key (RoomId, UserId); RoomId references a room, UserId a user.

  predicate HasRoom(rooms: seq<Room>, id: Guid) {
    exists r :: r in rooms && r.id == id
  }

  predicate HasUser(users: seq<User>, id: Guid) {
    exists u :: u in users && u.id == id
  }

  predicate MemberLinked(m: RoomMember, rooms: seq<Room>, users: seq<User>) {
    HasRoom(rooms, m.roomId) && HasUser(users, m.userId)
  }

  /** The composite key: each (room, user) pair is recorded at most once. */
  predicate MemberKeysUnique(ms: seq<RoomMember>) {
    forall m :: m in ms ==> multiset(ms)[m] == 1
  }

  predicate MembersValid(ms: seq<RoomMember>, rooms: seq<Room>, users: seq<User>) {
    MemberKeysUnique(ms) && forall m :: m in ms ==> MemberLinked(m, rooms, users)
  }

  predicate CanInsertMember(ms: seq<RoomMember>, rooms: seq<Room>, users: seq<User>, m: RoomMember) {
    m !in ms && MemberLinked(m, rooms, users)
  }

  lemma InsertMemberValid(ms: seq<RoomMember>, rooms: seq<Room>, users: seq<User>, m: RoomMember)
    requires MembersValid(ms, rooms, users)
    ensures MembersValid(ms + [m], rooms, users) <==> CanInsertMember(ms, rooms, users, m)
  {
    var s := ms + [m];
    assert multiset(s) == multiset(ms) + multiset{m};
    assert m in s;
    if CanInsertMember(ms, rooms, users, m) {
      forall x | x in s ensures multiset(s)[x] == 1 && MemberLinked(x, rooms, users) {
        if x != m { assert x in ms; }
      }
    }
  }

  /** Adding rooms or users never breaks a membership's references. */
  lemma MembersValidGrow(ms: seq<RoomMember>, rooms: seq<Room>, users: seq<User>, rooms': seq<Room>, users': seq<User>)
    requires MembersValid(ms, rooms, users)
    requires forall r :: r in rooms ==> r in rooms'
    requires forall u :: u in users ==> u in users'
    ensures MembersValid(ms, rooms', users')
  {
    forall m | m in ms ensures MemberLinked(m, rooms', users') {
      assert MemberLinked(m, rooms, users);
    }
  }

  /** The database: its four tables, in the order their rows are stored. */
  class ChatDbContext {
    var users: seq<User>
    var rooms: seq<Room>
    var members: seq<RoomMember>
    var messages: seq<ChatMessage>

    /** Every constraint OnModelCreating declares holds of the stored rows. */
    predicate Valid()
      reads this
    {
      && UsersValid(users)
      && RoomsValid(rooms)
      && MembersValid(members, rooms, users)
      && MessagesValid(messages)
    }

    /** A freshly migrated, empty database. */
    constructor ()
      ensures Valid()
      ensures users == [] && rooms == [] && members == [] && messages == []
    {
      users, rooms, members, messages := [], [], [], [];
    }
  }
}
