/**
 * The entities (Room, ChatMessage, User, RoomMember), the DTO records, claims, and the
 * framework services the core calls but does not define.
 */
module Entities {
  import opened Wrappers
  import opened Linq

  /** System.Guid. Only equality and freshness matter to the core. */
  type Guid = nat

  /** DateTime.UtcNow at the moment a message is built, supplied by the caller as a tick count. */
  type Timestamp = nat

  /** A registered account. `passwordHash` holds PasswordHasher.Hash of the password. */
  datatype User = User(id: Guid, userName: string, passwordHash: string, role: string)

  /** The role `RegisterAsync` gives every new account. */
  const StudentRole := "student"

  /** A chat room. The `Members` navigation list is not kept: memberships live in their own table. */
  datatype Room = Room(id: Guid, slug: string, title: string, ownerId: Guid)

  /** A (room, user) membership record; the pair is its whole key. */
  datatype RoomMember = RoomMember(roomId: Guid, userId: Guid)

  /** A persisted message. `roomId` and `userId` are strings: the hub stores the room id exactly as the
      client spelled it and the user id as Guid.ToString(). */
  datatype ChatMessage = ChatMessage(id: Guid, roomId: string, userId: string, content: string, timeStamp: Timestamp)

  datatype ChatMessageDto = ChatMessageDto(id: Guid, roomId: string, userId: string, content: string, timeStamp: Timestamp)

  datatype CreateRoomRequest = CreateRoomRequest(slug: string, title: string)

  datatype RoomDto = RoomDto(id: Guid, slug: string, title: string, ownerId: Guid)

  datatype LoginRequest = LoginRequest(userName: string, password: string)

  datatype RegisterRequest = RegisterRequest(userName: string, password: string)

  /** A claim of an identity: its type URI or short name, and its value. */
  datatype Claim = Claim(claimType: string, value: string)

  /** AuthResponse(Token, RefreshToken). The signed JWT is kept as the list of claims it carries. */
  datatype AuthResponse = AuthResponse(token: seq<Claim>, refreshToken: string)

  /** `new ChatMessageDto(m.Id, m.RoomId, m.UserId, m.Content, m.TimeStamp)`. */
  function ToDto(m: ChatMessage): ChatMessageDto {
    ChatMessageDto(m.id, m.roomId, m.userId, m.content, m.timeStamp)
  }

  /** The message entity a DTO mirrors, field by field. */
  function ToMessage(d: ChatMessageDto): (m: ChatMessage)
    ensures ToDto(m) == d
  {
    ChatMessage(d.id, d.roomId, d.userId, d.content, d.timeStamp)
  }

  /** `new RoomDto(r.Id, r.Slug, r.Title, r.OwnerId)`. */
  function ToRoomDto(r: Room): RoomDto {
    RoomDto(r.id, r.slug, r.title, r.ownerId)
  }

  /** The sort key `m => m.TimeStamp`. */
  function TimeStampOf(m: ChatMessage): int {
    m.timeStamp
  }

  /** The sort key `m => m.TimeStamp` on DTOs. */
  function DtoTimeStamp(d: ChatMessageDto): int {
    d.timeStamp
  }

  // Claim types, as System.Security.Claims.ClaimTypes and JwtRegisteredClaimNames spell them.
  const SubClaim := "sub"
  const UniqueNameClaim := "unique_name"
  const ShortNameClaim := "name"
  const NameIdentifierClaim := "http://schemas.xmlsoap.org/ws/2005/05/identity/claims/nameidentifier"
  const NameClaim := "http://schemas.xmlsoap.org/ws/2005/05/identity/claims/name"
  const RoleClaim := "role"

  /** The six claim types are pairwise different. */
  lemma ClaimTypesDistinct()
    ensures SubClaim != UniqueNameClaim && SubClaim != ShortNameClaim && SubClaim != NameIdentifierClaim
    ensures SubClaim != NameClaim && SubClaim != RoleClaim
    ensures UniqueNameClaim != ShortNameClaim && UniqueNameClaim != NameIdentifierClaim
    ensures UniqueNameClaim != NameClaim && UniqueNameClaim != RoleClaim
    ensures ShortNameClaim != NameIdentifierClaim && ShortNameClaim != NameClaim && ShortNameClaim != RoleClaim
    ensures NameIdentifierClaim != NameClaim && NameIdentifierClaim != RoleClaim && NameClaim != RoleClaim
  {
    assert |SubClaim| == 3 && |UniqueNameClaim| == 11 && |ShortNameClaim| == 4 && |RoleClaim| == 4;
    assert |NameIdentifierClaim| == 68 && |NameClaim| == 58;
    assert ShortNameClaim[0] != RoleClaim[0];
  }

  /** The claim-type test `c => c.Type == claimType`. */
  function TypeIs(claimType: string): Claim -> bool {
    (c: Claim) => c.claimType == claimType
  }

  /** ClaimsPrincipal.FindFirst(type)?.Value: the value of the first claim of that type. */
  function FindFirst(claims: seq<Claim>, claimType: string): (r: Option<string>)
    ensures r.Some? ==> Claim(claimType, r.value) in claims
    ensures r.None? <==> forall c :: c in claims ==> c.claimType != claimType
  {
    match FirstOrDefault(claims, TypeIs(claimType))
    case None => None
    case Some(c) => Some(c.value)
  }

  /** FindFirst returns the value at the first index carrying the claim type. */
  lemma FindFirstAt(claims: seq<Claim>, claimType: string, k: nat)
    requires k < |claims| && claims[k].claimType == claimType
    requires forall i :: 0 <= i < k ==> claims[i].claimType != claimType
    ensures FindFirst(claims, claimType) == Some(claims[k].value)
  {
    var r := FirstOrDefault(claims, TypeIs(claimType));
    assert TypeIs(claimType)(claims[k]);
    var i :| 0 <= i < |claims| && claims[i] == r.value && forall j :: 0 <= j < i ==> !TypeIs(claimType)(claims[j]);
    assert !(i < k) && !(k < i);
  }

  /** FindFirst returns the value of whichever claim is the first of its type. */
  lemma FindFirstIsFirst(claims: seq<Claim>, claimType: string)
    ensures forall k ::
      (0 <= k < |claims| && claims[k].claimType == claimType && forall i :: 0 <= i < k ==> claims[i].claimType != claimType) ==>
        FindFirst(claims, claimType) == Some(claims[k].value)
  {
    forall k | 0 <= k < |claims| && claims[k].claimType == claimType && (forall i :: 0 <= i < k ==> claims[i].claimType != claimType)
      ensures FindFirst(claims, claimType) == Some(claims[k].value)
    {
      FindFirstAt(claims, claimType, k);
    }
  }

  /** A bound above every Guid of `used`, so that a fresh one exists. */
  ghost function UpperBound(used: set<Guid>): (b: Guid)
    ensures forall g :: g in used ==> g < b
    decreases |used|
  {
    if used == {} then 0
    else
      var x :| x in used;
      var b := UpperBound(used - {x});
      assert forall g :: g in used ==> g == x || g in used - {x};
      if x < b then b else x + 1
  }

  /** Guid.NewGuid(): some identifier that none of `used` has. */
  method NewGuid(used: set<Guid>) returns (g: Guid)
    ensures g !in used
  {
    ghost var bound := UpperBound(used);
    assert bound !in used;
    g :| g !in used;
  }

  /**
   * The framework and library services the core calls, as functions it is given:
   * Guid.TryParse (and Guid.Parse, which throws where TryParse fails), Guid.ToString(),
   * PasswordHasher.Hash and PasswordHasher.Verify, and the constant Roles.Admin.
   */
  datatype Platform = Platform(
    parseGuid: string -> Option<Guid>,
    formatGuid: Guid -> string,
    hash: string -> string,
    verify: (string, string) -> bool,
    adminRole: string)

  /** Guid.Parse reads back what Guid.ToString() wrote. Assumed only where a lemma says so. */
  ghost predicate FormatParsesBack(p: Platform) {
    forall g: Guid :: p.parseGuid(p.formatGuid(g)) == Some(g)
  }

  /** PasswordHasher.Verify accepts the password a stored hash was made from. Assumed only where a lemma says so. */
  ghost predicate HashVerifies(p: Platform) {
    forall password :: p.verify(password, p.hash(password))
  }
}
