/**
 * ChatHub: the real-time entry points. Each call validates the room id, identifies the caller,
 * checks or changes membership and the message log, then changes the caller's SignalR group
 * and broadcasts. Groups and everything sent to clients are kept in one GroupManager.
 */
module Hubs {
  import opened Wrappers
  import opened Exceptions
  import opened Entities
  import opened Schema
  import ChatRepository
  import RoomService
  import ChatService
  import AuthService
  import RoomRepository

  /** Who a send is addressed to: `Clients.Group(name)` or `Clients.Caller`. */
  datatype Audience = Group(name: string) | Caller(connectionId: string)

  /** The client methods the hub invokes, with their argument. */
  datatype HubEvent =
    | SystemMessage(text: string)
    | ReceiveMessage(message: ChatMessageDto)
    | MessageHistory(history: seq<ChatMessageDto>)

  /** One SendAsync: its audience, the connections it reached, and the event. */
  datatype Envelope = Envelope(audience: Audience, recipients: set<string>, event: HubEvent)

  /** The hub's Context: the calling connection and the claims of its authenticated user. */
  datatype CallerContext = CallerContext(connectionId: string, claims: seq<Claim>)

  /** Whether the group and send operations of one call fail, and with what (a backplane timeout
      is TaskCanceled). Supplied by the caller, since the transport is outside the model. */
  datatype Transport = Transport(groupFault: Option<Exception>, sendFault: Option<Exception>)

  /** The connections in a group; a group nobody joined is empty. */
  function Members(groups: map<string, set<string>>, group: string): set<string> {
    if group in groups then groups[group] else {}
  }

  /** The groups after AddToGroupAsync(connectionId, group). */
  function Joined(groups: map<string, set<string>>, group: string, connectionId: string): (g: map<string, set<string>>)
    ensures Members(g, group) == Members(groups, group) + {connectionId}
    ensures forall other :: other != group ==> Members(g, other) == Members(groups, other)
  {
    groups[group := Members(groups, group) + {connectionId}]
  }

  /** The groups after RemoveFromGroupAsync(connectionId, group). */
  function Left(groups: map<string, set<string>>, group: string, connectionId: string): (g: map<string, set<string>>)
    ensures Members(g, group) == Members(groups, group) - {connectionId}
    ensures forall other :: other != group ==> Members(g, other) == Members(groups, other)
  {
    if group in groups then groups[group := groups[group] - {connectionId}] else groups
  }

  /** Adding a connection to a group it is already in changes nothing a client can observe. */
  lemma JoinedTwice(groups: map<string, set<string>>, group: string, connectionId: string)
    ensures forall name :: (Members(Joined(Joined(groups, group, connectionId), group, connectionId), name) ==
      Members(Joined(groups, group, connectionId), name))
  {
  }

  /** Leaving after joining takes the connection out of the group and leaves the others in it. */
  lemma LeftAfterJoined(groups: map<string, set<string>>, group: string, connectionId: string)
    ensures Members(Left(Joined(groups, group, connectionId), group, connectionId), group) ==
      Members(groups, group) - {connectionId}
  {
  }

  /** SignalR's group registry and client proxies: the groups, and every send made so far. */
  class GroupManager {
    var groups: map<string, set<string>>
    var outbox: seq<Envelope>

    constructor ()
      ensures groups == map[] && outbox == []
    {
      groups, outbox := map[], [];
    }

    /** Groups.AddToGroupAsync; a transport fault throws and changes nothing. */
    method AddToGroup(connectionId: string, group: string, fault: Option<Exception>) returns (r: Outcome<Exception>)
      modifies this
      ensures fault.Some? ==> r == Fail(fault.value) && groups == old(groups)
      ensures fault.None? ==> r == Pass && groups == Joined(old(groups), group, connectionId)
      ensures outbox == old(outbox)
    {
      if fault.Some? {
        return Fail(fault.value);
      }
      groups := Joined(groups, group, connectionId);
      r := Pass;
    }

    /** Groups.RemoveFromGroupAsync; a transport fault throws and changes nothing. */
    method RemoveFromGroup(connectionId: string, group: string, fault: Option<Exception>) returns (r: Outcome<Exception>)
      modifies this
      ensures fault.Some? ==> r == Fail(fault.value) && groups == old(groups)
      ensures fault.None? ==> r == Pass && groups == Left(old(groups), group, connectionId)
      ensures outbox == old(outbox)
    {
      if fault.Some? {
        return Fail(fault.value);
      }
      groups := Left(groups, group, connectionId);
      r := Pass;
    }

    /** Clients.Group(group).SendAsync: reaches the group's current connections. */
    method SendToGroup(group: string, event: HubEvent, fault: Option<Exception>) returns (r: Outcome<Exception>)
      modifies this
      ensures fault.Some? ==> r == Fail(fault.value) && outbox == old(outbox)
      ensures fault.None? ==> r == Pass && outbox == old(outbox) + [Envelope(Group(group), Members(groups, group), event)]
      ensures groups == old(groups)
    {
      if fault.Some? {
        return Fail(fault.value);
      }
      outbox := outbox + [Envelope(Group(group), Members(groups, group), event)];
      r := Pass;
    }

    /** Clients.Caller.SendAsync: reaches the calling connection only. */
    method SendToCaller(connectionId: string, event: HubEvent, fault: Option<Exception>) returns (r: Outcome<Exception>)
      modifies this
      ensures fault.Some? ==> r == Fail(fault.value) && outbox == old(outbox)
      ensures fault.None? ==> r == Pass && outbox == old(outbox) + [Envelope(Caller(connectionId), {connectionId}, event)]
      ensures groups == old(groups)
    {
      if fault.Some? {
        return Fail(fault.value);
      }
      outbox := outbox + [Envelope(Caller(connectionId), {connectionId}, event)];
      r := Pass;
    }
  }

  /**
   * CurrentUserId: Guid.Parse of the caller's NameIdentifier claim. A missing claim is a null
   * dereference; a value that does not parse is a FormatException.
   */
  function CurrentUserId(claims: seq<Claim>, p: Platform): (r: Result<Guid, Exception>)
    ensures FindFirst(claims, NameIdentifierClaim).None? <==> r == Err(NullReference)
    ensures r.Ok? ==> exists v :: Claim(NameIdentifierClaim, v) in claims && p.parseGuid(v) == Some(r.value)
    ensures r.Err? ==> r.error == NullReference || r.error == Format
    ensures forall v :: FindFirst(claims, NameIdentifierClaim) == Some(v) ==>
      r == if p.parseGuid(v).Some? then Ok(p.parseGuid(v).value) else Err(Format)
  {
    match FindFirst(claims, NameIdentifierClaim)
    case None => Err(NullReference)
    case Some(v) =>
      match p.parseGuid(v)
      case None => Err(Format)
      case Some(g) => Ok(g)
  }

  /** The claims of a token AuthService issued identify its user, as long as Guid.Parse reads
      back what Guid.ToString() wrote. */
  lemma TokenIdentifiesUser(user: User, p: Platform)
    requires FormatParsesBack(p)
    ensures CurrentUserId(AuthService.GenerateJwtToken(user, p), p) == Ok(user.id)
  {
  }

  /** Context.User.Identity.Name (the first ClaimTypes.Name claim), interpolated as "" when absent. */
  function IdentityName(claims: seq<Claim>): (name: string)
    ensures (forall c :: c in claims ==> c.claimType != NameClaim) ==> name == ""
    ensures (exists c :: c in claims && c.claimType == NameClaim) ==> Claim(NameClaim, name) in claims
    ensures forall k ::
      (0 <= k < |claims| && claims[k].claimType == NameClaim && forall i :: 0 <= i < k ==> claims[i].claimType != NameClaim) ==>
        name == claims[k].value
  {
    FindFirstIsFirst(claims, NameClaim);
    FindFirst(claims, NameClaim).GetOr("")
  }

  /** The name a notice announces for a caller holding an issued token is the user's name. */
  lemma TokenNamesUser(user: User, p: Platform)
    ensures IdentityName(AuthService.GenerateJwtToken(user, p)) == user.userName
  {
  }

  /** The log holds the row PostgreSQL kept for the message a DTO mirrors. */
  predicate Persisted(d: ChatMessageDto, messages: seq<ChatMessage>) {
    StoredMessage(ToMessage(d)).Some? && StoredMessage(ToMessage(d)).value in messages
  }

  /** Every message broadcast to a group was stored before it was sent. */
  ghost predicate BroadcastsPersisted(outbox: seq<Envelope>, messages: seq<ChatMessage>) {
    forall e :: e in outbox && e.event.ReceiveMessage? ==> Persisted(e.event.message, messages)
  }

  /** A registry that has sent nothing satisfies the invariant over any log. */
  lemma NothingSentPersisted(messages: seq<ChatMessage>)
    ensures BroadcastsPersisted([], messages)
  {
  }

  /**
   * A message broadcast live is in the history of the room it was stored under, once the count
   * covers that room, as the row the database kept: the same id, the room id, user id and content
   * cut only of trailing spaces past their column lengths, the timestamp cut to whole
   * microseconds. Where no column had to cut, the stored copy differs from the live DTO in the
   * timestamp only.
   */
  lemma BroadcastInHistory(outbox: seq<Envelope>, messages: seq<ChatMessage>, e: Envelope, count: int)
    requires BroadcastsPersisted(outbox, messages)
    requires e in outbox && e.event.ReceiveMessage?
    requires var m := StoredMessage(ToMessage(e.event.message));
      m.Some? && count >= |ChatRepository.InRoom(messages, m.value.roomId)|
    ensures var d := e.event.message;
      var m := StoredMessage(ToMessage(d)).value;
      var history := ChatService.GetHistory(messages, m.roomId, count);
      && history.Ok? && ToDto(m) in history.value
      && m.id == d.id && m.timeStamp == StoredTime(d.timeStamp)
      && Varchar(d.roomId, MessageRoomIdMaxLength) == Some(m.roomId)
      && Varchar(d.userId, MessageUserIdMaxLength) == Some(m.userId)
      && Varchar(d.content, MessageContentMaxLength) == Some(m.content)
      && (MessageFits(ToMessage(d)) ==> ToDto(m) == d.(timeStamp := StoredTime(d.timeStamp)))
  {
    var m := StoredMessage(ToMessage(e.event.message)).value;
    assert Persisted(e.event.message, messages);
    ChatService.HistoryHoldsRoom(messages, m.roomId, count, m);
  }

  /** A content longer than its column only by trailing spaces is stored cut, so the broadcast
      DTO and the history entry built from the stored row are different messages. */
  lemma PaddedContentStoredCut(d: ChatMessageDto)
    requires MessageColumnsAccept(d.roomId, d.userId, d.content) && |d.content| > MessageContentMaxLength
    ensures StoredMessage(ToMessage(d)).Some?
    ensures StoredMessage(ToMessage(d)).value.content == d.content[..MessageContentMaxLength]
    ensures ToDto(StoredMessage(ToMessage(d)).value) != d
  {
    var m := StoredMessage(ToMessage(d)).value;
    assert |m.content| <= MessageContentMaxLength < |d.content|;
  }

  /** A send that carries no message keeps every broadcast message stored. */
  lemma NoticePersisted(outbox: seq<Envelope>, messages: seq<ChatMessage>, e: Envelope)
    requires BroadcastsPersisted(outbox, messages) && !e.event.ReceiveMessage?
    ensures BroadcastsPersisted(outbox + [e], messages)
  {
    forall x | x in outbox + [e] && x.event.ReceiveMessage? ensures Persisted(x.event.message, messages) {
      assert x in outbox;
    }
  }

  /** Broadcasting a message after appending the row stored for it keeps every broadcast stored. */
  lemma BroadcastPersisted(outbox: seq<Envelope>, messages: seq<ChatMessage>, d: ChatMessageDto, e: Envelope)
    requires BroadcastsPersisted(outbox, messages)
    requires StoredMessage(ToMessage(d)).Some? && e.event == ReceiveMessage(d)
    ensures BroadcastsPersisted(outbox + [e], messages + [StoredMessage(ToMessage(d)).value])
  {
    var messages' := messages + [StoredMessage(ToMessage(d)).value];
    forall x | x in outbox + [e] && x.event.ReceiveMessage? ensures Persisted(x.event.message, messages') {
      if x != e {
        assert x in outbox;
        assert Persisted(x.event.message, messages);
      }
    }
  }

  /** Appending to the log keeps every broadcast stored. */
  lemma LogGrowthPersisted(outbox: seq<Envelope>, messages: seq<ChatMessage>, m: ChatMessage)
    requires BroadcastsPersisted(outbox, messages)
    ensures BroadcastsPersisted(outbox, messages + [m])
  {
    forall x | x in outbox && x.event.ReceiveMessage? ensures Persisted(x.event.message, messages + [m]) {
      assert Persisted(x.event.message, messages);
    }
  }

  /** Two spellings of one Guid share a membership, but not a group or a history. */
  lemma SpellingsShareOnlyMembership(groups: map<string, set<string>>, messages: seq<ChatMessage>, members: seq<RoomMember>,
                                     p: Platform, s1: string, s2: string, userId: Guid, connectionId: string)
    requires s1 != s2 && p.parseGuid(s1).Some? && p.parseGuid(s1) == p.parseGuid(s2)
    ensures RoomService.IsMember(members, p.parseGuid(s1).value, userId) == RoomService.IsMember(members, p.parseGuid(s2).value, userId)
    ensures Members(Joined(groups, s1, connectionId), s2) == Members(groups, s2)
    ensures forall m :: m in ChatRepository.InRoom(messages, s1) ==> m !in ChatRepository.InRoom(messages, s2)
  {
  }

  /** One hub invocation: the database, the group registry, the caller, and the platform services. */
  class ChatHub {
    const db: ChatDbContext
    const signalR: GroupManager
    const context: CallerContext
    const platform: Platform

    /** The schema invariants hold and no message reached a client before it was stored. */
    ghost predicate Valid()
      reads db, signalR
    {
      db.Valid() && BroadcastsPersisted(signalR.outbox, db.messages)
    }

    /** Neither a table nor the group registry nor the outbox changed. */
    twostate predicate Untouched()
      reads db, signalR
    {
      && db.users == old(db.users) && db.rooms == old(db.rooms)
      && db.members == old(db.members) && db.messages == old(db.messages)
      && signalR.groups == old(signalR.groups) && signalR.outbox == old(signalR.outbox)
    }

    /** A hub over a valid database and a registry whose sends were all stored, such as a new
        registry (NothingSentPersisted), is valid. */
    constructor (db: ChatDbContext, signalR: GroupManager, context: CallerContext, platform: Platform)
      requires db.Valid() && BroadcastsPersisted(signalR.outbox, db.messages)
      ensures Valid()
      ensures this.db == db && this.signalR == signalR && this.context == context && this.platform == platform
    {
      this.db, this.signalR, this.context, this.platform := db, signalR, context, platform;
    }

    /**
     * JoinRoom: a room id that does not parse throws "Invalid Room" and an unidentifiable caller
     * throws, both before any change. A caller who is not yet a member joins through
     * RoomService.JoinAsync (which throws for a missing room); then the connection is added to
     * the group named by the raw `roomId` string and the group is told "<name> joined <roomId>".
     */
    method JoinRoom(roomId: string, transport: Transport) returns (r: Outcome<Exception>)
      requires Valid()
      modifies db, signalR
      ensures Valid()
      ensures db.users == old(db.users) && db.rooms == old(db.rooms) && db.messages == old(db.messages)
      ensures platform.parseGuid(roomId).None? ==> r == Fail(HubException("Invalid Room")) && Untouched()
      ensures platform.parseGuid(roomId).Some? && CurrentUserId(context.claims, platform).Err? ==>
        r == Fail(CurrentUserId(context.claims, platform).error) && Untouched()
      ensures platform.parseGuid(roomId).Some? && CurrentUserId(context.claims, platform).Ok? ==>
        var member := RoomMember(platform.parseGuid(roomId).value, CurrentUserId(context.claims, platform).value);
        && (db.members == old(db.members) || db.members == old(db.members) + [member])
        && (member in old(db.members) ==> db.members == old(db.members))
        && (member !in old(db.members) && RoomRepository.GetById(db.rooms, member.roomId).None? ==>
              r == Fail(KeyNotFound("Room not Found")) && Untouched())
        && (r.Pass? <==>
              (member in old(db.members) || (RoomRepository.GetById(db.rooms, member.roomId).Some? && HasUser(db.users, member.userId)))
              && transport.groupFault.None? && transport.sendFault.None?)
        && (r.Pass? ==> member in db.members)
        && (member !in old(db.members) && RoomRepository.GetById(db.rooms, member.roomId).Some? && !HasUser(db.users, member.userId) ==>
              r == Fail(DbUpdate) && Untouched())
        && (member !in old(db.members) && RoomRepository.GetById(db.rooms, member.roomId).Some? && HasUser(db.users, member.userId) ==>
              db.members == old(db.members) + [member])
        && (member in old(db.members) || (RoomRepository.GetById(db.rooms, member.roomId).Some? && HasUser(db.users, member.userId)) ==>
              && (transport.groupFault.Some? ==> r == Fail(transport.groupFault.value) && signalR.groups == old(signalR.groups))
              && (transport.groupFault.None? ==> signalR.groups == Joined(old(signalR.groups), roomId, context.connectionId))
              && (transport.groupFault.None? && transport.sendFault.Some? ==> r == Fail(transport.sendFault.value)))
      ensures r.Pass? ==>
        && signalR.groups == Joined(old(signalR.groups), roomId, context.connectionId)
        && signalR.outbox == old(signalR.outbox) +
             [Envelope(Group(roomId), Members(old(signalR.groups), roomId) + {context.connectionId},
                       SystemMessage(IdentityName(context.claims) + " joined " + roomId))]
      ensures r.Fail? ==> signalR.outbox == old(signalR.outbox)
    {
      var parsed := platform.parseGuid(roomId);
      if parsed.None? {
        return Fail(HubException("Invalid Room"));
      }
      var caller := CurrentUserId(context.claims, platform);
      if caller.Err? {
        return Fail(caller.error);
      }
      var rid, uid := parsed.value, caller.value;
      var isMember := RoomService.IsMember(db.members, rid, uid);
      if !isMember {
        var joined := RoomService.Join(db, rid, uid);
        if joined.Fail? {
          return joined;
        }
      }
      var added := signalR.AddToGroup(context.connectionId, roomId, transport.groupFault);
      if added.Fail? {
        return added;
      }
      var notice := SystemMessage(IdentityName(context.claims) + " joined " + roomId);
      NoticePersisted(signalR.outbox, db.messages, Envelope(Group(roomId), Members(signalR.groups, roomId), notice));
      r := signalR.SendToGroup(roomId, notice, transport.sendFault);
    }

    /**
     * LeaveRoom: the same id and caller checks, then the connection leaves the group and the
     * group is told "<name> left <roomId>". The membership table is not touched. A
     * TaskCanceledException from either step is swallowed; any other exception is rethrown.
     */
    method LeaveRoom(roomId: string, transport: Transport) returns (r: Outcome<Exception>)
      requires Valid()
      modifies signalR
      ensures Valid()
      ensures unchanged(db)
      ensures platform.parseGuid(roomId).None? ==> r == Fail(HubException("Invalid RoomId")) && signalR.groups == old(signalR.groups) && signalR.outbox == old(signalR.outbox)
      ensures platform.parseGuid(roomId).Some? && CurrentUserId(context.claims, platform).Err? ==>
        r == Fail(CurrentUserId(context.claims, platform).error) && signalR.groups == old(signalR.groups) && signalR.outbox == old(signalR.outbox)
      ensures platform.parseGuid(roomId).Some? && CurrentUserId(context.claims, platform).Ok? ==>
        && (transport.groupFault.Some? ==>
              signalR.groups == old(signalR.groups) && signalR.outbox == old(signalR.outbox) && r == if transport.groupFault.value == TaskCanceled then Pass else Fail(transport.groupFault.value))
        && (transport.groupFault.None? ==> signalR.groups == Left(old(signalR.groups), roomId, context.connectionId))
        && (transport.groupFault.None? && transport.sendFault.Some? ==>
              signalR.outbox == old(signalR.outbox) &&
              r == if transport.sendFault.value == TaskCanceled then Pass else Fail(transport.sendFault.value))
        && (transport.groupFault.None? && transport.sendFault.None? ==>
              r == Pass &&
              signalR.outbox == old(signalR.outbox) +
                [Envelope(Group(roomId), Members(old(signalR.groups), roomId) - {context.connectionId},
                          SystemMessage(IdentityName(context.claims) + " left " + roomId))])
      ensures r.Fail? ==> r.error != TaskCanceled
    {
      var parsed := platform.parseGuid(roomId);
      if parsed.None? {
        return Fail(HubException("Invalid RoomId"));
      }
      var caller := CurrentUserId(context.claims, platform);
      if caller.Err? {
        return Fail(caller.error);
      }
      var outcome := signalR.RemoveFromGroup(context.connectionId, roomId, transport.groupFault);
      if outcome.Pass? {
        var notice := SystemMessage(IdentityName(context.claims) + " left " + roomId);
        NoticePersisted(signalR.outbox, db.messages, Envelope(Group(roomId), Members(signalR.groups, roomId), notice));
        outcome := signalR.SendToGroup(roomId, notice, transport.sendFault);
      }
      if outcome.Fail? && outcome.error == TaskCanceled {
        r := Pass;
      } else {
        r := outcome;
      }
    }

    /**
     * SendMessage: the same id and caller checks; a caller who is not a member of the parsed room
     * throws "Not a room member" with nothing changed. Otherwise ChatService stores the message
     * under the raw `roomId` and the caller's id as a string, and only then is the DTO of the
     * message as built broadcast to the group: the row kept may be cut of trailing spaces and keeps
     * only whole microseconds, the broadcast is not. A value a column refuses throws before any
     * broadcast; a failed broadcast throws with the message already stored.
     */
    method SendMessage(roomId: string, content: string, now: Timestamp, transport: Transport) returns (r: Outcome<Exception>)
      requires Valid()
      modifies db, signalR
      ensures Valid()
      ensures db.users == old(db.users) && db.rooms == old(db.rooms) && db.members == old(db.members)
      ensures signalR.groups == old(signalR.groups)
      ensures platform.parseGuid(roomId).None? ==> r == Fail(HubException("Invalid RoomId")) && Untouched()
      ensures platform.parseGuid(roomId).Some? && CurrentUserId(context.claims, platform).Err? ==>
        r == Fail(CurrentUserId(context.claims, platform).error) && Untouched()
      ensures platform.parseGuid(roomId).Some? && CurrentUserId(context.claims, platform).Ok? ==>
        var uid := CurrentUserId(context.claims, platform).value;
        var userId := platform.formatGuid(uid);
        && (RoomMember(platform.parseGuid(roomId).value, uid) !in db.members ==>
              r == Fail(HubException("Not a room member")) && Untouched())
        && (RoomMember(platform.parseGuid(roomId).value, uid) in db.members && !MessageColumnsAccept(roomId, userId, content) ==>
              r == Fail(DbUpdate) && Untouched())
        && (RoomMember(platform.parseGuid(roomId).value, uid) in db.members && MessageColumnsAccept(roomId, userId, content) ==>
              exists id :: id !in ChatService.MessageIds(old(db.messages)) &&
                db.messages == old(db.messages) + [StoredMessage(ChatMessage(id, roomId, userId, content, now)).value] &&
                (transport.sendFault.None? ==>
                   r == Pass &&
                   signalR.outbox == old(signalR.outbox) +
                     [Envelope(Group(roomId), Members(signalR.groups, roomId), ReceiveMessage(ChatMessageDto(id, roomId, userId, content, now)))]) &&
                (transport.sendFault.Some? ==> r == Fail(transport.sendFault.value) && signalR.outbox == old(signalR.outbox)))
    {
      var parsed := platform.parseGuid(roomId);
      if parsed.None? {
        return Fail(HubException("Invalid RoomId"));
      }
      var caller := CurrentUserId(context.claims, platform);
      if caller.Err? {
        return Fail(caller.error);
      }
      var rid, uid := parsed.value, caller.value;
      var isMember := RoomService.IsMember(db.members, rid, uid);
      if !isMember {
        return Fail(HubException("Not a room member"));
      }
      var dto := ChatService.SendMessage(db, roomId, platform.formatGuid(uid), content, now);
      if dto.Err? {
        return Fail(dto.error);
      }
      ghost var stored := StoredMessage(ToMessage(dto.value)).value;
      LogGrowthPersisted(signalR.outbox, old(db.messages), stored);
      BroadcastPersisted(signalR.outbox, old(db.messages), dto.value, Envelope(Group(roomId), Members(signalR.groups, roomId), ReceiveMessage(dto.value)));
      r := signalR.SendToGroup(roomId, ReceiveMessage(dto.value), transport.sendFault);
    }

    /**
     * GetHistory: no id check and no membership check; the room's history (ChatService) is sent
     * to the calling connection only. A history query the database refuses (a negative count)
     * throws before anything is sent. Nothing else changes.
     */
    method GetHistory(roomId: string, count: int := 50, transport: Transport) returns (r: Outcome<Exception>)
      requires Valid()
      modifies signalR
      ensures Valid()
      ensures unchanged(db) && signalR.groups == old(signalR.groups)
      ensures ChatService.GetHistory(db.messages, roomId, count).Err? ==>
        r == Fail(ChatService.GetHistory(db.messages, roomId, count).error) && signalR.outbox == old(signalR.outbox)
      ensures ChatService.GetHistory(db.messages, roomId, count).Ok? && transport.sendFault.None? ==>
        r == Pass &&
        signalR.outbox == old(signalR.outbox) +
          [Envelope(Caller(context.connectionId), {context.connectionId}, MessageHistory(ChatService.GetHistory(db.messages, roomId, count).value))]
      ensures ChatService.GetHistory(db.messages, roomId, count).Ok? && transport.sendFault.Some? ==>
        r == Fail(transport.sendFault.value) && signalR.outbox == old(signalR.outbox)
    {
      var history := ChatService.GetHistory(db.messages, roomId, count);
      if history.Err? {
        return Fail(history.error);
      }
      NoticePersisted(signalR.outbox, db.messages, Envelope(Caller(context.connectionId), {context.connectionId}, MessageHistory(history.value)));
      r := signalR.SendToCaller(context.connectionId, MessageHistory(history.value), transport.sendFault);
    }
  }
}
