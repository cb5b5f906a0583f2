/** ChatService: building and storing a message, and the message history of a room. */
module ChatService {
  import opened Wrappers
  import opened Exceptions
  import opened Linq
  import opened Entities
  import opened Schema
  import ChatRepository

  function MessageIds(messages: seq<ChatMessage>): set<Guid> {
    set m | m in messages :: m.id
  }

  /**
   * SendMessageAsync: builds a message with a fresh id, the given room, user and content and the
   * current time `now`, appends the row PostgreSQL keeps for it to the log, and returns a DTO of
   * the message as built (uncut, with the full-precision time). When a column refuses a value the
   * exception propagates and nothing is stored.
   */
  method SendMessage(db: ChatDbContext, roomId: string, userId: string, content: string, now: Timestamp)
    returns (r: Result<ChatMessageDto, Exception>)
    requires db.Valid()
    modifies db
    ensures db.Valid()
    ensures db.users == old(db.users) && db.rooms == old(db.rooms) && db.members == old(db.members)
    ensures r.Ok? <==> MessageColumnsAccept(roomId, userId, content)
    ensures r.Ok? ==>
      && r.value.id !in MessageIds(old(db.messages))
      && r.value == ChatMessageDto(r.value.id, roomId, userId, content, now)
      && db.messages == old(db.messages) + [StoredMessage(ChatMessage(r.value.id, roomId, userId, content, now)).value]
    ensures r.Err? ==> r.error == DbUpdate && db.messages == old(db.messages)
  {
    var id := NewGuid(MessageIds(db.messages));
    var entity := ChatMessage(id, roomId, userId, content, now);
    assert CanInsertMessage(db.messages, entity) <==> MessageColumnsAccept(roomId, userId, content) by {
      assert forall m :: m in db.messages ==> m.id in MessageIds(db.messages);
    }
    var added := ChatRepository.AddMessage(db, entity);
    if added.Fail? {
      return Err(added.error);
    }
    r := Ok(ToDto(entity));
  }

  /**
   * GetHistoryAsync: the repository's recent messages, sorted again newest first and mapped to
   * DTOs. The re-sort is stable and its input is already sorted, so the result is the repository
   * list itself, mapped: at most `count` messages of the room, newest first, and the newest ones.
   * A query the database refuses (a negative count) propagates. It changes nothing.
   */
  function GetHistory(messages: seq<ChatMessage>, roomId: string, count: int := 50): (r: Result<seq<ChatMessageDto>, Exception>)
    ensures r.Err? <==> count < 0
    ensures r.Err? ==> ChatRepository.GetRecentMessages(messages, roomId, count) == Err(r.error)
    ensures r.Ok? ==>
      && r.value == Select(ChatRepository.GetRecentMessages(messages, roomId, count).value, ToDto)
      && |r.value| <= count
      && (forall d :: d in r.value ==> d.roomId == roomId && exists m :: m in messages && ToDto(m) == d)
      && SortedDesc(r.value, DtoTimeStamp)
  {
    match ChatRepository.GetRecentMessages(messages, roomId, count)
    case Err(e) => Err(e)
    case Ok(recent) =>
      OrderByDescendingOfSorted(recent, TimeStampOf);
      SelectKeepsOrder(recent);
      Ok(Select(OrderByDescending(recent, TimeStampOf), ToDto))
  }

  /** Mapping messages to DTOs keeps their timestamps, hence their newest-first order. */
  lemma SelectKeepsOrder(ms: seq<ChatMessage>)
    requires SortedDesc(ms, TimeStampOf)
    ensures SortedDesc(Select(ms, ToDto), DtoTimeStamp)
  {
    var ds := Select(ms, ToDto);
    assert forall i :: 0 <= i < |ds| ==> DtoTimeStamp(ds[i]) == TimeStampOf(ms[i]);
  }

  /** With a count covering the whole room, every message stored for the room is in its history. */
  lemma HistoryHoldsRoom(messages: seq<ChatMessage>, roomId: string, count: int, m: ChatMessage)
    requires m in messages && m.roomId == roomId
    requires count >= |ChatRepository.InRoom(messages, roomId)|
    ensures GetHistory(messages, roomId, count).Ok? && ToDto(m) in GetHistory(messages, roomId, count).value
  {
    var recent := ChatRepository.GetRecentMessages(messages, roomId, count).value;
    var inRoom := ChatRepository.InRoom(messages, roomId);
    assert m in inRoom;
    assert m in multiset(inRoom);
    assert m in recent;
  }
}
