/** ChatRepository: the append-only message log and the recent-messages query. */
module ChatRepository {
  import opened Wrappers
  import opened Exceptions
  import opened Linq
  import opened Entities
  import opened Schema

  function RoomIs(roomId: string): ChatMessage -> bool {
    (m: ChatMessage) => m.roomId == roomId
  }

  /** `Messages.Where(m => m.RoomId == roomId)`: the room's messages, compared as raw strings. */
  function InRoom(messages: seq<ChatMessage>, roomId: string): seq<ChatMessage> {
    Where(messages, RoomIs(roomId))
  }

  /** AddMessageAsync: appends the row PostgreSQL keeps for the message (trailing spaces past a
      column's length cut, the timestamp to whole microseconds) when SaveChanges accepts it (fresh
      id, values the columns take) and throws DbUpdateException otherwise; earlier messages are
      never touched. */
  method AddMessage(db: ChatDbContext, message: ChatMessage) returns (r: Outcome<Exception>)
    requires db.Valid()
    modifies db
    ensures db.Valid()
    ensures r.Pass? <==> CanInsertMessage(old(db.messages), message)
    ensures r.Fail? ==> r.error == DbUpdate
    ensures db.messages == if r.Pass? then old(db.messages) + [StoredMessage(message).value] else old(db.messages)
    ensures db.users == old(db.users) && db.rooms == old(db.rooms) && db.members == old(db.members)
  {
    if CanInsertMessage(db.messages, message) {
      InsertMessageValid(db.messages, message);
      db.messages := db.messages + [StoredMessage(message).value];
      r := Pass;
    } else {
      r := Fail(DbUpdate);
    }
  }

  /** `OrderByDescending(m => m.TimeStamp).Take(count)` over the room's messages. */
  function Recent(messages: seq<ChatMessage>, roomId: string, count: int): seq<ChatMessage> {
    Take(OrderByDescending(InRoom(messages, roomId), TimeStampOf), count)
  }

  /** SQLSTATE 2201W, invalid_row_count_in_limit_clause: PostgreSQL refuses a negative LIMIT. */
  const InvalidRowCountInLimit := "2201W"

  /**
   * GetRecentMessagesAsync: the room's messages, newest first, at most `count` of them. The
   * query is translated to SQL; `Take(count)` becomes `LIMIT count`, so a negative count makes
   * the server reject the query (a zero count returns nothing). It reads the log and changes nothing.
   */
  function GetRecentMessages(messages: seq<ChatMessage>, roomId: string, count: int): (r: Result<seq<ChatMessage>, Exception>)
    ensures r.Err? <==> count < 0
    ensures r.Err? ==> r.error == Postgres(InvalidRowCountInLimit)
    ensures r.Ok? ==>
      && (forall m :: m in r.value ==> m in messages && m.roomId == roomId)
      && |r.value| == (if count < |InRoom(messages, roomId)| then count else |InRoom(messages, roomId)|)
      && SortedDesc(r.value, TimeStampOf)
      && multiset(r.value) <= multiset(InRoom(messages, roomId))
      && (forall x, y :: x in r.value && y in messages && y.roomId == roomId && y !in r.value ==> y.timeStamp <= x.timeStamp)
      && (count >= |InRoom(messages, roomId)| ==> multiset(r.value) == multiset(InRoom(messages, roomId)))
  {
    if count < 0 then Err(Postgres(InvalidRowCountInLimit))
    else
      RecentInRoom(messages, roomId, count);
      RecentIsNewest(messages, roomId, count);
      Ok(Recent(messages, roomId, count))
  }

  lemma RecentInRoom(messages: seq<ChatMessage>, roomId: string, count: int)
    ensures var r := Recent(messages, roomId, count);
      && SortedDesc(r, TimeStampOf)
      && multiset(r) <= multiset(InRoom(messages, roomId))
      && (forall m :: m in r ==> m in messages && m.roomId == roomId)
      && (count >= |InRoom(messages, roomId)| ==> multiset(r) == multiset(InRoom(messages, roomId)))
  {
    var inRoom := InRoom(messages, roomId);
    var sorted := OrderByDescending(inRoom, TimeStampOf);
    var r := Take(sorted, count);
    TakeOfSorted(sorted, TimeStampOf, count);
    forall m | m in r ensures m in inRoom {
      assert m in multiset(r);
    }
  }

  lemma RecentIsNewest(messages: seq<ChatMessage>, roomId: string, count: int)
    ensures var r := Recent(messages, roomId, count);
      forall x, y :: x in r && y in messages && y.roomId == roomId && y !in r ==> y.timeStamp <= x.timeStamp
  {
    var inRoom := InRoom(messages, roomId);
    var sorted := OrderByDescending(inRoom, TimeStampOf);
    TakeKeepsLargest(sorted, TimeStampOf, count);
    forall y | y in messages && y.roomId == roomId ensures y in sorted {
      assert y in inRoom;
      assert y in multiset(inRoom);
    }
  }
}
