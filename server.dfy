/**
 * The Socket.IO handlers and the history route of the Nocturnal backend, as one object:
 * the `messages` table with its AUTOINCREMENT counter, the `user_<id>` rooms, and the
 * sequence of events emitted so far.
 *
 * Edit and delete read the clock twice, once for the value they write and once for the
 * payload they emit; private_message does so only when no timestamp is given. Both
 * readings are parameters. Each database statement may fail;
 * a failing statement is a boolean parameter that sends the handler to its catch branch.
 */
module Server {
  import opened Messages
  import opened Histories

  /** A connection handle (`socket.id`). */
  type SocketId = nat

  /** Where an emit goes: `io.to('user_<id>')` or the acting `socket` itself. */
  datatype Target = Room(user: UserId) | Origin(socket: SocketId)

  /** What an event carries. */
  datatype Payload =
      /** A message record: `fullMessage` on send, `updatedMessage` on edit. */
    | Record(message: Message)
      /** `deletedUpdate`: the delete notice, whose content is `null`. */
    | Notice(id: MessageId, sender: UserId, receiver: UserId, content: Option<string>,
             kind: string, timestamp: Time, deleted: bool, deletedAt: Time)
      /** `{ error: ... }`. */
    | Failure(error: string)

  /** One emit, with the sockets it reached at the moment it was made. */
  datatype Emission = Emission(target: Target, recipients: set<SocketId>, event: string, payload: Payload)

  /** The HTTP answer of the history route. */
  datatype Response = Ok(messages: seq<Message>) | Error(status: int, error: string)

  const HTTP_INTERNAL_ERROR := 500
  const SEND_FAILED := "Failed to send message"
  const EDIT_FAILED := "Failed to edit message"
  const DELETE_FAILED := "Failed to delete message"
  const NOT_FOUND_OR_UNAUTHORIZED := "Message not found or unauthorized"
  const LOAD_FAILED := "Failed to load messages"

  /** The sockets in user's room (none when nobody joined it). */
  function Members(rooms: map<UserId, set<SocketId>>, user: UserId): set<SocketId> {
    if user in rooms then rooms[user] else {}
  }

  /** An emit to a room reaches the sockets in it; an emit to the socket reaches that socket. */
  function Emit(rooms: map<UserId, set<SocketId>>, target: Target, event: string, payload: Payload): Emission {
    match target
    case Room(user) => Emission(target, Members(rooms, user), event, payload)
    case Origin(socket) => Emission(target, {socket}, event, payload)
  }

  /** `deletedUpdate` for a delete of row by the given sender, stamped `at`. */
  function DeleteNotice(row: Message, id: MessageId, sender: UserId, at: Time): (p: Payload)
    ensures p.Notice? && p.content.None? && p.kind == DELETED_KIND && p.deleted
    ensures p.receiver == row.receiver && p.timestamp == row.timestamp && p.deletedAt == at
    ensures row.id == id && row.sender == sender ==> p.id == row.id && p.sender == row.sender
  {
    Notice(id, sender, row.receiver, None, DELETED_KIND, row.timestamp, true, at)
  }

  class ChatServer {
    /** The `messages` table, keyed by id. */
    var messages: map<MessageId, Message>
    /** The id the next INSERT receives. */
    var nextId: MessageId
    /** The `user_<id>` rooms. */
    var rooms: map<UserId, set<SocketId>>
    /** Every event emitted so far, oldest first. */
    var outbox: seq<Emission>

    ghost predicate Valid()
      reads this
    {
      WellFormed(messages, nextId)
    }

    /** A server on an empty table: nobody has joined, nothing was emitted. */
    constructor ()
      ensures Valid()
      ensures messages == map[] && nextId == 1 && rooms == map[] && outbox == []
    {
      messages := map[];
      nextId := 1;
      rooms := map[];
      outbox := [];
    }

    /** `join_user`: the socket joins room `user_<user>`; no other room changes. */
    method JoinUser(socket: SocketId, user: UserId)
      modifies this`rooms
      ensures rooms == old(rooms)[user := Members(old(rooms), user) + {socket}]
      ensures socket in Members(rooms, user)
      ensures forall u :: u != user ==> Members(rooms, u) == Members(old(rooms), u)
    {
      rooms := rooms[user := Members(rooms, user) + {socket}];
    }

    /**
     * `private_message`: inserts one row under a fresh id and announces the full record to
     * the receiver's room (`new_message`) and to the acting socket (`message_sent`); a
     * failed INSERT changes nothing and answers `message_error` to the acting socket only.
     */
    method PrivateMessage(socket: SocketId, sender: UserId, receiver: UserId, content: string,
                          kind: Option<string>, timestamp: Option<Time>,
                          insertClock: Time, emitClock: Time, insertFails: bool)
      requires Valid()
      modifies this`messages, this`nextId, this`outbox
      ensures Valid()
      ensures insertFails ==>
        && messages == old(messages) && nextId == old(nextId)
        && outbox == old(outbox) + [Emission(Origin(socket), {socket}, "message_error", Failure(SEND_FAILED))]
      ensures !insertFails ==>
        var id := old(nextId);
        var stored := NewRecord(id, sender, receiver, content, KindOrDefault(kind), StampOr(timestamp, insertClock));
        var announced := NewRecord(id, sender, receiver, content, KindOrDefault(kind), StampOr(timestamp, emitClock));
        && (forall k :: k in old(messages) ==> k < id)
        && messages == old(messages)[id := stored]
        && nextId == id + 1
        && outbox == old(outbox) + [
             Emission(Room(receiver), Members(rooms, receiver), "new_message", Record(announced)),
             Emission(Origin(socket), {socket}, "message_sent", Record(announced))]
        && (timestamp.Some? || insertClock == emitClock ==> announced == stored)
    {
      if insertFails {
        outbox := outbox + [Emit(rooms, Origin(socket), "message_error", Failure(SEND_FAILED))];
        return;
      }
      var id := nextId;
      var type_ := KindOrDefault(kind);
      messages := messages[id := NewRecord(id, sender, receiver, content, type_, StampOr(timestamp, insertClock))];
      nextId := id + 1;
      var fullMessage := NewRecord(id, sender, receiver, content, type_, StampOr(timestamp, emitClock));
      outbox := outbox + [Emit(rooms, Room(receiver), "new_message", Record(fullMessage)),
                          Emit(rooms, Origin(socket), "message_sent", Record(fullMessage))];
    }

    /**
     * `edit_message`: when a row with that id and that sender exists, its content is replaced
     * and it is marked edited, and the updated record goes to the receiver's room and to the
     * acting socket as `message_edited`. Otherwise, or when a statement fails, nothing changes
     * and the acting socket alone gets `edit_error`. The deleted flag is not consulted.
     */
    method EditMessage(socket: SocketId, id: MessageId, sender: UserId, newContent: string,
                       updateClock: Time, emitClock: Time, selectFails: bool, updateFails: bool)
      requires Valid()
      modifies this`messages, this`outbox
      ensures Valid()
      ensures var owned := id in old(messages) && old(messages)[id].sender == sender;
        if selectFails || !owned || updateFails then
          && messages == old(messages)
          && outbox == old(outbox) + [Emission(Origin(socket), {socket}, "edit_error",
               Failure(if !selectFails && !owned then NOT_FOUND_OR_UNAUTHORIZED else EDIT_FAILED))]
        else
          var row := old(messages)[id];
          var updated := Edited(row, newContent, emitClock);
          && messages == old(messages)[id := Edited(row, newContent, updateClock)]
          && outbox == old(outbox) + [
               Emission(Room(row.receiver), Members(rooms, row.receiver), "message_edited", Record(updated)),
               Emission(Origin(socket), {socket}, "message_edited", Record(updated))]
          && (updateClock == emitClock ==> updated == messages[id])
    {
      if selectFails {
        outbox := outbox + [Emit(rooms, Origin(socket), "edit_error", Failure(EDIT_FAILED))];
        return;
      }
      var message := Owned(messages, id, sender);
      if message.None? {
        outbox := outbox + [Emit(rooms, Origin(socket), "edit_error", Failure(NOT_FOUND_OR_UNAUTHORIZED))];
        return;
      }
      if updateFails {
        outbox := outbox + [Emit(rooms, Origin(socket), "edit_error", Failure(EDIT_FAILED))];
        return;
      }
      var row := message.value;
      messages := messages[id := Edited(row, newContent, updateClock)];
      var updatedMessage := Edited(row, newContent, emitClock);
      outbox := outbox + [Emit(rooms, Room(row.receiver), "message_edited", Record(updatedMessage)),
                          Emit(rooms, Origin(socket), "message_edited", Record(updatedMessage))];
    }

    /**
     * `delete_for_everyone`: when a row with that id and that sender exists, it becomes a
     * tombstone and the delete notice goes to the receiver's room and to the acting socket as
     * `message_deleted`. Otherwise, or when a statement fails, nothing changes and the acting
     * socket alone gets `delete_error`.
     */
    method DeleteForEveryone(socket: SocketId, id: MessageId, sender: UserId,
                             updateClock: Time, emitClock: Time, selectFails: bool, updateFails: bool)
      requires Valid()
      modifies this`messages, this`outbox
      ensures Valid()
      ensures var owned := id in old(messages) && old(messages)[id].sender == sender;
        if selectFails || !owned || updateFails then
          && messages == old(messages)
          && outbox == old(outbox) + [Emission(Origin(socket), {socket}, "delete_error",
               Failure(if !selectFails && !owned then NOT_FOUND_OR_UNAUTHORIZED else DELETE_FAILED))]
        else
          var row := old(messages)[id];
          var notice := DeleteNotice(row, id, sender, emitClock);
          && messages == old(messages)[id := Tombstone(row, updateClock)]
          && outbox == old(outbox) + [
               Emission(Room(row.receiver), Members(rooms, row.receiver), "message_deleted", notice),
               Emission(Origin(socket), {socket}, "message_deleted", notice)]
          && (updateClock == emitClock ==> Some(notice.deletedAt) == messages[id].deletedAt)
    {
      if selectFails {
        outbox := outbox + [Emit(rooms, Origin(socket), "delete_error", Failure(DELETE_FAILED))];
        return;
      }
      var message := Owned(messages, id, sender);
      if message.None? {
        outbox := outbox + [Emit(rooms, Origin(socket), "delete_error", Failure(NOT_FOUND_OR_UNAUTHORIZED))];
        return;
      }
      if updateFails {
        outbox := outbox + [Emit(rooms, Origin(socket), "delete_error", Failure(DELETE_FAILED))];
        return;
      }
      var row := message.value;
      messages := messages[id := Tombstone(row, updateClock)];
      var deletedUpdate := DeleteNotice(row, id, sender, emitClock);
      outbox := outbox + [Emit(rooms, Room(row.receiver), "message_deleted", deletedUpdate),
                          Emit(rooms, Origin(socket), "message_deleted", deletedUpdate)];
    }

    /**
     * `GET /messages/:senderId/:receiverId`: the two users' thread, both directions, in
     * ascending timestamp order; a failing query answers 500 with no partial result.
     */
    method GetMessages(senderId: UserId, receiverId: UserId, queryFails: bool) returns (r: Response)
      ensures queryFails ==> r == Error(HTTP_INTERNAL_ERROR, LOAD_FAILED)
      ensures !queryFails ==> r == Ok(History(messages, nextId, senderId, receiverId))
      ensures !queryFails && Valid() ==>
        && Ordered(r.messages)
        && forall m :: m in r.messages <==> Stored(messages, m) && Between(m, senderId, receiverId)
    {
      if queryFails {
        return Error(HTTP_INTERNAL_ERROR, LOAD_FAILED);
      }
      if Valid() {
        HistoryCharacterized(messages, nextId, senderId, receiverId);
      }
      r := Ok(History(messages, nextId, senderId, receiverId));
    }
  }
}
