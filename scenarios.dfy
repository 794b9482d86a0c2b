/**
 * Three end-to-end runs of the handlers, checked statically: a send, edit and delete between
 * users 1 and 2 followed by a history fetch, an edit attempted by someone other than the
 * sender, and an edit of a deleted message.
 */
module Scenarios {
  import opened Messages
  import opened Histories
  import opened Server

  /**
   * User 1 (socket 10) sends "hi" at time 100 to user 2 (socket 20, joined), edits it to
   * "hi there", then deletes it for everyone; the history of (1, 2) is the single tombstone.
   */
  method SendEditDelete() {
    var server := new ChatServer();
    server.JoinUser(20, 2);
    assert Members(server.rooms, 2) == {20};

    server.PrivateMessage(10, 1, 2, "hi", None, Some(100), 5, 5, false);
    var sent := NewRecord(1, 1, 2, "hi", TEXT_KIND, 100);
    assert server.messages == map[1 := sent];
    assert server.outbox == [Emission(Room(2), {20}, "new_message", Record(sent)),
                             Emission(Origin(10), {10}, "message_sent", Record(sent))];
    assert sent.status == Sent && sent.id == 1;

    server.EditMessage(10, 1, 1, "hi there", 6, 6, false, false);
    var edited := Edited(sent, "hi there", 6);
    assert server.messages == map[1 := edited];
    assert server.outbox[2] == Emission(Room(2), {20}, "message_edited", Record(edited));
    assert server.outbox[3] == Emission(Origin(10), {10}, "message_edited", Record(edited));
    assert edited.content == "hi there" && edited.edited;

    server.DeleteForEveryone(10, 1, 1, 7, 7, false, false);
    var tomb := Tombstone(edited, 7);
    assert server.messages == map[1 := tomb];
    var notice := DeleteNotice(edited, 1, 1, 7);
    assert server.outbox[4] == Emission(Room(2), {20}, "message_deleted", notice);
    assert server.outbox[5] == Emission(Origin(10), {10}, "message_deleted", notice);
    assert notice.content == None && notice.kind == DELETED_KIND && |server.outbox| == 6;

    var response := server.GetMessages(1, 2, false);
    HistoryDetermined(server.messages, server.nextId, 1, 2, [tomb]);
    assert response == Ok([tomb]);
    assert tomb.content == "" && tomb.kind == DELETED_KIND && tomb.deleted;
  }

  /** User 3 tries to edit a message that user 4 sent: the row stays as it was. */
  method ForeignEdit() {
    var server := new ChatServer();
    server.PrivateMessage(40, 4, 5, "mine", None, Some(1), 2, 2, false);
    var before := server.messages;
    server.EditMessage(30, 1, 3, "yours now", 3, 3, false, false);
    assert server.messages == before;
    assert server.outbox[2] == Emission(Origin(30), {30}, "edit_error", Failure(NOT_FOUND_OR_UNAUTHORIZED));
    assert |server.outbox| == 3;
  }

  /** A deleted message can still be edited by its sender; it stays marked deleted. */
  method EditTombstone() {
    var server := new ChatServer();
    server.PrivateMessage(10, 1, 2, "oops", None, Some(1), 2, 2, false);
    server.DeleteForEveryone(10, 1, 1, 3, 3, false, false);
    server.EditMessage(10, 1, 1, "back again", 4, 4, false, false);
    var row := server.messages[1];
    assert row.content == "back again" && row.edited && row.deleted && row.kind == DELETED_KIND;
    assert server.outbox[4].event == "message_edited" && server.outbox[4].payload == Record(row);
  }
}
