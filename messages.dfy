/**
 * Rows of the `messages` table and the row updates the socket handlers write.
 *
 * User ids, message ids and clock readings are plain integers here: the id columns are
 * INTEGER, and ISO-8601 timestamps are only ever compared, so an integer stands for an
 * opaque, totally ordered time value.
 */
module Messages {

  datatype Option<T> = None | Some(value: T)

  /** The `sender_id` / `receiver_id` columns; also names the `user_<id>` room. */
  type UserId = int

  /** The `id` column: INTEGER PRIMARY KEY AUTOINCREMENT. */
  type MessageId = int

  /** A clock reading or a stored timestamp. */
  type Time = int

  /** The `status` column: `sent`, `delivered` or `seen`; only `sent` is ever written. */
  datatype Status = Sent | Delivered | Seen

  /** One row of `messages`, with every column the history query selects. */
  datatype Message = Message(
    id: MessageId,
    sender: UserId,
    receiver: UserId,
    content: string,
    kind: string,            // the `type` column
    status: Status,
    edited: bool,
    editedAt: Option<Time>,
    deleted: bool,
    deletedAt: Option<Time>,
    timestamp: Time)

  /** Default of the `type` column and of the handler's `type` argument. */
  const TEXT_KIND := "text"

  /** The `type` a delete for everyone writes. */
  const DELETED_KIND := "deleted"

  /** The columns no handler ever writes after the INSERT. */
  predicate SameOrigin(m: Message, r: Message) {
    && r.id == m.id
    && r.sender == m.sender
    && r.receiver == m.receiver
    && r.timestamp == m.timestamp
    && r.status == m.status
  }

  /** What every row written by the handlers satisfies. */
  predicate Consistent(m: Message) {
    && m.status == Sent
    && (m.edited <==> m.editedAt.Some?)
    && (m.deleted <==> m.deletedAt.Some?)
    && (m.deleted ==> m.kind == DELETED_KIND)
  }

  /**
   * The table as a whole: every row is stored under its own id, ids lie below the
   * AUTOINCREMENT counter (which starts at 1), and every row is consistent.
   */
  predicate WellFormed(ledger: map<MessageId, Message>, nextId: MessageId) {
    && 1 <= nextId
    && forall id :: id in ledger ==>
         && 1 <= id < nextId
         && ledger[id].id == id
         && Consistent(ledger[id])
  }

  /** m is the row the table holds under m's id. */
  predicate Stored(ledger: map<MessageId, Message>, m: Message) {
    m.id in ledger && ledger[m.id] == m
  }

  /** `type = 'text'` in the handler's destructuring: a missing type becomes `text`. */
  function KindOrDefault(kind: Option<string>): (k: string)
    ensures kind.None? ==> k == TEXT_KIND
    ensures kind.Some? ==> Some(k) == kind
  {
    if kind.Some? then kind.value else TEXT_KIND
  }

  /**
   * `timestamp || new Date().toISOString()`: a missing timestamp becomes the clock reading,
   * and a supplied one is kept whatever the clock says.
   */
  function StampOr(timestamp: Option<Time>, now: Time): (t: Time)
    ensures timestamp.None? ==> t == now
    ensures timestamp.Some? ==> t == timestamp.value
  {
    if timestamp.Some? then timestamp.value else now
  }

  /**
   * The row an INSERT of (sender, receiver, content, type, timestamp) creates: the other
   * columns take their defaults (status `sent`, not edited, not deleted, no edit or delete time).
   */
  function NewRecord(id: MessageId, sender: UserId, receiver: UserId, content: string,
                     kind: string, timestamp: Time): (m: Message)
    ensures Consistent(m) && !m.edited && !m.deleted
    ensures m.kind == DELETED_KIND ==> kind == DELETED_KIND
  {
    Message(id, sender, receiver, content, kind, Sent, false, None, false, None, timestamp)
  }

  /**
   * `UPDATE messages SET content = ?, edited = 1, edited_at = ?`: only content and the
   * edit columns change; type and the deleted columns are left as they were.
   */
  function Edited(m: Message, content: string, at: Time): (r: Message)
    ensures SameOrigin(m, r)
    ensures r.content == content && r.edited && r.editedAt == Some(at)
    ensures r.kind == m.kind && r.deleted == m.deleted && r.deletedAt == m.deletedAt
    ensures Consistent(m) ==> Consistent(r)
  {
    m.(content := content, edited := true, editedAt := Some(at))
  }

  /**
   * `UPDATE messages SET deleted = 1, deleted_at = ?, content = '', type = 'deleted'`:
   * the row becomes a tombstone that keeps its id, parties, timestamp and edit columns.
   */
  function Tombstone(m: Message, at: Time): (r: Message)
    ensures SameOrigin(m, r)
    ensures r.deleted && r.deletedAt == Some(at) && r.content == "" && r.kind == DELETED_KIND
    ensures r.edited == m.edited && r.editedAt == m.editedAt
    ensures Consistent(m) ==> Consistent(r)
  {
    m.(deleted := true, deletedAt := Some(at), content := "", kind := DELETED_KIND)
  }

  /** Deleting twice is deleting once, apart from the `deleted_at` of the last delete. */
  lemma TombstoneIdempotent(m: Message, first: Time, second: Time)
    ensures Tombstone(Tombstone(m, first), second) == Tombstone(m, second)
  {
  }

  /**
   * Deletion is not terminal: an edit of a tombstone writes the new content and sets the
   * edited flag, while the row stays marked deleted with type `deleted`.
   */
  lemma EditAfterDelete(m: Message, deletedAt: Time, content: string, editedAt: Time)
    ensures var r := Edited(Tombstone(m, deletedAt), content, editedAt);
            r.deleted && r.kind == DELETED_KIND && r.content == content && r.edited
  {
  }

  /**
   * `SELECT * FROM messages WHERE id = ? AND sender_id = ?` on a well-formed table:
   * the row that carries that id and that sender, if there is one.
   */
  function Owned(ledger: map<MessageId, Message>, id: MessageId, sender: UserId): (r: Option<Message>)
    requires forall k :: k in ledger ==> ledger[k].id == k
    ensures r.Some? <==> exists k :: k in ledger && ledger[k].id == id && ledger[k].sender == sender
    ensures r.Some? ==> Stored(ledger, r.value) && r.value.id == id && r.value.sender == sender
  {
    if id in ledger && ledger[id].sender == sender then Some(ledger[id]) else None
  }
}
