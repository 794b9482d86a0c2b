# Nocturnal message ledger — a Dafny model

This project models the message lifecycle of the Nocturnal chat backend (`backend/server.js`).
That file holds four Socket.IO handlers and one REST route. Together they create, edit,
delete for everyone and list private messages between two users, who are grouped into
`user_<id>` rooms.

The model has four modules:

- `Messages` (messages.dfy) — the `messages` row with every column the history route selects,
  the INSERT defaults, the row written by an edit (`Edited`), the tombstone written by a delete
  for everyone (`Tombstone`), and the `SELECT * ... WHERE id = ? AND sender_id = ?` ownership
  lookup (`Owned`). `WellFormed` is the table invariant: each row sits under its own id, ids
  lie below the AUTOINCREMENT counter, status is always `sent`, the edited and deleted flags
  agree with their timestamps, and a deleted row has type `deleted`.
- `Histories` (histories.dfy) — the history query as a pure function: scan the table in id
  order, keep the rows sent between the two users in either direction, sort by timestamp.
  The lemmas show the result is strictly ordered and holds exactly the matching rows, and
  that it is the only sequence with both properties. They also show it is the same for
  (a, b) and (b, a), and how it changes after an insert and after an in-place rewrite.
- `Server` (server.dfy) — class `ChatServer`. Its fields are the table (`messages`), the
  AUTOINCREMENT counter (`nextId`), the rooms (`rooms`: user id to socket handles) and every
  emitted event (`outbox`). An event records its target (a room or the acting socket), the
  sockets it reached, the event name and the payload. There is one method per handler.
  Each method's `ensures` gives the complete new state and the exact events appended.
- `Scenarios` (scenarios.dfy) — three runs asserted statically: send, edit, delete, then
  fetch the history; an edit by someone who is not the sender; an edit after a delete.

Modelling choices:

- User ids, message ids and times are integers. Timestamps are only compared, so an integer
  stands for an ISO-8601 string.
- Edit and delete read the clock twice: once for the value they store and once for the payload
  they emit (backend/server.js:118 and 125, 151 and 162). `private_message` does so only when
  no timestamp is given (backend/server.js:82 and 91). Both readings are parameters. The
  contracts show the stored and announced values agree when the readings do.
- A failing database statement is a boolean parameter that sends the handler to its catch
  branch. Edit and delete issue two statements (SELECT, then UPDATE), so each gets two flags.
  The error text depends on which one fails: an unauthorized request whose SELECT fails gets
  `Failed to edit message`, not `Message not found or unauthorized`.
- `backend/server.js:12` calls `getDb()` while `backend/database.js` is still opening the
  database asynchronously, and `getDb()` returns the variable that open has not yet assigned
  (backend/database.js:6-12, 42). As written, every statement therefore fails. The failure
  flags set to true describe that configuration; backend/database.js itself is not part of
  this model.
- The model breaks timestamp ties in the history by id. SQL leaves the order of equal
  timestamps to the engine.
- A missing `type` becomes `text` and a missing (falsy) `timestamp` becomes the clock
  reading: the `Option` parameters of `PrivateMessage`.

Behaviour a reader might expect that the code does not have:

- Deletion is not terminal. The edit handler never looks at the deleted flag
  (backend/server.js:111). An edit after a delete succeeds, writes the new content and
  sets edited, while the row keeps `deleted = true` and type `deleted`.
- No handler advances `status` past `sent`.
- A wrong sender and an unknown id give the same error. The ownership check is a SELECT
  followed by a separate UPDATE by id, not one conditional update.
- The delete notice carries `content: null`, but the stored row (and so the history) holds
  `content = ''`.
- A repeated delete by the owner succeeds again and rewrites `deleted_at`. Apart from that
  field it leaves the row as it was.

## Model

| member | source | states |
|---|---|---|
| `Messages.KindOrDefault` | backend/server.js:76 | a missing `type` becomes `text`; a supplied one is kept as it is |
| `Messages.StampOr` | backend/server.js:82-91 | a missing timestamp becomes the clock reading; a supplied one is kept, whatever the clock says |
| `Messages.NewRecord` | backend/server.js:80-95 | a freshly inserted row takes the column defaults: status `sent`, not edited, not deleted, no edit or delete time; its type is `deleted` only if the client sent that type |
| `Messages.Edited` | backend/server.js:116-126 | an edit sets content, edited and edited_at; id, sender, receiver, timestamp, status, type and the deleted columns are preserved, and so is row consistency |
| `Messages.Tombstone` | backend/server.js:149-152 | a delete sets deleted, deleted_at, content `''` and type `deleted`; id, sender, receiver, timestamp, status and the edit columns are preserved, and so is row consistency |
| `Messages.TombstoneIdempotent` | backend/server.js:149-152 | deleting a tombstone again yields the same row as one delete, except for the later deleted_at |
| `Messages.EditAfterDelete` | backend/server.js:111-119 | editing a tombstone writes the new content and the edited flag while the row stays deleted with type `deleted` |
| `Messages.Owned` | backend/server.js:111 | the ownership SELECT finds a row exactly when some row has that id and that sender, and then returns that stored row |
| `Histories.Scan` | backend/server.js:54 | the WHERE clause keeps only rows of the table sent between the two users, in either direction |
| `Histories.ScanFacts` | backend/server.js:54 | the rows the WHERE clause keeps from the ids below n are exactly the stored rows sent between the two users, with strictly ascending ids |
| `Histories.History` | backend/server.js:49-56 | every row the query returns is a row of the table sent between the two users (completeness and order are in `HistoryCharacterized`) |
| `Histories.Sort` | backend/server.js:55 | the ORDER BY step returns a permutation (same multiset) of the matching rows |
| `Histories.SortOrdered` | backend/server.js:55 | sorting rows with distinct ids gives a strictly ascending sequence by (timestamp, id) |
| `Histories.HistoryCharacterized` | backend/server.js:49-56 | on a well-formed table the history of (a, b) is ascending by timestamp (ties by id, no row twice) and holds exactly the stored rows sent from a to b or from b to a |
| `Histories.HistoryDetermined` | backend/server.js:49-56 | any ordered sequence holding exactly those rows equals the history, whatever the insertion order |
| `Histories.OrderedUnique` | backend/server.js:55 | two strictly ordered sequences with the same entries are equal |
| `Histories.HistorySymmetric` | backend/server.js:54-56 | the history of (b, a) is the history of (a, b), so each is a permutation of the other |
| `Histories.HistoryUnaffected` | backend/server.js:54 | writing a row that is outside the (a, b) conversation before and after the write leaves the (a, b) history unchanged |
| `Histories.HistoryAfterInsert` | backend/server.js:80-83 | after an insert under the next id the table stays well-formed, and the history of each pair gains the new row exactly when that row is between the pair |
| `Histories.InsertElsewhere` | backend/server.js:80-83 | an insert whose row is not between a and b leaves the history of (a, b) exactly as it was, although the id counter advances |
| `Histories.HistoryAfterRewrite` | backend/server.js:116-152 | after an edit or delete rewrites a row in place, every history keeps its length and changes only at that row's position |
| `Server.DeleteNotice` | backend/server.js:154-163 | the delete notice carries content null, type `deleted`, deleted true, the row's receiver and its original timestamp, and the delete's own time |
| `Server.ChatServer.constructor` | backend/database.js:24-36 | the server starts on an empty, well-formed table with the id counter at 1, no rooms and no events |
| `Server.ChatServer.JoinUser` | backend/server.js:69-72 | the socket is added to the user's room and every other room is unchanged |
| `Server.ChatServer.PrivateMessage` | backend/server.js:75-103 | on success: one row is added under an id above all existing ids, the counter advances, old rows are unchanged, the table stays well-formed, and exactly `new_message` (to the receiver's room, reaching its sockets) and `message_sent` (to the acting socket) are emitted with the same record, which equals the stored row when a timestamp was given or the clock readings agree; on a failed insert the table and counter are unchanged and only `message_error` goes to the acting socket |
| `Server.ChatServer.EditMessage` | backend/server.js:106-134 | with no row of that id and sender, or when a statement fails, the table is unchanged and only `edit_error` (with the matching text) goes to the acting socket; otherwise only that row becomes `Edited` and `message_edited` with the updated record goes to the receiver's room and to the acting socket |
| `Server.ChatServer.DeleteForEveryone` | backend/server.js:137-172 | with no row of that id and sender, or when a statement fails, the table is unchanged and only `delete_error` goes to the acting socket; otherwise only that row becomes a `Tombstone` and `message_deleted` with the notice goes to the receiver's room and to the acting socket |
| `Server.ChatServer.GetMessages` | backend/server.js:44-63 | a failing query answers 500 `Failed to load messages`; otherwise the answer is the history, ascending by timestamp and holding exactly the stored rows of the two users' conversation |

## Left out

- Express setup, middleware, the `/` and `/uploads` routes, the uploads directory, the error middleware and `server.listen` (backend/server.js:14-41, 180-192): HTTP and file-system plumbing.
- backend/database.js: database opening and table creation. Its schema supplies the row fields and defaults. The schema has no `deleted` or `deleted_at` columns, so the model assumes they default to false and null.
- backend/backend/server.js: an earlier stateless relay with no storage, superseded by backend/server.js.
- Disconnect: the handler at backend/server.js:175-177 only logs. Removing a socket from its rooms is done inside Socket.IO and is not modelled, so rooms only grow.
- Interleaving: handlers run one at a time, so the window between each SELECT and its UPDATE (backend/server.js:111/116, 143/149) cannot be observed.
- Real clock values and ISO-8601 formatting; logging with `console`.
- Loosely typed inputs: a missing or `null` content, sender or receiver; a `null` type, which is stored as NULL rather than `text`; ids sent as strings. Every input is a well-typed value.
- Delivery itself: an emit counts as delivered to the sockets in the room at that moment, and emits never fail.
- Status advancement, scheduled messages and cancellation: no code in the core does any of these.
