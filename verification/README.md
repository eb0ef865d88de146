# Chat room presence and broadcast, modelled in Dafny

The chat server keeps three collections: Rooms (unique by `roomId`),
Membership rows (the `User` collection: who is in which room, online or not,
on which socket) and Messages. Socket.IO events drive it. `join-room`
gets or creates the room and upserts the membership. It then replays the
last 50 messages to the joiner and announces the join to everyone else in
the room. `send-message` validates and stores a message, then broadcasts
it to the whole room. `disconnect` marks one membership offline and tells
the room. A cleanup job runs every five minutes: it deletes old offline
rows and marks rooms without online members inactive. An HTTP API reads
recent messages and online users and gets or creates a room.

The model describes all of this as pure functions over an immutable state:

- `Store.Store` holds the three collections: a map of rooms by key and
  sequences of membership rows and messages.
- `Server.State` adds the Socket.IO subscriptions. This is a map from
  socket id to the set of rooms the socket has joined.
- Each handler returns the next state and the list of `Emission`s it sends.
  An emission is an event with the set of sockets it goes to.
- Clock values are integer milliseconds passed in as `now`.
- The two GET queries (`RecentMessages`, `OnlineUsers`) are functions of
  the store that return no new store. So they cannot change it.
- Store failures are a `fault` parameter naming the store operation that
  fails. The handler stops there. What it already did stays done, as in
  the source, which uses no transactions. The `catch` branch then runs:
  `error` goes to the sender, or the failure is only logged.

Modules follow the source files:

- `Text`: JavaScript `trim` and UTF-16 `length`.
- `RoomModel`, `UserModel`, `MessageModel`: the three Mongoose schemas.
- `Store`: the store and its invariants.
- `ChatRoutes`: `routes/chat.js`.
- `Server`: the socket handlers and the cleanup body.
- `Trace`: runs of many requests.
- `Base` and `Seqs` hold shared helpers.

Behaviour of the code that is easy to misread:

- `disconnect` sets only `isOnline: false`. It keeps `socketId` and
  `joinedAt`, and it updates only the first row carrying the socket id,
  even when that socket joined several rooms.
- Cleanup measures the one-hour age from `joinedAt`, not from when the row
  went offline.
- The `new-message` broadcast carries `roomId`, `username` and `message` as
  the client sent them. The stored record has `username` and `message`
  trimmed.
- Message text is checked after trimming. Its length is counted in UTF-16
  code units. So text of spaces only is rejected, and characters outside
  the Basic Multilingual Plane count twice.
- `send-message` does not require the sender to have joined the room, or
  the room to exist.
- Nothing ever sets `isActive` back to true.
- The membership index is not unique. One row per `(username, roomId)` is
  an invariant the handlers keep when requests are handled one at a time
  (`Store.UniquePairs`).

## Model

| member | source | states |
|---|---|---|
| Text.Trim | backend/models/Message.js:9-19 | The `trim` setter: the result has no leading or trailing JavaScript whitespace and is what remains of the input after cutting only whitespace from both ends |
| Text.TrimOfUnique | backend/models/Message.js:9-19 | Any two results that cut only surrounding whitespace from one string are equal, so `Trim` is the one such result |
| Text.TrimEmptyIff | backend/models/Message.js:14-19 | A string trims to the empty string exactly when it consists only of whitespace |
| Text.Utf16Length | backend/models/Message.js:17 | The length `maxlength` measures, in UTF-16 code units: between the number of characters and twice that, and a single character counts two exactly when it lies above U+FFFF |
| Text.Utf16LengthAppend | backend/models/Message.js:17 | The length of a concatenation is the sum of the lengths, so together with the one-character case the length of every string is determined |
| MessageModel.Utf16LengthOfBmp | backend/models/Message.js:17 | Text made only of characters inside the Basic Multilingual Plane has a UTF-16 length equal to its number of characters |
| Text.TrimIdempotent | backend/models/Message.js:9-19 | Trimming a trimmed value changes nothing |
| RoomModel.Create | backend/models/Room.js:3-21 | A new Room is rejected on path `roomId` exactly when the key is blank. Otherwise its key and name are the trimmed inputs, `createdAt` is the creation time and `isActive` is true |
| UserModel.Create | backend/models/User.js:3-23 | A User document fails on `username` exactly when it is absent or blank, and on `roomId` exactly when it is absent or empty. It stores the username trimmed. `joinedAt` defaults to now, `isOnline` to true, and `socketId` may be absent |
| MessageModel.Create | backend/models/Message.js:3-24 | A Message fails on exactly the paths whose value is absent or empty (after the `trim` setter where the path has one), or over 500 UTF-16 units for `message`. An accepted message is well formed with trimmed username and text, and `timestamp` defaults to now |
| MessageModel.OverlongRejected | backend/models/Message.js:14-19 | Text longer than 500 characters after trimming is rejected on path `message` |
| MessageModel.BlankRejected | backend/models/Message.js:14-19 | Text made only of whitespace is rejected on path `message` |
| MessageModel.ShortTextAccepted | backend/models/Message.js:14-19 | Trimmed, non-empty text of at most 500 characters inside the Basic Multilingual Plane is accepted and stored unchanged |
| Store.UniquePairsFilter | backend/server.js:167-170 | Deleting membership rows never creates a second row for a pair |
| ChatRoutes.GetOrCreateRoom | backend/routes/chat.js:41-45 | An existing room is returned unchanged and the requested name is ignored. Otherwise a room is created under its trimmed key, unless the key is blank, the unique index refuses it, or the store fails. No existing room changes |
| ChatRoutes.GetOrCreateIdempotent | backend/routes/chat.js:41-45 | Two calls with the same trimmed id return the same room, with the same `createdAt`, and add at most one room |
| ChatRoutes.SortDesc | backend/routes/chat.js:12 | Sorting by timestamp newest first gives a descending permutation of the input |
| ChatRoutes.RoomMessages | backend/routes/chat.js:11 | Returns exactly the messages with the requested `roomId`, each as often as it is stored |
| ChatRoutes.RecentMessages | backend/routes/chat.js:11-16 | Returns min(50, n) of the room's n messages in ascending timestamp order. No message of the room left out is newer than the first one returned, and all are returned when n ≤ 50 |
| ChatRoutes.NewestFirstPrefix | backend/routes/chat.js:12-16 | Reversing the first k of a newest-first order gives k of the messages, oldest first, with everything omitted no newer |
| ChatRoutes.OnlineUsers | backend/routes/chat.js:26-28 | A (username, joinedAt) view is listed exactly when some online row of the room has it |
| ChatRoutes.OnlineUsersDistinct | backend/routes/chat.js:26-28 | With one row per pair, no username appears twice among a room's online users |
| Server.Upsert | backend/server.js:82-92 | The online row for this socket and time is in the result, and the store grows by one row exactly when the pair had none. Rows of other pairs keep their place and contents. With one row per pair before, there is exactly one row for the pair after |
| Server.UpsertReplacesFirst | backend/server.js:82-92 | When the pair has a row, the first such row in store order is the one overwritten and every other row stays in place. When it has none, the new row is appended |
| Server.Members | backend/server.js:128 | A definition: the sockets subscribed to a room, which `io.to(roomId)` reaches (and, less the sender, `socket.to(roomId)` at lines 101 and 150). What it means after a join or a leave is stated by the three lemmas below |
| Server.Subscribe | backend/server.js:80 | A definition of `socket.join(roomId)`: the socket's room set gains the room and no other socket's set changes. Its effect on rooms is stated by `MembersAfterSubscribe` and `SubscribeOtherRooms` |
| Server.SubscribeOtherRooms | backend/server.js:80 | Joining one room leaves the sockets of every other room as they were |
| Server.MembersAfterSubscribe | backend/server.js:80 | After `socket.join(roomId)` the room's sockets are the ones it had plus the joining socket |
| Server.MembersAfterLeave | backend/server.js:142-150 | Once a socket has left its rooms, each room has exactly its other sockets, so `socket.to(roomId)` reaches the same sockets as before the socket left |
| Server.Join | backend/server.js:70-113 | An existing room is never rewritten. A missing room is saved under its trimmed key once the room step succeeds, and the rooms are exactly what get-or-create returned. Room failures leave the state unchanged. On success the joiner alone gets the recent history, then every other subscriber gets `user-joined`. Any failure sends only the joiner `error` |
| Server.Enter | backend/server.js:80-105 | The steps after the room is ready: the socket is subscribed. The row is upserted unless that write fails. Then the joiner gets the recent history and the other subscribers get `user-joined`, or, when the upsert or the history read fails, the joiner alone gets `error` |
| Server.JoinKeepsInvariant | backend/server.js:70-92 | A join keeps rooms filed under their key, one row per pair and numbered messages. With one row per pair before a successful join, the pair has exactly one row after it, online on the joining socket and joined now |
| Server.JoinRowPassesSchema | backend/server.js:82-92 | For a trimmed, non-blank username, the row the join writes is exactly the document the User schema builds from the same fields |
| Server.Send | backend/server.js:115-140 | A valid message is appended once with the server time and id, and broadcast with the sent fields to every subscriber of the room, sender included. An invalid message or a failed save leaves the state unchanged and sends `error` to the sender only |
| Server.Disconnect | backend/server.js:142-161 | The socket leaves every room. Only the first row with its socket id changes, and only `isOnline`, to false. The room's other sockets get `user-left`. With no matching row or a failed update nothing else changes and nothing is sent |
| Server.Sweep | backend/server.js:165-180 | Exactly the rows offline and joined over an hour ago are deleted, and every other row stays. Rooms without an online row become inactive, other rooms stay as they were, and no room is added, removed or made active |
| Server.MarkInactive | backend/server.js:173-176 | Every room whose key is outside the active set is marked inactive, and every other room is kept. No room is added or removed, rooms only evolve, and rooms stay filed under their key |
| Server.OnlineSurvives | backend/server.js:167-176 | The rooms with an online row are the same before and after the stale rows are deleted |
| Trace.RunKeepsInvariant | backend/server.js:70-180 | Any sequence of requests keeps rooms filed under their key, one row per pair and numbered messages. No room disappears, changes name or `createdAt`, or becomes active again |
| Trace.StepBroadcast | backend/server.js:119-134 | One request appends at most one message and announces exactly the messages it appended |
| Trace.RunBroadcast | backend/server.js:119-134 | Over any run, the `new-message` events announce the newly stored messages once each, in store order, each naming its stored room and time |
| Trace.DeliveryFollowsStoreOrder | backend/server.js:126-134 | Every socket receives `new-message` events in strictly increasing store order |
| Trace.RejoinKeepsOneRow | backend/server.js:82-92 | Joining twice as the same user in the same room leaves one row for the pair, online on the second socket, and adds no row |

## Left out

- Socket.IO transport, event encoding and the moment sockets connect. Subscriptions are a map from socket to rooms, and events are returned as a list.
- The room Socket.IO gives each socket under its own id. `Server.Members` counts only the rooms sockets joined, so a `roomId` equal to another socket's id does not reach that socket in the model.
- Express setup, CORS, `/health`, JSON bodies and status codes. A failed HTTP read would answer with status 500, and the read queries model only their result.
- The MongoDB connection, startup failure and `process.exit`. Store failures are the `fault` parameter. A failure part-way through one bulk operation is not modelled: the operation either runs or fails whole.
- Concurrency: concurrent upserts that can duplicate rows, cleanup racing a join, and ordering between sends in parallel. Requests are handled one at a time.
- The `setInterval` timer and the wall clock. Cleanup takes `now`, and one handler run reads the clock once.
- Which row `findOneAndUpdate` picks when several match: the model takes the first one in store order. How MongoDB orders messages with equal timestamps: the model keeps insertion order.
- Payload fields that are absent or not strings, where the model takes strings:
  - the `join-room` fields `roomId` and `username`, taken as given strings;
  - `send-message` fields that are not strings, which Mongoose would cast (absent fields are modelled);
  - `POST /room` with no `roomId` in the body (backend/routes/chat.js:39), taken as a given string.
- Server.Join: a simplification of the model. The model matches and writes the upsert's username as sent; Mongoose would apply the User schema's `trim` to it in both the filter and the update, so for " bob" the source updates bob's row where the model adds a row " bob". No validator runs on that path in either. The model agrees with the source for usernames that arrive trimmed.
- ChatRoutes.GetOrCreateIdempotent: stated only for trimmed room ids. The `trim` setter on query filters is not modelled: the model looks rooms up by the raw key, while Mongoose would trim the filter, so for an untrimmed id the model's lookup can miss a room the source would find.
- The `_id` ObjectId is modelled as the message's position in the store.
- Logging and console output.
