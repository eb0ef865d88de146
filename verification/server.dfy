/** The Socket.IO handlers and the cleanup job (backend/server.js), as pure
    transitions from a state to the next state and the events sent. */
module Server {
  import opened Base
  import opened Text
  import opened Seqs
  import opened RoomModel
  import opened UserModel
  import opened MessageModel
  import opened Store
  import opened ChatRoutes

  /** Socket.IO's room membership: the rooms each connected socket has
      joined. Transport state, kept apart from the store. */
  type Subscriptions = map<SocketId, set<RoomId>>

  datatype State = State(store: Store, subs: Subscriptions)

  /** The events the server emits, by wire name:
      `room-messages`, `user-joined`, `user-left`, `new-message`, `error`. */
  datatype Event =
    | RoomHistory(messages: seq<Message>)
    | UserJoined(username: string, notice: string, timestamp: Time)
    | UserLeft(username: string, notice: string, timestamp: Time)
    | NewMessage(id: nat, roomId: RoomId, username: string, message: string, timestamp: Time)
    | Error(message: string)

  /** One event sent to a set of sockets. */
  datatype Emission = Emission(to: set<SocketId>, event: Event)

  datatype Reply = Reply(state: State, out: seq<Emission>)

  const JoinFailed := "Failed to join room"
  const SendFailed := "Failed to send message"

  /** Offline rows older than this (measured from `joinedAt`) are deleted. */
  const TtlMs := 60 * 60 * 1000

  // ---------------------------------------------------------------------
  // Subscriptions

  /** The sockets that joined `roomId`: whom `io.to(roomId)` reaches. The
      room Socket.IO gives each socket under its own id is not modelled. */
  function Members(subs: Subscriptions, roomId: RoomId): (r: set<SocketId>)
    ensures forall s :: s in r <==> s in subs && roomId in subs[s]
  {
    set s | s in subs && roomId in subs[s]
  }

  /** `socket.join(roomId)`. */
  function Subscribe(subs: Subscriptions, sid: SocketId, roomId: RoomId): (r: Subscriptions)
    ensures sid in r && roomId in r[sid]
    ensures sid in subs ==> r[sid] == subs[sid] + {roomId}
    ensures sid !in subs ==> r[sid] == {roomId}
    ensures forall s :: s != sid ==> (s in r <==> s in subs) && (s in subs ==> r[s] == subs[s])
  {
    subs[sid := (if sid in subs then subs[sid] else {}) + {roomId}]
  }

  /** After `socket.join(roomId)` the room has the joining socket added to
      the sockets it had, and no other. */
  lemma MembersAfterSubscribe(subs: Subscriptions, sid: SocketId, roomId: RoomId)
    ensures Members(Subscribe(subs, sid, roomId), roomId) == Members(subs, roomId) + {sid}
  {
  }

  /** Joining one room changes no other room's sockets. */
  lemma SubscribeOtherRooms(subs: Subscriptions, sid: SocketId, roomId: RoomId, other: RoomId)
    requires other != roomId
    ensures Members(Subscribe(subs, sid, roomId), other) == Members(subs, other)
  {
  }

  /** Once a socket has left all its rooms, each room has exactly its other
      sockets. */
  lemma MembersAfterLeave(subs: Subscriptions, sid: SocketId, roomId: RoomId)
    ensures Members(subs - {sid}, roomId) == Members(subs, roomId) - {sid}
  {
  }

  // ---------------------------------------------------------------------
  // join-room

  /** The row the join upsert writes for `(username, roomId)`. */
  function JoinRow(username: string, roomId: RoomId, sid: SocketId, now: Time): Membership {
    Membership(username, roomId, now, true, Some(sid))
  }

  function PairOf(username: string, roomId: RoomId): Membership -> bool {
    (m: Membership) => IsPair(m, username, roomId)
  }

  /** `User.findOneAndUpdate({ username, roomId }, row, { upsert: true })`:
      the first row of the pair is overwritten, or the row is inserted when
      the pair has none. No validator runs on this path. */
  function Upsert(users: seq<Membership>, username: string, roomId: RoomId,
                  sid: SocketId, now: Time): (r: seq<Membership>)
    ensures JoinRow(username, roomId, sid, now) in r
    ensures |r| == |users| || |r| == |users| + 1
    ensures |r| == |users| + 1 <==> forall j :: 0 <= j < |users| ==> !IsPair(users[j], username, roomId)
    // rows of other pairs keep their place and their contents
    ensures forall j :: 0 <= j < |users| && !IsPair(users[j], username, roomId) ==> r[j] == users[j]
    ensures forall j :: 0 <= j < |r| && !IsPair(r[j], username, roomId) ==> j < |users| && r[j] == users[j]
    // with one row per pair before, the pair now has exactly the new row
    ensures UniquePairs(users) ==> UniquePairs(r)
    ensures UniquePairs(users) ==>
              forall j :: 0 <= j < |r| && IsPair(r[j], username, roomId) ==> r[j] == JoinRow(username, roomId, sid, now)
  {
    var row := JoinRow(username, roomId, sid, now);
    match FirstIndex(users, PairOf(username, roomId))
    case Some(i) =>
      var r := users[i := row];
      assert r[i] == row;
      UpsertReplaceUnique(users, i, row);
      r
    case None =>
      var r := users + [row];
      assert r[|users|] == row;
      UpsertAppendUnique(users, row);
      r
  }

  /** The row the upsert overwrites is the first row of the pair, and every
      other row stays; with no row for the pair the new one goes last. */
  lemma UpsertReplacesFirst(users: seq<Membership>, username: string, roomId: RoomId,
                            sid: SocketId, now: Time)
    ensures var r := Upsert(users, username, roomId, sid, now);
            var found := FirstIndex(users, PairOf(username, roomId));
            && (found.Some? ==>
                  && IsPair(users[found.value], username, roomId)
                  && (forall j :: 0 <= j < found.value ==> !IsPair(users[j], username, roomId))
                  && |r| == |users|
                  && r[found.value] == JoinRow(username, roomId, sid, now)
                  && forall j :: 0 <= j < |users| && j != found.value ==> r[j] == users[j])
            && (found.None? ==> r == users + [JoinRow(username, roomId, sid, now)])
  {
  }

  lemma UpsertReplaceUnique(users: seq<Membership>, i: nat, row: Membership)
    requires i < |users| && SamePair(users[i], row)
    ensures UniquePairs(users) ==> UniquePairs(users[i := row])
    ensures UniquePairs(users) ==>
              forall j :: 0 <= j < |users| && j != i ==> !SamePair(users[j], row)
  {
    var r := users[i := row];
    if UniquePairs(users) {
      assert forall j :: 0 <= j < |r| ==> SamePair(r[j], row) == SamePair(users[j], users[i]);
      forall a, b | 0 <= a < |r| && 0 <= b < |r| && SamePair(r[a], r[b]) ensures a == b {
        assert a != i ==> r[a] == users[a];
        assert b != i ==> r[b] == users[b];
        assert SamePair(users[a], users[b]);
      }
    }
  }

  lemma UpsertAppendUnique(users: seq<Membership>, row: Membership)
    requires forall j :: 0 <= j < |users| ==> !SamePair(users[j], row)
    ensures UniquePairs(users) ==> UniquePairs(users + [row])
  {
    var r := users + [row];
    if UniquePairs(users) {
      forall a, b | 0 <= a < |r| && 0 <= b < |r| && SamePair(r[a], r[b]) ensures a == b {
        assert a < |users| ==> r[a] == users[a];
        assert b < |users| ==> r[b] == users[b];
      }
    }
  }

  /** The join handler proceeds past the room lookup. */
  predicate RoomReady(rooms: map<RoomId, Room>, roomId: RoomId, now: Time, fault: Fault) {
    GetOrCreateRoom(rooms, roomId, None, now, fault).Ok?
  }

  /** The join handler reaches its last emit without a failure. */
  predicate JoinSucceeds(st: State, roomId: RoomId, now: Time, fault: Fault) {
    RoomReady(st.store.rooms, roomId, now, fault) && fault != Some(UpsertUser) && fault != Some(FindMessages)
  }

  /** `join-room`: get or create the room, subscribe the socket, upsert the
      membership, replay recent history to the joiner, announce the join to
      the other sockets of the room. A failure emits `error` to the joiner;
      whatever was done before it stays done. */
  function Join(st: State, sid: SocketId, roomId: RoomId, username: string, now: Time, fault: Fault): (r: Reply)
    ensures r.state.store.messages == st.store.messages
    ensures RoomsEvolve(st.store.rooms, r.state.store.rooms)
    ensures r.state.store.rooms.Keys <= st.store.rooms.Keys + {Trim(roomId)}
    // an existing room is never rewritten
    ensures roomId in st.store.rooms ==> r.state.store.rooms == st.store.rooms
    // failures reach only the joiner
    ensures !JoinSucceeds(st, roomId, now, fault) ==> r.out == [Emission({sid}, Error(JoinFailed))]
    ensures !RoomReady(st.store.rooms, roomId, now, fault) ==> r.state == st
    // once the room is ready it is the one get-or-create returned, saved if it was missing
    ensures RoomReady(st.store.rooms, roomId, now, fault) ==>
              r.state.store.rooms == GetOrCreateRoom(st.store.rooms, roomId, None, now, fault).value.0
    ensures RoomReady(st.store.rooms, roomId, now, fault) && roomId !in st.store.rooms ==>
              && Trim(roomId) !in st.store.rooms
              && r.state.store.rooms == st.store.rooms[Trim(roomId) := RoomModel.Create(roomId, None, now).value]
    ensures RoomReady(st.store.rooms, roomId, now, fault) ==>
              r.state.subs == Subscribe(st.subs, sid, roomId)
    ensures RoomReady(st.store.rooms, roomId, now, fault) && fault != Some(UpsertUser) ==>
              r.state.store.users == Upsert(st.store.users, username, roomId, sid, now)
    ensures RoomReady(st.store.rooms, roomId, now, fault) && fault == Some(UpsertUser) ==>
              r.state.store.users == st.store.users
    // on success: history to the joiner first, then the notice to everyone else
    ensures JoinSucceeds(st, roomId, now, fault) ==>
              r.out == [ Emission({sid}, RoomHistory(RecentMessages(st.store.messages, roomId))),
                         Emission(Members(st.subs, roomId) - {sid},
                                  UserJoined(username, username + " joined the room", now)) ]
  {
    match GetOrCreateRoom(st.store.rooms, roomId, None, now, fault)
    case Err(_) => Reply(st, [Emission({sid}, Error(JoinFailed))])
    case Ok((rooms, _)) => Enter(st, rooms, sid, roomId, username, now, fault)
  }

  /** A join keeps the store invariant, and a successful join leaves the
      pair exactly one row: online, on this socket, joined now. */
  lemma JoinKeepsInvariant(st: State, sid: SocketId, roomId: RoomId, username: string, now: Time, fault: Fault)
    ensures Inv(st.store) ==> Inv(Join(st, sid, roomId, username, now, fault).state.store)
    ensures var users := Join(st, sid, roomId, username, now, fault).state.store.users;
            JoinSucceeds(st, roomId, now, fault) && UniquePairs(st.store.users) ==>
              && JoinRow(username, roomId, sid, now) in users
              && forall j :: 0 <= j < |users| && IsPair(users[j], username, roomId) ==>
                               users[j] == JoinRow(username, roomId, sid, now)
  {
  }

  /** The part of `join-room` after the room is ready: `rooms` is the room
      collection once get-or-create has run. */
  function Enter(st: State, rooms: map<RoomId, Room>, sid: SocketId, roomId: RoomId, username: string,
                 now: Time, fault: Fault): (r: Reply)
    ensures r.state.store.rooms == rooms && r.state.store.messages == st.store.messages
    ensures r.state.subs == Subscribe(st.subs, sid, roomId)
    ensures fault != Some(UpsertUser) ==> r.state.store.users == Upsert(st.store.users, username, roomId, sid, now)
    ensures fault == Some(UpsertUser) ==> r.state.store.users == st.store.users
    ensures fault == Some(UpsertUser) || fault == Some(FindMessages) ==>
              r.out == [Emission({sid}, Error(JoinFailed))]
    ensures fault != Some(UpsertUser) && fault != Some(FindMessages) ==>
              r.out == [ Emission({sid}, RoomHistory(RecentMessages(st.store.messages, roomId))),
                         Emission(Members(st.subs, roomId) - {sid},
                                  UserJoined(username, username + " joined the room", now)) ]
  {
    var subs := Subscribe(st.subs, sid, roomId);
    var created := State(st.store.(rooms := rooms), subs);
    if fault == Some(UpsertUser) then Reply(created, [Emission({sid}, Error(JoinFailed))])
    else
      var joined := created.(store := created.store.(users := Upsert(st.store.users, username, roomId, sid, now)));
      if fault == Some(FindMessages) then Reply(joined, [Emission({sid}, Error(JoinFailed))])
      else
        MembersAfterSubscribe(st.subs, sid, roomId);
        assert Members(subs, roomId) - {sid} == Members(st.subs, roomId) - {sid};
        Reply(joined, [ Emission({sid}, RoomHistory(RecentMessages(st.store.messages, roomId))),
                        Emission(Members(subs, roomId) - {sid},
                                 UserJoined(username, username + " joined the room", now)) ])
  }

  /** For a trimmed, non-blank username the join row is exactly the document
      the User schema would build from the same fields. */
  lemma JoinRowPassesSchema(username: string, roomId: RoomId, sid: SocketId, now: Time)
    requires IsTrimmed(username) && !AllSpace(username) && roomId != []
    ensures UserModel.Create(Some(username), Some(roomId), Some(now), Some(true), Some(sid), now)
              == Ok(JoinRow(username, roomId, sid, now))
  {
    TrimmedIsOwnTrim(username);
    TrimEmptyIff(username);
  }

  // ---------------------------------------------------------------------
  // send-message

  /** `send-message`: validate and save the message with the server time,
      then send it to every socket in the room, the sender included. The
      broadcast carries the fields as the client sent them; the store keeps
      them trimmed. */
  function Send(st: State, sid: SocketId, roomId: Option<string>, username: Option<string>,
                text: Option<string>, now: Time, fault: Fault): (r: Reply)
    ensures r.state.subs == st.subs
    ensures r.state.store.rooms == st.store.rooms && r.state.store.users == st.store.users
    ensures var made := MessageModel.Create(|st.store.messages|, roomId, username, text, Some(now), now);
            (made.Err? || fault == Some(SaveMessage)) ==>
              r.state == st && r.out == [Emission({sid}, Error(SendFailed))]
    ensures var made := MessageModel.Create(|st.store.messages|, roomId, username, text, Some(now), now);
            made.Ok? && fault != Some(SaveMessage) ==>
              && r.state.store.messages == st.store.messages + [made.value]
              && made.value.timestamp == now && made.value.id == |st.store.messages|
              && r.out == [Emission(Members(st.subs, roomId.value),
                                    NewMessage(made.value.id, roomId.value, username.value, text.value, now))]
    ensures MessagesNumbered(st.store.messages) ==> MessagesNumbered(r.state.store.messages)
  {
    match MessageModel.Create(|st.store.messages|, roomId, username, text, Some(now), now)
    case Err(_) => Reply(st, [Emission({sid}, Error(SendFailed))])
    case Ok(m) =>
      if fault == Some(SaveMessage) then Reply(st, [Emission({sid}, Error(SendFailed))])
      else
        Reply(st.(store := st.store.(messages := st.store.messages + [m])),
              [Emission(Members(st.subs, roomId.value),
                        NewMessage(m.id, roomId.value, username.value, text.value, m.timestamp))])
  }

  // ---------------------------------------------------------------------
  // disconnect

  function OnSocket(sid: SocketId): Membership -> bool {
    (m: Membership) => m.socketId == Some(sid)
  }

  /** `disconnect`: the socket has already left its Socket.IO rooms; the first
      row carrying its socket id is marked offline (its socket id and join
      time stay), and the rest of that room is told. A failed update is only
      logged. */
  function Disconnect(st: State, sid: SocketId, now: Time, fault: Fault): (r: Reply)
    ensures r.state.subs == st.subs - {sid}
    ensures r.state.store.rooms == st.store.rooms && r.state.store.messages == st.store.messages
    ensures |r.state.store.users| == |st.store.users|
    ensures fault == Some(UpdateUser) ==> r.state.store == st.store && r.out == []
    ensures (forall j :: 0 <= j < |st.store.users| ==> st.store.users[j].socketId != Some(sid)) ==>
              r.state.store == st.store && r.out == []
    ensures fault != Some(UpdateUser) && FirstIndex(st.store.users, OnSocket(sid)).Some? ==>
              var i := FirstIndex(st.store.users, OnSocket(sid)).value;
              var row := st.store.users[i];
              && row.socketId == Some(sid)
              && (forall j :: 0 <= j < i ==> st.store.users[j].socketId != Some(sid))
              // only isOnline changes, and only in that row
              && !r.state.store.users[i].isOnline
              && r.state.store.users[i].(isOnline := row.isOnline) == row
              && (forall j :: 0 <= j < |st.store.users| && j != i ==> r.state.store.users[j] == st.store.users[j])
              && r.out == [Emission(Members(st.subs, row.roomId) - {sid},
                                    UserLeft(row.username, row.username + " left the room", now))]
    ensures forall j :: 0 <= j < |st.store.users| ==> SamePair(r.state.store.users[j], st.store.users[j])
    ensures UniquePairs(st.store.users) ==> UniquePairs(r.state.store.users)
  {
    var subs := st.subs - {sid};
    if fault == Some(UpdateUser) then Reply(State(st.store, subs), [])
    else match FirstIndex(st.store.users, OnSocket(sid))
      case None => Reply(State(st.store, subs), [])
      case Some(i) =>
        var row := st.store.users[i];
        var users := st.store.users[i := row.(isOnline := false)];
        assert forall j :: 0 <= j < |users| ==> SamePair(users[j], st.store.users[j]);
        MembersAfterLeave(st.subs, sid, row.roomId);
        assert Members(subs, row.roomId) - {sid} == Members(st.subs, row.roomId) - {sid};
        Reply(State(st.store.(users := users), subs),
              [Emission(Members(subs, row.roomId) - {sid},
                        UserLeft(row.username, row.username + " left the room", now))])
  }

  // ---------------------------------------------------------------------
  // cleanup interval

  /** Offline and joined more than an hour before `now`. */
  predicate Stale(m: Membership, now: Time) {
    !m.isOnline && m.joinedAt < now - TtlMs
  }

  predicate HasOnline(users: seq<Membership>, roomId: RoomId) {
    exists j :: 0 <= j < |users| && OnlineIn(users[j], roomId)
  }

  /** The cleanup body: delete stale rows, then mark inactive every room
      without an online row. It never marks a room active and never deletes
      one. A failure stops the sweep where it happened. */
  function Sweep(st: State, now: Time, fault: Fault): (r: State)
    ensures r.subs == st.subs && r.store.messages == st.store.messages
    ensures fault == Some(DeleteStale) ==> r == st
    // exactly the stale rows go; every other row stays as it was
    ensures fault != Some(DeleteStale) ==>
              forall m :: multiset(r.store.users)[m] == if Stale(m, now) then 0 else multiset(st.store.users)[m]
    ensures fault != Some(DeleteStale) ==> forall m :: m in r.store.users <==> m in st.store.users && !Stale(m, now)
    ensures r.store.rooms.Keys == st.store.rooms.Keys
    ensures RoomsEvolve(st.store.rooms, r.store.rooms)
    ensures fault in {Some(DeleteStale), Some(DistinctRooms), Some(UpdateRooms)} ==> r.store.rooms == st.store.rooms
    ensures fault !in {Some(DeleteStale), Some(DistinctRooms), Some(UpdateRooms)} ==>
              forall k :: k in st.store.rooms ==>
                && (HasOnline(st.store.users, st.store.rooms[k].roomId) ==> r.store.rooms[k] == st.store.rooms[k])
                && (!HasOnline(st.store.users, st.store.rooms[k].roomId) ==>
                      r.store.rooms[k] == st.store.rooms[k].(isActive := false))
    ensures Inv(st.store) ==> Inv(r.store)
  {
    if fault == Some(DeleteStale) then st
    else
      var keep := (m: Membership) => !Stale(m, now);
      var users := Filter(st.store.users, keep);
      UniquePairsFilter(st.store.users, keep);
      var deleted := st.(store := st.store.(users := users));
      if fault == Some(DistinctRooms) || fault == Some(UpdateRooms) then deleted
      else
        var active := set m | m in users && m.isOnline :: m.roomId;
        OnlineSurvives(st.store.users, users, active, now);
        deleted.(store := deleted.store.(rooms := MarkInactive(st.store.rooms, active)))
  }

  /** `Room.updateMany({ roomId: { $nin: active } }, { isActive: false })`. */
  function MarkInactive(rooms: map<RoomId, Room>, active: set<RoomId>): (r: map<RoomId, Room>)
    ensures r.Keys == rooms.Keys
    ensures forall k :: k in rooms ==>
              r[k] == if rooms[k].roomId in active then rooms[k] else rooms[k].(isActive := false)
    ensures RoomsEvolve(rooms, r)
    ensures RoomsKeyed(rooms) ==> RoomsKeyed(r)
  {
    map k | k in rooms :: if rooms[k].roomId in active then rooms[k] else rooms[k].(isActive := false)
  }

  /** Online rows are never stale, so the rooms with an online row are the
      same before and after the deletion. */
  lemma OnlineSurvives(before: seq<Membership>, after: seq<Membership>, active: set<RoomId>, now: Time)
    requires forall m :: m in after <==> m in before && !Stale(m, now)
    requires active == set m | m in after && m.isOnline :: m.roomId
    ensures forall id :: id in active <==> HasOnline(before, id)
  {
    forall id ensures id in active <==> HasOnline(before, id) {
      if HasOnline(before, id) {
        var j :| 0 <= j < |before| && OnlineIn(before[j], id);
        assert before[j] in after;
      }
      if id in active {
        var m :| m in after && m.isOnline && m.roomId == id;
        var j :| 0 <= j < |before| && before[j] == m;
        assert OnlineIn(before[j], id);
      }
    }
  }
}
