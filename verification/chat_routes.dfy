/** The read and room-creation paths of the HTTP API
    (backend/routes/chat.js), also used by the join handler. */
module ChatRoutes {
  import opened Base
  import opened Text
  import opened Seqs
  import opened RoomModel
  import opened UserModel
  import opened MessageModel
  import opened Store

  /** How many messages a history query returns at most. */
  const HistoryLimit := 50

  // ---------------------------------------------------------------------
  // Get-or-create a room

  /** `Room.findOne({ roomId })`, then `new Room({ roomId, name }).save()`
      when nothing was found. The model looks the room up by the key as given
      (the trim setter on query filters is not modelled); the new room is
      saved under its trimmed key, where the unique index can refuse it. */
  function GetOrCreateRoom(rooms: map<RoomId, Room>, roomId: RoomId, name: Option<string>,
                           now: Time, fault: Fault): (r: Result<(map<RoomId, Room>, Room), Failure>)
    ensures fault == Some(FindRoom) ==> r == Err(StoreFailure)
    // an existing room is returned as it is, whatever name was asked for
    ensures fault != Some(FindRoom) && roomId in rooms ==> r == Ok((rooms, rooms[roomId]))
    // a new room is created exactly when the key is usable and the save succeeds
    ensures fault != Some(FindRoom) && roomId !in rooms ==>
              (r.Ok? <==> !AllSpace(roomId) && Trim(roomId) !in rooms && fault != Some(SaveRoom))
    ensures fault != Some(FindRoom) && roomId !in rooms && AllSpace(roomId) ==> r == Err(Invalid({"roomId"}))
    ensures fault !in {Some(FindRoom), Some(SaveRoom)} && roomId !in rooms && !AllSpace(roomId) && Trim(roomId) in rooms ==>
              r == Err(DuplicateKey)
    ensures r.Ok? && roomId !in rooms ==>
              && r.value.1 == RoomModel.Create(roomId, name, now).value
              && r.value.0 == rooms[r.value.1.roomId := r.value.1]
              && r.value.1.roomId !in rooms
    ensures r.Ok? && RoomsKeyed(rooms) ==> r.value.1.roomId in r.value.0 && r.value.0[r.value.1.roomId] == r.value.1
    ensures r.Ok? ==> RoomsEvolve(rooms, r.value.0) && r.value.0.Keys <= rooms.Keys + {r.value.1.roomId}
    ensures r.Ok? && RoomsKeyed(rooms) ==> RoomsKeyed(r.value.0)
  {
    if fault == Some(FindRoom) then Err(StoreFailure)
    else if roomId in rooms then Ok((rooms, rooms[roomId]))
    else match RoomModel.Create(roomId, name, now)
      case Err(e) => Err(e)
      case Ok(room) =>
        if fault == Some(SaveRoom) then Err(StoreFailure)
        else if room.roomId in rooms then Err(DuplicateKey)
        else Ok((rooms[room.roomId := room], room))
  }

  /** Asking twice for a (trimmed) room id gives the same room both times:
      the second call finds what the first one created, keeps its
      `createdAt`, and the number of rooms grows by at most one. */
  lemma GetOrCreateIdempotent(rooms: map<RoomId, Room>, roomId: RoomId,
                              name1: Option<string>, name2: Option<string>, t1: Time, t2: Time)
    requires IsTrimmed(roomId) && roomId != []
    requires GetOrCreateRoom(rooms, roomId, name1, t1, None).Ok?
    ensures var (rooms1, room1) := GetOrCreateRoom(rooms, roomId, name1, t1, None).value;
            var second := GetOrCreateRoom(rooms1, roomId, name2, t2, None);
            && second == Ok((rooms1, room1))
            && |rooms1| <= |rooms| + 1
  {
    var (rooms1, room1) := GetOrCreateRoom(rooms, roomId, name1, t1, None).value;
    if roomId !in rooms {
      TrimmedIsOwnTrim(roomId);
      TrimOfUnique(roomId, Trim(roomId), room1.roomId);
      assert rooms1.Keys == rooms.Keys + {roomId};
    }
  }

  // ---------------------------------------------------------------------
  // Recent messages

  predicate SortedDesc(s: seq<Message>) {
    forall i, j :: 0 <= i < j < |s| ==> s[i].timestamp >= s[j].timestamp
  }

  predicate SortedAsc(s: seq<Message>) {
    forall i, j :: 0 <= i < j < |s| ==> s[i].timestamp <= s[j].timestamp
  }

  function InsertDesc(m: Message, s: seq<Message>): (r: seq<Message>)
    requires SortedDesc(s)
    ensures SortedDesc(r)
    ensures multiset(r) == multiset(s) + multiset{m}
  {
    if |s| == 0 then [m]
    else if m.timestamp >= s[0].timestamp then [m] + s
    else
      var rest := InsertDesc(m, s[1..]);
      assert s == [s[0]] + s[1..];
      HeadBounds(s[0], m, s[1..], rest);
      [s[0]] + rest
  }

  lemma HeadBounds(h: Message, m: Message, t: seq<Message>, rest: seq<Message>)
    requires m.timestamp < h.timestamp
    requires forall j :: 0 <= j < |t| ==> t[j].timestamp <= h.timestamp
    requires SortedDesc(rest) && multiset(rest) == multiset(t) + multiset{m}
    ensures SortedDesc([h] + rest)
  {
    forall i | 0 <= i < |rest| ensures rest[i].timestamp <= h.timestamp {
      assert rest[i] in multiset(rest);
      if rest[i] != m {
        assert rest[i] in multiset(t);
        var j :| 0 <= j < |t| && t[j] == rest[i];
      }
    }
    var s := [h] + rest;
    forall i, j | 0 <= i < j < |s| ensures s[i].timestamp >= s[j].timestamp {
      if i == 0 { assert s[j] == rest[j - 1]; } else { assert s[i] == rest[i - 1] && s[j] == rest[j - 1]; }
    }
  }

  /** `.sort({ timestamp: -1 })`: newest first. Messages with equal
      timestamps keep their insertion order. */
  function SortDesc(s: seq<Message>): (r: seq<Message>)
    ensures SortedDesc(r)
    ensures multiset(r) == multiset(s)
  {
    if |s| == 0 then []
    else
      assert s == [s[0]] + s[1..];
      InsertDesc(s[0], SortDesc(s[1..]))
  }

  /** `Message.find({ roomId })`. */
  function RoomMessages(messages: seq<Message>, roomId: RoomId): (r: seq<Message>)
    ensures forall m :: m in r <==> m in messages && m.roomId == roomId
    ensures forall m :: multiset(r)[m] == if m.roomId == roomId then multiset(messages)[m] else 0
  {
    Filter(messages, (m: Message) => m.roomId == roomId)
  }

  /** `Message.find({ roomId }).sort({ timestamp: -1 }).limit(50)` reversed:
      the newest `HistoryLimit` messages of the room, oldest first. */
  function RecentMessages(messages: seq<Message>, roomId: RoomId): (r: seq<Message>)
    ensures var n := |RoomMessages(messages, roomId)|;
            |r| == if n < HistoryLimit then n else HistoryLimit
    ensures forall m :: m in r ==> m in messages && m.roomId == roomId
    ensures SortedAsc(r)
    ensures multiset(r) <= multiset(RoomMessages(messages, roomId))
    // nothing left out is newer than the oldest message returned
    ensures |r| > 0 ==> forall m :: m in multiset(RoomMessages(messages, roomId)) - multiset(r) ==>
                                      m.timestamp <= r[0].timestamp
    ensures |RoomMessages(messages, roomId)| <= HistoryLimit ==>
              multiset(r) == multiset(RoomMessages(messages, roomId))
  {
    var all := RoomMessages(messages, roomId);
    var sorted := SortDesc(all);
    var k := if |sorted| < HistoryLimit then |sorted| else HistoryLimit;
    NewestFirstPrefix(all, sorted, k);
    Reverse(sorted[..k])
  }

  /** Reversing the first `k` of the newest-first order yields the `k`
      newest messages, oldest first. */
  lemma NewestFirstPrefix(all: seq<Message>, sorted: seq<Message>, k: nat)
    requires SortedDesc(sorted) && multiset(sorted) == multiset(all) && k <= |sorted|
    ensures var r := Reverse(sorted[..k]);
            && |r| == k
            && SortedAsc(r)
            && multiset(r) <= multiset(all)
            && (forall m :: m in r ==> m in all)
            && (k > 0 ==> forall m :: m in multiset(all) - multiset(r) ==> m.timestamp <= r[0].timestamp)
            && (k == |sorted| ==> multiset(r) == multiset(all))
  {
    var newest := sorted[..k];
    var r := Reverse(newest);
    ReverseMultiset(newest);
    ReverseAsc(newest);
    PrefixSplit(sorted, k);
    if k > 0 {
      assert r[0] == sorted[k - 1];
      SuffixBelow(sorted, k);
    }
    forall m | m in r ensures m in all {
      assert m in multiset(r) && multiset(r) <= multiset(all);
      assert m in multiset(all);
    }
  }

  lemma ReverseAsc(s: seq<Message>)
    requires SortedDesc(s)
    ensures SortedAsc(Reverse(s))
  {
    var r := Reverse(s);
    forall i, j | 0 <= i < j < |r| ensures r[i].timestamp <= r[j].timestamp {
      assert r[i] == s[|s| - 1 - i] && r[j] == s[|s| - 1 - j];
    }
  }

  lemma PrefixSplit(s: seq<Message>, k: nat)
    requires k <= |s|
    ensures SortedDesc(s) ==> SortedDesc(s[..k])
    ensures multiset(s) == multiset(s[..k]) + multiset(s[k..])
  {
    assert s == s[..k] + s[k..];
  }

  lemma SuffixBelow(s: seq<Message>, k: nat)
    requires SortedDesc(s) && 0 < k <= |s|
    ensures forall m :: m in multiset(s[k..]) ==> m.timestamp <= s[k - 1].timestamp
  {
    forall m | m in multiset(s[k..]) ensures m.timestamp <= s[k - 1].timestamp {
      var j :| 0 <= j < |s[k..]| && s[k..][j] == m;
      assert m == s[k + j];
    }
  }

  // ---------------------------------------------------------------------
  // Online users

  /** `.select('username joinedAt')`. */
  datatype UserView = UserView(username: string, joinedAt: Time)

  function View(u: Membership): UserView {
    UserView(u.username, u.joinedAt)
  }

  predicate OnlineIn(u: Membership, roomId: RoomId) {
    u.roomId == roomId && u.isOnline
  }

  /** `User.find({ roomId, isOnline: true }).select('username joinedAt')`:
      one view per online row of the room, in store order. */
  function OnlineUsers(users: seq<Membership>, roomId: RoomId): (r: seq<UserView>)
    ensures |r| <= |users|
    ensures forall i :: 0 <= i < |users| && OnlineIn(users[i], roomId) ==> View(users[i]) in r
    ensures forall v :: v in r ==> exists i :: 0 <= i < |users| && OnlineIn(users[i], roomId) && View(users[i]) == v
  {
    if |users| == 0 then []
    else
      var rest := OnlineUsers(users[1..], roomId);
      assert forall i :: 1 <= i < |users| ==> users[i] == users[1..][i - 1];
      if OnlineIn(users[0], roomId) then [View(users[0])] + rest else rest
  }

  /** No username appears twice in `r`. */
  predicate DistinctNames(r: seq<UserView>) {
    forall i, j :: 0 <= i < j < |r| ==> r[i].username != r[j].username
  }

  /** With one row per pair, nobody is listed twice among a room's online
      users. */
  lemma {:induction false} OnlineUsersDistinct(users: seq<Membership>, roomId: RoomId)
    requires UniquePairs(users)
    ensures DistinctNames(OnlineUsers(users, roomId))
  {
    if |users| > 0 {
      var x, t := users[0], users[1..];
      assert users == [x] + t;
      UniqueCons(x, t);
      OnlineUsersDistinct(t, roomId);
      var rest := OnlineUsers(t, roomId);
      if OnlineIn(x, roomId) {
        assert OnlineUsers(users, roomId) == [View(x)] + rest;
        forall k | 0 <= k < |rest| ensures rest[k].username != x.username {
          assert rest[k] in rest;
          var j :| 0 <= j < |t| && OnlineIn(t[j], roomId) && View(t[j]) == rest[k];
          assert t[j] in t;
        }
        ConsDistinct(View(x), rest);
      } else {
        assert OnlineUsers(users, roomId) == rest;
      }
    }
  }

  lemma ConsDistinct(v: UserView, rest: seq<UserView>)
    requires DistinctNames(rest)
    requires forall k :: 0 <= k < |rest| ==> rest[k].username != v.username
    ensures DistinctNames([v] + rest)
  {
    var r := [v] + rest;
    forall i, j | 0 <= i < j < |r| ensures r[i].username != r[j].username {
      assert r[j] == rest[j - 1];
      if i > 0 { assert r[i] == rest[i - 1]; }
    }
  }
}
