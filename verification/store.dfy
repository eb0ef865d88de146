/** The three collections as one abstract store, and the invariants the
    handlers keep on it. */
module Store {
  import opened Base
  import opened Seqs
  import opened RoomModel
  import opened UserModel
  import opened MessageModel

  /** Rooms by their unique `roomId`, Membership rows and Messages in
      insertion order. */
  datatype Store = Store(rooms: map<RoomId, Room>, users: seq<Membership>, messages: seq<Message>)

  /** The unique index on `Room.roomId`: each room is filed under its own key. */
  predicate RoomsKeyed(rooms: map<RoomId, Room>) {
    forall k :: k in rooms ==> rooms[k].roomId == k && RoomModel.WellFormed(rooms[k])
  }

  predicate IsPair(m: Membership, username: string, roomId: RoomId) {
    m.username == username && m.roomId == roomId
  }

  predicate SamePair(a: Membership, b: Membership) {
    IsPair(a, b.username, b.roomId)
  }

  /** At most one Membership row per `(username, roomId)`. */
  predicate UniquePairs(users: seq<Membership>) {
    forall i, j :: 0 <= i < |users| && 0 <= j < |users| && SamePair(users[i], users[j]) ==> i == j
  }

  /** Message ids are their insertion positions, and every stored message
      passed the schema. */
  predicate MessagesNumbered(messages: seq<Message>) {
    forall i :: 0 <= i < |messages| ==> messages[i].id == i && MessageModel.WellFormed(messages[i])
  }

  predicate Inv(st: Store) {
    RoomsKeyed(st.rooms) && UniquePairs(st.users) && MessagesNumbered(st.messages)
  }

  lemma {:induction false} UniqueCons(x: Membership, t: seq<Membership>)
    ensures UniquePairs([x] + t) <==> UniquePairs(t) && forall y :: y in t ==> !SamePair(x, y)
  {
    var s := [x] + t;
    if UniquePairs(s) {
      forall i, j | 0 <= i < |t| && 0 <= j < |t| && SamePair(t[i], t[j]) ensures i == j {
        assert s[i + 1] == t[i] && s[j + 1] == t[j];
      }
      forall y | y in t ensures !SamePair(x, y) {
        var j :| 0 <= j < |t| && t[j] == y;
        assert s[j + 1] == y && s[0] == x;
      }
    }
    if UniquePairs(t) && forall y :: y in t ==> !SamePair(x, y) {
      assert forall k :: 0 < k < |s| ==> s[k] == t[k - 1] && s[k] in t;
      assert forall i, j :: 0 <= i < |s| && 0 <= j < |s| && SamePair(s[i], s[j]) ==> i == j;
    }
  }

  /** Deleting rows never creates a duplicate pair. */
  lemma {:induction false} UniquePairsFilter(users: seq<Membership>, p: Membership -> bool)
    ensures UniquePairs(users) ==> UniquePairs(Filter(users, p))
  {
    if |users| > 0 && UniquePairs(users) {
      var x, t := users[0], users[1..];
      assert users == [x] + t;
      UniqueCons(x, t);
      UniquePairsFilter(t, p);
      if p(x) {
        assert Filter(users, p) == [x] + Filter(t, p);
        UniqueCons(x, Filter(t, p));
      } else {
        assert Filter(users, p) == Filter(t, p);
      }
    }
  }

  /** Every field of a room except `isActive` is the same, and `isActive` was
      at most switched off: the only change the handlers make to an existing
      Room. */
  predicate RoomEvolves(a: Room, b: Room) {
    && b.roomId == a.roomId && b.name == a.name && b.createdAt == a.createdAt
    && (b.isActive ==> a.isActive)
  }

  /** No room disappears and every room only evolves. */
  predicate RoomsEvolve(before: map<RoomId, Room>, after: map<RoomId, Room>) {
    forall k :: k in before ==> k in after && RoomEvolves(before[k], after[k])
  }

  lemma RoomsEvolveTransitive(a: map<RoomId, Room>, b: map<RoomId, Room>, c: map<RoomId, Room>)
    requires RoomsEvolve(a, b) && RoomsEvolve(b, c)
    ensures RoomsEvolve(a, c)
  {
  }
}
