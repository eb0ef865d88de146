/** Sequences of handler runs, processed one after another, and what holds
    across them. */
module Trace {
  import opened Base
  import opened Text
  import opened Seqs
  import opened MessageModel
  import opened Store
  import opened ChatRoutes
  import opened Server

  /** One inbound request: a socket event, the cleanup tick, or the
      `POST /room` route (the GET routes change nothing and are plain
      functions of the store). */
  datatype Command =
    | JoinRoom(sid: SocketId, roomId: RoomId, username: string, now: Time, fault: Fault)
    | SendMessage(sid: SocketId, sentRoomId: Option<string>, sentUsername: Option<string>,
                  sentText: Option<string>, now: Time, fault: Fault)
    | Disconnected(sid: SocketId, now: Time, fault: Fault)
    | Cleanup(now: Time, fault: Fault)
    | CreateRoom(roomId: RoomId, name: Option<string>, now: Time, fault: Fault)

  function Step(st: State, c: Command): Reply {
    match c
    case JoinRoom(sid, roomId, username, now, fault) => Join(st, sid, roomId, username, now, fault)
    case SendMessage(sid, roomId, username, text, now, fault) => Send(st, sid, roomId, username, text, now, fault)
    case Disconnected(sid, now, fault) => Disconnect(st, sid, now, fault)
    case Cleanup(now, fault) => Reply(Sweep(st, now, fault), [])
    case CreateRoom(roomId, name, now, fault) =>
      match GetOrCreateRoom(st.store.rooms, roomId, name, now, fault)
      case Err(_) => Reply(st, [])
      case Ok((rooms, _)) => Reply(st.(store := st.store.(rooms := rooms)), [])
  }

  /** The commands handled in order; the emissions are concatenated. */
  function Run(st: State, cs: seq<Command>): Reply
    decreases |cs|
  {
    if |cs| == 0 then Reply(st, [])
    else
      var first := Step(st, cs[0]);
      var rest := Run(first.state, cs[1..]);
      Reply(rest.state, first.out + rest.out)
  }

  // ---------------------------------------------------------------------
  // The store invariant and the life of a room

  lemma StepKeepsInvariant(st: State, c: Command)
    ensures Inv(st.store) ==> Inv(Step(st, c).state.store)
    ensures RoomsEvolve(st.store.rooms, Step(st, c).state.store.rooms)
  {
    if c.JoinRoom? {
      JoinKeepsInvariant(st, c.sid, c.roomId, c.username, c.now, c.fault);
    }
  }

  /** From a store where rooms are filed under their key, each pair has at
      most one membership row and messages are numbered, any sequence of
      requests leads to such a store again; and no room ever disappears,
      changes name or creation time, or is switched back to active. */
  lemma {:induction false} RunKeepsInvariant(st: State, cs: seq<Command>)
    ensures Inv(st.store) ==> Inv(Run(st, cs).state.store)
    ensures RoomsEvolve(st.store.rooms, Run(st, cs).state.store.rooms)
    decreases |cs|
  {
    if |cs| > 0 {
      var first := Step(st, cs[0]);
      StepKeepsInvariant(st, cs[0]);
      RunKeepsInvariant(first.state, cs[1..]);
      RoomsEvolveTransitive(st.store.rooms, first.state.store.rooms, Run(first.state, cs[1..]).state.store.rooms);
    }
  }

  // ---------------------------------------------------------------------
  // Broadcast order is persistence order

  function IdsOf(e: Emission): seq<nat> {
    if e.event.NewMessage? then [e.event.id] else []
  }

  /** The ids of all `new-message` events, in emission order. */
  function BroadcastIds(es: seq<Emission>): seq<nat> {
    if |es| == 0 then [] else IdsOf(es[0]) + BroadcastIds(es[1..])
  }

  /** The ids of the `new-message` events socket `c` receives, in order. */
  function Observed(es: seq<Emission>, c: SocketId): seq<nat> {
    if |es| == 0 then []
    else (if c in es[0].to then IdsOf(es[0]) else []) + Observed(es[1..], c)
  }

  lemma {:induction false} BroadcastIdsAppend(a: seq<Emission>, b: seq<Emission>)
    ensures BroadcastIds(a + b) == BroadcastIds(a) + BroadcastIds(b)
    decreases |a|
  {
    if |a| > 0 {
      assert (a + b)[0] == a[0];
      assert (a + b)[1..] == a[1..] + b;
      BroadcastIdsAppend(a[1..], b);
    } else {
      assert a + b == b;
    }
  }

  /** Each `new-message` event describes the stored message its id names:
      same room and time, and the sent fields trim to the stored ones. */
  ghost predicate Describes(es: seq<Emission>, messages: seq<Message>) {
    forall k :: 0 <= k < |es| && es[k].event.NewMessage? ==>
      var ev := es[k].event;
      && ev.id < |messages|
      && messages[ev.id].roomId == ev.roomId
      && messages[ev.id].timestamp == ev.timestamp
      && IsTrimOf(ev.username, messages[ev.id].username)
      && IsTrimOf(ev.message, messages[ev.id].text)
  }

  lemma DescribesGrow(es: seq<Emission>, messages: seq<Message>, more: seq<Message>)
    requires Describes(es, messages)
    ensures Describes(es, messages + more)
  {
    forall k | 0 <= k < |es| && es[k].event.NewMessage?
      ensures (messages + more)[es[k].event.id] == messages[es[k].event.id] {
    }
  }

  lemma DescribesAppend(a: seq<Emission>, b: seq<Emission>, messages: seq<Message>)
    requires Describes(a, messages) && Describes(b, messages)
    ensures Describes(a + b, messages)
  {
    forall k | 0 <= k < |a + b| ensures (a + b)[k] == if k < |a| then a[k] else b[k - |a|] {
    }
  }

  /** The message log grew from `before` to `after` by appending, and `out`
      announces exactly the appended messages, in order. */
  ghost predicate Grows(before: seq<Message>, after: seq<Message>, out: seq<Emission>) {
    && |before| <= |after|
    && after[..|before|] == before
    && BroadcastIds(out) == Range(|before|, |after|)
    && Describes(out, after)
  }

  /** What one request does to the message log: append at most one
      message, and announce exactly the messages it appended. */
  ghost predicate AppendsAndAnnounces(before: seq<Message>, r: Reply) {
    && Grows(before, r.state.store.messages, r.out)
    && |r.state.store.messages| <= |before| + 1
  }

  lemma GrowsCompose(a: seq<Message>, b: seq<Message>, c: seq<Message>, o1: seq<Emission>, o2: seq<Emission>)
    requires Grows(a, b, o1) && Grows(b, c, o2)
    ensures Grows(a, c, o1 + o2)
  {
    BroadcastIdsAppend(o1, o2);
    RangeAppend(|a|, |b|, |c|);
    assert c == b + c[|b|..] by { assert c[..|b|] == b; }
    DescribesGrow(o1, b, c[|b|..]);
    DescribesAppend(o1, o2, c);
    assert c[..|a|] == b[..|a|];
  }

  lemma SendBroadcast(st: State, sid: SocketId, roomId: Option<string>, username: Option<string>,
                      text: Option<string>, now: Time, fault: Fault)
    ensures AppendsAndAnnounces(st.store.messages, Send(st, sid, roomId, username, text, now, fault))
  {
    var r := Send(st, sid, roomId, username, text, now, fault);
    var n := |st.store.messages|;
    var made := MessageModel.Create(n, roomId, username, text, Some(now), now);
    if made.Ok? && fault != Some(SaveMessage) {
      assert r.state.store.messages[n] == made.value;
      assert r.state.store.messages[..n] == st.store.messages;
      assert BroadcastIds(r.out[1..]) == [];
      assert BroadcastIds(r.out) == [n];
    } else {
      assert BroadcastIds(r.out[1..]) == [];
    }
  }

  /** A join sends history, a join notice or an error: never a message. */
  lemma JoinAnnouncesNothing(st: State, sid: SocketId, roomId: RoomId, username: string, now: Time, fault: Fault)
    ensures BroadcastIds(Join(st, sid, roomId, username, now, fault).out) == []
  {
    var r := Join(st, sid, roomId, username, now, fault);
    if JoinSucceeds(st, roomId, now, fault) {
      assert !r.out[0].event.NewMessage? && !r.out[1].event.NewMessage?;
    }
    QuietIds(r.out);
  }

  lemma {:induction false} QuietIds(es: seq<Emission>)
    requires forall k :: 0 <= k < |es| ==> !es[k].event.NewMessage?
    ensures BroadcastIds(es) == []
  {
    if |es| > 0 {
      QuietIds(es[1..]);
    }
  }

  lemma JoinBroadcast(st: State, sid: SocketId, roomId: RoomId, username: string, now: Time, fault: Fault)
    ensures AppendsAndAnnounces(st.store.messages, Join(st, sid, roomId, username, now, fault))
  {
    var r := Join(st, sid, roomId, username, now, fault);
    assert r.state.store.messages[..|st.store.messages|] == st.store.messages;
    JoinAnnouncesNothing(st, sid, roomId, username, now, fault);
  }

  lemma DisconnectBroadcast(st: State, sid: SocketId, now: Time, fault: Fault)
    ensures AppendsAndAnnounces(st.store.messages, Disconnect(st, sid, now, fault))
  {
    var r := Disconnect(st, sid, now, fault);
    assert r.state.store.messages[..|st.store.messages|] == st.store.messages;
    if |r.out| > 0 {
      assert BroadcastIds(r.out[1..]) == [];
    }
  }

  lemma StepBroadcast(st: State, c: Command)
    ensures AppendsAndAnnounces(st.store.messages, Step(st, c))
  {
    match c
    case JoinRoom(sid, roomId, username, now, fault) => JoinBroadcast(st, sid, roomId, username, now, fault);
    case SendMessage(sid, roomId, username, text, now, fault) => SendBroadcast(st, sid, roomId, username, text, now, fault);
    case Disconnected(sid, now, fault) => DisconnectBroadcast(st, sid, now, fault);
    case Cleanup(now, fault) =>
      assert Step(st, c).state.store.messages[..|st.store.messages|] == st.store.messages;
    case CreateRoom(_, _, _, _) =>
      assert Step(st, c).state.store.messages[..|st.store.messages|] == st.store.messages;
  }

  /** Over any sequence of requests, the `new-message` events announce
      exactly the messages stored meanwhile, once each, in the order they
      were stored, and each describes its stored message. */
  lemma {:induction false} RunBroadcast(st: State, cs: seq<Command>)
    ensures Grows(st.store.messages, Run(st, cs).state.store.messages, Run(st, cs).out)
    decreases |cs|
  {
    if |cs| > 0 {
      var first := Step(st, cs[0]);
      var rest := Run(first.state, cs[1..]);
      StepBroadcast(st, cs[0]);
      RunBroadcast(first.state, cs[1..]);
      GrowsCompose(st.store.messages, first.state.store.messages, rest.state.store.messages, first.out, rest.out);
    } else {
      assert st.store.messages[..|st.store.messages|] == st.store.messages;
    }
  }

  lemma {:induction false} ObservedWithin(es: seq<Emission>, c: SocketId)
    ensures forall x :: x in Observed(es, c) ==> x in BroadcastIds(es)
    decreases |es|
  {
    if |es| > 0 {
      ObservedWithin(es[1..], c);
    }
  }

  lemma {:induction false} ObservedIncreasing(es: seq<Emission>, c: SocketId)
    requires StrictlyIncreasing(BroadcastIds(es))
    ensures StrictlyIncreasing(Observed(es, c))
    decreases |es|
  {
    if |es| > 0 {
      var head := IdsOf(es[0]);
      var tail := BroadcastIds(es[1..]);
      SplitIncreasing(head, tail);
      ObservedIncreasing(es[1..], c);
      ObservedWithin(es[1..], c);
      var obs := Observed(es[1..], c);
      if c in es[0].to && |head| > 0 {
        ConsIncreasing(head[0], obs);
        assert Observed(es, c) == [head[0]] + obs;
      } else {
        assert Observed(es, c) == obs;
      }
    }
  }

  lemma SplitIncreasing(head: seq<nat>, tail: seq<nat>)
    requires StrictlyIncreasing(head + tail) && |head| <= 1
    ensures StrictlyIncreasing(tail)
    ensures |head| == 1 ==> forall x :: x in tail ==> head[0] < x
  {
    var s := head + tail;
    forall i, j | 0 <= i < j < |tail| ensures tail[i] < tail[j] {
      assert tail[i] == s[|head| + i] && tail[j] == s[|head| + j];
    }
    if |head| == 1 {
      forall x | x in tail ensures head[0] < x {
        var j :| 0 <= j < |tail| && tail[j] == x;
        assert s[0] == head[0] && s[1 + j] == x;
      }
    }
  }

  lemma ConsIncreasing(x: nat, s: seq<nat>)
    requires StrictlyIncreasing(s) && forall y :: y in s ==> x < y
    ensures StrictlyIncreasing([x] + s)
  {
    var t := [x] + s;
    forall i, j | 0 <= i < j < |t| ensures t[i] < t[j] {
      assert t[j] == s[j - 1] && t[j] in s;
      if i > 0 { assert t[i] == s[i - 1]; }
    }
  }

  /** Every socket receives `new-message` events in the order the messages
      were stored: no socket sees a later message before an earlier one. */
  lemma DeliveryFollowsStoreOrder(st: State, cs: seq<Command>, c: SocketId)
    ensures StrictlyIncreasing(Observed(Run(st, cs).out, c))
    ensures forall x :: x in Observed(Run(st, cs).out, c) ==>
              |st.store.messages| <= x < |Run(st, cs).state.store.messages|
  {
    RunBroadcast(st, cs);
    var after := Run(st, cs).state.store.messages;
    RangeIncreasing(|st.store.messages|, |after|);
    ObservedIncreasing(Run(st, cs).out, c);
    ObservedWithin(Run(st, cs).out, c);
  }

  // ---------------------------------------------------------------------
  // Re-joining

  /** Joining twice as the same user in the same room, from two sockets,
      leaves one row for the pair, online and on the second socket. */
  lemma RejoinKeepsOneRow(st: State, s1: SocketId, s2: SocketId, roomId: RoomId, username: string,
                          t1: Time, t2: Time)
    requires Inv(st.store) && IsTrimmed(roomId)
    requires JoinSucceeds(st, roomId, t1, None)
    ensures var mid := Join(st, s1, roomId, username, t1, None).state;
            var fin := Join(mid, s2, roomId, username, t2, None).state;
            && JoinSucceeds(mid, roomId, t2, None)
            && JoinRow(username, roomId, s2, t2) in fin.store.users
            && (forall j :: 0 <= j < |fin.store.users| && IsPair(fin.store.users[j], username, roomId) ==>
                              fin.store.users[j] == JoinRow(username, roomId, s2, t2))
            && |fin.store.users| == |mid.store.users|
  {
    var mid := Join(st, s1, roomId, username, t1, None).state;
    if roomId !in st.store.rooms {
      var room := GetOrCreateRoom(st.store.rooms, roomId, None, t1, None).value.1;
      TrimmedIsOwnTrim(roomId);
      TrimOfUnique(roomId, Trim(roomId), room.roomId);
    }
    assert roomId in mid.store.rooms;
    JoinKeepsInvariant(st, s1, roomId, username, t1, None);
    JoinKeepsInvariant(mid, s2, roomId, username, t2, None);
    assert JoinRow(username, roomId, s1, t1) in mid.store.users;
  }
}
