/** The Membership document, stored in the `User` collection
    (backend/models/User.js). Its `(roomId, username)` index is not unique:
    nothing in the schema stops two rows for one pair, so one row per pair
    is an invariant the handlers have to keep (see `Store.UniquePairs`). */
module UserModel {
  import opened Base
  import opened Text

  datatype Membership = Membership(
    username: string,
    roomId: RoomId,
    joinedAt: Time,
    isOnline: bool,
    socketId: Option<SocketId>)

  /** What `new User(fields).save()` accepts: the required fields are present,
      `username` is stored trimmed. */
  predicate WellFormed(m: Membership) {
    m.username != [] && IsTrimmed(m.username) && m.roomId != []
  }

  /** The validation errors of a User document built from these fields.
      Mongoose's `required` rejects an absent value and the empty string. */
  function Failures(username: Option<string>, roomId: Option<string>): set<string> {
    (if username.None? || AllSpace(username.value) then {"username"} else {})
    + (if roomId.None? || roomId.value == [] then {"roomId"} else {})
  }

  /** `new User({ ... })` followed by validation. `joinedAt` defaults to the
      creation time, `isOnline` to true, and `socketId` may be left out. */
  function Create(username: Option<string>, roomId: Option<string>, joinedAt: Option<Time>,
                  isOnline: Option<bool>, socketId: Option<SocketId>, now: Time): (r: Result<Membership, Failure>)
    ensures r.Err? <==> username.None? || AllSpace(username.value) || roomId.None? || roomId.value == []
    ensures r.Err? ==> r.error.Invalid?
                       && ("username" in r.error.paths <==> username.None? || AllSpace(username.value))
                       && ("roomId" in r.error.paths <==> roomId.None? || roomId.value == [])
    ensures r.Ok? ==> WellFormed(r.value)
    ensures r.Ok? ==> IsTrimOf(username.value, r.value.username) && r.value.roomId == roomId.value
    ensures r.Ok? ==> r.value.joinedAt == (if joinedAt.Some? then joinedAt.value else now)
    ensures r.Ok? ==> r.value.isOnline == (isOnline.None? || isOnline.value)
    ensures r.Ok? ==> r.value.socketId == socketId
  {
    var errors := Failures(username, roomId);
    if errors != {} then Err(Invalid(errors))
    else
      TrimEmptyIff(username.value);
      Ok(Membership(
        Trim(username.value),
        roomId.value,
        if joinedAt.Some? then joinedAt.value else now,
        if isOnline.Some? then isOnline.value else true,
        socketId))
  }
}
