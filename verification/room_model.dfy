/** The Room document (backend/models/Room.js). */
module RoomModel {
  import opened Base
  import opened Text

  datatype Room = Room(roomId: RoomId, name: Option<string>, createdAt: Time, isActive: bool)

  /** What every saved Room satisfies: the required key is present and both
      trimmed fields are stored trimmed. */
  predicate WellFormed(room: Room) {
    && room.roomId != []
    && IsTrimmed(room.roomId)
    && (room.name.Some? ==> IsTrimmed(room.name.value))
  }

  /** `new Room({ roomId, name })` followed by validation: `roomId` is trimmed
      and required, `name` is trimmed when given, `createdAt` defaults to the
      creation time and `isActive` to true. */
  function Create(roomId: string, name: Option<string>, now: Time): (r: Result<Room, Failure>)
    ensures r.Err? <==> AllSpace(roomId)
    ensures r.Err? ==> r.error == Invalid({"roomId"})
    ensures r.Ok? ==> WellFormed(r.value)
    ensures r.Ok? ==> r.value.createdAt == now && r.value.isActive
    ensures r.Ok? ==> IsTrimOf(roomId, r.value.roomId)
    ensures r.Ok? ==> (r.value.name.Some? <==> name.Some?)
    ensures r.Ok? && name.Some? ==> IsTrimOf(name.value, r.value.name.value)
  {
    TrimEmptyIff(roomId);
    var key := Trim(roomId);
    if key == [] then Err(Invalid({"roomId"}))
    else
      var storedName := match name
        case None => None
        case Some(n) => Some(Trim(n));
      Ok(Room(key, storedName, now, true))
  }
}
