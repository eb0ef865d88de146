/** Shared vocabulary: optional values, results, identifiers, clock values
    and the store faults a handler can run into. */
module Base {

  /** A field that a request or a document may leave out. */
  datatype Option<T> = None | Some(value: T)

  /** The outcome of a store operation: a value, or the error it raised. */
  datatype Result<T, E> = Ok(value: T) | Err(error: E)

  /** Milliseconds since the epoch, the value a JavaScript `Date` holds. */
  type Time = int

  type RoomId = string
  type SocketId = string

  /** Why a store operation was refused.
      `Invalid` carries the schema paths whose validators failed. */
  datatype Failure = Invalid(paths: set<string>) | DuplicateKey | StoreFailure

  /** The individual store operations a handler performs, in the order the
      handlers issue them. */
  datatype StoreOp =
    | FindRoom      // Room.findOne
    | SaveRoom      // room.save()
    | UpsertUser    // User.findOneAndUpdate(..., { upsert: true })
    | FindMessages  // Message.find(...).sort(...).limit(50)
    | SaveMessage   // newMessage.save()
    | UpdateUser    // User.findOneAndUpdate({ socketId }, ...)
    | DeleteStale   // User.deleteMany
    | DistinctRooms // User.distinct('roomId', ...)
    | UpdateRooms   // Room.updateMany

  /** The store operation, if any, that fails during one handler run.
      A fault naming a step the handler does not reach has no effect. */
  type Fault = Option<StoreOp>
}
