/** The Message document (backend/models/Message.js). */
module MessageModel {
  import opened Base
  import opened Text

  /** `maxlength` of the `message` path. */
  const MaxLength := 500

  /** A stored message. `id` stands for the `_id` the store assigns; the
      model numbers messages by insertion. */
  datatype Message = Message(id: nat, roomId: RoomId, username: string, text: string, timestamp: Time)

  /** What every saved Message satisfies. */
  predicate WellFormed(m: Message) {
    && m.roomId != []
    && m.username != [] && IsTrimmed(m.username)
    && m.text != [] && IsTrimmed(m.text) && Utf16Length(m.text) <= MaxLength
  }

  /** The validation errors of a Message built from these fields. Trimming
      runs first (it is a setter), so `required` and `maxlength` see the
      trimmed text; `roomId` has no trim setter. */
  function Failures(roomId: Option<string>, username: Option<string>, text: Option<string>): set<string> {
    (if roomId.None? || roomId.value == [] then {"roomId"} else {})
    + (if username.None? || AllSpace(username.value) then {"username"} else {})
    + (if TextRejected(text) then {"message"} else {})
  }

  /** The `message` path fails exactly when the text is absent, only spaces,
      or longer than `MaxLength` UTF-16 code units once trimmed. */
  predicate TextRejected(text: Option<string>) {
    text.None? || AllSpace(text.value) || Utf16Length(Trim(text.value)) > MaxLength
  }

  /** `new Message({ roomId, username, message, timestamp })` followed by
      validation; `timestamp` defaults to the creation time. */
  function Create(id: nat, roomId: Option<string>, username: Option<string>, text: Option<string>,
                  timestamp: Option<Time>, now: Time): (r: Result<Message, Failure>)
    ensures r.Err? <==> roomId.None? || roomId.value == [] || username.None? || AllSpace(username.value)
                        || TextRejected(text)
    ensures r.Err? ==> r.error.Invalid?
                       && ("roomId" in r.error.paths <==> roomId.None? || roomId.value == [])
                       && ("username" in r.error.paths <==> username.None? || AllSpace(username.value))
                       && ("message" in r.error.paths <==> TextRejected(text))
    ensures r.Ok? ==> WellFormed(r.value) && r.value.id == id
    ensures r.Ok? ==> r.value.roomId == roomId.value
    ensures r.Ok? ==> IsTrimOf(username.value, r.value.username) && IsTrimOf(text.value, r.value.text)
    ensures r.Ok? ==> r.value.timestamp == (if timestamp.Some? then timestamp.value else now)
  {
    var errors := Failures(roomId, username, text);
    if errors != {} then Err(Invalid(errors))
    else
      TrimEmptyIff(username.value);
      TrimEmptyIff(text.value);
      Ok(Message(id, roomId.value, Trim(username.value), Trim(text.value),
                 if timestamp.Some? then timestamp.value else now))
  }

  /** A text longer than `MaxLength` characters after trimming is rejected,
      whatever its characters. */
  lemma OverlongRejected(id: nat, roomId: Option<string>, username: Option<string>, text: string,
                         timestamp: Option<Time>, now: Time)
    requires |Trim(text)| > MaxLength
    ensures Create(id, roomId, username, Some(text), timestamp, now) == Err(Invalid(Failures(roomId, username, Some(text))))
    ensures "message" in Failures(roomId, username, Some(text))
  {
  }

  /** A text of spaces only is rejected: it trims to the empty string and
      then fails `required`. */
  lemma BlankRejected(id: nat, roomId: Option<string>, username: Option<string>, text: string,
                      timestamp: Option<Time>, now: Time)
    requires AllSpace(text)
    ensures Create(id, roomId, username, Some(text), timestamp, now).Err?
    ensures "message" in Create(id, roomId, username, Some(text), timestamp, now).error.paths
  {
  }

  /** A text with no surrounding spaces and at most `MaxLength` characters,
      none outside the Basic Multilingual Plane, is accepted and stored as it
      came. */
  lemma ShortTextAccepted(id: nat, roomId: string, username: string, text: string, now: Time)
    requires roomId != [] && !AllSpace(username)
    requires text != [] && IsTrimmed(text) && |text| <= MaxLength
    requires forall i :: 0 <= i < |text| ==> text[i] as int <= 0xFFFF
    ensures Create(id, Some(roomId), Some(username), Some(text), None, now).Ok?
    ensures Create(id, Some(roomId), Some(username), Some(text), None, now).value.text == text
  {
    TrimmedIsOwnTrim(text);
    Utf16LengthOfBmp(text);
  }

  lemma {:induction false} Utf16LengthOfBmp(s: string)
    requires forall i :: 0 <= i < |s| ==> s[i] as int <= 0xFFFF
    ensures Utf16Length(s) == |s|
  {
    if |s| > 0 {
      Utf16LengthOfBmp(s[1..]);
    }
  }
}
