/** The chat message record shared by every store and by the room component.
    A field the message type declares optional is an `Option`: `None` stands
    for a property that is absent (undefined) on the payload. */
module Message {

  /** A possibly-absent value. */
  datatype Option<+T> = None | Some(value: T) {

    /** The value, or `default` when it is absent (a default parameter). */
    function GetOr(default: T): T {
      match this
      case Some(v) => v
      case None => default
    }
  }

  /** The three kinds of chat message: presence announcements and text. */
  datatype ChatMessageType = Joined | Text | Left

  /** One immutable entry of room history. `id` is minted once by the sender
      and carried unchanged through storage and broadcast; `kind` is the
      message's `type` property (a reserved word here). */
  datatype ChatMessage = ChatMessage(
    id: string,
    timestamp: nat,
    kind: ChatMessageType,
    sender: string,
    message: Option<string>,
    connectionId: Option<string>)
}
