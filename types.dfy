/** The records the chat screen works with: messages, grounding sources, the
    session status, and the narrow event records the streaming client hands
    to the transcript controller. */
module Types {

  datatype Option<+T> = None | Some(value: T) {
    /** The wrapped value, or `default` when there is none. */
    function GetOr(default: T): T {
      match this
      case Some(v) => v
      case None => default
    }
  }

  /** Who wrote a message. */
  datatype Role = User | Model

  /** A web page cited by the model, reduced to what the screen shows. */
  datatype GroundingSource = GroundingSource(title: string, uri: string)

  /** One transcript entry. Every field but `role` is optional, as in the
      source record; `thought` is written by the controller although the
      declared record does not list it. */
  datatype Message = Message(
    role: Role,
    text: Option<string>,
    thought: Option<string>,
    image: Option<string>,
    isStreaming: Option<bool>,
    groundingSources: Option<seq<GroundingSource>>)

  /** The session status shared by the whole transcript. */
  datatype AppStatus = Idle | Loading | Error

  /** An incremental fragment delivered while a reply streams in. */
  datatype Chunk = Chunk(text: Option<string>, thought: Option<string>)

  /** The `web` record of an upstream citation; either field may be absent. */
  datatype WebRef = WebRef(title: Option<string>, uri: Option<string>)

  /** An upstream grounding citation, of which only `web` is read. */
  datatype Citation = Citation(web: Option<WebRef>)

  /** The failure handed to the error callback; only `message` is read. */
  datatype Failure = Failure(message: Option<string>)

  /** A text part of a history entry sent upstream. */
  datatype Part = Part(text: string)

  /** A role-tagged turn of the conversation history sent upstream. */
  datatype HistoryEntry = HistoryEntry(role: Role, parts: seq<Part>)

  /** JavaScript truthiness of an optional string: present and non-empty. */
  predicate Truthy(s: Option<string>) {
    s.Some? && s.value != ""
  }
}
