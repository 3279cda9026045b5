/** The records of the session engine (src-tauri/src/session/model.rs).
    JSON values are reduced to what the engine inspects: message content is a
    string, an array of blocks, or anything else; a block is reduced to its
    string-valued `type` and `text` fields (a missing or non-string field is
    `None`). */
module Model {
  import opened Wrappers

  /** Status of a session; serialised in lower case. */
  datatype SessionStatus = Waiting | Processing | Thinking | Idle

  /** The serde name of a status (`rename_all = "lowercase"`). */
  function StatusName(s: SessionStatus): (name: string)
    ensures |name| > 0
    ensures forall i :: 0 <= i < |name| ==> 'a' <= name[i] <= 'z'
  {
    match s
    case Waiting => "waiting"
    case Processing => "processing"
    case Thinking => "thinking"
    case Idle => "idle"
  }

  /** Deserialising a status name; any other string is rejected. */
  function ParseStatusName(name: string): (r: Option<SessionStatus>)
    ensures r.Some? ==> StatusName(r.value) == name
  {
    if name == "waiting" then Some(Waiting)
    else if name == "processing" then Some(Processing)
    else if name == "thinking" then Some(Thinking)
    else if name == "idle" then Some(Idle)
    else None
  }

  /** Serialising then deserialising a status gives it back. */
  lemma StatusNameRoundTrip(s: SessionStatus)
    ensures ParseStatusName(StatusName(s)) == Some(s)
  {
  }

  /** One element of an array-valued `content`: its `"type"` and `"text"` when they are strings. */
  datatype Block = Block(blockType: Option<string>, text: Option<string>)

  /** `message.content`: a JSON string, a JSON array, or any other JSON value. */
  datatype Content = Str(s: string) | Arr(blocks: seq<Block>) | Other

  /** `MessageContent`: every field optional. */
  datatype MessageContent = MessageContent(role: Option<string>, content: Option<Content>)

  /** `JsonlMessage`: one parsed line of a conversation log; every field optional. */
  datatype JsonlMessage = JsonlMessage(
    sessionId: Option<string>,
    gitBranch: Option<string>,
    timestamp: Option<string>,
    msgType: Option<string>,
    message: Option<MessageContent>)

  /** `Session`; the process's f32 CPU usage is kept only as "above 5 %". */
  datatype Session = Session(
    id: string,
    projectName: string,
    projectPath: string,
    gitBranch: Option<string>,
    status: SessionStatus,
    lastMessage: Option<string>,
    lastMessageRole: Option<string>,
    lastActivityAt: string,
    pid: nat,
    cpuHigh: bool)

  /** `SessionsResponse`: a plain record; its producer establishes the counts. */
  datatype SessionsResponse = SessionsResponse(sessions: seq<Session>, totalCount: nat, waitingCount: nat)
}
