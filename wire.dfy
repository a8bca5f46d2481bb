/** The names and JSON messages that the relay and the agent exchange over the
    agent's websocket, and the command status and type enumerations they share. */
module Wire {
  import opened Base

  /** A command row's status. The relay stores whatever status text a result message
      carries, so a text outside the five names is kept as `Unrecognised`. */
  datatype Status = Pending | Running | Completed | Failed | Timeout | Unrecognised(name: string)

  /** The status names of `CommandStatus`. */
  function StatusName(s: Status): string
  {
    match s
    case Pending => "pending"
    case Running => "running"
    case Completed => "completed"
    case Failed => "failed"
    case Timeout => "timeout"
    case Unrecognised(n) => n
  }

  /** A status value that text can produce: an `Unrecognised` name is none of the five. */
  predicate IsCanonical(s: Status)
  {
    s.Unrecognised? ==> s.name !in {"pending", "running", "completed", "failed", "timeout"}
  }

  /** Reading a stored status text back as a status. */
  function ParseStatus(text: string): (s: Status)
    ensures StatusName(s) == text
    ensures IsCanonical(s)
  {
    if text == "pending" then Pending
    else if text == "running" then Running
    else if text == "completed" then Completed
    else if text == "failed" then Failed
    else if text == "timeout" then Timeout
    else Unrecognised(text)
  }

  /** Storing a status as text and reading it back gives the same status. */
  lemma StatusRoundTrip(s: Status)
    requires IsCanonical(s)
    ensures ParseStatus(StatusName(s)) == s
  {
  }

  /** The statuses the relay's poll treats as final. */
  predicate IsTerminal(s: Status)
  {
    s.Completed? || s.Failed? || s.Timeout?
  }

  /** `CommandType`. */
  datatype Kind = ShellCommand | ReadFileCommand | WriteFileCommand | ListDirCommand

  function KindName(k: Kind): string
  {
    match k
    case ShellCommand => "shell"
    case ReadFileCommand => "read_file"
    case WriteFileCommand => "write_file"
    case ListDirCommand => "list_dir"
  }

  /** The agent's reading of a `command_type` field; `None` for an unknown type. */
  function ParseKind(text: Option<string>): (k: Option<Kind>)
    ensures k.Some? <==> text.Some? && text.value in {"shell", "read_file", "write_file", "list_dir"}
    ensures k.Some? ==> KindName(k.value) == text.value
  {
    match text
    case None => None
    case Some(t) =>
      if t == "shell" then Some(ShellCommand)
      else if t == "read_file" then Some(ReadFileCommand)
      else if t == "write_file" then Some(WriteFileCommand)
      else if t == "list_dir" then Some(ListDirCommand)
      else None
  }

  lemma KindRoundTrip(k: Kind)
    ensures ParseKind(Some(KindName(k))) == Some(k)
  {
  }

  /** The body of a command message, one optional field per JSON key
      (`None` is an absent key or a JSON null). */
  datatype Request = Request(
    id: Option<string>,
    commandType: Option<string>,
    command: Option<string>,
    path: Option<string>,
    content: Option<string>,
    workingDir: Option<string>,
    timeout: Option<int>)

  /** A message from the relay to the agent: its `"type"` key and the other keys. */
  datatype ToAgent = ToAgent(msgType: Option<string>, request: Request)

  /** The body of a message from the agent: a command's result. */
  datatype Reply = Reply(
    id: Option<string>,
    status: Option<string>,
    output: Option<string>,
    error: Option<string>,
    exitCode: Option<int>)

  /** A message from the agent to the relay: its `"type"` key and the other keys. */
  datatype ToRelay = ToRelay(msgType: Option<string>, reply: Reply)

  const NoRequest := Request(None, None, None, None, None, None, None)
  const NoReply := Reply(None, None, None, None, None)

  /** The relay's answer to a ping. */
  const Pong := ToAgent(Some("pong"), NoRequest)
}
