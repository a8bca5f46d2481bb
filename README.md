# code-remote, modelled in Dafny

code-remote lets a remote tool-calling client act on a personal machine. It has two parts:

- **The relay** (`server/server.py`) keeps a `commands` table. Each tool call becomes a row. The row is pushed over the single websocket of the connected agent, and the relay polls the row until the agent's result has made it terminal. Its other jobs:
  - when an agent connects, it admits it (private-network rule, token);
  - it re-sends every row still pending and marks it running;
  - it applies the agent's result messages to the table;
  - it serves a bearer-token-protected listing of recent rows.
- **The agent** (`agent/agent.py`) takes `execute` messages and routes them by `command_type` to one of four handlers: shell, read file, write file, or list directory. Each handler is confined to three allowed roots. The message loop answers only `execute` messages, each with one `result` message carrying the request's id, in order; other messages get no answer. A working directory that fails to resolve makes `execute_shell` raise, and that exception ends the loop without a reply.

The model is split into these modules:

- `Base`: `Option` and `Attempt`. `Attempt` is a value or the text of a raised exception.
- `Text`: Python's `strip`, `split`, `join`, `str(int)` and string ordering, with their laws.
- `Wire`: the JSON messages exchanged by the two sides, and the status and type names.
- `RelayRules`: the relay's pure decisions. These are the reply text, the poll bound, the client address, the private-network test, agent admission, the bearer test and the output cap.
- `Relay`: the relay's state. It holds the table as a map from id to row, a `ConnectionManager` class with one nullable agent slot, and a `Relay` class whose methods are the endpoints. The loops are written as loops: the poll, recovery, the receive loop and the listing.
- `Sandbox`: resolved paths as component lists, the allowed-roots rule, an abstract file system, the writes it allows, and the truncation rule.
- `Agent`: the four handlers, `handle_command`, and the message loop of `connect_and_run`. These take the agent's side of the websocket as a `RelayLink` class.

Each imperative method is proved equal to a functional specification: the poll, recovery, the receive loop, the listing and the agent's message loop. The properties are then proved about those specifications.

A few behaviours in the code differ from what the design documentation describes. In each case the model follows the code:

- A result for a row that is already terminal still overwrites it (`Relay.TerminalRowsAreOverwritten`).
- Submitting a command while no agent is connected inserts no row. It returns an error at once, so such a command is never recovered later.
- Recovery marks a resent row `running` as soon as the message has been sent, and it does so even when the send failed.
- `disconnect_agent` empties the slot even when a newer connection holds it.

## Model

| member | source | states |
|---|---|---|
| Text.StripSpec | server/server.py:201 | `strip()` gives a slice of the input with no whitespace at either end; it is empty exactly when the input is all whitespace |
| Text.FirstField | server/server.py:385 | the text before the first separator: it holds no separator, it is a prefix of the input, and the separator follows it when there is one |
| Text.SplitHead | server/server.py:385 | element 0 of `split(sep)` is that first field |
| Text.JoinSplit | server/server.py:385 | joining the pieces of a split with the separator gives the input back |
| Text.SplitJoin | agent/agent.py:250-252 | splitting a join of separator-free parts at the separator gives exactly those parts back; `Agent.EntryLineFields` and `Agent.ListingReadsBack` apply it to listing lines and to a whole listing |
| Text.IntToString | server/server.py:200 | `str` of an integer: a `-` exactly in front of a negative number and nowhere else, then decimal digits with no leading zero except in `0` itself |
| Text.IntToStringRoundTrip | server/server.py:200 | the decimal text of the exit code parses back to the same integer, sign included |
| Text.LexLessIrreflexive | agent/agent.py:242 | no name sorts before itself under Python's string order |
| Text.LexLessTotal | agent/agent.py:242 | of two distinct names one sorts before the other |
| Text.LexLessTransitive | agent/agent.py:242 | the string order is transitive |
| Text.LeastStringExists | agent/agent.py:242 | every non-empty set of names has a least element, which is what `sorted` puts first |
| Wire.ParseStatus | server/server.py:45-50 | the five `CommandStatus` names map to their statuses; any other text is kept as an unrecognised value |
| Wire.StatusRoundTrip | server/server.py:45-50 | each status's name reads back to that status |
| Wire.ParseKind | server/server.py:53-57 | exactly the four `CommandType` names are recognised |
| Wire.KindRoundTrip | server/server.py:53-57 | each command type's name reads back to that type |
| RelayRules.ResultText | server/server.py:192-201 | when the raw text (output, then `\n[stderr]: ` and the error when it is non-empty, then `\n[exit_code: n]` when there is a code) has a visible character, the reply is exactly its `strip()`; otherwise it is `(no output)`; the reply never starts or ends with whitespace |
| RelayRules.EmptyErrorAddsNothing | server/server.py:193-198 | an empty error column adds nothing: the reply equals the one for a NULL error |
| RelayRules.ResultEndsWithStderr | server/server.py:192-201 | a non-empty error that ends in a visible character appears behind `[stderr]: ` after the output, and only the exit code part follows it |
| RelayRules.ResultEndsWithExitCode | server/server.py:199-201 | a row with an exit code always ends with `[exit_code: n]` |
| RelayRules.ResultStartsWithOutput | server/server.py:192-201 | output that begins with a visible character begins the reply whenever stderr or an exit code follows |
| RelayRules.EmptyResultText | server/server.py:192-201 | a row with no output, no stderr and no exit code yields `(no output)` |
| RelayRules.PollBound | server/server.py:181 | the poll makes `timeout * 2 + 10` reads, and none when that is not positive |
| RelayRules.ClientIp | server/server.py:379-388 | with a non-empty `X-Forwarded-For` header: its stripped first field, with no comma in it; otherwise the peer host, or `""` when there is none |
| RelayRules.ClientIpSingleHop | server/server.py:379-388 | a single-hop header without surrounding whitespace is returned unchanged |
| RelayRules.PrivateV4Ranges | server/server.py:364-376 | an IPv4 address is private exactly when it is in 127.0.0.0-127.255.255.255 or 100.64.0.0-100.127.255.255 |
| RelayRules.PrivateV6Ranges | server/server.py:364-376 | an IPv6 address is private exactly when it is `::1` or in `fdaa::/16` |
| RelayRules.CompareDigest | server/server.py:402 | `secrets.compare_digest` on two strings raises exactly when either holds a non-ASCII character, and otherwise tells whether they are equal |
| RelayRules.AuthorizedExactly | server/server.py:477-479 | the listing is authorised exactly when the header equals `Bearer ` followed by the secret and the secret is ASCII; an ASCII header never makes the comparison raise; with a non-ASCII secret every header starting with `Bearer ` raises |
| RelayRules.AdmitAgent | server/server.py:391-404 | an agent is admitted exactly when the private-network rule (if configured) holds, the token is present and non-empty, and the token equals an ASCII secret. The handler raises exactly when those checks reach a comparison with a non-ASCII token or secret. Every refusal uses code 4003, and a private-network failure gives its own reason |
| RelayRules.CapOutput | server/server.py:497 | the listed output is the first 500 characters of the stored output, or NULL when that is NULL or empty |
| Relay.NewRecord | server/server.py:142-157 | the inserted row is pending; it carries the payload, the timeout and the creation time; every result column and timestamp is NULL |
| Relay.CommandData | server/server.py:160-167 | the data sent for a new command has no id, and carries the command type, the four payload fields and the timeout |
| Relay.RowData | server/server.py:417-424 | the data resent for a stored row carries its type, its four payload columns and its timeout |
| Relay.RecoveryResendsSubmission | server/server.py:417-424 | recovery resends a freshly inserted row with exactly the data its submission sent |
| Relay.ExecuteMessage | server/server.py:111-119 | the pushed message has type `execute` and the row's id, and apart from the id it is exactly the given command data |
| Relay.ConnectionManager.ConnectAgent | server/server.py:99-109 | a new connection replaces whatever was in the slot, and `is_agent_connected` then holds |
| Relay.ConnectionManager.DisconnectAgent | server/server.py:104-109 | the slot becomes empty, and `is_agent_connected` then fails |
| Relay.ConnectionManager.IsAgentConnected | server/server.py:108-109 | the slot holds a connection; it holds after `ConnectAgent` and fails after `DisconnectAgent`, and `ExecuteCommand` inserts no row when it fails |
| Relay.ConnectionManager.SendCommand | server/server.py:111-123 | the send succeeds exactly when an agent is present and its transport still has room; only then is the execute message appended to what was sent |
| Relay.AgentSocket.SendJson | server/server.py:115-123 | `send_json` succeeds exactly while the transport has room left, and only then is the message appended; a send after the transport dropped raises and sends nothing |
| Relay.PollReply | server/server.py:190-203 | the reply is never empty and never starts or ends with space: the timeout message when nothing was found, else the finished row's stripped text, or `(no output)` when that text is blank |
| Relay.PollTimesOut | server/server.py:181-203 | when no read within the bound sees a terminal row, the poll finds nothing |
| Relay.PollFindsFirst | server/server.py:181-191 | the first terminal row read within the bound is the one the poll finds |
| Relay.PollResult | server/server.py:181-203 | the loop returns the first finished read within the bound; it stops right after that read; without one it makes every read and finds nothing |
| Relay.PendingIds | server/server.py:411-414 | the ids gathered are exactly the ids of the pending rows |
| Relay.MarkRunning | server/server.py:425-428 | the named rows become running, each with the clock reading taken for it; every other row and the set of ids are unchanged |
| Relay.RecoveryLeavesNothingPending | server/server.py:409-429 | after recovery no row is pending, so a second recovery sends nothing |
| Relay.ApplyResult | server/server.py:435-450 | a result updates only the row its id names: the status (`completed` when absent), output, error, exit code and completion time, with every other column kept; an unknown id changes nothing |
| Relay.TerminalRowsAreOverwritten | server/server.py:438-450 | nothing guards terminal rows: a late `failed` result turns a completed row into a failed one |
| Relay.FramesTouchOnlyNamedRows | server/server.py:431-454 | a sequence of agent messages leaves every row that no result names as it was |
| Relay.Summarize | server/server.py:488-501 | a listed row carries the row's id, type, status, command, path, error, exit code and creation time, and its capped output |
| Relay.ListLength | server/server.py:481-486 | `LIMIT` yields the limit or the row count, whichever is smaller, and every row when the limit is negative |
| Relay.Relay.ExecuteCommand | server/server.py:132-203 | without an agent: the not-connected error and no row. Otherwise a pending row is inserted and sent. When the send fails the row stays pending and the send-failed error is returned. When it succeeds the row is running, and the reply is the text of the first finished read within `PollBound(timeout)`, or the poll timeout message |
| Relay.Relay.RecoverOne | server/server.py:416-428 | one pending row is sent as it was read and marked running |
| Relay.Relay.RecoverPending | server/server.py:409-429 | exactly the pending rows are taken, once each, oldest first, and all of them end up running with their own clock reading. The connection receives their messages in that order until its transport drops: the first `Room()` of them, and none after |
| Relay.Relay.ServeAgent | server/server.py:431-454 | the receive loop applies every result message in order and answers every ping with a pong. It stops at the first ping it cannot answer, which is exactly when the pongs sent have used up the transport's room |
| Relay.Relay.AgentWebsocket | server/server.py:391-460 | an agent that is refused, or whose token comparison raises, gets the admission verdict and changes no state. An admitted agent takes the slot, receives as many of the recovery messages and then of its pongs as the transport carries, has its results applied, and leaves the slot empty. The receive loop ends early only at a ping that finds the transport used up |
| Relay.Relay.GetCommands | server/server.py:474-503 | unauthorised exactly when the bearer test answers no; a server error, with the exception's text, exactly when the token comparison raises; otherwise `ListLength(rows, limit)` rows (the limit defaults to 20), newest first, each row at most once, summarised, and none left out newer than the last listed |
| Sandbox.UnderRootIsPrefix | agent/agent.py:56-59 | a path equals a root or has it among its parents exactly when the root is a component prefix of it |
| Sandbox.AllowedRoots | agent/agent.py:33-37 | the roots are the home directory, `/tmp` and `/var/tmp`, in that order |
| Sandbox.IsPathAllowed | agent/agent.py:52-61 | the text is resolved again; an exception means not allowed; otherwise the resolved path must equal a root or have it among its parents (its laws are in `Sandbox.IsPathAllowedSpec`) |
| Sandbox.IsPathAllowedSpec | agent/agent.py:52-61 | a path text is allowed exactly when it resolves and the resolved path lies under the home directory, `/tmp` or `/var/tmp`; a resolution error means not allowed |
| Sandbox.AllowedResolvedIsPrefix | agent/agent.py:52-61 | a resolved path is allowed exactly when some root is a component prefix of it |
| Sandbox.AllowedBelow | agent/agent.py:52-61 | everything below an allowed path is allowed |
| Sandbox.SlashAllowedOnlyAsHome | agent/agent.py:33-37 | `/` is allowed only when the home directory is `/` |
| Sandbox.ChildNames | agent/agent.py:242 | the names listed are exactly the direct children present in the tree |
| Sandbox.UniversalNewlines | agent/agent.py:159 | reading in text mode leaves no carriage return and never lengthens the text; text without a carriage return reads back unchanged |
| Sandbox.UniversalNewlinesExamples | agent/agent.py:159 | `"a\r\nb"` and `"a\rb"` both read back as `"a\nb"` |
| Sandbox.UniversalNewlinesLaws | agent/agent.py:159 | for every text: a character other than `\r` is kept, a `\r\n` pair becomes one `\n`, and a lone `\r` becomes `\n` |
| Sandbox.UniversalNewlinesConcat | agent/agent.py:159 | the translation of two texts joined is the two translations joined, unless the cut splits a `\r\n` pair |
| Sandbox.WriteNodes | agent/agent.py:193-196 | after a write the path is a file whose size is the UTF-8 length of the content and whose text reads back as the content with universal newlines; every missing ancestor is a new directory, and every old node is kept |
| Sandbox.WriteKeepsTree | agent/agent.py:193-196 | a write that is not blocked keeps the file system a well-formed tree |
| Sandbox.Truncate | agent/agent.py:110-113 | text within 1 000 000 characters is untouched; longer text keeps its first 1 000 000 characters and ends with the marker |
| Sandbox.TruncateBounds | agent/agent.py:161-162 | truncated text is never longer than the limit plus the marker, and it is empty exactly when the input is |
| Agent.Failure | agent/agent.py:122-128 | a failure has status failed, exit code 1, the message as error and no output |
| Agent.ShellOutcome | agent/agent.py:92-128 | a timeout gives status timeout, exit code -1 and its message. An exit gives truncated output (and stderr, or none when empty), status completed exactly when the exit code is 0, and the exit code. A spawn failure gives its message |
| Agent.ExecuteShell | agent/agent.py:66-128 | no working directory runs the command in the agent's own directory. A working directory that fails to resolve raises and runs nothing. A disallowed one is refused without running anything. An allowed one runs the command in the resolved directory with the given timeout |
| Agent.ReadFile | agent/agent.py:131-176 | the read completes exactly when the path resolves, is allowed, is a file and can be read; the output is the truncated text; every other case fails with exit code 1 |
| Agent.WriteFile | agent/agent.py:179-210 | the write completes exactly when the path resolves, is allowed and the operating system raises nothing; it then reports the length and the resolved path; a failed write changes nothing |
| Agent.ReadAfterWrite | agent/agent.py:159-196 | reading back a file just written gives its content with universal newlines, truncated like any read; content without a carriage return reads back exactly |
| Agent.WriteTouchesOnlyItsPath | agent/agent.py:193-196 | a write changes only the file and its new parent directories |
| Agent.SortedNames | agent/agent.py:242 | the children in strictly increasing order, each exactly once |
| Agent.EntryKind | agent/agent.py:244 | the kind column is `dir` exactly for a directory, and `file` for anything else |
| Agent.EntrySize | agent/agent.py:245-248 | the size column is the `stat` size of a file, and 0 for anything else or when `stat` fails |
| Agent.EntryLine | agent/agent.py:243-248 | a line starts with its kind column and a tab, and ends with a tab and the name |
| Agent.EntryLineFields | agent/agent.py:243-248 | splitting a line at its tabs gives back kind, size and name, whenever the name holds no tab |
| Agent.EntryLineOneLine | agent/agent.py:248-252 | a line holds a newline only where its name does |
| Agent.EntryLines | agent/agent.py:241-248 | one line per name, in the given order |
| Agent.ListingShape | agent/agent.py:213-254 | a completed listing names an existing directory; its output is the newline join of one line per child, in sorted order |
| Agent.ListingReadsBack | agent/agent.py:241-252 | the listing of a non-empty directory whose names hold no newline splits back, at its newlines, into exactly the sorted entry lines |
| Agent.ListDir | agent/agent.py:213-262 | `list_dir` checks, in order, that the path resolves, is allowed, exists and is a directory, then lists the sorted entries |
| Agent.SortedEntries | agent/agent.py:241-248 | the loop's lines are the entry lines of the children in sorted order |
| Agent.ResultMessage | agent/agent.py:291-295 | the reply has type `result`, the request's id, and the handler's status, output, error and exit code |
| Agent.ResultStatusReadBack | agent/agent.py:291-295 | the relay reads the status of a reply back as the status the handler chose |
| Agent.HandledShape | agent/agent.py:265-295 | every handled command gives a `result` message with the request's id; an unknown type fails with `Unknown command type:` |
| Agent.HandleCommand | agent/agent.py:265-295 | routing by command type with the handlers' defaults: command `""`, timeout 60, path `""`, content `""` |
| Agent.RepliesPerExecute | agent/agent.py:326-335 | the loop answers only `execute` messages: reply k is a `result` message with the id of the k-th `execute` message, and the loop runs to the end exactly when every `execute` message got its reply |
| Agent.RepliesWithinRoom | agent/agent.py:326-335 | no more replies are sent than the transport has room for, and a loop that stops on a failed send has used up exactly that room |
| Agent.RelayLink.Send | agent/agent.py:331 | a send succeeds exactly while the transport has room left, and only then is the message appended |
| Agent.ConnectAndRun | agent/agent.py:300-338 | the file system, the replies sent and the ending are those of `Dispatch` over the link's room: the messages are answered in order, and the loop ends when they run out, when a handler raises, or at the first reply the transport can no longer carry |

## Left out

- Persistence: SQLite is a map from id to row kept in memory. Writes are atomic and immediate. The `NOT NULL` on `status` and an unparsable stored status are not modelled; an unknown status text is kept as `Unrecognised`.
- Transport: the MCP/SSE layer, JSON encoding and websocket framing are left out. Messages are values, and JSON `null` and an absent key are treated alike. A websocket is a budget of messages (`capacity`): every send succeeds until the budget is spent and every later send raises, which covers a connection that drops at any point. A transport that fails once and then recovers is not modelled, since a dropped websocket does not recover.
- Concurrency: the `asyncio.sleep(0.5)` between polls is left out. The rows each poll read sees are a parameter (`rowAt`), which lets the result handler's interleaving be arbitrary. Relay.Relay.ExecuteCommand runs its steps as one block, so it does not show the lost update of server/server.py:160-178: when the agent's result is committed between the send and the `UPDATE ... running`, that update resets the finished row to running and the poll then times out.
- Time and randomness: clock readings are natural-number parameters (`now`); recovery takes one reading per row, a function `clock` from id to reading, and the id from `secrets.token_urlsafe(12)` is a parameter that must not already be in the table.
- Relay.Relay.ExecuteCommand: the poll's elapsed time is not modelled, only its number of reads.
- `compare_digest`: its constant timing is ignored; only its result and its `TypeError` on non-ASCII text are modelled. What the web framework does with an exception that escapes a handler (a closed socket, an HTTP 500) is not modelled beyond the `Raised` and `ServerError` verdicts.
- The `ipaddress` parser: it is a parameter (`parse`). The IPv4-mapped form of the loopback address, which newer Python versions count as loopback, is not modelled.
- Relay.Relay.GetCommands: a `limit` query parameter that is not an integer (a server error in the code) is not modelled; the limit arrives already parsed.
- `health`, `list_tools`, `call_tool` and the MCP server wiring only forward to `execute_command` or report `IsAgentConnected`, so they are not modelled separately.
- The agent's ping task, `ping_interval`, the reconnect loop of `main` with its 5-second delay, and process start-up are left out. The model treats one connection's message loop.
- The subprocess is an oracle (`ShellCall -> ShellRun`); the shell program, `stdin=DEVNULL` and killing a process on timeout are not modelled. The timeout is passed through as a number, and a `null` timeout (no limit in `wait_for`) is not singled out.
- UTF-8 decoding with replacement is part of the oracles: file text and process output arrive already decoded.
- `expanduser().resolve()` is an oracle on path text. The allowed roots do not go through it (as in the code), so a system where `/tmp` is a symbolic link is modelled as the code behaves.
- Agent.WriteFile: when the operating system raises part way through, the directories `mkdir` may already have created are not modelled; a failed write leaves the file system unchanged. `Written N bytes` counts characters, as `len(content)` does in the code.
- Logging (`log`, `log_error` and the relay's logger) has no effect on state and is left out.
