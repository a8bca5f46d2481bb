/** The relay server's state: the `commands` table (an id-keyed map of rows), the
    single-slot connection manager for the agent's websocket, command submission with
    its bounded poll, recovery of pending rows when an agent connects, the handling of
    the agent's result messages, and the listing endpoint. */
module Relay {
  import opened Base
  import opened Text
  import opened Wire
  import opened RelayRules

  /** One row of the `commands` table. The id is the key under which the store keeps it;
      the timestamps are abstract clock readings. */
  datatype CommandRecord = CommandRecord(
    kind: string,
    status: Status,
    command: Option<string>,
    path: Option<string>,
    content: Option<string>,
    workingDir: Option<string>,
    timeout: int,
    output: Option<string>,
    error: Option<string>,
    exitCode: Option<int>,
    createdAt: nat,
    startedAt: Option<nat>,
    completedAt: Option<nat>)

  type Store = map<string, CommandRecord>

  /** The keyword arguments a tool call passes to `execute_command`. */
  datatype Payload = Payload(
    command: Option<string>,
    path: Option<string>,
    content: Option<string>,
    workingDir: Option<string>)

  /** The row `execute_command` inserts: pending, with the payload, the timeout and the
      creation time, and every result column NULL. */
  function NewRecord(kind: string, timeout: int, p: Payload, now: nat): (r: CommandRecord)
    ensures r.status == Pending && r.kind == kind && r.timeout == timeout && r.createdAt == now
    ensures r.command == p.command && r.path == p.path && r.content == p.content && r.workingDir == p.workingDir
    ensures r.output.None? && r.error.None? && r.exitCode.None?
    ensures r.startedAt.None? && r.completedAt.None?
  {
    CommandRecord(kind, Pending, p.command, p.path, p.content, p.workingDir, timeout,
                  None, None, None, now, None, None)
  }

  /** The `command_data` dictionary that is sent for a command (it has no id yet): the
      type, the four payload fields and the timeout. */
  function CommandData(kind: string, p: Payload, timeout: int): (d: Request)
    ensures d.id.None? && d.commandType == Some(kind) && d.timeout == Some(timeout)
    ensures d.command == p.command && d.path == p.path && d.content == p.content && d.workingDir == p.workingDir
  {
    Request(None, Some(kind), p.command, p.path, p.content, p.workingDir, Some(timeout))
  }

  /** The `command_data` built from a stored row during recovery: the row's type,
      payload columns and timeout. */
  function RowData(r: CommandRecord): (d: Request)
    ensures d.id.None? && d.commandType == Some(r.kind) && d.timeout == Some(r.timeout)
    ensures d.command == r.command && d.path == r.path && d.content == r.content && d.workingDir == r.workingDir
  {
    CommandData(r.kind, Payload(r.command, r.path, r.content, r.workingDir), r.timeout)
  }

  /** Recovery resends a row with the very data its submission sent. */
  lemma RecoveryResendsSubmission(kind: string, timeout: int, p: Payload, now: nat)
    ensures RowData(NewRecord(kind, timeout, p, now)) == CommandData(kind, p, timeout)
  {
  }

  /** `{"type": "execute", "id": id, **data}`. */
  function ExecuteMessage(id: string, data: Request): (m: ToAgent)
    ensures m.msgType == Some("execute") && m.request.id == Some(id)
    ensures m.request.(id := data.id) == data
  {
    ToAgent(Some("execute"), data.(id := Some(id)))
  }

  /** The agent's websocket as the relay sees it: what has been sent on it, and how
      many messages in all the transport carries before it drops; every `send_json`
      after that raises. */
  class AgentSocket {
    var sent: seq<ToAgent>
    const capacity: nat

    constructor (capacity: nat)
      ensures sent == [] && this.capacity == capacity
    {
      sent := [];
      this.capacity := capacity;
    }

    /** How many more messages the transport carries. */
    function Room(): nat
      reads this
    {
      if |sent| < capacity then capacity - |sent| else 0
    }

    /** `send_json`: it succeeds while the transport has room, and only then is the
        message appended. */
    method SendJson(m: ToAgent) returns (ok: bool)
      modifies this
      ensures ok <==> old(Room()) > 0
      ensures sent == if ok then old(sent) + [m] else old(sent)
    {
      ok := |sent| < capacity;
      if ok {
        sent := sent + [m];
      }
    }
  }

  /** A transport whose room was `room` before `t` more messages went out on it has
      `room - |t|` left. */
  lemma RoomAfterSends<M>(before: seq<M>, t: seq<M>, capacity: nat, room: nat)
    requires room == (if |before| < capacity then capacity - |before| else 0) && |t| <= room
    ensures (if |before + t| < capacity then capacity - |before + t| else 0) == room - |t|
  {
  }

  /** `ConnectionManager`: one optional agent connection. */
  class ConnectionManager {
    var agent: AgentSocket?

    constructor ()
      ensures agent == null
    {
      agent := null;
    }

    /** A new connection replaces whatever was in the slot. */
    method ConnectAgent(ws: AgentSocket)
      modifies this
      ensures agent == ws && IsAgentConnected()
    {
      agent := ws;
    }

    /** Empties the slot, whichever connection holds it. */
    method DisconnectAgent()
      modifies this
      ensures agent == null && !IsAgentConnected()
    {
      agent := null;
    }

    /** `is_agent_connected`: some connection holds the slot. */
    predicate IsAgentConnected()
      reads this
    {
      agent != null
    }

    /** `send_command`: false without a connection or when the transport fails;
        otherwise the execute message with the id has been sent. */
    method SendCommand(commandId: string, data: Request) returns (ok: bool)
      modifies agent
      ensures agent == old(agent)
      ensures ok <==> agent != null && old(agent.Room()) > 0
      ensures agent != null ==>
                agent.sent == if ok then old(agent.sent) + [ExecuteMessage(commandId, data)] else old(agent.sent)
    {
      if agent == null {
        return false;
      }
      ok := agent.SendJson(ExecuteMessage(commandId, data));
    }
  }

  /** A row the poll reads counts as finished when it exists and is terminal. */
  predicate Finished(row: Option<CommandRecord>)
  {
    row.Some? && IsTerminal(row.value.status)
  }

  /** The first finished row among the reads `rowAt(i)`, ..., `rowAt(bound - 1)`. */
  function FirstFinished(rowAt: nat -> Option<CommandRecord>, i: nat, bound: nat): Option<CommandRecord>
    decreases bound - i
  {
    if i >= bound then None
    else if Finished(rowAt(i)) then rowAt(i)
    else FirstFinished(rowAt, i + 1, bound)
  }

  /** The text `execute_command` returns once its poll has ended with `found`: never
      empty and never padded with space; the timeout message when nothing was found,
      and otherwise the finished row's stripped text, or the no-output reply when that
      text is blank. */
  function PollReply(found: Option<CommandRecord>): (r: string)
    ensures r != [] && !IsSpace(r[0]) && !IsSpace(r[|r| - 1])
    ensures found == None ==> r == PollTimeoutReply
    ensures found.Some? ==>
              var raw := RawResultText(found.value.output, found.value.error, found.value.exitCode);
              r == if AllSpace(raw) then NoOutputReply else Strip(raw)
  {
    match found
    case Some(r) => ResultText(r.output, r.error, r.exitCode)
    case None => PollTimeoutReply
  }

  /** With no finished row among the reads below `bound` the poll finds nothing. */
  lemma {:induction false} PollTimesOut(rowAt: nat -> Option<CommandRecord>, i: nat, bound: nat)
    requires forall j: nat :: i <= j < bound ==> !Finished(rowAt(j))
    ensures FirstFinished(rowAt, i, bound) == None
    decreases bound - i
  {
    if i < bound {
      PollTimesOut(rowAt, i + 1, bound);
    }
  }

  /** The first finished row within the bound is the one the poll finds. */
  lemma {:induction false} PollFindsFirst(rowAt: nat -> Option<CommandRecord>, i: nat, k: nat, bound: nat)
    requires i <= k < bound && Finished(rowAt(k))
    requires forall j: nat :: i <= j < k ==> !Finished(rowAt(j))
    ensures FirstFinished(rowAt, i, bound) == rowAt(k)
    decreases k - i
  {
    if i < k {
      PollFindsFirst(rowAt, i + 1, k, bound);
    }
  }

  /** The poll loop of `execute_command`: at most `bound` reads, stopping at the first
      finished row, which it returns. `rowAt(j)` is the row the `j`-th read returns (the
      result handler runs between reads and may have changed it). */
  method PollResult(rowAt: nat -> Option<CommandRecord>, bound: nat) returns (found: Option<CommandRecord>, polls: nat)
    ensures found == FirstFinished(rowAt, 0, bound)
    ensures polls <= bound
    ensures forall j: nat :: j + 1 < polls ==> !Finished(rowAt(j))
    ensures found.None? ==> polls == bound
    ensures found.Some? ==> polls > 0 && Finished(rowAt(polls - 1)) && found == rowAt(polls - 1)
  {
    polls := 0;
    while polls < bound
      invariant polls <= bound
      invariant forall j: nat :: j < polls ==> !Finished(rowAt(j))
    {
      var row := rowAt(polls);
      if Finished(row) {
        PollFindsFirst(rowAt, 0, polls, bound);
        found := row;
        polls := polls + 1;
        return;
      }
      polls := polls + 1;
    }
    PollTimesOut(rowAt, 0, bound);
    found := None;
  }

  /** The ids of the pending rows. */
  function PendingIds(st: Store): (ids: set<string>)
    ensures forall id :: id in ids <==> id in st && st[id].status == Pending
  {
    set id | id in st && st[id].status == Pending
  }

  /** The store after every row in `ids` has been marked running, each at the clock
      reading `clock(id)` taken for it. */
  function MarkRunning(st: Store, ids: set<string>, clock: string -> nat): (st': Store)
    ensures st'.Keys == st.Keys
    ensures forall id :: id in st && id in ids ==> st'[id] == st[id].(status := Running, startedAt := Some(clock(id)))
    ensures forall id :: id in st && id !in ids ==> st'[id] == st[id]
  {
    map id | id in st :: if id in ids then st[id].(status := Running, startedAt := Some(clock(id))) else st[id]
  }

  /** The execute messages recovery sends for `ids`, in order. */
  function RecoveryMessages(st: Store, ids: seq<string>): seq<ToAgent>
    requires forall k :: 0 <= k < |ids| ==> ids[k] in st
  {
    if ids == [] then []
    else RecoveryMessages(st, ids[..|ids| - 1]) + [ExecuteMessage(ids[|ids| - 1], RowData(st[ids[|ids| - 1]]))]
  }

  lemma RecoveryMessagesSnoc(st: Store, ids: seq<string>, id: string)
    requires forall k :: 0 <= k < |ids| ==> ids[k] in st
    requires id in st
    ensures RecoveryMessages(st, ids + [id]) == RecoveryMessages(st, ids) + [ExecuteMessage(id, RowData(st[id]))]
  {
    assert (ids + [id])[..|ids|] == ids;
  }

  lemma MarkRunningStep(st: Store, done: set<string>, id: string, clock: string -> nat)
    requires id in st
    ensures MarkRunning(st, done + {id}, clock) ==
            MarkRunning(st, done, clock)[id := st[id].(status := Running, startedAt := Some(clock(id)))]
  {
  }

  /** `ids` lists rows of `st` without repetition in ascending creation order. */
  predicate AscendingByCreation(st: Store, ids: seq<string>)
  {
    (forall k :: 0 <= k < |ids| ==> ids[k] in st) &&
    (forall a, b :: 0 <= a < b < |ids| ==> ids[a] != ids[b]) &&
    (forall a, b :: 0 <= a < b < |ids| ==> st[ids[a]].createdAt <= st[ids[b]].createdAt)
  }

  /** Bookkeeping of the recovery loop: `sent` lists, each once, exactly the ids of
      `pending` that are no longer `remaining`. */
  predicate Tracked(pending: set<string>, remaining: set<string>, sent: seq<string>)
  {
    remaining <= pending &&
    (forall k :: 0 <= k < |sent| ==> sent[k] in pending && sent[k] !in remaining) &&
    (forall id :: id in pending && id !in remaining ==> id in sent) &&
    |sent| + |remaining| == |pending|
  }

  lemma TrackedStep(pending: set<string>, remaining: set<string>, sent: seq<string>, next: string)
    requires Tracked(pending, remaining, sent) && next in remaining
    ensures Tracked(pending, remaining - {next}, sent + [next])
  {
    var sent' := sent + [next];
    assert forall k :: 0 <= k < |sent| ==> sent'[k] == sent[k];
  }

  /** The ids sent so far ascend by creation and none is newer than a row still to send. */
  predicate OldestFirstSoFar(rows: Store, sent: seq<string>, remaining: set<string>)
  {
    remaining <= rows.Keys &&
    AscendingByCreation(rows, sent) &&
    (forall k, x :: 0 <= k < |sent| && x in remaining ==> rows[sent[k]].createdAt <= rows[x].createdAt)
  }

  lemma OldestFirstStep(rows: Store, sent: seq<string>, remaining: set<string>, next: string)
    requires OldestFirstSoFar(rows, sent, remaining) && remaining <= rows.Keys
    requires forall k :: 0 <= k < |sent| ==> sent[k] !in remaining
    requires next in remaining && forall x :: x in remaining ==> rows[next].createdAt <= rows[x].createdAt
    ensures OldestFirstSoFar(rows, sent + [next], remaining - {next})
  {
    var sent' := sent + [next];
    assert forall k :: 0 <= k < |sent| ==> sent'[k] == sent[k];
  }

  /** Every finite non-empty set of rows has an oldest one. */
  lemma {:induction false} OldestExists(st: Store, ids: set<string>)
    requires ids != {} && ids <= st.Keys
    ensures exists m :: m in ids && forall x :: x in ids ==> st[m].createdAt <= st[x].createdAt
    decreases |ids|
  {
    var y :| y in ids;
    var rest := ids - {y};
    if rest == {} {
      assert ids == {y};
    } else {
      OldestExists(st, rest);
      var m :| m in rest && forall x :: x in rest ==> st[m].createdAt <= st[x].createdAt;
      if st[y].createdAt <= st[m].createdAt {
        assert forall x :: x in ids ==> st[y].createdAt <= st[x].createdAt;
      } else {
        assert forall x :: x in ids ==> st[m].createdAt <= st[x].createdAt;
      }
    }
  }

  /** Every finite non-empty set of rows has a newest one. */
  lemma {:induction false} NewestExists(st: Store, ids: set<string>)
    requires ids != {} && ids <= st.Keys
    ensures exists m :: m in ids && forall x :: x in ids ==> st[x].createdAt <= st[m].createdAt
    decreases |ids|
  {
    var y :| y in ids;
    var rest := ids - {y};
    if rest == {} {
      assert ids == {y};
    } else {
      NewestExists(st, rest);
      var m :| m in rest && forall x :: x in rest ==> st[x].createdAt <= st[m].createdAt;
      if st[m].createdAt <= st[y].createdAt {
        assert forall x :: x in ids ==> st[x].createdAt <= st[y].createdAt;
      } else {
        assert forall x :: x in ids ==> st[x].createdAt <= st[m].createdAt;
      }
    }
  }

  /** Recovery leaves no pending row, so a second recovery finds nothing to send. */
  lemma RecoveryLeavesNothingPending(st: Store, clock: string -> nat)
    ensures PendingIds(MarkRunning(st, PendingIds(st), clock)) == {}
  {
  }

  /** The store effect of one result message: the row whose id matches takes the
      message's status (`"completed"` when absent), output, error, exit code and the
      completion time. Nothing guards terminal rows. An id that matches no row changes
      nothing. */
  function ApplyResult(st: Store, reply: Reply, now: nat): (st': Store)
    ensures st'.Keys == st.Keys
    ensures forall id :: id in st && Some(id) != reply.id ==> st'[id] == st[id]
    ensures reply.id.Some? && reply.id.value in st ==>
              var r := st'[reply.id.value];
              r.status == ParseStatus(reply.status.GetOr("completed")) &&
              r.output == reply.output && r.error == reply.error && r.exitCode == reply.exitCode &&
              r.completedAt == Some(now) &&
              r.(status := Pending, output := None, error := None, exitCode := None, completedAt := None) ==
              st[reply.id.value].(status := Pending, output := None, error := None, exitCode := None, completedAt := None)
  {
    match reply.id
    case Some(id) =>
      if id in st then
        st[id := st[id].(status := ParseStatus(reply.status.GetOr("completed")),
                         output := reply.output, error := reply.error,
                         exitCode := reply.exitCode, completedAt := Some(now))]
      else st
    case None => st
  }

  /** A result for a row that is already terminal still overwrites it: a late `failed`
      result turns a completed row into a failed one. */
  lemma TerminalRowsAreOverwritten(st: Store, id: string, now: nat)
    requires id in st && st[id].status == Completed
    ensures ApplyResult(st, Reply(Some(id), Some("failed"), None, Some("late"), Some(1)), now)[id].status == Failed
  {
  }

  /** A message the relay receives from the agent, with the clock reading when it
      was handled. */
  datatype Inbound = Inbound(message: ToRelay, at: nat)

  predicate IsResult(f: Inbound) { f.message.msgType == Some("result") }
  predicate IsPing(f: Inbound) { f.message.msgType == Some("ping") }

  /** The store after the result messages among `frames` have been applied in order;
      pings and other messages leave it alone. */
  function ApplyFrames(st: Store, frames: seq<Inbound>): Store
  {
    if frames == [] then st
    else
      var last := frames[|frames| - 1];
      var before := ApplyFrames(st, frames[..|frames| - 1]);
      if IsResult(last) then ApplyResult(before, last.message.reply, last.at) else before
  }

  /** One pong for every ping among `frames`. */
  function PongsFor(frames: seq<Inbound>): seq<ToAgent>
  {
    if frames == [] then []
    else PongsFor(frames[..|frames| - 1]) + (if IsPing(frames[|frames| - 1]) then [Pong] else [])
  }

  /** Result messages only ever touch the row their id names. */
  lemma {:induction false} FramesTouchOnlyNamedRows(st: Store, frames: seq<Inbound>, id: string)
    requires id in st
    requires forall k :: 0 <= k < |frames| && IsResult(frames[k]) ==> frames[k].message.reply.id != Some(id)
    ensures id in ApplyFrames(st, frames) && ApplyFrames(st, frames)[id] == st[id]
    decreases |frames|
  {
    if frames != [] {
      var init := frames[..|frames| - 1];
      assert forall k :: 0 <= k < |init| ==> init[k] == frames[k];
      FramesTouchOnlyNamedRows(st, init, id);
    }
  }

  /** The columns `get_commands` returns for a row. */
  datatype CommandSummary = CommandSummary(
    id: string,
    kind: string,
    status: Status,
    command: Option<string>,
    path: Option<string>,
    output: Option<string>,
    error: Option<string>,
    exitCode: Option<int>,
    createdAt: nat)

  function Summarize(id: string, r: CommandRecord): (s: CommandSummary)
    ensures s.id == id && s.createdAt == r.createdAt && s.status == r.status
    ensures s.kind == r.kind && s.command == r.command && s.path == r.path
    ensures s.output == CapOutput(r.output) && s.error == r.error && s.exitCode == r.exitCode
  {
    CommandSummary(id, r.kind, r.status, r.command, r.path, CapOutput(r.output), r.error, r.exitCode, r.createdAt)
  }

  datatype ListResponse = Unauthorized | ServerError(message: string) | Rows(items: seq<CommandSummary>)

  /** How many rows `LIMIT limit` yields from a table of `n` rows: SQLite reads a
      negative limit as no limit. */
  function ListLength(n: nat, limit: int): (k: nat)
    ensures k <= n
    ensures limit < 0 ==> k == n
    ensures 0 <= limit ==> k == (if limit < n then limit else n)
  {
    if limit < 0 || n <= limit then n else limit
  }

  /** `items` are summaries of rows of `st`, each row at most once, newest first, and
      every row left out is no newer than the last one listed. */
  predicate NewestFirstListing(st: Store, items: seq<CommandSummary>)
  {
    (forall k :: 0 <= k < |items| ==> items[k].id in st && items[k] == Summarize(items[k].id, st[items[k].id])) &&
    (forall a, b :: 0 <= a < b < |items| ==> items[a].id != items[b].id) &&
    (forall a, b :: 0 <= a < b < |items| ==> items[b].createdAt <= items[a].createdAt) &&
    (forall id :: id in st && (forall k :: 0 <= k < |items| ==> items[k].id != id) && items != [] ==>
       st[id].createdAt <= items[|items| - 1].createdAt)
  }

  /** Bookkeeping of the listing loop: `items` summarises, newest first and each once,
      the rows of `st` that are no longer `remaining`, and none of those is newer. */
  predicate ListedSoFar(st: Store, items: seq<CommandSummary>, remaining: set<string>)
  {
    ListedRows(st, items, remaining) && ListedNewestFirst(st, items, remaining)
  }

  predicate ListedRows(st: Store, items: seq<CommandSummary>, remaining: set<string>)
  {
    remaining <= st.Keys &&
    |items| + |remaining| == |st| &&
    (forall k :: 0 <= k < |items| ==> items[k].id in st && items[k].id !in remaining &&
                                      items[k] == Summarize(items[k].id, st[items[k].id])) &&
    (forall id :: id in st && id !in remaining ==> exists k :: 0 <= k < |items| && items[k].id == id)
  }

  predicate ListedNewestFirst(st: Store, items: seq<CommandSummary>, remaining: set<string>)
    requires remaining <= st.Keys
  {
    (forall a, b :: 0 <= a < b < |items| ==> items[a].id != items[b].id) &&
    (forall a, b :: 0 <= a < b < |items| ==> items[b].createdAt <= items[a].createdAt) &&
    (forall k, x :: 0 <= k < |items| && x in remaining ==> st[x].createdAt <= items[k].createdAt)
  }

  lemma ListedRowsStep(st: Store, items: seq<CommandSummary>, remaining: set<string>, next: string)
    requires ListedRows(st, items, remaining) && next in remaining
    ensures ListedRows(st, items + [Summarize(next, st[next])], remaining - {next})
  {
    var items' := items + [Summarize(next, st[next])];
    var remaining' := remaining - {next};
    assert forall k :: 0 <= k < |items| ==> items'[k] == items[k];
    forall id | id in st && id !in remaining'
      ensures exists k :: 0 <= k < |items'| && items'[k].id == id
    {
      if id == next {
        assert items'[|items|].id == id;
      } else {
        var k :| 0 <= k < |items| && items[k].id == id;
        assert items'[k].id == id;
      }
    }
  }

  lemma ListedNewestFirstStep(st: Store, items: seq<CommandSummary>, remaining: set<string>, next: string)
    requires remaining <= st.Keys && ListedNewestFirst(st, items, remaining)
    requires forall k :: 0 <= k < |items| ==> items[k].id !in remaining
    requires next in remaining && forall x :: x in remaining ==> st[x].createdAt <= st[next].createdAt
    ensures ListedNewestFirst(st, items + [Summarize(next, st[next])], remaining - {next})
  {
    var items' := items + [Summarize(next, st[next])];
    assert forall k :: 0 <= k < |items| ==> items'[k] == items[k];
  }

  lemma ListedStep(st: Store, items: seq<CommandSummary>, remaining: set<string>, next: string)
    requires ListedSoFar(st, items, remaining)
    requires next in remaining && forall x :: x in remaining ==> st[x].createdAt <= st[next].createdAt
    ensures ListedSoFar(st, items + [Summarize(next, st[next])], remaining - {next})
  {
    ListedRowsStep(st, items, remaining, next);
    ListedNewestFirstStep(st, items, remaining, next);
  }

  lemma ListedIsListing(st: Store, items: seq<CommandSummary>, remaining: set<string>)
    requires ListedSoFar(st, items, remaining)
    ensures NewestFirstListing(st, items)
  {
    forall id | id in st && (forall k :: 0 <= k < |items| ==> items[k].id != id) && items != []
      ensures st[id].createdAt <= items[|items| - 1].createdAt
    {
      assert id in remaining;
    }
  }

  /** The relay process: the `commands` table, the connection manager and the
      configured secret. */
  class Relay {
    var store: Store
    const manager: ConnectionManager
    const authToken: string

    constructor (authToken: string)
      ensures store == map[] && fresh(manager) && manager.agent == null && this.authToken == authToken
    {
      store := map[];
      manager := new ConnectionManager();
      this.authToken := authToken;
    }

    /** `execute_command`. Without an agent it returns the not-connected error and inserts
        nothing. Otherwise it inserts a pending row under the fresh id and sends it; when
        the send fails the row stays pending and the send error is returned; when it
        succeeds the row becomes running at `startedAt` and the poll's text is returned. */
    method ExecuteCommand(kind: string, timeout: int, p: Payload, freshId: string, now: nat, startedAt: nat,
                          rowAt: nat -> Option<CommandRecord>) returns (reply: string)
      requires freshId !in store
      modifies this, manager.agent
      ensures manager.agent == old(manager.agent)
      ensures old(manager.agent) == null ==> reply == NotConnectedReply && store == old(store)
      ensures old(manager.agent) != null ==>
                var ws := manager.agent;
                (old(ws.Room()) == 0 ==>
                   ws.sent == old(ws.sent) && reply == SendFailedReply &&
                   store == old(store)[freshId := NewRecord(kind, timeout, p, now)]) &&
                (old(ws.Room()) > 0 ==>
                   ws.sent == old(ws.sent) + [ExecuteMessage(freshId, CommandData(kind, p, timeout))] &&
                   store == old(store)[freshId := NewRecord(kind, timeout, p, now).(status := Running, startedAt := Some(startedAt))] &&
                   reply == PollReply(FirstFinished(rowAt, 0, PollBound(timeout))))
    {
      if !manager.IsAgentConnected() {
        return NotConnectedReply;
      }
      store := store[freshId := NewRecord(kind, timeout, p, now)];
      var success := manager.SendCommand(freshId, CommandData(kind, p, timeout));
      if !success {
        return SendFailedReply;
      }
      store := store[freshId := store[freshId].(status := Running, startedAt := Some(startedAt))];
      var found, polls := PollResult(rowAt, PollBound(timeout));
      reply := PollReply(found);
    }

    /** One step of recovery: the row as read at the start is sent and marked running. */
    method RecoverOne(rows: Store, id: string, now: nat)
      requires id in rows
      modifies this, manager.agent
      ensures manager.agent == old(manager.agent)
      ensures store == old(store)[id := rows[id].(status := Running, startedAt := Some(now))]
      ensures manager.agent != null ==>
                manager.agent.sent == old(manager.agent.sent) +
                  (if old(manager.agent.Room()) > 0 then [ExecuteMessage(id, RowData(rows[id]))] else [])
    {
      var _ := manager.SendCommand(id, RowData(rows[id]));
      store := store[id := rows[id].(status := Running, startedAt := Some(now))];
    }

    /** Recovery when an agent connects: every pending row, oldest first, is sent on the
        current connection and marked running at its own clock reading, whether or not
        the send succeeded. A transport that drops part way carries only the first
        messages. */
    method RecoverPending(clock: string -> nat) returns (sentIds: seq<string>)
      modifies this, manager.agent
      ensures manager.agent == old(manager.agent)
      ensures AscendingByCreation(old(store), sentIds)
      ensures forall id :: id in PendingIds(old(store)) <==> id in sentIds
      ensures |sentIds| == |PendingIds(old(store))|
      ensures store == MarkRunning(old(store), PendingIds(old(store)), clock)
      ensures PendingIds(store) == {}
      ensures manager.agent != null ==>
                manager.agent.sent == old(manager.agent.sent) +
                  Take(RecoveryMessages(old(store), sentIds), old(manager.agent.Room())) &&
                manager.agent.Room() == old(manager.agent.Room()) -
                  |Take(RecoveryMessages(old(store), sentIds), old(manager.agent.Room()))|
    {
      var rows := store;
      var pending := PendingIds(rows);
      var remaining := pending;
      ghost var ws := manager.agent;
      ghost var before := if ws != null then ws.sent else [];
      ghost var room := if ws != null then ws.Room() else 0;
      sentIds := [];
      while remaining != {}
        invariant manager.agent == ws
        invariant RecoveryInvariant(rows, pending, remaining, sentIds, clock, ws, before, room)
        decreases |remaining|
      {
        OldestExists(rows, remaining);
        var next :| next in remaining && forall x :: x in remaining ==> rows[next].createdAt <= rows[x].createdAt;
        RecoverStep(rows, pending, remaining, sentIds, next, clock, ws, before, room);
        sentIds := sentIds + [next];
        remaining := remaining - {next};
      }
      RecoveryDone(rows, pending, remaining, sentIds, clock, ws, before, room);
    }

    /** When no row remains, the recovery loop has sent every pending row and left the
        connection with the room it had less the messages sent. */
    lemma RecoveryDone(rows: Store, pending: set<string>, remaining: set<string>, sentIds: seq<string>,
                       clock: string -> nat, ws: AgentSocket?, before: seq<ToAgent>, room: nat)
      requires pending == PendingIds(rows) && remaining == {}
      requires RecoveryInvariant(rows, pending, remaining, sentIds, clock, ws, before, room)
      ensures AscendingByCreation(rows, sentIds)
      ensures forall id :: id in pending <==> id in sentIds
      ensures |sentIds| == |pending|
      ensures store == MarkRunning(rows, pending, clock)
      ensures PendingIds(store) == {}
      ensures ws != null ==>
                ws.sent == before + Take(RecoveryMessages(rows, sentIds), room) &&
                ws.Room() == room - |Take(RecoveryMessages(rows, sentIds), room)|
    {
      assert pending - remaining == pending;
      RecoveryLeavesNothingPending(rows, clock);
      if ws != null {
        RoomAfterSends(before, Take(RecoveryMessages(rows, sentIds), room), ws.capacity, room);
      }
    }

    /** The state of the recovery loop over the rows `rows` read at its start: the ids
        sent so far are tracked and oldest first, the store has them marked running, and
        the connection has received as many of their messages as its room allowed. */
    ghost predicate RecoveryInvariant(rows: Store, pending: set<string>, remaining: set<string>,
                                      sentIds: seq<string>, clock: string -> nat, ws: AgentSocket?,
                                      before: seq<ToAgent>, room: nat)
      reads this, ws
    {
      Tracked(pending, remaining, sentIds) &&
      OldestFirstSoFar(rows, sentIds, remaining) &&
      store == MarkRunning(rows, pending - remaining, clock) &&
      (ws != null ==>
         room == (if |before| < ws.capacity then ws.capacity - |before| else 0) &&
         ws.sent == before + Take(RecoveryMessages(rows, sentIds), room))
    }

    /** One turn of the recovery loop: the oldest remaining row is sent and marked. */
    method RecoverStep(rows: Store, pending: set<string>, remaining: set<string>, sentIds: seq<string>,
                       next: string, clock: string -> nat, ghost ws: AgentSocket?, ghost before: seq<ToAgent>,
                       ghost room: nat)
      requires manager.agent == ws
      requires RecoveryInvariant(rows, pending, remaining, sentIds, clock, ws, before, room)
      requires next in remaining && forall x :: x in remaining ==> rows[next].createdAt <= rows[x].createdAt
      modifies this, manager.agent
      ensures manager.agent == ws
      ensures RecoveryInvariant(rows, pending, remaining - {next}, sentIds + [next], clock, ws, before, room)
    {
      RecoverOne(rows, next, clock(next));
      MarkRunningStep(rows, pending - remaining, next, clock);
      assert (pending - remaining) + {next} == pending - (remaining - {next});
      RecoveryMessagesSnoc(rows, sentIds, next);
      if ws != null {
        var msgs := RecoveryMessages(rows, sentIds);
        var m := ExecuteMessage(next, RowData(rows[next]));
        TakeSnoc(msgs, m, room);
        if |msgs| < room {
          SeqAssoc(before, Take(msgs, room), [m]);
        }
      }
      TrackedStep(pending, remaining, sentIds, next);
      OldestFirstStep(rows, sentIds, remaining, next);
    }

    /** The receive loop of `agent_websocket` over the messages `frames`: result messages
        update the store, pings are answered with a pong. A pong that cannot be sent ends
        the loop (the exception handler) before the remaining messages. */
    method ServeAgent(ws: AgentSocket, frames: seq<Inbound>) returns (handled: nat)
      modifies this, ws
      ensures handled <= |frames|
      ensures |PongsFor(frames[..handled])| <= old(ws.Room())
      ensures handled < |frames| ==> IsPing(frames[handled]) && |PongsFor(frames[..handled])| == old(ws.Room())
      ensures store == ApplyFrames(old(store), frames[..handled])
      ensures ws.sent == old(ws.sent) + PongsFor(frames[..handled])
    {
      handled := 0;
      while handled < |frames|
        invariant handled <= |frames|
        invariant store == ApplyFrames(old(store), frames[..handled])
        invariant |PongsFor(frames[..handled])| <= old(ws.Room())
        invariant ws.sent == old(ws.sent) + PongsFor(frames[..handled])
        invariant ws.Room() == old(ws.Room()) - |PongsFor(frames[..handled])|
      {
        var f := frames[handled];
        assert frames[..handled + 1][..handled] == frames[..handled];
        if f.message.msgType == Some("result") {
          store := ApplyResult(store, f.message.reply, f.at);
        } else if f.message.msgType == Some("ping") {
          var ok := ws.SendJson(Pong);
          if !ok {
            return;
          }
        }
        handled := handled + 1;
      }
      assert frames[..handled] == frames[..|frames|];
    }

    /** `agent_websocket`: the admission checks, then the new connection takes the slot,
        recovery runs, the messages are served, and the slot is emptied when the loop
        ends. A refused connection, or one whose token comparison raises, changes
        nothing. */
    method AgentWebsocket(ws: AgentSocket, requirePrivate: bool, forwarded: Option<string>,
                          clientHost: Option<string>, parse: string -> Option<IpAddress>,
                          token: Option<string>, clock: string -> nat, frames: seq<Inbound>)
      returns (admission: Admission, recovered: seq<string>, handled: nat)
      modifies this, manager, ws
      ensures admission == AdmitAgent(requirePrivate, forwarded, clientHost, parse, token, authToken)
      ensures !admission.Admitted? ==>
                store == old(store) && manager.agent == old(manager.agent) &&
                ws.sent == old(ws.sent) && recovered == [] && handled == 0
      ensures admission.Admitted? ==>
                manager.agent == null &&
                AscendingByCreation(old(store), recovered) &&
                (forall id :: id in PendingIds(old(store)) <==> id in recovered) &&
                handled <= |frames| &&
                store == ApplyFrames(MarkRunning(old(store), PendingIds(old(store)), clock), frames[..handled]) &&
                var resent := Take(RecoveryMessages(old(store), recovered), old(ws.Room()));
                var pongs := PongsFor(frames[..handled]);
                ws.sent == old(ws.sent) + resent + pongs &&
                |resent| + |pongs| <= old(ws.Room()) &&
                (handled < |frames| ==> IsPing(frames[handled]) && |resent| + |pongs| == old(ws.Room()))
    {
      admission := AdmitAgent(requirePrivate, forwarded, clientHost, parse, token, authToken);
      recovered, handled := [], 0;
      if !admission.Admitted? {
        return;
      }
      manager.ConnectAgent(ws);
      recovered := RecoverPending(clock);
      handled := ServeAgent(ws, frames);
      manager.DisconnectAgent();
    }

    /** `get_commands`: without the bearer token the answer is unauthorised, a token
        comparison that raises is a server error; otherwise
        the newest rows, as many as the limit allows (20 when none is given), with the
        output capped. */
    method GetCommands(authHeader: Option<string>, limitParam: Option<int>) returns (resp: ListResponse)
      ensures resp.Unauthorized? <==> Authorization(authHeader, authToken) == Ok(false)
      ensures resp.ServerError? <==> Authorization(authHeader, authToken).Raises?
      ensures resp.ServerError? ==> resp.message == Authorization(authHeader, authToken).message
      ensures resp.Rows? ==>
                |resp.items| == ListLength(|store|, limitParam.GetOr(20)) &&
                NewestFirstListing(store, resp.items)
    {
      match Authorization(authHeader, authToken) {
        case Raises(message) => return ServerError(message);
        case Ok(granted) => if !granted { return Unauthorized; }
      }
      var count := ListLength(|store|, limitParam.GetOr(20));
      var items: seq<CommandSummary> := [];
      var remaining := store.Keys;
      while |items| < count
        invariant |items| <= count
        invariant ListedSoFar(store, items, remaining)
        decreases count - |items|
      {
        assert remaining != {} by {
          assert |store.Keys| == |store|;
        }
        NewestExists(store, remaining);
        var next :| next in remaining && forall x :: x in remaining ==> store[x].createdAt <= store[next].createdAt;
        ListedStep(store, items, remaining, next);
        items := items + [Summarize(next, store[next])];
        remaining := remaining - {next};
      }
      ListedIsListing(store, items, remaining);
      resp := Rows(items);
    }
  }
}
