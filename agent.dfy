/** The agent daemon: its four command handlers over the abstract file system and a
    shell oracle, the routing of a command message to its handler, and the loop that
    answers the relay's messages. */
module Agent {
  import opened Base
  import opened Text
  import opened Wire
  import opened Sandbox

  /** The dictionary a handler returns: status, output (`None` when the key is absent),
      error and exit code. */
  datatype Outcome = Outcome(status: Status, output: Option<string>, error: Option<string>, exitCode: int)

  /** The shape every refusal and caught exception takes. */
  function Failure(message: string): (o: Outcome)
    ensures o.status == Failed && o.exitCode == 1 && o.error == Some(message) && o.output.None?
  {
    Outcome(Failed, None, Some(message), 1)
  }

  /** A subprocess the agent starts: the command, its working directory (`None`: the
      agent's own) and the timeout it waits. */
  datatype ShellCall = ShellCall(command: string, cwd: Option<Path>, timeout: int)

  /** What running a subprocess comes to: it exits with its decoded output streams and
      return code, it outlives the timeout and is killed, or it cannot be started. */
  datatype ShellRun =
    | Exited(stdout: string, stderr: string, returnCode: int)
    | TimedOut
    | SpawnFailed(message: string)

  /** `execute_shell`'s result, and the subprocess it started, if any. */
  datatype ShellStep = ShellStep(result: Attempt<Outcome>, spawned: Option<ShellCall>)

  /** The result of `execute_shell` once its subprocess has run. */
  function ShellOutcome(run: ShellRun, timeout: int): (o: Outcome)
    ensures run.TimedOut? ==>
              o.status == Timeout && o.exitCode == -1 && o.output.None? &&
              o.error == Some("Command timed out after " + IntToString(timeout) + " seconds")
    ensures run.Exited? ==>
              (o.status == Completed <==> run.returnCode == 0) &&
              (o.status == Failed <==> run.returnCode != 0) &&
              o.exitCode == run.returnCode &&
              o.output == Some(Truncate(run.stdout, OutputMarker)) &&
              (o.error.None? <==> run.stderr == "") &&
              (o.error.Some? ==> o.error.value == Truncate(run.stderr, ErrorMarker))
    ensures run.SpawnFailed? ==> o == Failure(run.message)
  {
    match run
    case TimedOut =>
      Outcome(Timeout, None, Some("Command timed out after " + IntToString(timeout) + " seconds"), -1)
    case SpawnFailed(message) =>
      Failure(message)
    case Exited(stdout, stderr, code) =>
      TruncateBounds(stderr, ErrorMarker);
      var output := Truncate(stdout, OutputMarker);
      var error := Truncate(stderr, ErrorMarker);
      Outcome(if code == 0 then Completed else Failed, Some(output), if error != "" then Some(error) else None, code)
  }

  /** `execute_shell`. A non-empty working directory is resolved first, outside the
      exception handler, so a resolution error escapes to the caller; a directory that
      is not allowed is refused without starting anything. Otherwise the command runs
      through `shell` in that directory (or in the agent's own). */
  function ExecuteShell(fs: FileSystem, command: string, workingDir: Option<string>, timeout: int,
                        shell: ShellCall -> ShellRun): (r: ShellStep)
    ensures workingDir.GetOr("") == "" ==>
              r.spawned == Some(ShellCall(command, None, timeout))
    ensures workingDir.GetOr("") != "" && fs.resolve(workingDir.value).Raises? ==>
              r.result == Raises(fs.resolve(workingDir.value).message) && r.spawned.None?
    ensures workingDir.GetOr("") != "" && fs.resolve(workingDir.value).Ok? &&
            !IsPathAllowed(fs, PathString(fs.resolve(workingDir.value).value)) ==>
              r.result == Ok(Failure("Working directory not allowed: " + workingDir.value)) && r.spawned.None?
    ensures workingDir.GetOr("") != "" && fs.resolve(workingDir.value).Ok? &&
            IsPathAllowed(fs, PathString(fs.resolve(workingDir.value).value)) ==>
              r.spawned == Some(ShellCall(command, Some(fs.resolve(workingDir.value).value), timeout))
    ensures r.spawned.Some? ==>
              r.spawned.value.command == command && r.spawned.value.timeout == timeout &&
              r.result == Ok(ShellOutcome(shell(r.spawned.value), timeout)) &&
              (r.spawned.value.cwd.Some? ==> IsPathAllowed(fs, PathString(r.spawned.value.cwd.value)))
    ensures r.result.Raises? ==> r.spawned.None?
  {
    if workingDir.GetOr("") != "" then
      match fs.resolve(workingDir.value)
      case Raises(message) => ShellStep(Raises(message), None)
      case Ok(cwd) =>
        if !IsPathAllowed(fs, PathString(cwd)) then
          ShellStep(Ok(Failure("Working directory not allowed: " + workingDir.value)), None)
        else
          var call := ShellCall(command, Some(cwd), timeout);
          ShellStep(Ok(ShellOutcome(shell(call), timeout)), Some(call))
    else
      var call := ShellCall(command, None, timeout);
      ShellStep(Ok(ShellOutcome(shell(call), timeout)), Some(call))
  }

  /** `read_file`: resolve (an exception becomes a failure with its text), then the
      checks in order (allowed, exists, is a file), then the text, truncated. */
  function ReadFile(fs: FileSystem, pathStr: string): (o: Outcome)
    ensures fs.resolve(pathStr).Raises? ==> o == Failure(fs.resolve(pathStr).message)
    ensures fs.resolve(pathStr).Ok? ==>
              var p := fs.resolve(pathStr).value;
              (!IsPathAllowed(fs, PathString(p)) ==> o == Failure("Path not allowed: " + pathStr)) &&
              (IsPathAllowed(fs, PathString(p)) && p !in fs.nodes ==> o == Failure("File not found: " + pathStr)) &&
              (IsPathAllowed(fs, PathString(p)) && p in fs.nodes && !fs.nodes[p].File? ==>
                 o == Failure("Not a file: " + pathStr))
    ensures o.status == Completed <==>
              fs.resolve(pathStr).Ok? && IsPathAllowed(fs, PathString(fs.resolve(pathStr).value)) &&
              fs.resolve(pathStr).value in fs.nodes && fs.nodes[fs.resolve(pathStr).value].File? &&
              fs.nodes[fs.resolve(pathStr).value].text.Ok?
    ensures o.status == Completed ==>
              o == Outcome(Completed, Some(Truncate(fs.nodes[fs.resolve(pathStr).value].text.value, ContentMarker)), None, 0)
    ensures o.status != Completed ==> o.status == Failed && o.exitCode == 1
  {
    match fs.resolve(pathStr)
    case Raises(message) => Failure(message)
    case Ok(p) =>
      if !IsPathAllowed(fs, PathString(p)) then Failure("Path not allowed: " + pathStr)
      else if p !in fs.nodes then Failure("File not found: " + pathStr)
      else if !fs.nodes[p].File? then Failure("Not a file: " + pathStr)
      else match fs.nodes[p].text
        case Raises(message) => Failure(message)
        case Ok(text) => Outcome(Completed, Some(Truncate(text, ContentMarker)), None, 0)
  }

  /** The operating system's answer to creating the parent directories of a path and
      writing it: the text of the exception raised, if any. */
  type Faults = (map<Path, Node>, Path) -> Option<string>

  /** A write the tree itself rules out always raises. */
  ghost predicate FaultsCover(fault: Faults)
  {
    forall nodes, p :: Blocked(nodes, p) ==> fault(nodes, p).Some?
  }

  datatype WriteStep = WriteStep(outcome: Outcome, fs: FileSystem)

  /** `write_file`: resolve, check the path is allowed, create the missing parents and
      write. Nothing is written when any step fails; on success the output counts the
      characters of the content and names the resolved path. */
  function WriteFile(fs: FileSystem, pathStr: string, content: string, fault: Faults): (w: WriteStep)
    requires FaultsCover(fault)
    ensures w.outcome.status == Completed <==>
              fs.resolve(pathStr).Ok? && IsPathAllowed(fs, PathString(fs.resolve(pathStr).value)) &&
              fault(fs.nodes, fs.resolve(pathStr).value).None?
    ensures w.outcome.status != Completed ==> w.fs == fs && w.outcome.status == Failed && w.outcome.exitCode == 1
    ensures fs.resolve(pathStr).Ok? && !IsPathAllowed(fs, PathString(fs.resolve(pathStr).value)) ==>
              w.outcome == Failure("Path not allowed: " + pathStr)
    ensures w.outcome.status == Completed ==>
              var p := fs.resolve(pathStr).value;
              w.outcome == Outcome(Completed, Some("Written " + IntToString(|content|) + " bytes to " + PathString(p)), None, 0) &&
              w.fs == fs.(nodes := WriteNodes(fs.nodes, p, content)) &&
              !Blocked(fs.nodes, p)
  {
    match fs.resolve(pathStr)
    case Raises(message) => WriteStep(Failure(message), fs)
    case Ok(p) =>
      if !IsPathAllowed(fs, PathString(p)) then WriteStep(Failure("Path not allowed: " + pathStr), fs)
      else match fault(fs.nodes, p)
        case Some(message) => WriteStep(Failure(message), fs)
        case None =>
          WriteStep(Outcome(Completed, Some("Written " + IntToString(|content|) + " bytes to " + PathString(p)), None, 0),
                    fs.(nodes := WriteNodes(fs.nodes, p, content)))
  }

  /** Reading back a file just written gives its content with universal newlines
      (truncated like any read): exactly the content when it holds no carriage return. */
  lemma ReadAfterWrite(fs: FileSystem, pathStr: string, content: string, fault: Faults)
    requires FaultsCover(fault)
    requires WriteFile(fs, pathStr, content, fault).outcome.status == Completed
    ensures ReadFile(WriteFile(fs, pathStr, content, fault).fs, pathStr) ==
            Outcome(Completed, Some(Truncate(UniversalNewlines(content), ContentMarker)), None, 0)
    ensures '\r' !in content ==>
              ReadFile(WriteFile(fs, pathStr, content, fault).fs, pathStr) ==
              Outcome(Completed, Some(Truncate(content, ContentMarker)), None, 0)
  {
    var fs' := WriteFile(fs, pathStr, content, fault).fs;
    assert fs'.resolve == fs.resolve && fs'.home == fs.home;
    assert IsPathAllowed(fs', PathString(fs.resolve(pathStr).value));
  }

  /** A successful write changes no other node than the file and its new parents, and
      keeps the tree well formed. */
  lemma WriteTouchesOnlyItsPath(fs: FileSystem, pathStr: string, content: string, fault: Faults)
    requires FaultsCover(fault) && IsTree(fs.nodes)
    requires WriteFile(fs, pathStr, content, fault).outcome.status == Completed
    ensures var w := WriteFile(fs, pathStr, content, fault);
            var p := fs.resolve(pathStr).value;
            (forall q :: q in fs.nodes && q != p ==> q in w.fs.nodes && w.fs.nodes[q] == fs.nodes[q]) &&
            (forall q :: q in w.fs.nodes && q !in fs.nodes && q != p ==> IsPrefix(q, p)) &&
            IsTree(w.fs.nodes)
  {
    var p := fs.resolve(pathStr).value;
    assert p != [] by {
      assert fs.nodes[[]].Directory?;
      assert Blocked(fs.nodes, []);
    }
    WriteKeepsTree(fs.nodes, p, content);
  }

  /** The ordered sequence of a set of names, smallest first under `<` on strings. */
  ghost function SortedNames(names: set<string>): (r: seq<string>)
    ensures |r| == |names|
    ensures forall x :: x in r <==> x in names
    ensures forall a, b :: 0 <= a < b < |r| ==> LexLess(r[a], r[b])
    decreases |names|
  {
    if names == {} then []
    else
      LeastStringExists(names);
      var m :| m in names && forall x :: x in names && x != m ==> LexLess(m, x);
      var rest := SortedNames(names - {m});
      SortedCons(names, m, rest);
      [m] + rest
  }

  /** Putting the least name in front of the sorted others sorts them all. */
  lemma SortedCons(names: set<string>, m: string, rest: seq<string>)
    requires m in names && forall x :: x in names && x != m ==> LexLess(m, x)
    requires |rest| == |names - {m}| && forall x :: x in rest <==> x in names - {m}
    requires forall a, b :: 0 <= a < b < |rest| ==> LexLess(rest[a], rest[b])
    ensures var r := [m] + rest;
            |r| == |names| && (forall x :: x in r <==> x in names) &&
            (forall a, b :: 0 <= a < b < |r| ==> LexLess(r[a], r[b]))
  {
    var r := [m] + rest;
    forall a, b | 0 <= a < b < |r|
      ensures LexLess(r[a], r[b])
    {
      assert r[b] == rest[b - 1];
      if a > 0 {
        assert r[a] == rest[a - 1];
      } else {
        assert rest[b - 1] in rest;
      }
    }
  }

  /** The least name is the first one, whichever way it was found. */
  lemma SortedNamesHead(names: set<string>, m: string)
    requires m in names && forall x :: x in names && x != m ==> LexLess(m, x)
    ensures SortedNames(names) == [m] + SortedNames(names - {m})
  {
    var r := SortedNames(names);
    var first := r[0];
    if first != m {
      assert LexLess(m, first);
      assert LexLess(first, m) by {
        var k :| 0 <= k < |r| && r[k] == m;
        assert k != 0;
      }
      LexLessTransitive(m, first, m);
      LexLessIrreflexive(m);
    }
  }

  /** The first column of a listing line: only a directory reads `dir`. */
  function EntryKind(node: Node): (kind: string)
    ensures kind == "dir" <==> node.Directory?
    ensures kind == "file" <==> !node.Directory?
  {
    if node.Directory? then "dir" else "file"
  }

  /** The second column: a file's size, or 0 for anything else or when `stat` fails. */
  function EntrySize(node: Node): (size: nat)
    ensures node.File? && node.size.Ok? ==> size == node.size.value
    ensures !(node.File? && node.size.Ok?) ==> size == 0
  {
    if node.File? && node.size.Ok? then node.size.value else 0
  }

  /** `"{dir|file}\t{size}\t{name}"` for one child. */
  function EntryLine(node: Node, name: string): (line: string)
    ensures StartsWith(line, EntryKind(node) + "\t")
    ensures EndsWith(line, "\t" + name)
  {
    var kind := EntryKind(node);
    var line := kind + "\t" + IntToString(EntrySize(node)) + "\t" + name;
    assert line == (kind + "\t") + (IntToString(EntrySize(node)) + "\t" + name);
    assert line == (kind + "\t" + IntToString(EntrySize(node))) + ("\t" + name);
    line
  }

  /** Splitting a line at its tabs gives back its three columns, whenever the name holds
      no tab. */
  lemma EntryLineFields(node: Node, name: string)
    requires '\t' !in name
    ensures Split(EntryLine(node, name), '\t') == [EntryKind(node), IntToString(EntrySize(node)), name]
  {
    var kind, size := EntryKind(node), IntToString(EntrySize(node));
    var parts := [kind, size, name];
    assert '\t' !in size;
    assert forall k :: 0 <= k < |parts| ==> '\t' !in parts[k];
    assert parts[1..] == [size, name] && parts[1..][1..] == [name];
    assert Join([size, name], "\t") == size + "\t" + name;
    assert Join(parts, "\t") == kind + "\t" + (size + "\t" + name);
    SeqAssoc(kind + "\t", size, "\t");
    SeqAssoc(kind + "\t", size + "\t", name);
    assert EntryLine(node, name) == Join(parts, "\t");
    SplitJoin(parts, '\t');
  }

  /** A listing line holds a newline only where its name does. */
  lemma EntryLineOneLine(node: Node, name: string)
    requires '\n' !in name
    ensures '\n' !in EntryLine(node, name)
  {
    var kind, size := EntryKind(node), IntToString(EntrySize(node));
    assert '\n' !in size;
    assert EntryLine(node, name) == kind + "\t" + size + "\t" + name;
  }

  /** The lines for the children `names` of `p`, in that order. */
  function EntryLines(nodes: map<Path, Node>, p: Path, names: seq<string>): (lines: seq<string>)
    requires forall k :: 0 <= k < |names| ==> p + [names[k]] in nodes
    ensures |lines| == |names|
    ensures forall k :: 0 <= k < |names| ==> lines[k] == EntryLine(nodes[p + [names[k]]], names[k])
  {
    seq(|names|, k requires 0 <= k < |names| => EntryLine(nodes[p + [names[k]]], names[k]))
  }

  /** The lines for all the children of `p`, in sorted order. */
  ghost function SortedLines(nodes: map<Path, Node>, p: Path): (lines: seq<string>)
    ensures |lines| == |ChildNames(nodes, p)|
  {
    EntryLines(nodes, p, SortedNames(ChildNames(nodes, p)))
  }

  /** What `list_dir` returns: the guards in order (allowed, exists, is a directory),
      then one line per direct child of the directory, in sorted order, joined by
      newlines. */
  ghost function ListDirSpec(fs: FileSystem, pathStr: string): (o: Outcome)
  {
    match fs.resolve(pathStr)
    case Raises(message) => Failure(message)
    case Ok(p) =>
      if !IsPathAllowed(fs, PathString(p)) then Failure("Path not allowed: " + pathStr)
      else if p !in fs.nodes then Failure("Directory not found: " + pathStr)
      else if !fs.nodes[p].Directory? then Failure("Not a directory: " + pathStr)
      else match fs.nodes[p].listError
        case Some(message) => Failure(message)
        case None =>
          Outcome(Completed, Some(Join(SortedLines(fs.nodes, p), "\n")), None, 0)
  }

  /** A successful listing has one line per direct child, children in increasing name
      order, each line naming its child. */
  lemma ListingShape(fs: FileSystem, pathStr: string)
    requires ListDirSpec(fs, pathStr).status == Completed
    ensures fs.resolve(pathStr).Ok? && fs.resolve(pathStr).value in fs.nodes
    ensures var p := fs.resolve(pathStr).value;
            var names := SortedNames(ChildNames(fs.nodes, p));
            var lines := EntryLines(fs.nodes, p, names);
            fs.nodes[p].Directory? &&
            ListDirSpec(fs, pathStr).output == Some(Join(lines, "\n")) &&
            |lines| == |ChildNames(fs.nodes, p)| &&
            (forall k :: 0 <= k < |names| ==> p + [names[k]] in fs.nodes && EndsWith(lines[k], "\t" + names[k])) &&
            (forall a, b :: 0 <= a < b < |names| ==> LexLess(names[a], names[b]))
  {
  }

  /** The listing of a non-empty directory whose names hold no newline splits back, at
      its newlines, into exactly its lines. */
  lemma ListingReadsBack(fs: FileSystem, pathStr: string)
    requires ListDirSpec(fs, pathStr).status == Completed
    requires fs.resolve(pathStr).Ok?
    requires ChildNames(fs.nodes, fs.resolve(pathStr).value) != {}
    requires forall n :: n in ChildNames(fs.nodes, fs.resolve(pathStr).value) ==> '\n' !in n
    ensures Split(ListDirSpec(fs, pathStr).output.GetOr(""), '\n') == SortedLines(fs.nodes, fs.resolve(pathStr).value)
  {
    ListingShape(fs, pathStr);
    var p := fs.resolve(pathStr).value;
    var names := SortedNames(ChildNames(fs.nodes, p));
    var lines := EntryLines(fs.nodes, p, names);
    forall k | 0 <= k < |lines|
      ensures '\n' !in lines[k]
    {
      assert names[k] in ChildNames(fs.nodes, p);
      EntryLineOneLine(fs.nodes[p + [names[k]]], names[k]);
    }
    assert |lines| >= 1;
    SplitJoin(lines, '\n');
  }

  /** `list_dir`: the guards, then the entries built one by one in sorted order. */
  method ListDir(fs: FileSystem, pathStr: string) returns (o: Outcome)
    ensures o == ListDirSpec(fs, pathStr)
  {
    var resolved := fs.resolve(pathStr);
    if resolved.Raises? {
      return Failure(resolved.message);
    }
    var p := resolved.value;
    if !IsPathAllowed(fs, PathString(p)) {
      return Failure("Path not allowed: " + pathStr);
    }
    if p !in fs.nodes {
      return Failure("Directory not found: " + pathStr);
    }
    if !fs.nodes[p].Directory? {
      return Failure("Not a directory: " + pathStr);
    }
    if fs.nodes[p].listError.Some? {
      return Failure(fs.nodes[p].listError.value);
    }
    var entries := SortedEntries(fs.nodes, p);
    o := Outcome(Completed, Some(Join(entries, "\n")), None, 0);
  }

  /** The `entries` loop of `list_dir`: the children of `p` taken in sorted order, one
      line each. */
  method SortedEntries(nodes: map<Path, Node>, p: Path) returns (entries: seq<string>)
    ensures entries == EntryLines(nodes, p, SortedNames(ChildNames(nodes, p)))
  {
    var children := ChildNames(nodes, p);
    var remaining := children;
    entries := [];
    ghost var listed: seq<string> := [];
    ListingStart(nodes, p);
    while remaining != {}
      invariant ListingProgress(nodes, p, children, remaining, listed, entries)
      decreases |remaining|
    {
      LeastStringExists(remaining);
      var name :| name in remaining && forall x :: x in remaining && x != name ==> LexLess(name, x);
      ListingStep(nodes, p, children, remaining, listed, entries, name);
      entries := entries + [EntryLine(nodes[p + [name]], name)];
      listed := listed + [name];
      remaining := remaining - {name};
    }
    ListingDone(nodes, p, children, listed, entries);
  }

  lemma ListingStart(nodes: map<Path, Node>, p: Path)
    ensures ListingProgress(nodes, p, ChildNames(nodes, p), ChildNames(nodes, p), [], [])
  {
    assert [] + SortedNames(ChildNames(nodes, p)) == SortedNames(ChildNames(nodes, p));
  }

  lemma ListingDone(nodes: map<Path, Node>, p: Path, children: set<string>, listed: seq<string>, entries: seq<string>)
    requires ListingProgress(nodes, p, children, {}, listed, entries)
    ensures entries == EntryLines(nodes, p, SortedNames(ChildNames(nodes, p)))
  {
    assert listed + [] == listed;
  }

  /** The state of the `entries` loop: `listed` are the children taken so far, in
      order, `entries` their lines, and the rest of the sorted children are those of
      `remaining`. */
  ghost predicate ListingProgress(nodes: map<Path, Node>, p: Path, children: set<string>,
                                  remaining: set<string>, listed: seq<string>, entries: seq<string>)
  {
    children == ChildNames(nodes, p) &&
    remaining <= children &&
    (forall k :: 0 <= k < |listed| ==> p + [listed[k]] in nodes) &&
    SortedNames(children) == listed + SortedNames(remaining) &&
    entries == EntryLines(nodes, p, listed)
  }

  lemma ListingStep(nodes: map<Path, Node>, p: Path, children: set<string>, remaining: set<string>,
                    listed: seq<string>, entries: seq<string>, name: string)
    requires ListingProgress(nodes, p, children, remaining, listed, entries)
    requires name in remaining && forall x :: x in remaining && x != name ==> LexLess(name, x)
    ensures p + [name] in nodes
    ensures ListingProgress(nodes, p, children, remaining - {name}, listed + [name],
                            entries + [EntryLine(nodes[p + [name]], name)])
  {
    SortedStep(children, remaining, listed, name);
    EntryLinesSnoc(nodes, p, listed, name);
  }

  lemma SortedStep(all: set<string>, remaining: set<string>, listed: seq<string>, name: string)
    requires SortedNames(all) == listed + SortedNames(remaining)
    requires name in remaining && forall x :: x in remaining && x != name ==> LexLess(name, x)
    ensures SortedNames(all) == (listed + [name]) + SortedNames(remaining - {name})
  {
    SortedNamesHead(remaining, name);
    SeqAssoc(listed, [name], SortedNames(remaining - {name}));
  }

  lemma EntryLinesSnoc(nodes: map<Path, Node>, p: Path, names: seq<string>, name: string)
    requires forall k :: 0 <= k < |names| ==> p + [names[k]] in nodes
    requires p + [name] in nodes
    ensures forall k :: 0 <= k < |names + [name]| ==> p + [(names + [name])[k]] in nodes
    ensures EntryLines(nodes, p, names + [name]) == EntryLines(nodes, p, names) + [EntryLine(nodes[p + [name]], name)]
  {
    assert (names + [name])[..|names|] == names;
  }

  /** The result message `handle_command` sends back: type `result`, the request's id,
      and the handler's keys. */
  function ResultMessage(id: Option<string>, o: Outcome): (m: ToRelay)
    ensures m.msgType == Some("result") && m.reply.id == id
    ensures m.reply.output == o.output && m.reply.error == o.error && m.reply.exitCode == Some(o.exitCode)
  {
    ToRelay(Some("result"), Reply(id, Some(StatusName(o.status)), o.output, o.error, Some(o.exitCode)))
  }

  /** The relay, reading the status text of a result message back (`"completed"` when
      it is absent), recovers the handler's status. */
  lemma ResultStatusReadBack(id: Option<string>, o: Outcome)
    requires IsCanonical(o.status)
    ensures ParseStatus(ResultMessage(id, o).reply.status.GetOr("completed")) == o.status
  {
    StatusRoundTrip(o.status);
  }

  /** What handling one command message comes to: the message to send back, or the
      exception that escaped, and the file system afterwards. */
  datatype Handled = Handled(reply: Attempt<ToRelay>, fs: FileSystem)

  /** `handle_command`: routing by `command_type`, with the defaults of the handler
      arguments, and the handler's result tagged with the request's id. */
  ghost function HandleSpec(fs: FileSystem, req: Request, shell: ShellCall -> ShellRun, fault: Faults): (h: Handled)
    requires FaultsCover(fault)
  {
    match ParseKind(req.commandType)
    case Some(ShellCommand) =>
      var step := ExecuteShell(fs, req.command.GetOr(""), req.workingDir, req.timeout.GetOr(60), shell);
      (match step.result
       case Raises(message) => Handled(Raises(message), fs)
       case Ok(o) => Handled(Ok(ResultMessage(req.id, o)), fs))
    case Some(ReadFileCommand) =>
      Handled(Ok(ResultMessage(req.id, ReadFile(fs, req.path.GetOr("")))), fs)
    case Some(WriteFileCommand) =>
      var w := WriteFile(fs, req.path.GetOr(""), req.content.GetOr(""), fault);
      Handled(Ok(ResultMessage(req.id, w.outcome)), w.fs)
    case Some(ListDirCommand) =>
      Handled(Ok(ResultMessage(req.id, ListDirSpec(fs, req.path.GetOr("")))), fs)
    case None =>
      Handled(Ok(ResultMessage(req.id, Failure("Unknown command type: " + req.commandType.GetOr("None")))), fs)
  }

  /** Every answer is a `result` message carrying the request's id; an unknown type is
      refused with exit code 1; only a write changes the file system, and only a shell
      command can let an exception escape. */
  lemma HandledShape(fs: FileSystem, req: Request, shell: ShellCall -> ShellRun, fault: Faults)
    requires FaultsCover(fault)
    ensures var h := HandleSpec(fs, req, shell, fault);
            (h.reply.Ok? ==> h.reply.value.msgType == Some("result") && h.reply.value.reply.id == req.id) &&
            (ParseKind(req.commandType).None? ==>
               h.reply == Ok(ResultMessage(req.id, Failure("Unknown command type: " + req.commandType.GetOr("None")))) &&
               h.reply.value.reply.exitCode == Some(1) && h.reply.value.reply.status == Some("failed")) &&
            (ParseKind(req.commandType) != Some(WriteFileCommand) ==> h.fs == fs) &&
            (h.reply.Raises? ==> ParseKind(req.commandType) == Some(ShellCommand))
  {
  }

  /** `handle_command` as the agent runs it. */
  method HandleCommand(fs: FileSystem, req: Request, shell: ShellCall -> ShellRun, fault: Faults) returns (h: Handled)
    requires FaultsCover(fault)
    ensures h == HandleSpec(fs, req, shell, fault)
  {
    var kind := ParseKind(req.commandType);
    if kind == Some(ListDirCommand) {
      var o := ListDir(fs, req.path.GetOr(""));
      h := Handled(Ok(ResultMessage(req.id, o)), fs);
    } else if kind == Some(ShellCommand) {
      var step := ExecuteShell(fs, req.command.GetOr(""), req.workingDir, req.timeout.GetOr(60), shell);
      h := match step.result
        case Raises(message) => Handled(Raises(message), fs)
        case Ok(o) => Handled(Ok(ResultMessage(req.id, o)), fs);
    } else if kind == Some(ReadFileCommand) {
      h := Handled(Ok(ResultMessage(req.id, ReadFile(fs, req.path.GetOr("")))), fs);
    } else if kind == Some(WriteFileCommand) {
      var w := WriteFile(fs, req.path.GetOr(""), req.content.GetOr(""), fault);
      h := Handled(Ok(ResultMessage(req.id, w.outcome)), w.fs);
    } else {
      h := Handled(Ok(ResultMessage(req.id, Failure("Unknown command type: " + req.commandType.GetOr("None")))), fs);
    }
  }

  /** The agent's end of the websocket: what it has sent, and whether the transport is
      gone (then `send` raises). */
  class RelayLink {
    var sent: seq<ToRelay>
    const capacity: nat

    constructor (capacity: nat)
      ensures sent == [] && this.capacity == capacity
    {
      sent := [];
      this.capacity := capacity;
    }

    /** How many more messages the transport carries. */
    function Room(): nat
      reads this
    {
      if |sent| < capacity then capacity - |sent| else 0
    }

    /** `ws.send`: it succeeds while the transport has room, and only then is the
        message appended. */
    method Send(m: ToRelay) returns (ok: bool)
      modifies this
      ensures ok <==> old(Room()) > 0
      ensures sent == if ok then old(sent) + [m] else old(sent)
    {
      ok := |sent| < capacity;
      if ok {
        sent := sent + [m];
      }
    }
  }

  /** How the message loop ends: the messages ran out, an exception escaped a handler,
      or a reply could not be sent. */
  datatype Ending = Exhausted | Escaped(message: string) | SendFailed

  datatype Run = Run(fs: FileSystem, replies: seq<ToRelay>, ending: Ending)

  /** The message loop of `connect_and_run` over `messages` on a transport with room
      for `room` more messages: an `execute` message is handled and its answer sent;
      `pong` and every other type are passed over. */
  ghost function Dispatch(fs: FileSystem, messages: seq<ToAgent>, shell: ShellCall -> ShellRun, fault: Faults,
                          room: nat): Run
    requires FaultsCover(fault)
    decreases |messages|
  {
    if messages == [] then Run(fs, [], Exhausted)
    else if messages[0].msgType != Some("execute") then Dispatch(fs, messages[1..], shell, fault, room)
    else
      var h := HandleSpec(fs, messages[0].request, shell, fault);
      match h.reply
      case Raises(message) => Run(h.fs, [], Escaped(message))
      case Ok(reply) =>
        if room == 0 then Run(h.fs, [], SendFailed)
        else
          var rest := Dispatch(h.fs, messages[1..], shell, fault, room - 1);
          Run(rest.fs, [reply] + rest.replies, rest.ending)
  }

  /** The requests of the `execute` messages among `messages`, in order. */
  function Executes(messages: seq<ToAgent>): (r: seq<Request>)
    ensures |r| <= |messages|
  {
    if messages == [] then []
    else if messages[0].msgType == Some("execute") then [messages[0].request] + Executes(messages[1..])
    else Executes(messages[1..])
  }

  /** Only `execute` messages are answered, in order, each with exactly one `result`
      message carrying its id: all of them when the loop runs to the end, fewer when it
      stops early. */
  lemma {:induction false} RepliesPerExecute(fs: FileSystem, messages: seq<ToAgent>, shell: ShellCall -> ShellRun,
                                             fault: Faults, room: nat)
    requires FaultsCover(fault)
    ensures var run := Dispatch(fs, messages, shell, fault, room);
            |run.replies| <= |Executes(messages)| &&
            (run.ending == Exhausted <==> |run.replies| == |Executes(messages)|) &&
            (forall k :: 0 <= k < |run.replies| ==>
               run.replies[k].msgType == Some("result") && run.replies[k].reply.id == Executes(messages)[k].id)
    decreases |messages|
  {
    if messages != [] {
      if messages[0].msgType != Some("execute") {
        RepliesPerExecute(fs, messages[1..], shell, fault, room);
      } else {
        var h := HandleSpec(fs, messages[0].request, shell, fault);
        HandledShape(fs, messages[0].request, shell, fault);
        if h.reply.Ok? && room > 0 {
          RepliesPerExecute(h.fs, messages[1..], shell, fault, room - 1);
          var rest := Dispatch(h.fs, messages[1..], shell, fault, room - 1);
          RepliesInOrder(h.reply.value, rest.replies, messages[0].request, Executes(messages[1..]));
        }
      }
    }
  }

  /** No more replies are sent than the transport has room for, and the loop stops on
      a failed send exactly when that room is used up and another reply is due. */
  lemma {:induction false} RepliesWithinRoom(fs: FileSystem, messages: seq<ToAgent>, shell: ShellCall -> ShellRun,
                                             fault: Faults, room: nat)
    requires FaultsCover(fault)
    ensures var run := Dispatch(fs, messages, shell, fault, room);
            |run.replies| <= room && (run.ending == SendFailed ==> |run.replies| == room)
    decreases |messages|
  {
    if messages != [] {
      if messages[0].msgType != Some("execute") {
        RepliesWithinRoom(fs, messages[1..], shell, fault, room);
      } else {
        var h := HandleSpec(fs, messages[0].request, shell, fault);
        if h.reply.Ok? && room > 0 {
          RepliesWithinRoom(h.fs, messages[1..], shell, fault, room - 1);
        }
      }
    }
  }

  /** A reply to `req` in front of replies matching `reqs` one for one matches
      `[req] + reqs`. */
  lemma RepliesInOrder(reply: ToRelay, replies: seq<ToRelay>, req: Request, reqs: seq<Request>)
    requires reply.msgType == Some("result") && reply.reply.id == req.id && |replies| <= |reqs|
    requires forall k :: 0 <= k < |replies| ==>
               replies[k].msgType == Some("result") && replies[k].reply.id == reqs[k].id
    ensures var all, sent := [req] + reqs, [reply] + replies;
            forall k :: 0 <= k < |sent| ==> sent[k].msgType == Some("result") && sent[k].reply.id == all[k].id
  {
    var all, sent := [req] + reqs, [reply] + replies;
    forall k | 0 <= k < |sent|
      ensures sent[k].msgType == Some("result") && sent[k].reply.id == all[k].id
    {
      if k > 0 {
        assert sent[k] == replies[k - 1] && all[k] == reqs[k - 1];
      }
    }
  }

  /** `run` preceded by replies already sent. */
  function After(done: seq<ToRelay>, run: Run): Run
  {
    Run(run.fs, done + run.replies, run.ending)
  }

  /** `connect_and_run` once connected: the messages are answered in order on `link`
      and the file system is threaded through the handlers. */
  method ConnectAndRun(link: RelayLink, fs: FileSystem, messages: seq<ToAgent>,
                       shell: ShellCall -> ShellRun, fault: Faults)
    returns (fs': FileSystem, ending: Ending)
    requires FaultsCover(fault)
    modifies link
    ensures var run := Dispatch(fs, messages, shell, fault, old(link.Room()));
            fs' == run.fs && ending == run.ending && link.sent == old(link.sent) + run.replies
  {
    fs' := fs;
    ghost var done: seq<ToRelay> := [];
    var i := 0;
    while i < |messages|
      invariant i <= |messages|
      invariant link.sent == old(link.sent) + done
      invariant Dispatch(fs, messages, shell, fault, old(link.Room())) ==
                After(done, Dispatch(fs', messages[i..], shell, fault, link.Room()))
      decreases |messages| - i
    {
      assert messages[i..][1..] == messages[i + 1..];
      var m := messages[i];
      if m.msgType == Some("execute") {
        var h := HandleCommand(fs', m.request, shell, fault);
        fs' := h.fs;
        if h.reply.Raises? {
          return fs', Escaped(h.reply.message);
        }
        var ok := link.Send(h.reply.value);
        if !ok {
          return fs', SendFailed;
        }
        SeqAssoc(old(link.sent), done, [h.reply.value]);
        SeqAssoc(done, [h.reply.value], Dispatch(fs', messages[i + 1..], shell, fault, link.Room()).replies);
        done := done + [h.reply.value];
      }
      i := i + 1;
    }
    ending := Exhausted;
  }
}
