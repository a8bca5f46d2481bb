/** The agent's view of the machine: resolved paths as component lists, the
    allowed-roots confinement rule, an abstract file system, and the output
    truncation rule. */
module Sandbox {
  import opened Base
  import opened Text

  /** A resolved absolute path as its components: `/var/tmp` is `["var", "tmp"]` and
      `/` is `[]`. */
  type Path = seq<string>

  /** `str(path)` of a resolved path. */
  function PathString(p: Path): (s: string)
    ensures s != [] && s[0] == '/'
  {
    "/" + Join(p, "/")
  }

  /** `path.parents`: every proper ancestor, nearest first, ending with `/`. */
  function Parents(p: Path): (ps: seq<Path>)
    ensures |ps| == |p|
    ensures forall k :: 0 <= k < |p| ==> ps[k] == p[..|p| - 1 - k]
  {
    seq(|p|, k requires 0 <= k < |p| => p[..|p| - 1 - k])
  }

  predicate IsPrefix(a: Path, b: Path)
  {
    |a| <= |b| && b[..|a|] == a
  }

  /** `path == allowed or allowed in path.parents`. */
  predicate UnderRoot(p: Path, root: Path)
  {
    p == root || root in Parents(p)
  }

  /** Being under a root is having it as a component prefix. */
  lemma UnderRootIsPrefix(p: Path, root: Path)
    ensures UnderRoot(p, root) <==> IsPrefix(root, p)
  {
    var ps := Parents(p);
    if root in ps {
      var k :| 0 <= k < |ps| && ps[k] == root;
      assert root == p[..|p| - 1 - k];
    }
    if IsPrefix(root, p) && |root| < |p| {
      assert ps[|p| - 1 - |root|] == root;
    }
  }

  /** `ALLOWED_PATHS`: the home directory, `/tmp` and `/var/tmp`, as written (they are
      not resolved). */
  function AllowedRoots(home: Path): (roots: seq<Path>)
    ensures |roots| == 3 && roots[0] == home && roots[1] == ["tmp"] && roots[2] == ["var", "tmp"]
    ensures PathString(roots[1]) == "/tmp" && PathString(roots[2]) == "/var/tmp"
  {
    [home, ["tmp"], ["var", "tmp"]]
  }

  /** The `any(...)` of `is_path_allowed` over an already resolved path. */
  predicate AllowedResolved(roots: seq<Path>, p: Path)
  {
    exists i :: 0 <= i < |roots| && UnderRoot(p, roots[i])
  }

  /** A resolved path is allowed exactly when some root is a component prefix of it. */
  lemma AllowedResolvedIsPrefix(roots: seq<Path>, p: Path)
    ensures AllowedResolved(roots, p) <==> exists i :: 0 <= i < |roots| && IsPrefix(roots[i], p)
  {
    forall i | 0 <= i < |roots| {
      UnderRootIsPrefix(p, roots[i]);
    }
  }

  /** Everything below an allowed path is allowed too. */
  lemma AllowedBelow(roots: seq<Path>, p: Path, q: Path)
    requires AllowedResolved(roots, p) && IsPrefix(p, q)
    ensures AllowedResolved(roots, q)
  {
    AllowedResolvedIsPrefix(roots, p);
    AllowedResolvedIsPrefix(roots, q);
    var i :| 0 <= i < |roots| && IsPrefix(roots[i], p);
    assert q[..|roots[i]|] == p[..|roots[i]|];
  }

  /** Nothing outside the three roots is allowed: the root of the file system, for one,
      unless the home directory is `/`. */
  lemma SlashAllowedOnlyAsHome(home: Path)
    ensures AllowedResolved(AllowedRoots(home), []) <==> home == []
  {
    var roots := AllowedRoots(home);
    AllowedResolvedIsPrefix(roots, []);
    if home == [] {
      assert IsPrefix(roots[0], []);
    }
  }

  /** A path text is allowed exactly when it resolves, and the resolved path lies under
      the home directory, `/tmp` or `/var/tmp`; a resolution error means not allowed. */
  lemma IsPathAllowedSpec(fs: FileSystem, pathStr: string)
    ensures fs.resolve(pathStr).Raises? ==> !IsPathAllowed(fs, pathStr)
    ensures fs.resolve(pathStr).Ok? ==>
              var p := fs.resolve(pathStr).value;
              (IsPathAllowed(fs, pathStr) <==>
                 IsPrefix(fs.home, p) || IsPrefix(["tmp"], p) || IsPrefix(["var", "tmp"], p))
  {
    if fs.resolve(pathStr).Ok? {
      var roots := AllowedRoots(fs.home);
      var p := fs.resolve(pathStr).value;
      AllowedResolvedIsPrefix(roots, p);
      if IsPrefix(fs.home, p) { assert IsPrefix(roots[0], p); }
      if IsPrefix(["tmp"], p) { assert IsPrefix(roots[1], p); }
      if IsPrefix(["var", "tmp"], p) { assert IsPrefix(roots[2], p); }
    }
  }

  /** What the file system holds at a path. A file's text and size are what reading it
      and `stat` give, or the exception they raise; a directory may refuse to be
      listed; anything else (a socket, a device) is `Other`. */
  datatype Node =
    | File(text: Attempt<string>, size: Attempt<nat>)
    | Directory(listError: Option<string>)
    | Other

  /** The machine as the agent sees it: `expanduser().resolve()` on a path text (which
      may raise), the home directory, and the nodes at resolved paths. */
  datatype FileSystem = FileSystem(
    resolve: string -> Attempt<Path>,
    home: Path,
    nodes: map<Path, Node>)

  /** A well-formed tree: `/` is a directory and every node's parent is one. */
  predicate IsTree(nodes: map<Path, Node>)
  {
    [] in nodes && nodes[[]].Directory? &&
    forall q :: q in nodes && q != [] ==> q[..|q| - 1] in nodes && nodes[q[..|q| - 1]].Directory?
  }

  /** `is_path_allowed(path_str)`: the text is resolved again (an exception means not
      allowed) and must lie under one of the roots. */
  predicate IsPathAllowed(fs: FileSystem, pathStr: string)
  {
    match fs.resolve(pathStr)
    case Raises(_) => false
    case Ok(p) => AllowedResolved(AllowedRoots(fs.home), p)
  }

  /** The names of the direct children of `p`. */
  function ChildNames(nodes: map<Path, Node>, p: Path): (names: set<string>)
    ensures forall n :: n in names <==> p + [n] in nodes
  {
    var names := set q | q in nodes && |q| == |p| + 1 && q[..|p|] == p :: q[|p|];
    assert forall n :: p + [n] in nodes ==> n in names by {
      forall n | p + [n] in nodes
        ensures n in names
      {
        var q := p + [n];
        assert q[..|p|] == p && q[|p|] == n;
      }
    }
    assert forall n :: n in names ==> p + [n] in nodes by {
      forall n | n in names
        ensures p + [n] in nodes
      {
        var q :| q in nodes && |q| == |p| + 1 && q[..|p|] == p && q[|p|] == n;
        assert q == p + [n];
      }
    }
    names
  }

  /** A write of `p` cannot succeed: `p` is a directory or something other than a file,
      or an ancestor exists and is not a directory. */
  predicate Blocked(nodes: map<Path, Node>, p: Path)
  {
    (p in nodes && !nodes[p].File?) ||
    exists k :: 0 <= k < |p| && p[..k] in nodes && !nodes[p[..k]].Directory?
  }

  /** The encoded length of a character in UTF-8. */
  function Utf8Width(c: char): (w: nat)
    ensures 1 <= w <= 4
  {
    if c as int < 0x80 then 1 else if c as int < 0x800 then 2 else if c as int < 0x1_0000 then 3 else 4
  }

  /** The length in bytes of `write_text`'s UTF-8 encoding of `s`. */
  function Utf8Length(s: string): (n: nat)
    ensures |s| <= n <= 4 * |s|
  {
    if s == [] then 0 else Utf8Length(s[..|s| - 1]) + Utf8Width(s[|s| - 1])
  }

  /** Text mode's universal newlines on reading: each `"\r\n"` and each lone `"\r"`
      reads as `"\n"`. */
  function UniversalNewlines(s: string): (r: string)
    ensures '\r' !in r
    ensures '\r' !in s ==> r == s
    ensures |r| <= |s|
    decreases |s|
  {
    if s == [] then []
    else if s[0] == '\r' then "\n" + UniversalNewlines(if |s| > 1 && s[1] == '\n' then s[2..] else s[1..])
    else [s[0]] + UniversalNewlines(s[1..])
  }

  /** A carriage return before a newline disappears, and one alone becomes a newline. */
  lemma UniversalNewlinesExamples()
    ensures UniversalNewlines("a\r\nb") == "a\nb"
    ensures UniversalNewlines("a\rb") == "a\nb"
  {
    assert UniversalNewlines("b") == "b";
    assert "a\r\nb"[1..] == "\r\nb" && "\r\nb"[2..] == "b";
    assert "a\rb"[1..] == "\rb" && "\rb"[1..] == "b";
  }

  /** The translation character by character: any character but `\r` is kept, `\r\n`
      becomes one `\n`, and a `\r` that is not followed by `\n` becomes `\n`. */
  lemma UniversalNewlinesLaws(c: char, s: string)
    ensures c != '\r' ==> UniversalNewlines([c] + s) == [c] + UniversalNewlines(s)
    ensures UniversalNewlines("\r\n" + s) == "\n" + UniversalNewlines(s)
    ensures s == [] || s[0] != '\n' ==> UniversalNewlines("\r" + s) == "\n" + UniversalNewlines(s)
  {
    assert ([c] + s)[1..] == s;
    assert ("\r\n" + s)[2..] == s;
    assert ("\r" + s)[1..] == s;
  }

  /** The translation works piece by piece wherever the cut does not split a `\r\n`
      pair. */
  lemma {:induction false} UniversalNewlinesConcat(a: string, b: string)
    requires a == [] || a[|a| - 1] != '\r' || b == [] || b[0] != '\n'
    ensures UniversalNewlines(a + b) == UniversalNewlines(a) + UniversalNewlines(b)
    decreases |a|
  {
    if a == [] {
      assert a + b == b;
    } else {
      var n := if a[0] == '\r' && |a| > 1 && a[1] == '\n' then 2 else 1;
      var h, t := a[..n], a[n..];
      assert a == h + t && a + b == h + (t + b);
      assert a[n..] + b == (a + b)[n..];
      UniversalNewlinesConcat(t, b);
      HeadSplits(h, t);
      HeadSplits(h, t + b);
      SeqAssoc(UniversalNewlines(h), UniversalNewlines(t), UniversalNewlines(b));
    }
  }

  /** A one-character head other than `\r`, a `\r` followed by more text, or a `\r\n`
      pair is translated on its own. */
  lemma HeadSplits(h: string, t: string)
    requires (|h| == 1 && (h[0] != '\r' || t == [] || t[0] != '\n')) || h == "\r\n"
    ensures UniversalNewlines(h + t) == UniversalNewlines(h) + UniversalNewlines(t)
  {
    if h == "\r\n" {
      UniversalNewlinesLaws('\r', t);
      UniversalNewlinesLaws('\r', []);
      assert h + [] == h;
    } else {
      assert h == [h[0]] && h + [] == h;
      UniversalNewlinesLaws(h[0], t);
      UniversalNewlinesLaws(h[0], []);
    }
  }




  /** The nodes after `path.parent.mkdir(parents=True, exist_ok=True)` and
      `path.write_text(content)` succeed: every missing ancestor is a new directory and
      `p` is a file whose bytes are the UTF-8 encoding of `content`, so reading it back
      gives `content` with its newlines translated. */
  function WriteNodes(nodes: map<Path, Node>, p: Path, content: string): (nodes': map<Path, Node>)
    ensures p in nodes' && nodes'[p] == File(Ok(UniversalNewlines(content)), Ok(Utf8Length(content)))
    ensures forall q :: q in nodes && q != p ==> q in nodes' && nodes'[q] == nodes[q]
    ensures forall q :: q in nodes' && q !in nodes && q != p ==> IsPrefix(q, p) && nodes'[q] == Directory(None)
    ensures forall k :: 0 <= k < |p| ==> p[..k] in nodes'
  {
    var added := set k | 0 <= k < |p| :: p[..k];
    map q | q in nodes.Keys + added + {p} ::
      if q == p then File(Ok(UniversalNewlines(content)), Ok(Utf8Length(content)))
      else if q in nodes then nodes[q]
      else Directory(None)
  }

  /** A successful write keeps the tree well formed. */
  lemma WriteKeepsTree(nodes: map<Path, Node>, p: Path, content: string)
    requires IsTree(nodes) && !Blocked(nodes, p) && p != []
    ensures IsTree(WriteNodes(nodes, p, content))
  {
    var nodes' := WriteNodes(nodes, p, content);
    forall q | q in nodes' && q != []
      ensures q[..|q| - 1] in nodes' && nodes'[q[..|q| - 1]].Directory?
    {
      var parent := q[..|q| - 1];
      if q !in nodes {
        assert IsPrefix(q, p);
        assert parent == p[..|q| - 1];
        if parent in nodes {
          assert !Blocked(nodes, p);
        }
      }
    }
  }

  const MaxOutputSize := 1_000_000

  const OutputMarker := "\n... (output truncated)"
  const ErrorMarker := "\n... (error truncated)"
  const ContentMarker := "\n... (content truncated)"

  /** The truncation rule: text longer than `MAX_OUTPUT_SIZE` characters keeps only its
      first `MAX_OUTPUT_SIZE` characters and ends with the marker. */
  function Truncate(s: string, marker: string): (r: string)
    ensures |s| <= MaxOutputSize ==> r == s
    ensures |s| > MaxOutputSize ==> |r| == MaxOutputSize + |marker| && EndsWith(r, marker)
    ensures StartsWith(r, s[..if |s| < MaxOutputSize then |s| else MaxOutputSize])
  {
    if |s| > MaxOutputSize then s[..MaxOutputSize] + marker else s
  }

  /** Truncated text is never longer than the limit plus the marker, and it is empty
      exactly when the text was. */
  lemma TruncateBounds(s: string, marker: string)
    ensures |Truncate(s, marker)| <= MaxOutputSize + |marker|
    ensures Truncate(s, marker) == [] <==> s == []
  {
  }
}
