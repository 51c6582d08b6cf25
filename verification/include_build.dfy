/** Building the inclusion structure of the include compiler
    (`utils/simple_compiler.py`, `search_name` to `form_tree`). A file names
    the files it needs in `// include <name>` comment lines; the build reads
    every reachable file once, records it in `history` before visiting its
    includes, and appends one node per inclusion site to a tree whose nodes
    share one child list per file. */
module IncludeBuild {
  import opened Common
  import opened Parsers
  import opened SimpleTree

  /** A file identity. Paths are opaque: nothing here resolves `..` or
      identifies two spellings of one file. */
  type FileId = string

  /** What the compiler asks of the file system and of the root folder, as
      inputs. */
  datatype Fs = Fs(
    parent: FileId -> FileId,            // the folder of a file
    join: (FileId, string) -> FileId,    // a folder joined with a relative name
    inRoot: FileId -> bool,              // the path lies inside the root folder
    present: FileId -> bool,             // the path exists
    search: string -> seq<FileId>,       // the recursive search of the root folder, in its order
    contents: map<FileId, seq<string>>)  // the lines of every readable file

  /** A resolved include name, with the warning `search_name` may issue. */
  datatype Resolution = Resolution(path: Result<FileId>, warned: bool)

  /** `search_name`: a name starting with `.` is joined to the includer's
      folder, must exist, and draws a warning when it leaves the root folder;
      any other name is the first hit of the search of the root folder. */
  function SearchName(fs: Fs, name: string, includer: FileId): (r: Resolution)
    ensures StartsWith(name, ".") ==>
              var target := fs.join(fs.parent(includer), name);
              && (r.path.Ok? <==> fs.present(target))
              && (r.path.Ok? ==> r.path.value == target)
              && (r.warned <==> !fs.inRoot(target))
    ensures !StartsWith(name, ".") ==>
              && (r.path.Ok? <==> fs.search(name) != [])
              && (r.path.Ok? ==> r.path.value == fs.search(name)[0])
              && !r.warned
    ensures r.path.Err? ==> r.path.error.ValueError?
  {
    if StartsWith(name, ".") then
      var target := fs.join(fs.parent(includer), name);
      var path := if fs.present(target) then Ok(target)
                  else Err(ValueError("Relative include of " + name + " in " + includer + " not found!"));
      Resolution(path, !fs.inRoot(target))
    else
      var found := fs.search(name);
      var path := if found != [] then Ok(found[0])
                  else Err(ValueError("Absolute include of " + name + " in " + includer + " not found!"));
      Resolution(path, false)
  }

  /** A file as `parse_include` returns it: its lines, the indices of its
      include lines and the include names. */
  datatype Parsed = Parsed(lines: seq<string>, lineNums: seq<nat>, names: seq<string>)

  const IncludeKey: string := "include"
  const IncludeSep: string := " "

  /** What `read_include` returns: the indices of the include lines and the
      include names. */
  datatype Includes = Includes(lineNums: seq<nat>, names: seq<string>)

  /** A parser of a file's include directives, as `read_include` is one. The
      build takes it as a parameter, so that its proofs do not depend on how
      lines are parsed; `FormTree` passes `ReadInclude`. */
  type Reader = seq<string> -> Result<Includes>

  /** `read_include`: the include directives among a file's comment lines,
      with the stripped text after the first separator as the name and the
      zero-based index of the line; a directive without a separator raises
      `IndexError`. */
  function ReadInclude(lines: seq<string>): (r: Result<Includes>)
    ensures r.Err? ==> r.error == IndexError
    ensures r.Ok? ==> |r.value.lineNums| == |r.value.names|
  {
    match Values(Selected(CommentLines(lines), IncludeKey), IncludeSep)
    case None => Err(IndexError)
    case Some(vs) => Ok(Includes(Seconds(vs), Firsts(vs)))
  }

  /** `ReadInclude` is `read_info(["include"], " ")` with the one key's
      values and indices taken out of the tables. */
  lemma ReadIncludeIsReadInfo(lines: seq<string>)
    ensures match ReadInfoSpec([IncludeKey], IncludeSep, lines)
            case Err(e) => ReadInclude(lines) == Err(e)
            case Ok((info, linenum)) =>
              && IncludeKey in info && IncludeKey in linenum
              && ReadInclude(lines) == Ok(Includes(linenum[IncludeKey], info[IncludeKey]))
  {
    ReadInfoSingleKey(IncludeKey, IncludeSep, CommentLines(lines));
  }

  /** `parse_include`: the file's lines, then `read` on them. A file that
      cannot be read raises `IOError` before anything is parsed. */
  function ParseInclude(fs: Fs, read: Reader, f: FileId): (r: Result<Parsed>)
    ensures f !in fs.contents ==> r == Err(IOError(f))
    ensures f in fs.contents ==> (r.Ok? <==> read(fs.contents[f]).Ok?)
    ensures r.Ok? ==> f in fs.contents && r.value.lines == fs.contents[f]
    ensures r.Ok? ==> && read(fs.contents[f]).Ok?
                      && r.value.lineNums == read(fs.contents[f]).value.lineNums
                      && r.value.names == read(fs.contents[f]).value.names
  {
    if f !in fs.contents then Err(IOError(f))
    else
      var lines := fs.contents[f];
      match read(lines)
      case Err(e) => Err(e)
      case Ok(i) => Ok(Parsed(lines, i.lineNums, i.names))
  }

  /** `[search_name(fn, f, root) for fn in incl_names]`: the first name that
      does not resolve raises. Warnings are not collected. */
  function ResolveAll(fs: Fs, names: seq<string>, includer: FileId): (r: Result<seq<FileId>>)
    ensures r.Ok? ==> |r.value| == |names|
  {
    if names == [] then Ok([])
    else
      match SearchName(fs, names[0], includer).path
      case Err(e) => Err(e)
      case Ok(p) =>
        match ResolveAll(fs, names[1..], includer)
        case Err(e) => Err(e)
        case Ok(ps) => Ok([p] + ps)
  }

  /** The resolution succeeds exactly when every name resolves, keeps the
      order of the names, and otherwise raises the error of the first name
      that does not resolve. */
  lemma {:induction false} ResolveAllMeaning(fs: Fs, names: seq<string>, includer: FileId)
    ensures var r := ResolveAll(fs, names, includer);
            && (r.Ok? <==> forall k :: 0 <= k < |names| ==> SearchName(fs, names[k], includer).path.Ok?)
            && (r.Ok? ==> forall k :: 0 <= k < |names| ==> r.value[k] == SearchName(fs, names[k], includer).path.value)
            && (r.Err? ==> exists k :: && 0 <= k < |names|
                                        && SearchName(fs, names[k], includer).path == Err(r.error)
                                        && forall j :: 0 <= j < k ==> SearchName(fs, names[j], includer).path.Ok?)
  {
    if names != [] {
      ResolveAllMeaning(fs, names[1..], includer);
      assert forall k :: 1 <= k < |names| ==> names[k] == names[1..][k - 1];
      var r := ResolveAll(fs, names, includer);
      if r.Err? && SearchName(fs, names[0], includer).path.Ok? {
        var k :| && 0 <= k < |names[1..]|
                 && SearchName(fs, names[1..][k], includer).path == Err(r.error)
                 && forall j :: 0 <= j < k ==> SearchName(fs, names[1..][j], includer).path.Ok?;
        assert forall j :: 1 <= j < k + 1 ==> names[j] == names[1..][j - 1];
        assert SearchName(fs, names[k + 1], includer).path == Err(r.error);
      }
    }
  }

  /** What the build records for a file: its resolved includes in directive
      order, the indices of its include lines and all its lines. */
  datatype FileData = FileData(incl: seq<FileId>, lineNums: seq<nat>, lines: seq<string>)

  /** `history` as a value: the files visited so far. */
  type History = map<FileId, FileData>

  /** The readable files not yet visited: the build's termination measure. */
  function Unvisited(fs: Fs, known: set<FileId>): set<FileId> {
    fs.contents.Keys - known
  }

  /** Every include of every file in `h` that is not in `known` is itself in `h`. */
  predicate ClosedBeyond(h: History, known: set<FileId>) {
    forall f, k :: f in h && f !in known && 0 <= k < |h[f].incl| ==> h[f].incl[k] in h
  }

  /** `h'` keeps every entry of `h`. */
  predicate Extends(h': History, h: History) {
    forall f :: f in h ==> f in h' && h'[f] == h[f]
  }

  /** `form_tree_recursive` on a value history: a known file is not read
      again; a new one is parsed, all its include names are resolved, it is
      recorded, and then its includes are visited in directive order. */
  function Visit(fs: Fs, read: Reader, h: History, f: FileId): (r: Result<History>)
    ensures r.Ok? ==> h.Keys <= r.value.Keys && f in r.value
    decreases Unvisited(fs, h.Keys), 0
  {
    if f in h then Ok(h)
    else
      match ParseInclude(fs, read, f)
      case Err(e) => Err(e)
      case Ok(p) =>
        match ResolveAll(fs, p.names, f)
        case Err(e) => Err(e)
        case Ok(paths) =>
          var h1 := h[f := FileData(paths, p.lineNums, p.lines)];
          assert f in Unvisited(fs, h.Keys) - Unvisited(fs, h1.Keys);
          VisitAll(fs, read, h1, paths)
  }

  /** The loop over a new file's includes. */
  function VisitAll(fs: Fs, read: Reader, h: History, paths: seq<FileId>): (r: Result<History>)
    ensures r.Ok? ==> h.Keys <= r.value.Keys
    decreases Unvisited(fs, h.Keys), |paths|
  {
    if paths == [] then Ok(h)
    else
      match Visit(fs, read, h, paths[0])
      case Err(e) => Err(e)
      case Ok(h1) =>
        VisitAll(fs, read, h1, paths[1..])
  }

  /** `h` holds for `g` what `parse_include` and `search_name` give: its
      lines, the indices of its include lines, and every include name
      resolved, in directive order. */
  predicate Recorded(fs: Fs, read: Reader, h: History, g: FileId) {
    && g in h
    && ParseInclude(fs, read, g).Ok?
    && h[g].lines == ParseInclude(fs, read, g).value.lines
    && h[g].lineNums == ParseInclude(fs, read, g).value.lineNums
    && ResolveAll(fs, ParseInclude(fs, read, g).value.names, g) == Ok(h[g].incl)
  }

  /** A visit keeps what was recorded before; every file it records was
      parsed and had all its include names resolved, and has all its includes
      recorded as well. */
  lemma {:induction false} VisitCloses(fs: Fs, read: Reader, h: History, f: FileId)
    requires Visit(fs, read, h, f).Ok?
    ensures Extends(Visit(fs, read, h, f).value, h)
    ensures ClosedBeyond(Visit(fs, read, h, f).value, h.Keys)
    ensures forall g :: g in Visit(fs, read, h, f).value && g !in h ==> Recorded(fs, read, Visit(fs, read, h, f).value, g)
    decreases Unvisited(fs, h.Keys), 0
  {
    if f !in h {
      var p := ParseInclude(fs, read, f).value;
      var paths := ResolveAll(fs, p.names, f).value;
      var h1 := h[f := FileData(paths, p.lineNums, p.lines)];
      assert f in Unvisited(fs, h.Keys) - Unvisited(fs, h1.Keys);
      VisitAllCloses(fs, read, h1, paths);
      var r := Visit(fs, read, h, f).value;
      forall g, k | g in r && g !in h && 0 <= k < |r[g].incl|
        ensures r[g].incl[k] in r
      {
        if g == f {
          assert r[g].incl == paths;
        }
      }
      assert Recorded(fs, read, r, f);
    }
  }

  /** The same for the loop over a file's includes; afterwards every one of
      them is recorded. */
  lemma {:induction false} VisitAllCloses(fs: Fs, read: Reader, h: History, paths: seq<FileId>)
    requires VisitAll(fs, read, h, paths).Ok?
    ensures Extends(VisitAll(fs, read, h, paths).value, h)
    ensures ClosedBeyond(VisitAll(fs, read, h, paths).value, h.Keys)
    ensures forall g :: g in VisitAll(fs, read, h, paths).value && g !in h ==> Recorded(fs, read, VisitAll(fs, read, h, paths).value, g)
    ensures forall k :: 0 <= k < |paths| ==> paths[k] in VisitAll(fs, read, h, paths).value
    decreases Unvisited(fs, h.Keys), |paths|
  {
    if paths != [] {
      var h1 := Visit(fs, read, h, paths[0]).value;
      VisitCloses(fs, read, h, paths[0]);
      VisitAllCloses(fs, read, h1, paths[1..]);
      var r := VisitAll(fs, read, h, paths).value;
      forall g | g in r && g !in h
        ensures Recorded(fs, read, r, g)
      {
        if g in h1 {
          assert r[g] == h1[g];
        }
      }
    }
  }

  /** The files `parse_include` is called on during a successful visit, in
      call order. */
  function Parses(fs: Fs, read: Reader, h: History, f: FileId): seq<FileId>
    requires Visit(fs, read, h, f).Ok?
    decreases Unvisited(fs, h.Keys), 0
  {
    if f in h then []
    else
      var p := ParseInclude(fs, read, f).value;
      var paths := ResolveAll(fs, p.names, f).value;
      var h1 := h[f := FileData(paths, p.lineNums, p.lines)];
      assert f in Unvisited(fs, h.Keys) - Unvisited(fs, h1.Keys);
      [f] + ParsesAll(fs, read, h1, paths)
  }

  function ParsesAll(fs: Fs, read: Reader, h: History, paths: seq<FileId>): seq<FileId>
    requires VisitAll(fs, read, h, paths).Ok?
    decreases Unvisited(fs, h.Keys), |paths|
  {
    if paths == [] then []
    else
      Parses(fs, read, h, paths[0]) + ParsesAll(fs, read, Visit(fs, read, h, paths[0]).value, paths[1..])
  }

  /** Each file is parsed at most once, and the files parsed are exactly those
      the visit adds to the history. */
  lemma {:induction false} ParsedOnce(fs: Fs, read: Reader, h: History, f: FileId)
    requires Visit(fs, read, h, f).Ok?
    ensures Distinct(Parses(fs, read, h, f))
    ensures forall g :: g in Parses(fs, read, h, f) <==> g in Visit(fs, read, h, f).value && g !in h
    decreases Unvisited(fs, h.Keys), 0
  {
    if f !in h {
      var p := ParseInclude(fs, read, f).value;
      var paths := ResolveAll(fs, p.names, f).value;
      var h1 := h[f := FileData(paths, p.lineNums, p.lines)];
      assert f in Unvisited(fs, h.Keys) - Unvisited(fs, h1.Keys);
      ParsedAllOnce(fs, read, h1, paths);
      DistinctCons(f, ParsesAll(fs, read, h1, paths));
    }
  }

  lemma {:induction false} ParsedAllOnce(fs: Fs, read: Reader, h: History, paths: seq<FileId>)
    requires VisitAll(fs, read, h, paths).Ok?
    ensures Distinct(ParsesAll(fs, read, h, paths))
    ensures forall g :: g in ParsesAll(fs, read, h, paths) <==> g in VisitAll(fs, read, h, paths).value && g !in h
    decreases Unvisited(fs, h.Keys), |paths|
  {
    if paths != [] {
      var h1 := Visit(fs, read, h, paths[0]).value;
      ParsedOnce(fs, read, h, paths[0]);
      ParsedAllOnce(fs, read, h1, paths[1..]);
      DistinctAppend(Parses(fs, read, h, paths[0]), ParsesAll(fs, read, h1, paths[1..]));
    }
  }

  /** A file met for the first time is recorded, then its includes are visited. */
  lemma VisitNew(fs: Fs, read: Reader, h: History, f: FileId, p: Parsed, paths: seq<FileId>)
    requires f !in h && ParseInclude(fs, read, f) == Ok(p) && ResolveAll(fs, p.names, f) == Ok(paths)
    ensures Visit(fs, read, h, f) == VisitAll(fs, read, h[f := FileData(paths, p.lineNums, p.lines)], paths)
  {
  }

  /** A node's payload: a file, or nothing for the scaffold root that
      `Tree()` makes. */
  type Payload = Option<FileId>

  /** What `history` keeps of a file besides its node: the indices of its
      include lines and its lines. */
  datatype Entry = Entry(lineNums: seq<nat>, lines: seq<string>)

  type Memo = map<FileId, Entry>

  /** The contents of the tree's child lists. Every copy of a file's node
      shares that node's one child list, so there is one list per recorded
      file, plus the list of the scaffold root; a list holds the payloads of
      its nodes. */
  type Lists = map<Payload, seq<FileId>>

  /** There is a child list for the scaffold root and for each recorded file. */
  predicate Shaped(memo: Memo, lists: Lists) {
    && None in lists
    && (forall g :: g in memo ==> Some(g) in lists)
    && (forall p :: p in lists && p.Some? ==> p.value in memo)
  }

  /** `memo` records the files of the value history `h`, with the same lines. */
  predicate Represents(memo: Memo, h: History) {
    && (forall f :: f in memo ==> f in h)
    && forall f :: f in h ==> f in memo && memo[f] == Entry(h[f].lineNums, h[f].lines)
  }

  /** A file whose includes have all been visited: its child list holds one
      node per include, in directive order. */
  predicate Complete(lists: Lists, h: History, g: FileId) {
    Some(g) in lists && g in h && lists[Some(g)] == h[g].incl
  }

  lemma TakeSnoc<T>(s: seq<T>, j: nat)
    requires j < |s|
    ensures s[..j + 1] == s[..j] + [s[j]] && s[j..][1..] == s[j + 1..]
  {
  }

  /** The lists after a new file `f` was appended below `parent` and its
      includes were visited, seen from before `f` was recorded. */
  lemma AppendedBelow(memo: Memo, lists: Lists, parent: Payload, f: FileId,
                      cur: Memo, ls: Lists, cur': Memo, ls': Lists, h': History)
    requires Shaped(memo, lists) && parent in lists && f !in memo
    requires forall g :: g in cur ==> g in memo || g == f
    requires ls == lists[Some(f) := []][parent := lists[parent] + [f]]
    requires f in h' && Some(f) in ls' && ls'[Some(f)] == h'[f].incl
    requires forall p {:trigger p in ls} :: p in ls && p != Some(f) ==> p in ls' && ls'[p] == ls[p]
    requires forall g :: g in cur' && g !in cur ==> Complete(ls', h', g)
    ensures parent in ls' && ls'[parent] == lists[parent] + [f]
    ensures forall p {:trigger p in lists} :: p in lists && p != parent ==> p in ls' && ls'[p] == lists[p]
    ensures forall g :: g in cur' && g !in memo ==> Complete(ls', h', g)
  {
    assert parent in ls && parent != Some(f);
    forall p | p in lists && p != parent
      ensures p in ls' && ls'[p] == lists[p]
    {
      assert p in ls && p != Some(f);
    }
  }

  /** `form_tree_recursive(f, t, history, root)`, where `t` is a node whose
      child list is that of `parent`, against the value history `h` that
      `history` stands for. The call fails exactly when `Visit` does, with
      the same error, and otherwise `history` comes out as `Visit` says. The
      list of `parent` gains exactly `f` at its end and no other list that
      existed before changes; a file seen before is not read again, and the
      files first visited in the call come out complete. */
  method FormTreeRecursive(fs: Fs, read: Reader, f: FileId, parent: Payload, memo: Memo, lists: Lists, ghost h: History)
    returns (r: Result<(Memo, Lists)>)
    requires Shaped(memo, lists) && Represents(memo, h) && parent in lists
    decreases Unvisited(fs, memo.Keys), 0
    ensures r.Ok? <==> Visit(fs, read, h, f).Ok?
    ensures r.Err? ==> r.error == Visit(fs, read, h, f).error
    ensures r.Ok? ==> Shaped(r.value.0, r.value.1) && Represents(r.value.0, Visit(fs, read, h, f).value)
    ensures r.Ok? ==> r.value.1[parent] == lists[parent] + [f]
    ensures r.Ok? ==> forall p {:trigger p in lists} :: p in lists && p != parent ==> p in r.value.1 && r.value.1[p] == lists[p]
    ensures r.Ok? ==> forall g :: g in r.value.0 && g !in memo ==> Complete(r.value.1, Visit(fs, read, h, f).value, g)
  {
    if f in memo {
      // `t.append_node(fn)`: `fn` has no father, so a copy sharing its list goes to the end
      return Ok((memo, lists[parent := lists[parent] + [f]]));
    }
    var parsed := ParseInclude(fs, read, f);
    if parsed.Err? {
      return Err(parsed.error);
    }
    var resolved := ResolveAll(fs, parsed.value.names, f);
    if resolved.Err? {
      return Err(resolved.error);
    }
    var paths := resolved.value;
    VisitNew(fs, read, h, f, parsed.value, paths);
    ghost var h1 := h[f := FileData(paths, parsed.value.lineNums, parsed.value.lines)];
    // `fn = Node(f)` brings a new empty child list; `history[f] = ...`; `t.append_node(fn)`
    var cur := memo[f := Entry(parsed.value.lineNums, parsed.value.lines)];
    var ls := lists[Some(f) := []][parent := lists[parent] + [f]];
    // `t[-1]`: the copy just appended, whose child list is that of `f`
    var last := ls[parent][|ls[parent]| - 1];
    assert last == f && f in Unvisited(fs, memo.Keys) - Unvisited(fs, cur.Keys);
    r := VisitIncludes(fs, read, last, paths, cur, ls, h1);
    if r.Ok? {
      VisitAllCloses(fs, read, h1, paths);
      AppendedBelow(memo, lists, parent, f, cur, ls, r.value.0, r.value.1, VisitAll(fs, read, h1, paths).value);
    }
  }

  /** The loop of `form_tree_recursive` over the includes `paths` of `f`,
      just recorded in `h` with an empty child list: each include is visited
      in turn below the node of `f`. The loop fails exactly when `VisitAll`
      does, with the same error; otherwise the list of `f` holds `paths`, no
      other list that existed before changes, and the files first visited in
      the loop come out complete. */
  method VisitIncludes(fs: Fs, read: Reader, f: FileId, paths: seq<FileId>, memo: Memo, lists: Lists, ghost h: History)
    returns (r: Result<(Memo, Lists)>)
    requires Shaped(memo, lists) && Represents(memo, h) && f in memo && lists[Some(f)] == []
    decreases Unvisited(fs, memo.Keys), 1
    ensures r.Ok? <==> VisitAll(fs, read, h, paths).Ok?
    ensures r.Err? ==> r.error == VisitAll(fs, read, h, paths).error
    ensures r.Ok? ==> Shaped(r.value.0, r.value.1) && Represents(r.value.0, VisitAll(fs, read, h, paths).value)
    ensures r.Ok? ==> r.value.1[Some(f)] == paths
    ensures r.Ok? ==> forall p {:trigger p in lists} :: p in lists && p != Some(f) ==> p in r.value.1 && r.value.1[p] == lists[p]
    ensures r.Ok? ==> forall g :: g in r.value.0 && g !in memo ==> Complete(r.value.1, VisitAll(fs, read, h, paths).value, g)
  {
    var cur, ls := memo, lists;
    ghost var hc := h;
    var j := 0;
    while j < |paths|
      invariant 0 <= j <= |paths|
      invariant Shaped(cur, ls) && Represents(cur, hc) && memo.Keys <= cur.Keys
      invariant ls[Some(f)] == paths[..j]
      invariant forall p {:trigger p in lists} :: p in lists && p != Some(f) ==> p in ls && ls[p] == lists[p]
      invariant forall g :: g in cur && g !in memo ==> Complete(ls, hc, g)
      invariant VisitAll(fs, read, h, paths) == VisitAll(fs, read, hc, paths[j..])
    {
      var res := FormTreeRecursive(fs, read, paths[j], Some(f), cur, ls, hc);
      if res.Err? {
        return Err(res.error);
      }
      ghost var hn := Visit(fs, read, hc, paths[j]).value;
      VisitCloses(fs, read, hc, paths[j]);
      TakeSnoc(paths, j);
      cur, ls, hc := res.value.0, res.value.1, hn;
      j := j + 1;
    }
    assert paths[..j] == paths;
    r := Ok((cur, ls));
  }

  /** What `form_tree` returns: the entry file, at the root of the include
      tree, the tree as the includes of each recorded file in directive
      order, and the recorded line indices and lines of each file. */
  datatype Built = Built(root: FileId, graph: Graph<FileId>, data: map<FileId, Entry>)

  /** The value build `form_tree` stands for: a visit of the entry file with
      the parser of include directives, from an empty history. */
  function Build(fs: Fs, entry: FileId): Result<History> {
    Visit(fs, ReadInclude, map[], entry)
  }

  /** Every include of every file the build records is recorded as well. */
  lemma BuildCloses(fs: Fs, entry: FileId)
    requires Build(fs, entry).Ok?
    ensures ClosedBeyond(Build(fs, entry).value, {})
  {
    VisitCloses(fs, ReadInclude, map[], entry);
  }

  /** `form_tree(init_f, root)`: an empty scaffold tree, the recursive build
      below its root, and then the first node appended to the scaffold taken
      as the root of the result, cut loose from the scaffold. It fails exactly
      when the build does, with the same error. Otherwise the root is the
      entry file, every recorded file maps to its includes in directive order
      and to its line indices and lines, and every include is itself a
      recorded file. */
  method FormTree(fs: Fs, entry: FileId) returns (r: Result<Built>)
    ensures r.Ok? <==> Build(fs, entry).Ok?
    ensures r.Err? ==> r.error == Build(fs, entry).error
    ensures r.Ok? ==> r.value.root == entry && r.value.root in r.value.graph
    ensures r.Ok? ==> forall g :: g in r.value.graph <==> g in Build(fs, entry).value
    ensures r.Ok? ==> forall g :: g in r.value.data <==> g in Build(fs, entry).value
    ensures r.Ok? ==> forall g :: g in r.value.graph && g in Build(fs, entry).value ==>
                        var d := Build(fs, entry).value[g];
                        r.value.graph[g] == d.incl && r.value.data[g] == Entry(d.lineNums, d.lines)
    ensures r.Ok? ==> forall g, k :: g in r.value.graph && 0 <= k < |r.value.graph[g]| ==> r.value.graph[g][k] in r.value.graph
  {
    // `t = Tree(); history = {}`: the scaffold root has an empty child list
    var res := FormTreeRecursive(fs, ReadInclude, entry, None, map[], map[None := []], map[]);
    if res.Err? {
      return Err(res.error);
    }
    var memo, ls := res.value.0, res.value.1;
    ghost var hist := Build(fs, entry).value;
    BuildCloses(fs, entry);
    // `t0 = t[0]`: the one node appended to the scaffold root
    var root := ls[None][0];
    // `t.init_node.child = []; t0.init_node.father = None`: the scaffold is dropped
    var graph := map g | g in memo :: ls[Some(g)];
    r := Ok(Built(root, graph, memo));
  }
}
