/** What the include compiler does with the structure it built
    (`utils/simple_compiler.py`, `circuit_check` to `main`): it rejects
    circular includes with a depth-first walk, records the depth of each file
    with a breadth-first walk, orders the files by decreasing depth and
    pastes them, without their include directives, into one text. */
module IncludeOrder {
  import opened Common
  import opened SimpleTree
  import opened IncludeBuild

  /** `s.index(x)`: the position of the first occurrence of `x`, if any. */
  function IndexOf(s: seq<FileId>, x: FileId): (r: Option<nat>)
    ensures r.Some? ==> r.value < |s| && s[r.value] == x && x !in s[..r.value]
    ensures r.None? ==> x !in s
  {
    if s == [] then None
    else if s[0] == x then Some(0)
    else match IndexOf(s[1..], x)
      case None => None
      case Some(i) =>
        assert s[1..][..i] == s[1..i + 1];
        Some(i + 1)
  }

  /** `sep.join(parts)`. */
  function Join(sep: string, parts: seq<string>): (r: string)
    ensures |parts| == 1 ==> r == parts[0]
  {
    if parts == [] then ""
    else if |parts| == 1 then parts[0]
    else parts[0] + sep + Join(sep, parts[1..])
  }

  /** Joining one more part adds the separator and that part at the end. */
  lemma {:induction false} JoinSnoc(sep: string, parts: seq<string>, p: string)
    requires parts != []
    ensures Join(sep, parts + [p]) == Join(sep, parts) + sep + p
    decreases |parts|
  {
    if |parts| > 1 {
      assert (parts + [p])[1..] == parts[1..] + [p];
      JoinSnoc(sep, parts[1..], p);
    } else {
      assert (parts + [p])[1..] == [p];
    }
  }

  const CircularMessage: string := "Circular include happens: "
  const Arrow: string := " -> "

  /** `circuit_check(objs)`: fails when the last element already occurs
      before it, naming the files from its first occurrence to the end. On
      an empty list `objs[-1]` raises `IndexError`. */
  function CircuitCheck(objs: seq<FileId>): (r: Outcome)
    ensures objs == [] ==> r == Fail(IndexError)
    ensures objs != [] ==> (r.Fail? <==> objs[|objs| - 1] in objs[..|objs| - 1])
    ensures objs != [] && r.Fail? ==>
              exists i :: && 0 <= i < |objs| - 1 && objs[i] == objs[|objs| - 1]
                          && objs[|objs| - 1] !in objs[..i]
                          && r.error == ValueError(CircularMessage + Join(Arrow, objs[i..]))
  {
    if objs == [] then Fail(IndexError)
    else
      match IndexOf(objs[..|objs| - 1], objs[|objs| - 1])
      case None => Pass
      case Some(i) =>
        assert objs[..|objs| - 1][..i] == objs[..i];
        Fail(ValueError(CircularMessage + Join(Arrow, objs[i..])))
  }

  /** `circuit_check` raises whenever the newest file is already on the
      path, as `dfs_map` needs of its callback. */
  lemma CircuitCheckRejectsRepeats()
    ensures RejectsRepeats(CircuitCheck)
  {
    forall p: seq<FileId>, x: FileId | Repeated(p, x)
      ensures CircuitCheck(p + [x]).Fail?
    {
      assert (p + [x])[..|p|] == p;
    }
  }

  /** `dfs_circuit_check`: `dfs_map` with `circuit_check` as its callback,
      on the include structure `g` below `root`. */
  function DfsCircuitCheck(g: Graph<FileId>, root: FileId): Outcome {
    CircuitCheckRejectsRepeats();
    Dfs(g, CircuitCheck, root)
  }

  /** The check passes exactly when no walk of includes from the root comes
      back to a file already on it; otherwise it raises the message of one
      such walk. */
  lemma NoCircularInclude(g: Graph<FileId>, root: FileId)
    ensures DfsCircuitCheck(g, root) == Pass <==>
              forall w :: WalkFrom(g, root, w) ==> w[|w| - 1] !in w[..|w| - 1]
    ensures DfsCircuitCheck(g, root).Fail? ==>
              exists w :: && WalkFrom(g, root, w) && w[|w| - 1] in w[..|w| - 1]
                          && DfsCircuitCheck(g, root) == CircuitCheck(w)
  {
    CircuitCheckRejectsRepeats();
    DfsOutcome(g, CircuitCheck, root);
  }

  /** A file that includes itself is a circular include. */
  lemma SelfIncludeFails(g: Graph<FileId>, root: FileId)
    requires root in Children(g, root)
    ensures DfsCircuitCheck(g, root).Fail?
  {
    NoCircularInclude(g, root);
    assert WalkFrom(g, root, [root, root]);
  }

  /** The `record` dictionary of `bfs_count_max_depth`: its keys in insertion
      order, which the later stable sort keeps for equal depths, and the
      depth stored under each key. */
  datatype Record = Record(order: seq<FileId>, depth: map<FileId, int>)

  /** The keys in `order` are the keys of `depth`, each once. */
  predicate WellKept(rec: Record) {
    && Distinct(rec.order)
    && (forall o :: o in rec.depth ==> o in rec.order)
    && (forall o :: o in rec.order ==> o in rec.depth)
  }

  function Max(a: int, b: int): int {
    if a < b then b else a
  }

  /** One pass of the body of `count_max_depth` for `obj`. */
  function Count(rec: Record, obj: FileId, depth: int): Record {
    var last := if obj in rec.depth then rec.depth[obj] else -1;
    Record(if obj in rec.depth then rec.order else rec.order + [obj], rec.depth[obj := Max(depth, last)])
  }

  /** `count_max_depth` over `objs`, one object after the other. */
  function CountAll(rec: Record, objs: seq<FileId>, depth: int): Record {
    if objs == [] then rec
    else Count(CountAll(rec, objs[..|objs| - 1], depth), objs[|objs| - 1], depth)
  }

  /** After `count_max_depth(record, objs, depth)`, each object of `objs`
      holds the larger of `depth` and its earlier value (or -1), new objects
      come after the keys already there, and every other key keeps its value. */
  lemma {:induction false} CountAllMeaning(rec: Record, objs: seq<FileId>, depth: int)
    requires WellKept(rec)
    ensures var r := CountAll(rec, objs, depth);
            && WellKept(r)
            && (forall o :: o in r.depth <==> o in rec.depth || o in objs)
            && (forall o :: o in objs ==> r.depth[o] == Max(depth, if o in rec.depth then rec.depth[o] else -1))
            && (forall o :: o in rec.depth && o !in objs ==> r.depth[o] == rec.depth[o])
            && rec.order <= r.order
    decreases |objs|
  {
    if objs != [] {
      var init := objs[..|objs| - 1];
      CountAllMeaning(rec, init, depth);
      var mid := CountAll(rec, init, depth);
      var o := objs[|objs| - 1];
      if o !in mid.depth {
        DistinctCons(o, []);
        DistinctAppend(mid.order, [o]);
      }
      forall x | x in objs
        ensures x in init || x == o
      {
        var k :| 0 <= k < |objs| && objs[k] == x;
        if k < |objs| - 1 {
          assert init[k] == x;
        }
      }
    }
  }

  /** `count_max_depth(record, objs, depth)`, returning the updated record. */
  method CountMaxDepth(record: Record, objs: seq<FileId>, depth: int) returns (r: Record)
    ensures r == CountAll(record, objs, depth)
  {
    r := record;
    for i := 0 to |objs|
      invariant r == CountAll(record, objs[..i], depth)
    {
      var obj := objs[i];
      var lastDepth := if obj in r.depth then r.depth[obj] else -1;
      // a key stored for the first time goes to the end of the dictionary's order
      r := Record(if obj in r.depth then r.order else r.order + [obj], r.depth[obj := Max(depth, lastDepth)]);
      assert objs[..i + 1][..i] == objs[..i];
    }
    assert objs[..|objs|] == objs;
  }

  /** The calls `bfs_map` makes on a structure realising `g` from `root`:
      the root at depth 0, then the root's includes at depth 1, and no more. */
  function BfsCalls(g: Graph<FileId>, root: FileId): seq<(seq<FileId>, int)> {
    [([root], 0), (Children(g, root), 1)]
  }

  /** On a tree whose nodes realise `g`, `bfs_map` makes the calls `BfsCalls`
      says. */
  lemma BfsCallsRealised(t: Tree<FileId>, g: Graph<FileId>, ns: set<Node<FileId>>)
    requires Realises(ns, g) && t.initNode in ns
    ensures BfsCalls(g, t.initNode.obj) == [([t.initNode.obj], 0), (Payloads(t.initNode.child.items), 1)]
  {
    var n := t.initNode;
    assert Payloads(n.child.items) == Children(g, n.obj) by {
      forall k | 0 <= k < |n.child.items|
        ensures Payloads(n.child.items)[k] == Children(g, n.obj)[k]
      {
        assert n.child.items[k].obj == Children(g, n.obj)[k];
      }
    }
  }

  /** Calls to `count_max_depth` with the arguments in `calls`, in order. */
  function CountCalls(rec: Record, calls: seq<(seq<FileId>, int)>): Record {
    if calls == [] then rec
    else var c := calls[|calls| - 1];
         CountAll(CountCalls(rec, calls[..|calls| - 1]), c.0, c.1)
  }

  const EmptyRecord: Record := Record([], map[])

  /** The record `bfs_count_max_depth` returns for the structure `g` below `root`. */
  function DepthRecord(g: Graph<FileId>, root: FileId): Record {
    CountCalls(EmptyRecord, BfsCalls(g, root))
  }

  /** `bfs_count_max_depth(t)`: an empty record, then `count_max_depth` on the
      arguments of each call `bfs_map` makes. */
  method BfsCountMaxDepth(g: Graph<FileId>, root: FileId) returns (record: Record)
    ensures record == DepthRecord(g, root)
  {
    record := EmptyRecord;
    var calls := BfsCalls(g, root);
    for i := 0 to |calls|
      invariant record == CountCalls(EmptyRecord, calls[..i])
    {
      record := CountMaxDepth(record, calls[i].0, calls[i].1);
      assert calls[..i + 1][..i] == calls[..i];
    }
    assert calls[..|calls|] == calls;
  }

  /** Since `bfs_map` stops after depth 1, the record holds exactly the root
      and its direct includes: the root first, at depth 0 unless it includes
      itself, and every direct include at depth 1. */
  lemma DepthRecordMeaning(g: Graph<FileId>, root: FileId)
    ensures var r := DepthRecord(g, root);
            && WellKept(r)
            && (forall o :: o in r.depth <==> o == root || o in Children(g, root))
            && r.order != [] && r.order[0] == root
            && (forall c :: c in Children(g, root) ==> r.depth[c] == 1)
            && (root !in Children(g, root) ==> r.depth[root] == 0)
  {
    var calls := BfsCalls(g, root);
    var first := calls[..1];
    assert first[..0] == [] && first[0] == ([root], 0);
    var r0 := CountCalls(EmptyRecord, first);
    assert |first| == 1 && first[..|first| - 1] == [];
    assert CountCalls(EmptyRecord, first[..|first| - 1]) == EmptyRecord;
    assert r0 == CountAll(EmptyRecord, [root], 0);
    assert calls[..|calls| - 1] == first;
    CountAllMeaning(EmptyRecord, [root], 0);
    CountAllMeaning(r0, Children(g, root), 1);
    assert [root][..0] == [];
  }

  /** Every file of `s` has a recorded depth. */
  predicate Keyed(s: seq<FileId>, depth: map<FileId, int>) {
    forall x :: x in s ==> x in depth
  }

  /** `s` is ordered by decreasing depth. */
  predicate Descending(s: seq<FileId>, depth: map<FileId, int>)
    requires Keyed(s, depth)
  {
    forall i, j :: 0 <= i < j < |s| ==> depth[s[i]] >= depth[s[j]]
  }

  /** The files of `s` at depth `v`, in their order in `s`. */
  function Level(s: seq<FileId>, depth: map<FileId, int>, v: int): seq<FileId>
    requires Keyed(s, depth)
  {
    if s == [] then []
    else (if depth[s[0]] == v then [s[0]] else []) + Level(s[1..], depth, v)
  }

  lemma LevelCons(x: FileId, t: seq<FileId>, depth: map<FileId, int>, v: int)
    requires x in depth && Keyed(t, depth)
    ensures Level([x] + t, depth, v) == (if depth[x] == v then [x] else []) + Level(t, depth, v)
  {
    assert ([x] + t)[1..] == t;
  }

  /** `x` put into the descending `s` before the first file not deeper than it. */
  function Insert(x: FileId, s: seq<FileId>, depth: map<FileId, int>): (r: seq<FileId>)
    requires x in depth && Keyed(s, depth)
    ensures Keyed(r, depth)
  {
    if s == [] then [x]
    else if depth[x] >= depth[s[0]] then [x] + s
    else [s[0]] + Insert(x, s[1..], depth)
  }

  /** `sorted(keys, key=depth, reverse=True)`: Python's sort is stable, and
      stays stable when reversed, so files of equal depth keep their order. */
  function SortByDepth(s: seq<FileId>, depth: map<FileId, int>): (r: seq<FileId>)
    requires Keyed(s, depth)
    ensures Keyed(r, depth)
  {
    if s == [] then []
    else Insert(s[0], SortByDepth(s[1..], depth), depth)
  }

  lemma {:induction false} InsertPermutes(x: FileId, s: seq<FileId>, depth: map<FileId, int>)
    requires x in depth && Keyed(s, depth)
    ensures multiset(Insert(x, s, depth)) == multiset([x] + s)
    decreases |s|
  {
    if s != [] && depth[x] < depth[s[0]] {
      InsertPermutes(x, s[1..], depth);
      assert s == [s[0]] + s[1..];
    }
  }

  /** The sorted order holds the same files as `s`, each as often. */
  lemma {:induction false} SortPermutes(s: seq<FileId>, depth: map<FileId, int>)
    requires Keyed(s, depth)
    ensures multiset(SortByDepth(s, depth)) == multiset(s)
    decreases |s|
  {
    if s != [] {
      SortPermutes(s[1..], depth);
      InsertPermutes(s[0], SortByDepth(s[1..], depth), depth);
      assert s == [s[0]] + s[1..];
    }
  }

  /** A file at least as deep as the head of a descending run may precede it. */
  lemma ConsDescending(h: FileId, t: seq<FileId>, depth: map<FileId, int>)
    requires h in depth && Keyed(t, depth) && Descending(t, depth)
    requires t != [] ==> depth[h] >= depth[t[0]]
    ensures Keyed([h] + t, depth) && Descending([h] + t, depth)
  {
    var r := [h] + t;
    forall i, j | 0 <= i < j < |r|
      ensures depth[r[i]] >= depth[r[j]]
    {
      assert r[j] == t[j - 1];
      if i > 0 {
        assert r[i] == t[i - 1];
      } else if j > 1 {
        assert depth[t[0]] >= depth[t[j - 1]];
      }
    }
  }

  lemma {:induction false} InsertDescending(x: FileId, s: seq<FileId>, depth: map<FileId, int>)
    requires x in depth && Keyed(s, depth) && Descending(s, depth)
    ensures Descending(Insert(x, s, depth), depth)
    ensures Insert(x, s, depth)[0] == x || (s != [] && Insert(x, s, depth)[0] == s[0])
    decreases |s|
  {
    if s == [] || depth[x] >= depth[s[0]] {
      ConsDescending(x, s, depth);
    } else {
      assert Descending(s[1..], depth);
      InsertDescending(x, s[1..], depth);
      ConsDescending(s[0], Insert(x, s[1..], depth), depth);
    }
  }

  /** The order is by decreasing depth. */
  lemma {:induction false} SortDescending(s: seq<FileId>, depth: map<FileId, int>)
    requires Keyed(s, depth)
    ensures Keyed(SortByDepth(s, depth), depth) && Descending(SortByDepth(s, depth), depth)
    decreases |s|
  {
    if s != [] {
      SortDescending(s[1..], depth);
      InsertDescending(s[0], SortByDepth(s[1..], depth), depth);
    }
  }

  /** Putting `y` in front of a run with the same levels as `[x] + t`
      gives the levels of `[x, y] + t`. */
  lemma SwapLevel(x: FileId, y: FileId, xt: seq<FileId>, t: seq<FileId>, depth: map<FileId, int>, v: int)
    requires x in depth && y in depth && Keyed(xt, depth) && Keyed(t, depth)
    requires depth[x] < depth[y] && Level(xt, depth, v) == Level([x] + t, depth, v)
    ensures Level([y] + xt, depth, v) == Level([x] + ([y] + t), depth, v)
  {
    LevelCons(y, xt, depth, v);
    LevelCons(x, t, depth, v);
    LevelCons(x, [y] + t, depth, v);
    LevelCons(y, t, depth, v);
  }

  lemma {:induction false} InsertLevel(x: FileId, s: seq<FileId>, depth: map<FileId, int>, v: int)
    requires x in depth && Keyed(s, depth)
    ensures Level(Insert(x, s, depth), depth, v) == Level([x] + s, depth, v)
    decreases |s|
  {
    if s != [] && depth[x] < depth[s[0]] {
      InsertLevel(x, s[1..], depth, v);
      SwapLevel(x, s[0], Insert(x, s[1..], depth), s[1..], depth, v);
      assert s == [s[0]] + s[1..];
    }
  }

  /** The sort is stable: the files of each depth keep their relative order. */
  lemma {:induction false} SortLevel(s: seq<FileId>, depth: map<FileId, int>, v: int)
    requires Keyed(s, depth)
    ensures Level(SortByDepth(s, depth), depth, v) == Level(s, depth, v)
    decreases |s|
  {
    if s != [] {
      var t := SortByDepth(s[1..], depth);
      SortLevel(s[1..], depth, v);
      InsertLevel(s[0], t, depth, v);
      LevelCons(s[0], t, depth, v);
      LevelCons(s[0], s[1..], depth, v);
      assert s == [s[0]] + s[1..];
    }
  }

  /** The positions below `n` that are not directive lines, in increasing order. */
  function KeptIndices(n: nat, nums: seq<nat>): (r: seq<nat>)
    ensures forall k :: 0 <= k < |r| ==> r[k] < n && r[k] !in nums
    ensures forall i :: 0 <= i < n && i !in nums ==> i in r
    ensures forall k, l :: 0 <= k < l < |r| ==> r[k] < r[l]
  {
    if n == 0 then []
    else KeptIndices(n - 1, nums) + (if n - 1 in nums then [] else [n - 1])
  }

  /** The lines at positions `idx`, concatenated. */
  function LinesAt(lines: seq<string>, idx: seq<nat>): string
    requires forall k :: 0 <= k < |idx| ==> idx[k] < |lines|
  {
    if idx == [] then ""
    else LinesAt(lines, idx[..|idx| - 1]) + lines[idx[|idx| - 1]]
  }

  /** `''.join(l for i, l in enumerate(data) if not i in incl_lines)`: a
      file's lines without its directive lines, in their order. */
  function FileText(e: Entry): string {
    LinesAt(e.lines, KeptIndices(|e.lines|, e.lineNums))
  }

  /** The output text for the files of `order`, each followed by a newline. */
  function Assembled(order: seq<FileId>, data: map<FileId, Entry>): string
    requires forall p :: p in order ==> p in data
  {
    if order == [] then ""
    else Assembled(order[..|order| - 1], data) + FileText(data[order[|order| - 1]]) + "\n"
  }

  /** The generator joined for one file: its lines, skipping directive lines. */
  method JoinKept(e: Entry) returns (text: string)
    ensures text == FileText(e)
  {
    text := "";
    var idx := KeptIndices(|e.lines|, e.lineNums);
    for k := 0 to |idx|
      invariant text == LinesAt(e.lines, idx[..k])
    {
      text := text + e.lines[idx[k]];
      assert idx[..k + 1][..k] == idx[..k];
    }
    assert idx[..|idx|] == idx;
  }

  /** The loop of `main` that builds `out_lines`. */
  method Assemble(order: seq<FileId>, data: map<FileId, Entry>) returns (out: string)
    requires forall p :: p in order ==> p in data
    ensures out == Assembled(order, data)
  {
    out := "";
    for i := 0 to |order|
      invariant out == Assembled(order[..i], data)
    {
      var text := JoinKept(data[order[i]]);
      out := out + text + "\n";
      assert order[..i + 1][..i] == order[..i];
    }
    assert order[..|order|] == order;
  }

  /** The include structure of a finished build: each file's includes. */
  function GraphOf(h: History): Graph<FileId> {
    map f | f in h :: h[f].incl
  }

  /** The `file_data` of a finished build: each file's directive line numbers and lines. */
  function DataOf(h: History): map<FileId, Entry> {
    map f | f in h :: Entry(h[f].lineNums, h[f].lines)
  }

  /** `incl_order`: the files of the depth record, deepest first. */
  function InclOrder(g: Graph<FileId>, root: FileId): (r: seq<FileId>)
    ensures forall x :: x in r <==> x == root || x in Children(g, root)
  {
    DepthRecordMeaning(g, root);
    var rec := DepthRecord(g, root);
    var r := SortByDepth(rec.order, rec.depth);
    SortPermutes(rec.order, rec.depth);
    assert forall x :: x in r <==> x in multiset(rec.order);
    r
  }

  /** The text `main` writes for the entry file `entry`, or the error it raises. */
  function Compiled(fs: Fs, entry: FileId): Result<string> {
    match Build(fs, entry)
    case Err(e) => Err(e)
    case Ok(h) =>
      var g := GraphOf(h);
      match DfsCircuitCheck(g, entry)
      case Fail(e) => Err(e)
      case Pass =>
        BuildCloses(fs, entry);
        Ok(Assembled(InclOrder(g, entry), DataOf(h)))
  }

  /** `main` without its file handles: build, check, count, order, assemble. */
  method Compile(fs: Fs, entry: FileId) returns (r: Result<string>)
    ensures r == Compiled(fs, entry)
  {
    var built := FormTree(fs, entry);
    if built.Err? {
      return Err(built.error);
    }
    var t := built.value;
    ghost var h := Build(fs, entry).value;
    assert t.graph == GraphOf(h);
    assert t.data == DataOf(h);
    var check := DfsCircuitCheck(t.graph, t.root);
    if check.Fail? {
      return Err(check.error);
    }
    var record := BfsCountMaxDepth(t.graph, t.root);
    DepthRecordMeaning(t.graph, t.root);
    var order := SortByDepth(record.order, record.depth);
    assert order == InclOrder(t.graph, t.root);
    var out := Assemble(order, t.data);
    return Ok(out);
  }

  /** The elements of `s`, each at its first occurrence. */
  function Unique(s: seq<FileId>): (r: seq<FileId>)
    ensures forall x :: x in r <==> x in s
    ensures Distinct(r)
  {
    if s == [] then []
    else
      var init := s[..|s| - 1];
      var x := s[|s| - 1];
      assert s == init + [x];
      if x in init then Unique(init) else Unique(init) + [x]
  }

  /** Counting files none of which is recorded yet appends each at its first occurrence. */
  lemma {:induction false} CountAllOrder(rec: Record, objs: seq<FileId>, depth: int)
    requires WellKept(rec) && forall o :: o in objs ==> o !in rec.depth
    ensures CountAll(rec, objs, depth).order == rec.order + Unique(objs)
    decreases |objs|
  {
    if objs != [] {
      var init := objs[..|objs| - 1];
      CountAllOrder(rec, init, depth);
      CountAllMeaning(rec, init, depth);
    }
  }

  lemma {:induction false} LevelConst(s: seq<FileId>, depth: map<FileId, int>, v: int)
    requires Keyed(s, depth)
    ensures (forall x :: x in s ==> depth[x] == v) ==> Level(s, depth, v) == s
    ensures (forall x :: x in s ==> depth[x] != v) ==> Level(s, depth, v) == []
    decreases |s|
  {
    if s != [] {
      LevelConst(s[1..], depth, v);
    }
  }

  /** Below a head at depth 0, a descending run over depths 0 and 1 stays at depth 0. */
  lemma FlatAfterZero(s: seq<FileId>, depth: map<FileId, int>)
    requires Keyed(s, depth) && Descending(s, depth) && s != [] && depth[s[0]] == 0
    requires forall x :: x in s ==> depth[x] == 0 || depth[x] == 1
    ensures forall x :: x in s ==> depth[x] == 0
  {
    forall x | x in s
      ensures depth[x] == 0
    {
      var k :| 0 <= k < |s| && s[k] == x;
      assert depth[s[0]] >= depth[s[k]];
    }
  }

  lemma DescendingTail(s: seq<FileId>, depth: map<FileId, int>)
    requires Keyed(s, depth) && Descending(s, depth) && s != []
    ensures Keyed(s[1..], depth) && Descending(s[1..], depth)
  {
    forall i, j | 0 <= i < j < |s| - 1
      ensures depth[s[1..][i]] >= depth[s[1..][j]]
    {
      assert s[1..][i] == s[i + 1] && s[1..][j] == s[j + 1];
    }
  }

  /** A descending run of files at depths 1 and 0 is its depth-1 files, then its depth-0 files. */
  lemma {:induction false} TwoLevels(s: seq<FileId>, depth: map<FileId, int>)
    requires Keyed(s, depth) && Descending(s, depth)
    requires forall x :: x in s ==> depth[x] == 0 || depth[x] == 1
    ensures s == Level(s, depth, 1) + Level(s, depth, 0)
    decreases |s|
  {
    if s == [] {
    } else if depth[s[0]] == 0 {
      FlatAfterZero(s, depth);
      LevelConst(s, depth, 0);
      LevelConst(s, depth, 1);
      assert Level(s, depth, 1) == [];
    } else {
      var t := s[1..];
      assert s == [s[0]] + t;
      DescendingTail(s, depth);
      TwoLevels(t, depth);
      DeepHead(s[0], t, depth);
    }
  }

  lemma DeepHead(x: FileId, t: seq<FileId>, depth: map<FileId, int>)
    requires x in depth && depth[x] == 1 && Keyed(t, depth)
    requires t == Level(t, depth, 1) + Level(t, depth, 0)
    ensures [x] + t == Level([x] + t, depth, 1) + Level([x] + t, depth, 0)
  {
    LevelCons(x, t, depth, 1);
    LevelCons(x, t, depth, 0);
    var a, b := Level(t, depth, 1), Level(t, depth, 0);
    assert [x] + (a + b) == ([x] + a) + b;
  }

  /** The record built from `root`: the root, then its includes at their first occurrence. */
  lemma DepthRecordOrder(g: Graph<FileId>, root: FileId)
    requires root !in Children(g, root)
    ensures DepthRecord(g, root).order == [root] + Unique(Children(g, root))
  {
    var calls := BfsCalls(g, root);
    var first := calls[..1];
    assert first[..0] == [] && first[0] == ([root], 0);
    assert |first| == 1 && first[..|first| - 1] == [];
    assert CountCalls(EmptyRecord, first[..|first| - 1]) == EmptyRecord;
    var r0 := CountCalls(EmptyRecord, first);
    assert [root][..0] == [];
    assert r0 == CountAll(EmptyRecord, [root], 0);
    CountAllMeaning(EmptyRecord, [root], 0);
    assert calls[..|calls| - 1] == first;
    CountAllOrder(r0, Children(g, root), 1);
  }

  /** Sorting files at depths 1 and 0 puts the depth-1 files first and the
      depth-0 files after them, each group in its original order. */
  lemma SortTwoLevels(s: seq<FileId>, depth: map<FileId, int>)
    requires Keyed(s, depth)
    requires forall x :: x in s ==> depth[x] == 0 || depth[x] == 1
    ensures SortByDepth(s, depth) == Level(s, depth, 1) + Level(s, depth, 0)
  {
    var sorted := SortByDepth(s, depth);
    SortDescending(s, depth);
    SortPermutes(s, depth);
    assert forall x :: x in sorted ==> x in multiset(s);
    TwoLevels(sorted, depth);
    SortLevel(s, depth, 0);
    SortLevel(s, depth, 1);
  }

  /** Sorting a root at depth 0 followed by files at depth 1 moves the root
      behind them and keeps their order. */
  lemma RootLast(root: FileId, u: seq<FileId>, depth: map<FileId, int>)
    requires Keyed([root] + u, depth) && depth[root] == 0
    requires forall x :: x in u ==> depth[x] == 1
    ensures SortByDepth([root] + u, depth) == u + [root]
  {
    SortTwoLevels([root] + u, depth);
    LevelConst(u, depth, 0);
    LevelConst(u, depth, 1);
    LevelCons(root, u, depth, 0);
    LevelCons(root, u, depth, 1);
    assert Level([root] + u, depth, 1) == u;
    assert Level([root] + u, depth, 0) == [root];
  }

  /** With no self-include, `incl_order` is the root's includes, each at
      its first occurrence, and then the root. */
  lemma InclOrderShape(g: Graph<FileId>, root: FileId)
    requires root !in Children(g, root)
    ensures InclOrder(g, root) == Unique(Children(g, root)) + [root]
  {
    DepthRecordMeaning(g, root);
    DepthRecordOrder(g, root);
    RootLast(root, Unique(Children(g, root)), DepthRecord(g, root).depth);
  }

  /** Because `bfs_map` stops at depth 1, the output holds the entry file's
      direct includes, each once and in the order of their first directive,
      and then the entry file itself; files included only indirectly are
      left out. */
  lemma CompiledOrder(fs: Fs, entry: FileId)
    requires Compiled(fs, entry).Ok?
    ensures Build(fs, entry).Ok? && entry in Build(fs, entry).value
    ensures var h := Build(fs, entry).value;
            && entry !in h[entry].incl
            && (forall x :: x in h[entry].incl ==> x in h)
    ensures var h := Build(fs, entry).value;
            Compiled(fs, entry).value == Assembled(Unique(h[entry].incl) + [entry], DataOf(h))
  {
    var h := Build(fs, entry).value;
    var g := GraphOf(h);
    BuildCloses(fs, entry);
    assert Children(g, entry) == h[entry].incl;
    if entry in Children(g, entry) {
      SelfIncludeFails(g, entry);
    }
    InclOrderShape(g, entry);
  }

  /** `main` fails exactly when the build fails, with its error, or when
      some walk of includes from the entry file comes back to a file on it. */
  lemma CompiledErrors(fs: Fs, entry: FileId)
    ensures Build(fs, entry).Err? ==> Compiled(fs, entry) == Err(Build(fs, entry).error)
    ensures Build(fs, entry).Ok? ==>
              (Compiled(fs, entry).Ok? <==>
                 forall w :: WalkFrom(GraphOf(Build(fs, entry).value), entry, w) ==> w[|w| - 1] !in w[..|w| - 1])
  {
    if Build(fs, entry).Ok? {
      NoCircularInclude(GraphOf(Build(fs, entry).value), entry);
    }
  }
}
