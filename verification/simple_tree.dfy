/** The Node/Tree structure of the include compiler. A node's `child`
    attribute is a list OBJECT: a detached copy of a node adopts the very same
    list, so every copy sees later appends. `Tree` is a thin wrapper around a
    node that the node caches in its `tree` field, so wrapping a node twice
    gives the same wrapper. */
module SimpleTree {
  import opened Common

  /** The Python list held in a node's `child` attribute. */
  class ChildList<T(==)> {
    var items: seq<Node<T>>

    constructor (items: seq<Node<T>>)
      ensures this.items == items
    {
      this.items := items;
    }
  }

  class Node<T(==)> {
    const obj: T
    var father: Node?<T>
    var child: ChildList<T>
    var tree: Tree?<T>

    /** `Node(obj, father)`: no child argument gives a new empty list. */
    constructor Leaf(obj: T, father: Node?<T>)
      ensures this.obj == obj && this.father == father && tree == null
      ensures fresh(child) && child.items == []
    {
      this.obj := obj;
      this.father := father;
      child := new ChildList([]);
      tree := null;
    }

    /** `Node(obj, father, child=c)` with a single node: the list `[c]`,
        and `c` gets the new node as its father. */
    constructor WithChild(obj: T, father: Node?<T>, c: Node<T>)
      modifies c`father
      ensures this.obj == obj && this.father == father && tree == null
      ensures fresh(child) && child.items == [c] && c.father == this
    {
      this.obj := obj;
      this.father := father;
      child := new ChildList([c]);
      tree := null;
      new;
      c.father := this;
    }

    /** `Node(obj, father, child=list)`: the list object itself is adopted,
        not copied, and every node in it gets the new node as its father. */
    constructor WithList(obj: T, father: Node?<T>, list: ChildList<T>)
      modifies list.items`father
      ensures this.obj == obj && this.father == father && tree == null
      ensures child == list && list.items == old(list.items)
      ensures forall c :: c in list.items ==> c.father == this
    {
      this.obj := obj;
      this.father := father;
      child := list;
      tree := null;
      new;
      var i := 0;
      while i < |list.items|
        invariant 0 <= i <= |list.items|
        invariant this.father == father && child == list && tree == null
        invariant list.items == old(list.items)
        invariant forall k :: 0 <= k < i ==> list.items[k].father == this
      {
        list.items[i].father := this;
        i := i + 1;
      }
    }

    /** `have_father`: true exactly when the node has NO father. */
    predicate HaveFather(): (b: bool)
      reads this
      ensures b <==> father == null
    {
      father == null
    }

    /** `have_child`: the child list is not empty. */
    predicate HaveChild(): (b: bool)
      reads this, child
      ensures b <==> |child.items| > 0
    {
      child.items != []
    }

    /** The node's cached wrapper, if any, wraps the node itself. */
    predicate TreeLinked()
      reads this
    {
      tree != null ==> tree.initNode == this
    }

    /** `detached`: a fresh fatherless node with the same payload and the
        same list object; the nodes in that list now name the copy as father. */
    method Detached() returns (d: Node<T>)
      modifies child.items`father
      ensures fresh(d) && d.obj == obj && d.child == child && d.father == null && d.tree == null
      ensures child.items == old(child.items)
      ensures forall c :: c in child.items ==> c.father == d
    {
      d := new Node.WithList(obj, null, child);
    }

    /** `append_child`: a node without father is copied before being appended
        when `detach` holds; either way exactly one node is added at the end. */
    method AppendChild(x: Node<T>, detach: bool)
      modifies child`items, x.child.items`father
      ensures |child.items| == |old(child.items)| + 1
      ensures child.items[..|old(child.items)|] == old(child.items)
      ensures var y := child.items[|child.items| - 1];
              if old(x.father) == null && detach then
                && fresh(y) && y.obj == x.obj && y.child == x.child && y.father == null && y.tree == null
                && forall c :: c in old(x.child.items) ==> c.father == y
              else
                y == x
      ensures !(old(x.father) == null && detach) ==>
                forall c :: c in old(x.child.items) ==> c.father == old(c.father)
    {
      var y := x;
      if x.HaveFather() && detach {
        y := x.Detached();
      }
      child.items := child.items + [y];
    }

    /** `__eq__`: nodes compare by payload; anything that is not a node is different. */
    predicate Equals(x: Operand<T>) {
      match x
      case NodeOperand(n) => obj == n.obj
      case NonNode => false
    }
  }

  /** The right-hand side of `==`: a node, or a value without an `obj` attribute. */
  datatype Operand<T(==)> = NodeOperand(node: Node<T>) | NonNode

  /** Node equality is an equivalence on nodes and never holds against a non-node. */
  lemma EqualsEquivalence<T>(a: Node<T>, b: Node<T>, c: Node<T>)
    ensures a.Equals(NodeOperand(a))
    ensures a.Equals(NodeOperand(b)) <==> b.Equals(NodeOperand(a))
    ensures a.Equals(NodeOperand(b)) && b.Equals(NodeOperand(c)) ==> a.Equals(NodeOperand(c))
    ensures a.Equals(NodeOperand(b)) <==> a.obj == b.obj
    ensures !a.Equals(NonNode)
  {
  }

  class Tree<T(==)> {
    const initNode: Node<T>

    /** `Tree(node)` for a node that has no wrapper yet: the node caches it. */
    constructor Wrapping(n: Node<T>)
      modifies n`tree
      ensures initNode == n && n.tree == this
    {
      initNode := n;
      new;
      n.tree := this;
    }

    /** `Tree(node)` through `__new__`: a node that already has a wrapper gets
        that same wrapper back, untouched; otherwise a new one is made and cached. */
    static method Wrap(n: Node<T>) returns (t: Tree<T>)
      requires n.TreeLinked()
      modifies n`tree
      ensures t.initNode == n && n.tree == t && n.TreeLinked()
      ensures old(n.tree) != null ==> t == old(n.tree)
      ensures old(n.tree) == null ==> fresh(t)
    {
      if n.tree != null {
        t := n.tree;
      } else {
        t := new Tree.Wrapping(n);
      }
    }

    /** `Tree()`: a wrapper around a new leaf carrying `obj` (None in the source). */
    static method Empty(obj: T) returns (t: Tree<T>)
      ensures fresh(t) && fresh(t.initNode) && fresh(t.initNode.child)
      ensures t.initNode.obj == obj && t.initNode.father == null && t.initNode.child.items == []
      ensures t.initNode.tree == t
    {
      var n := new Node.Leaf(obj, null);
      t := Wrap(n);
    }

    /** `__getitem__`: Python indexing into the child list (negative indices
        count from the end, anything else raises IndexError), then wrapping. */
    method GetItem(i: int) returns (r: Result<Tree<T>>)
      requires forall n :: n in initNode.child.items ==> n.TreeLinked()
      modifies initNode.child.items`tree
      ensures var items := initNode.child.items;
              && (r.Ok? <==> -|items| <= i < |items|)
              && (r.Ok? ==> r.value.initNode == items[if i < 0 then i + |items| else i])
              && (r.Ok? ==> items[if i < 0 then i + |items| else i].tree == r.value)
              && (r.Err? ==> r.error == IndexError)
      ensures initNode.child.items == old(initNode.child.items)
      ensures forall n :: n in initNode.child.items ==> n.TreeLinked()
      ensures var items := initNode.child.items;
              && (r.Ok? && old(items[if i < 0 then i + |items| else i].tree) != null ==>
                    r.value == old(items[if i < 0 then i + |items| else i].tree))
              && (r.Ok? && old(items[if i < 0 then i + |items| else i].tree) == null ==> fresh(r.value))
      ensures forall n :: n in initNode.child.items && (r.Err? || n != r.value.initNode) ==> n.tree == old(n.tree)
    {
      var items := initNode.child.items;
      if -|items| <= i < |items| {
        var t := Wrap(items[if i < 0 then i + |items| else i]);
        r := Ok(t);
      } else {
        r := Err(IndexError);
      }
    }

    /** `__iter__`: the wrappers of the children, in list order. */
    method Iter() returns (ts: seq<Tree<T>>)
      requires forall n :: n in initNode.child.items ==> n.TreeLinked()
      modifies initNode.child.items`tree
      ensures initNode.child.items == old(initNode.child.items)
      ensures |ts| == |initNode.child.items|
      ensures forall k :: 0 <= k < |ts| ==> ts[k].initNode == initNode.child.items[k]
      ensures forall k :: 0 <= k < |ts| ==> initNode.child.items[k].tree == ts[k]
      ensures forall k :: 0 <= k < |ts| ==>
                (old(initNode.child.items[k].tree) != null ==> ts[k] == old(initNode.child.items[k].tree))
                && (old(initNode.child.items[k].tree) == null ==> fresh(ts[k]))
      ensures forall n :: n in initNode.child.items ==> n.TreeLinked()
    {
      var items := initNode.child.items;
      ts := [];
      while |ts| < |items|
        invariant |ts| <= |items|
        invariant forall n :: n in items ==> n.TreeLinked()
        invariant forall n :: n in items && old(n.tree) != null ==> n.tree == old(n.tree)
        invariant forall n :: n in items && old(n.tree) == null ==> n.tree == null || fresh(n.tree)
        invariant forall k :: 0 <= k < |ts| ==> ts[k].initNode == items[k] && items[k].tree == ts[k]
      {
        var t := Wrap(items[|ts|]);
        ts := ts + [t];
      }
    }

    /** `append_node`. */
    method AppendNode(x: Node<T>, detach: bool)
      modifies initNode.child`items, x.child.items`father
      ensures |initNode.child.items| == |old(initNode.child.items)| + 1
      ensures initNode.child.items[..|old(initNode.child.items)|] == old(initNode.child.items)
      ensures var y := initNode.child.items[|initNode.child.items| - 1];
              if old(x.father) == null && detach then
                && fresh(y) && y.obj == x.obj && y.child == x.child && y.father == null && y.tree == null
                && forall c :: c in old(x.child.items) ==> c.father == y
              else
                y == x
      ensures !(old(x.father) == null && detach) ==>
                forall c :: c in old(x.child.items) ==> c.father == old(c.father)
    {
      initNode.AppendChild(x, detach);
    }

    /** `getobj`: the payload of the wrapped node. */
    function GetObj(): (r: T)
      ensures r == initNode.obj
    {
      initNode.obj
    }

    /** `is_end`: the wrapped node has no children. */
    predicate IsEnd(): (b: bool)
      reads initNode, initNode.child
      ensures b <==> |initNode.child.items| == 0
    {
      !initNode.HaveChild()
    }
  }

  /** The include structure as the traversals see it: the payloads of a
      node's children depend only on the node's payload, because all copies
      of a node share one child list. */
  type Graph<T> = map<T, seq<T>>

  function Children<T>(g: Graph<T>, x: T): seq<T> {
    if x in g then g[x] else []
  }

  /** The heap nodes in `ns` realise `g`: each node's child list holds nodes
      of `ns` whose payloads are the graph's successors, in order. */
  predicate Realises<T(==)>(ns: set<Node<T>>, g: Graph<T>)
    reads ns, set n | n in ns :: n.child
  {
    && (forall n :: n in ns ==> |n.child.items| == |Children(g, n.obj)|)
    && (forall n, k {:trigger n.child.items[k]} :: n in ns && 0 <= k < |n.child.items| ==>
          n.child.items[k] in ns && n.child.items[k].obj == Children(g, n.obj)[k])
  }

  /** The callback `dfs_map` is given, on the payloads along the current path;
      `Fail` stands for the exception that ends the traversal. */
  type Check<!T> = seq<T> -> Outcome

  /** `x` already occurs on `p`. */
  predicate Repeated<T(==)>(p: seq<T>, x: T) {
    x in p
  }

  /** The callback raises whenever the newest payload already occurs on the
      path. Without it `dfs_map` runs forever on a circular structure. */
  ghost predicate RejectsRepeats<T(!new)>(check: Check<T>) {
    forall p: seq<T>, x: T {:trigger Repeated(p, x)} :: Repeated(p, x) ==> check(p + [x]).Fail?
  }

  /** A valid path of the traversal: no payload twice, and every payload but
      the last has a successor on the path, so it is a key of the graph. */
  predicate PathOk<T(==,!new)>(g: Graph<T>, path: seq<T>) {
    path != [] && Distinct(path) && forall k :: 0 <= k < |path| - 1 ==> path[k] in g
  }

  /** Extending a valid path by a successor the callback accepted keeps it
      valid; a valid path is at most one longer than the graph has keys. */
  lemma Extend<T(!new)>(g: Graph<T>, check: Check<T>, path: seq<T>, c: T)
    requires RejectsRepeats(check) && PathOk(g, path)
    requires c in Children(g, path[|path| - 1])
    requires check(path + [c]).Pass?
    ensures PathOk(g, path + [c])
    ensures |path + [c]| <= |g.Keys| + 1
  {
    var next := path + [c];
    assert !Repeated(path, c);
    DistinctBound(path, g.Keys);
  }

  /** What `dfs_map` does from the frame of `path` on, once the first `i`
      children of its last payload are done: push each further child, call
      the callback on the extended path, and descend (preorder). */
  function ExploreFrom<T(==,!new)>(g: Graph<T>, check: Check<T>, path: seq<T>, i: nat): Outcome
    requires RejectsRepeats(check) && PathOk(g, path)
    decreases |g.Keys| + 1 - |path|, |Children(g, path[|path| - 1])| - i
  {
    var ch := Children(g, path[|path| - 1]);
    if i >= |ch| then Pass
    else if check(path + [ch[i]]).Fail? then check(path + [ch[i]])
    else
      Extend(g, check, path, ch[i]);
      var below := ExploreFrom(g, check, path + [ch[i]], 0);
      if below.Fail? then below else ExploreFrom(g, check, path, i + 1)
  }

  /** `dfs_map(f, t)` as a value. */
  function Dfs<T(==,!new)>(g: Graph<T>, check: Check<T>, root: T): Outcome
    requires RejectsRepeats(check)
  {
    ExploreFrom(g, check, [root], 0)
  }

  /** The stack of `dfs_map`'s loop: payloads along the path and, per frame,
      how many children were already taken. */
  predicate StackOk<T(==,!new)>(g: Graph<T>, objs: seq<T>, iters: seq<nat>) {
    |objs| == |iters| && (objs != [] ==> PathOk(g, objs))
  }

  lemma PrefixOk<T(!new)>(g: Graph<T>, objs: seq<T>)
    requires PathOk(g, objs) && |objs| > 1
    ensures PathOk(g, objs[..|objs| - 1])
  {
    var p := objs[..|objs| - 1];
    assert p[0] == objs[0];
    assert forall k :: 0 <= k < |p| ==> p[k] == objs[k];
  }

  /** Finishing every open frame, innermost first. */
  function Resume<T(==,!new)>(g: Graph<T>, check: Check<T>, objs: seq<T>, iters: seq<nat>): Outcome
    requires RejectsRepeats(check) && StackOk(g, objs, iters)
    decreases |objs|
  {
    if objs == [] then Pass
    else
      var top := ExploreFrom(g, check, objs, iters[|iters| - 1]);
      if top.Fail? then top
      else if |objs| == 1 then Pass
      else
        PrefixOk(g, objs);
        Resume(g, check, objs[..|objs| - 1], iters[..|iters| - 1])
  }

  /** Loop rounds `ExploreFrom` stands for, counting the final pop. */
  function Steps<T(==,!new)>(g: Graph<T>, check: Check<T>, path: seq<T>, i: nat): nat
    requires RejectsRepeats(check) && PathOk(g, path)
    decreases |g.Keys| + 1 - |path|, |Children(g, path[|path| - 1])| - i
  {
    var ch := Children(g, path[|path| - 1]);
    if i >= |ch| then 1
    else if check(path + [ch[i]]).Fail? then 1
    else
      Extend(g, check, path, ch[i]);
      1 + Steps(g, check, path + [ch[i]], 0) + Steps(g, check, path, i + 1)
  }

  /** Loop rounds left until every open frame is finished. */
  function Work<T(==,!new)>(g: Graph<T>, check: Check<T>, objs: seq<T>, iters: seq<nat>): nat
    requires RejectsRepeats(check) && StackOk(g, objs, iters)
    decreases |objs|
  {
    if objs == [] then 0
    else if |objs| == 1 then Steps(g, check, objs, iters[0])
    else
      PrefixOk(g, objs);
      Steps(g, check, objs, iters[|iters| - 1]) + Work(g, check, objs[..|objs| - 1], iters[..|iters| - 1])
  }

  /** `dfs_map(f, t)`: an explicit stack of path nodes, their payloads and
      child iterators; the callback sees the payload path after every push,
      never for the root alone and never on backtrack. */
  method DfsMap<T(==,!new)>(check: Check<T>, t: Tree<T>, ghost g: Graph<T>, ghost ns: set<Node<T>>)
    returns (r: Outcome)
    requires RejectsRepeats(check)
    requires t.initNode in ns && Realises(ns, g)
    ensures r == Dfs(g, check, t.initNode.obj)
  {
    var path := [t.initNode];
    var objs := [t.initNode.obj];
    var iters: seq<nat> := [0];
    assert PathOk(g, objs);
    while path != []
      invariant |path| == |objs| == |iters|
      invariant StackOk(g, objs, iters)
      invariant objs != [] ==> objs[0] == t.initNode.obj
      invariant forall k :: 0 <= k < |path| ==> path[k] in ns && path[k].obj == objs[k]
      invariant Resume(g, check, objs, iters) == Dfs(g, check, t.initNode.obj)
      decreases Work(g, check, objs, iters)
    {
      var top := path[|path| - 1];
      var i := iters[|iters| - 1];
      if i < |top.child.items| {
        var c := top.child.items[i];
        assert top in ns && top.obj == objs[|objs| - 1];
        assert c in ns && c.obj == Children(g, objs[|objs| - 1])[i];
        ghost var objs0, iters0 := objs, iters;
        path := path + [c];
        objs := objs + [c.obj];
        iters := iters[..|iters| - 1] + [i + 1] + [0];
        var res := check(objs);
        if res.Fail? {
          FailNow(g, check, objs0, iters0);
          return res;
        }
        PushStep(g, check, objs0, iters0, c.obj, iters);
      } else {
        PopStep(g, check, objs, iters);
        path := path[..|path| - 1];
        objs := objs[..|objs| - 1];
        iters := iters[..|iters| - 1];
      }
    }
    r := Pass;
  }

  /** One push of the loop (the callback accepted the next child) keeps the
      outcome still to come and shrinks the rounds left. */
  lemma PushStep<T(!new)>(g: Graph<T>, check: Check<T>, objs: seq<T>, iters: seq<nat>, c: T, next: seq<nat>)
    requires RejectsRepeats(check) && StackOk(g, objs, iters) && objs != []
    requires iters[|iters| - 1] < |Children(g, objs[|objs| - 1])|
    requires c == Children(g, objs[|objs| - 1])[iters[|iters| - 1]]
    requires check(objs + [c]).Pass?
    requires next == iters[..|iters| - 1] + [iters[|iters| - 1] + 1] + [0]
    ensures && StackOk(g, objs + [c], next)
            && Resume(g, check, objs + [c], next) == Resume(g, check, objs, iters)
            && Work(g, check, objs + [c], next) < Work(g, check, objs, iters)
  {
    var mid := iters[..|iters| - 1] + [iters[|iters| - 1] + 1];
    NextChild(g, check, objs, iters, mid);
    PushFrame(g, check, objs, mid, c);
  }

  /** Resuming with a new top frame is exploring it, then resuming below. */
  lemma PushFrame<T(!new)>(g: Graph<T>, check: Check<T>, objs: seq<T>, iters: seq<nat>, c: T)
    requires RejectsRepeats(check) && StackOk(g, objs, iters) && objs != []
    requires PathOk(g, objs + [c])
    ensures StackOk(g, objs + [c], iters + [0])
    ensures var below := ExploreFrom(g, check, objs + [c], 0);
            Resume(g, check, objs + [c], iters + [0]) == if below.Fail? then below else Resume(g, check, objs, iters)
    ensures Work(g, check, objs + [c], iters + [0]) == Steps(g, check, objs + [c], 0) + Work(g, check, objs, iters)
  {
    var objs' := objs + [c];
    var iters' := iters + [0];
    assert objs'[..|objs'| - 1] == objs;
    assert iters'[..|iters'| - 1] == iters;
  }

  /** Advancing the top frame past a child the callback accepted: that
      child's subtree comes first, then the rest of the frame. */
  lemma NextChild<T(!new)>(g: Graph<T>, check: Check<T>, objs: seq<T>, iters: seq<nat>, mid: seq<nat>)
    requires RejectsRepeats(check) && StackOk(g, objs, iters) && objs != []
    requires iters[|iters| - 1] < |Children(g, objs[|objs| - 1])|
    requires check(objs + [Children(g, objs[|objs| - 1])[iters[|iters| - 1]]]).Pass?
    requires mid == iters[..|iters| - 1] + [iters[|iters| - 1] + 1]
    ensures StackOk(g, objs, mid)
    ensures PathOk(g, objs + [Children(g, objs[|objs| - 1])[iters[|iters| - 1]]])
    ensures var below := ExploreFrom(g, check, objs + [Children(g, objs[|objs| - 1])[iters[|iters| - 1]]], 0);
            Resume(g, check, objs, iters) == if below.Fail? then below else Resume(g, check, objs, mid)
    ensures Work(g, check, objs, iters) ==
              1 + Steps(g, check, objs + [Children(g, objs[|objs| - 1])[iters[|iters| - 1]]], 0) + Work(g, check, objs, mid)
  {
    var i := iters[|iters| - 1];
    var c := Children(g, objs[|objs| - 1])[i];
    Extend(g, check, objs, c);
    assert mid[..|mid| - 1] == iters[..|iters| - 1];
    assert mid[|mid| - 1] == i + 1;
    var below := ExploreFrom(g, check, objs + [c], 0);
    var after := ExploreFrom(g, check, objs, i + 1);
    assert ExploreFrom(g, check, objs, i) == if below.Fail? then below else after;
    assert Steps(g, check, objs, i) == 1 + Steps(g, check, objs + [c], 0) + Steps(g, check, objs, i + 1);
    if |objs| > 1 {
      PrefixOk(g, objs);
      var rest := Resume(g, check, objs[..|objs| - 1], iters[..|iters| - 1]);
      assert Resume(g, check, objs, mid) == if after.Fail? then after else rest;
      assert Resume(g, check, objs, iters) == if ExploreFrom(g, check, objs, i).Fail? then ExploreFrom(g, check, objs, i) else rest;
    } else {
      assert Resume(g, check, objs, mid) == if after.Fail? then after else Pass;
    }
  }

  /** A child the callback rejects ends the traversal with its exception. */
  lemma FailNow<T(!new)>(g: Graph<T>, check: Check<T>, objs: seq<T>, iters: seq<nat>)
    requires RejectsRepeats(check) && StackOk(g, objs, iters) && objs != []
    requires iters[|iters| - 1] < |Children(g, objs[|objs| - 1])|
    requires check(objs + [Children(g, objs[|objs| - 1])[iters[|iters| - 1]]]).Fail?
    ensures Resume(g, check, objs, iters) == check(objs + [Children(g, objs[|objs| - 1])[iters[|iters| - 1]]])
  {
  }

  /** One pop of the loop (the top frame's children are used up) keeps the
      outcome still to come and shrinks the rounds left. */
  lemma PopStep<T(!new)>(g: Graph<T>, check: Check<T>, objs: seq<T>, iters: seq<nat>)
    requires RejectsRepeats(check) && StackOk(g, objs, iters) && objs != []
    requires iters[|iters| - 1] >= |Children(g, objs[|objs| - 1])|
    ensures StackOk(g, objs[..|objs| - 1], iters[..|iters| - 1])
    ensures Resume(g, check, objs[..|objs| - 1], iters[..|iters| - 1]) == Resume(g, check, objs, iters)
    ensures Work(g, check, objs[..|objs| - 1], iters[..|iters| - 1]) < Work(g, check, objs, iters)
  {
    if |objs| > 1 {
      PrefixOk(g, objs);
    }
  }

  /** `ext` continues `path` through one of the children of its last payload
      from position `i` on, then from successor to successor, with no payload
      repeated before its last step. */
  predicate Continues<T(==)>(g: Graph<T>, path: seq<T>, i: nat, ext: seq<T>)
    requires path != []
  {
    var ch := Children(g, path[|path| - 1]);
    && ext != []
    && (exists j :: i <= j < |ch| && ext[0] == ch[j])
    && (forall k :: 0 <= k < |ext| - 1 ==> ext[k + 1] in Children(g, ext[k]))
    && Distinct(path + ext[..|ext| - 1])
  }

  /** A walk from `root` of at least one step whose payloads are pairwise
      different except possibly the last: the paths `dfs_map` may call its
      callback on. */
  predicate WalkFrom<T(==)>(g: Graph<T>, root: T, w: seq<T>) {
    && |w| >= 2 && w[0] == root
    && (forall k :: 0 <= k < |w| - 1 ==> w[k + 1] in Children(g, w[k]))
    && Distinct(w[..|w| - 1])
  }

  /** Walks through the `j`-th child start, after the frame, with that child. */
  lemma ContinuesBelow<T>(g: Graph<T>, path: seq<T>, i: nat, j: nat, ext: seq<T>)
    requires path != [] && |ext| > 1
    requires i <= j < |Children(g, path[|path| - 1])| && ext[0] == Children(g, path[|path| - 1])[j]
    ensures Continues(g, path, i, ext) <==> Continues(g, path + [ext[0]], 0, ext[1..])
    ensures path + ext == (path + [ext[0]]) + ext[1..]
  {
    var p := path + [ext[0]];
    var e := ext[1..];
    assert p + e[..|e| - 1] == path + ext[..|ext| - 1];
    assert p[|p| - 1] == ext[0];
    if Continues(g, p, 0, e) {
      forall k | 0 <= k < |ext| - 1
        ensures ext[k + 1] in Children(g, ext[k])
      {
        if k > 0 {
          assert ext[k + 1] == e[k] && ext[k] == e[k - 1];
        }
      }
    }
    if Continues(g, path, i, ext) {
      assert e[0] == ext[1] && ext[1] in Children(g, ext[0]);
      var ch := Children(g, ext[0]);
      var j' :| 0 <= j' < |ch| && ch[j'] == e[0];
      forall k | 0 <= k < |e| - 1
        ensures e[k + 1] in Children(g, e[k])
      {
        assert e[k + 1] == ext[k + 2] && e[k] == ext[k + 1];
      }
    }
  }

  /** When the traversal from a frame passes, the callback accepts every walk
      that continues the frame. */
  lemma {:induction false} PassCovers<T(!new)>(g: Graph<T>, check: Check<T>, path: seq<T>, i: nat, ext: seq<T>)
    requires RejectsRepeats(check) && PathOk(g, path)
    requires ExploreFrom(g, check, path, i) == Pass
    requires Continues(g, path, i, ext)
    ensures check(path + ext).Pass?
    decreases |g.Keys| + 1 - |path|, |Children(g, path[|path| - 1])| - i
  {
    var ch := Children(g, path[|path| - 1]);
    var j :| i <= j < |ch| && ext[0] == ch[j];
    if ext[0] == ch[i] {
      if |ext| == 1 {
        assert path + ext == path + [ch[i]];
      } else {
        Extend(g, check, path, ch[i]);
        ContinuesBelow(g, path, i, i, ext);
        PassCovers(g, check, path + [ch[i]], 0, ext[1..]);
      }
    } else {
      assert Continues(g, path, i + 1, ext);
      PassCovers(g, check, path, i + 1, ext);
    }
  }

  /** A callback that accepts every walk continuing a frame at `i` accepts
      every walk below the `i`-th child. */
  lemma CoversChild<T>(g: Graph<T>, check: Check<T>, path: seq<T>, i: nat)
    requires path != [] && i < |Children(g, path[|path| - 1])|
    requires forall ext :: Continues(g, path, i, ext) ==> check(path + ext).Pass?
    ensures var p := path + [Children(g, path[|path| - 1])[i]];
            forall e :: Continues(g, p, 0, e) ==> check(p + e).Pass?
  {
    var c := Children(g, path[|path| - 1])[i];
    var p := path + [c];
    forall e | Continues(g, p, 0, e)
      ensures check(p + e).Pass?
    {
      var ext := [c] + e;
      assert ext[0] == c && ext[1..] == e;
      ContinuesBelow(g, path, i, i, ext);
    }
  }

  /** ... and every walk continuing the frame at `i + 1`. */
  lemma CoversNext<T>(g: Graph<T>, check: Check<T>, path: seq<T>, i: nat)
    requires path != []
    requires forall ext :: Continues(g, path, i, ext) ==> check(path + ext).Pass?
    ensures forall ext :: Continues(g, path, i + 1, ext) ==> check(path + ext).Pass?
  {
    forall ext | Continues(g, path, i + 1, ext)
      ensures check(path + ext).Pass?
    {
      assert Continues(g, path, i, ext);
    }
  }

  /** When the callback accepts every walk that continues a frame, the
      traversal from that frame passes. */
  lemma {:induction false} CoversPass<T(!new)>(g: Graph<T>, check: Check<T>, path: seq<T>, i: nat)
    requires RejectsRepeats(check) && PathOk(g, path)
    requires forall ext :: Continues(g, path, i, ext) ==> check(path + ext).Pass?
    ensures ExploreFrom(g, check, path, i) == Pass
    decreases |g.Keys| + 1 - |path|, |Children(g, path[|path| - 1])| - i
  {
    var ch := Children(g, path[|path| - 1]);
    if i < |ch| {
      assert [ch[i]][..0] == [];
      assert path + [ch[i]][..0] == path;
      assert Continues(g, path, i, [ch[i]]);
      Extend(g, check, path, ch[i]);
      CoversChild(g, check, path, i);
      CoversPass(g, check, path + [ch[i]], 0);
      CoversNext(g, check, path, i);
      CoversPass(g, check, path, i + 1);
    }
  }

  /** When the traversal from a frame fails, the exception is the callback's
      on some walk that continues the frame. */
  lemma {:induction false} FailWitness<T(!new)>(g: Graph<T>, check: Check<T>, path: seq<T>, i: nat)
    requires RejectsRepeats(check) && PathOk(g, path)
    requires ExploreFrom(g, check, path, i).Fail?
    ensures exists ext :: Continues(g, path, i, ext) && check(path + ext) == ExploreFrom(g, check, path, i)
    decreases |g.Keys| + 1 - |path|, |Children(g, path[|path| - 1])| - i
  {
    var ch := Children(g, path[|path| - 1]);
    assert i < |ch|;
    assert [ch[i]][..0] == [];
    assert path + [ch[i]][..0] == path;
    assert Continues(g, path, i, [ch[i]]);
    if check(path + [ch[i]]).Fail? {
      assert check(path + [ch[i]]) == ExploreFrom(g, check, path, i);
    } else {
      Extend(g, check, path, ch[i]);
      var p := path + [ch[i]];
      if ExploreFrom(g, check, p, 0).Fail? {
        FailWitness(g, check, p, 0);
        var e :| Continues(g, p, 0, e) && check(p + e) == ExploreFrom(g, check, p, 0);
        var ext := [ch[i]] + e;
        assert ext[0] == ch[i] && ext[1..] == e;
        ContinuesBelow(g, path, i, i, ext);
      } else {
        FailWitness(g, check, path, i + 1);
        var ext :| Continues(g, path, i + 1, ext) && check(path + ext) == ExploreFrom(g, check, path, i + 1);
        assert Continues(g, path, i, ext);
      }
    }
  }

  /** `dfs_map` on a structure realising `g` passes exactly when the callback
      accepts every walk from the root whose payloads are distinct before its
      last step; otherwise its exception is the callback's on one such walk. */
  lemma DfsOutcome<T(!new)>(g: Graph<T>, check: Check<T>, root: T)
    requires RejectsRepeats(check)
    ensures Dfs(g, check, root) == Pass <==> forall w :: WalkFrom(g, root, w) ==> check(w).Pass?
    ensures Dfs(g, check, root).Fail? ==> exists w :: WalkFrom(g, root, w) && check(w) == Dfs(g, check, root)
  {
    var p := [root];
    assert PathOk(g, p);
    forall w | WalkFrom(g, root, w)
      ensures Continues(g, p, 0, w[1..]) && p + w[1..] == w
    {
      var e := w[1..];
      assert p + e == w;
      assert p + e[..|e| - 1] == w[..|w| - 1];
      assert e[0] == w[1] && w[1] in Children(g, root);
      forall k | 0 <= k < |e| - 1
        ensures e[k + 1] in Children(g, e[k])
      {
        assert e[k + 1] == w[k + 2] && e[k] == w[k + 1];
      }
    }
    forall e | Continues(g, p, 0, e)
      ensures WalkFrom(g, root, p + e)
    {
      var w := p + e;
      assert w[..|w| - 1] == p + e[..|e| - 1];
      forall k | 0 <= k < |w| - 1
        ensures w[k + 1] in Children(g, w[k])
      {
        if k == 0 {
          var j :| 0 <= j < |Children(g, root)| && e[0] == Children(g, root)[j];
        } else {
          assert w[k + 1] == e[k] && w[k] == e[k - 1];
        }
      }
    }
    if Dfs(g, check, root) == Pass {
      forall w | WalkFrom(g, root, w)
        ensures check(w).Pass?
      {
        PassCovers(g, check, p, 0, w[1..]);
      }
    } else {
      FailWitness(g, check, p, 0);
    }
    if forall w :: WalkFrom(g, root, w) ==> check(w).Pass? {
      CoversPass(g, check, p, 0);
    }
  }

  /** Pigeonhole: every payload of a walk but the last has a successor, so it
      is a key of the graph; a walk with more steps than the graph has keys
      therefore repeats a payload before its last step. */
  lemma LongWalkRepeats<T>(g: Graph<T>, w: seq<T>)
    requires forall k :: 0 <= k < |w| - 1 ==> w[k + 1] in Children(g, w[k])
    requires |w| > |g.Keys| + 1
    ensures !Distinct(w[..|w| - 1])
  {
    var p := w[..|w| - 1];
    forall k | 0 <= k < |p|
      ensures p[k] in g.Keys
    {
      assert w[k + 1] in Children(g, w[k]);
    }
    if Distinct(p) {
      DistinctBound(p, g.Keys);
    }
  }

  /** The payloads of a sequence of nodes, in order. */
  function Payloads<T>(ns: seq<Node<T>>): (r: seq<T>)
    ensures |r| == |ns|
  {
    seq(|ns|, k requires 0 <= k < |ns| => ns[k].obj)
  }

  /** `chain(*base)`: the children of every node of `base`, one list after
      the other. */
  function Layer<T>(base: seq<Node<T>>): (r: seq<Node<T>>)
    reads set n | n in base, set n | n in base :: n.child
  {
    if base == [] then [] else base[0].child.items + Layer(base[1..])
  }

  /** The nodes of `s` that are not ends (they have a child). */
  function NonLeaves<T>(s: seq<Node<T>>): (r: seq<Node<T>>)
    reads set n | n in s, set n | n in s :: n.child
  {
    if s == [] then []
    else (if s[0].HaveChild() then [s[0]] else []) + NonLeaves(s[1..])
  }

  /** `bfs_map(f, t)`, returning the arguments of the calls to `f` in order.
      `layer` is one single-use iterator, modelled by a read position: the
      payload tuple uses it up, so the next `base` is built from nothing and
      the walk ends after depth 1 whatever the depth of the tree. */
  method BfsMap<T>(t: Tree<T>) returns (calls: seq<(seq<T>, int)>)
    ensures calls == [([t.initNode.obj], 0), (Payloads(t.initNode.child.items), 1)]
  {
    calls := [([t.GetObj()], 0)];
    var depth := 1;
    var base := [t.initNode];
    while base != []
      invariant || (depth == 1 && base == [t.initNode] && calls == [([t.initNode.obj], 0)])
                || (depth == 2 && base == [] &&
                    calls == [([t.initNode.obj], 0), (Payloads(t.initNode.child.items), 1)])
      decreases |base|
    {
      assert base == [t.initNode] && base[1..] == [];
      assert Layer(base[1..]) == [];
      var layer := Layer(base);
      var pos := 0;
      var objs := [];
      while pos < |layer|
        invariant 0 <= pos <= |layer|
        invariant objs == Payloads(layer[..pos])
      {
        objs := objs + [layer[pos].obj];
        pos := pos + 1;
      }
      assert layer[..pos] == layer == t.initNode.child.items;
      calls := calls + [(objs, depth)];
      depth := depth + 1;
      base := NonLeaves(layer[pos..]);
    }
  }
}
