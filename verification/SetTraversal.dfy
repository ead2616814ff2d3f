/** The walk over a set of descriptors and the sets in it, with a stack of its own (xoz/dsc/descriptor_set.h). */
module SetTraversal {
  /** A set and the sets in it, in the order of its collection of children. */
  datatype Tree = Node(id: nat, children: seq<Tree>)

  datatype Visit = Visit(id: nat, depth: nat)

  // ---------------------------------------------------------------------------------------------
  // The two orders, by recursion
  // ---------------------------------------------------------------------------------------------

  function PreOrder(t: Tree, depth: nat): seq<Visit> {
    [Visit(t.id, depth)] + PreOrders(t.children, depth + 1)
  }

  function PreOrders(ts: seq<Tree>, depth: nat): seq<Visit> {
    if ts == [] then [] else PreOrder(ts[0], depth) + PreOrders(ts[1..], depth)
  }

  function PostOrder(t: Tree, depth: nat): seq<Visit> {
    PostOrders(t.children, depth + 1) + [Visit(t.id, depth)]
  }

  function PostOrders(ts: seq<Tree>, depth: nat): seq<Visit> {
    if ts == [] then [] else PostOrder(ts[0], depth) + PostOrders(ts[1..], depth)
  }

  function Mirror(t: Tree): Tree {
    Node(t.id, Mirrors(t.children))
  }

  function Mirrors(ts: seq<Tree>): (r: seq<Tree>)
    ensures |r| == |ts|
  {
    if ts == [] then [] else Mirrors(ts[1..]) + [Mirror(ts[0])]
  }

  function Reversed(s: seq<Visit>): (r: seq<Visit>)
    ensures |r| == |s| && forall i :: 0 <= i < |s| ==> r[i] == s[|s| - 1 - i]
  {
    seq(|s|, i requires 0 <= i < |s| => s[|s| - 1 - i])
  }

  lemma {:induction false} ReversedAppend(s: seq<Visit>, t: seq<Visit>)
    ensures Reversed(s + t) == Reversed(t) + Reversed(s)
  {
  }

  lemma {:induction false} PreOrdersAppend(s: seq<Tree>, t: seq<Tree>, depth: nat)
    ensures PreOrders(s + t, depth) == PreOrders(s, depth) + PreOrders(t, depth)
  {
    if s == [] {
      assert s + t == t;
    } else {
      assert (s + t)[0] == s[0] && (s + t)[1..] == s[1..] + t;
      PreOrdersAppend(s[1..], t, depth);
    }
  }

  /** Post-order is pre-order in the mirror, backwards. */
  lemma {:induction false} PostIsMirroredPre(t: Tree, depth: nat)
    ensures PostOrder(t, depth) == Reversed(PreOrder(Mirror(t), depth))
    decreases t, 0
  {
    PostsAreMirroredPres(t.children, depth + 1);
    ReversedAppend([Visit(t.id, depth)], PreOrders(Mirrors(t.children), depth + 1));
    assert Reversed([Visit(t.id, depth)]) == [Visit(t.id, depth)];
  }

  lemma {:induction false} PostsAreMirroredPres(ts: seq<Tree>, depth: nat)
    ensures PostOrders(ts, depth) == Reversed(PreOrders(Mirrors(ts), depth))
    decreases ts, 1
  {
    if ts == [] {
      assert Reversed([]) == [];
    } else {
      PostIsMirroredPre(ts[0], depth);
      PostsAreMirroredPres(ts[1..], depth);
      PreOrdersAppend(Mirrors(ts[1..]), [Mirror(ts[0])], depth);
      assert PreOrders([Mirror(ts[0])], depth) == PreOrder(Mirror(ts[0]), depth);
      ReversedAppend(PreOrders(Mirrors(ts[1..]), depth), PreOrder(Mirror(ts[0]), depth));
    }
  }

  // ---------------------------------------------------------------------------------------------
  // Each set once, and after the sets in it
  // ---------------------------------------------------------------------------------------------

  /** One visit for each set of the tree, with its depth. */
  ghost function Visits(t: Tree, depth: nat): multiset<Visit> {
    multiset{Visit(t.id, depth)} + VisitsOf(t.children, depth + 1)
  }

  ghost function VisitsOf(ts: seq<Tree>, depth: nat): multiset<Visit> {
    if ts == [] then multiset{} else Visits(ts[0], depth) + VisitsOf(ts[1..], depth)
  }

  lemma {:induction false} EachOnce(t: Tree, depth: nat)
    ensures multiset(PreOrder(t, depth)) == multiset(PostOrder(t, depth)) == Visits(t, depth)
    decreases t, 0
  {
    EachOfOnce(t.children, depth + 1);
  }

  lemma {:induction false} EachOfOnce(ts: seq<Tree>, depth: nat)
    ensures multiset(PreOrders(ts, depth)) == multiset(PostOrders(ts, depth)) == VisitsOf(ts, depth)
    decreases ts, 1
  {
    if ts != [] {
      EachOnce(ts[0], depth);
      EachOfOnce(ts[1..], depth);
    }
  }

  /** A path says which child to take on each level. */
  predicate IsPath(t: Tree, path: seq<nat>)
    decreases |path|
  {
    path != [] ==> path[0] < |t.children| && IsPath(t.children[path[0]], path[1..])
  }

  function At(t: Tree, path: seq<nat>): Tree
    requires IsPath(t, path)
    decreases |path|
  {
    if path == [] then t else At(t.children[path[0]], path[1..])
  }

  /** The place in post-order of the set at the end of a path: behind all visits in the children before it. */
  function PostIndex(t: Tree, path: seq<nat>): nat
    requires IsPath(t, path)
    decreases |path|
  {
    if path == [] then |PostOrders(t.children, 0)|
    else |PostOrders(t.children[..path[0]], 0)| + PostIndex(t.children[path[0]], path[1..])
  }

  lemma {:induction false} PostOrdersAppend(s: seq<Tree>, t: seq<Tree>, depth: nat)
    ensures PostOrders(s + t, depth) == PostOrders(s, depth) + PostOrders(t, depth)
  {
    if s == [] {
      assert s + t == t;
    } else {
      assert (s + t)[0] == s[0] && (s + t)[1..] == s[1..] + t;
      PostOrdersAppend(s[1..], t, depth);
    }
  }

  lemma {:induction false} DepthIsNoMatter(t: Tree, d1: nat, d2: nat)
    ensures |PostOrder(t, d1)| == |PostOrder(t, d2)|
    decreases t, 0
  {
    DepthsAreNoMatter(t.children, d1 + 1, d2 + 1);
  }

  lemma {:induction false} DepthsAreNoMatter(ts: seq<Tree>, d1: nat, d2: nat)
    ensures |PostOrders(ts, d1)| == |PostOrders(ts, d2)|
    decreases ts, 1
  {
    if ts != [] {
      DepthIsNoMatter(ts[0], d1, d2);
      DepthsAreNoMatter(ts[1..], d1, d2);
    }
  }

  /** The visits in the children: those before child k, those of child k, those behind it. */
  lemma {:induction false} AroundChild(ts: seq<Tree>, k: nat, depth: nat)
    requires k < |ts|
    ensures PostOrders(ts, depth)
         == PostOrders(ts[..k], depth) + PostOrder(ts[k], depth) + PostOrders(ts[k + 1..], depth)
  {
    assert ts == ts[..k] + ts[k..] && ts[k..][1..] == ts[k + 1..];
    PostOrdersAppend(ts[..k], ts[k..], depth);
  }

  /** The set at the end of a path is visited at its place in post-order. */
  lemma {:induction false} VisitedAt(t: Tree, path: seq<nat>, depth: nat)
    requires IsPath(t, path)
    ensures PostIndex(t, path) < |PostOrder(t, depth)|
    ensures PostOrder(t, depth)[PostIndex(t, path)] == Visit(At(t, path).id, depth + |path|)
    decreases |path|
  {
    DepthsAreNoMatter(t.children, 0, depth + 1);
    if path != [] {
      var k := path[0];
      AroundChild(t.children, k, depth + 1);
      DepthsAreNoMatter(t.children[..k], 0, depth + 1);
      VisitedAt(t.children[k], path[1..], depth + 1);
    }
  }

  /** Each set is visited after the sets in it. */
  lemma {:induction false} ChildrenFirst(t: Tree, path: seq<nat>, child: nat)
    requires IsPath(t, path) && child < |At(t, path).children|
    ensures IsPath(t, path + [child]) && At(t, path + [child]) == At(t, path).children[child]
    ensures PostIndex(t, path + [child]) < PostIndex(t, path)
    decreases |path|
  {
    if path == [] {
      AroundChild(t.children, child, 0);
      VisitedAt(t.children[child], [], 0);
      assert (path + [child])[1..] == [];
    } else {
      assert (path + [child])[0] == path[0] && (path + [child])[1..] == path[1..] + [child];
      ChildrenFirst(t.children[path[0]], path[1..], child);
    }
  }

  /** Sets at the ends of different paths have different places. */
  lemma {:induction false} PlacesDiffer(t: Tree, p: seq<nat>, q: seq<nat>)
    requires IsPath(t, p) && IsPath(t, q) && p != q
    ensures PostIndex(t, p) != PostIndex(t, q)
    decreases |p|
  {
    if p == [] {
      BelowRoot(t, q);
    } else if q == [] {
      BelowRoot(t, p);
    } else if p[0] == q[0] {
      assert p == [p[0]] + p[1..] && q == [q[0]] + q[1..];
      PlacesDiffer(t.children[p[0]], p[1..], q[1..]);
    } else if p[0] < q[0] {
      ChildrenInOrder(t, p, q);
    } else {
      ChildrenInOrder(t, q, p);
    }
  }

  lemma {:induction false} BelowRoot(t: Tree, path: seq<nat>)
    requires IsPath(t, path) && path != []
    ensures PostIndex(t, path) < PostIndex(t, [])
  {
    AroundChild(t.children, path[0], 0);
    VisitedAt(t.children[path[0]], path[1..], 0);
  }

  lemma {:induction false} ChildrenInOrder(t: Tree, p: seq<nat>, q: seq<nat>)
    requires IsPath(t, p) && IsPath(t, q) && p != [] && q != [] && p[0] < q[0]
    ensures PostIndex(t, p) < PostIndex(t, q)
  {
    var before := t.children[..q[0]];
    AroundChild(before, p[0], 0);
    VisitedAt(before[p[0]], p[1..], 0);
    assert before[..p[0]] == t.children[..p[0]];
  }

  // ---------------------------------------------------------------------------------------------
  // Stopping early
  // ---------------------------------------------------------------------------------------------

  /** What is visited of s: everything up to the first visit that stops the walk. */
  function Upto(s: seq<Visit>, stop: Visit -> bool): seq<Visit> {
    if s == [] then [] else if stop(s[0]) then [s[0]] else [s[0]] + Upto(s[1..], stop)
  }

  predicate NoneStops(s: seq<Visit>, stop: Visit -> bool) {
    forall v :: v in s ==> !stop(v)
  }

  lemma {:induction false} UptoEnd(s: seq<Visit>, rest: seq<Visit>, stop: Visit -> bool)
    requires NoneStops(s, stop)
    ensures Upto(s + rest, stop) == s + Upto(rest, stop)
  {
    if s == [] {
      assert s + rest == rest;
    } else {
      assert (s + rest)[0] == s[0] && (s + rest)[1..] == s[1..] + rest;
      UptoEnd(s[1..], rest, stop);
    }
  }

  lemma {:induction false} UptoIsPrefix(s: seq<Visit>, stop: Visit -> bool)
    ensures Upto(s, stop) <= s && (NoneStops(s, stop) ==> Upto(s, stop) == s)
  {
    if s != [] {
      UptoIsPrefix(s[1..], stop);
      assert s == [s[0]] + s[1..];
    }
  }

  // ---------------------------------------------------------------------------------------------
  // The stack
  // ---------------------------------------------------------------------------------------------

  /** A set whose children from number `next` on are still to be explored. */
  datatype Frame = Frame(node: Tree, next: nat)

  ghost predicate GoodStack(stack: seq<Frame>) {
    forall i :: 0 <= i < |stack| ==> stack[i].next <= |stack[i].node.children|
  }

  function Left(f: Frame): seq<Tree> {
    if f.next <= |f.node.children| then f.node.children[f.next..] else []
  }

  /** The visits still to come, from the top of the stack down. */
  ghost function PreTodo(stack: seq<Frame>): seq<Visit> {
    if stack == [] then []
    else PreOrders(Left(stack[|stack| - 1]), |stack|) + PreTodo(stack[..|stack| - 1])
  }

  ghost function PostTodo(stack: seq<Frame>): seq<Visit> {
    if stack == [] then []
    else PostOrders(Left(stack[|stack| - 1]), |stack|) + [Visit(stack[|stack| - 1].node.id,
        |stack| - 1)] + PostTodo(stack[..|stack| - 1])
  }

  /** The stack with another frame on top of the others. */
  lemma {:induction false} PushedTodo(below: seq<Frame>, top: Frame)
    ensures PreTodo(below + [top]) == PreOrders(Left(top), |below| + 1) + PreTodo(below)
    ensures PostTodo(below + [top]) == PostOrders(Left(top), |below| + 1) + [Visit(top.node.id,
        |below|)] + PostTodo(below)
  {
    hide Left, PreOrders, PostOrders;
    assert (below + [top])[..|below|] == below;
  }

  /** Exploring a child is to explore the sets in it, then the other children. */
  lemma {:induction false} NextChild(top: Frame, d: nat)
    requires top.next < |top.node.children|
    ensures var child := top.node.children[top.next];
            var rest := Left(Frame(top.node, top.next + 1));
            && PreOrders(Left(top), d) == [Visit(child.id, d)] + PreOrders(Left(Frame(child, 0)),
                d + 1) + PreOrders(rest, d)
            && PostOrders(Left(top), d) == PostOrders(Left(Frame(child, 0)), d + 1) + [Visit(child.id,
                d)] + PostOrders(rest, d)
  {
    var child := top.node.children[top.next];
    assert Left(top)[0] == child && Left(top)[1..] == Left(Frame(top.node, top.next + 1));
    assert Left(Frame(child, 0)) == child.children;
  }

  /** One step into the next child of the top of the stack. */
  lemma {:induction false} Descend(stack: seq<Frame>)
    requires stack != [] && GoodStack(stack) && stack[|stack| - 1].next < |stack[|stack| - 1].node.children|
    ensures var top := stack[|stack| - 1];
            var child := top.node.children[top.next];
            var below := stack[|stack| - 1 := Frame(top.node, top.next + 1)];
            && GoodStack(below + [Frame(child, 0)])
            && PreTodo(stack) == [Visit(child.id, |stack|)] + PreTodo(below + [Frame(child, 0)])
            && PostTodo(stack) == PostTodo(below + [Frame(child, 0)])
  {
    hide Left, PreOrders, PostOrders, PreTodo, PostTodo;
    var k := |stack| - 1;
    var top := stack[k];
    var child, next := top.node.children[top.next], Frame(top.node, top.next + 1);
    var below := stack[k := next];
    assert stack == stack[..k] + [top] && below == stack[..k] + [next];
    PushedTodo(stack[..k], top);
    PushedTodo(stack[..k], next);
    PushedTodo(below, Frame(child, 0));
    NextChild(top, k + 1);
  }

  /** One step back up. */
  lemma {:induction false} Ascend(stack: seq<Frame>)
    requires stack != [] && GoodStack(stack) && stack[|stack| - 1].next == |stack[|stack| - 1].node.children|
    ensures GoodStack(stack[..|stack| - 1]) && PreTodo(stack) == PreTodo(stack[..|stack| - 1])
    ensures PostTodo(stack) == [Visit(stack[|stack| - 1].node.id, |stack| - 1)] + PostTodo(stack[..|stack| - 1])
  {
  }

  lemma {:induction false} StartStack(root: Tree)
    ensures PreOrder(root, 0) == [Visit(root.id, 0)] + PreTodo([Frame(root, 0)])
    ensures PostOrder(root, 0) == PostTodo([Frame(root, 0)])
  {
    assert Left(Frame(root, 0)) == root.children;
    assert [Frame(root, 0)][..0] == [];
  }

  lemma {:induction false} VisitOne(visited: seq<Visit>, v: Visit, rest: seq<Visit>, all: seq<Visit>,
      stop: Visit -> bool)
    requires NoneStops(visited, stop) && visited + ([v] + rest) == all
    ensures stop(v) ==> Upto(all, stop) == visited + [v]
    ensures !stop(v) ==> NoneStops(visited + [v], stop) && visited + [v] + rest == all
  {
    UptoEnd(visited, [v] + rest, stop);
    assert visited + [v] + rest == all;
  }

  /** Visits a set before the sets in it, until a visit says stop. */
  method WalkPreOrder(root: Tree, stop: Visit -> bool) returns (visited: seq<Visit>, stopped: bool)
    ensures visited == Upto(PreOrder(root, 0), stop)
    ensures stopped <==> !NoneStops(PreOrder(root, 0), stop)
  {
    hide NoneStops, Upto, PreOrders, PreTodo, PostTodo;
    ghost var all := PreOrder(root, 0);
    StartStack(root);
    NoVisit(all, stop);
    VisitOne([], Visit(root.id, 0), PreTodo([Frame(root, 0)]), all, stop);
    Stopper(all, [], Visit(root.id, 0), stop);
    assert [] + [Visit(root.id, 0)] == [Visit(root.id, 0)];
    if stop(Visit(root.id, 0)) { return [Visit(root.id, 0)], true; }
    visited := [Visit(root.id, 0)];
    var stack := [Frame(root, 0)];
    while stack != []
      invariant GoodStack(stack) && NoneStops(visited, stop) && visited + PreTodo(stack) == all
      decreases 2 * |PreTodo(stack)| + |stack|
    {
      var k := |stack| - 1;
      var top := stack[k];
      if top.next == |top.node.children| {
        Ascend(stack);
        stack := stack[..k];
      } else {
        var child := top.node.children[top.next];
        var v := Visit(child.id, |stack|);
        Descend(stack);
        var deeper := stack[k := Frame(top.node, top.next + 1)] + [Frame(child, 0)];
        VisitOne(visited, v, PreTodo(deeper), all, stop);
        Stopper(all, visited, v, stop);
        visited := visited + [v];
        if stop(v) { return visited, true; }
        stack := deeper;
      }
    }
    EmptyStack();
    assert visited + [] == visited;
    UptoIsPrefix(all, stop);
    stopped := false;
  }

  /** Visits a set behind the sets in it, until a visit says stop. */
  method WalkPostOrder(root: Tree, stop: Visit -> bool) returns (visited: seq<Visit>, stopped: bool)
    ensures visited == Upto(PostOrder(root, 0), stop)
    ensures stopped <==> !NoneStops(PostOrder(root, 0), stop)
  {
    hide NoneStops, Upto, PostOrders, PreTodo, PostTodo;
    ghost var all := PostOrder(root, 0);
    StartStack(root);
    NoVisit(all, stop);
    visited := [];
    var stack := [Frame(root, 0)];
    while stack != []
      invariant GoodStack(stack) && NoneStops(visited, stop) && visited + PostTodo(stack) == all
      decreases 2 * |PreTodo(stack)| + |stack|
    {
      var k := |stack| - 1;
      var top := stack[k];
      if top.next == |top.node.children| {
        var v := Visit(top.node.id, k);
        Ascend(stack);
        VisitOne(visited, v, PostTodo(stack[..k]), all, stop);
        Stopper(all, visited, v, stop);
        visited := visited + [v];
        if stop(v) { return visited, true; }
        stack := stack[..k];
      } else {
        Descend(stack);
        stack := stack[k := Frame(top.node, top.next + 1)] + [Frame(top.node.children[top.next], 0)];
      }
    }
    EmptyStack();
    assert visited + [] == visited;
    UptoIsPrefix(all, stop);
    stopped := false;
  }

  lemma {:induction false} NoVisit(all: seq<Visit>, stop: Visit -> bool)
    ensures NoneStops([], stop) && [] + all == all
  {
  }

  lemma {:induction false} Stopper(all: seq<Visit>, visited: seq<Visit>, v: Visit, stop: Visit -> bool)
    ensures visited + [v] <= all && stop(v) ==> !NoneStops(all, stop)
  {
    if visited + [v] <= all {
      assert all[|visited|] == v;
    }
  }

  lemma {:induction false} EmptyStack()
    ensures PreTodo([]) == [] && PostTodo([]) == []
  {
  }
}
