/** Depth-first postorder of the blocks of a body. */
module Postorder {
  import opened Prelude
  import opened Mir
  import opened Cfg
  import opened Reachability

  /** A block on the visit stack, with the successors not yet looked at; they are taken from the back. */
  datatype Frame = Frame(node: nat, succs: seq<nat>)

  /** The successors of every block: all that the traversal looks at. */
  function Graph(blocks: seq<Block>): (g: seq<seq<nat>>)
    ensures |g| == |blocks| && forall i :: 0 <= i < |g| ==> g[i] == Succ(blocks, i)
  {
    seq(|blocks|, i requires 0 <= i < |blocks| => Succ(blocks, i))
  }

  ghost predicate FrameIn(g: seq<seq<nat>>, f: Frame) {
    f.node < |g| && forall x :: x in f.succs ==> x < |g|
  }

  ghost predicate Within(g: seq<seq<nat>>, stack: seq<Frame>, visited: set<nat>) {
    && (forall u, x :: 0 <= u < |g| && x in g[u] ==> x < |g|)
    && (forall x :: x in visited ==> x < |g|)
    && (forall i :: 0 <= i < |stack| ==> FrameIn(g, stack[i]))
  }

  function Pending(stack: seq<Frame>): nat {
    if stack == [] then 0 else 1 + |Top(stack).succs| + Pending(Rest(stack))
  }

  function Top(stack: seq<Frame>): Frame
    requires stack != []
  {
    stack[|stack| - 1]
  }

  function Rest(stack: seq<Frame>): seq<Frame>
    requires stack != []
  {
    stack[..|stack| - 1]
  }

  /** The stack after the top frame's last successor has been taken. */
  function Advanced(stack: seq<Frame>): seq<Frame>
    requires stack != [] && Top(stack).succs != []
  {
    var f := Top(stack);
    Rest(stack) + [f.(succs := f.succs[..|f.succs| - 1])]
  }

  function NextSucc(stack: seq<Frame>): nat
    requires stack != [] && Top(stack).succs != []
  {
    var f := Top(stack);
    f.succs[|f.succs| - 1]
  }

  lemma AdvancedWithin(g: seq<seq<nat>>, stack: seq<Frame>, visited: set<nat>)
    requires Within(g, stack, visited) && stack != [] && Top(stack).succs != []
    ensures Within(g, Advanced(stack), visited) && Pending(Advanced(stack)) < Pending(stack)
    ensures var x := NextSucc(stack); x < |g| && Within(g, Advanced(stack) + [Frame(x, g[x])], visited + {x})
  {
    var next, f := Advanced(stack), Top(stack);
    assert Rest(next) == Rest(stack) && Top(next) == f.(succs := f.succs[..|f.succs| - 1]);
    assert FrameIn(g, stack[|stack| - 1]) && NextSucc(stack) in f.succs;
    forall i | 0 <= i < |next| ensures FrameIn(g, next[i]) {
      assert FrameIn(g, stack[i]);
      if i == |stack| - 1 { assert forall x :: x in next[i].succs ==> x in f.succs; }
    }
  }

  /** The stack and the visited blocks after the next successor of the top frame has been looked at. */
  function Moved(g: seq<seq<nat>>, stack: seq<Frame>, visited: set<nat>): (seq<Frame>, set<nat>)
    requires Within(g, stack, visited) && stack != [] && Top(stack).succs != []
  {
    AdvancedWithin(g, stack, visited);
    var x := NextSucc(stack);
    if x in visited then (Advanced(stack), visited) else (Advanced(stack) + [Frame(x, g[x])], visited + {x})
  }

  lemma MovedWithin(g: seq<seq<nat>>, stack: seq<Frame>, visited: set<nat>)
    requires Within(g, stack, visited) && stack != [] && Top(stack).succs != []
    ensures var (stack', visited') := Moved(g, stack, visited);
            && Within(g, stack', visited') && visited <= visited'
            && (visited == visited' ==> Pending(stack') < Pending(stack))
            && (visited != visited' ==> Ids(|g|) - visited' < Ids(|g|) - visited)
  {
    AdvancedWithin(g, stack, visited);
    var x := NextSucc(stack);
    if x !in visited { assert x in Ids(|g|) - visited; }
  }

  /** The blocks the traversal has yet to emit, in order. */
  function Emits(g: seq<seq<nat>>, stack: seq<Frame>, visited: set<nat>): seq<nat>
    requires Within(g, stack, visited)
    decreases Ids(|g|) - visited, Pending(stack)
  {
    if stack == [] then []
    else if Top(stack).succs == [] then [Top(stack).node] + Emits(g, Rest(stack), visited)
    else
      MovedWithin(g, stack, visited);
      var (stack', visited') := Moved(g, stack, visited);
      Emits(g, stack', visited')
  }

  ghost predicate Searchable(blocks: seq<Block>) {
    blocks != [] && InRange(blocks)
  }

  lemma StartWithin(blocks: seq<Block>)
    requires Searchable(blocks)
    ensures var g := Graph(blocks); Within(g, [Frame(ENTRY, g[ENTRY])], {ENTRY})
  {
    var g := Graph(blocks);
    forall u, x | 0 <= u < |g| && x in g[u] ensures x < |g| { assert Edge(blocks, u, x); }
  }

  function PostorderOf(blocks: seq<Block>): seq<nat>
    requires Searchable(blocks)
  {
    StartWithin(blocks);
    var g := Graph(blocks);
    Emits(g, [Frame(ENTRY, g[ENTRY])], {ENTRY})
  }

  function Reversed(s: seq<nat>): (r: seq<nat>)
    ensures |r| == |s| && forall i :: 0 <= i < |s| ==> r[i] == s[|s| - 1 - i]
  {
    seq(|s|, i requires 0 <= i < |s| => s[|s| - 1 - i])
  }

  function ReversePostorderOf(blocks: seq<Block>): seq<nat>
    requires Searchable(blocks)
  {
    Reversed(PostorderOf(blocks))
  }

  // ---------------------------------------------------------------- what the order promises

  ghost predicate Reaches(blocks: seq<Block>, u: nat, v: nat) {
    exists n: nat :: ReachedIn(blocks, u, n, v)
  }

  lemma ReachesEdge(blocks: seq<Block>, u: nat, v: nat, w: nat)
    requires Reaches(blocks, u, v) && Edge(blocks, v, w)
    ensures Reaches(blocks, u, w)
  {
    var n: nat :| ReachedIn(blocks, u, n, v);
    assert ReachedIn(blocks, u, n + 1, w);
  }

  lemma ReachesSelf(blocks: seq<Block>, u: nat)
    ensures Reaches(blocks, u, u)
  {
    assert ReachedIn(blocks, u, 0, u);
  }

  ghost predicate Before(order: seq<nat>, v: nat, u: nat) {
    exists i, j :: 0 <= i < j < |order| && order[i] == v && order[j] == u
  }

  ghost predicate Distinct(s: seq<nat>) {
    forall i, j :: 0 <= i < j < |s| ==> s[i] != s[j]
  }

  ghost predicate OnStack(stack: seq<Frame>, v: nat) {
    exists i :: 0 <= i < |stack| && stack[i].node == v
  }

  /** The frames are distinct unemitted blocks, each reaching those above it,
      and every successor already taken from one has been visited. */
  ghost predicate StackOk(blocks: seq<Block>, stack: seq<Frame>, visited: set<nat>) {
    && (forall i, j :: 0 <= i < j < |stack| ==> stack[i].node != stack[j].node)
    && (forall i, j :: 0 <= i <= j < |stack| ==> Reaches(blocks, stack[i].node, stack[j].node))
    && (forall i :: 0 <= i < |stack| ==> Taken(blocks, stack[i], visited))
    && (stack != [] ==> stack[0].node == ENTRY)
  }

  ghost predicate Taken(blocks: seq<Block>, f: Frame, visited: set<nat>) {
    f.node < |blocks| && forall x :: x in Succ(blocks, f.node) ==> x in visited || x in f.succs
  }

  /** u has been emitted with every successor visited, and emitted earlier unless it leads back to u. */
  ghost predicate Settled(blocks: seq<Block>, visited: set<nat>, emitted: seq<nat>, u: nat) {
    forall v: nat :: Edge(blocks, u, v) ==> v in visited && (Before(emitted, v, u) || Reaches(blocks, v, u))
  }

  ghost predicate Traversing(blocks: seq<Block>, stack: seq<Frame>, visited: set<nat>, emitted: seq<nat>) {
    && Within(Graph(blocks), stack, visited)
    && (forall v :: v in visited <==> v in emitted || OnStack(stack, v))
    && (forall v :: v in emitted ==> !OnStack(stack, v))
    && (forall v :: v in visited ==> Reachable(blocks, v))
    && ENTRY in visited
    && Distinct(emitted)
    && StackOk(blocks, stack, visited)
    && (forall u :: u in emitted ==> Settled(blocks, visited, emitted, u))
    && (stack == [] ==> emitted != [] && emitted[|emitted| - 1] == ENTRY)
  }

  /** Every reachable block once, ENTRY last, and the target of an edge before its source unless
      the edge lies on a cycle. */
  ghost predicate IsPostorder(blocks: seq<Block>, order: seq<nat>) {
    && Distinct(order)
    && (forall v: nat :: v in order <==> Reachable(blocks, v))
    && (forall u: nat, v: nat :: u in order && Edge(blocks, u, v) ==> Before(order, v, u) || Reaches(blocks, v, u))
    && order != [] && order[|order| - 1] == ENTRY
  }

  lemma TraversingPop(blocks: seq<Block>, stack: seq<Frame>, visited: set<nat>, emitted: seq<nat>)
    requires Traversing(blocks, stack, visited, emitted) && stack != [] && Top(stack).succs == []
    ensures Traversing(blocks, Rest(stack), visited, emitted + [Top(stack).node])
  {
    var u, rest, emitted' := Top(stack).node, Rest(stack), emitted + [Top(stack).node];
    OnStackSplit(stack);
    assert Within(Graph(blocks), rest, visited);
    assert StackOk(blocks, rest, visited);
    assert !OnStack(rest, u);
    assert Distinct(emitted') by {
      forall i, j | 0 <= i < j < |emitted'| ensures emitted'[i] != emitted'[j] {
        if j == |emitted| { assert emitted[i] in emitted && OnStack(stack, u); }
      }
    }
    forall x | x in emitted' ensures Settled(blocks, visited, emitted', x) {
      if x in emitted { SettledMore(blocks, visited, visited, emitted, u, x); } else { SettledTop(blocks, stack, visited, emitted); }
    }
  }

  lemma OnStackSplit(stack: seq<Frame>)
    requires stack != []
    ensures forall v :: OnStack(stack, v) <==> OnStack(Rest(stack), v) || v == Top(stack).node
  {
    forall v ensures OnStack(stack, v) <==> OnStack(Rest(stack), v) || v == Top(stack).node {
      if OnStack(Rest(stack), v) { var i :| 0 <= i < |stack| - 1 && Rest(stack)[i].node == v; assert stack[i].node == v; }
      if OnStack(stack, v) && v != Top(stack).node {
        var i :| 0 <= i < |stack| && stack[i].node == v;
        assert Rest(stack)[i].node == v;
      }
    }
  }

  lemma SettledMore(blocks: seq<Block>, visited: set<nat>, visited': set<nat>, emitted: seq<nat>, u: nat, x: nat)
    requires Settled(blocks, visited, emitted, x) && visited <= visited'
    ensures Settled(blocks, visited', emitted + [u], x) && Settled(blocks, visited', emitted, x)
  {
    forall v: nat | Edge(blocks, x, v) ensures Before(emitted + [u], v, x) || Reaches(blocks, v, x) {
      if i, j :| 0 <= i < j < |emitted| && emitted[i] == v && emitted[j] == x {
        assert (emitted + [u])[i] == v && (emitted + [u])[j] == x;
      }
    }
  }

  lemma SettledTop(blocks: seq<Block>, stack: seq<Frame>, visited: set<nat>, emitted: seq<nat>)
    requires Traversing(blocks, stack, visited, emitted) && stack != [] && Top(stack).succs == []
    ensures Settled(blocks, visited, emitted + [Top(stack).node], Top(stack).node)
  {
    var u, emitted' := Top(stack).node, emitted + [Top(stack).node];
    assert Taken(blocks, stack[|stack| - 1], visited);
    forall v: nat | Edge(blocks, u, v) ensures v in visited && (Before(emitted', v, u) || Reaches(blocks, v, u)) {
      if v in emitted {
        var i :| 0 <= i < |emitted| && emitted[i] == v;
        assert emitted'[i] == v && emitted'[|emitted|] == u;
      } else {
        var i :| 0 <= i < |stack| && stack[i].node == v;
        assert Reaches(blocks, stack[i].node, stack[|stack| - 1].node);
      }
    }
  }

  lemma AdvancedNodes(stack: seq<Frame>)
    requires stack != [] && Top(stack).succs != []
    ensures |Advanced(stack)| == |stack| && forall i :: 0 <= i < |stack| ==> Advanced(stack)[i].node == stack[i].node
    ensures forall v :: OnStack(Advanced(stack), v) <==> OnStack(stack, v)
  {
    var next := Advanced(stack);
    forall v ensures OnStack(next, v) <==> OnStack(stack, v) {
      if i :| 0 <= i < |stack| && stack[i].node == v { assert next[i].node == v; }
    }
  }

  lemma TakenAdvanced(blocks: seq<Block>, stack: seq<Frame>, visited: set<nat>, i: nat)
    requires stack != [] && Top(stack).succs != [] && i < |stack| && Taken(blocks, stack[i], visited)
    ensures Taken(blocks, Advanced(stack)[i], visited + {NextSucc(stack)})
  {
    var f := stack[i];
    if i == |stack| - 1 {
      var k := |f.succs| - 1;
      assert f.succs == f.succs[..k] + [f.succs[k]];
    }
  }

  lemma StackOkAdvanced(blocks: seq<Block>, stack: seq<Frame>, visited: set<nat>)
    requires StackOk(blocks, stack, visited) && stack != [] && Top(stack).succs != []
    ensures StackOk(blocks, Advanced(stack), visited + {NextSucc(stack)})
  {
    AdvancedNodes(stack);
    var next := Advanced(stack);
    forall i | 0 <= i < |next| ensures Taken(blocks, next[i], visited + {NextSucc(stack)}) {
      assert Taken(blocks, stack[i], visited);
      TakenAdvanced(blocks, stack, visited, i);
    }
  }

  lemma TraversingSkip(blocks: seq<Block>, stack: seq<Frame>, visited: set<nat>, emitted: seq<nat>)
    requires Traversing(blocks, stack, visited, emitted) && stack != [] && Top(stack).succs != [] && NextSucc(stack) in visited
    ensures Traversing(blocks, Advanced(stack), visited, emitted)
  {
    AdvancedWithin(Graph(blocks), stack, visited);
    AdvancedNodes(stack);
    StackOkAdvanced(blocks, stack, visited);
    assert visited + {NextSucc(stack)} == visited;
  }

  lemma StackOkPush(blocks: seq<Block>, stack: seq<Frame>, visited: set<nat>, x: nat)
    requires StackOk(blocks, stack, visited) && stack != [] && Edge(blocks, Top(stack).node, x) && !OnStack(stack, x)
    requires x < |blocks| && x in visited
    ensures StackOk(blocks, stack + [Frame(x, Succ(blocks, x))], visited)
  {
    var next := stack + [Frame(x, Succ(blocks, x))];
    forall i, j | 0 <= i <= j < |next| ensures Reaches(blocks, next[i].node, next[j].node) {
      if i == |stack| { ReachesSelf(blocks, x); }
      else if j == |stack| {
        assert Reaches(blocks, stack[i].node, stack[|stack| - 1].node);
        ReachesEdge(blocks, stack[i].node, Top(stack).node, x);
      }
    }
    forall i, j | 0 <= i < j < |next| ensures next[i].node != next[j].node {
      if j == |stack| { assert OnStack(stack, stack[i].node); }
    }
  }

  lemma NextSuccEdge(blocks: seq<Block>, stack: seq<Frame>, visited: set<nat>, emitted: seq<nat>)
    requires Traversing(blocks, stack, visited, emitted) && FromGraph(blocks, stack) && stack != [] && Top(stack).succs != []
    ensures Edge(blocks, Top(stack).node, NextSucc(stack)) && Reachable(blocks, NextSucc(stack))
  {
    assert Top(stack) == stack[|stack| - 1] && OnStack(stack, Top(stack).node);
    assert NextSucc(stack) in Top(stack).succs;
    ReachableStep(blocks, Top(stack).node, NextSucc(stack));
  }

  /** What is left in each frame are successors of its block. */
  ghost predicate FromGraph(blocks: seq<Block>, stack: seq<Frame>) {
    forall i :: 0 <= i < |stack| ==> Successive(blocks, stack[i])
  }

  ghost predicate Successive(blocks: seq<Block>, f: Frame) {
    f.node < |blocks| && forall x :: x in f.succs ==> x in Succ(blocks, f.node)
  }

  lemma FromGraphAdvanced(blocks: seq<Block>, stack: seq<Frame>)
    requires FromGraph(blocks, stack) && stack != [] && Top(stack).succs != []
    ensures FromGraph(blocks, Advanced(stack))
  {
    forall i | 0 <= i < |stack| ensures Successive(blocks, Advanced(stack)[i]) { assert Successive(blocks, stack[i]); }
  }

  lemma TraversingPush(blocks: seq<Block>, stack: seq<Frame>, visited: set<nat>, emitted: seq<nat>)
    requires Traversing(blocks, stack, visited, emitted) && FromGraph(blocks, stack)
    requires stack != [] && Top(stack).succs != [] && NextSucc(stack) !in visited
    ensures var x := NextSucc(stack);
            x < |blocks| && Traversing(blocks, Advanced(stack) + [Frame(x, Succ(blocks, x))], visited + {x}, emitted)
  {
    var x := NextSucc(stack);
    var middle := Advanced(stack);
    var next := middle + [Frame(x, Graph(blocks)[x])];
    AdvancedWithin(Graph(blocks), stack, visited);
    AdvancedNodes(stack);
    StackOkAdvanced(blocks, stack, visited);
    NextSuccEdge(blocks, stack, visited, emitted);
    assert Top(middle).node == Top(stack).node;
    StackOkPush(blocks, middle, visited + {x}, x);
    OnStackSplit(next);
    assert Rest(next) == middle;
    forall u | u in emitted ensures Settled(blocks, visited + {x}, emitted, u) {
      SettledMore(blocks, visited, visited + {x}, emitted, u, u);
    }
  }

  lemma TraversingMove(blocks: seq<Block>, stack: seq<Frame>, visited: set<nat>, emitted: seq<nat>)
    requires Traversing(blocks, stack, visited, emitted) && FromGraph(blocks, stack)
    requires stack != [] && Top(stack).succs != []
    ensures var (stack', visited') := Moved(Graph(blocks), stack, visited);
            Traversing(blocks, stack', visited', emitted) && FromGraph(blocks, stack')
  {
    FromGraphAdvanced(blocks, stack);
    if NextSucc(stack) in visited {
      TraversingSkip(blocks, stack, visited, emitted);
    } else {
      TraversingPush(blocks, stack, visited, emitted);
    }
  }

  lemma TraversedAll(blocks: seq<Block>, visited: set<nat>, emitted: seq<nat>)
    requires Traversing(blocks, [], visited, emitted)
    ensures IsPostorder(blocks, emitted)
  {
    forall v: nat | Reachable(blocks, v) ensures v in emitted {
      var n: nat :| ReachedIn(blocks, ENTRY, n, v);
      forall u: nat, w: nat | u in visited && Edge(blocks, u, w) ensures w in visited {
        assert u in emitted && Settled(blocks, visited, emitted, u);
      }
      ReachedInClosed(blocks, n, v, visited);
      assert !OnStack([], v);
    }
  }

  ghost predicate Searching(blocks: seq<Block>, stack: seq<Frame>, visited: set<nat>, emitted: seq<nat>) {
    Within(Graph(blocks), stack, visited) && Traversing(blocks, stack, visited, emitted) && FromGraph(blocks, stack)
  }

  lemma SearchingPop(blocks: seq<Block>, stack: seq<Frame>, visited: set<nat>, emitted: seq<nat>)
    requires Searching(blocks, stack, visited, emitted) && stack != [] && Top(stack).succs == []
    ensures var g, u := Graph(blocks), Top(stack).node;
            && Searching(blocks, Rest(stack), visited, emitted + [u])
            && emitted + Emits(g, stack, visited) == (emitted + [u]) + Emits(g, Rest(stack), visited)
            && Pending(Rest(stack)) < Pending(stack)
  {
    TraversingPop(blocks, stack, visited, emitted);
    EmitsPop(Graph(blocks), stack, visited, emitted);
    assert FromGraph(blocks, Rest(stack));
  }

  lemma EmitsPop(g: seq<seq<nat>>, stack: seq<Frame>, visited: set<nat>, emitted: seq<nat>)
    requires Within(g, stack, visited) && stack != [] && Top(stack).succs == []
    ensures Within(g, Rest(stack), visited) && Pending(Rest(stack)) < Pending(stack)
    ensures emitted + Emits(g, stack, visited) == (emitted + [Top(stack).node]) + Emits(g, Rest(stack), visited)
  {
  }

  lemma SearchingMove(blocks: seq<Block>, stack: seq<Frame>, visited: set<nat>, emitted: seq<nat>)
    requires Searching(blocks, stack, visited, emitted) && stack != [] && Top(stack).succs != []
    ensures var g := Graph(blocks);
            var (stack', visited') := Moved(g, stack, visited);
            && Searching(blocks, stack', visited', emitted)
            && Emits(g, stack, visited) == Emits(g, stack', visited')
  {
    MovedWithin(Graph(blocks), stack, visited);
    TraversingMove(blocks, stack, visited, emitted);
  }

  /** What the traversal still emits completes what it has emitted to a postorder. */
  lemma {:induction false} EmitsPostorder(blocks: seq<Block>, stack: seq<Frame>, visited: set<nat>, emitted: seq<nat>)
    requires Searching(blocks, stack, visited, emitted)
    ensures IsPostorder(blocks, emitted + Emits(Graph(blocks), stack, visited))
    decreases Ids(|Graph(blocks)|) - visited, Pending(stack)
  {
    var g := Graph(blocks);
    if stack == [] {
      TraversedAll(blocks, visited, emitted);
      assert emitted + [] == emitted;
    } else if Top(stack).succs == [] {
      SearchingPop(blocks, stack, visited, emitted);
      EmitsPostorder(blocks, Rest(stack), visited, emitted + [Top(stack).node]);
    } else {
      MovedWithin(g, stack, visited);
      SearchingMove(blocks, stack, visited, emitted);
      var (stack', visited') := Moved(g, stack, visited);
      EmitsPostorder(blocks, stack', visited', emitted);
    }
  }

  /** The traversal emits every reachable block exactly once, ENTRY last, and
      for an edge from u to v emits v before u unless v leads back to u. */
  lemma PostorderIs(blocks: seq<Block>)
    requires Searchable(blocks)
    ensures IsPostorder(blocks, PostorderOf(blocks))
  {
    var stack := [Frame(ENTRY, Succ(blocks, ENTRY))];
    StartWithin(blocks);
    assert ReachedIn(blocks, ENTRY, 0, ENTRY);
    ReachesSelf(blocks, ENTRY);
    assert stack[0].node == ENTRY;
    assert OnStack(stack, ENTRY);
    assert forall v :: OnStack(stack, v) ==> v == ENTRY;
    assert Traversing(blocks, stack, {ENTRY}, []);
    assert Successive(blocks, stack[0]);
    EmitsPostorder(blocks, stack, {ENTRY}, []);
    assert [] + PostorderOf(blocks) == PostorderOf(blocks);
  }

  // ---------------------------------------------------------------- the recursive search

  ghost predicate Closed(g: seq<seq<nat>>, xs: seq<nat>, visited: set<nat>) {
    && (forall u, x :: 0 <= u < |g| && x in g[u] ==> x < |g|)
    && (forall x :: x in xs || x in visited ==> x < |g|)
  }

  /** The depth-first search as it is taught: of the blocks, from the last to the first, each that was not visited yet
      is visited, and emitted when all its successors have been searched. */
  function Search(g: seq<seq<nat>>, xs: seq<nat>, visited: set<nat>): (r: (seq<nat>, set<nat>))
    requires Closed(g, xs, visited)
    ensures visited <= r.1 && forall x :: x in r.1 ==> x < |g|
    decreases Ids(|g|) - visited, |xs|
  {
    if xs == [] then ([], visited)
    else
      var x, others := xs[|xs| - 1], xs[..|xs| - 1];
      assert forall y :: y in others ==> y in xs;
      if x in visited then Search(g, others, visited)
      else
        assert x in Ids(|g|) - visited;
        var (below, visited') := Search(g, g[x], visited + {x});
        assert x in visited' && Ids(|g|) - visited' < Ids(|g|) - visited;
        var (behind, visited'') := Search(g, others, visited');
        (below + [x] + behind, visited'')
  }

  /** The iterator looks at the last successor of the block on top of the stack. */
  lemma EmitsNext(g: seq<seq<nat>>, stack: seq<Frame>, n: nat, xs: seq<nat>, visited: set<nat>)
    requires Within(g, stack + [Frame(n, xs)], visited) && xs != []
    ensures var x, next := xs[|xs| - 1], stack + [Frame(n, xs[..|xs| - 1])];
            && x < |g| && Within(g, next, visited) && Within(g, next + [Frame(x, g[x])], visited + {x})
            && Emits(g, stack + [Frame(n, xs)], visited)
               == if x in visited then Emits(g, next, visited) else Emits(g, next + [Frame(x, g[x])], visited + {x})
  {
    var full := stack + [Frame(n, xs)];
    assert Rest(full) == stack && Top(full) == Frame(n, xs);
    AdvancedWithin(g, full, visited);
    assert Advanced(full) == stack + [Frame(n, xs[..|xs| - 1])];
  }

  lemma EmitsTop(g: seq<seq<nat>>, stack: seq<Frame>, n: nat, visited: set<nat>)
    requires Within(g, stack + [Frame(n, [])], visited)
    ensures Within(g, stack, visited) && Emits(g, stack + [Frame(n, [])], visited) == [n] + Emits(g, stack, visited)
  {
    var full := stack + [Frame(n, [])];
    assert Rest(full) == stack && Top(full) == Frame(n, []);
  }

  lemma WithinClosed(g: seq<seq<nat>>, stack: seq<Frame>, n: nat, xs: seq<nat>, visited: set<nat>)
    requires Within(g, stack + [Frame(n, xs)], visited)
    ensures Closed(g, xs, visited)
    ensures forall v: set<nat> :: (forall x :: x in v ==> x < |g|) ==> Within(g, stack, v) && Within(g, stack + [Frame(n, xs)], v)
  {
    var full := stack + [Frame(n, xs)];
    assert FrameIn(g, full[|stack|]);
    forall i | 0 <= i < |stack| ensures FrameIn(g, stack[i]) { assert FrameIn(g, full[i]); }
  }

  /** With a block and some of its successors on top of the stack, the iterator emits what a search of these does,
      then the block, and then goes on with the rest of the stack. */
  lemma {:induction false} EmitsSearch(g: seq<seq<nat>>, stack: seq<Frame>, n: nat, xs: seq<nat>, visited: set<nat>)
    requires Within(g, stack + [Frame(n, xs)], visited)
    ensures Closed(g, xs, visited) && Within(g, stack, Search(g, xs, visited).1)
    ensures Emits(g, stack + [Frame(n, xs)], visited)
            == Search(g, xs, visited).0 + [n] + Emits(g, stack, Search(g, xs, visited).1)
    decreases Ids(|g|) - visited, |xs|
  {
    WithinClosed(g, stack, n, xs, visited);
    if xs == [] {
      EmitsTop(g, stack, n, visited);
    } else {
      var x, others := xs[|xs| - 1], xs[..|xs| - 1];
      EmitsNext(g, stack, n, xs, visited);
      WithinClosed(g, stack, n, others, visited);
      if x in visited {
        EmitsSearch(g, stack, n, others, visited);
      } else {
        var next := stack + [Frame(n, others)];
        assert x in Ids(|g|) - visited;
        EmitsSearch(g, next, x, g[x], visited + {x});
        var (below, visited') := Search(g, g[x], visited + {x});
        assert x in visited' && Ids(|g|) - visited' < Ids(|g|) - visited;
        EmitsSearch(g, stack, n, others, visited');
        var (behind, visited'') := Search(g, others, visited');
        SearchedBoth(below, x, behind, n, Emits(g, stack, visited''));
      }
    }
  }

  lemma SearchedBoth(below: seq<nat>, x: nat, behind: seq<nat>, n: nat, rest: seq<nat>)
    ensures below + [x] + (behind + [n] + rest) == (below + [x] + behind) + [n] + rest
  {
  }

  /** The order is the one of the recursive search from the entry block. */
  lemma PostorderSearch(blocks: seq<Block>)
    requires Searchable(blocks)
    ensures Closed(Graph(blocks), [ENTRY], {})
    ensures PostorderOf(blocks) == Search(Graph(blocks), [ENTRY], {}).0
  {
    var g := Graph(blocks);
    StartWithin(blocks);
    assert [] + [Frame(ENTRY, g[ENTRY])] == [Frame(ENTRY, g[ENTRY])];
    assert {} + {ENTRY} == {ENTRY};
    EmitsSearch(g, [], ENTRY, g[ENTRY], {ENTRY});
    var (below, visited) := Search(g, g[ENTRY], {ENTRY});
    assert Emits(g, [], visited) == [];
    assert [ENTRY][..0] == [];
    assert Search(g, [], visited) == ([], visited);
  }

  ghost predicate Acyclic(blocks: seq<Block>) {
    forall u: nat, v: nat :: Edge(blocks, u, v) && Reachable(blocks, u) ==> !Reaches(blocks, v, u)
  }

  ghost predicate IsTopological(blocks: seq<Block>, order: seq<nat>) {
    && Distinct(order)
    && (forall v: nat :: v in order <==> Reachable(blocks, v))
    && (forall u: nat, v: nat :: u in order && Edge(blocks, u, v) ==> Before(order, u, v))
    && order != [] && order[0] == ENTRY
  }

  lemma ReversedBefore(s: seq<nat>, u: nat, v: nat)
    requires Before(s, u, v)
    ensures Before(Reversed(s), v, u)
  {
    var i, j :| 0 <= i < j < |s| && s[i] == u && s[j] == v;
    var r := Reversed(s);
    assert r[|s| - 1 - j] == v && r[|s| - 1 - i] == u;
  }

  lemma ReversedMember(s: seq<nat>, v: nat)
    ensures v in Reversed(s) <==> v in s
  {
    var r := Reversed(s);
    if i :| 0 <= i < |s| && s[i] == v { assert r[|s| - 1 - i] == v; }
  }

  /** Without cycles the reversed order is topological. */
  lemma ReversePostorderTopological(blocks: seq<Block>)
    requires Searchable(blocks) && Acyclic(blocks)
    ensures IsTopological(blocks, ReversePostorderOf(blocks))
  {
    PostorderIs(blocks);
    var order := PostorderOf(blocks);
    forall v: nat ensures v in Reversed(order) <==> v in order { ReversedMember(order, v); }
    forall u: nat, v: nat | u in Reversed(order) && Edge(blocks, u, v) ensures Before(Reversed(order), u, v) {
      assert u in order && Reachable(blocks, u);
      ReversedBefore(order, v, u);
    }
  }

  // ---------------------------------------------------------------- the iterator

  class Postorder {
    var visitStack: seq<Frame>
    var visited: set<nat>
    const bbs: seq<Block>

    ghost predicate Valid()
      reads this
    {
      Within(Graph(bbs), visitStack, visited) && (visitStack == [] || Top(visitStack).succs == [])
    }

    /** The blocks still to come. */
    ghost function Remaining(): seq<nat>
      requires Valid()
      reads this
    {
      Emits(Graph(bbs), visitStack, visited)
    }

    constructor (bbs: seq<Block>)
      requires Searchable(bbs)
      ensures Valid() && this.bbs == bbs && Remaining() == PostorderOf(bbs)
    {
      this.bbs := bbs;
      visitStack, visited := [], {};
      new;
      StartWithin(bbs);
      Visit(ENTRY);
      assert visitStack == [Frame(ENTRY, Graph(bbs)[ENTRY])] && visited == {ENTRY};
      TraverseSuccessors();
    }

    method Visit(node: nat)
      requires Within(Graph(bbs), visitStack, visited) && node < |bbs|
      modifies this
      ensures Within(Graph(bbs), visitStack, visited) && visited == old(visited) + {node}
      ensures visitStack == if node in old(visited) then old(visitStack) else old(visitStack) + [Frame(node, Graph(bbs)[node])]
    {
      if node in visited { return; }
      visited := visited + {node};
      visitStack := visitStack + [Frame(node, Succ(bbs, node))];
    }

    method TraverseSuccessors()
      requires Within(Graph(bbs), visitStack, visited)
      modifies this
      ensures Valid() && Remaining() == old(Emits(Graph(bbs), visitStack, visited))
    {
      while visitStack != [] && Top(visitStack).succs != []
        invariant Within(Graph(bbs), visitStack, visited)
        invariant Emits(Graph(bbs), visitStack, visited) == old(Emits(Graph(bbs), visitStack, visited))
        decreases Ids(|bbs|) - visited, Pending(visitStack)
      {
        AdvancedWithin(Graph(bbs), visitStack, visited);
        MovedWithin(Graph(bbs), visitStack, visited);
        var bb := NextSucc(visitStack);
        assert bb in visited ==> visited + {bb} == visited;
        visitStack := Advanced(visitStack);
        Visit(bb);
      }
    }

    /** Emits the next block, if any is left. */
    method Next() returns (bb: Option<nat>)
      requires Valid()
      modifies this
      ensures Valid()
      ensures old(Remaining()) == match bb case Some(b) => [b] + Remaining() case None => []
      ensures bb.None? ==> Remaining() == []
    {
      if visitStack == [] { return None; }
      bb := Some(Top(visitStack).node);
      visitStack := Rest(visitStack);
      TraverseSuccessors();
    }
  }

  /** Collecting the iterator gives the postorder; reversing it, the reverse postorder. */
  method CollectReversePostorder(bbs: seq<Block>) returns (order: seq<nat>)
    requires Searchable(bbs)
    ensures order == ReversePostorderOf(bbs)
  {
    var blocks := new Postorder(bbs);
    var collected: seq<nat> := [];
    while true
      invariant blocks.Valid() && fresh(blocks)
      invariant PostorderOf(bbs) == collected + blocks.Remaining()
      decreases |blocks.Remaining()|
    {
      var next := blocks.Next();
      if next.None? { break; }
      collected := collected + [next.value];
    }
    order := Reversed(collected);
  }

  /** The order depends on nothing but the successors. */
  lemma SameGraphSameOrder(blocks: seq<Block>, blocks': seq<Block>)
    requires Searchable(blocks) && Graph(blocks) == Graph(blocks')
    ensures Searchable(blocks') && ReversePostorderOf(blocks) == ReversePostorderOf(blocks')
  {
    forall u: nat, v: nat | Edge(blocks', u, v) ensures v < |blocks'| {
      assert Graph(blocks)[u] == Graph(blocks')[u];
      assert Edge(blocks, u, v);
    }
  }
}
