/** Breadth-first traversal of a body and removal of its unreachable blocks. */
module Reachability {
  import opened Prelude
  import opened Mir
  import opened MirSim
  import opened Cfg
  import opened Renumbering

  /** v is reached from start along n edges. */
  ghost predicate ReachedIn(blocks: seq<Block>, start: nat, n: nat, v: nat) {
    if n == 0 then v == start else exists u: nat :: ReachedIn(blocks, start, n - 1, u) && Edge(blocks, u, v)
  }

  ghost predicate Reachable(blocks: seq<Block>, v: nat) {
    exists n: nat :: ReachedIn(blocks, ENTRY, n, v)
  }

  lemma ReachableStep(blocks: seq<Block>, u: nat, v: nat)
    requires Reachable(blocks, u) && Edge(blocks, u, v)
    ensures Reachable(blocks, v)
  {
    var n: nat :| ReachedIn(blocks, ENTRY, n, u);
    assert ReachedIn(blocks, ENTRY, n + 1, v);
  }

  /** A set with ENTRY that is closed under edges contains everything reachable. */
  lemma {:induction false} ReachedInClosed(blocks: seq<Block>, n: nat, v: nat, s: set<nat>)
    requires ReachedIn(blocks, ENTRY, n, v) && ENTRY in s
    requires forall u: nat, w: nat :: u in s && Edge(blocks, u, w) ==> w in s
    ensures v in s
  {
    if n > 0 {
      var u: nat :| ReachedIn(blocks, ENTRY, n - 1, u) && Edge(blocks, u, v);
      ReachedInClosed(blocks, n - 1, u, s);
    }
  }

  /** Each node after the first is recorded with an earlier node that has an edge to it. */
  ghost predicate ParentsEarlier(blocks: seq<Block>, bbs: seq<(Option<nat>, nat)>) {
    forall i :: 0 <= i < |bbs| ==> ParentEarlier(blocks, bbs, i)
  }

  ghost predicate ParentEarlier(blocks: seq<Block>, bbs: seq<(Option<nat>, nat)>, i: int)
    requires 0 <= i < |bbs|
  {
    if i == 0 then bbs[i] == (None, ENTRY)
    else bbs[i].0.Some? && Edge(blocks, bbs[i].0.value, bbs[i].1) && Among(bbs[..i], bbs[i].0.value)
  }

  ghost predicate Among(bbs: seq<(Option<nat>, nat)>, v: nat) {
    exists i :: 0 <= i < |bbs| && bbs[i].1 == v
  }

  ghost predicate Distinct(bbs: seq<(Option<nat>, nat)>) {
    forall i, j :: 0 <= i < j < |bbs| ==> bbs[i].1 != bbs[j].1
  }

  /** A queued entry is the start, or was queued by a node already visited. */
  ghost predicate Queued(blocks: seq<Block>, bbs: seq<(Option<nat>, nat)>, e: (Option<nat>, nat)) {
    match e.0
    case None => e.1 == ENTRY && bbs == []
    case Some(p) => Edge(blocks, p, e.1) && Among(bbs, p)
  }

  /** What holds between two visits: seen is what was visited, all of it reachable; what is queued
      follows from it; and every edge out of it leads to something seen or queued. */
  ghost predicate Visiting(blocks: seq<Block>, bbs: seq<(Option<nat>, nat)>, seen: set<nat>, queue: seq<(Option<nat>, nat)>) {
    && (forall v: nat :: v in seen <==> Among(bbs, v))
    && (forall v: nat :: v in seen ==> v < |blocks| && Reachable(blocks, v))
    && (forall i :: 0 <= i < |queue| ==> Queued(blocks, bbs, queue[i]))
    && (bbs == [] ==> queue == [(None, ENTRY)])
    && (forall u: nat, w: nat :: u in seen && Edge(blocks, u, w) ==> w in seen || Among(queue, w))
    && Distinct(bbs) && ParentsEarlier(blocks, bbs)
  }

  function Children(current: nat, succs: seq<nat>, k: nat): (r: seq<(Option<nat>, nat)>)
    requires k <= |succs|
    ensures |r| == k && forall i :: 0 <= i < k ==> r[i] == (Some(current), succs[i])
  {
    seq(k, i requires 0 <= i < k => (Some(current), succs[i]))
  }

  lemma QueueTail(queue: seq<(Option<nat>, nat)>, w: nat)
    requires queue != [] && Among(queue, w) && w != queue[0].1
    ensures Among(queue[1..], w)
  {
    var i :| 0 <= i < |queue| && queue[i].1 == w;
    assert queue[1..][i - 1].1 == w;
  }

  lemma SkipSeen(blocks: seq<Block>, bbs: seq<(Option<nat>, nat)>, seen: set<nat>, queue: seq<(Option<nat>, nat)>)
    requires Visiting(blocks, bbs, seen, queue) && queue != [] && queue[0].1 in seen
    ensures Visiting(blocks, bbs, seen, queue[1..])
  {
    forall u: nat, w: nat | u in seen && Edge(blocks, u, w) ensures w in seen || Among(queue[1..], w) {
      if w !in seen { QueueTail(queue, w); }
    }
    assert Among(bbs, queue[0].1);
  }

  lemma ParentsEarlierAppend(blocks: seq<Block>, bbs: seq<(Option<nat>, nat)>, e: (Option<nat>, nat))
    requires ParentsEarlier(blocks, bbs) && Queued(blocks, bbs, e) && (bbs == [] ==> e == (None, ENTRY))
    ensures ParentsEarlier(blocks, bbs + [e])
  {
    forall i | 0 <= i < |bbs + [e]| ensures ParentEarlier(blocks, bbs + [e], i) {
      if i < |bbs| {
        assert ParentEarlier(blocks, bbs, i);
        assert (bbs + [e])[..i] == bbs[..i];
      } else {
        assert (bbs + [e])[..i] == bbs;
      }
    }
  }

  lemma VisitNewReachable(blocks: seq<Block>, bbs: seq<(Option<nat>, nat)>, e: (Option<nat>, nat))
    requires InRange(blocks) && blocks != [] && Queued(blocks, bbs, e)
    requires forall v: nat :: Among(bbs, v) ==> Reachable(blocks, v)
    ensures e.1 < |blocks| && Reachable(blocks, e.1)
  {
    assert ReachedIn(blocks, ENTRY, 0, ENTRY);
    if e.0.Some? { ReachableStep(blocks, e.0.value, e.1); }
  }

  lemma VisitNewQueue(blocks: seq<Block>, bbs: seq<(Option<nat>, nat)>, queue: seq<(Option<nat>, nat)>)
    requires queue != [] && queue[0].1 < |blocks|
    requires forall i :: 0 <= i < |queue| ==> Queued(blocks, bbs, queue[i])
    requires bbs == [] ==> queue == [(None, ENTRY)]
    ensures var succs := Succ(blocks, queue[0].1);
            var queue' := queue[1..] + Children(queue[0].1, succs, |succs|);
            forall i :: 0 <= i < |queue'| ==> Queued(blocks, bbs + [queue[0]], queue'[i])
  {
    AmongAppend(bbs, queue[0]);
    var succs := Succ(blocks, queue[0].1);
    var children := Children(queue[0].1, succs, |succs|);
    var queue' := queue[1..] + children;
    forall i | 0 <= i < |queue'| ensures Queued(blocks, bbs + [queue[0]], queue'[i]) {
      if i < |queue| - 1 {
        assert queue'[i] == queue[i + 1] && Queued(blocks, bbs, queue[i + 1]);
      } else {
        assert queue'[i] == children[i - |queue| + 1];
        assert succs[i - |queue| + 1] in succs;
      }
    }
  }

  lemma VisitNewClosed(blocks: seq<Block>, seen: set<nat>, queue: seq<(Option<nat>, nat)>, u: nat, w: nat)
    requires queue != [] && queue[0].1 < |blocks|
    requires u in seen ==> w in seen || Among(queue, w)
    requires u in seen + {queue[0].1} && Edge(blocks, u, w)
    ensures var succs := Succ(blocks, queue[0].1);
            w in seen + {queue[0].1} || Among(queue[1..] + Children(queue[0].1, succs, |succs|), w)
  {
    var current := queue[0].1;
    var succs := Succ(blocks, current);
    var queue' := queue[1..] + Children(current, succs, |succs|);
    if u == current {
      var i :| 0 <= i < |succs| && succs[i] == w;
      assert queue'[|queue| - 1 + i].1 == w;
    } else if w !in seen && w != current {
      QueueTail(queue, w);
      var i :| 0 <= i < |queue[1..]| && queue[1..][i].1 == w;
      assert queue'[i].1 == w;
    }
  }

  lemma VisitNew(blocks: seq<Block>, bbs: seq<(Option<nat>, nat)>, seen: set<nat>, queue: seq<(Option<nat>, nat)>)
    requires InRange(blocks) && blocks != []
    requires Visiting(blocks, bbs, seen, queue) && queue != [] && queue[0].1 !in seen
    ensures queue[0].1 < |blocks|
    ensures var succs := Succ(blocks, queue[0].1);
            Visiting(blocks, bbs + [queue[0]], seen + {queue[0].1}, queue[1..] + Children(queue[0].1, succs, |succs|))
  {
    var e := queue[0];
    assert Queued(blocks, bbs, e);
    VisitNewReachable(blocks, bbs, e);
    VisitNewQueue(blocks, bbs, queue);
    AmongAppend(bbs, e);
    ParentsEarlierAppend(blocks, bbs, e);
    assert Distinct(bbs + [e]) by {
      forall i | 0 <= i < |bbs| ensures bbs[i].1 != e.1 { assert Among(bbs, bbs[i].1); }
    }
    forall u: nat, w: nat | u in seen + {e.1} && Edge(blocks, u, w)
      ensures var succs := Succ(blocks, e.1); w in seen + {e.1} || Among(queue[1..] + Children(e.1, succs, |succs|), w)
    {
      VisitNewClosed(blocks, seen, queue, u, w);
    }
  }

  lemma VisitedAll(blocks: seq<Block>, bbs: seq<(Option<nat>, nat)>, seen: set<nat>)
    requires Visiting(blocks, bbs, seen, [])
    ensures |bbs| > 0 && forall v: nat :: Among(bbs, v) <==> Reachable(blocks, v)
  {
    assert ParentEarlier(blocks, bbs, 0);
    assert Among(bbs, ENTRY);
    forall v: nat | Reachable(blocks, v) ensures Among(bbs, v) {
      var n: nat :| ReachedIn(blocks, ENTRY, n, v);
      forall u: nat, w: nat | u in seen && Edge(blocks, u, w) ensures w in seen { assert !Among([], w); }
      ReachedInClosed(blocks, n, v, seen);
    }
  }

  // ---------------------------------------------------------------- distance from ENTRY

  ghost predicate IsDistance(blocks: seq<Block>, v: nat, m: nat) {
    ReachedIn(blocks, ENTRY, m, v) && forall k: nat :: k < m ==> !ReachedIn(blocks, ENTRY, k, v)
  }

  lemma {:induction false} Least(blocks: seq<Block>, n: nat, v: nat) returns (m: nat)
    requires ReachedIn(blocks, ENTRY, n, v)
    ensures IsDistance(blocks, v, m)
  {
    if k: nat :| k < n && ReachedIn(blocks, ENTRY, k, v) { m := Least(blocks, k, v); } else { m := n; }
  }

  ghost function Distance(blocks: seq<Block>, v: nat): nat {
    if exists m: nat :: IsDistance(blocks, v, m) then var m: nat :| IsDistance(blocks, v, m); m else 0
  }

  lemma DistanceIs(blocks: seq<Block>, v: nat)
    requires Reachable(blocks, v)
    ensures IsDistance(blocks, v, Distance(blocks, v))
  {
    var n: nat :| ReachedIn(blocks, ENTRY, n, v);
    var m := Least(blocks, n, v);
  }

  // ---------------------------------------------------------------- breadth first

  /** How far from ENTRY an entry is if its parent is where it belongs. */
  ghost function Level(blocks: seq<Block>, e: (Option<nat>, nat)): nat {
    match e.0 case None => 0 case Some(p) => Distance(blocks, p) + 1
  }

  /** The levels ascend, by one at most from the first to the last. */
  ghost predicate Ascending(blocks: seq<Block>, queue: seq<(Option<nat>, nat)>) {
    && (forall i, j :: 0 <= i < j < |queue| ==> Level(blocks, queue[i]) <= Level(blocks, queue[j]))
    && (forall j :: 0 <= j < |queue| ==> Level(blocks, queue[j]) <= Level(blocks, queue[0]) + 1)
  }

  /** Every successor of what was visited was visited too, or is queued as its child. */
  ghost predicate Promised(blocks: seq<Block>, seen: set<nat>, queue: seq<(Option<nat>, nat)>) {
    forall u: nat, w: nat :: u in seen && Edge(blocks, u, w) ==> w in seen || (Some(u), w) in queue
  }

  /** Every block comes with a parent one step nearer to ENTRY, and none before one that is nearer. */
  ghost predicate BreadthFirst(blocks: seq<Block>, bbs: seq<(Option<nat>, nat)>) {
    && (forall i :: 0 <= i < |bbs| ==> Distance(blocks, bbs[i].1) == Level(blocks, bbs[i]))
    && (forall i, j :: 0 <= i < j < |bbs| ==> Distance(blocks, bbs[i].1) <= Distance(blocks, bbs[j].1))
  }

  ghost predicate NoneFarther(blocks: seq<Block>, bbs: seq<(Option<nat>, nat)>, n: nat) {
    forall i :: 0 <= i < |bbs| ==> Distance(blocks, bbs[i].1) <= n
  }

  ghost predicate Spreading(blocks: seq<Block>, bbs: seq<(Option<nat>, nat)>, seen: set<nat>, queue: seq<(Option<nat>, nat)>) {
    && Visiting(blocks, bbs, seen, queue) && Ascending(blocks, queue) && Promised(blocks, seen, queue)
    && BreadthFirst(blocks, bbs) && (queue != [] ==> NoneFarther(blocks, bbs, Level(blocks, queue[0])))
  }

  lemma PromisedLevel(blocks: seq<Block>, seen: set<nat>, queue: seq<(Option<nat>, nat)>, u: nat, v: nat)
    requires Ascending(blocks, queue) && Promised(blocks, seen, queue) && queue != []
    requires u in seen && v !in seen && Edge(blocks, u, v)
    ensures Level(blocks, queue[0]) <= Distance(blocks, u) + 1
  {
    var i :| 0 <= i < |queue| && queue[i] == (Some(u), v);
    assert Level(blocks, queue[i]) >= Level(blocks, queue[0]);
  }

  /** What was not visited is no nearer than what is next in the queue. */
  lemma {:induction false} UnseenFar(blocks: seq<Block>, seen: set<nat>, queue: seq<(Option<nat>, nat)>, n: nat, v: nat)
    requires Ascending(blocks, queue) && Promised(blocks, seen, queue) && queue != []
    requires ENTRY in seen || Level(blocks, queue[0]) == 0
    requires ReachedIn(blocks, ENTRY, n, v) && v !in seen
    ensures n >= Level(blocks, queue[0])
    decreases n
  {
    if n > 0 {
      var u: nat :| ReachedIn(blocks, ENTRY, n - 1, u) && Edge(blocks, u, v);
      if u in seen {
        PromisedLevel(blocks, seen, queue, u, v);
        NoFarther(blocks, u, n - 1);
      } else {
        UnseenFar(blocks, seen, queue, n - 1, u);
      }
    }
  }

  lemma EntrySeen(blocks: seq<Block>, bbs: seq<(Option<nat>, nat)>, seen: set<nat>, queue: seq<(Option<nat>, nat)>)
    requires Visiting(blocks, bbs, seen, queue) && queue != []
    ensures ENTRY in seen || Level(blocks, queue[0]) == 0
  {
    if bbs != [] {
      assert ParentEarlier(blocks, bbs, 0);
      assert Among(bbs, ENTRY);
    }
  }

  lemma NoFarther(blocks: seq<Block>, v: nat, n: nat)
    requires ReachedIn(blocks, ENTRY, n, v)
    ensures Distance(blocks, v) <= n
  {
    assert Reachable(blocks, v);
    DistanceIs(blocks, v);
  }

  /** What is visited next is as far as its level says. */
  lemma NextDistance(blocks: seq<Block>, bbs: seq<(Option<nat>, nat)>, seen: set<nat>, queue: seq<(Option<nat>, nat)>)
    requires Spreading(blocks, bbs, seen, queue) && queue != [] && queue[0].1 !in seen
    ensures Distance(blocks, queue[0].1) == Level(blocks, queue[0])
  {
    var e := queue[0];
    assert Queued(blocks, bbs, e);
    match e.0
    case None =>
      assert ReachedIn(blocks, ENTRY, 0, ENTRY);
      NoFarther(blocks, ENTRY, 0);
    case Some(p) =>
      assert p in seen;
      DistanceIs(blocks, p);
      assert ReachedIn(blocks, ENTRY, Distance(blocks, p) + 1, e.1);
      NoFarther(blocks, e.1, Distance(blocks, p) + 1);
      assert Reachable(blocks, e.1);
      DistanceIs(blocks, e.1);
      EntrySeen(blocks, bbs, seen, queue);
      UnseenFar(blocks, seen, queue, Distance(blocks, e.1), e.1);
  }

  lemma SkipSpread(blocks: seq<Block>, bbs: seq<(Option<nat>, nat)>, seen: set<nat>, queue: seq<(Option<nat>, nat)>)
    requires Spreading(blocks, bbs, seen, queue) && queue != [] && queue[0].1 in seen
    ensures Spreading(blocks, bbs, seen, queue[1..])
  {
    SkipSeen(blocks, bbs, seen, queue);
    forall u: nat, w: nat | u in seen && Edge(blocks, u, w) ensures w in seen || (Some(u), w) in queue[1..] {
      if w !in seen {
        var i :| 0 <= i < |queue| && queue[i] == (Some(u), w);
        assert queue[1..][i - 1] == (Some(u), w);
      }
    }
    if |queue| > 1 { assert queue[1..][0] == queue[1]; }
  }

  lemma VisitAscends(blocks: seq<Block>, queue: seq<(Option<nat>, nat)>, succs: seq<nat>)
    requires queue != [] && Ascending(blocks, queue) && Distance(blocks, queue[0].1) == Level(blocks, queue[0])
    ensures var queue' := queue[1..] + Children(queue[0].1, succs, |succs|);
            Ascending(blocks, queue') && (queue' != [] ==> Level(blocks, queue[0]) <= Level(blocks, queue'[0]))
  {
    var rest, children := queue[1..], Children(queue[0].1, succs, |succs|);
    var queue' := rest + children;
    var n := Level(blocks, queue[0]);
    forall i | 0 <= i < |queue'|
      ensures if i < |rest| then queue'[i] == queue[i + 1] && n <= Level(blocks, queue'[i]) <= n + 1 else Level(blocks, queue'[i]) == n + 1
    {
      if i >= |rest| { assert queue'[i] == children[i - |rest|]; }
    }
  }

  lemma VisitPromised(blocks: seq<Block>, seen: set<nat>, queue: seq<(Option<nat>, nat)>)
    requires queue != [] && Promised(blocks, seen, queue) && queue[0].1 < |blocks|
    ensures var succs := Succ(blocks, queue[0].1);
            Promised(blocks, seen + {queue[0].1}, queue[1..] + Children(queue[0].1, succs, |succs|))
  {
    var current := queue[0].1;
    var succs := Succ(blocks, current);
    var queue' := queue[1..] + Children(current, succs, |succs|);
    forall u: nat, w: nat | u in seen + {current} && Edge(blocks, u, w) ensures w in seen + {current} || (Some(u), w) in queue' {
      if u == current {
        var i :| 0 <= i < |succs| && succs[i] == w;
        assert queue'[|queue| - 1 + i] == (Some(u), w);
      } else if w !in seen && w != current {
        var i :| 0 <= i < |queue| && queue[i] == (Some(u), w);
        assert queue'[i - 1] == (Some(u), w);
      }
    }
  }

  lemma VisitSpread(blocks: seq<Block>, bbs: seq<(Option<nat>, nat)>, seen: set<nat>, queue: seq<(Option<nat>, nat)>)
    requires InRange(blocks) && blocks != []
    requires Spreading(blocks, bbs, seen, queue) && queue != [] && queue[0].1 !in seen
    ensures queue[0].1 < |blocks|
    ensures var succs := Succ(blocks, queue[0].1);
            Spreading(blocks, bbs + [queue[0]], seen + {queue[0].1}, queue[1..] + Children(queue[0].1, succs, |succs|))
  {
    NextDistance(blocks, bbs, seen, queue);
    VisitNew(blocks, bbs, seen, queue);
    VisitPromised(blocks, seen, queue);
    VisitAscends(blocks, queue, Succ(blocks, queue[0].1));
  }

  /** The queue-driven traversal visits exactly the reachable blocks, each once,
      and records with each a parent visited before it. */
  method Preorder(blocks: seq<Block>) returns (bbs: seq<(Option<nat>, nat)>)
    requires blocks != [] && InRange(blocks)
    ensures forall v: nat :: Among(bbs, v) <==> Reachable(blocks, v)
    ensures Distinct(bbs) && |bbs| > 0 && ParentsEarlier(blocks, bbs) && BreadthFirst(blocks, bbs)
  {
    var queue: seq<(Option<nat>, nat)> := [(None, ENTRY)];
    var seen: set<nat> := {};
    bbs := [];
    while queue != []
      invariant Spreading(blocks, bbs, seen, queue)
      decreases Ids(|blocks|) - seen, |queue|
    {
      var (parent, current) := queue[0];
      if current in seen {
        SkipSpread(blocks, bbs, seen, queue);
        queue := queue[1..];
        continue;
      }
      VisitSpread(blocks, bbs, seen, queue);
      queue := queue[1..];
      seen := seen + {current};
      bbs := bbs + [(parent, current)];
      queue := Enqueue(queue, current, Succ(blocks, current));
    }
    VisitedAll(blocks, bbs, seen);
  }

  method Enqueue(rest: seq<(Option<nat>, nat)>, current: nat, succs: seq<nat>) returns (queue: seq<(Option<nat>, nat)>)
    ensures queue == rest + Children(current, succs, |succs|)
  {
    queue := rest;
    for k := 0 to |succs|
      invariant queue == rest + Children(current, succs, k)
    {
      queue := queue + [(Some(current), succs[k])];
    }
  }

  lemma AmongAppend(bbs: seq<(Option<nat>, nat)>, e: (Option<nat>, nat))
    ensures forall v: nat :: Among(bbs + [e], v) <==> Among(bbs, v) || v == e.1
  {
    forall v: nat ensures Among(bbs + [e], v) <==> Among(bbs, v) || v == e.1 {
      if Among(bbs, v) {
        var i :| 0 <= i < |bbs| && bbs[i].1 == v;
        assert (bbs + [e])[i].1 == v;
      }
      if v == e.1 { assert (bbs + [e])[|bbs|].1 == v; }
    }
  }

  // ---------------------------------------------------------------- removal

  /** Unreachable targets are left as they are: only unreachable blocks have them. */
  function Renumber(seen: set<nat>): nat -> nat {
    x => if x in seen then NewId(seen, x) else x
  }

  function Retarget(seen: set<nat>, b: Block): Block {
    b.(terminator := b.terminator.MapSuccessors(Renumber(seen)))
  }

  /** The kept blocks among the first k, in order, retargeted. */
  function Compacted(blocks: seq<Block>, seen: set<nat>, k: nat): (r: seq<Block>)
    requires k <= |blocks|
    ensures |r| == NewId(seen, k)
  {
    if k == 0 then []
    else Compacted(blocks, seen, k - 1) + (if k - 1 in seen then [Retarget(seen, blocks[k - 1])] else [])
  }

  /** A kept block stands, retargeted, at its new number. */
  lemma {:induction false} CompactedAt(blocks: seq<Block>, seen: set<nat>, k: nat, j: nat)
    requires j < k <= |blocks| && j in seen
    ensures NewId(seen, j) < NewId(seen, k)
    ensures Compacted(blocks, seen, k)[NewId(seen, j)] == Retarget(seen, blocks[j])
  {
    NewIdGrows(seen, j, k);
    if j < k - 1 { CompactedAt(blocks, seen, k - 1, j); }
  }

  ghost predicate IsReachableSet(blocks: seq<Block>, seen: set<nat>) {
    forall v: nat :: v in seen <==> Reachable(blocks, v)
  }

  ghost predicate RenumberRel(blocks: seq<Block>, seen: set<nat>, c: Config, d: Config) {
    match c
    case Halted(_, _) => d == c
    case Running(b, pc, s, t) => b in seen && b < |blocks| && d == Running(NewId(seen, b), pc, s, t)
  }

  lemma CompactedEdge(blocks: seq<Block>, seen: set<nat>, u: nat, v: nat)
    requires blocks != [] && InRange(blocks) && IsReachableSet(blocks, seen)
    requires u in seen && Edge(blocks, u, v)
    ensures v in seen && Edge(Compacted(blocks, seen, |blocks|), NewId(seen, u), NewId(seen, v))
  {
    ReachableStep(blocks, u, v);
    CompactedSucc(blocks, seen, u);
    var h := Renumber(seen);
    MapSuccessorsMember(blocks[u].terminator, h, h(v));
  }

  lemma CompactedSucc(blocks: seq<Block>, seen: set<nat>, u: nat)
    requires u in seen && u < |blocks|
    ensures NewId(seen, u) < |Compacted(blocks, seen, |blocks|)|
    ensures Succ(Compacted(blocks, seen, |blocks|), NewId(seen, u))
         == blocks[u].terminator.MapSuccessors(Renumber(seen)).Successors()
  {
    CompactedAt(blocks, seen, |blocks|, u);
  }

  /** Keeping only the reachable blocks, renumbered in order, is not observable. */
  lemma CompactedSame(blocks: seq<Block>, seen: set<nat>)
    requires blocks != [] && InRange(blocks) && IsReachableSet(blocks, seen)
    ensures SameBehaviour(blocks, Compacted(blocks, seen, |blocks|))
  {
    var after := Compacted(blocks, seen, |blocks|);
    var rel: (Config, Config) -> bool := (c, d) => RenumberRel(blocks, seen, c, d);
    var rank: Config -> nat := c => 0;
    assert ReachedIn(blocks, ENTRY, 0, ENTRY);
    forall p: Prims, o: Oracle, args: seq<Value>
      ensures Covers(p, o, blocks, after, args) && Covers(p, o, after, blocks, args)
    {
      var f, g := x => Step(p, o, blocks, x), x => Step(p, o, after, x);
      forall c, d | rel(c, d) ensures SimStep(f, g, rel, rank, c, d) {
        RenumberStep(p, o, blocks, seen, c, d);
      }
      SimCovers(p, o, blocks, after, rel, rank, args);
    }
  }

  lemma RenumberStep(p: Prims, o: Oracle, blocks: seq<Block>, seen: set<nat>, c: Config, d: Config)
    requires blocks != [] && InRange(blocks) && IsReachableSet(blocks, seen)
    requires RenumberRel(blocks, seen, c, d)
    ensures RenumberRel(blocks, seen, Step(p, o, blocks, c), Step(p, o, Compacted(blocks, seen, |blocks|), d))
  {
    if c.Running? {
      var b := blocks[c.block];
      CompactedAt(blocks, seen, |blocks|, c.block);
      if c.pc < |b.stmts| {
        StepStmtMoved(p, o, c, b.stmts[c.pc], d.block, d.pc);
      } else {
        var h := Renumber(seen);
        StepMapSuccessors(c, b.terminator, h);
        StepTerminatorMoved(c, b.terminator.MapSuccessors(h), d.block, d.pc);
        StepAlongEdge(c, b.terminator);
        var c' := StepTerminator(c, b.terminator);
        if c'.Running? {
          assert Edge(blocks, c.block, c'.block);
          ReachableStep(blocks, c.block, c'.block);
        }
      }
    }
  }

  lemma {:induction false} CompactedReached(blocks: seq<Block>, seen: set<nat>, n: nat, v: nat)
    requires blocks != [] && InRange(blocks) && IsReachableSet(blocks, seen) && ReachedIn(blocks, ENTRY, n, v)
    ensures ReachedIn(Compacted(blocks, seen, |blocks|), ENTRY, n, NewId(seen, v))
  {
    if n > 0 {
      var u: nat :| ReachedIn(blocks, ENTRY, n - 1, u) && Edge(blocks, u, v);
      CompactedReached(blocks, seen, n - 1, u);
      assert Reachable(blocks, u);
      CompactedEdge(blocks, seen, u, v);
    }
  }

  /** In the compacted body every edge leads to a block and every block is reachable. */
  lemma CompactedWellFormed(blocks: seq<Block>, seen: set<nat>)
    requires blocks != [] && InRange(blocks) && IsReachableSet(blocks, seen)
    ensures var after := Compacted(blocks, seen, |blocks|);
            InRange(after) && forall i: nat :: i < |after| ==> Reachable(after, i)
  {
    var after := Compacted(blocks, seen, |blocks|);
    forall i: nat, j: nat | Edge(after, i, j) ensures j < |after| {
      var u := OldId(seen, |blocks|, i);
      CompactedAt(blocks, seen, |blocks|, u);
      var h := Renumber(seen);
      MapSuccessorsMember(blocks[u].terminator, h, j);
      var v :| v in Succ(blocks, u) && h(v) == j;
      assert Edge(blocks, u, v);
      CompactedEdge(blocks, seen, u, v);
      NewIdGrows(seen, v, |blocks|);
    }
    forall i: nat | i < |after| ensures Reachable(after, i) {
      var v := OldId(seen, |blocks|, i);
      assert Reachable(blocks, v);
      var n: nat :| ReachedIn(blocks, ENTRY, n, v);
      CompactedReached(blocks, seen, n, v);
    }
  }

  method BlockMap(count: nat, seen: set<nat>) returns (blockMap: seq<Option<nat>>)
    ensures |blockMap| == count
    ensures forall i :: 0 <= i < count ==> blockMap[i] == if i in seen then Some(NewId(seen, i)) else None
  {
    var nextBlockId: nat := ENTRY;
    blockMap := [];
    for id := 0 to count
      invariant nextBlockId == NewId(seen, id) && |blockMap| == id
      invariant forall i :: 0 <= i < id ==> blockMap[i] == if i in seen then Some(NewId(seen, i)) else None
    {
      if id in seen {
        blockMap := blockMap + [Some(nextBlockId)];
        nextBlockId := nextBlockId + 1;
      } else {
        blockMap := blockMap + [None];
      }
    }
  }

  method RetargetAll(body: Body, blockMap: seq<Option<nat>>, ghost seen: set<nat>)
    requires |blockMap| == |body.blocks| && InRange(body.blocks)
    requires forall i :: 0 <= i < |blockMap| ==> blockMap[i] == if i in seen then Some(NewId(seen, i)) else None
    modifies body
    ensures |body.blocks| == |old(body.blocks)| && body.locals == old(body.locals)
    ensures forall i :: 0 <= i < |body.blocks| ==> body.blocks[i] == Retarget(seen, old(body.blocks)[i])
  {
    ghost var start := body.blocks;
    var f := (x: nat) => if x < |blockMap| && blockMap[x].Some? then blockMap[x].value else x;
    for id := 0 to |body.blocks|
      invariant |body.blocks| == |start| && body.locals == old(body.locals)
      invariant forall i :: 0 <= i < |start| ==>
        body.blocks[i] == if i < id then Retarget(seen, start[i]) else start[i]
    {
      var t := body.blocks[id].terminator;
      forall x: nat | x in t.Successors() ensures f(x) == Renumber(seen)(x) { assert Edge(start, id, x); }
      MapSuccessorsSame(t, f, Renumber(seen));
      body.blocks := body.blocks[id := body.blocks[id].(terminator := t.MapSuccessors(f))];
    }
  }

  method Retain(body: Body, blockMap: seq<Option<nat>>, ghost start: seq<Block>, ghost seen: set<nat>)
    requires |blockMap| == |body.blocks| == |start|
    requires forall i :: 0 <= i < |start| ==> blockMap[i].Some? == (i in seen) && body.blocks[i] == Retarget(seen, start[i])
    modifies body
    ensures body.blocks == Compacted(start, seen, |start|) && body.locals == old(body.locals)
  {
    var kept: seq<Block> := [];
    for id := 0 to |body.blocks|
      invariant body.locals == old(body.locals) && body.blocks == old(body.blocks)
      invariant kept == Compacted(start, seen, id)
    {
      if blockMap[id].Some? { kept := kept + [body.blocks[id]]; }
    }
    body.blocks := kept;
  }

  /** The pass: nothing observable changes and every block that is left is reachable. */
  method RemoveUnreachable(body: Body)
    requires body.blocks != [] && InRange(body.blocks)
    modifies body
    ensures SameBehaviour(old(body.blocks), body.blocks) && body.locals == old(body.locals)
    ensures InRange(body.blocks) && body.blocks != []
    ensures forall i: nat :: i < |body.blocks| ==> Reachable(body.blocks, i)
    ensures exists seen ::
              IsReachableSet(old(body.blocks), seen) && body.blocks == Compacted(old(body.blocks), seen, |old(body.blocks)|)
  {
    ghost var start := body.blocks;
    var order := Preorder(body.blocks);
    var seen: set<nat> := set i | 0 <= i < |order| :: order[i].1;
    SeenIsReachable(start, order, seen);
    var blockMap := BlockMap(|body.blocks|, seen);
    RetargetAll(body, blockMap, seen);
    Retain(body, blockMap, start, seen);
    CompactedSame(start, seen);
    CompactedWellFormed(start, seen);
    CompactedAt(start, seen, |start|, ENTRY);
  }

  lemma CompactedNotEmpty(blocks: seq<Block>, seen: set<nat>)
    requires blocks != [] && InRange(blocks) && IsReachableSet(blocks, seen)
    ensures Compacted(blocks, seen, |blocks|) != []
  {
    assert ReachedIn(blocks, ENTRY, 0, ENTRY);
    assert Reachable(blocks, ENTRY);
    CompactedAt(blocks, seen, |blocks|, ENTRY);
  }

  lemma SeenIsReachable(blocks: seq<Block>, order: seq<(Option<nat>, nat)>, seen: set<nat>)
    requires forall v: nat :: Among(order, v) <==> Reachable(blocks, v)
    requires seen == set i | 0 <= i < |order| :: order[i].1
    ensures IsReachableSet(blocks, seen) && ENTRY in seen
  {
    assert ReachedIn(blocks, ENTRY, 0, ENTRY);
    assert Reachable(blocks, ENTRY);
    forall v: nat ensures v in seen <==> Reachable(blocks, v) { assert v in seen <==> Among(order, v); }
  }
}
