/** The blocks of a body with lazily computed facts about their graph, shared between clones. */
module BasicBlocks {
  import opened Prelude
  import opened Mir
  import opened Cfg
  import opened Postorder

  type PredecessorTable = seq<seq<nat>>

  /** The predecessors of every block, one entry for each edge. */
  function PredecessorsOf(blocks: seq<Block>): (r: PredecessorTable)
    ensures |r| == |blocks| && forall t :: 0 <= t < |r| ==> r[t] == PredecessorList(blocks, t)
  {
    seq(|blocks|, t requires 0 <= t < |blocks| => PredecessorList(blocks, t))
  }

  lemma {:induction false} SameGraphUpto(blocks: seq<Block>, blocks': seq<Block>, k: nat, t: nat)
    requires k <= |blocks| && Graph(blocks) == Graph(blocks')
    ensures k <= |blocks'| && PredecessorsUpto(blocks, k, t) == PredecessorsUpto(blocks', k, t)
  {
    assert |Graph(blocks')| == |blocks'|;
    if k > 0 {
      SameGraphUpto(blocks, blocks', k - 1, t);
      assert Graph(blocks)[k - 1] == Graph(blocks')[k - 1];
    }
  }

  /** The predecessors depend on nothing but the successors. */
  lemma SameGraphSamePredecessors(blocks: seq<Block>, blocks': seq<Block>)
    requires Graph(blocks) == Graph(blocks')
    ensures PredecessorsOf(blocks) == PredecessorsOf(blocks')
  {
    assert |Graph(blocks)| == |blocks| && |Graph(blocks')| == |blocks'|;
    forall t | 0 <= t < |blocks| ensures PredecessorsOf(blocks)[t] == PredecessorsOf(blocks')[t] {
      SameGraphUpto(blocks, blocks', |blocks|, t);
    }
  }

  lemma RepeatCount(b: nat, succs: seq<nat>, j: nat, t: nat)
    requires j < |succs|
    ensures Repeat(b, multiset(succs[..j + 1])[t])
         == Repeat(b, multiset(succs[..j])[t]) + if succs[j] == t then [b] else []
  {
    assert succs[..j + 1] == succs[..j] + [succs[j]];
  }

  /** Enters block b as a predecessor of each of its successors. */
  method EnterBlock(table: PredecessorTable, succs: seq<nat>, b: nat) returns (preds: PredecessorTable)
    requires forall x :: x in succs ==> x < |table|
    ensures |preds| == |table|
    ensures forall t :: 0 <= t < |preds| ==> preds[t] == table[t] + Repeat(b, multiset(succs)[t])
  {
    preds := table;
    for j := 0 to |succs|
      invariant |preds| == |table|
      invariant forall t :: 0 <= t < |preds| ==> preds[t] == table[t] + Repeat(b, multiset(succs[..j])[t])
    {
      var before := preds;
      assert succs[j] in succs;
      preds := preds[succs[j] := preds[succs[j]] + [b]];
      forall t | 0 <= t < |preds| ensures preds[t] == table[t] + Repeat(b, multiset(succs[..j + 1])[t]) {
        RepeatCount(b, succs, j, t);
        assert preds[t] == before[t] + if succs[j] == t then [b] else [];
      }
    }
    assert succs[..|succs|] == succs;
  }

  /** Walks the edges block by block, appending to the list of each target. */
  method ComputePredecessors(blocks: seq<Block>) returns (preds: PredecessorTable)
    requires InRange(blocks)
    ensures preds == PredecessorsOf(blocks)
  {
    preds := seq(|blocks|, _ => []);
    for b := 0 to |blocks|
      invariant |preds| == |blocks|
      invariant forall t :: 0 <= t < |blocks| ==> preds[t] == PredecessorsUpto(blocks, b, t)
    {
      forall x | x in Succ(blocks, b) ensures x < |preds| { assert Edge(blocks, b, x); }
      preds := EnterBlock(preds, Succ(blocks, b), b);
    }
  }

  class Cache {
    var strong: nat  // how many handles share the cache
    var predecessors: Option<PredecessorTable>
    var reversePostorder: Option<seq<nat>>
    ghost var owners: set<BasicBlocks>
    ghost var graph: seq<seq<nat>>  // the successors the cached facts are about

    constructor (ghost graph: seq<seq<nat>>)
      ensures strong == 1 && owners == {} && this.graph == graph
      ensures predecessors.None? && reversePostorder.None?
    {
      strong := 1;
      owners := {};
      this.graph := graph;
      predecessors, reversePostorder := None, None;
    }
  }

  class BasicBlocks {
    var blocks: seq<Block>
    var cache: Cache
    ghost var stale: bool  // whether successors were edited without dirtying the cache

    /** What the cache holds is what would be computed from this handle's blocks. */
    ghost predicate Fresh()
      reads this, cache
    {
      && Searchable(blocks) && Graph(blocks) == cache.graph
      && (cache.predecessors.Some? ==> cache.predecessors.value == PredecessorsOf(blocks))
      && (cache.reversePostorder.Some? ==> cache.reversePostorder.value == ReversePostorderOf(blocks))
    }

    /** The cache counts its handles, and is right for each of them that is not stale. */
    ghost predicate Coherent()
      reads this, cache, cache.owners
    {
      && this in cache.owners
      && cache.strong == |cache.owners|
      && forall o :: o in cache.owners ==> o.cache == cache && (o.stale || o.Fresh())
    }

    constructor (blocks: seq<Block>)
      requires Searchable(blocks)
      ensures Coherent() && !stale && this.blocks == blocks && fresh(cache)
    {
      this.blocks := blocks;
      stale := false;
      cache := new Cache(Graph(blocks));
      new;
      cache.owners := {this};
    }

    method Predecessors() returns (r: PredecessorTable)
      requires Coherent() && !stale
      modifies cache
      ensures r == PredecessorsOf(blocks)
      ensures Coherent()
      ensures forall h: BasicBlocks :: old(allocated(h)) && h != this && old(h.Coherent()) ==> h.Coherent()
    {
      if cache.predecessors.None? {
        var preds := ComputePredecessors(blocks);
        cache.predecessors := Some(preds);
        forall o | o in cache.owners && !o.stale ensures o.Fresh() { SameGraphSamePredecessors(blocks, o.blocks); }
      }
      r := cache.predecessors.value;
    }

    method ReversePostorder() returns (r: seq<nat>)
      requires Coherent() && !stale
      modifies cache
      ensures r == ReversePostorderOf(blocks)
      ensures Coherent()
      ensures forall h: BasicBlocks :: old(allocated(h)) && h != this && old(h.Coherent()) ==> h.Coherent()
    {
      if cache.reversePostorder.None? {
        var order := CollectReversePostorder(blocks);
        cache.reversePostorder := Some(order);
        forall o | o in cache.owners && !o.stale ensures o.Fresh() { SameGraphSameOrder(blocks, o.blocks); }
      }
      r := cache.reversePostorder.value;
    }

    /** A clone has its own blocks but shares the cache. */
    method Clone() returns (r: BasicBlocks)
      requires Coherent()
      modifies cache
      ensures fresh(r) && r.blocks == blocks && r.cache == cache && r.stale == stale
      ensures Coherent() && r.Coherent()
      ensures forall h: BasicBlocks :: old(allocated(h)) && h != this && old(h.Coherent()) ==> h.Coherent()
    {
      r := new BasicBlocks.Sharing(this);
      cache.strong := cache.strong + 1;
      cache.owners := cache.owners + {r};
    }

    constructor Sharing(other: BasicBlocks)
      ensures blocks == other.blocks && cache == other.cache && stale == other.stale
    {
      blocks, cache, stale := other.blocks, other.cache, other.stale;
    }

    /** Gives up this handle. */
    method IntoBlocks() returns (r: seq<Block>)
      requires Coherent()
      modifies cache
      ensures r == blocks
      ensures forall h: BasicBlocks :: old(allocated(h)) && h != this && old(h.Coherent()) ==> h.Coherent()
    {
      r := blocks;
      cache.strong := cache.strong - 1;
      cache.owners := cache.owners - {this};
    }

    /** Empties the cache if nobody shares it, and otherwise takes a new one. */
    method DirtyCache()
      requires Coherent()
      modifies this`cache, cache
      ensures blocks == old(blocks) && stale == old(stale)
      ensures cache.owners == {this} && cache.strong == 1
      ensures cache == old(cache) || fresh(cache)
      ensures cache.predecessors.None? && cache.reversePostorder.None?
      ensures forall h: BasicBlocks :: old(allocated(h)) && h != this && old(h.Coherent()) ==> h.Coherent()
    {
      if cache.strong == 1 {
        OnlyOwner(cache.owners, this);
        cache.predecessors, cache.reversePostorder := None, None;
      } else {
        cache.strong := cache.strong - 1;
        cache.owners := cache.owners - {this};
        cache := new Cache(Graph(blocks));
        cache.owners := {this};
      }
    }

    /** An edit of the blocks through blocks_mut. */
    method BlocksMut(edited: seq<Block>)
      requires Coherent() && Searchable(edited)
      modifies this, cache
      ensures blocks == edited && !stale
      ensures Coherent()
      ensures forall h: BasicBlocks :: old(allocated(h)) && h != this && old(h.Coherent()) ==> h.Coherent()
    {
      DirtyCache();
      blocks := edited;
      stale := false;
      cache.graph := Graph(edited);
    }

    /** An edit of the blocks that leaves the cache alone: unless the successors are unchanged,
        nothing may be asked of this handle before a BlocksMut. */
    method BlocksMutDontDirty(edited: seq<Block>)
      requires Coherent()
      modifies this`blocks, this`stale
      ensures blocks == edited && stale == (old(stale) || Graph(edited) != Graph(old(blocks)))
      ensures Coherent()
      ensures forall h: BasicBlocks :: old(allocated(h)) && h != this && old(h.Coherent()) ==> h.Coherent()
    {
      stale := stale || Graph(edited) != Graph(blocks);
      if !stale {
        SameGraphSamePredecessors(blocks, edited);
        SameGraphSameOrder(blocks, edited);
      }
      blocks := edited;
    }
  }

  lemma OnlyOwner(owners: set<BasicBlocks>, b: BasicBlocks)
    requires |owners| == 1 && b in owners
    ensures owners == {b}
  {
    assert |owners - {b}| == 0;
  }
}
