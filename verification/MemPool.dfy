/** tinyxml2's MemPoolT: fixed-size items carved from blocks, the unused ones linked through themselves. */
module MemPools {
  datatype Ptr = NULL | Item(block: nat, index: nat)

  const BLOCK_SIZE := 4 * 1024

  ghost function Nth(s: seq<Ptr>, i: int): Ptr {
    if 0 <= i < |s| then s[i] else NULL
  }

  ghost predicate Distinct(s: seq<Ptr>) {
    forall i, j | 0 <= i < j < |s| :: s[i] != s[j]
  }

  ghost predicate LinkOk(next: map<Ptr, Ptr>, free: seq<Ptr>, i: int)
    requires 0 <= i < |free|
  {
    free[i] in next && next[free[i]] == Nth(free, i + 1)
  }

  /** Following `next` from root visits exactly the items of free, in this order, and ends. */
  ghost predicate Chain(next: map<Ptr, Ptr>, root: Ptr, free: seq<Ptr>) {
    && root == Nth(free, 0) && Distinct(free)
    && forall i {:trigger LinkOk(next, free, i)} | 0 <= i < |free| :: LinkOk(next, free, i)
  }

  ghost predicate IsItem(p: Ptr, blocks: nat, perBlock: nat) {
    p.Item? && p.block < blocks && p.index < perBlock
  }

  /** The items are those in use and those in the free list, and none is both. */
  ghost predicate Partition(blocks: nat, perBlock: nat, used: set<Ptr>, free: seq<Ptr>) {
    && (forall p :: IsItem(p, blocks, perBlock) <==> p in used || p in free)
    && (forall p | p in free :: p !in used)
    && |used| + |free| == blocks * perBlock
  }

  /** The pool has just as many blocks as its fullest moment needed. */
  ghost predicate Tight(blocks: nat, perBlock: nat, most: nat) {
    most <= blocks * perBlock && (blocks > 0 ==> (blocks - 1) * perBlock < most)
  }

  /** The items of one block. */
  function Row(block: nat, perBlock: nat): seq<Ptr> {
    seq(perBlock, j requires 0 <= j < perBlock => Item(block, j))
  }

  lemma {:induction false} InRow(block: nat, perBlock: nat, p: Ptr)
    ensures p in Row(block, perBlock) <==> p.Item? && p.block == block && p.index < perBlock
  {
    if p.Item? && p.block == block && p.index < perBlock {
      assert Row(block, perBlock)[p.index] == p;
    }
  }

  lemma {:induction false} ChainPop(next: map<Ptr, Ptr>, root: Ptr, free: seq<Ptr>)
    requires Chain(next, root, free) && free != []
    ensures root == free[0] && root in next && Chain(next, next[root], free[1..]) && Distinct(free)
  {
    assert LinkOk(next, free, 0);
    forall i | 0 <= i < |free[1..]| ensures LinkOk(next, free[1..], i) {
      assert LinkOk(next, free, i + 1);
    }
  }

  lemma {:induction false} ChainPush(next: map<Ptr, Ptr>, root: Ptr, free: seq<Ptr>, p: Ptr)
    requires Chain(next, root, free) && p !in free
    ensures Chain(next[p := root], p, [p] + free)
  {
    var s, next' := [p] + free, next[p := root];
    forall i | 0 <= i < |s| ensures LinkOk(next', s, i) {
      if i > 0 {
        assert LinkOk(next, free, i - 1);
      }
    }
  }

  /** What is written into an item in use does not matter. */
  lemma {:induction false} ChainFrame(next: map<Ptr, Ptr>, root: Ptr, free: seq<Ptr>, p: Ptr, data: Ptr)
    requires Chain(next, root, free) && p !in free
    ensures Chain(next[p := data], root, free)
  {
    var next' := next[p := data];
    forall i | 0 <= i < |free| ensures LinkOk(next', free, i) {
      assert LinkOk(next, free, i);
    }
  }

  lemma {:induction false} PartitionGrow(blocks: nat, perBlock: nat, used: set<Ptr>)
    requires Partition(blocks, perBlock, used, [])
    ensures Partition(blocks + 1, perBlock, used, Row(blocks, perBlock))
  {
    var row := Row(blocks, perBlock);
    forall p ensures IsItem(p, blocks + 1, perBlock) <==> p in used || p in row {
      assert IsItem(p, blocks, perBlock) <==> p in used;
      InRow(blocks, perBlock, p);
    }
  }

  lemma {:induction false} PartitionAlloc(blocks: nat, perBlock: nat, used: set<Ptr>, free: seq<Ptr>)
    requires Partition(blocks, perBlock, used, free) && Distinct(free) && free != []
    ensures free[0] !in used && IsItem(free[0], blocks, perBlock)
            && Partition(blocks, perBlock, used + {free[0]}, free[1..])
  {
    assert free == [free[0]] + free[1..];
    assert free[0] in free;
  }

  lemma {:induction false} PartitionFree(blocks: nat, perBlock: nat, used: set<Ptr>, free: seq<Ptr>, p: Ptr)
    requires Partition(blocks, perBlock, used, free) && p in used
    ensures p !in free && Partition(blocks, perBlock, used - {p}, [p] + free)
  {
  }

  /** The loop of Alloc that links the items of a new block. */
  method LinkBlock(was: map<Ptr, Ptr>, block: nat, perBlock: nat) returns (next: map<Ptr, Ptr>)
    requires perBlock > 0
    ensures Chain(next, Item(block, 0), Row(block, perBlock))
    ensures forall p | p in was && p !in Row(block, perBlock) :: p in next && next[p] == was[p]
  {
    next := was;
    for i := 0 to perBlock - 1
      invariant forall j | 0 <= j < i :: Item(block, j) in next && next[Item(block, j)] == Item(block, j + 1)
      invariant forall p | p in was && (p == NULL || p.block != block || p.index >= perBlock) ::
                  p in next && next[p] == was[p]
    {
      next := next[Item(block, i) := Item(block, i + 1)];
    }
    next := next[Item(block, perBlock - 1) := NULL];
    ghost var row := Row(block, perBlock);
    forall i | 0 <= i < |row| ensures LinkOk(next, row, i) {
      assert row[i] == Item(block, i);
    }
    forall p | p in was && p !in row ensures p == NULL || p.block != block || p.index >= perBlock {
      InRow(block, perBlock, p);
    }
  }

  lemma {:induction false} AtLeastOne(itemSize: nat)
    requires 0 < itemSize <= BLOCK_SIZE
    ensures BLOCK_SIZE / itemSize > 0
  {
  }

  lemma {:induction false} UsedIsItem(blocks: nat, perBlock: nat, used: set<Ptr>, free: seq<Ptr>)
    requires Partition(blocks, perBlock, used, free)
    ensures NULL !in used && NULL !in free && forall p | p in used :: p !in free
  {
    assert !IsItem(NULL, blocks, perBlock);
  }

  lemma {:induction false} NoRootNoFree(next: map<Ptr, Ptr>, root: Ptr, free: seq<Ptr>, blocks: nat, perBlock: nat,
                                        used: set<Ptr>)
    requires Chain(next, root, free) && Partition(blocks, perBlock, used, free)
    ensures root == NULL <==> free == []
  {
    UsedIsItem(blocks, perBlock, used, free);
  }

  /** A new block is taken only when the pool is fuller than ever. */
  lemma {:induction false} TightAlloc(blocks: nat, perBlock: nat, used: set<Ptr>, free: seq<Ptr>, p: Ptr, most: nat)
    requires Partition(blocks, perBlock, used, free) && Tight(blocks, perBlock, most) && |used| <= most && perBlock > 0
    requires p !in used
    ensures |used + {p}| == |used| + 1
    ensures var most' := if |used| + 1 > most then |used| + 1 else most;
            Tight(if free == [] then blocks + 1 else blocks, perBlock, most')
  {
    assert (blocks + 1) * perBlock == blocks * perBlock + perBlock;
  }

  class MemPool {
    /** ITEMS_PER_BLOCK. */
    const perBlock: nat
    var blocks: nat
    var root: Ptr
    /** The `next` member of every item; in an item in use, whatever its owner has stored there. */
    var next: map<Ptr, Ptr>
    var currentAllocs: nat
    var nAllocs: nat
    var maxAllocs: nat
    var nUntracked: int

    ghost var used: set<Ptr>
    ghost var free: seq<Ptr>

    ghost predicate Valid()
      reads this
    {
      && perBlock > 0 && Chain(next, root, free) && Partition(blocks, perBlock, used, free)
      && currentAllocs == |used| && currentAllocs <= maxAllocs <= nAllocs && Tight(blocks, perBlock, maxAllocs)
    }

    constructor (itemSize: nat)
      requires 0 < itemSize <= BLOCK_SIZE
      ensures Valid() && used == {} && blocks == 0 && perBlock == BLOCK_SIZE / itemSize
    {
      perBlock := BLOCK_SIZE / itemSize;
      blocks, root, next := 0, NULL, map[];
      currentAllocs, nAllocs, maxAllocs, nUntracked := 0, 0, 0, 0;
      used, free := {}, [];
      new;
      AtLeastOne(itemSize);
    }

    /** The first half of Alloc: the items of the new block are the free ones. */
    method AddBlock()
      requires perBlock > 0 && Partition(blocks, perBlock, used, [])
      modifies this`blocks, this`root, this`next, this`free
      ensures Chain(next, root, free) && Partition(blocks, perBlock, used, free)
      ensures blocks == old(blocks) + 1 && free == Row(old(blocks), perBlock) && free != []
      ensures forall p | p in used && p in old(next) :: p in next && next[p] == old(next)[p]
    {
      hide Chain, Partition;
      PartitionGrow(blocks, perBlock, used);
      UsedIsItem(blocks + 1, perBlock, used, Row(blocks, perBlock));
      next := LinkBlock(next, blocks, perBlock);
      root := Item(blocks, 0);
      free := Row(blocks, perBlock);
      blocks := blocks + 1;
    }

    /** The other half: the first free item is handed out. */
    method TakeRoot() returns (r: Ptr)
      requires Chain(next, root, free) && Partition(blocks, perBlock, used, free) && free != []
      modifies this`root, this`used, this`free
      ensures Chain(next, root, free) && Partition(blocks, perBlock, used, free)
      ensures r == old(free)[0] && free == old(free)[1..] && used == old(used) + {r}
      ensures r !in old(used) && IsItem(r, blocks, perBlock)
    {
      hide Chain, Partition;
      ChainPop(next, root, free);
      PartitionAlloc(blocks, perBlock, used, free);
      r := root;
      root := next[root];
      used, free := used + {r}, free[1..];
    }

    /** MemPoolT::Alloc: an item of the pool that nobody has, from a new block only if all are in use. */
    method Alloc() returns (r: Ptr)
      requires Valid()
      modifies this
      ensures Valid() && IsItem(r, blocks, perBlock) && r !in old(used) && used == old(used) + {r}
      ensures blocks == old(blocks) + if old(free) == [] then 1 else 0
      ensures old(free) != [] ==> r == old(free)[0] && free == old(free)[1..] && next == old(next)
      ensures old(free) == [] ==> r == Row(old(blocks), perBlock)[0] && free == Row(old(blocks), perBlock)[1..]
      ensures forall p | p in old(used) && p in old(next) :: p in next && next[p] == old(next)[p]
      ensures nAllocs == old(nAllocs) + 1 && nUntracked == old(nUntracked) + 1
      ensures maxAllocs == if |used| > old(maxAllocs) then |used| else old(maxAllocs)
    {
      hide Chain, Partition, Tight, Row, IsItem;
      ghost var blocks0, used0, free0 := blocks, used, free;
      NoRootNoFree(next, root, free, blocks, perBlock, used);
      if root == NULL {
        AddBlock();
      }
      r := TakeRoot();
      TightAlloc(blocks0, perBlock, used0, free0, r, maxAllocs);
      currentAllocs := currentAllocs + 1;
      if currentAllocs > maxAllocs {
        maxAllocs := currentAllocs;
      }
      nAllocs := nAllocs + 1;
      nUntracked := nUntracked + 1;
    }

    /** MemPoolT::Free; the item is the next one to be handed out. */
    method Free(p: Ptr)
      requires Valid() && (p == NULL || p in used)
      modifies this
      ensures Valid() && used == old(used) - {p} && blocks == old(blocks)
      ensures nAllocs == old(nAllocs) && maxAllocs == old(maxAllocs) && nUntracked == old(nUntracked)
      ensures free == if p == NULL then old(free) else [p] + old(free)
      ensures forall q | q in used && q in old(next) :: q in next && next[q] == old(next)[q]
    {
      hide Chain, Partition, Tight;
      UsedIsItem(blocks, perBlock, used, free);
      if p == NULL {
        return;
      }
      PartitionFree(blocks, perBlock, used, free, p);
      ChainPush(next, root, free, p);
      currentAllocs := currentAllocs - 1;
      next := next[p := root];
      root := p;
      used, free := used - {p}, [p] + free;
    }

    /** The owner of an item writes to it: the pool's own state does not depend on it. */
    method WriteItem(p: Ptr, data: Ptr)
      requires Valid() && p in used
      modifies this`next
      ensures Valid() && next == old(next)[p := data]
    {
      hide Partition, Tight;
      UsedIsItem(blocks, perBlock, used, free);
      ChainFrame(next, root, free, p, data);
      next := next[p := data];
    }

    /** MemPoolT::Clear. */
    method Clear()
      requires Valid()
      modifies this
      ensures Valid() && used == {} && free == [] && blocks == 0 && maxAllocs == 0 && nAllocs == 0 && nUntracked == 0
    {
      while blocks > 0 {
        blocks := blocks - 1;
      }
      root, next := NULL, map[];
      currentAllocs, nAllocs, maxAllocs, nUntracked := 0, 0, 0, 0;
      used, free := {}, [];
    }
  }
}
