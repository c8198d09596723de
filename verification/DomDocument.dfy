/** The node operations of tinyxml2's XMLDocument and XMLNode, on explicit node memory. */
module DomDocument {
  import opened DomLinks

  datatype Pool = ElementPool | TextPool | CommentPool

  const NO_NODES: map<Pool, int> := map[ElementPool := 0, TextPool := 0, CommentPool := 0]

  ghost function Elems(s: seq<Ptr>): set<Ptr> {
    set x | x in s
  }

  ghost function InPool(pools: map<Ptr, Pool>, s: set<Ptr>, pool: Pool): set<Ptr> {
    set x | x in s && x in pools && pools[x] == pool
  }

  /** Outside the tree means: in `_unlinked`, except for the root and for nodes on their way in or out. */
  ghost predicate Tracking(parent: Field, live: set<Ptr>, root: Ptr, unlinked: seq<Ptr>, loose: set<Ptr>) {
    && parent.Keys == live && Distinct(unlinked)
    && (forall n | n in unlinked :: n in live)
    && (forall n | n in live :: n in unlinked <==> parent[n] == NULL && n != root && n !in loose)
  }

  /** The counters of one pool: its nodes in `_unlinked`, and all its nodes. */
  ghost predicate CountOk(pools: map<Ptr, Pool>, nodes: set<Ptr>, unlinked: set<Ptr>, untracked: map<Pool, int>,
                          allocs: map<Pool, int>, pool: Pool)
  {
    && pool in untracked && untracked[pool] == |InPool(pools, unlinked, pool)|
    && pool in allocs && allocs[pool] == |InPool(pools, nodes, pool)|
  }

  ghost predicate Counts(pools: map<Ptr, Pool>, nodes: set<Ptr>, unlinked: set<Ptr>, untracked: map<Pool, int>,
                         allocs: map<Pool, int>)
  {
    && unlinked <= nodes <= pools.Keys
    && forall pool: Pool :: CountOk(pools, nodes, unlinked, untracked, allocs, pool)
  }

  lemma {:induction false} InPoolAdd(pools: map<Ptr, Pool>, s: set<Ptr>, x: Ptr, pool: Pool)
    requires x in s && x in pools
    ensures |InPool(pools, s, pool)| == |InPool(pools, s - {x}, pool)| + if pools[x] == pool then 1 else 0
  {
    if pools[x] == pool {
      assert InPool(pools, s, pool) == InPool(pools, s - {x}, pool) + {x};
    } else {
      assert InPool(pools, s, pool) == InPool(pools, s - {x}, pool);
    }
  }

  /** Allocating a node and listing it counts it twice. */
  lemma {:induction false} CountsCreate(pools: map<Ptr, Pool>, nodes: set<Ptr>, unlinked: set<Ptr>,
                                        untracked: map<Pool, int>, allocs: map<Pool, int>, n: Ptr, pool: Pool)
    requires Counts(pools, nodes, unlinked, untracked, allocs) && n !in nodes
    ensures pool in untracked && pool in allocs
    ensures Counts(pools[n := pool], nodes + {n}, unlinked + {n},
                   untracked[pool := untracked[pool] + 1], allocs[pool := allocs[pool] + 1])
  {
    assert CountOk(pools, nodes, unlinked, untracked, allocs, pool);
    var pools', untracked', allocs' := pools[n := pool], untracked[pool := untracked[pool] + 1],
                                       allocs[pool := allocs[pool] + 1];
    forall q: Pool ensures CountOk(pools', nodes + {n}, unlinked + {n}, untracked', allocs', q) {
      assert CountOk(pools, nodes, unlinked, untracked, allocs, q);
      InPoolAdd(pools', nodes + {n}, n, q);
      InPoolAdd(pools', unlinked + {n}, n, q);
      assert nodes + {n} - {n} == nodes && unlinked + {n} - {n} == unlinked;
      assert InPool(pools', nodes, q) == InPool(pools, nodes, q);
      assert InPool(pools', unlinked, q) == InPool(pools, unlinked, q);
    }
  }

  /** Marking a node as in use and tracked uncounts it once. */
  lemma {:induction false} CountsTracked(pools: map<Ptr, Pool>, nodes: set<Ptr>, unlinked: set<Ptr>,
                                         untracked: map<Pool, int>, allocs: map<Pool, int>, n: Ptr)
    requires Counts(pools, nodes, unlinked, untracked, allocs) && n in unlinked
    ensures pools[n] in untracked
    ensures Counts(pools, nodes, unlinked - {n}, untracked[pools[n] := untracked[pools[n]] - 1], allocs)
  {
    var pool := pools[n];
    assert CountOk(pools, nodes, unlinked, untracked, allocs, pool);
    var untracked' := untracked[pool := untracked[pool] - 1];
    forall q: Pool ensures CountOk(pools, nodes, unlinked - {n}, untracked', allocs, q) {
      assert CountOk(pools, nodes, unlinked, untracked, allocs, q);
      InPoolAdd(pools, unlinked, n, q);
    }
  }

  /** Freeing a node that is not listed uncounts it. */
  lemma {:induction false} CountsFreed(pools: map<Ptr, Pool>, nodes: set<Ptr>, unlinked: set<Ptr>,
                                       untracked: map<Pool, int>, allocs: map<Pool, int>, n: Ptr)
    requires Counts(pools, nodes, unlinked, untracked, allocs) && n in nodes && n !in unlinked
    ensures pools[n] in allocs
    ensures Counts(pools, nodes - {n}, unlinked, untracked, allocs[pools[n] := allocs[pools[n]] - 1])
  {
    var pool := pools[n];
    assert CountOk(pools, nodes, unlinked, untracked, allocs, pool);
    var allocs' := allocs[pool := allocs[pool] - 1];
    forall q: Pool ensures CountOk(pools, nodes - {n}, unlinked, untracked, allocs', q) {
      assert CountOk(pools, nodes, unlinked, untracked, allocs, q);
      InPoolAdd(pools, nodes, n, q);
    }
  }

  /** What the document keeps in memory: the pointer fields of all nodes, their pools, `_unlinked`, the counters. */
  datatype Memory = Memory(links: Links, pools: map<Ptr, Pool>, unlinked: seq<Ptr>,
                           untracked: map<Pool, int>, allocs: map<Pool, int>)

  /**
   What the memory stands for: the live nodes, the children and the ancestors of each, and every
   allocation and deallocation so far.
   */
  datatype View = View(live: set<Ptr>, kids: Lists, path: Paths, obtained: multiset<Ptr>, freed: multiset<Ptr>)

  ghost predicate Shape(root: Ptr, mem: Memory, view: View) {
    && root in view.live && root in mem.links.parent && mem.links.parent[root] == NULL
    && Represents(mem.links, view.live, view.kids) && Acyclic(mem.links.parent, view.live, view.path)
  }

  /** The document state while the nodes in loose are neither in the tree nor in `_unlinked`. */
  ghost predicate Good(root: Ptr, mem: Memory, view: View, loose: set<Ptr>) {
    && Shape(root, mem, view)
    && Tracking(mem.links.parent, view.live, root, mem.unlinked, loose)
    && Counts(mem.pools, view.live - {root}, Elems(mem.unlinked), mem.untracked, mem.allocs)
    && view.obtained == view.freed + multiset(view.live - {root})
  }

  // ---- Creating ------------------------------------------------------------------------------

  function Created(mem: Memory, pool: Pool, n: Ptr): Memory
    requires pool in mem.untracked && pool in mem.allocs
  {
    Memory(Extended(mem.links, n), mem.pools[n := pool], mem.unlinked + [n],
           mem.untracked[pool := mem.untracked[pool] + 1], mem.allocs[pool := mem.allocs[pool] + 1])
  }

  ghost function CreatedView(view: View, n: Ptr): View {
    View(view.live + {n}, view.kids[n := []], view.path[n := []], view.obtained + multiset{n}, view.freed)
  }

  lemma {:induction false} GoodCreate(root: Ptr, mem: Memory, view: View, pool: Pool, n: Ptr)
    requires Good(root, mem, view, {}) && n !in view.live && n != NULL
    ensures pool in mem.untracked && pool in mem.allocs
    ensures Good(root, Created(mem, pool, n), CreatedView(view, n), {})
  {
    hide Represents, Acyclic, Counts, Tracking, Extended;
    var live := view.live;
    ExtendedParent(mem.links, n);
    CountsCreate(mem.pools, live - {root}, Elems(mem.unlinked), mem.untracked, mem.allocs, n, pool);
    ExtendRepresents(mem.links, live, view.kids, n);
    ExtendAcyclic(mem.links.parent, live, view.path, n);
    TrackingCreate(mem.links.parent, live, root, mem.unlinked, n);
    assert Elems(mem.unlinked + [n]) == Elems(mem.unlinked) + {n};
    assert live + {n} - {root} == (live - {root}) + {n};
    assert multiset(live + {n} - {root}) == multiset(live - {root}) + multiset{n};
  }

  lemma {:induction false} TrackingCreate(parent: Field, live: set<Ptr>, root: Ptr, unlinked: seq<Ptr>, n: Ptr)
    requires Tracking(parent, live, root, unlinked, {}) && n !in live && root in live
    ensures Tracking(parent[n := NULL], live + {n}, root, unlinked + [n], {})
  {
  }

  // ---- Leaving a list and entering one -----------------------------------------------------------

  ghost function CutView(view: View, parent: Field, c: Ptr): View
    requires c in parent && c in view.path
  {
    view.(kids := Cut(view.kids, parent, c), path := Rooted(view.path, c))
  }

  /** XMLNode::Unlink. */
  lemma {:induction false} GoodCut(root: Ptr, mem: Memory, view: View, loose: set<Ptr>, c: Ptr)
    requires Good(root, mem, view, loose) && c in view.live && mem.links.parent[c] != NULL
    ensures c !in mem.unlinked && c != root && mem.links.parent[c] in view.live
    ensures Good(root, mem.(links := Unlinked(mem.links, view.live, mem.links.parent[c], c)),
                 CutView(view, mem.links.parent, c), loose + {c})
  {
    hide Represents, Acyclic, Counts, Unlinked;
    var p := mem.links.parent[c];
    CoversFacts(mem.links, view.live, view.kids);
    ChildOfParent(mem.links, view.live, view.kids, view.path, c);
    var k := IndexOf(view.kids[p], c);
    UnlinkRepresents(mem.links, view.live, view.kids, p, k, c);
    RootedAcyclic(mem.links.parent, view.live, view.path, c);
    UnlinkedParent(mem.links, view.live, p, c);
    TrackingCut(mem.links.parent, view.live, root, mem.unlinked, loose, c);
    hide Tracking;
  }

  lemma {:induction false} UnlinkedParent(m: Links, live: set<Ptr>, p: Ptr, c: Ptr)
    requires Covers(m, live) && p in live && c in live
    ensures Unlinked(m, live, p, c).parent == m.parent[c := NULL]
  {
  }

  lemma {:induction false} TrackingCut(parent: Field, live: set<Ptr>, root: Ptr, unlinked: seq<Ptr>, loose: set<Ptr>,
                                       c: Ptr)
    requires Tracking(parent, live, root, unlinked, loose) && c in live && parent[c] != NULL
    ensures c !in unlinked && Tracking(parent[c := NULL], live, root, unlinked, loose + {c})
  {
  }

  /** DynArray::SwapRemove. */
  function SwapRemove(s: seq<Ptr>, i: nat): seq<Ptr>
    requires i < |s|
  {
    s[i := s[|s| - 1]][..|s| - 1]
  }

  lemma {:induction false} SwapRemoved(s: seq<Ptr>, i: nat)
    requires i < |s| && Distinct(s)
    ensures var t := SwapRemove(s, i);
            Distinct(t) && forall x :: x in t <==> x in s && x != s[i]
  {
    var t := SwapRemove(s, i);
    forall x | x in s && x != s[i] ensures x in t {
      var j :| 0 <= j < |s| && s[j] == x;
      assert t[if j == |s| - 1 then i else j] == x;
    }
  }

  /** MarkInUse and SetTracked. */
  function Taken(mem: Memory, i: nat): Memory
    requires i < |mem.unlinked| && mem.unlinked[i] in mem.pools && mem.pools[mem.unlinked[i]] in mem.untracked
  {
    var pool := mem.pools[mem.unlinked[i]];
    mem.(unlinked := SwapRemove(mem.unlinked, i), untracked := mem.untracked[pool := mem.untracked[pool] - 1])
  }

  lemma {:induction false} GoodTake(root: Ptr, mem: Memory, view: View, loose: set<Ptr>, i: nat)
    requires Good(root, mem, view, loose) && i < |mem.unlinked|
    ensures mem.unlinked[i] in view.live && mem.unlinked[i] != root && mem.links.parent[mem.unlinked[i]] == NULL
    ensures mem.unlinked[i] in mem.pools && mem.pools[mem.unlinked[i]] in mem.untracked
    ensures Good(root, Taken(mem, i), view, loose + {mem.unlinked[i]})
  {
    hide Represents, Acyclic, Counts, SwapRemove;
    var n := mem.unlinked[i];
    assert n in Elems(mem.unlinked);
    TakenPool(mem.pools, view.live - {root}, Elems(mem.unlinked), mem.untracked, mem.allocs, n);
    CountsTracked(mem.pools, view.live - {root}, Elems(mem.unlinked), mem.untracked, mem.allocs, n);
    SwapRemoved(mem.unlinked, i);
    assert Elems(SwapRemove(mem.unlinked, i)) == Elems(mem.unlinked) - {n};
  }

  lemma {:induction false} TakenPool(pools: map<Ptr, Pool>, nodes: set<Ptr>, unlinked: set<Ptr>,
                                     untracked: map<Pool, int>, allocs: map<Pool, int>, n: Ptr)
    requires Counts(pools, nodes, unlinked, untracked, allocs) && n in nodes
    ensures n in pools && pools[n] in untracked && pools[n] in allocs
  {
    assert CountOk(pools, nodes, unlinked, untracked, allocs, pools[n]);
  }

  ghost function PasteView(view: View, p: Ptr, k: nat, c: Ptr): View
    requires p in view.kids && k <= |view.kids[p]| && p in view.path
  {
    view.(kids := Paste(view.kids, p, k, c), path := Hung(view.path, p, c))
  }

  /** The assignments of an insert operation. */
  lemma {:induction false} GoodPaste(root: Ptr, mem: Memory, view: View, loose: set<Ptr>, p: Ptr, k: nat, c: Ptr)
    requires Good(root, mem, view, loose) && c in loose && c in view.live && c != root && mem.links.parent[c] == NULL
    requires p in view.live && p in view.kids && k <= |view.kids[p]| && p in view.path && !Under(view.path, c, p)
    ensures var l, r := Nth(view.kids[p], k - 1), Nth(view.kids[p], k);
            Good(root, mem.(links := Attached(mem.links, view.live, p, c, l, r)), PasteView(view, p, k, c), loose - {c})
  {
    hide Represents, Acyclic, Counts, Attached, Nth;
    var l, r := Nth(view.kids[p], k - 1), Nth(view.kids[p], k);
    CoversFacts(mem.links, view.live, view.kids);
    AttachRepresents(mem.links, view.live, view.kids, p, k, c);
    HungAcyclic(mem.links.parent, view.live, view.path, p, c);
    AttachedParent(mem.links, view.live, p, c, l, r);
    TrackingPaste(mem.links.parent, view.live, root, mem.unlinked, loose, p, c);
    hide Tracking;
  }

  lemma {:induction false} CoversFacts(m: Links, live: set<Ptr>, kids: Lists)
    requires Represents(m, live, kids)
    ensures Covers(m, live) && kids.Keys == live
  {
  }

  lemma {:induction false} AttachedParent(m: Links, live: set<Ptr>, p: Ptr, c: Ptr, l: Ptr, r: Ptr)
    requires Covers(m, live) && p in live && c in live
    ensures Attached(m, live, p, c, l, r).parent == m.parent[c := p]
  {
  }

  lemma {:induction false} TrackingPaste(parent: Field, live: set<Ptr>, root: Ptr, unlinked: seq<Ptr>, loose: set<Ptr>,
                                         p: Ptr, c: Ptr)
    requires Tracking(parent, live, root, unlinked, loose) && c in live && c in loose && p in live && NULL !in live
    ensures Tracking(parent[c := p], live, root, unlinked, loose - {c})
  {
  }

  // ---- Freeing --------------------------------------------------------------------------------

  function FreedMemory(mem: Memory, c: Ptr): Memory
    requires c in mem.pools && mem.pools[c] in mem.allocs
  {
    mem.(links := Restricted(mem.links, c), allocs := mem.allocs[mem.pools[c] := mem.allocs[mem.pools[c]] - 1])
  }

  ghost function FreedView(view: View, c: Ptr): View {
    View(view.live - {c}, view.kids - {c}, view.path - {c}, view.obtained, view.freed + multiset{c})
  }

  lemma {:induction false} LooseNotUnlinked(
      parent: Field, live: set<Ptr>, root: Ptr, unlinked: seq<Ptr>, loose: set<Ptr>, c: Ptr)
    requires Tracking(parent, live, root, unlinked, loose) && c in live && c in loose
    ensures c !in Elems(unlinked)
  {
  }

  lemma {:induction false} LedgerFreed(obtained: multiset<Ptr>, freed: multiset<Ptr>, live: set<Ptr>, root: Ptr, c: Ptr)
    requires obtained == freed + multiset(live - {root}) && c in live && c != root
    ensures live - {c} - {root} == (live - {root}) - {c}
    ensures obtained == freed + multiset{c} + multiset(live - {c} - {root})
  {
    var rest := live - {c} - {root};
    assert live - {root} == rest + {c};
    assert multiset(rest + {c}) == multiset(rest) + multiset{c};
  }

  /** MemPool::Free of a node without parent and without children. */
  lemma {:induction false} GoodFree(root: Ptr, mem: Memory, view: View, loose: set<Ptr>, c: Ptr)
    requires Good(root, mem, view, loose) && c in loose && c in view.live && c != root
    requires mem.links.parent[c] == NULL && c in view.kids && view.kids[c] == []
    ensures c in mem.pools && mem.pools[c] in mem.allocs
    ensures Good(root, FreedMemory(mem, c), FreedView(view, c), loose - {c})
  {
    hide Represents, Acyclic, Counts, Restricted, Tracking, Elems;
    var live := view.live;
    LedgerFreed(view.obtained, view.freed, live, root, c);
    LooseNotUnlinked(mem.links.parent, live, root, mem.unlinked, loose, c);
    TakenPool(mem.pools, live - {root}, Elems(mem.unlinked), mem.untracked, mem.allocs, c);
    CountsFreed(mem.pools, live - {root}, Elems(mem.unlinked), mem.untracked, mem.allocs, c);
    FreeRepresents(mem.links, live, view.kids, c);
    FreeAcyclic(mem.links, live, view.kids, view.path, c);
    RestrictedParent(mem.links, c);
    TrackingFree(mem.links.parent, live, root, mem.unlinked, loose, c);
  }

  lemma {:induction false} RestrictedParent(m: Links, c: Ptr)
    ensures Restricted(m, c).parent == m.parent - {c}
  {
  }

  lemma {:induction false} TrackingFree(parent: Field, live: set<Ptr>, root: Ptr, unlinked: seq<Ptr>, loose: set<Ptr>,
                                        c: Ptr)
    requires Tracking(parent, live, root, unlinked, loose) && c in live && c in loose
    ensures Tracking(parent - {c}, live - {c}, root, unlinked, loose - {c})
  {
  }

  // ---- Deleting below a node, and finding neighbours ---------------------------------------------

  /** c and all that is below it. */
  ghost function Below(view: View, c: Ptr): set<Ptr> {
    set n | n in view.live && n in view.path && Under(view.path, c, n)
  }

  /** The document without the nodes in s, which have been freed once each. */
  ghost function Removed(view: View, s: set<Ptr>): View {
    View(view.live - s, view.kids - s, view.path - s, view.obtained, view.freed + multiset(s))
  }

  /** Between v0 and v, only nodes below c have gone, and of the lists only that of c has changed. */
  ghost predicate Shrunk(v: View, v0: View, c: Ptr) {
    && v.kids.Keys == v.path.Keys == v.live <= v0.live && v0.kids.Keys == v0.path.Keys == v0.live && c in v.live
    && v.obtained == v0.obtained && v.freed == v0.freed + multiset(v0.live - v.live)
    && (forall n | n in v0.live - v.live :: c in v0.path[n])
    && (forall n | n in v.live :: v.path[n] == v0.path[n] && (n != c ==> v.kids[n] == v0.kids[n]))
  }

  lemma {:induction false} ShrunkSelf(v: View, c: Ptr)
    requires v.kids.Keys == v.path.Keys == v.live && c in v.live
    ensures Shrunk(v, v, c)
  {
    assert v.live - v.live == {};
  }

  lemma {:induction false} ShrunkLive(v: View, v0: View, c: Ptr)
    requires Shrunk(v, v0, c)
    ensures c in v.live && v.live <= v0.live && v.kids.Keys == v.path.Keys == v.live
    ensures c in v0.path && v.path[c] == v0.path[c]
  {
  }

  /** When c loses a child and all below it, only what is below c has gone. */
  lemma {:induction false} CutShrinks(root: Ptr, mem: Memory, v: View, v0: View, loose: set<Ptr>, c: Ptr, child: Ptr)
    requires Good(root, mem, v, loose) && Shrunk(v, v0, c) && c in v.live && child in v.live
    requires child in mem.links.parent && mem.links.parent[child] == c
    ensures child in v.path
    ensures var cut := CutView(v, mem.links.parent, child); var gone := Below(cut, child);
            && |gone| < |Below(v0, c)| && Shrunk(Removed(cut, gone), v0, c) && |Removed(cut, gone).live| < |v.live|
            && child !in Removed(cut, gone).live
  {
    hide Good, Represents, Acyclic, Below, Shrunk, CutView;
    GoodLinks(root, mem, v, loose, child);
    var cut := CutView(v, mem.links.parent, child);
    var gone := Below(cut, child);
    CutLoses(mem.links.parent, v, v0, c, child);
    ShrinkFurther(v, v0, cut, gone, c);
    Smaller(gone, Below(v0, c), c);
    assert |v.live| == |v.live - gone| + |gone|;
  }

  lemma {:induction false} CutLoses(parent: Field, v: View, v0: View, c: Ptr, child: Ptr)
    requires Acyclic(parent, v.live, v.path) && Shrunk(v, v0, c) && child in v.live && c in v.live
    requires child in v.path && child in parent && parent[child] == c && c != NULL
    ensures var cut := CutView(v, parent, child); var gone := Below(cut, child);
            && cut == v.(kids := cut.kids, path := cut.path) && cut.kids.Keys == cut.path.Keys == v.live
            && gone <= v.live && gone <= Below(v0, c) && c in Below(v0, c) && c !in gone && child in gone
            && (forall n | n in gone :: n in v0.path && c in v0.path[n])
            && (forall n | n in v.live - gone :: n in cut.path && n in v.path && cut.path[n] == v.path[n])
            && (forall n | n in v.live && n != c :: n in cut.kids && n in v.kids && cut.kids[n] == v.kids[n])
  {
    hide Acyclic, Rooted, Minus;
    var cut := CutView(v, parent, child);
    RootedKeys(v.path, child);
    forall n | n in v.live
      ensures n in Below(cut, child) ==> n in Below(v0, c) && n != c && c in v0.path[n]
      ensures n !in Below(cut, child) ==> cut.path[n] == v.path[n]
    {
      RootedUnder(parent, v.live, v.path, child, n);
      if n in Below(cut, child) {
        UnderChild(parent, v.live, v.path, child, n);
      }
    }
  }

  lemma {:induction false} RootedKeys(path: Paths, c: Ptr)
    requires c in path
    ensures Rooted(path, c).Keys == path.Keys
  {
  }

  lemma {:induction false} ShrinkFurther(v: View, v0: View, cut: View, gone: set<Ptr>, c: Ptr)
    requires Shrunk(v, v0, c) && cut == v.(kids := cut.kids, path := cut.path)
             && cut.kids.Keys == cut.path.Keys == v.live
    requires gone <= v.live && c !in gone
    requires forall n | n in gone :: n in v0.path && c in v0.path[n]
    requires forall n | n in v.live - gone :: cut.path[n] == v.path[n]
    requires forall n | n in v.live && n != c :: cut.kids[n] == v.kids[n]
    ensures Shrunk(Removed(cut, gone), v0, c)
  {
    var r := Removed(cut, gone);
    FreedMore(v0.live, v.live, gone);
    forall n | n in v0.live - r.live ensures c in v0.path[n] {
      assert n in gone || n in v0.live - v.live;
    }
    forall n | n in r.live ensures r.path[n] == v0.path[n] && (n != c ==> r.kids[n] == v0.kids[n]) {
      assert n in v.live - gone;
    }
    assert r.freed == v0.freed + multiset(v0.live - r.live);
  }

  lemma {:induction false} FreedMore(live0: set<Ptr>, live: set<Ptr>, gone: set<Ptr>)
    requires gone <= live <= live0
    ensures multiset(live0 - (live - gone)) == multiset(live0 - live) + multiset(gone)
  {
    assert live0 - (live - gone) == (live0 - live) + gone;
  }

  lemma {:induction false} Smaller(s: set<Ptr>, t: set<Ptr>, x: Ptr)
    requires s <= t && x in t && x !in s
    ensures |s| < |t|
  {
    assert t == s + (t - s) && x in t - s;
  }

  /** When c has no children left, everything below it has gone. */
  lemma {:induction false} NothingLeft(root: Ptr, mem: Memory, v: View, v0: View, loose: set<Ptr>, c: Ptr)
    requires Good(root, mem, v, loose) && Shrunk(v, v0, c) && c in v.kids && v.kids[c] == []
    ensures v0.live - v.live == Below(v0, c) - {c}
    ensures FreedView(v, c) == Removed(v0, Below(v0, c))
  {
    hide Good, Represents, Acyclic;
    GoodLinks(root, mem, v, loose, c);
    forall n | n in v.live ensures c !in v0.path[n] {
      if c in v0.path[n] {
        AncestorHasChildren(mem.links, v.live, v.kids, v.path, c, n);
        assert false;
      }
    }
    assert v0.live - v.live == Below(v0, c) - {c};
    RemovedAll(v, v0, Below(v0, c), c);
  }

  lemma {:induction false} WithoutBelow(live: set<Ptr>, live0: set<Ptr>, below: set<Ptr>, c: Ptr)
    requires c in below && live <= live0 && below <= live0 && live0 - live == below - {c}
    ensures live - {c} == live0 - below
    ensures multiset(below) == multiset(live0 - live) + multiset{c}
  {
    forall n ensures n in live - {c} <==> n in live0 - below {
      assert n in live0 - live <==> n in below - {c};
    }
    assert below == (below - {c}) + {c};
  }

  lemma {:induction false} RemovedAll(v: View, v0: View, below: set<Ptr>, c: Ptr)
    requires Shrunk(v, v0, c) && c in below && below <= v0.live && v0.live - v.live == below - {c}
    ensures FreedView(v, c) == Removed(v0, below)
  {
    WithoutBelow(v.live, v0.live, below, c);
    var a, b := FreedView(v, c), Removed(v0, below);
    assert a.kids == b.kids;
    assert a.path == b.path;
    assert a.freed == b.freed;
  }

  /** The same nodes are below c before and after it leaves its list. */
  lemma {:induction false} BelowCut(view: View, parent: Field, c: Ptr)
    requires Acyclic(parent, view.live, view.path) && c in view.live && c in parent && c in view.path
    ensures Below(CutView(view, parent, c), c) == Below(view, c)
  {
    hide Acyclic, Rooted, Cut;
    RootedKeys(view.path, c);
    forall n | n in view.live ensures n in Below(CutView(view, parent, c), c) <==> n in Below(view, c) {
      AcyclicKeys(parent, view.live, view.path);
      RootedUnder(parent, view.live, view.path, c, n);
    }
  }

  lemma {:induction false} AcyclicKeys(parent: Field, live: set<Ptr>, path: Paths)
    requires Acyclic(parent, live, path)
    ensures path.Keys == live
  {
  }

  lemma {:induction false} RemovedSmaller(view: View, c: Ptr)
    requires c in view.live && c in view.path
    ensures |Removed(view, Below(view, c)).live| < |view.live|
  {
    assert c in Below(view, c);
    Smaller(view.live - Below(view, c), view.live, c);
  }

  lemma {:induction false} RootFacts(root: Ptr, mem: Memory, view: View, loose: set<Ptr>)
    requires Good(root, mem, view, loose)
    ensures root in view.live && root in mem.links.parent && mem.links.parent[root] == NULL && root in view.path
            && view.path[root] == []
  {
    hide Represents, Acyclic, Counts, Tracking;
    GoodLinks(root, mem, view, loose, root);
  }

  lemma {:induction false} ShrunkObtained(v: View, v0: View, c: Ptr)
    requires Shrunk(v, v0, c)
    ensures v.obtained == v0.obtained
  {
  }

  lemma {:induction false} ListedFacts(root: Ptr, mem: Memory, view: View, n: Ptr)
    requires Good(root, mem, view, {}) && n in mem.unlinked
    ensures n in view.live && n != root && n in mem.links.parent && mem.links.parent[n] == NULL && n in view.path
    ensures CutView(view, mem.links.parent, n) == view && root in view.path && view.path[root] == []
  {
    hide Represents, Acyclic, Counts, Cut, Rooted;
    GoodLinks(root, mem, view, {}, n);
    GoodLinks(root, mem, view, {}, root);
    CutNothing(view, mem.links.parent, n);
  }

  lemma {:induction false} RootStays(view: View, n: Ptr, root: Ptr)
    requires root in view.kids && root in view.path && view.path[root] == [] && n != root
    ensures root in Removed(view, Below(view, n)).kids && Removed(view, Below(view, n)).kids[root] == view.kids[root]
    ensures Removed(view, Below(view, n)).obtained == view.obtained
  {
  }

  /** If nothing is listed and the document has no children, there are no nodes. */
  lemma {:induction false} OnlyRootLeft(root: Ptr, mem: Memory, view: View)
    requires Good(root, mem, view, {}) && mem.unlinked == [] && root in view.kids && view.kids[root] == []
    ensures view == View({root}, map[root := []], map[root := []], view.obtained, view.obtained)
    ensures mem.allocs == NO_NODES && mem.untracked == NO_NODES
  {
    hide Represents, Acyclic, Counts;
    RootFacts(root, mem, view, {});
    forall n | n in view.live ensures n == root {
      TopIsRoot(root, mem, view, n);
      if n != root {
        GoodLinks(root, mem, view, {}, n);
        AncestorHasChildren(mem.links, view.live, view.kids, view.path, root, n);
        assert false;
      }
    }
    assert view.live == {root};
    GoodLinks(root, mem, view, {}, root);
    assert view.kids == map[root := []] && view.path == map[root := []];
    assert view.live - {root} == {} && Elems([]) == {};
    NothingCounted(mem.pools, mem.untracked, mem.allocs);
  }

  lemma {:induction false} TopIsRoot(root: Ptr, mem: Memory, view: View, n: Ptr)
    requires Good(root, mem, view, {}) && mem.unlinked == [] && n in view.live
    ensures n == root || (n in view.path && root in view.path[n])
  {
    hide Represents, Counts;
    GoodLinks(root, mem, view, {}, n);
    if n != root {
      assert PathOk(mem.links.parent, view.live, view.path, n);
      assert view.path[n] != [];
      assert PrefixOk(view.live, view.path, n, 0);
      GoodLinks(root, mem, view, {}, view.path[n][0]);
    }
  }

  lemma {:induction false} NothingCounted(pools: map<Ptr, Pool>, untracked: map<Pool, int>, allocs: map<Pool, int>)
    requires Counts(pools, {}, {}, untracked, allocs)
    ensures untracked == NO_NODES && allocs == NO_NODES
  {
    forall pool: Pool ensures pool in untracked && untracked[pool] == 0 && pool in allocs && allocs[pool] == 0 {
      assert CountOk(pools, {}, {}, untracked, allocs, pool);
      assert InPool(pools, {}, pool) == {};
    }
    forall pool: Pool ensures pool in NO_NODES && NO_NODES[pool] == 0 {
      assert pool == ElementPool || pool == TextPool || pool == CommentPool;
    }
  }

  /** A node that is gone need not be called loose. */
  lemma {:induction false} LooseGone(root: Ptr, mem: Memory, view: View, loose: set<Ptr>, c: Ptr)
    requires Good(root, mem, view, loose - {c}) && c !in view.live
    ensures Good(root, mem, view, loose)
  {
    hide Represents, Acyclic, Counts;
  }

  lemma {:induction false} CoversGood(root: Ptr, mem: Memory, view: View, loose: set<Ptr>)
    requires Good(root, mem, view, loose)
    ensures Covers(mem.links, view.live)
  {
    hide Acyclic, Counts, Tracking;
    CoversFacts(mem.links, view.live, view.kids);
  }

  lemma {:induction false} CutKeepsAfter(view: View, parent: Field, child: Ptr, p: Ptr, after: Ptr)
    requires child in parent && child in view.path && p in view.kids && after in view.kids[p] && after != child
    ensures var cut := CutView(view, parent, child); p in cut.kids && after in cut.kids[p]
  {
    CutKeepsOther(view.kids, parent, child, p, after);
  }

  datatype Outcome = Done | Rejected | NullDereference

  /** The pointers of the child n of p, by its place in the list. */
  lemma {:induction false} NextInList(m: Links, live: set<Ptr>, kids: Lists, p: Ptr, n: Ptr)
    requires Represents(m, live, kids) && p in live && p in kids && n in kids[p]
    ensures Covers(m, live) && n in live
    ensures var s := kids[p]; var i := IndexOf(s, n); var next := m.next[n];
            && next == Nth(s, i + 1) && Nth(s, i) == n && m.parent[n] == p
            && (next != NULL ==> next in live && m.parent[next] == p && next != n)
            && (next == NULL <==> i + 1 == |s|)
  {
    hide Represents, ListOk, IndexOf;
    var s := kids[p];
    var i := IndexOf(s, n);
    RepresentsFacts(m, live, kids, p);
    ListFacts(m, live, p, s);
    ChildFacts(m, live, p, s, i);
    if i + 1 < |s| {
      ChildFacts(m, live, p, s, i + 1);
    }
  }

  /** The neighbours of a child. */
  lemma {:induction false} NextOf(root: Ptr, mem: Memory, view: View, loose: set<Ptr>, p: Ptr, n: Ptr)
    requires Good(root, mem, view, loose) && p in view.live && p in view.kids && n in view.kids[p]
    ensures Covers(mem.links, view.live) && n in view.live && p in view.path
    ensures var s := view.kids[p]; var i := IndexOf(s, n); var next := mem.links.next[n];
            && next == Nth(s, i + 1) && Nth(s, i) == n
            && (next != NULL ==> next in view.live && mem.links.parent[next] == p && next != n)
            && (next == NULL <==> i + 1 == |s|)
            && mem.links.parent[n] == p
  {
    hide Good, Represents, Acyclic, IndexOf, Nth;
    GoodLinks(root, mem, view, loose, p);
    NextInList(mem.links, view.live, view.kids, p, n);
  }

  /** Next and previous are inverse to each other. */
  lemma {:induction false} NextPrev(root: Ptr, mem: Memory, view: View, loose: set<Ptr>, a: Ptr, c: Ptr)
    requires Good(root, mem, view, loose) && a in view.live && c in view.live
    ensures Covers(mem.links, view.live) && (mem.links.next[a] == c <==> mem.links.prev[c] == a)
  {
    hide Good, Represents, Acyclic, ListOk;
    var m, live, kids := mem.links, view.live, view.kids;
    GoodLinks(root, mem, view, loose, a);
    GoodLinks(root, mem, view, loose, c);
    if m.next[a] == c {
      var p := m.parent[a];
      RepresentsFacts(m, live, kids, a);
      ListNeighbours(m, live, kids, view.path, a);
    }
    if m.prev[c] == a {
      RepresentsFacts(m, live, kids, c);
      ListNeighbours(m, live, kids, view.path, c);
    }
  }

  /** In the list of its parent, the neighbours of a node point back to it. */
  lemma {:induction false} ListNeighbours(m: Links, live: set<Ptr>, kids: Lists, path: Paths, n: Ptr)
    requires Represents(m, live, kids) && Acyclic(m.parent, live, path) && n in live && m.parent[n] != NULL
    ensures Covers(m, live)
    ensures m.next[n] != NULL ==> m.next[n] in live && m.prev[m.next[n]] == n
    ensures m.prev[n] != NULL ==> m.prev[n] in live && m.next[m.prev[n]] == n
  {
    hide Represents, Acyclic, ListOk;
    CoversFacts(m, live, kids);
    ChildOfParent(m, live, kids, path, n);
    var p := m.parent[n];
    var s := kids[p];
    var i := IndexOf(s, n);
    RepresentsFacts(m, live, kids, p);
    ChildFacts(m, live, p, s, i);
    if i + 1 < |s| {
      ChildFacts(m, live, p, s, i + 1);
    }
    if i > 0 {
      ChildFacts(m, live, p, s, i - 1);
    }
  }

  /** The successor of `after` once child has left its list. */
  ghost function NextWithout(m: Links, live: set<Ptr>, child: Ptr, after: Ptr): Ptr
    requires Covers(m, live) && child in live && after in live
  {
    if m.parent[child] != NULL && m.next[after] == child then m.next[child] else m.next[after]
  }

  lemma {:induction false} NextAfterCut(root: Ptr, mem: Memory, view: View, child: Ptr, after: Ptr)
    requires Good(root, mem, view, {}) && child in view.live && after in view.live && after != child
    ensures Covers(mem.links, view.live)
    ensures mem.links.next[after] == child ==> mem.links.parent[child] != NULL
    ensures mem.links.parent[child] != NULL ==>
              && mem.links.parent[child] in view.live
              && Unlinked(mem.links, view.live, mem.links.parent[child], child).next.Keys == view.live
              && Unlinked(mem.links, view.live, mem.links.parent[child], child).next[after]
                 == NextWithout(mem.links, view.live, child, after)
  {
    hide Good, Represents, Acyclic, Unlinked;
    GoodLinks(root, mem, view, {}, child);
    GoodLinks(root, mem, view, {}, after);
    NextPrev(root, mem, view, {}, after, child);
    var p := mem.links.parent[child];
    if p != NULL {
      UnlinkedAt(mem.links, view.live, p, child, after);
    } else {
      RepresentsFacts(mem.links, view.live, view.kids, child);
    }
  }

  /** A last child stays the last child when another node leaves its list. */
  lemma {:induction false} LastStaysLast(root: Ptr, mem: Memory, view: View, child: Ptr, p: Ptr, after: Ptr)
    requires Good(root, mem, view, {}) && child in view.live && p in view.live && after in view.live && after != child
    requires p in view.kids && after in view.kids[p] && after in mem.links.next && mem.links.next[after] == NULL
    ensures child in mem.links.parent && child in view.path
    ensures var s := CutView(view, mem.links.parent, child).kids[p]; after in s && IndexOf(s, after) + 1 == |s|
  {
    hide Good, Represents, Acyclic, Unlinked, IndexOf;
    GoodLinks(root, mem, view, {}, child);
    NextAfterCut(root, mem, view, child, after);
    CutKeepsOther(view.kids, mem.links.parent, child, p, after);
    if mem.links.parent[child] == NULL {
      CutNothing(view, mem.links.parent, child);
      NextOf(root, mem, view, {}, p, after);
    } else {
      GoodCut(root, mem, view, {}, child);
      var mem' := mem.(links := Unlinked(mem.links, view.live, mem.links.parent[child], child));
      NextOf(root, mem', CutView(view, mem.links.parent, child), {} + {child}, p, after);
    }
  }

  lemma {:induction false} CutKeepsOther(kids: Lists, parent: Field, child: Ptr, p: Ptr, after: Ptr)
    requires child in parent && p in kids && after in kids[p] && after != child
    ensures p in Cut(kids, parent, child) && after in Cut(kids, parent, child)[p]
  {
    if parent[child] == p && child in kids[p] {
      InWithout(kids[p], IndexOf(kids[p], child), after);
    }
  }

  /** Both are nodes of the document, and the child is not the document itself. */
  ghost predicate CanTake(root: Ptr, view: View, p: Ptr, child: Ptr) {
    p in view.live && p in view.path && child in view.live && child != root
  }

  /** The lists are represented; the state is good, or there is a cycle. */
  ghost predicate PasteResult(root: Ptr, mem: Memory, view: View, cycle: bool) {
    && Represents(mem.links, view.live, view.kids)
    && (Good(root, mem, view, {}) <==> !cycle)
    && (cycle ==> Cyclic(mem.links.parent, view.live))
  }

  lemma {:induction false} PasteAny(root: Ptr, mem: Memory, view: View, p: Ptr, k: nat, c: Ptr)
    requires Good(root, mem, view, {c}) && c in view.live && c != root && c in mem.links.parent
             && mem.links.parent[c] == NULL
    requires p in view.live && p in view.kids && k <= |view.kids[p]| && p in view.path
    ensures Covers(mem.links, view.live)
    ensures var l, r := Nth(view.kids[p], k - 1), Nth(view.kids[p], k);
            var mem' := mem.(links := Attached(mem.links, view.live, p, c, l, r));
            PasteResult(root, mem', PasteView(view, p, k, c), Under(view.path, c, p))
  {
    hide Good, Represents, Acyclic, Attached, Nth, Cyclic;
    var l, r := Nth(view.kids[p], k - 1), Nth(view.kids[p], k);
    GoodLinks(root, mem, view, {c}, c);
    AttachRepresents(mem.links, view.live, view.kids, p, k, c);
    AttachedParent(mem.links, view.live, p, c, l, r);
    var mem' := mem.(links := Attached(mem.links, view.live, p, c, l, r));
    var view' := PasteView(view, p, k, c);
    if Under(view.path, c, p) {
      HungCyclic(mem.links.parent, view.live, view.path, p, c);
      CyclicNotGood(root, mem', view', {});
    } else {
      GoodPaste(root, mem, view, {c}, p, k, c);
      assert {c} - {c} == {};
    }
  }

  lemma {:induction false} CyclicNotGood(root: Ptr, mem: Memory, view: View, loose: set<Ptr>)
    requires Cyclic(mem.links.parent, view.live)
    ensures !Good(root, mem, view, loose)
  {
    hide Represents, Acyclic, Counts, Tracking;
  }

  /** Leaving its list does not change whether a node is an ancestor of p. */
  lemma {:induction false} CutKeeps(root: Ptr, mem: Memory, view: View, child: Ptr, p: Ptr)
    requires Good(root, mem, view, {}) && CanTake(root, view, p, child)
    ensures child in mem.links.parent && child in view.path
    ensures var cut := CutView(view, mem.links.parent, child);
            && cut.live == view.live && cut.kids.Keys == view.live && cut.path.Keys == view.live
            && (Under(cut.path, child, p) <==> Under(view.path, child, p))
  {
    hide Good;
    GoodLinks(root, mem, view, {}, child);
    hide Represents;
    RootedUnder(mem.links.parent, view.live, view.path, child, p);
  }

  /** The first and the last child pointer. */
  lemma {:induction false} Ends(root: Ptr, mem: Memory, view: View, loose: set<Ptr>, p: Ptr)
    requires Good(root, mem, view, loose) && p in view.live
    ensures Covers(mem.links, view.live) && p in view.kids && p in view.path
    ensures var s := view.kids[p]; var f, l := mem.links.first[p], mem.links.last[p];
            && f == Nth(s, 0) && l == Nth(s, |s| - 1) && (f == NULL <==> l == NULL) && (f == NULL <==> s == [])
            && (f != NULL ==> f in view.live && mem.links.parent[f] == p)
            && (l != NULL ==> l in view.live && mem.links.parent[l] == p)
            && Nth(s, |s|) == NULL && Nth(s, -1) == NULL
  {
    hide Good, ListOk;
    GoodLinks(root, mem, view, loose, p);
    var s := view.kids[p];
    RepresentsFacts(mem.links, view.live, view.kids, p);
    ListFacts(mem.links, view.live, p, s);
    if s != [] {
      ChildFacts(mem.links, view.live, p, s, 0);
      ChildFacts(mem.links, view.live, p, s, |s| - 1);
    }
  }

  /** What is known about one node. */
  lemma {:induction false} GoodLinks(root: Ptr, mem: Memory, view: View, loose: set<Ptr>, n: Ptr)
    requires Good(root, mem, view, loose) && n in view.live
    ensures Covers(mem.links, view.live) && view.kids.Keys == view.live && view.path.Keys == view.live
    ensures Represents(mem.links, view.live, view.kids) && Acyclic(mem.links.parent, view.live, view.path)
    ensures var c := mem.links; var p := c.parent[n];
            && (p == NULL <==> view.path[n] == [])
            && (p != NULL ==> p in view.live && p != n && n in view.kids[p])
            && (c.prev[n] != NULL ==> c.prev[n] in view.live && c.prev[n] != n)
            && (c.next[n] != NULL ==> c.next[n] in view.live && c.next[n] != n)
  {
    hide Counts, Tracking, ListOk;
    var links, p := mem.links, mem.links.parent[n];
    CoversFacts(links, view.live, view.kids);
    assert PathOk(links.parent, view.live, view.path, n);
    if p != NULL {
      ChildOfParent(links, view.live, view.kids, view.path, n);
      NeighboursBelong(links, view.live, view.kids, p, IndexOf(view.kids[p], n), n);
    } else {
      RepresentsFacts(links, view.live, view.kids, n);
    }
  }

  /** A node outside the tree is listed, unless it is loose. */
  lemma {:induction false} GoodListed(root: Ptr, mem: Memory, view: View, loose: set<Ptr>, n: Ptr)
    requires Good(root, mem, view, loose) && n in view.live && n != root && n in mem.links.parent
             && mem.links.parent[n] == NULL
    ensures n in mem.unlinked <==> n !in loose
    ensures Distinct(mem.unlinked) && (n in loose ==> loose + {n} == loose)
  {
    hide Represents, Acyclic, Counts;
  }

  /** A node without parent has no list to leave. */
  lemma {:induction false} CutNothing(view: View, parent: Field, c: Ptr)
    requires c in parent && parent[c] == NULL && c in view.path && view.path[c] == []
    ensures CutView(view, parent, c) == view
  {
    var path := Rooted(view.path, c);
    forall n | n in view.path ensures path[n] == view.path[n] {
      assert view.path[n][0..] == view.path[n];
    }
    assert path == view.path;
  }

  /** The assignments of XMLNode::Unlink, one by one. */
  method UnlinkPointers(links: Links, p: Ptr, child: Ptr, ghost live: set<Ptr>) returns (m: Links)
    requires Covers(links, live) && p in live && child in live
    requires links.prev[child] != NULL ==> links.prev[child] in live && links.prev[child] != child
    requires links.next[child] != NULL ==> links.next[child] in live && links.next[child] != child
    ensures m == Unlinked(links, live, p, child)
  {
    m := links;
    if child == m.first[p] {
      m := m.(first := m.first[p := m.next[m.first[p]]]);
    }
    if child == m.last[p] {
      m := m.(last := m.last[p := m.prev[m.last[p]]]);
    }
    if m.prev[child] != NULL {
      m := m.(next := m.next[m.prev[child] := m.next[child]]);
    }
    if m.next[child] != NULL {
      m := m.(prev := m.prev[m.next[child] := m.prev[child]]);
    }
    m := m.(next := m.next[child := NULL]);
    m := m.(prev := m.prev[child := NULL]);
    m := m.(parent := m.parent[child := NULL]);
  }

  /** The assignments of XMLNode::InsertEndChild after its preamble. */
  method AppendPointers(links: Links, p: Ptr, child: Ptr, ghost live: set<Ptr>) returns (m: Links)
    requires Covers(links, live) && p in live && child in live
    requires links.last[p] != NULL ==> links.last[p] in live && links.last[p] != child
    requires links.first[p] == NULL <==> links.last[p] == NULL
    ensures m == Attached(links, live, p, child, links.last[p], NULL)
  {
    m := links;
    if m.last[p] != NULL {
      m := m.(next := m.next[m.last[p] := child]);
      m := m.(prev := m.prev[child := m.last[p]]);
      m := m.(last := m.last[p := child]);
      m := m.(next := m.next[child := NULL]);
    } else {
      m := m.(first := m.first[p := child], last := m.last[p := child]);
      m := m.(prev := m.prev[child := NULL]);
      m := m.(next := m.next[child := NULL]);
    }
    m := m.(parent := m.parent[child := p]);
  }

  /** The assignments of XMLNode::InsertFirstChild after its preamble. */
  method PrependPointers(links: Links, p: Ptr, child: Ptr, ghost live: set<Ptr>) returns (m: Links)
    requires Covers(links, live) && p in live && child in live
    requires links.first[p] != NULL ==> links.first[p] in live && links.first[p] != child
    requires links.first[p] == NULL <==> links.last[p] == NULL
    ensures m == Attached(links, live, p, child, NULL, links.first[p])
  {
    m := links;
    if m.first[p] != NULL {
      m := m.(prev := m.prev[m.first[p] := child]);
      m := m.(next := m.next[child := m.first[p]]);
      m := m.(first := m.first[p := child]);
      m := m.(prev := m.prev[child := NULL]);
    } else {
      m := m.(first := m.first[p := child], last := m.last[p := child]);
      m := m.(prev := m.prev[child := NULL]);
      m := m.(next := m.next[child := NULL]);
    }
    m := m.(parent := m.parent[child := p]);
  }

  /** The assignments of XMLNode::InsertAfterChild after its preamble. */
  method InsertAfterPointers(links: Links, p: Ptr, after: Ptr, child: Ptr, ghost live: set<Ptr>) returns (m: Links)
    requires Covers(links, live) && p in live && child in live && after in live && after != child
    requires links.next[after] != NULL && links.next[after] in live && links.next[after] != child
    ensures m == Attached(links, live, p, child, after, links.next[after])
  {
    m := links;
    m := m.(prev := m.prev[child := after]);
    m := m.(next := m.next[child := m.next[after]]);
    m := m.(prev := m.prev[m.next[after] := child]);
    m := m.(next := m.next[after := child]);
    m := m.(parent := m.parent[child := p]);
    ghost var r := links.next[after];
    assert links.prev[child := after][r := child] == links.prev[r := child][child := after];
    assert links.next[child := r][after := child] == links.next[after := child][child := r];
  }

  lemma {:induction false} OnlyRoot(m: Links, root: Ptr)
    requires root != NULL
    requires m == Links(map[root := NULL], map[root := NULL], map[root := NULL], map[root := NULL], map[root := NULL])
    ensures Represents(m, {root}, map[root := []]) && Acyclic(m.parent, {root}, map[root := []])
  {
    var kids: Lists := map[root := []];
    assert ListOk(m, {root}, root, kids[root]);
    assert PathOk(m.parent, {root}, map[root := []], root);
  }

  lemma {:induction false} CountsNothing()
    ensures Counts(map[], {}, {}, NO_NODES, NO_NODES)
  {
    forall pool: Pool ensures CountOk(map[], {}, {}, NO_NODES, NO_NODES, pool) {
      assert pool == ElementPool || pool == TextPool || pool == CommentPool;
      assert InPool(map[], {}, pool) == {};
    }
  }

  lemma {:induction false} ExtendedParent(m: Links, n: Ptr)
    ensures Extended(m, n).parent == m.parent[n := NULL]
  {
  }

  // ---- The document ----------------------------------------------------------------------------

  class XMLDocument {
    /** The document is itself a node, the root; it does not come from a pool. */
    const root: Ptr
    var mem: Memory
    ghost var view: View

    ghost predicate Valid()
      reads this
    {
      Good(root, mem, view, {})
    }

    constructor (root: Ptr)
      requires root != NULL
      ensures Valid() && view == View({root}, map[root := []], map[root := []], multiset{}, multiset{})
      ensures this.root == root && mem.unlinked == []
    {
      this.root := root;
      var nil := map[root := NULL];
      mem := Memory(Links(nil, nil, nil, nil, nil),
                    map[], [], NO_NODES, NO_NODES);
      view := View({root}, map[root := []], map[root := []], multiset{}, multiset{});
      new;
      hide Represents, Acyclic, Counts;
      OnlyRoot(mem.links, root);
      CountsNothing();
      assert {root} - {root} == {} && Elems([]) == {};
    }

    /** XMLDocument::CreateUnlinkedNode; the address is one that the pool had free. */
    method CreateUnlinkedNode(pool: Pool, node: Ptr)
      requires Valid() && node !in view.live && node != NULL
      modifies this
      ensures Valid() && view == CreatedView(old(view), node)
      ensures mem.unlinked == old(mem.unlinked) + [node] && mem.pools == old(mem.pools)[node := pool]
    {
      hide Good;
      GoodCreate(root, mem, view, pool, node);
      mem := Created(mem, pool, node);
      view := CreatedView(view, node);
    }

    /** XMLNode::Unlink of a node from its parent. */
    method Unlink(child: Ptr, ghost loose: set<Ptr>)
      requires Good(root, mem, view, loose) && child in view.live && mem.links.parent[child] != NULL
      modifies this
      ensures Good(root, mem, view, loose + {child}) && child != root
      ensures view == CutView(old(view), old(mem.links.parent), child)
      ensures mem == old(mem).(links := mem.links) && mem.links.parent == old(mem.links.parent)[child := NULL]
      ensures Covers(old(mem.links), view.live) && old(mem.links.parent)[child] in view.live
      ensures mem.links == Unlinked(old(mem.links), view.live, old(mem.links.parent)[child], child)
    {
      hide Good, Unlinked;
      GoodLinks(root, mem, view, loose, child);
      GoodCut(root, mem, view, loose, child);
      UnlinkedParent(mem.links, view.live, mem.links.parent[child], child);
      view := CutView(view, mem.links.parent, child);
      var links := UnlinkPointers(mem.links, mem.links.parent[child], child, view.live);
      mem := mem.(links := links);
    }

    /** XMLDocument::MarkInUse, with the MemPool::SetTracked that goes with it when the node is listed. */
    method MarkInUse(node: Ptr, ghost loose: set<Ptr>)
      requires Good(root, mem, view, loose) && node in view.live && node != root
      requires node in mem.links.parent && mem.links.parent[node] == NULL
      modifies this`mem
      ensures Good(root, mem, view, loose + {node}) && mem.links == old(mem.links)
      ensures forall n :: n in mem.unlinked <==> n in old(mem.unlinked) && n != node
      ensures mem.pools == old(mem.pools) && mem.allocs == old(mem.allocs)
    {
      hide Good, SwapRemove;
      var i := 0;
      while i < |mem.unlinked| && mem.unlinked[i] != node
        invariant 0 <= i <= |mem.unlinked| && node !in mem.unlinked[..i]
      {
        i := i + 1;
      }
      GoodListed(root, mem, view, loose, node);
      if i < |mem.unlinked| {
        GoodTake(root, mem, view, loose, i);
        SwapRemoved(mem.unlinked, i);
        mem := Taken(mem, i);
      }
    }

    /** XMLNode::InsertChildPreamble: the node leaves its list, or `_unlinked`. */
    method InsertChildPreamble(child: Ptr)
      requires Valid() && child in view.live && child != root
      modifies this
      ensures Good(root, mem, view, {child})
      ensures view == CutView(old(view), old(mem.links.parent), child)
      ensures child in mem.links.parent && mem.links.parent[child] == NULL && mem.pools == old(mem.pools)
      ensures Covers(old(mem.links), view.live)
      ensures var p := old(mem.links.parent)[child];
              if p == NULL then mem.links == old(mem.links)
              else p in view.live && mem.links == Unlinked(old(mem.links), view.live, p, child)
    {
      hide Good, Unlinked;
      GoodLinks(root, mem, view, {}, child);
      if mem.links.parent[child] != NULL {
        Unlink(child, {});
        assert {} + {child} == {child};
      } else {
        MarkInUse(child, {});
        CutNothing(view, mem.links.parent, child);
        assert {} + {child} == {child};
      }
    }

    /**
     XMLNode::InsertEndChild: the node leaves its list and becomes the last child of p. The document
     stays valid exactly if p is not below the node; else the parent pointers have a cycle.
     */
    method InsertEndChild(p: Ptr, child: Ptr)
      requires Valid() && CanTake(root, view, p, child)
      modifies this
      ensures view == var cut := CutView(old(view), old(mem.links.parent), child);
                      PasteView(cut, p, |cut.kids[p]|, child)
      ensures Placed(old(view), p, child) && mem.pools == old(mem.pools)
    {
      hide Good, Attached, Nth, Represents, Acyclic, Unlinked, CutView, PasteView, PasteResult;
      CutKeeps(root, mem, view, child, p);
      InsertChildPreamble(child);
      ghost var s := view.kids[p];
      Ends(root, mem, view, {child}, p);
      PasteAny(root, mem, view, p, |s|, child);
      var links := AppendPointers(mem.links, p, child, view.live);
      mem := mem.(links := links);
      view := PasteView(view, p, |s|, child);
    }

    /** The lists are as they should be, and so is everything else unless there is now a cycle. */
    ghost predicate Placed(was: View, p: Ptr, child: Ptr)
      requires p in was.path
      reads this
    {
      PasteResult(root, mem, view, Under(was.path, child, p))
    }

    /** XMLNode::InsertFirstChild. */
    method InsertFirstChild(p: Ptr, child: Ptr)
      requires Valid() && CanTake(root, view, p, child)
      modifies this
      ensures view == PasteView(CutView(old(view), old(mem.links.parent), child), p, 0, child)
      ensures Placed(old(view), p, child) && mem.pools == old(mem.pools)
    {
      hide Good, Attached, Nth, Represents, Acyclic, Unlinked, CutView, PasteView, PasteResult;
      CutKeeps(root, mem, view, child, p);
      InsertChildPreamble(child);
      Ends(root, mem, view, {child}, p);
      PasteAny(root, mem, view, p, 0, child);
      var links := PrependPointers(mem.links, p, child, view.live);
      mem := mem.(links := links);
      view := PasteView(view, p, 0, child);
    }

    /**
     XMLNode::InsertAfterChild. It reads the successor of `after` again when the node has left its
     list: if the node was that successor and the last child, the pointer is null by then.
     */
    method InsertAfterChild(p: Ptr, after: Ptr, child: Ptr) returns (r: Outcome)
      requires Valid() && CanTake(root, view, p, child) && after in view.live
      modifies this
      ensures old(Covers(mem.links, view.live))
      ensures r == Rejected <==> old(mem.links.parent[after]) != p
      ensures r == NullDereference <==>
                && old(mem.links.parent[after] == p && after != child)
                && old(mem.links.next[after] == child && mem.links.next[child] == NULL)
      ensures r == Rejected || after == child ==> Valid() && view == old(view)
      ensures r != NullDereference ==> mem.pools == old(mem.pools)
      ensures r == Done && after != child ==>
                && Placed(old(view), p, child)
                && var cut := CutView(old(view), old(mem.links.parent), child);
                   after in cut.kids[p] && view == PasteView(cut, p, IndexOf(cut.kids[p], after) + 1, child)
    {
      hide Good, Unlinked, IndexOf, Represents, Acyclic, CutView, PasteView, PasteResult;
      GoodLinks(root, mem, view, {}, after);
      GoodLinks(root, mem, view, {}, child);
      if mem.links.parent[after] != p {
        return Rejected;
      }
      if after == child {
        return Done;
      }
      CutKeeps(root, mem, view, child, p);
      CutKeepsAfter(view, mem.links.parent, child, p, after);
      NextAfterCut(root, mem, view, child, after);
      if mem.links.next[after] == NULL {
        LastStaysLast(root, mem, view, child, p, after);
        InsertEndChild(p, child);
        return Done;
      }
      InsertChildPreamble(child);
      if mem.links.next[after] == NULL {
        return NullDereference;
      }
      LinkAfter(p, after, child);
      r := Done;
    }

    /** The part of InsertAfterChild that follows its preamble. */
    method LinkAfter(p: Ptr, after: Ptr, child: Ptr)
      requires Good(root, mem, view, {child}) && child in view.live && child != root
      requires child in mem.links.parent && mem.links.parent[child] == NULL
      requires p in view.live && p in view.kids && p in view.path
      requires after in view.kids[p] && after in mem.links.next && mem.links.next[after] != NULL
      modifies this
      ensures view == PasteView(old(view), p, IndexOf(old(view).kids[p], after) + 1, child)
      ensures Placed(old(view), p, child) && mem.pools == old(mem.pools)
    {
      hide Good, Attached, Nth, IndexOf, Represents, Acyclic, PasteView, PasteResult;
      NextOf(root, mem, view, {child}, p, after);
      ghost var k := IndexOf(view.kids[p], after) + 1;
      PasteAny(root, mem, view, p, k, child);
      var links := InsertAfterPointers(mem.links, p, after, child, view.live);
      mem := mem.(links := links);
      view := PasteView(view, p, k, child);
    }

    /** XMLNode::DeleteChildren: every node below c is freed, once each. */
    method DeleteChildren(c: Ptr, ghost loose: set<Ptr>)
      requires Good(root, mem, view, loose) && c in view.live
      modifies this
      ensures Good(root, mem, view, loose) && Shrunk(view, old(view), c) && c in view.kids && view.kids[c] == []
      decreases |Below(view, c)|, 1
    {
      hide Good, Shrunk, CutView, Removed, Below, Represents, Acyclic;
      ghost var v0 := view;
      GoodLinks(root, mem, view, loose, c);
      ShrunkSelf(view, c);
      while mem.links.first[c] != NULL
        invariant Good(root, mem, view, loose) && Shrunk(view, v0, c)
        invariant c in mem.links.first
        decreases |view.live|
      {
        ShrunkLive(view, v0, c);
        Ends(root, mem, view, loose, c);
        DeleteChild(c, mem.links.first[c], v0, loose);
      }
      ShrunkLive(view, v0, c);
      Ends(root, mem, view, loose, c);
    }

    /** The destructor of a node that is nobody's child, and MemPool::Free. */
    method Destroy(c: Ptr, ghost loose: set<Ptr>)
      requires Good(root, mem, view, loose) && c in view.live && c != root
      requires c in mem.links.parent && mem.links.parent[c] == NULL
      modifies this
      ensures Good(root, mem, view, loose - {c})
      ensures view == Removed(old(view), Below(old(view), c))
      decreases |Below(view, c)|, 2
    {
      hide Good, Shrunk, Removed, Below, FreedMemory, FreedView, Represents, Acyclic;
      ghost var v0 := view;
      GoodLinks(root, mem, view, loose, c);
      MarkInUse(c, loose);
      DeleteChildren(c, loose + {c});
      ShrunkLive(view, v0, c);
      GoodLinks(root, mem, view, loose + {c}, c);
      NothingLeft(root, mem, view, v0, loose + {c}, c);
      GoodFree(root, mem, view, loose + {c}, c);
      assert loose + {c} - {c} == loose - {c};
      mem := FreedMemory(mem, c);
      view := FreedView(view, c);
    }

    /** XMLNode::DeleteChild: the child leaves the list of c, and is destroyed. */
    method DeleteChild(c: Ptr, child: Ptr, ghost v0: View, ghost loose: set<Ptr>)
      requires Good(root, mem, view, loose) && c in view.live && Shrunk(view, v0, c)
      requires child in mem.links.parent && mem.links.parent[child] == c
      modifies this
      ensures Good(root, mem, view, loose) && Shrunk(view, v0, c)
      ensures child in old(mem.links.parent) && child in old(view).path
      ensures view == var cut := CutView(old(view), old(mem.links.parent), child); Removed(cut, Below(cut, child))
      ensures |view.live| < |old(view).live|
      ensures c in mem.links.first
      decreases |Below(v0, c)|, 0
    {
      hide Good, Shrunk, CutView, Removed, Below, Represents, Acyclic, Unlinked;
      CoversGood(root, mem, view, loose);
      GoodLinks(root, mem, view, loose, child);
      GoodLinks(root, mem, view, loose, c);
      CutShrinks(root, mem, view, v0, loose, c, child);
      Unlink(child, loose);
      Destroy(child, loose + {child});
      ShrunkLive(view, v0, c);
      assert loose + {child} - {child} == loose - {child};
      LooseGone(root, mem, view, loose, child);
      GoodLinks(root, mem, view, loose, c);
    }

    /** XMLDocument::DeleteNode: the node and all below it leave the document and are freed, once each. */
    method DeleteNode(node: Ptr)
      requires Valid() && node in view.live && node != root
      modifies this
      ensures Valid() && node in old(mem.links.parent) && node in old(view).path
      ensures view == Removed(CutView(old(view), old(mem.links.parent), node), Below(old(view), node))
      ensures |view.live| < |old(view).live|
    {
      hide Good, Shrunk, CutView, Removed, Below, Represents, Acyclic;
      GoodLinks(root, mem, view, {}, node);
      BelowCut(view, mem.links.parent, node);
      if mem.links.parent[node] != NULL {
        ShrunkSelf(view, mem.links.parent[node]);
        DeleteChild(mem.links.parent[node], node, view, {});
      } else {
        CutNothing(view, mem.links.parent, node);
        RemovedSmaller(view, node);
        Destroy(node, {});
        assert {} - {node} == {};
      }
    }

    /** XMLDocument::Clear: every node is freed, and each allocation has by then been freed exactly once. */
    method Clear()
      requires Valid()
      modifies this
      ensures Valid() && view == View({root}, map[root := []], map[root := []], old(view).obtained, old(view).obtained)
      ensures mem.unlinked == [] && mem.allocs == NO_NODES && mem.untracked == NO_NODES
    {
      hide Good, Shrunk, CutView, Removed, Below, Represents, Acyclic;
      RootFacts(root, mem, view, {});
      ghost var v0 := view;
      DeleteChildren(root, {});
      ShrunkObtained(view, v0, root);
      while |mem.unlinked| > 0
        invariant Valid() && root in view.kids && view.kids[root] == [] && view.obtained == old(view).obtained
        decreases |view.live|
      {
        var node := mem.unlinked[0];
        ListedFacts(root, mem, view, node);
        RootStays(view, node, root);
        DeleteNode(node);
      }
      OnlyRootLeft(root, mem, view);
    }
  }

  // ---- The case in which InsertAfterChild fails ------------------------------------------------------

  lemma {:induction false} NotUnderRoot(view: View, root: Ptr, n: Ptr)
    requires root in view.path && view.path[root] == [] && n != root
    ensures !Under(view.path, n, root)
  {
  }

  lemma {:induction false} AppendedToRoot(view: View, root: Ptr, n: Ptr)
    requires root in view.kids && root in view.path
    ensures var view' := PasteView(view, root, |view.kids[root]|, n);
            view'.live == view.live && root in view'.kids && view'.kids[root] == view.kids[root] + [n]
  {
  }

  lemma {:induction false} PastedIsGood(root: Ptr, mem: Memory, view: View)
    requires PasteResult(root, mem, view, false)
    ensures Good(root, mem, view, {})
  {
    hide Good;
  }

  lemma {:induction false} TwoInARow(root: Ptr, mem: Memory, view: View, a: Ptr, b: Ptr)
    requires Good(root, mem, view, {}) && root in view.live && root in view.kids && view.kids[root] == [a, b] && a != b
    ensures Covers(mem.links, view.live) && a in view.live && b in view.live && mem.links.parent[a] == root
    ensures mem.links.next[a] == b && mem.links.next[b] == NULL
  {
    hide Good;
    var s := view.kids[root];
    assert s[0] == a && s[1] == b;
    NextOf(root, mem, view, {}, root, a);
    NextOf(root, mem, view, {}, root, b);
  }

  /** A new node becomes the last child of the document. */
  method AddChild(d: XMLDocument, pool: Pool, n: Ptr)
    requires d.Valid() && n != NULL && n !in d.view.live && d.root in d.view.kids
    modifies d
    ensures d.Valid() && d.view.live == old(d.view.live) + {n}
    ensures d.root in d.view.kids && d.view.kids[d.root] == old(d.view.kids[d.root]) + [n]
  {
    hide Good, Represents, Acyclic, CutView, PasteView, PasteResult;
    RootFacts(d.root, d.mem, d.view, {});
    d.CreateUnlinkedNode(pool, n);
    RootFacts(d.root, d.mem, d.view, {});
    ListedFacts(d.root, d.mem, d.view, n);
    NotUnderRoot(d.view, d.root, n);
    AppendedToRoot(d.view, d.root, n);
    d.InsertEndChild(d.root, n);
    PastedIsGood(d.root, d.mem, d.view);
  }

  /** The last of two children is to be moved to directly after the first, where it is already. */
  method MoveLastAfterFirst(root: Ptr, a: Ptr, b: Ptr) returns (r: Outcome)
    requires root != NULL && a != NULL && b != NULL && a != root && b != root && a != b
    ensures r == NullDereference
  {
    hide Good, Represents, Acyclic, CutView, PasteView, PasteResult;
    var d := new XMLDocument(root);
    AddChild(d, ElementPool, a);
    AddChild(d, TextPool, b);
    assert d.view.kids[root] == [a, b] && [a, b][0] == a && [a, b][1] == b;
    RootFacts(root, d.mem, d.view, {});
    TwoInARow(root, d.mem, d.view, a, b);
    r := d.InsertAfterChild(root, a, b);
  }
}
