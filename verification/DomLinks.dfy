/**
 tinyxml2's document object model: intrusive doubly linked lists of children. The pointer fields of
 all nodes together are treated as one value, so that what each operation does to them can be
 proved once, away from the heap.
 */
module DomLinks {
  /** The address of a node; nodes are freed, so memory is modelled explicitly. */
  datatype Ptr = NULL | Address(address: nat)

  type Field = map<Ptr, Ptr>

  /** The five pointer fields of every live node. */
  datatype Links = Links(parent: Field, prev: Field, next: Field, first: Field, last: Field)

  type Lists = map<Ptr, seq<Ptr>>

  ghost predicate Distinct(s: seq<Ptr>) {
    forall i, j | 0 <= i < j < |s| :: s[i] != s[j]
  }

  /** The element at index i, or NULL next to the ends of the sequence. */
  ghost function Nth(s: seq<Ptr>, i: int): Ptr {
    if 0 <= i < |s| then s[i] else NULL
  }

  ghost predicate Covers(m: Links, live: set<Ptr>) {
    && NULL !in live
    && m.parent.Keys == live && m.prev.Keys == live && m.next.Keys == live && m.first.Keys == live
    && m.last.Keys == live
  }

  /** The i-th child of n points to n and to its two neighbours. */
  ghost predicate ChildOk(m: Links, live: set<Ptr>, n: Ptr, s: seq<Ptr>, i: int)
    requires Covers(m, live) && 0 <= i < |s|
  {
    && s[i] in live && m.parent[s[i]] == n
    && m.prev[s[i]] == Nth(s, i - 1) && m.next[s[i]] == Nth(s, i + 1)
  }

  /** The pointers of n and of its children represent the sequence s. */
  ghost predicate ListOk(m: Links, live: set<Ptr>, n: Ptr, s: seq<Ptr>)
    requires Covers(m, live) && n in live
  {
    && Distinct(s)
    && m.first[n] == Nth(s, 0) && m.last[n] == Nth(s, |s| - 1)
    && forall i {:trigger ChildOk(m, live, n, s, i)} | 0 <= i < |s| :: ChildOk(m, live, n, s, i)
  }

  lemma {:induction false} ListFacts(m: Links, live: set<Ptr>, n: Ptr, s: seq<Ptr>)
    requires Covers(m, live) && n in live && ListOk(m, live, n, s)
    ensures Distinct(s) && NULL !in s && m.first[n] == Nth(s, 0) && m.last[n] == Nth(s, |s| - 1)
  {
    forall i | 0 <= i < |s| ensures s[i] != NULL {
      assert ChildOk(m, live, n, s, i);
    }
  }

  lemma {:induction false} ChildFacts(m: Links, live: set<Ptr>, n: Ptr, s: seq<Ptr>, i: int)
    requires Covers(m, live) && n in live && ListOk(m, live, n, s) && 0 <= i < |s|
    ensures ChildOk(m, live, n, s, i)
  {
  }

  lemma {:induction false} ListIntro(m: Links, live: set<Ptr>, n: Ptr, s: seq<Ptr>)
    requires Covers(m, live) && n in live
    requires Distinct(s) && m.first[n] == Nth(s, 0) && m.last[n] == Nth(s, |s| - 1)
    requires forall i | 0 <= i < |s| :: ChildOk(m, live, n, s, i)
    ensures ListOk(m, live, n, s)
  {
  }

  lemma {:induction false} RepresentsFacts(m: Links, live: set<Ptr>, kids: Lists, n: Ptr)
    requires Represents(m, live, kids) && n in live
    ensures Covers(m, live) && kids.Keys == live
    ensures ListOk(m, live, n, kids[n]) && NodeOk(m, live, kids, n)
  {
  }

  /** A node without parent has no siblings; any other node is among the children of its parent. */
  ghost predicate NodeOk(m: Links, live: set<Ptr>, kids: Lists, n: Ptr)
    requires Covers(m, live) && kids.Keys == live && n in live
  {
    var p := m.parent[n];
    if p == NULL then m.prev[n] == NULL && m.next[n] == NULL
    else p in live && n in kids[p]
  }

  /** The pointers of all nodes represent the lists. */
  ghost predicate Represents(m: Links, live: set<Ptr>, kids: Lists) {
    && Covers(m, live) && kids.Keys == live
    && forall n {:trigger kids[n]} | n in live :: ListOk(m, live, n, kids[n]) && NodeOk(m, live, kids, n)
  }

  // ---- Taking a node out of its list --------------------------------------------------------------

  /** What XMLNode::Unlink assigns. */
  ghost function Unlinked(m: Links, live: set<Ptr>, p: Ptr, c: Ptr): Links
    requires Covers(m, live) && p in live && c in live
  {
    var l, r := m.prev[c], m.next[c];
    Links(m.parent[c := NULL],
          (if r == NULL then m.prev else m.prev[r := l])[c := NULL],
          (if l == NULL then m.next else m.next[l := r])[c := NULL],
          if m.first[p] == c then m.first[p := r] else m.first,
          if m.last[p] == c then m.last[p := l] else m.last)
  }

  ghost function Without(s: seq<Ptr>, k: nat): seq<Ptr>
    requires k < |s|
  {
    s[..k] + s[k + 1..]
  }

  /** c is the k-th child of p. */
  ghost predicate IsChild(live: set<Ptr>, kids: Lists, p: Ptr, k: nat, c: Ptr) {
    kids.Keys == live && p in live && c in live && p != c && k < |kids[p]| && kids[p][k] == c
  }

  /** A node and its neighbours have the same parent. */
  lemma {:induction false} NeighboursBelong(m: Links, live: set<Ptr>, kids: Lists, p: Ptr, k: nat, c: Ptr)
    requires Represents(m, live, kids) && IsChild(live, kids, p, k, c)
    ensures var s := kids[p];
            && m.parent[c] == p && m.prev[c] == Nth(s, k - 1) && m.next[c] == Nth(s, k + 1)
            && (m.prev[c] != NULL ==> m.prev[c] in live && m.parent[m.prev[c]] == p && m.prev[c] != c)
            && (m.next[c] != NULL ==> m.next[c] in live && m.parent[m.next[c]] == p && m.next[c] != c)
  {
    var s := kids[p];
    assert ChildOk(m, live, p, s, k);
    if k > 0 {
      assert ChildOk(m, live, p, s, k - 1);
    }
    if k + 1 < |s| {
      assert ChildOk(m, live, p, s, k + 1);
    }
  }

  /** The new pointers of one node. */
  lemma {:induction false} UnlinkedAt(m: Links, live: set<Ptr>, p: Ptr, c: Ptr, x: Ptr)
    requires Covers(m, live) && p in live && c in live && x in live
    requires m.prev[c] == NULL || m.prev[c] in live
    requires m.next[c] == NULL || m.next[c] in live
    ensures var m' := Unlinked(m, live, p, c); var l, r := m.prev[c], m.next[c];
            && Covers(m', live)
            && m'.parent[x] == (if x == c then NULL else m.parent[x])
            && m'.prev[x] == (if x == c then NULL else if x == r then l else m.prev[x])
            && m'.next[x] == (if x == c then NULL else if x == l then r else m.next[x])
            && m'.first[x] == (if x == p && m.first[p] == c then r else m.first[x])
            && m'.last[x] == (if x == p && m.last[p] == c then l else m.last[x])
  {
  }

  lemma {:induction false} UnlinkedOther(m: Links, live: set<Ptr>, kids: Lists, p: Ptr, k: nat, c: Ptr, n: Ptr)
    requires Represents(m, live, kids) && IsChild(live, kids, p, k, c)
    requires n in live && n != p
    ensures Covers(Unlinked(m, live, p, c), live)
    ensures ListOk(Unlinked(m, live, p, c), live, n, kids[n])
  {
    hide Unlinked;
    var m' := Unlinked(m, live, p, c);
    NeighboursBelong(m, live, kids, p, k, c);
    UnlinkedAt(m, live, p, c, n);
    var s := kids[n];
    assert ListOk(m, live, n, s);
    forall i | 0 <= i < |s| ensures ChildOk(m', live, n, s, i) {
      assert ChildOk(m, live, n, s, i);
      UnlinkedAt(m, live, p, c, s[i]);
    }
  }

  lemma {:induction false} UnlinkedSame(m: Links, live: set<Ptr>, kids: Lists, p: Ptr, k: nat, c: Ptr)
    requires Represents(m, live, kids) && IsChild(live, kids, p, k, c)
    ensures Covers(Unlinked(m, live, p, c), live)
    ensures ListOk(Unlinked(m, live, p, c), live, p, Without(kids[p], k))
  {
    hide Unlinked, ListOk, Represents, Without, Nth, Distinct;
    RepresentsFacts(m, live, kids, p);
    var s := kids[p];
    var m' := Unlinked(m, live, p, c);
    NeighboursBelong(m, live, kids, p, k, c);
    UnlinkedAt(m, live, p, c, p);
    ListFacts(m, live, p, s);
    WithoutEnds(s, k);
    forall i | 0 <= i < |Without(s, k)| ensures ChildOk(m', live, p, Without(s, k), i) {
      UnlinkedSameAt(m, live, p, s, k, c, i);
    }
    ListIntro(m', live, p, Without(s, k));
  }

  lemma {:induction false} UnlinkedSameAt(m: Links, live: set<Ptr>, p: Ptr, s: seq<Ptr>, k: nat, c: Ptr, i: nat)
    requires Covers(m, live) && p in live && ListOk(m, live, p, s) && k < |s| && s[k] == c && c in live && p != c
    requires m.prev[c] == Nth(s, k - 1) && m.next[c] == Nth(s, k + 1)
    requires m.prev[c] == NULL || m.prev[c] in live
    requires m.next[c] == NULL || m.next[c] in live
    requires i < |s| - 1
    ensures Covers(Unlinked(m, live, p, c), live)
    ensures ChildOk(Unlinked(m, live, p, c), live, p, Without(s, k), i)
  {
    hide Unlinked, Without;
    var j := if i < k then i else i + 1;
    assert ChildOk(m, live, p, s, j);
    UnlinkedAt(m, live, p, c, s[j]);
    WithoutNth(s, k, i);
    assert j + 1 == k ==> s[j] == Nth(s, k - 1);
    assert j == k + 1 ==> s[j] == Nth(s, k + 1);
    assert s[j] == Nth(s, k - 1) ==> j == k - 1;
    assert s[j] == Nth(s, k + 1) ==> j == k + 1;
  }

  lemma {:induction false} WithoutNth(s: seq<Ptr>, k: nat, i: nat)
    requires k < |s| && i < |s| - 1
    ensures var s', j := Without(s, k), if i < k then i else i + 1;
            && |s'| == |s| - 1 && s'[i] == s[j]
            && Nth(s', i - 1) == Nth(s, if i == k then k - 1 else j - 1)
            && Nth(s', i + 1) == Nth(s, if i + 1 == k then k + 1 else j + 1)
  {
  }

  lemma {:induction false} WithoutEnds(s: seq<Ptr>, k: nat)
    requires Distinct(s) && k < |s|
    ensures var s' := Without(s, k);
            && |s'| == |s| - 1 && Distinct(s')
            && Nth(s', 0) == (if Nth(s, 0) == s[k] then Nth(s, k + 1) else Nth(s, 0))
            && Nth(s', |s'| - 1) == (if Nth(s, |s| - 1) == s[k] then Nth(s, k - 1) else Nth(s, |s| - 1))
  {
  }

  lemma {:induction false} InWithout(s: seq<Ptr>, k: nat, n: Ptr)
    requires k < |s| && n in s && n != s[k]
    ensures n in Without(s, k)
  {
    var i :| 0 <= i < |s| && s[i] == n;
    assert Without(s, k)[if i < k then i else i - 1] == n;
  }

  lemma {:induction false} UnlinkedNode(m: Links, live: set<Ptr>, kids: Lists, p: Ptr, k: nat, c: Ptr, n: Ptr)
    requires Represents(m, live, kids) && IsChild(live, kids, p, k, c) && n in live
    requires Covers(Unlinked(m, live, p, c), live)
    ensures NodeOk(Unlinked(m, live, p, c), live, kids[p := Without(kids[p], k)], n)
  {
    hide ListOk, Without, Nth, Represents, Unlinked;
    RepresentsFacts(m, live, kids, n);
    NeighboursBelong(m, live, kids, p, k, c);
    UnlinkedAt(m, live, p, c, n);
    if n != c && m.parent[n] == p {
      InWithout(kids[p], k, n);
    }
  }

  /** Unlinking removes the node from its list and leaves every other list alone. */
  lemma {:induction false} UnlinkRepresents(m: Links, live: set<Ptr>, kids: Lists, p: Ptr, k: nat, c: Ptr)
    requires Represents(m, live, kids) && IsChild(live, kids, p, k, c)
    ensures Represents(Unlinked(m, live, p, c), live, kids[p := Without(kids[p], k)])
  {
    hide ListOk, NodeOk, Without, Unlinked;
    var m' := Unlinked(m, live, p, c);
    var kids' := kids[p := Without(kids[p], k)];
    UnlinkedSame(m, live, kids, p, k, c);
    forall n | n in live
      ensures ListOk(m', live, n, kids'[n]) && NodeOk(m', live, kids', n)
    {
      if n != p {
        UnlinkedOther(m, live, kids, p, k, c, n);
      }
      UnlinkedNode(m, live, kids, p, k, c, n);
    }
  }

  // ---- Putting a node into a list --------------------------------------------------------------

  /** What the insert operations assign when c goes between l and r. */
  ghost function Attached(m: Links, live: set<Ptr>, p: Ptr, c: Ptr, l: Ptr, r: Ptr): Links
    requires Covers(m, live) && p in live && c in live
  {
    Links(m.parent[c := p],
          (if r == NULL then m.prev else m.prev[r := c])[c := l],
          (if l == NULL then m.next else m.next[l := c])[c := r],
          if l == NULL then m.first[p := c] else m.first,
          if r == NULL then m.last[p := c] else m.last)
  }

  ghost function Inserted(s: seq<Ptr>, k: nat, c: Ptr): seq<Ptr>
    requires k <= |s|
  {
    s[..k] + [c] + s[k..]
  }

  /** c is in no list, and is to become the k-th child of p. */
  ghost predicate CanAttach(m: Links, live: set<Ptr>, kids: Lists, p: Ptr, k: nat, c: Ptr) {
    && Covers(m, live) && kids.Keys == live && p in live && c in live
    && m.parent[c] == NULL && k <= |kids[p]|
  }

  lemma {:induction false} AttachedAt(m: Links, live: set<Ptr>, p: Ptr, c: Ptr, l: Ptr, r: Ptr, x: Ptr)
    requires Covers(m, live) && p in live && c in live && x in live
    requires (l == NULL || l in live) && (r == NULL || r in live)
    ensures var m' := Attached(m, live, p, c, l, r);
            && Covers(m', live)
            && m'.parent[x] == (if x == c then p else m.parent[x])
            && m'.prev[x] == (if x == c then l else if x == r then c else m.prev[x])
            && m'.next[x] == (if x == c then r else if x == l then c else m.next[x])
            && m'.first[x] == (if x == p && l == NULL then c else m.first[x])
            && m'.last[x] == (if x == p && r == NULL then c else m.last[x])
  {
    AttachedCovers(m, live, p, c, l, r);
  }

  lemma {:induction false} AttachedCovers(m: Links, live: set<Ptr>, p: Ptr, c: Ptr, l: Ptr, r: Ptr)
    requires Covers(m, live) && p in live && c in live && (l == NULL || l in live) && (r == NULL || r in live)
    ensures Covers(Attached(m, live, p, c, l, r), live)
  {
    var prev, next := if r == NULL then m.prev else m.prev[r := c], if l == NULL then m.next else m.next[l := c];
    assert prev.Keys == live && next.Keys == live;
    assert prev[c := l].Keys == live && next[c := r].Keys == live && m.parent[c := p].Keys == live;
    assert m.first[p := c].Keys == live && m.last[p := c].Keys == live;
  }

  /** The future neighbours are children of p, and c is not. */
  lemma {:induction false} NeighboursOfGap(m: Links, live: set<Ptr>, kids: Lists, p: Ptr, k: nat, c: Ptr)
    requires Represents(m, live, kids) && CanAttach(m, live, kids, p, k, c)
    ensures var s := kids[p]; var l, r := Nth(s, k - 1), Nth(s, k);
            && (l != NULL ==> l in live && m.parent[l] == p && l != c)
            && (r != NULL ==> r in live && m.parent[r] == p && r != c)
  {
    var s := kids[p];
    if k > 0 {
      assert ChildOk(m, live, p, s, k - 1);
    }
    if k < |s| {
      assert ChildOk(m, live, p, s, k);
    }
  }

  lemma {:induction false} AttachedOther(m: Links, live: set<Ptr>, kids: Lists, p: Ptr, k: nat, c: Ptr, n: Ptr)
    requires Represents(m, live, kids) && CanAttach(m, live, kids, p, k, c)
    requires n in live && n != p
    ensures var m' := Attached(m, live, p, c, Nth(kids[p], k - 1), Nth(kids[p], k));
            Covers(m', live) && ListOk(m', live, n, kids[n])
  {
    hide Attached;
    var l, r := Nth(kids[p], k - 1), Nth(kids[p], k);
    var m' := Attached(m, live, p, c, l, r);
    NeighboursOfGap(m, live, kids, p, k, c);
    AttachedAt(m, live, p, c, l, r, n);
    var s := kids[n];
    assert ListOk(m, live, n, s);
    forall i | 0 <= i < |s| ensures ChildOk(m', live, n, s, i) {
      assert ChildOk(m, live, n, s, i);
      AttachedAt(m, live, p, c, l, r, s[i]);
    }
  }

  lemma {:induction false} InsertedNth(s: seq<Ptr>, k: nat, c: Ptr, i: nat)
    requires k <= |s| && i <= |s|
    ensures var s' := Inserted(s, k, c); var j := if i < k then i else i - 1;
            && |s'| == |s| + 1
            && s'[i] == (if i == k then c else s[j])
            && Nth(s', i - 1) == (if i == k + 1 then c else Nth(s, if i == k then k - 1 else j - 1))
            && Nth(s', i + 1) == (if i + 1 == k then c else Nth(s, if i == k then k else j + 1))
  {
  }

  lemma {:induction false} InsertedEnds(s: seq<Ptr>, k: nat, c: Ptr)
    requires Distinct(s) && c !in s && NULL !in s && k <= |s|
    ensures var s' := Inserted(s, k, c);
            && |s'| == |s| + 1 && Distinct(s')
            && Nth(s', 0) == (if Nth(s, k - 1) == NULL then c else Nth(s, 0))
            && Nth(s', |s'| - 1) == (if Nth(s, k) == NULL then c else Nth(s, |s| - 1))
  {
  }

  lemma {:induction false} AttachedSameAt(m: Links, live: set<Ptr>, p: Ptr, s: seq<Ptr>, k: nat, c: Ptr, i: nat)
    requires Covers(m, live) && p in live && ListOk(m, live, p, s) && k <= |s| && c in live && c !in s
    requires var l, r := Nth(s, k - 1), Nth(s, k); (l == NULL || l in live) && (r == NULL || r in live)
    requires i <= |s|
    ensures var m' := Attached(m, live, p, c, Nth(s, k - 1), Nth(s, k));
            && Covers(m', live) && |Inserted(s, k, c)| == |s| + 1
            && ChildOk(m', live, p, Inserted(s, k, c), i)
  {
    hide Attached, Inserted;
    var l, r := Nth(s, k - 1), Nth(s, k);
    InsertedNth(s, k, c, i);
    if i == k {
      AttachedAt(m, live, p, c, l, r, c);
    } else {
      var j := if i < k then i else i - 1;
      assert ChildOk(m, live, p, s, j);
      AttachedAt(m, live, p, c, l, r, s[j]);
      assert s[j] == l <==> j == k - 1;
      assert s[j] == r <==> j == k;
    }
  }

  lemma {:induction false} AttachedSame(m: Links, live: set<Ptr>, kids: Lists, p: Ptr, k: nat, c: Ptr)
    requires Represents(m, live, kids) && CanAttach(m, live, kids, p, k, c)
    ensures var m' := Attached(m, live, p, c, Nth(kids[p], k - 1), Nth(kids[p], k));
            Covers(m', live) && ListOk(m', live, p, Inserted(kids[p], k, c))
  {
    hide Attached, ListOk, Represents, Inserted, Nth, Distinct;
    var s := kids[p];
    var l, r := Nth(s, k - 1), Nth(s, k);
    var m' := Attached(m, live, p, c, l, r);
    NeighboursOfGap(m, live, kids, p, k, c);
    AttachedAt(m, live, p, c, l, r, p);
    RepresentsFacts(m, live, kids, p);
    ListFacts(m, live, p, s);
    forall i | 0 <= i < |s| ensures s[i] != c {
      ChildFacts(m, live, p, s, i);
    }
    InsertedEnds(s, k, c);
    forall i | 0 <= i < |Inserted(s, k, c)| ensures ChildOk(m', live, p, Inserted(s, k, c), i) {
      AttachedSameAt(m, live, p, s, k, c, i);
    }
    ListIntro(m', live, p, Inserted(s, k, c));
  }

  lemma {:induction false} AttachedNode(m: Links, live: set<Ptr>, kids: Lists, p: Ptr, k: nat, c: Ptr, n: Ptr)
    requires Represents(m, live, kids) && CanAttach(m, live, kids, p, k, c) && n in live
    ensures var m' := Attached(m, live, p, c, Nth(kids[p], k - 1), Nth(kids[p], k));
            Covers(m', live) && NodeOk(m', live, kids[p := Inserted(kids[p], k, c)], n)
  {
    hide Attached, ListOk;
    var s := kids[p];
    NeighboursOfGap(m, live, kids, p, k, c);
    AttachedAt(m, live, p, c, Nth(s, k - 1), Nth(s, k), n);
    var l := kids[n];
    assert NodeOk(m, live, kids, n);
    InInserted(s, k, c, n);
  }

  lemma {:induction false} InInserted(s: seq<Ptr>, k: nat, c: Ptr, n: Ptr)
    requires k <= |s|
    ensures n in Inserted(s, k, c) <==> n in s || n == c
  {
    var s' := Inserted(s, k, c);
    assert s'[k] == c;
    if n in s {
      var i :| 0 <= i < |s| && s[i] == n;
      assert s'[if i < k then i else i + 1] == n;
    }
  }

  /** Attaching puts the node into the list and leaves every other list alone. */
  lemma {:induction false} AttachRepresents(m: Links, live: set<Ptr>, kids: Lists, p: Ptr, k: nat, c: Ptr)
    requires Represents(m, live, kids) && CanAttach(m, live, kids, p, k, c)
    ensures Represents(Attached(m, live, p, c, Nth(kids[p], k - 1), Nth(kids[p], k)), live,
                       kids[p := Inserted(kids[p], k, c)])
  {
    hide ListOk, NodeOk, Inserted, Attached, Nth;
    var m' := Attached(m, live, p, c, Nth(kids[p], k - 1), Nth(kids[p], k));
    var kids' := kids[p := Inserted(kids[p], k, c)];
    AttachedSame(m, live, kids, p, k, c);
    forall n | n in live
      ensures ListOk(m', live, n, kids'[n]) && NodeOk(m', live, kids', n)
    {
      if n != p {
        AttachedOther(m, live, kids, p, k, c, n);
      }
      AttachedNode(m, live, kids, p, k, c, n);
    }
  }

  // ---- Ancestors -----------------------------------------------------------------------------

  type Paths = map<Ptr, seq<Ptr>>

  /** path[n] lists the ancestors of n, from the top down to its parent. */
  ghost predicate PathOk(parent: Field, live: set<Ptr>, path: Paths, n: Ptr)
    requires parent.Keys == live && path.Keys == live && n in live
  {
    var p := parent[n];
    && (if p == NULL then path[n] == [] else p in live && path[n] == path[p] + [p])
    && Distinct(path[n]) && n !in path[n]
  }

  /** Every ancestor of n has as its own ancestors those above it on the path of n. */
  ghost predicate PrefixOk(live: set<Ptr>, path: Paths, n: Ptr, i: int)
    requires path.Keys == live && n in live && 0 <= i < |path[n]|
  {
    path[n][i] in live && path[path[n][i]] == path[n][..i]
  }

  /** The parent pointers contain no cycle. */
  ghost predicate Acyclic(parent: Field, live: set<Ptr>, path: Paths) {
    && NULL !in live && parent.Keys == live && path.Keys == live
    && (forall n {:trigger PathOk(parent, live, path, n)} | n in live :: PathOk(parent, live, path, n))
    && (forall n, i {:trigger PrefixOk(live, path, n, i)} | n in live && 0 <= i < |path[n]| ::
          PrefixOk(live, path, n, i))
  }

  /** n is c or one of its descendants. */
  ghost predicate Under(path: Paths, c: Ptr, n: Ptr)
    requires n in path
  {
    n == c || c in path[n]
  }

  /** The paths after c has lost its parent. */
  ghost function Rooted(path: Paths, c: Ptr): Paths
    requires c in path
  {
    map n | n in path :: if Under(path, c, n) && |path[c]| <= |path[n]| then path[n][|path[c]|..] else path[n]
  }

  /** Where c stands on the path of a node below it. */
  lemma {:induction false} PositionOn(parent: Field, live: set<Ptr>, path: Paths, c: Ptr, n: Ptr)
    requires Acyclic(parent, live, path) && c in live && n in live && c in path[n]
    ensures |path[c]| < |path[n]| && path[n][|path[c]|] == c && path[n][..|path[c]|] == path[c]
  {
    var i :| 0 <= i < |path[n]| && path[n][i] == c;
    assert PrefixOk(live, path, n, i);
  }

  /** A child is below c exactly when it is c itself or its parent is. */
  lemma {:induction false} UnderParent(parent: Field, live: set<Ptr>, path: Paths, c: Ptr, n: Ptr)
    requires Acyclic(parent, live, path) && c in live && n in live
    ensures parent[n] == NULL ==> path[n] == [] && (Under(path, c, n) <==> n == c)
    ensures var p := parent[n]; p != NULL ==>
              && p in live && path[n] == path[p] + [p]
              && (Under(path, c, n) <==> n == c || Under(path, c, p))
  {
    assert PathOk(parent, live, path, n);
  }

  lemma {:induction false} RootedPath(parent: Field, live: set<Ptr>, path: Paths, c: Ptr, n: Ptr)
    requires Acyclic(parent, live, path) && c in live && n in live
    ensures PathOk(parent[c := NULL], live, Rooted(path, c), n)
  {
    var k, p := |path[c]|, parent[n];
    var path' := Rooted(path, c);
    assert PathOk(parent, live, path, n);
    UnderParent(parent, live, path, c, n);
    if n == c {
      assert path'[c] == [];
    } else if c in path[n] {
      PositionOn(parent, live, path, c, n);
      if p == c {
        assert path'[n] == [c];
        assert path'[c] == [] && [] + [c] == [c];
      } else {
        PositionOn(parent, live, path, c, p);
        assert path'[n] == path[p][k..] + [p];
      }
    }
  }

  lemma {:induction false} RootedPrefix(parent: Field, live: set<Ptr>, path: Paths, c: Ptr, n: Ptr, i: nat)
    requires Acyclic(parent, live, path) && c in live && n in live && i < |Rooted(path, c)[n]|
    ensures PrefixOk(live, Rooted(path, c), n, i)
  {
    var k := |path[c]|;
    var path' := Rooted(path, c);
    if c in path[n] && n != c {
      PositionOn(parent, live, path, c, n);
      assert PrefixOk(live, path, n, k + i);
      var a := path[n][k + i];
      assert path'[n][i] == a;
      if i == 0 {
        assert path'[a] == [] == path'[n][..0];
      } else {
        assert path[a][k] == c;
        assert path'[a] == path[n][..k + i][k..] == path'[n][..i];
      }
    } else {
      assert n != c;
      assert PrefixOk(live, path, n, i);
      var a := path[n][i];
      assert a != c && c !in path[a];
    }
  }

  lemma {:induction false} RootedAcyclic(parent: Field, live: set<Ptr>, path: Paths, c: Ptr)
    requires Acyclic(parent, live, path) && c in live
    ensures Acyclic(parent[c := NULL], live, Rooted(path, c)) && Rooted(path, c)[c] == []
  {
    hide PathOk, PrefixOk;
    var path' := Rooted(path, c);
    forall n | n in live ensures PathOk(parent[c := NULL], live, path', n) {
      RootedPath(parent, live, path, c, n);
    }
    forall n, i | n in live && 0 <= i < |path'[n]| ensures PrefixOk(live, path', n, i) {
      RootedPrefix(parent, live, path, c, n, i);
    }
  }

  /** The paths after c, which had no parent, has become a child of p. */
  ghost function Hung(path: Paths, p: Ptr, c: Ptr): Paths
    requires p in path
  {
    map n | n in path :: if Under(path, c, n) then path[p] + [p] + path[n] else path[n]
  }

  /** c is a top node, and p is not below it. */
  ghost predicate CanHang(parent: Field, live: set<Ptr>, path: Paths, p: Ptr, c: Ptr) {
    Acyclic(parent, live, path) && p in live && c in live && parent[c] == NULL && !Under(path, c, p)
  }

  /** Nothing on the path to p, or p itself, is below c. */
  lemma {:induction false} NotUnder(parent: Field, live: set<Ptr>, path: Paths, p: Ptr, c: Ptr, a: Ptr)
    requires CanHang(parent, live, path, p, c) && (a == p || a in path[p])
    ensures a in live && !Under(path, c, a) && a != c
  {
    if a != p {
      var i :| 0 <= i < |path[p]| && path[p][i] == a;
      assert PrefixOk(live, path, p, i);
    }
  }

  /** A path through c starts with c, since c is a top node. */
  lemma {:induction false} StartsWith(parent: Field, live: set<Ptr>, path: Paths, c: Ptr, n: Ptr)
    requires Acyclic(parent, live, path) && c in live && n in live && parent[c] == NULL && c in path[n]
    ensures path[c] == [] && path[n] != [] && path[n][0] == c
  {
    assert PathOk(parent, live, path, c);
    PositionOn(parent, live, path, c, n);
  }

  lemma {:induction false} HungPath(parent: Field, live: set<Ptr>, path: Paths, p: Ptr, c: Ptr, n: Ptr)
    requires CanHang(parent, live, path, p, c) && n in live
    ensures PathOk(parent[c := p], live, Hung(path, p, c), n)
  {
    var path' := Hung(path, p, c);
    var up := path[p] + [p];
    assert PathOk(parent, live, path, n);
    assert PathOk(parent, live, path, p);
    UnderParent(parent, live, path, c, n);
    if n == c {
      assert path'[c] == up + [] == up;
      assert path'[p] == path[p];
      NotUnder(parent, live, path, p, c, p);
    } else if c in path[n] {
      var q := parent[n];
      assert path'[n] == up + (path[q] + [q]) == (up + path[q]) + [q] == path'[q] + [q];
      HungDistinct(parent, live, path, p, c, n);
    }
  }

  lemma {:induction false} HungDistinct(parent: Field, live: set<Ptr>, path: Paths, p: Ptr, c: Ptr, n: Ptr)
    requires CanHang(parent, live, path, p, c) && n in live && c in path[n]
    ensures Distinct(path[p] + [p] + path[n]) && n !in path[p] + [p] + path[n]
  {
    var up := path[p] + [p];
    assert PathOk(parent, live, path, n) && PathOk(parent, live, path, p);
    StartsWith(parent, live, path, c, n);
    forall i | 0 <= i < |path[n]| ensures path[n][i] !in up && n !in up {
      assert PrefixOk(live, path, n, i);
      assert Under(path, c, path[n][i]) by {
        if i > 0 {
          assert path[path[n][i]][0] == c;
        }
      }
      if path[n][i] in up {
        NotUnder(parent, live, path, p, c, path[n][i]);
      }
      if n in up {
        NotUnder(parent, live, path, p, c, n);
      }
    }
  }

  lemma {:induction false} HungPrefix(parent: Field, live: set<Ptr>, path: Paths, p: Ptr, c: Ptr, n: Ptr, i: nat)
    requires CanHang(parent, live, path, p, c) && n in live && i < |Hung(path, p, c)[n]|
    ensures PrefixOk(live, Hung(path, p, c), n, i)
  {
    var path' := Hung(path, p, c);
    var up := path[p] + [p];
    if !Under(path, c, n) {
      assert PrefixOk(live, path, n, i);
      var a := path[n][i];
      assert a != c && c !in path[a];
    } else if i < |up| {
      var a := up[i];
      assert path'[n][i] == a;
      NotUnder(parent, live, path, p, c, a);
      if i < |path[p]| {
        assert PrefixOk(live, path, p, i);
      }
      assert path'[a] == path[a] == up[..i] == path'[n][..i];
    } else {
      var j := i - |up|;
      assert PrefixOk(live, path, n, j);
      var a := path[n][j];
      assert path'[n][i] == a;
      assert c in path[n] by {
        assert PathOk(parent, live, path, c);
      }
      StartsWith(parent, live, path, c, n);
      assert Under(path, c, a) by {
        if j > 0 {
          assert path[a][0] == c;
        }
      }
      assert path'[a] == up + path[n][..j] == path'[n][..i];
    }
  }

  /** Hanging a top node below a node that is not under it creates no cycle. */
  lemma {:induction false} HungAcyclic(parent: Field, live: set<Ptr>, path: Paths, p: Ptr, c: Ptr)
    requires CanHang(parent, live, path, p, c)
    ensures Acyclic(parent[c := p], live, Hung(path, p, c))
  {
    hide PathOk, PrefixOk;
    var path' := Hung(path, p, c);
    forall n | n in live ensures PathOk(parent[c := p], live, path', n) {
      HungPath(parent, live, path, p, c, n);
    }
    forall n, i | n in live && 0 <= i < |path'[n]| ensures PrefixOk(live, path', n, i) {
      HungPrefix(parent, live, path, p, c, n, i);
    }
  }

  // ---- Creating and freeing nodes -------------------------------------------------------------

  function Extended(m: Links, n: Ptr): Links {
    Links(m.parent[n := NULL], m.prev[n := NULL], m.next[n := NULL], m.first[n := NULL], m.last[n := NULL])
  }

  lemma {:induction false} ExtendedAt(m: Links, live: set<Ptr>, n: Ptr, x: Ptr)
    requires Covers(m, live) && n !in live && n != NULL && x in live
    ensures var m' := Extended(m, n);
            && Covers(m', live + {n})
            && m'.parent[x] == m.parent[x] && m'.prev[x] == m.prev[x] && m'.next[x] == m.next[x]
            && m'.first[x] == m.first[x] && m'.last[x] == m.last[x]
  {
  }

  lemma {:induction false} ExtendedOld(m: Links, live: set<Ptr>, kids: Lists, n: Ptr, x: Ptr)
    requires Represents(m, live, kids) && n !in live && n != NULL && x in live
    ensures Covers(Extended(m, n), live + {n})
    ensures ListOk(Extended(m, n), live + {n}, x, kids[x]) && NodeOk(Extended(m, n), live + {n}, kids[n := []], x)
  {
    hide Extended;
    var m', live' := Extended(m, n), live + {n};
    var s := kids[x];
    ExtendedAt(m, live, n, x);
    assert ListOk(m, live, x, s) && NodeOk(m, live, kids, x);
    forall i | 0 <= i < |s| ensures ChildOk(m', live', x, s, i) {
      assert ChildOk(m, live, x, s, i);
      ExtendedAt(m, live, n, s[i]);
    }
  }

  lemma {:induction false} ExtendedNew(m: Links, live: set<Ptr>, kids: Lists, n: Ptr)
    requires Covers(m, live) && kids.Keys == live && n != NULL
    ensures Covers(Extended(m, n), live + {n})
    ensures ListOk(Extended(m, n), live + {n}, n, []) && NodeOk(Extended(m, n), live + {n}, kids[n := []], n)
  {
  }

  lemma {:induction false} ExtendRepresents(m: Links, live: set<Ptr>, kids: Lists, n: Ptr)
    requires Represents(m, live, kids) && n !in live && n != NULL
    ensures Represents(Extended(m, n), live + {n}, kids[n := []])
  {
    hide ListOk, NodeOk, Extended;
    var m', live', kids' := Extended(m, n), live + {n}, kids[n := []];
    ExtendedNew(m, live, kids, n);
    forall x | x in live' ensures ListOk(m', live', x, kids'[x]) && NodeOk(m', live', kids', x) {
      if x != n {
        ExtendedOld(m, live, kids, n, x);
      }
    }
  }

  lemma {:induction false} ExtendAcyclic(parent: Field, live: set<Ptr>, path: Paths, n: Ptr)
    requires Acyclic(parent, live, path) && n !in live && n != NULL
    ensures Acyclic(parent[n := NULL], live + {n}, path[n := []])
  {
    var parent', live', path' := parent[n := NULL], live + {n}, path[n := []];
    forall x, i | x in live' && 0 <= i < |path'[x]| ensures PrefixOk(live', path', x, i) {
      assert PrefixOk(live, path, x, i);
    }
    forall x | x in live' ensures PathOk(parent', live', path', x) {
      if x != n {
        assert PathOk(parent, live, path, x);
      }
    }
  }

  function Restricted(m: Links, n: Ptr): Links {
    Links(m.parent - {n}, m.prev - {n}, m.next - {n}, m.first - {n}, m.last - {n})
  }

  /** n is nobody's child and has no children. */
  ghost predicate CanFree(m: Links, live: set<Ptr>, kids: Lists, n: Ptr) {
    Represents(m, live, kids) && n in live && m.parent[n] == NULL && kids[n] == []
  }

  lemma {:induction false} FreeRepresents(m: Links, live: set<Ptr>, kids: Lists, n: Ptr)
    requires CanFree(m, live, kids, n)
    ensures Represents(Restricted(m, n), live - {n}, kids - {n})
  {
    var m', live', kids' := Restricted(m, n), live - {n}, kids - {n};
    forall x | x in live' ensures ListOk(m', live', x, kids'[x]) && NodeOk(m', live', kids', x) {
      var s := kids[x];
      forall i | 0 <= i < |s| ensures ChildOk(m', live', x, s, i) {
        assert ChildOk(m, live, x, s, i);
      }
      assert NodeOk(m, live, kids, x);
    }
  }

  /** A node with something below it has children. */
  lemma {:induction false} AncestorHasChildren(m: Links, live: set<Ptr>, kids: Lists, path: Paths, n: Ptr, x: Ptr)
    requires Represents(m, live, kids) && Acyclic(m.parent, live, path) && n in live && x in live && n in path[x]
    ensures kids[n] != []
  {
    hide ListOk;
    PositionOn(m.parent, live, path, n, x);
    var i := |path[n]|;
    var y := if i + 1 < |path[x]| then path[x][i + 1] else x;
    if i + 1 < |path[x]| {
      assert PrefixOk(live, path, x, i + 1);
    }
    assert PathOk(m.parent, live, path, y);
    assert path[y][|path[y]| - 1] == n;
    var s := kids[y];
    assert NodeOk(m, live, kids, y);
    assert y in kids[n];
  }

  lemma {:induction false} FreeAcyclic(m: Links, live: set<Ptr>, kids: Lists, path: Paths, n: Ptr)
    requires CanFree(m, live, kids, n) && Acyclic(m.parent, live, path)
    ensures Acyclic(m.parent - {n}, live - {n}, path - {n})
  {
    hide Represents;
    var parent', live', path' := m.parent - {n}, live - {n}, path - {n};
    forall x, i | x in live' && 0 <= i < |path'[x]| ensures PrefixOk(live', path', x, i) {
      assert PrefixOk(live, path, x, i);
      if n in path[x] {
        AncestorHasChildren(m, live, kids, path, n, x);
        assert false;
      }
    }
    forall x | x in live' ensures PathOk(parent', live', path', x) {
      assert PathOk(m.parent, live, path, x);
      if n in path[x] {
        AncestorHasChildren(m, live, kids, path, n, x);
        assert false;
      }
    }
  }

  /** No assignment of ancestors fits the parent pointers. */
  ghost predicate Cyclic(parent: Field, live: set<Ptr>) {
    forall path: Paths :: !Acyclic(parent, live, path)
  }

  /** What is below c stays below it when c gets another parent. */
  lemma {:induction false} StaysUnder(parent: Field, live: set<Ptr>, path: Paths, path': Paths, p: Ptr, c: Ptr, n: Ptr)
    requires Acyclic(parent, live, path) && Acyclic(parent[c := p], live, path') && c in live && n in live
    requires Under(path, c, n)
    ensures Under(path', c, n)
    decreases |path[n]|
  {
    if n != c {
      UnderParent(parent, live, path, c, n);
      assert PathOk(parent, live, path, n);
      assert PathOk(parent[c := p], live, path', n);
      StaysUnder(parent, live, path, path', p, c, parent[n]);
    }
  }

  lemma {:induction false} HungFits(parent: Field, live: set<Ptr>, path: Paths, path': Paths, p: Ptr, c: Ptr)
    requires Acyclic(parent, live, path) && Acyclic(parent[c := p], live, path') && c in live && p in live
    ensures !Under(path, c, p)
  {
    assert PathOk(parent[c := p], live, path', c);
    if Under(path, c, p) {
      StaysUnder(parent, live, path, path', p, c, p);
    }
  }

  /** Hanging a node below one that is under it makes a cycle. */
  lemma {:induction false} HungCyclic(parent: Field, live: set<Ptr>, path: Paths, p: Ptr, c: Ptr)
    requires Acyclic(parent, live, path) && c in live && p in live && Under(path, c, p)
    ensures Cyclic(parent[c := p], live)
  {
    hide Acyclic;
    var parent' := parent[c := p];
    forall path': Paths ensures !Acyclic(parent', live, path') {
      if Acyclic(parent', live, path') {
        HungFits(parent, live, path, path', p, c);
      }
    }
  }

  // ---- Cutting and pasting ----------------------------------------------------------------------

  ghost function IndexOf(s: seq<Ptr>, x: Ptr): (i: nat)
    requires x in s
    ensures i < |s| && s[i] == x
  {
    if s[0] == x then 0 else 1 + IndexOf(s[1..], x)
  }

  ghost function Minus(s: seq<Ptr>, x: Ptr): seq<Ptr> {
    if x in s then Without(s, IndexOf(s, x)) else s
  }

  /** The lists after c has left the list that it is in. */
  ghost function Cut(kids: Lists, parent: Field, c: Ptr): Lists
    requires c in parent
  {
    var p := parent[c];
    if p == NULL || p !in kids then kids else kids[p := Minus(kids[p], c)]
  }

  /** The lists after c has then been put into the list of p, before index k. */
  ghost function Paste(kids: Lists, p: Ptr, k: nat, c: Ptr): Lists
    requires p in kids && k <= |kids[p]|
  {
    kids[p := Inserted(kids[p], k, c)]
  }

  /** A node with a parent is a child of it, and not its own parent. */
  lemma {:induction false} ChildOfParent(m: Links, live: set<Ptr>, kids: Lists, path: Paths, c: Ptr)
    requires Represents(m, live, kids) && Acyclic(m.parent, live, path) && c in live && m.parent[c] != NULL
    ensures var p := m.parent[c];
            p in live && c in kids[p] && IsChild(live, kids, p, IndexOf(kids[p], c), c)
  {
    hide Represents, ListOk;
    RepresentsFacts(m, live, kids, c);
    assert PathOk(m.parent, live, path, c);
    var p := m.parent[c];
    assert path[c][|path[c]| - 1] == p;
  }

  /** Losing its parent does not change what is below a node. */
  lemma {:induction false} RootedUnder(parent: Field, live: set<Ptr>, path: Paths, c: Ptr, n: Ptr)
    requires Acyclic(parent, live, path) && c in live && n in live
    ensures Under(Rooted(path, c), c, n) <==> Under(path, c, n)
    ensures !Under(path, c, n) ==> Rooted(path, c)[n] == path[n]
  {
    if c in path[n] {
      PositionOn(parent, live, path, c, n);
      assert Rooted(path, c)[n][0] == c;
    }
  }

  /** What is below a child is below its parent, and the parent is not. */
  lemma {:induction false} UnderChild(parent: Field, live: set<Ptr>, path: Paths, c: Ptr, n: Ptr)
    requires Acyclic(parent, live, path) && c in live && n in live && parent[c] != NULL && Under(path, c, n)
    ensures parent[c] in live && parent[c] in path[n] && n != parent[c]
  {
    assert PathOk(parent, live, path, c);
    var p := parent[c];
    if n != c {
      PositionOn(parent, live, path, c, n);
      assert path[n][|path[p]|] == path[n][..|path[c]|][|path[p]|] == p;
    }
    assert PathOk(parent, live, path, n);
  }
}
