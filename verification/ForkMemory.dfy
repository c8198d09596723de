/**
 Copy-on-write forks of a master machine. Page tables refer to page data by reference, so that
 sharing between the master and its forks is explicit; the master does not run while it has forks.
 */
module ForkMemory {
  import opened Bytes

  const PAGE_SIZE: nat := 4096

  type Ref = nat

  type Data = seq<byte>

  /** The static zeroed page that stands for every page a master does not have. */
  const ZERO_PAGE: Ref := 0

  datatype Attr = Attr(read: bool, write: bool, isCow: bool, nonOwning: bool)

  datatype Page = Page(attr: Attr, data: Ref)

  type Table = map<nat, Page>

  /**
   Where page data may come from: the request's workspace, or the heap while the owned pages take
   less than maxMemory bytes (Script); or the heap while fewer than maxPages were taken, where zero
   means any number (libriscv_fast_fork).
   */
  datatype Budget = Workspace(maxMemory: nat) | Counted(maxPages: nat, count: nat)

  datatype Fork = Fork(pages: Table, budget: Budget)

  datatype Slot = Slot(fork: nat, page: nat)

  /** owner records for which page-table entry a fork allocated page data; the master's has no owner. */
  datatype World = World(store: map<Ref, Data>, owner: map<Ref, Slot>, master: Table, forks: map<nat, Fork>)

  datatype Outcome = Success | ProtectionFault | OutOfMemory

  function Zeros(): Data {
    seq(PAGE_SIZE, _ => 0)
  }

  function Load(store: map<Ref, Data>, r: Ref): Data {
    if r in store then store[r] else []
  }

  /** The master's page, as its own page table and read handler give it. */
  function ParentPage(master: Table, n: nat): Page {
    if n in master then master[n] else Page(Attr(true, false, true, false), ZERO_PAGE)
  }

  /** What the read handler installs: copy-on-write exactly if the master could write. */
  function Loaned(p: Page): Page {
    Page(Attr(p.attr.read, false, p.attr.write, true), p.data)
  }

  ghost function Owned(pages: Table): set<nat> {
    set n | n in pages && !pages[n].attr.nonOwning
  }

  /** Whether page data can be had, and whether it is then owned by someone else. */
  ghost function Grant(fork: Fork, workspace: bool): Option<bool> {
    match fork.budget
    case Workspace(max) =>
      if workspace then Some(true) else if |Owned(fork.pages)| * PAGE_SIZE < max then Some(false) else None
    case Counted(max, count) =>
      if max > 0 && count >= max then None else Some(false)
  }

  function Spent(b: Budget): Budget {
    match b
    case Workspace(_) => b
    case Counted(max, count) => Counted(max, count + 1)
  }

  /** A page with data of its own enters the table of f. */
  function Placed(w: World, f: nat, n: nat, page: Page, data: Data): World
    requires f in w.forks
  {
    var fork := w.forks[f];
    World(w.store[page.data := data], w.owner[page.data := Slot(f, n)], w.master,
          w.forks[f := Fork(fork.pages[n := page], Spent(fork.budget))])
  }

  /** Memory::create_writable_pageno with the fork's fault and write handlers. */
  ghost function Acquired(w: World, f: nat, n: nat, r: Ref, workspace: bool): (World, Outcome)
    requires f in w.forks
  {
    var fork := w.forks[f];
    var grant := Grant(fork, workspace);
    if n in fork.pages then
      var p := fork.pages[n];
      if p.attr.write then (w, Success)
      else if !p.attr.isCow then (w, ProtectionFault)
      else if grant == None then (w, OutOfMemory)
      else (Placed(w, f, n, Page(Attr(p.attr.read, true, false, grant.value), r), Load(w.store, p.data)), Success)
    else if grant == None then (w, OutOfMemory)
    else (Placed(w, f, n, Page(Attr(true, true, false, grant.value), r), Zeros()), Success)
  }

  function Patched(data: Data, off: nat, bytes: Data): Data {
    if off + |bytes| <= |data| then data[..off] + bytes + data[off + |bytes|..] else data
  }

  function Stored(w: World, f: nat, n: nat, off: nat, bytes: Data): World
    requires f in w.forks && n in w.forks[f].pages
  {
    var r := w.forks[f].pages[n].data;
    w.(store := w.store[r := Patched(Load(w.store, r), off, bytes)])
  }

  /** Memory::get_pageno with the fork's read handler. */
  function Resolved(w: World, f: nat, n: nat): World
    requires f in w.forks
  {
    var fork := w.forks[f];
    if n in fork.pages then w
    else w.(forks := w.forks[f := fork.(pages := fork.pages[n := Loaned(ParentPage(w.master, n))])])
  }

  function Private(w: World, f: nat): set<Ref> {
    set r | r in w.owner && w.owner[r].fork == f
  }

  function Destroyed(w: World, f: nat): World {
    World(w.store - Private(w, f), w.owner - Private(w, f), w.master, w.forks - {f})
  }

  /** One operation of one fork; ref is where new page data would be placed. */
  datatype Op =
    | Create(fork: nat, budget: Budget)
    | Destroy(fork: nat)
    | Read(fork: nat, page: nat)
    | Write(fork: nat, page: nat, off: nat, bytes: Data, ref: Ref, workspace: bool)

  ghost predicate Enabled(w: World, op: Op) {
    match op
    case Create(f, b) => f !in w.forks && (b.Counted? ==> b.count == 0)
    case Destroy(f) => f in w.forks
    case Read(f, _) => f in w.forks
    case Write(f, _, off, bytes, ref, _) => f in w.forks && off + |bytes| <= PAGE_SIZE && ref !in w.store
  }

  ghost function Step(w: World, op: Op): World
    requires Enabled(w, op)
  {
    match op
    case Create(f, b) => w.(forks := w.forks[f := Fork(map[], b)])
    case Destroy(f) => Destroyed(w, f)
    case Read(f, n) => Resolved(w, f, n)
    case Write(f, n, off, bytes, ref, workspace) =>
      var (w', outcome) := Acquired(w, f, n, ref, workspace);
      if outcome == Success then Stored(w', f, n, off, bytes) else w'
  }

  /** What a page holds as a fork sees it, and as the master does. */
  function MasterAt(w: World, n: nat): Data {
    Load(w.store, ParentPage(w.master, n).data)
  }

  function ViewAt(w: World, f: nat, n: nat): Data {
    if f in w.forks && n in w.forks[f].pages then Load(w.store, w.forks[f].pages[n].data) else MasterAt(w, n)
  }

  // ---- The invariant -----------------------------------------------------------------------------

  ghost predicate StoreOk(w: World) {
    && ZERO_PAGE in w.store && w.store[ZERO_PAGE] == Zeros() && ZERO_PAGE !in w.owner && w.owner.Keys <= w.store.Keys
    && (forall r | r in w.store :: |w.store[r]| == PAGE_SIZE)
    && (forall n | n in w.master :: w.master[n].data in w.store && w.master[n].data !in w.owner)
  }

  /** A page that f can write has data of its own; any other is the master's. */
  ghost predicate PageOk(owner: map<Ref, Slot>, master: Table, f: nat, pages: Table, n: nat)
    requires n in pages
  {
    var p := pages[n];
    if p.attr.write then p.data in owner && owner[p.data] == Slot(f, n) && !p.attr.isCow
    else p == Loaned(ParentPage(master, n))
  }

  ghost predicate BudgetOk(fork: Fork) {
    match fork.budget
    case Workspace(max) => |Owned(fork.pages)| == 0 || (|Owned(fork.pages)| - 1) * PAGE_SIZE < max
    case Counted(max, count) => count == |Owned(fork.pages)| && (max > 0 ==> count <= max)
  }

  ghost predicate ForkOk(owner: map<Ref, Slot>, master: Table, f: nat, fork: Fork) {
    && BudgetOk(fork)
    && forall n | n in fork.pages :: PageOk(owner, master, f, fork.pages, n)
  }

  ghost predicate Inv(w: World) {
    && StoreOk(w)
    && forall f | f in w.forks :: ForkOk(w.owner, w.master, f, w.forks[f])
  }

  lemma {:induction false} ParentShared(w: World, n: nat)
    requires StoreOk(w)
    ensures var r := ParentPage(w.master, n).data; r in w.store && r !in w.owner
  {
  }

  /** The page data that f sees at n is in the store; it is its own, or nobody's. */
  lemma {:induction false} PageFacts(w: World, f: nat, n: nat)
    requires Inv(w) && f in w.forks && n in w.forks[f].pages
    ensures var p := w.forks[f].pages[n];
            && p.data in w.store
            && (p.attr.write ==> p.data in w.owner && w.owner[p.data] == Slot(f, n) && !p.attr.isCow)
            && (!p.attr.write ==> p == Loaned(ParentPage(w.master, n)) && p.data !in w.owner)
  {
    assert ForkOk(w.owner, w.master, f, w.forks[f]);
    assert PageOk(w.owner, w.master, f, w.forks[f].pages, n);
    ParentShared(w, n);
  }

  lemma {:induction false} GrantKeepsBudget(fork: Fork, workspace: bool, n: nat, page: Page)
    requires BudgetOk(fork) && Grant(fork, workspace) == Some(page.attr.nonOwning)
    requires n in fork.pages ==> fork.pages[n].attr.nonOwning
    ensures BudgetOk(Fork(fork.pages[n := page], Spent(fork.budget)))
  {
    var pages' := fork.pages[n := page];
    if page.attr.nonOwning {
      assert Owned(pages') == Owned(fork.pages);
    } else {
      assert Owned(pages') == Owned(fork.pages) + {n};
    }
  }

  lemma {:induction false} PlacedInv(w: World, f: nat, n: nat, page: Page, data: Data, workspace: bool)
    requires Inv(w) && f in w.forks && page.data !in w.store && |data| == PAGE_SIZE
    requires page.attr.write && !page.attr.isCow && Grant(w.forks[f], workspace) == Some(page.attr.nonOwning)
    requires n in w.forks[f].pages ==> !w.forks[f].pages[n].attr.write
    ensures Inv(Placed(w, f, n, page, data))
  {
    var w', fork := Placed(w, f, n, page, data), w.forks[f];
    assert ForkOk(w.owner, w.master, f, fork);
    if n in fork.pages {
      PageFacts(w, f, n);
    }
    GrantKeepsBudget(fork, workspace, n, page);
    forall g | g in w'.forks ensures ForkOk(w'.owner, w'.master, g, w'.forks[g]) {
      if g in w.forks {
        assert ForkOk(w.owner, w.master, g, w.forks[g]);
      }
      forall m | m in w'.forks[g].pages ensures PageOk(w'.owner, w'.master, g, w'.forks[g].pages, m) {
        if Slot(g, m) != Slot(f, n) {
          PageFacts(w, g, m);
        }
      }
    }
  }

  lemma {:induction false} StoredInv(w: World, f: nat, n: nat, off: nat, bytes: Data)
    requires Inv(w) && f in w.forks && n in w.forks[f].pages && w.forks[f].pages[n].attr.write
    requires off + |bytes| <= PAGE_SIZE
    ensures Inv(Stored(w, f, n, off, bytes))
  {
    PageFacts(w, f, n);
  }

  lemma {:induction false} ResolvedFork(w: World, f: nat, n: nat)
    requires f in w.forks && n !in w.forks[f].pages && ForkOk(w.owner, w.master, f, w.forks[f])
    ensures var w' := Resolved(w, f, n);
            && w'.owner == w.owner && w'.master == w.master && w'.store == w.store
            && w'.forks == w.forks[f := w'.forks[f]] && ForkOk(w.owner, w.master, f, w'.forks[f])
  {
    var fork, page := w.forks[f], Loaned(ParentPage(w.master, n));
    var pages' := fork.pages[n := page];
    assert Owned(pages') == Owned(fork.pages);
    forall m | m in pages' ensures PageOk(w.owner, w.master, f, pages', m) {
      if m != n {
        assert PageOk(w.owner, w.master, f, fork.pages, m);
      }
    }
  }

  lemma {:induction false} ResolvedInv(w: World, f: nat, n: nat)
    requires Inv(w) && f in w.forks
    ensures Inv(Resolved(w, f, n))
  {
    hide ForkOk;
    if n !in w.forks[f].pages {
      ResolvedFork(w, f, n);
      hide Resolved;
    }
  }

  lemma {:induction false} DestroyedInv(w: World, f: nat)
    requires Inv(w) && f in w.forks
    ensures Inv(Destroyed(w, f))
  {
    var w' := Destroyed(w, f);
    forall g | g in w'.forks ensures ForkOk(w'.owner, w'.master, g, w'.forks[g]) {
      assert ForkOk(w.owner, w.master, g, w.forks[g]);
      forall m | m in w'.forks[g].pages ensures PageOk(w'.owner, w'.master, g, w'.forks[g].pages, m) {
        PageFacts(w, g, m);
      }
    }
  }

  lemma {:induction false} AcquiredInv(w: World, f: nat, n: nat, r: Ref, workspace: bool)
    requires Inv(w) && f in w.forks && r !in w.store
    ensures var (w', outcome) := Acquired(w, f, n, r, workspace);
            && Inv(w') && (outcome != Success ==> w' == w)
            && (outcome == Success ==> f in w'.forks && n in w'.forks[f].pages && w'.forks[f].pages[n].attr.write)
  {
    hide Inv, Placed, Grant;
    var fork := w.forks[f];
    var grant := Grant(fork, workspace);
    if n in fork.pages {
      PageFacts(w, f, n);
      StoreFacts(w, fork.pages[n].data);
      if !fork.pages[n].attr.write && fork.pages[n].attr.isCow && grant.Some? {
        var page := Page(Attr(fork.pages[n].attr.read, true, false, grant.value), r);
        PlacedInv(w, f, n, page, Load(w.store, fork.pages[n].data), workspace);
        PlacedAt(w, f, n, page, Load(w.store, fork.pages[n].data));
      }
    } else if grant.Some? {
      PlacedInv(w, f, n, Page(Attr(true, true, false, grant.value), r), Zeros(), workspace);
      PlacedAt(w, f, n, Page(Attr(true, true, false, grant.value), r), Zeros());
    }
  }

  lemma {:induction false} StoreFacts(w: World, r: Ref)
    requires Inv(w) && r in w.store
    ensures |w.store[r]| == PAGE_SIZE
  {
  }

  lemma {:induction false} PlacedAt(w: World, f: nat, n: nat, page: Page, data: Data)
    requires f in w.forks
    ensures var w' := Placed(w, f, n, page, data);
            f in w'.forks && n in w'.forks[f].pages && w'.forks[f].pages[n] == page
  {
  }

  /** Every operation keeps the invariant. */
  lemma {:induction false} StepInv(w: World, op: Op)
    requires Inv(w) && Enabled(w, op)
    ensures Inv(Step(w, op))
  {
    match op
    case Create(f, b) =>
      assert Owned(map[]) == {};
    case Destroy(f) =>
      DestroyedInv(w, f);
    case Read(f, n) =>
      ResolvedInv(w, f, n);
    case Write(f, n, off, bytes, ref, workspace) =>
      hide Inv, Acquired;
      AcquiredInv(w, f, n, ref, workspace);
      var (w', outcome) := Acquired(w, f, n, ref, workspace);
      if outcome == Success {
        StoredInv(w', f, n, off, bytes);
      }
  }

  // ---- What the forks and the master see -----------------------------------------------------------

  lemma {:induction false} PlacedView(w: World, f: nat, n: nat, page: Page, data: Data, g: nat, m: nat)
    requires Inv(w) && f in w.forks && page.data !in w.store
    ensures var w' := Placed(w, f, n, page, data);
            && MasterAt(w', m) == MasterAt(w, m)
            && ViewAt(w', g, m) == if Slot(g, m) == Slot(f, n) then data else ViewAt(w, g, m)
  {
    ParentShared(w, m);
    if g in w.forks && m in w.forks[g].pages {
      PageFacts(w, g, m);
    }
  }

  lemma {:induction false} StoredView(w: World, f: nat, n: nat, off: nat, bytes: Data, g: nat, m: nat)
    requires Inv(w) && f in w.forks && n in w.forks[f].pages && w.forks[f].pages[n].attr.write
    ensures var w' := Stored(w, f, n, off, bytes);
            && MasterAt(w', m) == MasterAt(w, m)
            && ViewAt(w', g, m) ==
               if Slot(g, m) == Slot(f, n) then Patched(ViewAt(w, f, n), off, bytes) else ViewAt(w, g, m)
  {
    ParentShared(w, m);
    PageFacts(w, f, n);
    if g in w.forks && m in w.forks[g].pages {
      PageFacts(w, g, m);
    }
  }

  lemma {:induction false} AcquiredView(w: World, f: nat, n: nat, r: Ref, workspace: bool, g: nat, m: nat)
    requires Inv(w) && f in w.forks && r !in w.store
    ensures var (w', outcome) := Acquired(w, f, n, r, workspace);
            && MasterAt(w', m) == MasterAt(w, m)
            && ViewAt(w', g, m) ==
               if outcome == Success && Slot(g, m) == Slot(f, n) && n !in w.forks[f].pages then Zeros()
               else ViewAt(w, g, m)
  {
    hide Inv, Placed, Grant, Zeros;
    var fork := w.forks[f];
    var grant := Grant(fork, workspace);
    if n in fork.pages && grant.Some? {
      PlacedView(w, f, n, Page(Attr(fork.pages[n].attr.read, true, false, grant.value), r),
                 Load(w.store, fork.pages[n].data), g, m);
    } else if grant.Some? {
      PlacedView(w, f, n, Page(Attr(true, true, false, grant.value), r), Zeros(), g, m);
    }
  }

  lemma {:induction false} DestroyedView(w: World, f: nat, g: nat, m: nat)
    requires Inv(w)
    ensures var w' := Destroyed(w, f);
            MasterAt(w', m) == MasterAt(w, m) && (g != f ==> ViewAt(w', g, m) == ViewAt(w, g, m))
  {
    ParentShared(w, m);
    if g in w.forks && m in w.forks[g].pages {
      PageFacts(w, g, m);
    }
  }

  /** What a write does: a page that the fork had not touched before is zeroed first. */
  ghost function Before(w: World, f: nat, n: nat): Data {
    if f in w.forks && n in w.forks[f].pages then ViewAt(w, f, n) else Zeros()
  }

  ghost predicate Writes(w: World, op: Op)
    requires Enabled(w, op)
  {
    op.Write? && Acquired(w, op.fork, op.page, op.ref, op.workspace).1 == Success
  }

  /** The master's pages never change, nor do the pages of any fork but the one that writes. */
  lemma {:induction false} StepViews(w: World, op: Op, g: nat, m: nat)
    requires Inv(w) && Enabled(w, op)
    ensures Step(w, op).master == w.master && MasterAt(Step(w, op), m) == MasterAt(w, m)
    ensures !(g == op.fork && op.Destroy?) ==>
              ViewAt(Step(w, op), g, m) ==
              if Writes(w, op) && Slot(g, m) == Slot(op.fork, op.page)
              then Patched(Before(w, g, m), op.off, op.bytes)
              else ViewAt(w, g, m)
  {
    hide Inv;
    match op
    case Create(f, b) =>
    case Destroy(f) =>
      DestroyedView(w, f, g, m);
    case Read(f, n) =>
    case Write(f, n, off, bytes, ref, workspace) =>
      hide Acquired, ViewAt, MasterAt, Stored, Patched;
      AcquiredMaster(w, f, n, ref, workspace);
      AcquiredInv(w, f, n, ref, workspace);
      AcquiredView(w, f, n, ref, workspace, g, m);
      var (w', outcome) := Acquired(w, f, n, ref, workspace);
      if outcome == Success {
        StoredMaster(w', f, n, off, bytes);
        StoredView(w', f, n, off, bytes, g, m);
      }
  }

  lemma {:induction false} AcquiredMaster(w: World, f: nat, n: nat, r: Ref, workspace: bool)
    requires f in w.forks
    ensures Acquired(w, f, n, r, workspace).0.master == w.master
  {
  }

  lemma {:induction false} StoredMaster(w: World, f: nat, n: nat, off: nat, bytes: Data)
    requires f in w.forks && n in w.forks[f].pages
    ensures Stored(w, f, n, off, bytes).master == w.master
  {
  }

  ghost predicate ZeroOutside(data: Data, off: nat, len: nat) {
    forall i | 0 <= i < |data| && !(off <= i < off + len) :: data[i] == 0
  }

  /**
   A write overlays the fork's view with the bytes written exactly if the fork has the page already,
   or the rest of the page is zero in the master.
   */
  lemma {:induction false} WriteOverlays(w: World, op: Op)
    requires Inv(w) && Enabled(w, op) && Writes(w, op)
    ensures ViewAt(Step(w, op), op.fork, op.page) == Patched(ViewAt(w, op.fork, op.page), op.off, op.bytes)
            <==> op.page in w.forks[op.fork].pages || ZeroOutside(MasterAt(w, op.page), op.off, |op.bytes|)
  {
    hide Step, Acquired;
    var f, n := op.fork, op.page;
    StepViews(w, op, f, n);
    if n !in w.forks[f].pages {
      ParentShared(w, n);
      PatchZeros(MasterAt(w, n), op.off, op.bytes);
    }
  }

  lemma {:induction false} PatchZeros(data: Data, off: nat, bytes: Data)
    requires |data| == PAGE_SIZE && off + |bytes| <= PAGE_SIZE
    ensures Patched(Zeros(), off, bytes) == Patched(data, off, bytes) <==> ZeroOutside(data, off, |bytes|)
  {
    var a, b := Patched(Zeros(), off, bytes), Patched(data, off, bytes);
    if a == b {
      forall i | 0 <= i < |data| && !(off <= i < off + |bytes|) ensures data[i] == 0 {
        assert data[i] == b[i] == a[i];
      }
    }
  }

  /** A write is refused exactly if the fork has the page, has no copy, and the master may not write it. */
  lemma {:induction false} WriteRefused(w: World, op: Op)
    requires Inv(w) && Enabled(w, op) && op.Write?
    ensures var pages := w.forks[op.fork].pages;
            Acquired(w, op.fork, op.page, op.ref, op.workspace).1 == ProtectionFault
            <==> op.page in pages && !pages[op.page].attr.write && !ParentPage(w.master, op.page).attr.write
  {
    hide Inv;
    if op.page in w.forks[op.fork].pages {
      PageFacts(w, op.fork, op.page);
    }
  }

  /** Looking at a page that the master lacks makes it read-only for good; writing it first does not. */
  lemma {:induction false} ReadDecidesWrite(w: World, f: nat, n: nat, r: Ref, workspace: bool)
    requires Inv(w) && f in w.forks && n !in w.master && n !in w.forks[f].pages && r !in w.store
    ensures Acquired(Resolved(w, f, n), f, n, r, workspace).1 == ProtectionFault
    ensures Acquired(w, f, n, r, workspace).1 != ProtectionFault
  {
    hide Inv;
    assert n in Resolved(w, f, n).forks[f].pages;
  }

  // ---- Runs ---------------------------------------------------------------------------------------

  ghost predicate Legal(w: World, ops: seq<Op>)
    decreases ops
  {
    ops == [] || (Enabled(w, ops[0]) && Legal(Step(w, ops[0]), ops[1..]))
  }

  ghost function Run(w: World, ops: seq<Op>): World
    requires Legal(w, ops)
    decreases ops
  {
    if ops == [] then w else Run(Step(w, ops[0]), ops[1..])
  }

  /** Whatever the forks do, in whatever order, the master's memory stays as it is. */
  lemma {:induction false} MasterUnchanged(w: World, ops: seq<Op>)
    requires Inv(w) && Legal(w, ops)
    ensures Inv(Run(w, ops)) && Run(w, ops).master == w.master
    ensures forall n :: MasterAt(Run(w, ops), n) == MasterAt(w, n)
    decreases ops
  {
    hide Inv, Step, Enabled, MasterAt;
    if ops != [] {
      var w' := Step(w, ops[0]);
      StepInv(w, ops[0]);
      forall n ensures w'.master == w.master && MasterAt(w', n) == MasterAt(w, n) {
        StepViews(w, ops[0], 0, n);
      }
      MasterUnchanged(w', ops[1..]);
      assert w'.master == w.master by {
        StepViews(w, ops[0], 0, 0);
      }
    }
  }

  datatype Edit = Edit(off: nat, bytes: Data)

  /** The writes of f to page n that took place, in order. */
  ghost function Edits(w: World, ops: seq<Op>, f: nat, n: nat): seq<Edit>
    requires Legal(w, ops)
    decreases ops
  {
    if ops == [] then []
    else
      var rest := Edits(Step(w, ops[0]), ops[1..], f, n);
      if Writes(w, ops[0]) && ops[0].fork == f && ops[0].page == n
      then [Edit(ops[0].off, ops[0].bytes)] + rest
      else rest
  }

  ghost function Overlay(data: Data, edits: seq<Edit>): Data
    decreases edits
  {
    if edits == [] then data else Overlay(Patched(data, edits[0].off, edits[0].bytes), edits[1..])
  }

  /** The writes of f go to pages that it has, or whose rest is zero in the master; and f lives on. */
  ghost predicate Faithful(w: World, ops: seq<Op>, f: nat)
    requires Legal(w, ops)
    decreases ops
  {
    ops == [] ||
    (&& !(ops[0].Destroy? && ops[0].fork == f)
     && (Writes(w, ops[0]) && ops[0].fork == f ==>
           ops[0].page in w.forks[f].pages || ZeroOutside(MasterAt(w, ops[0].page), ops[0].off, |ops[0].bytes|))
     && Faithful(Step(w, ops[0]), ops[1..], f))
  }

  lemma {:induction false} RunView(w: World, ops: seq<Op>, f: nat, n: nat)
    requires Inv(w) && Legal(w, ops) && Faithful(w, ops, f)
    ensures ViewAt(Run(w, ops), f, n) == Overlay(ViewAt(w, f, n), Edits(w, ops, f, n))
    decreases ops
  {
    hide Inv, Step, Enabled, MasterAt, ViewAt, Acquired, Patched, ZeroOutside;
    if ops != [] {
      var op, w' := ops[0], Step(w, ops[0]);
      StepInv(w, op);
      StepViews(w, op, f, n);
      RunView(w', ops[1..], f, n);
      if Writes(w, op) && op.fork == f && op.page == n {
        WriteOverlays(w, op);
        var edit, rest := Edit(op.off, op.bytes), Edits(w', ops[1..], f, n);
        assert ([edit] + rest)[1..] == rest;
      }
    }
  }

  /** A fork sees the master as it was when the fork was created, overlaid with its own writes only. */
  lemma {:induction false} ForkIsOverlay(w: World, f: nat, budget: Budget, ops: seq<Op>, n: nat)
    requires Inv(w) && Enabled(w, Create(f, budget))
    requires var w' := Step(w, Create(f, budget)); Legal(w', ops) && Faithful(w', ops, f)
    ensures var w' := Step(w, Create(f, budget));
            ViewAt(Run(w', ops), f, n) == Overlay(MasterAt(w, n), Edits(w', ops, f, n))
  {
    var w' := Step(w, Create(f, budget));
    StepInv(w, Create(f, budget));
    RunView(w', ops, f, n);
  }

  /** After k operations, page n of f is its former content overlaid with the writes so far. */
  ghost predicate OverlaidAt(w: World, ops: seq<Op>, f: nat, k: nat, n: nat)
    requires k <= |ops|
  {
    && Legal(w, ops[..k])
    && ViewAt(Run(w, ops[..k]), f, n) == Overlay(ViewAt(w, f, n), Edits(w, ops[..k], f, n))
  }

  ghost predicate Overlaid(w: World, ops: seq<Op>, f: nat) {
    forall k, n | 0 <= k <= |ops| && 0 <= n :: OverlaidAt(w, ops, f, k, n)
  }

  lemma {:induction false} FaithfulPrefix(w: World, ops: seq<Op>, f: nat, k: nat)
    requires Legal(w, ops) && k <= |ops|
    ensures Legal(w, ops[..k]) && (Faithful(w, ops, f) ==> Faithful(w, ops[..k], f))
    decreases ops
  {
    hide Step, Enabled, Acquired, MasterAt, ZeroOutside;
    if k > 0 {
      assert ops[..k][0] == ops[0] && ops[..k][1..] == ops[1..][..k - 1];
      FaithfulPrefix(Step(w, ops[0]), ops[1..], f, k - 1);
    }
  }

  /** What an operation of a run adds to the writes. */
  ghost function EditOf(w: World, op: Op, f: nat, n: nat): seq<Edit>
    requires Enabled(w, op)
  {
    if Writes(w, op) && op.fork == f && op.page == n then [Edit(op.off, op.bytes)] else []
  }

  lemma {:induction false} OverlayMore(data: Data, a: seq<Edit>, b: seq<Edit>)
    requires |a| <= 1
    ensures Overlay(data, a + b) == Overlay(Overlay(data, a), b)
  {
    hide Patched;
    if a == [] {
      assert a + b == b;
    } else {
      assert (a + b)[1..] == b && a[1..] == [];
    }
  }

  /** The first operation and k more. */
  lemma {:induction false} OverlaidTurn(w: World, ops: seq<Op>, f: nat, k: nat, n: nat)
    requires Inv(w) && Legal(w, ops) && k < |ops|
    ensures Enabled(w, ops[0]) && Legal(Step(w, ops[0]), ops[1..]) && Legal(Step(w, ops[0]), ops[1..][..k])
    ensures var w', data := Step(w, ops[0]), Overlay(ViewAt(w, f, n), EditOf(w, ops[0], f, n));
            OverlaidAt(w, ops, f, k + 1, n)
            <==> ViewAt(Run(w', ops[1..][..k]), f, n) == Overlay(data, Edits(w', ops[1..][..k], f, n))
  {
    hide Inv, Step, Enabled, Acquired, ViewAt;
    var head, w' := ops[..k + 1], Step(w, ops[0]);
    FaithfulPrefix(w, ops, f, k + 1);
    FaithfulPrefix(w', ops[1..], f, k);
    assert head[0] == ops[0] && head[1..] == ops[1..][..k];
    var rest := Edits(w', ops[1..][..k], f, n);
    OverlayMore(ViewAt(w, f, n), EditOf(w, ops[0], f, n), rest);
    assert Edits(w, head, f, n) == EditOf(w, ops[0], f, n) + rest by {
      assert [] + rest == rest;
    }
  }

  lemma {:induction false} OneEdit(data: Data, e: Edit)
    ensures Overlay(data, [e]) == Patched(data, e.off, e.bytes) && Overlay(data, []) == data
  {
    assert [e][1..] == [];
  }

  /** One operation overlays every page of f exactly if it meets the condition of WriteOverlays. */
  lemma {:induction false} StepOverlays(w: World, op: Op, f: nat, n: nat)
    requires Inv(w) && Enabled(w, op) && op != Destroy(f)
    ensures ViewAt(Step(w, op), f, n) == Overlay(ViewAt(w, f, n), EditOf(w, op, f, n))
            <==> !(Writes(w, op) && op.fork == f && op.page == n)
                 || n in w.forks[f].pages || ZeroOutside(MasterAt(w, n), op.off, |op.bytes|)
  {
    hide Inv, Step, Acquired, ViewAt, MasterAt, Patched, ZeroOutside, Overlay;
    StepViews(w, op, f, n);
    if Writes(w, op) && op.fork == f && op.page == n {
      OneEdit(ViewAt(w, f, n), Edit(op.off, op.bytes));
      WriteOverlays(w, op);
    } else {
      OneEdit(ViewAt(w, f, n), Edit(0, []));
    }
  }

  /**
   Throughout a run, whatever it does, each page of a fork is its former content overlaid with the
   fork's own writes, exactly if each of these writes goes to a page that the fork has, or whose rest is
   zero in the master.
   */
  lemma {:induction false} RunOverlays(w: World, ops: seq<Op>, f: nat)
    requires Inv(w) && Legal(w, ops) && Destroy(f) !in ops
    ensures Overlaid(w, ops, f) <==> Faithful(w, ops, f)
    decreases ops
  {
    hide Inv, Step, Enabled, Acquired, ViewAt, MasterAt, ZeroOutside;
    if Faithful(w, ops, f) {
      forall k: nat, n: nat | k <= |ops| ensures OverlaidAt(w, ops, f, k, n) {
        FaithfulPrefix(w, ops, f, k);
        RunView(w, ops[..k], f, n);
      }
    }
    if Overlaid(w, ops, f) && ops != [] {
      var w' := Step(w, ops[0]);
      StepInv(w, ops[0]);
      FirstOverlays(w, ops, f);
      forall k: nat, n: nat | k <= |ops[1..]| ensures OverlaidAt(w', ops[1..], f, k, n) {
        assert OverlaidAt(w, ops, f, k + 1, n);
        OverlaidTurn(w, ops, f, k, n);
      }
      RunOverlays(w', ops[1..], f);
    }
  }

  /** If a run overlays, so does its first operation. */
  lemma {:induction false} FirstOverlays(w: World, ops: seq<Op>, f: nat)
    requires Inv(w) && Legal(w, ops) && Destroy(f) !in ops && ops != [] && Overlaid(w, ops, f)
    ensures Enabled(w, ops[0])
    ensures forall n :: ViewAt(Step(w, ops[0]), f, n) == Overlay(ViewAt(w, f, n), EditOf(w, ops[0], f, n))
    ensures Writes(w, ops[0]) && ops[0].fork == f ==>
              var n := ops[0].page; n in w.forks[f].pages || ZeroOutside(MasterAt(w, n), ops[0].off, |ops[0].bytes|)
  {
    hide Inv, Step, Enabled, Acquired, ViewAt, MasterAt, ZeroOutside;
    var w' := Step(w, ops[0]);
    assert ops[1..][..0] == [];
    forall n ensures ViewAt(w', f, n) == Overlay(ViewAt(w, f, n), EditOf(w, ops[0], f, n)) {
      assert OverlaidAt(w, ops, f, 1, n);
      OverlaidTurn(w, ops, f, 0, n);
    }
    if Writes(w, ops[0]) && ops[0].fork == f {
      StepOverlays(w, ops[0], f, ops[0].page);
    }
  }

  /** From its creation on, a fork sees the master overlaid with its own writes exactly if its run is Faithful. */
  lemma {:induction false} ForkOverlays(w: World, f: nat, budget: Budget, ops: seq<Op>)
    requires Inv(w) && Enabled(w, Create(f, budget)) && Legal(Step(w, Create(f, budget)), ops) && Destroy(f) !in ops
    ensures var w' := Step(w, Create(f, budget));
            (forall n :: ViewAt(w', f, n) == MasterAt(w, n)) && (Overlaid(w', ops, f) <==> Faithful(w', ops, f))
  {
    var w' := Step(w, Create(f, budget));
    StepInv(w, Create(f, budget));
    hide Overlaid, Faithful;
    RunOverlays(w', ops, f);
  }

  /** A fork that writes one byte to a page it has not read loses the rest of the master's page. */
  lemma {:induction false} UnreadPageIsLost(w: World, n: nat)
    requires Inv(w) && w.forks == map[] && n in w.master && MasterAt(w, n)[1] != 0
    requires |MasterAt(w, n)| == PAGE_SIZE && 1 !in w.store
    ensures var ops := [Create(0, Counted(0, 0)), Write(0, n, 0, [7], 1, false)];
            Legal(w, ops) && ViewAt(Run(w, ops), 0, n) == Patched(Zeros(), 0, [7]) != Patched(MasterAt(w, n), 0, [7])
  {
    hide Inv;
    var create, write := Create(0, Counted(0, 0)), Write(0, n, 0, [7], 1, false);
    var ops := [create, write];
    var w1 := Step(w, create);
    assert Enabled(w1, write) && Writes(w1, write);
    assert ops[1..] == [write] && [write][1..] == [];
    assert Legal(w1, [write]) && Run(w1, [write]) == Step(w1, write);
    hide Step, Enabled;
    StepInv(w, create);
    StepViews(w1, write, 0, n);
    assert Run(w, ops) == Step(w1, write);
    PatchZeros(MasterAt(w, n), 0, [7]);
  }

  // ---- Stores that cross pages ---------------------------------------------------------------------

  /** Where new page data would be placed: more references than a store of len bytes can need. */
  ghost predicate Supply(w: World, refs: seq<Ref>, grants: seq<bool>, len: nat) {
    && len <= |refs| == |grants|
    && (forall i | 0 <= i < |refs| :: refs[i] !in w.store)
    && (forall i, j | 0 <= i < j < |refs| :: refs[i] != refs[j])
  }

  /** How much of a store goes to its first page. */
  function PieceSize(dst: nat, len: nat): nat {
    var room := PAGE_SIZE - dst % PAGE_SIZE;
    if len < room then len else room
  }

  function Piece(f: nat, dst: nat, src: Data, ref: Ref, grant: bool): Op {
    Write(f, dst / PAGE_SIZE, dst % PAGE_SIZE, src[..PieceSize(dst, |src|)], ref, grant)
  }

  lemma {:induction false} PieceKeeps(w: World, f: nat, dst: nat, src: Data, refs: seq<Ref>, grants: seq<bool>)
    requires Inv(w) && f in w.forks && Supply(w, refs, grants, |src|) && src != []
    ensures 0 < |refs| == |grants|
    ensures var op, k := Piece(f, dst, src, refs[0], grants[0]), PieceSize(dst, |src|);
            && 0 < k <= |src| && Enabled(w, op) && Inv(Step(w, op)) && f in Step(w, op).forks
            && Supply(Step(w, op), refs[1..], grants[1..], |src| - k)
  {
    hide Inv, Step;
    var op := Piece(f, dst, src, refs[0], grants[0]);
    StepInv(w, op);
    StepKeys(w, op);
  }

  lemma {:induction false} StepKeys(w: World, op: Op)
    requires Inv(w) && Enabled(w, op) && op.Write?
    ensures Step(w, op).store.Keys <= w.store.Keys + {op.ref} && op.fork in Step(w, op).forks
  {
    hide Inv, Acquired, Patched;
    AcquiredInv(w, op.fork, op.page, op.ref, op.workspace);
    AcquiredKeys(w, op.fork, op.page, op.ref, op.workspace);
    var (w', outcome) := Acquired(w, op.fork, op.page, op.ref, op.workspace);
    if outcome == Success {
      PageFacts(w', op.fork, op.page);
    }
  }

  lemma {:induction false} AcquiredKeys(w: World, f: nat, n: nat, r: Ref, workspace: bool)
    requires f in w.forks
    ensures var w' := Acquired(w, f, n, r, workspace).0; w'.store.Keys <= w.store.Keys + {r} && f in w'.forks
  {
    hide Grant, Zeros;
  }

  /** Memory::memcpy into a fork: page by page, up to the first page that cannot be written. */
  ghost function Copied(w: World, f: nat, dst: nat, src: Data, refs: seq<Ref>, grants: seq<bool>): (World, Outcome)
    requires Inv(w) && f in w.forks && Supply(w, refs, grants, |src|)
    decreases |src|
  {
    if src == [] then (w, Success)
    else
      PieceKeeps(w, f, dst, src, refs, grants);
      var op, k := Piece(f, dst, src, refs[0], grants[0]), PieceSize(dst, |src|);
      var outcome := Acquired(w, f, op.page, op.ref, op.workspace).1;
      if outcome != Success then (Step(w, op), outcome)
      else Copied(Step(w, op), f, dst + k, src[k..], refs[1..], grants[1..])
  }

  lemma {:induction false} CopiedStep(w: World, f: nat, dst: nat, src: Data, refs: seq<Ref>, grants: seq<bool>)
    requires Inv(w) && f in w.forks && Supply(w, refs, grants, |src|) && src != []
    ensures 0 < |refs| == |grants|
    ensures var op, k := Piece(f, dst, src, refs[0], grants[0]), PieceSize(dst, |src|);
            && 0 < k <= |src| && Enabled(w, op) && Inv(Step(w, op)) && f in Step(w, op).forks
            && Supply(Step(w, op), refs[1..], grants[1..], |src[k..]|)
    ensures var op, k := Piece(f, dst, src, refs[0], grants[0]), PieceSize(dst, |src|);
            var outcome := Acquired(w, f, op.page, op.ref, op.workspace).1;
            Copied(w, f, dst, src, refs, grants) ==
            if outcome != Success then (Step(w, op), outcome)
            else Copied(Step(w, op), f, dst + k, src[k..], refs[1..], grants[1..])
  {
    hide Inv, Supply, Enabled, Step, Acquired;
    PieceKeeps(w, f, dst, src, refs, grants);
  }

  lemma {:induction false} CopiedEnd(w: World, f: nat, dst: nat, refs: seq<Ref>, grants: seq<bool>)
    requires Inv(w) && f in w.forks && Supply(w, refs, grants, 0)
    ensures Copied(w, f, dst, [], refs, grants) == (w, Success)
  {
  }

  /** Every operation of the run is a write that takes place. */
  ghost predicate AllWrite(w: World, ops: seq<Op>)
    requires Legal(w, ops)
    decreases ops
  {
    ops == [] || (Writes(w, ops[0]) && AllWrite(Step(w, ops[0]), ops[1..]))
  }

  /** So is every one but the last, which fails. */
  ghost predicate StopsWith(w: World, ops: seq<Op>, outcome: Outcome)
    requires Legal(w, ops)
    decreases ops
  {
    && ops != [] && ops[0].Write?
    && var o := Acquired(w, ops[0].fork, ops[0].page, ops[0].ref, ops[0].workspace).1;
       if |ops| == 1 then o == outcome != Success else o == Success && StopsWith(Step(w, ops[0]), ops[1..], outcome)
  }

  /**
   Such a store is a run of writes within pages, all of them by this fork; it succeeds if they all take
   place, and else it ends with the first that does not, and with its outcome.
   */
  lemma {:induction false} CopiedIsRun(w: World, f: nat, dst: nat, src: Data, refs: seq<Ref>, grants: seq<bool>)
    returns (ops: seq<Op>)
    requires Inv(w) && f in w.forks && Supply(w, refs, grants, |src|)
    ensures Legal(w, ops) && Run(w, ops) == Copied(w, f, dst, src, refs, grants).0
    ensures forall op | op in ops :: op.Write? && op.fork == f
    ensures var outcome := Copied(w, f, dst, src, refs, grants).1;
            if outcome == Success then AllWrite(w, ops) else StopsWith(w, ops, outcome)
    decreases |src|
  {
    hide Inv, Supply, Enabled, Step, Acquired, Copied;
    ops := [];
    if src == [] {
      CopiedEnd(w, f, dst, refs, grants);
    } else {
      CopiedStep(w, f, dst, src, refs, grants);
      var op, k := Piece(f, dst, src, refs[0], grants[0]), PieceSize(dst, |src|);
      var rest := [];
      if Acquired(w, f, op.page, op.ref, op.workspace).1 == Success {
        rest := CopiedIsRun(Step(w, op), f, dst + k, src[k..], refs[1..], grants[1..]);
      }
      ops := [op] + rest;
      assert ops[0] == op && ops[1..] == rest;
    }
  }

  /** The pages that a store does not reach. */
  ghost predicate OutOfReach(dst: nat, len: nat, n: nat) {
    len == 0 || n < dst / PAGE_SIZE || dst + len <= n * PAGE_SIZE
  }

  lemma {:induction false} PieceEnds(dst: nat, len: nat)
    requires 0 < len
    ensures var k := PieceSize(dst, len);
            k == len || (dst + k == (dst / PAGE_SIZE + 1) * PAGE_SIZE && (dst + k) / PAGE_SIZE == dst / PAGE_SIZE + 1)
  {
  }

  lemma {:induction false} PieceReach(dst: nat, len: nat, n: nat)
    requires 0 < len && OutOfReach(dst, len, n)
    ensures var k := PieceSize(dst, len); n != dst / PAGE_SIZE && k <= len && OutOfReach(dst + k, len - k, n)
  {
    PieceEnds(dst, len);
  }

  /** It changes no page of another fork, and none that it does not reach. */
  lemma {:induction false} CopiedElsewhere(
      w: World, f: nat, dst: nat, src: Data, refs: seq<Ref>, grants: seq<bool>, g: nat, m: nat)
    requires Inv(w) && f in w.forks && Supply(w, refs, grants, |src|)
    requires g != f || OutOfReach(dst, |src|, m)
    ensures var w' := Copied(w, f, dst, src, refs, grants).0; Inv(w') && ViewAt(w', g, m) == ViewAt(w, g, m)
    decreases |src|
  {
    hide Inv, Supply, Enabled, Step, Acquired, Copied, ViewAt, MasterAt, OutOfReach;
    if src == [] {
      CopiedEnd(w, f, dst, refs, grants);
    } else {
      CopiedStep(w, f, dst, src, refs, grants);
      var op, k := Piece(f, dst, src, refs[0], grants[0]), PieceSize(dst, |src|);
      StepViews(w, op, g, m);
      if g == f {
        PieceReach(dst, |src|, m);
      }
      if Acquired(w, f, op.page, op.ref, op.workspace).1 == Success {
        CopiedElsewhere(Step(w, op), f, dst + k, src[k..], refs[1..], grants[1..], g, m);
      }
    }
  }

  ghost predicate Holds(w: World, f: nat, a: nat, b: byte) {
    var data := ViewAt(w, f, a / PAGE_SIZE);
    |data| == PAGE_SIZE && data[a % PAGE_SIZE] == b
  }

  /** If it succeeds, the fork holds every byte of it at its address. */
  lemma {:induction false} CopiedLands(
      w: World, f: nat, dst: nat, src: Data, refs: seq<Ref>, grants: seq<bool>, a: nat)
    requires Inv(w) && f in w.forks && Supply(w, refs, grants, |src|) && dst <= a < dst + |src|
    requires Copied(w, f, dst, src, refs, grants).1 == Success
    ensures Holds(Copied(w, f, dst, src, refs, grants).0, f, a, src[a - dst])
    decreases |src|
  {
    hide Inv, Supply, Enabled, Step, Acquired, Copied, ViewAt, MasterAt;
    CopiedStep(w, f, dst, src, refs, grants);
    var op, k := Piece(f, dst, src, refs[0], grants[0]), PieceSize(dst, |src|);
    if a < dst + k {
      PieceLands(w, f, dst, src, refs[0], grants[0], a);
      PieceLeft(dst, |src|);
      CopiedElsewhere(Step(w, op), f, dst + k, src[k..], refs[1..], grants[1..], f, op.page);
    } else {
      CopiedLands(Step(w, op), f, dst + k, src[k..], refs[1..], grants[1..], a);
    }
  }

  lemma {:induction false} PieceLeft(dst: nat, len: nat)
    requires 0 < len
    ensures var k := PieceSize(dst, len); k <= len && OutOfReach(dst + k, len - k, dst / PAGE_SIZE)
  {
    PieceEnds(dst, len);
  }

  lemma {:induction false} PieceLands(w: World, f: nat, dst: nat, src: Data, ref: Ref, grant: bool, a: nat)
    requires Inv(w) && f in w.forks && src != [] && dst <= a < dst + PieceSize(dst, |src|)
    requires var op := Piece(f, dst, src, ref, grant); Enabled(w, op) && Writes(w, op)
    ensures Holds(Step(w, Piece(f, dst, src, ref, grant)), f, a, src[a - dst])
    ensures a / PAGE_SIZE == dst / PAGE_SIZE
  {
    hide Inv, Enabled, Step, Acquired, Copied, MasterAt;
    var op := Piece(f, dst, src, ref, grant);
    assert a / PAGE_SIZE == dst / PAGE_SIZE && a % PAGE_SIZE == dst % PAGE_SIZE + (a - dst);
    StepViews(w, op, f, op.page);
    BeforeSize(w, f, op.page);
  }

  lemma {:induction false} BeforeSize(w: World, f: nat, n: nat)
    requires Inv(w)
    ensures |Before(w, f, n)| == PAGE_SIZE
  {
    if f in w.forks && n in w.forks[f].pages {
      PageFacts(w, f, n);
    }
  }

  // ---- Budgets ------------------------------------------------------------------------------------

  /** How many pages a fork may come to own. */
  ghost predicate Affordable(b: Budget, k: nat) {
    match b
    case Workspace(max) => k == 0 || (k - 1) * PAGE_SIZE < max
    case Counted(max, _) => max > 0 ==> k <= max
  }

  /** In no run does a fork own more pages than it may. */
  lemma {:induction false} BudgetHolds(w: World, ops: seq<Op>, f: nat)
    requires Inv(w) && Legal(w, ops) && f in Run(w, ops).forks
    ensures var fork := Run(w, ops).forks[f]; Affordable(fork.budget, |Owned(fork.pages)|)
  {
    MasterUnchanged(w, ops);
    var w' := Run(w, ops);
    assert ForkOk(w'.owner, w'.master, f, w'.forks[f]);
  }

  /** f has pages 0 to j and owns them all. */
  ghost predicate Filled(w: World, f: nat, j: nat, base: Ref) {
    && Inv(w) && f in w.forks && (forall n: nat :: n in w.forks[f].pages <==> n < j) && |Owned(w.forks[f].pages)| == j
    && forall r | r in w.store :: r < base
  }

  lemma {:induction false} FillOne(w: World, f: nat, j: nat, k: nat, base: Ref) returns (op: Op)
    requires Filled(w, f, j, base) && j < k && Affordable(w.forks[f].budget, k)
    ensures op.Write? && Enabled(w, op) && Filled(Step(w, op), f, j + 1, base + 1)
    ensures Affordable(Step(w, op).forks[f].budget, k)
  {
    hide Inv, Step, Enabled, Grant;
    op := Write(f, j, 0, [], base, false);
    CanAfford(w, f, j, k, base);
    StepOnNewPage(w, f, j, base);
    StepInv(w, op);
    var pages, page := w.forks[f].pages, Page(Attr(true, true, false, false), base);
    assert Owned(pages[j := page]) == Owned(pages) + {j};
  }

  lemma {:induction false} CanAfford(w: World, f: nat, j: nat, k: nat, base: Ref)
    requires Filled(w, f, j, base) && j < k && Affordable(w.forks[f].budget, k)
    ensures Grant(w.forks[f], false) == Some(false) && base !in w.store
  {
    assert ForkOk(w.owner, w.master, f, w.forks[f]);
  }

  lemma {:induction false} StepOnNewPage(w: World, f: nat, n: nat, r: Ref)
    requires f in w.forks && n !in w.forks[f].pages && Grant(w.forks[f], false) == Some(false) && r !in w.store
    ensures var op, fork := Write(f, n, 0, [], r, false), w.forks[f];
            && Enabled(w, op) && Step(w, op).store.Keys == w.store.Keys + {r}
            && Step(w, op).forks
               == w.forks[f := Fork(fork.pages[n := Page(Attr(true, true, false, false), r)], Spent(fork.budget))]
  {
    hide Grant, Patched, Zeros;
  }

  /** Every number of pages that a fork may come to own is reached by some run: the bound is exact. */
  lemma {:induction false} BudgetReached(w: World, f: nat, j: nat, k: nat, base: Ref) returns (ops: seq<Op>)
    requires Filled(w, f, j, base) && j <= k && Affordable(w.forks[f].budget, k)
    ensures Legal(w, ops) && f in Run(w, ops).forks && |Owned(Run(w, ops).forks[f].pages)| == k
    ensures forall op | op in ops :: op.Write?
    decreases k - j
  {
    hide Step, Enabled, Inv, Owned, Affordable;
    if j == k {
      ops := [];
    } else {
      var op := FillOne(w, f, j, k, base);
      var rest := BudgetReached(Step(w, op), f, j + 1, k, base + 1);
      ops := [op] + rest;
      assert ops[1..] == rest;
    }
  }

  /** What a fork may own stays within the bytes configured exactly if they are whole pages. */
  lemma {:induction false} WorkspaceBudget(max: nat)
    ensures (forall k: nat | Affordable(Workspace(max), k) :: k * PAGE_SIZE <= max) <==> max % PAGE_SIZE == 0
  {
    var k := max / PAGE_SIZE;
    if max % PAGE_SIZE != 0 {
      assert Affordable(Workspace(max), k + 1) && (k + 1) * PAGE_SIZE > max;
    }
  }

  /** A fork of libriscv stays within the bytes configured exactly if they are at least one page. */
  lemma {:induction false} CountedBudget(maxMemory: nat)
    ensures (forall k: nat | Affordable(Counted(maxMemory / PAGE_SIZE, 0), k) :: k * PAGE_SIZE <= maxMemory)
            <==> maxMemory >= PAGE_SIZE
  {
    if maxMemory < PAGE_SIZE {
      assert Affordable(Counted(maxMemory / PAGE_SIZE, 0), 1);
    }
  }

  // ---- Which pages a fork may read -------------------------------------------------------------------

  /** A page that the master lacks is the zero page, which anyone may read. */
  predicate MasterMayRead(master: Table, n: nat) {
    n in master ==> master[n].attr.read
  }

  predicate HasPage(w: World, f: nat, n: nat) {
    f in w.forks && n in w.forks[f].pages
  }

  /** Whether a load by f succeeds. */
  predicate MayRead(w: World, f: nat, n: nat) {
    if HasPage(w, f, n) then w.forks[f].pages[n].attr.read else MasterMayRead(w.master, n)
  }

  lemma {:induction false} LoanRead(master: Table, n: nat)
    ensures Loaned(ParentPage(master, n)).attr.read <==> MasterMayRead(master, n)
  {
  }

  lemma {:induction false} AcquiredRead(w: World, f: nat, n: nat, r: Ref, workspace: bool, g: nat, m: nat)
    requires f in w.forks
    ensures var w' := Acquired(w, f, n, r, workspace).0;
            && (HasPage(w, g, m) ==> HasPage(w', g, m) && (MayRead(w', g, m) <==> MayRead(w, g, m)))
            && (!HasPage(w, g, m) && HasPage(w', g, m) ==> g == f && m == n && MayRead(w', g, m))
  {
    hide Grant, Zeros;
  }

  lemma {:induction false} StoredRead(w: World, f: nat, n: nat, off: nat, bytes: Data, g: nat, m: nat)
    requires f in w.forks && n in w.forks[f].pages
    ensures var w' := Stored(w, f, n, off, bytes);
            (HasPage(w', g, m) <==> HasPage(w, g, m)) && (MayRead(w', g, m) <==> MayRead(w, g, m))
  {
    hide Patched;
  }

  /** The right to read a page stays; a page that comes is readable after a write, or as it is in the master. */
  lemma {:induction false} StepRead(w: World, op: Op, g: nat, m: nat)
    requires Inv(w) && Enabled(w, op) && op != Destroy(g) && g in w.forks
    ensures var w' := Step(w, op);
            && g in w'.forks && w'.master == w.master
            && (HasPage(w, g, m) ==> HasPage(w', g, m) && (MayRead(w', g, m) <==> MayRead(w, g, m)))
            && (!HasPage(w, g, m) && HasPage(w', g, m) ==>
                  && op.fork == g && (op.Write? || op.Read?)
                  && (MayRead(w', g, m) <==> op.Write? || MasterMayRead(w.master, m)))
  {
    hide Inv;
    StepViews(w, op, g, m);
    match op
    case Create(f, b) =>
    case Destroy(f) =>
    case Read(f, n) => LoanRead(w.master, n);
    case Write(f, n, off, bytes, ref, workspace) =>
      hide Acquired, MayRead, Stored;
      AcquiredInv(w, f, n, ref, workspace);
      AcquiredRead(w, f, n, ref, workspace, g, m);
      var (w', outcome) := Acquired(w, f, n, ref, workspace);
      AcquiredKeepsFork(w, f, n, ref, workspace, g);
      if outcome == Success {
        StoredRead(w', f, n, off, bytes, g, m);
        StoredKeepsFork(w', f, n, off, bytes, g);
      }
  }

  lemma {:induction false} AcquiredKeepsFork(w: World, f: nat, n: nat, r: Ref, workspace: bool, g: nat)
    requires f in w.forks && g in w.forks
    ensures g in Acquired(w, f, n, r, workspace).0.forks
  {
  }

  lemma {:induction false} StoredKeepsFork(w: World, f: nat, n: nat, off: nat, bytes: Data, g: nat)
    requires f in w.forks && n in w.forks[f].pages && g in w.forks
    ensures g in Stored(w, f, n, off, bytes).forks
  {
  }

  /** No operation of any fork takes away the right to read a page; in particular no write does. */
  lemma {:induction false} RightToReadStays(w: World, op: Op, g: nat, m: nat)
    requires Inv(w) && Enabled(w, op) && op != Destroy(g) && g in w.forks && MayRead(w, g, m)
    ensures MayRead(Step(w, op), g, m)
  {
    hide Inv, Step, Enabled;
    StepRead(w, op, g, m);
  }

  /** The operation that first gave f the page, if any, was a write of its own. */
  ghost predicate WroteFirst(w: World, ops: seq<Op>, f: nat, n: nat)
    requires Legal(w, ops)
    decreases ops
  {
    ops != [] &&
    var w' := Step(w, ops[0]);
    if HasPage(w', f, n) then ops[0].fork == f && ops[0].Write? else WroteFirst(w', ops[1..], f, n)
  }

  lemma {:induction false} RunKeepsRead(w: World, ops: seq<Op>, f: nat, n: nat)
    requires Inv(w) && Legal(w, ops) && Destroy(f) !in ops && HasPage(w, f, n)
    ensures HasPage(Run(w, ops), f, n) && (MayRead(Run(w, ops), f, n) <==> MayRead(w, f, n))
    decreases ops
  {
    hide Inv, Step, Enabled, MayRead;
    if ops != [] {
      StepInv(w, ops[0]);
      StepRead(w, ops[0], f, n);
      RunKeepsRead(Step(w, ops[0]), ops[1..], f, n);
    }
  }

  /**
   Over any run, a fork that did not have the page may read it in the end exactly if it came to it by a write
   of its own, or the master may read it.
   */
  lemma {:induction false} RunReads(w: World, ops: seq<Op>, f: nat, n: nat)
    requires Inv(w) && Legal(w, ops) && Destroy(f) !in ops && f in w.forks && !HasPage(w, f, n)
    ensures MayRead(Run(w, ops), f, n) <==> WroteFirst(w, ops, f, n) || MasterMayRead(w.master, n)
    decreases ops
  {
    hide Inv, Step, Enabled;
    if ops != [] {
      var w' := Step(w, ops[0]);
      StepInv(w, ops[0]);
      StepRead(w, ops[0], f, n);
      if HasPage(w', f, n) {
        RunKeepsRead(w', ops[1..], f, n);
      } else {
        RunReads(w', ops[1..], f, n);
      }
    }
  }

  /** The same from the creation of a fork. */
  lemma {:induction false} ForkReads(w: World, f: nat, b: Budget, ops: seq<Op>, n: nat)
    requires Inv(w) && Enabled(w, Create(f, b)) && Legal(Step(w, Create(f, b)), ops) && Destroy(f) !in ops
    ensures var w' := Step(w, Create(f, b));
            MayRead(Run(w', ops), f, n) <==> WroteFirst(w', ops, f, n) || MasterMayRead(w.master, n)
  {
    var w' := Step(w, Create(f, b));
    StepInv(w, Create(f, b));
    assert !HasPage(w', f, n) && w'.master == w.master;
    hide Inv, Step, Enabled;
    RunReads(w', ops, f, n);
  }

  // ---- When a write takes place ------------------------------------------------------------------------

  /** The request's workspace has room for a page. */
  predicate FromWorkspace(b: Budget, workspace: bool) {
    b.Workspace? && workspace
  }

  /** A fork can take page data from its workspace, or else own one page more within its budget. */
  ghost predicate HasRoom(fork: Fork, workspace: bool) {
    FromWorkspace(fork.budget, workspace) || Affordable(fork.budget, |Owned(fork.pages)| + 1)
  }

  lemma {:induction false} GrantIsRoom(fork: Fork, workspace: bool)
    requires BudgetOk(fork)
    ensures Grant(fork, workspace).Some? <==> HasRoom(fork, workspace)
    ensures Grant(fork, workspace).Some? ==> Grant(fork, workspace).value == FromWorkspace(fork.budget, workspace)
  {
  }

  /**
   A write takes place exactly if the fork has a copy of the page already, or else there is room for one and
   the fork has not looked at the page, or the master may write it. Pages from the workspace are not owned.
   */
  lemma {:induction false} WriteTakesPlace(w: World, op: Op)
    requires Inv(w) && Enabled(w, op) && op.Write?
    ensures var fork, n := w.forks[op.fork], op.page;
            Writes(w, op) <==>
              || (n in fork.pages && fork.pages[n].attr.write)
              || ((n in fork.pages ==> ParentPage(w.master, n).attr.write) && HasRoom(fork, op.workspace))
    ensures var fork, n := w.forks[op.fork], op.page;
            Writes(w, op) && !(n in fork.pages && fork.pages[n].attr.write) ==>
              op.fork in Step(w, op).forks
              && Owned(Step(w, op).forks[op.fork].pages)
                 == if FromWorkspace(fork.budget, op.workspace) then Owned(fork.pages) else Owned(fork.pages) + {n}
  {
    var fork, n := w.forks[op.fork], op.page;
    ForkBudgetOk(w, op.fork);
    GrantIsRoom(fork, op.workspace);
    if n in fork.pages {
      PageFacts(w, op.fork, n);
    }
    hide Inv, Grant, HasRoom, Patched, Zeros;
    if Writes(w, op) && !(n in fork.pages && fork.pages[n].attr.write) {
      var pages' := Step(w, op).forks[op.fork].pages;
      assert pages' == fork.pages[n := pages'[n]];
      assert pages'[n].attr.nonOwning == FromWorkspace(fork.budget, op.workspace);
      OwnedWith(fork.pages, n, pages'[n]);
    }
  }

  lemma {:induction false} OwnedWith(pages: Table, n: nat, page: Page)
    requires n in pages ==> pages[n].attr.nonOwning
    ensures Owned(pages[n := page]) == if page.attr.nonOwning then Owned(pages) else Owned(pages) + {n}
  {
  }

  lemma {:induction false} ForkBudgetOk(w: World, f: nat)
    requires Inv(w) && f in w.forks
    ensures BudgetOk(w.forks[f])
  {
    assert ForkOk(w.owner, w.master, f, w.forks[f]);
  }

  // ---- All page data is given back -----------------------------------------------------------------------

  /** Page data that belongs to no fork. */
  function Shared(w: World): map<Ref, Data> {
    w.store - w.owner.Keys
  }

  ghost predicate OwnersLive(w: World) {
    forall r | r in w.owner :: w.owner[r].fork in w.forks
  }

  lemma {:induction false} AcquiredShared(w: World, f: nat, n: nat, r: Ref, workspace: bool)
    requires f in w.forks && r !in w.store && w.owner.Keys <= w.store.Keys
    ensures var w' := Acquired(w, f, n, r, workspace).0;
            Shared(w') == Shared(w) && (OwnersLive(w) ==> OwnersLive(w'))
  {
    hide Grant, Zeros;
  }

  lemma {:induction false} DestroyedShared(w: World, f: nat)
    ensures Shared(Destroyed(w, f)) == Shared(w) && (OwnersLive(w) ==> OwnersLive(Destroyed(w, f)))
  {
  }

  lemma {:induction false} StoredShared(w: World, f: nat, n: nat, off: nat, bytes: Data)
    requires Inv(w) && f in w.forks && n in w.forks[f].pages && w.forks[f].pages[n].attr.write
    ensures Shared(Stored(w, f, n, off, bytes)) == Shared(w)
    ensures OwnersLive(w) ==> OwnersLive(Stored(w, f, n, off, bytes))
  {
    PageFacts(w, f, n);
    hide Inv, Patched;
  }

  lemma {:induction false} StepShared(w: World, op: Op)
    requires Inv(w) && Enabled(w, op)
    ensures Shared(Step(w, op)) == Shared(w) && (OwnersLive(w) ==> OwnersLive(Step(w, op)))
  {
    assert w.owner.Keys <= w.store.Keys;
    match op
    case Create(f, b) => hide Inv;
    case Destroy(f) => DestroyedShared(w, f);
    case Read(f, n) => hide Inv;
    case Write(f, n, off, bytes, ref, workspace) =>
      hide Inv, Acquired, Stored, Shared, OwnersLive;
      AcquiredShared(w, f, n, ref, workspace);
      AcquiredInv(w, f, n, ref, workspace);
      var (w', outcome) := Acquired(w, f, n, ref, workspace);
      if outcome == Success {
        StoredShared(w', f, n, off, bytes);
      }
  }

  lemma {:induction false} RunShared(w: World, ops: seq<Op>)
    requires Inv(w) && Legal(w, ops) && OwnersLive(w)
    ensures Shared(Run(w, ops)) == Shared(w) && OwnersLive(Run(w, ops))
    decreases ops
  {
    hide Inv, Step, Enabled, Shared, OwnersLive;
    if ops != [] {
      StepInv(w, ops[0]);
      StepShared(w, ops[0]);
      RunShared(Step(w, ops[0]), ops[1..]);
    }
  }

  /** Once all forks are gone, there is exactly the page data that there was before the first one. */
  lemma {:induction false} AllGivenBack(w: World, ops: seq<Op>)
    requires Inv(w) && w.forks == map[] && w.owner == map[] && Legal(w, ops) && Run(w, ops).forks == map[]
    ensures Run(w, ops).store == w.store && Run(w, ops).owner == map[]
  {
    RunShared(w, ops);
    hide Inv, Run;
    var last := Run(w, ops);
    assert last.owner.Keys == {};
    assert last.store - {} == last.store && w.store - {} == w.store;
  }

  // ---- Budgets over the life of a fork ---------------------------------------------------------------

  /** A run from the creation of f with budget b, in which f is neither destroyed nor created again. */
  ghost predicate Life(w: World, f: nat, b: Budget, ops: seq<Op>) {
    && Enabled(w, Create(f, b)) && Legal(Step(w, Create(f, b)), ops)
    && forall op | op in ops && op.fork == f :: !op.Create? && !op.Destroy?
  }

  ghost function Reached(w: World, f: nat, b: Budget, ops: seq<Op>): World
    requires Life(w, f, b, ops)
  {
    Run(Step(w, Create(f, b)), ops)
  }

  /** At the end of the run, f owns at most so many bytes. */
  ghost predicate Within(w: World, f: nat, b: Budget, ops: seq<Op>, limit: nat)
    requires Life(w, f, b, ops)
  {
    f in Reached(w, f, b, ops).forks && |Owned(Reached(w, f, b, ops).forks[f].pages)| * PAGE_SIZE <= limit
  }

  ghost predicate SameLimit(a: Budget, b: Budget) {
    match a
    case Workspace(max) => b == a
    case Counted(max, _) => b.Counted? && b.maxPages == max
  }

  lemma {:induction false} StepKeepsLimit(w: World, op: Op, f: nat)
    requires Enabled(w, op) && f in w.forks && (op.fork == f ==> !op.Create? && !op.Destroy?)
    ensures f in Step(w, op).forks && SameLimit(w.forks[f].budget, Step(w, op).forks[f].budget)
  {
    hide Grant, Patched, Zeros;
  }

  lemma {:induction false} RunKeepsLimit(w: World, ops: seq<Op>, f: nat)
    requires Legal(w, ops) && f in w.forks && forall op | op in ops && op.fork == f :: !op.Create? && !op.Destroy?
    ensures f in Run(w, ops).forks && SameLimit(w.forks[f].budget, Run(w, ops).forks[f].budget)
    decreases ops
  {
    hide Step, Enabled;
    if ops != [] {
      StepKeepsLimit(w, ops[0], f);
      RunKeepsLimit(Step(w, ops[0]), ops[1..], f);
    }
  }

  lemma {:induction false} RefBound(refs: set<Ref>) returns (base: Ref)
    ensures forall r | r in refs :: r < base
  {
    if refs == {} {
      base := 0;
    } else {
      var r :| r in refs;
      var rest := RefBound(refs - {r});
      base := if r < rest then rest else r + 1;
      assert forall q | q in refs :: q == r || q in refs - {r};
    }
  }

  /** A new fork can come to own any number of pages that it may. */
  lemma {:induction false} LifeReaches(w: World, f: nat, b: Budget, k: nat) returns (ops: seq<Op>)
    requires Inv(w) && Enabled(w, Create(f, b)) && Affordable(b, k)
    ensures Life(w, f, b, ops) && f in Reached(w, f, b, ops).forks && |Owned(Reached(w, f, b, ops).forks[f].pages)| == k
  {
    var w' := Step(w, Create(f, b));
    var base := RefBound(w'.store.Keys);
    StepInv(w, Create(f, b));
    assert w'.forks[f] == Fork(map[], b) && Owned(map[]) == {};
    assert forall r | r in w'.store :: r in w'.store.Keys;
    assert Filled(w', f, 0, base);
    hide Inv, Step, Enabled, Filled;
    ops := BudgetReached(w', f, 0, k, base);
  }

  /** A new fork never owns more pages than it may. */
  lemma {:induction false} LifeHolds(w: World, f: nat, b: Budget, ops: seq<Op>)
    requires Inv(w) && Life(w, f, b, ops)
    ensures f in Reached(w, f, b, ops).forks && Affordable(b, |Owned(Reached(w, f, b, ops).forks[f].pages)|)
  {
    var w' := Step(w, Create(f, b));
    StepInv(w, Create(f, b));
    assert f in w'.forks && w'.forks[f].budget == b;
    hide Inv, Step, Enabled, Owned;
    RunKeepsLimit(w', ops, f);
    BudgetHolds(w', ops, f);
  }

  /** So it stays within some bytes in every run exactly if every affordable number of pages does. */
  lemma {:induction false} LifeWithin(w: World, f: nat, b: Budget, limit: nat)
    requires Inv(w) && Enabled(w, Create(f, b))
    ensures (forall ops | Life(w, f, b, ops) :: Within(w, f, b, ops, limit))
            <==> (forall k: nat | Affordable(b, k) :: k * PAGE_SIZE <= limit)
  {
    hide Inv, Enabled, Life, Reached, Owned, Affordable;
    if forall ops | Life(w, f, b, ops) :: Within(w, f, b, ops, limit) {
      forall k: nat | Affordable(b, k) ensures k * PAGE_SIZE <= limit {
        var ops := LifeReaches(w, f, b, k);
        assert Within(w, f, b, ops, limit);
      }
    }
    if forall k: nat | Affordable(b, k) :: k * PAGE_SIZE <= limit {
      forall ops | Life(w, f, b, ops) ensures Within(w, f, b, ops, limit) {
        LifeHolds(w, f, b, ops);
      }
    }
  }

  /** In every run a fork of Script stays within the configured bytes exactly if these are whole pages. */
  lemma {:induction false} WorkspaceRuns(w: World, f: nat, max: nat)
    requires Inv(w) && f !in w.forks
    ensures (forall ops | Life(w, f, Workspace(max), ops) :: Within(w, f, Workspace(max), ops, max))
            <==> max % PAGE_SIZE == 0
  {
    hide Inv, Life, Within;
    LifeWithin(w, f, Workspace(max), max);
    WorkspaceBudget(max);
  }

  /** In every run a fork of libriscv does so exactly if at least one page is configured. */
  lemma {:induction false} CountedRuns(w: World, f: nat, maxMemory: nat)
    requires Inv(w) && f !in w.forks
    ensures var b := Counted(maxMemory / PAGE_SIZE, 0);
            (forall ops | Life(w, f, b, ops) :: Within(w, f, b, ops, maxMemory)) <==> maxMemory >= PAGE_SIZE
  {
    hide Inv, Life, Within;
    LifeWithin(w, f, Counted(maxMemory / PAGE_SIZE, 0), maxMemory);
    CountedBudget(maxMemory);
  }

  /** One byte configured for Script, and one byte less than a page for libriscv: a page is owned all the same. */
  lemma {:induction false} BudgetsExceeded(w: World, f: nat) returns (ops: seq<Op>, ops': seq<Op>)
    requires Inv(w) && f !in w.forks
    ensures Life(w, f, Workspace(1), ops) && !Within(w, f, Workspace(1), ops, 1)
    ensures var b := Counted((PAGE_SIZE - 1) / PAGE_SIZE, 0);
            Life(w, f, b, ops') && !Within(w, f, b, ops', PAGE_SIZE - 1)
  {
    hide Inv, Life, Reached, Owned;
    ops := LifeReaches(w, f, Workspace(1), 1);
    ops' := LifeReaches(w, f, Counted((PAGE_SIZE - 1) / PAGE_SIZE, 0), 1);
  }

  // ---- The handlers, as they change the page tables ----------------------------------------------

  /** Memory::owned_pages_active. */
  method OwnedPagesActive(pages: Table) returns (count: nat)
    ensures count == |Owned(pages)|
  {
    hide Owned;
    count := 0;
    var keys := pages.Keys;
    ghost var seen: set<nat> := {};
    while keys != {}
      invariant seen + keys == pages.Keys && seen !! keys
      invariant count == |Owned(pages) * seen|
      decreases keys
    {
      var n :| n in keys;
      OwnedMore(pages, seen, n);
      if !pages[n].attr.nonOwning {
        count := count + 1;
      }
      keys, seen := keys - {n}, seen + {n};
    }
    OwnedAll(pages);
  }

  lemma {:induction false} OwnedAll(pages: Table)
    ensures Owned(pages) * pages.Keys == Owned(pages) && Owned(pages) * {} == {}
  {
  }

  lemma {:induction false} OwnedMore(pages: Table, seen: set<nat>, n: nat)
    requires n in pages && n !in seen
    ensures |Owned(pages) * (seen + {n})| == |Owned(pages) * seen| + if pages[n].attr.nonOwning then 0 else 1
  {
    if pages[n].attr.nonOwning {
      assert Owned(pages) * (seen + {n}) == Owned(pages) * seen;
    } else {
      assert Owned(pages) * (seen + {n}) == Owned(pages) * seen + {n};
    }
  }

  class Forks {
    var world: World

    ghost predicate Valid()
      reads this
    {
      Inv(world)
    }

    constructor (store: map<Ref, Data>, master: Table)
      requires StoreOk(World(store, map[], master, map[]))
      ensures Valid() && world == World(store, map[], master, map[])
    {
      world := World(store, map[], master, map[]);
    }

    /** A minimal fork: its page table is empty. */
    method Create(f: nat, budget: Budget)
      requires Valid() && Enabled(world, Op.Create(f, budget))
      modifies this
      ensures Valid() && world == Step(old(world), Op.Create(f, budget))
      ensures forall n :: ViewAt(world, f, n) == MasterAt(old(world), n)
    {
      StepInv(world, Op.Create(f, budget));
      world := world.(forks := world.forks[f := Fork(map[], budget)]);
    }

    /** The page data that a fork allocated goes with it; the master's stays. */
    method Destroy(f: nat)
      requires Valid() && f in world.forks
      modifies this
      ensures Valid() && world == Step(old(world), Op.Destroy(f)) && f !in world.forks
      ensures forall r | r in old(world).store && r !in old(world).owner ::
                r in world.store && world.store[r] == old(world).store[r]
    {
      StepInv(world, Op.Destroy(f));
      world := Destroyed(world, f);
    }

    /** The limits of the handlers of Script and of libriscv_fast_fork. */
    method TakePageData(f: nat, workspace: bool) returns (grant: Option<bool>)
      requires f in world.forks
      ensures grant == Grant(world.forks[f], workspace)
    {
      var fork := world.forks[f];
      match fork.budget
      case Workspace(max) =>
        if workspace {
          return Some(true);
        }
        var owned := OwnedPagesActive(fork.pages);
        if owned * PAGE_SIZE < max {
          return Some(false);
        }
        return None;
      case Counted(max, count) =>
        if max > 0 && count >= max {
          return None;
        }
        return Some(false);
    }

    /** A page of its own for f; the budget is charged. */
    method Place(f: nat, n: nat, page: Page, data: Data)
      requires f in world.forks
      modifies this
      ensures world == Placed(old(world), f, n, page, data)
    {
      var fork := world.forks[f];
      world := world.(store := world.store[page.data := data]);
      world := world.(owner := world.owner[page.data := Slot(f, n)]);
      world := world.(forks := world.forks[f := Fork(fork.pages[n := page], Spent(fork.budget))]);
    }

    /** The page fault handler of a fork. */
    method PageFault(f: nat, n: nat, r: Ref, workspace: bool) returns (outcome: Outcome)
      requires Valid() && f in world.forks && r !in world.store && n !in world.forks[f].pages
      modifies this
      ensures (world, outcome) == Acquired(old(world), f, n, r, workspace)
    {
      var grant := TakePageData(f, workspace);
      if grant == None {
        return OutOfMemory;
      }
      Place(f, n, Page(Attr(true, true, false, grant.value), r), Zeros());
      return Success;
    }

    /** The page write handler of a fork, which is called for copy-on-write pages only. */
    method PageWrite(f: nat, n: nat, r: Ref, workspace: bool) returns (outcome: Outcome)
      requires Valid() && f in world.forks && r !in world.store
      requires n in world.forks[f].pages && !world.forks[f].pages[n].attr.write && world.forks[f].pages[n].attr.isCow
      modifies this
      ensures (world, outcome) == Acquired(old(world), f, n, r, workspace)
    {
      var grant := TakePageData(f, workspace);
      if grant == None {
        return OutOfMemory;
      }
      PageFacts(world, f, n);
      var page := world.forks[f].pages[n];
      var data := world.store[page.data];
      page := page.(data := r, attr := page.attr.(nonOwning := grant.value));
      page := page.(attr := page.attr.(write := true));
      page := page.(attr := page.attr.(isCow := false));
      Place(f, n, page, data);
      return Success;
    }

    /** Memory::create_writable_pageno. */
    method CreateWritablePage(f: nat, n: nat, r: Ref, workspace: bool) returns (outcome: Outcome)
      requires Valid() && f in world.forks && r !in world.store
      modifies this
      ensures Valid() && (world, outcome) == Acquired(old(world), f, n, r, workspace)
    {
      hide Inv;
      AcquiredInv(world, f, n, r, workspace);
      if n in world.forks[f].pages {
        var page := world.forks[f].pages[n];
        if page.attr.write {
          return Success;
        } else if page.attr.isCow {
          outcome := PageWrite(f, n, r, workspace);
          return;
        }
      } else {
        outcome := PageFault(f, n, r, workspace);
        return;
      }
      outcome := ProtectionFault;
    }

    /** A store within one page: it changes what f sees there, and nothing that anyone else sees. */
    method Write(f: nat, n: nat, off: nat, bytes: Data, r: Ref, workspace: bool) returns (outcome: Outcome)
      requires Valid() && Enabled(world, Op.Write(f, n, off, bytes, r, workspace))
      modifies this
      ensures Valid() && world == Step(old(world), Op.Write(f, n, off, bytes, r, workspace))
      ensures outcome == Acquired(old(world), f, n, r, workspace).1
    {
      hide Inv, Acquired;
      ghost var w := world;
      StepInv(w, Op.Write(f, n, off, bytes, r, workspace));
      AcquiredInv(w, f, n, r, workspace);
      outcome := CreateWritablePage(f, n, r, workspace);
      if outcome == Success {
        PageFacts(world, f, n);
        StoreFacts(world, world.forks[f].pages[n].data);
        var ref := world.forks[f].pages[n].data;
        world := world.(store := world.store[ref := Patched(world.store[ref], off, bytes)]);
      }
    }

    /** A store of any length at any address. */
    method Memcpy(f: nat, dst: nat, src: Data, refs: seq<Ref>, grants: seq<bool>) returns (outcome: Outcome)
      requires Valid() && f in world.forks && Supply(world, refs, grants, |src|)
      modifies this
      ensures Valid() && (world, outcome) == Copied(old(world), f, dst, src, refs, grants)
    {
      hide Inv, Supply, Acquired, Enabled, Step, Copied;
      ghost var was := world;
      var at: nat, rest, free, lent := dst, src, refs, grants;
      while rest != []
        invariant Valid() && f in world.forks && Supply(world, free, lent, |rest|)
        invariant Copied(world, f, at, rest, free, lent) == Copied(was, f, dst, src, refs, grants)
        decreases |rest|
      {
        CopiedStep(world, f, at, rest, free, lent);
        var offset := at % PAGE_SIZE;
        var size := if |rest| < PAGE_SIZE - offset then |rest| else PAGE_SIZE - offset;
        outcome := Write(f, at / PAGE_SIZE, offset, rest[..size], free[0], lent[0]);
        if outcome != Success {
          return;
        }
        at, rest, free, lent := at + size, rest[size..], free[1..], lent[1..];
      }
      outcome := Success;
      CopiedEnd(world, f, at, free, lent);
    }

    /** Memory::get_readable_pageno, with the read handler of a fork. */
    method GetReadablePage(f: nat, n: nat) returns (outcome: Outcome, data: Data)
      requires Valid() && f in world.forks
      modifies this
      ensures Valid() && world == Step(old(world), Read(f, n))
      ensures outcome == Success ==> data == ViewAt(old(world), f, n) && |data| == PAGE_SIZE
      ensures n in world.forks[f].pages && (outcome == Success <==> MayRead(old(world), f, n))
    {
      hide Inv;
      StepInv(world, Read(f, n));
      if n !in world.forks[f].pages {
        var foreign := if n in world.master then world.master[n] else Page(Attr(true, false, true, false), ZERO_PAGE);
        var attr := foreign.attr.(nonOwning := true);
        attr := attr.(isCow := foreign.attr.write);
        attr := attr.(write := false);
        var fork := world.forks[f];
        world := world.(forks := world.forks[f := fork.(pages := fork.pages[n := Page(attr, foreign.data)])]);
      }
      PageFacts(world, f, n);
      var page := world.forks[f].pages[n];
      StoreFacts(world, page.data);
      data := world.store[page.data];
      outcome := if page.attr.read then Success else ProtectionFault;
    }
  }
}
