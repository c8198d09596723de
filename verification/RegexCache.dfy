/** The table of compiled regular expressions of a script, and its loan to forked scripts. */
module RegexCache {
  import opened Bytes

  const CACHE_MAX: nat := 16

  /** A compiled expression: what VRE_compile returned. */
  type Regex = nat

  datatype Entry = Entry(item: Option<Regex>, hash: nat, nonOwned: bool)

  const BLANK := Entry(None, 0, false)

  /** The first index with this hash, or the length of the table. */
  function FirstHash(slots: seq<Entry>, hash: nat): (i: nat)
    ensures i <= |slots| && (i < |slots| ==> slots[i].hash == hash)
    ensures forall j | 0 <= j < i :: slots[j].hash != hash
  {
    if slots == [] || slots[0].hash == hash then 0 else 1 + FirstHash(slots[1..], hash)
  }

  function Loan(e: Entry): Entry {
    e.(nonOwned := true)
  }

  /** The entries that are not blank, on loan. */
  function Loans(slots: seq<Entry>): seq<Entry> {
    if slots == [] then []
    else if slots[|slots| - 1].item == None then Loans(slots[..|slots| - 1])
    else Loans(slots[..|slots| - 1]) + [Loan(slots[|slots| - 1])]
  }

  function Deleted(slots: seq<Entry>): nat {
    if slots == [] then 0
    else Deleted(slots[..|slots| - 1]) + if slots[|slots| - 1].item == None then 1 else 0
  }

  predicate IsOwned(e: Entry) {
    e.item.Some? && !e.nonOwned
  }

  /** An entry after the destructor: VRE_free clears the pointer it is given. */
  function Emptied(e: Entry): Entry {
    if IsOwned(e) then e.(item := None) else e
  }

  /** What the destructor frees, in order. */
  function OwnedItems(slots: seq<Entry>): seq<Regex> {
    if slots == [] then []
    else if IsOwned(slots[|slots| - 1]) then OwnedItems(slots[..|slots| - 1]) + [slots[|slots| - 1].item.value]
    else OwnedItems(slots[..|slots| - 1])
  }

  /** A live slot i is on loan at i minus the deleted slots before it, and nothing else is. */
  lemma {:induction false} LoanPosition(slots: seq<Entry>, i: nat)
    requires i < |slots| && slots[i].item.Some?
    ensures |Loans(slots)| == |slots| - Deleted(slots)
    ensures var k := i - Deleted(slots[..i]); 0 <= k < |Loans(slots)| && Loans(slots)[k] == Loan(slots[i])
  {
    LoanCount(slots);
    var init := slots[..|slots| - 1];
    if i == |slots| - 1 {
      LoanCount(init);
    } else {
      assert init[..i] == slots[..i];
      LoanPosition(init, i);
    }
  }

  lemma {:induction false} LoanCount(slots: seq<Entry>)
    ensures Deleted(slots) <= |slots| && |Loans(slots)| == |slots| - Deleted(slots)
  {
    if slots != [] {
      LoanCount(slots[..|slots| - 1]);
    }
  }

  /** Every loan is of the live slot at that position. */
  lemma {:induction false} LoanSource(slots: seq<Entry>, k: nat) returns (i: nat)
    requires k < |Loans(slots)|
    ensures i < |slots| && slots[i].item.Some? && Loans(slots)[k] == Loan(slots[i]) && k == i - Deleted(slots[..i])
  {
    var init := slots[..|slots| - 1];
    if k < |Loans(init)| {
      i := LoanSource(init, k);
      assert init[..i] == slots[..i];
    } else {
      i := |slots| - 1;
      LoanCount(init);
    }
  }

  /** A fork knows an expression by the same number exactly if no slot before it was deleted. */
  lemma {:induction false} SameHandle(slots: seq<Entry>, i: nat)
    requires i < |slots| && slots[i].item.Some?
    requires forall j | 0 <= j < |slots| && j != i :: slots[j].item != slots[i].item
    ensures i < |Loans(slots)| && Loans(slots)[i] == Loan(slots[i]) <==> Deleted(slots[..i]) == 0
    ensures i < |Loans(slots)| && Loans(slots)[i].item == slots[i].item <==> Deleted(slots[..i]) == 0
  {
    LoanPosition(slots, i);
    if i < |Loans(slots)| {
      var j := LoanSource(slots, i);
    }
  }

  /** A blank slot, and before it no entry with hash zero. */
  ghost predicate BlankFirst(slots: seq<Entry>) {
    exists i :: 0 <= i < |slots| && slots[i].item == None && forall j | 0 <= j < i :: slots[j].hash != 0
  }

  ghost predicate BlanksAreBlank(slots: seq<Entry>) {
    forall i | 0 <= i < |slots| && slots[i].item == None :: slots[i] == BLANK
  }

  /** A lookup finds a slot that holds nothing exactly for hash zero, if a blank slot comes first. */
  lemma {:induction false} FoundIsBlank(slots: seq<Entry>, hash: nat)
    requires BlanksAreBlank(slots)
    ensures var k := FirstHash(slots, hash);
            k < |slots| && slots[k].item == None <==> hash == 0 && BlankFirst(slots)
  {
    var k := FirstHash(slots, hash);
    if k < |slots| && slots[k].item == None {
      assert slots[k] == BLANK;
    }
    if hash == 0 && BlankFirst(slots) {
      var i :| 0 <= i < |slots| && slots[i].item == None && forall j | 0 <= j < i :: slots[j].hash != 0;
      assert slots[i] == BLANK && k == i;
    }
  }

  /** After a deletion, looking for hash zero finds a blank slot, unless an entry with that hash comes first. */
  lemma {:induction false} DeletedIsFound(slots: seq<Entry>, idx: nat)
    requires idx < |slots| && FirstHash(slots, 0) >= idx
    ensures FirstHash(slots[idx := BLANK], 0) == idx && slots[idx := BLANK][idx].item == None
  {
    var s := slots[idx := BLANK];
    assert s[idx].hash == 0;
    assert forall j | 0 <= j < idx :: s[j] == slots[j] && s[j].hash != 0;
  }

  /** With the first of two slots deleted, a fork knows the second one as the first. */
  lemma {:induction false} HandleShifts(item: Regex, hash: nat)
    ensures var slots := [BLANK, Entry(Some(item), hash, false)];
            Loans(slots) == [Loan(slots[1])] && Deleted(slots[..1]) == 1
  {
    var slots := [BLANK, Entry(Some(item), hash, false)];
    assert slots[..1] == [BLANK] && [BLANK][..0] == [];
    assert Loans([]) == [] && Loans([BLANK]) == [] && Deleted([]) == 0;
  }

  class Cache {
    const entries: array<Entry>
    var size: nat
    const maxEntries: nat

    ghost predicate Valid()
      reads this, entries
    {
      && entries.Length == CACHE_MAX && size <= maxEntries <= CACHE_MAX
      && forall i | size <= i < CACHE_MAX :: entries[i] == BLANK
    }

    ghost function Slots(): seq<Entry>
      requires Valid()
      reads this, entries
    {
      entries[..size]
    }

    constructor (max: nat)
      ensures Valid() && Slots() == [] && fresh(entries) && maxEntries == if max < CACHE_MAX then max else CACHE_MAX
    {
      entries := new Entry[CACHE_MAX](_ => BLANK);
      size := 0;
      maxEntries := if max < CACHE_MAX then max else CACHE_MAX;
    }

    method Find(hash: nat) returns (idx: int)
      requires Valid()
      ensures idx == if FirstHash(Slots(), hash) < size then FirstHash(Slots(), hash) else -1
    {
      idx := 0;
      while idx < size
        invariant 0 <= idx <= size && forall j | 0 <= j < idx :: entries[j].hash != hash
      {
        if entries[idx].hash == hash {
          return;
        }
        idx := idx + 1;
      }
      idx := -1;
    }

    /** None stands for the exception. */
    method Manage(item: Regex, hash: nat) returns (idx: Option<nat>)
      requires Valid()
      modifies this, entries
      ensures Valid() && idx == if old(size) < maxEntries then Some(old(size)) else None
      ensures Slots() == if idx.Some? then old(Slots()) + [Entry(Some(item), hash, false)] else old(Slots())
    {
      if size < maxEntries {
        entries[size] := Entry(Some(item), hash, false);
        size := size + 1;
        return Some(size - 1);
      }
      return None;
    }

    method Free(idx: nat) returns (ok: bool)
      requires Valid()
      modifies entries
      ensures Valid() && (ok <==> idx < CACHE_MAX)
      ensures Slots() == if idx < size then old(Slots())[idx := BLANK] else old(Slots())
    {
      if idx >= CACHE_MAX {
        return false;
      }
      entries[idx] := BLANK;
      return true;
    }

    method LoanFrom(source: Cache) returns (ok: bool)
      requires Valid() && source.Valid() && source != this && source.entries != entries
      modifies this, entries
      ensures Valid() && source.Valid() && source.Slots() == old(source.Slots())
      ensures ok <==> old(size) + |Loans(source.Slots())| <= maxEntries
      ensures ok ==> Slots() == old(Slots()) + Loans(source.Slots())
    {
      ghost var theirs, ours := source.Slots(), Slots();
      for idx := 0 to source.size
        invariant Valid() && source.Valid() && source.Slots() == theirs && source.size == old(source.size)
        invariant Slots() == ours + Loans(theirs[..idx])
      {
        var entry := source.entries[idx];
        assert theirs[..idx + 1][..idx] == theirs[..idx];
        if entry.item != None {
          if size >= maxEntries {
            LoansGrow(theirs, idx + 1);
            return false;
          }
          entries[size] := Entry(entry.item, entry.hash, false);
          entries[size] := entries[size].(nonOwned := true);
          size := size + 1;
        }
      }
      assert theirs[..|theirs|] == theirs;
      return true;
    }

    /** The destructor of Script: VRE_free for each owned entry. */
    method FreeOwned() returns (freed: seq<Regex>)
      requires Valid()
      modifies entries
      ensures Valid() && freed == OwnedItems(old(Slots())) && OwnedItems(Slots()) == []
      ensures forall i | 0 <= i < size :: entries[i] == Emptied(old(entries[i]))
    {
      freed := [];
      ghost var was := Slots();
      for idx := 0 to size
        invariant Valid() && freed == OwnedItems(was[..idx]) && entries[idx..size] == was[idx..]
        invariant forall j | 0 <= j < idx :: entries[j] == Emptied(was[j])
      {
        var entry := entries[idx];
        assert entries[idx] == entries[idx..size][0];
        assert was[..idx + 1][..idx] == was[..idx] && was[idx..][0] == was[idx];
        assert entries[idx + 1..size] == entries[idx..size][1..];
        if entry.item != None && !entry.nonOwned {
          freed := freed + [entry.item.value];
          entries[idx] := entry.(item := None);
        }
        assert entries[idx + 1..size] == was[idx + 1..];
      }
      assert was[..|was|] == was;
      NoOwned(Slots());
    }
  }

  /** regex_compile; compiled is what VRE_compile returns for the pattern, and None as a result an exception. */
  method RegexCompile(cache: Cache, hash: nat, compiled: Option<Regex>) returns (handle: Option<nat>)
    requires cache.Valid()
    modifies cache, cache.entries
    ensures cache.Valid()
    ensures var was := old(cache.Slots()); var found := FirstHash(was, hash);
            if found < |was| then handle == Some(found) && cache.Slots() == was
            else if compiled == None || |was| == cache.maxEntries then handle == None && cache.Slots() == was
            else handle == Some(|was|) && cache.Slots() == was + [Entry(compiled, hash, false)]
  {
    var idx := cache.Find(hash);
    if idx >= 0 {
      return Some(idx);
    }
    if compiled == None {
      return None;
    }
    handle := cache.Manage(compiled.value, hash);
  }

  lemma {:induction false} LoansGrow(slots: seq<Entry>, n: nat)
    requires n <= |slots|
    ensures |Loans(slots[..n])| <= |Loans(slots)|
    decreases |slots|
  {
    if n < |slots| {
      var init := slots[..|slots| - 1];
      assert init[..n] == slots[..n];
      LoansGrow(init, n);
    } else {
      assert slots[..n] == slots;
    }
  }

  lemma {:induction false} NoOwned(slots: seq<Entry>)
    requires forall i | 0 <= i < |slots| :: !IsOwned(slots[i])
    ensures OwnedItems(slots) == []
  {
    if slots != [] {
      NoOwned(slots[..|slots| - 1]);
    }
  }

  // ---- All scripts together ------------------------------------------------------------------------

  /** A script and the master it was forked from, if any. */
  datatype Script = Script(slots: seq<Entry>, cap: nat, parent: Option<nat>)

  datatype Free = Free(script: nat, item: Regex)

  /** Who compiled what, the calls of VRE_free so far, and what can no longer be freed. */
  datatype State = State(scripts: map<nat, Script>, compiler: map<Regex, nat>, frees: seq<Free>, lost: set<Regex>)

  datatype Op =
    | Load(script: nat, max: nat)
    | Fork(script: nat, master: nat, max: nat)
    | Compile(script: nat, hash: nat, result: Option<Regex>)
    | Delete(script: nat, idx: nat)
    | Destroy(script: nat)

  function Cap(max: nat): nat {
    if max < CACHE_MAX then max else CACHE_MAX
  }

  /** A master outlives its forks. */
  ghost predicate Enabled(st: State, op: Op) {
    match op
    case Load(s, _) => s !in st.scripts
    case Fork(s, m, _) => s !in st.scripts && m in st.scripts && st.scripts[m].parent == None
    case Compile(s, _, r) => s in st.scripts && (r.Some? ==> r.value !in st.compiler)
    case Delete(s, _) => s in st.scripts
    case Destroy(s) => s in st.scripts && forall f | f in st.scripts :: st.scripts[f].parent != Some(s)
  }

  function Freeing(s: nat, items: seq<Regex>): seq<Free> {
    seq(|items|, i requires 0 <= i < |items| => Free(s, items[i]))
  }

  /** regex_compile, regex_delete, the constructors and the destructor of Script. */
  ghost function Step(st: State, op: Op): State
    requires Enabled(st, op)
  {
    match op
    case Load(s, max) => st.(scripts := st.scripts[s := Script([], Cap(max), None)])
    case Fork(s, m, max) =>
      var loans := Loans(st.scripts[m].slots);
      if |loans| > Cap(max) then st else st.(scripts := st.scripts[s := Script(loans, Cap(max), Some(m))])
    case Compile(s, hash, result) =>
      var script := st.scripts[s];
      if FirstHash(script.slots, hash) < |script.slots| || result == None then st
      else if |script.slots| < script.cap then
        st.(scripts := st.scripts[s := script.(slots := script.slots + [Entry(result, hash, false)])],
            compiler := st.compiler[result.value := s])
      else st.(compiler := st.compiler[result.value := s], lost := st.lost + {result.value})
    case Delete(s, idx) =>
      var script := st.scripts[s];
      if idx >= |script.slots| then st
      else
        var e := script.slots[idx];
        st.(scripts := st.scripts[s := script.(slots := script.slots[idx := BLANK])],
            lost := if IsOwned(e) then st.lost + {e.item.value} else st.lost)
    case Destroy(s) =>
      st.(scripts := st.scripts - {s}, frees := st.frees + Freeing(s, OwnedItems(st.scripts[s].slots)))
  }

  ghost predicate IsFreed(frees: seq<Free>, x: Regex) {
    exists i :: 0 <= i < |frees| && frees[i].item == x
  }

  ghost predicate Holds(slots: seq<Entry>, x: Regex) {
    exists i :: 0 <= i < |slots| && IsOwned(slots[i]) && slots[i].item.value == x
  }

  /** An entry is usable: its expression was compiled by the script itself, or by its master, and is not freed. */
  ghost predicate EntryOk(st: State, s: nat, script: Script, i: int)
    requires 0 <= i < |script.slots|
  {
    var e := script.slots[i];
    if e.item == None then e == BLANK
    else
      var x := e.item.value;
      && x in st.compiler && !IsFreed(st.frees, x)
      && (if e.nonOwned then script.parent == Some(st.compiler[x]) else st.compiler[x] == s && x !in st.lost)
  }

  ghost predicate ScriptOk(st: State, s: nat, script: Script) {
    && |script.slots| <= script.cap <= CACHE_MAX
    && (script.parent.Some? ==> script.parent.value in st.scripts && st.scripts[script.parent.value].parent == None)
    && (forall i {:trigger EntryOk(st, s, script, i)} | 0 <= i < |script.slots| :: EntryOk(st, s, script, i))
    && (forall i, j | 0 <= i < j < |script.slots| && IsOwned(script.slots[i]) && IsOwned(script.slots[j]) ::
          script.slots[i].item != script.slots[j].item)
  }

  /** Each expression was freed at most once, by the script that compiled it. */
  ghost predicate FreesOk(frees: seq<Free>, compiler: map<Regex, nat>) {
    && (forall i | 0 <= i < |frees| :: frees[i].item in compiler && frees[i].script == compiler[frees[i].item])
    && (forall i, j | 0 <= i < j < |frees| :: frees[i].item != frees[j].item)
  }

  /** Each expression that was ever compiled is held by its compiler, or freed, or lost. */
  ghost predicate Accounted(st: State, x: Regex)
    requires x in st.compiler
  {
    || IsFreed(st.frees, x)
    || x in st.lost
    || (st.compiler[x] in st.scripts && Holds(st.scripts[st.compiler[x]].slots, x))
  }

  ghost predicate Inv(st: State) {
    && FreesOk(st.frees, st.compiler)
    && (forall x | x in st.lost :: x in st.compiler && !IsFreed(st.frees, x))
    && (forall s | s in st.scripts :: ScriptOk(st, s, st.scripts[s]))
    && (forall x {:trigger Accounted(st, x)} | x in st.compiler :: Accounted(st, x))
  }

  lemma {:induction false} OwnedIsHeld(slots: seq<Entry>, x: Regex)
    ensures x in OwnedItems(slots) <==> Holds(slots, x)
  {
    if slots != [] {
      var n := |slots| - 1;
      OwnedIsHeld(slots[..n], x);
      if Holds(slots, x) && !Holds(slots[..n], x) {
        var i :| 0 <= i < |slots| && IsOwned(slots[i]) && slots[i].item.value == x;
        assert i < n ==> slots[..n][i] == slots[i];
      }
      if Holds(slots[..n], x) {
        var i :| 0 <= i < n && IsOwned(slots[..n][i]) && slots[..n][i].item.value == x;
        assert IsOwned(slots[i]);
      }
    }
  }

  ghost predicate Distinct(items: seq<Regex>) {
    forall i, j | 0 <= i < j < |items| :: items[i] != items[j]
  }

  lemma {:induction false} OwnedDistinct(slots: seq<Entry>)
    requires forall i, j | 0 <= i < j < |slots| && IsOwned(slots[i]) && IsOwned(slots[j]) ::
               slots[i].item != slots[j].item
    ensures Distinct(OwnedItems(slots))
  {
    if slots != [] {
      var n := |slots| - 1;
      OwnedDistinct(slots[..n]);
      if IsOwned(slots[n]) {
        OwnedIsHeld(slots[..n], slots[n].item.value);
      }
    }
  }

  lemma {:induction false} FreedMore(frees: seq<Free>, s: nat, items: seq<Regex>, x: Regex)
    ensures IsFreed(frees + Freeing(s, items), x) <==> IsFreed(frees, x) || x in items
  {
    var all := frees + Freeing(s, items);
    if IsFreed(frees, x) {
      var i :| 0 <= i < |frees| && frees[i].item == x;
      assert all[i].item == x;
    }
    if x in items {
      var i :| 0 <= i < |items| && items[i] == x;
      assert all[|frees| + i].item == x;
    }
  }

  /** What EntryOk says, for one entry of one script. */
  lemma {:induction false} EntryFacts(st: State, s: nat, i: nat)
    requires Inv(st) && s in st.scripts && i < |st.scripts[s].slots|
    ensures EntryOk(st, s, st.scripts[s], i) && ScriptOk(st, s, st.scripts[s])
  {
    assert ScriptOk(st, s, st.scripts[s]);
  }

  lemma {:induction false} ScriptFacts(st: State, s: nat)
    requires Inv(st) && s in st.scripts
    ensures ScriptOk(st, s, st.scripts[s])
  {
  }

  /** A script that an operation does not concern stays as it should be. */
  lemma {:induction false} ScriptKeeps(st: State, st': State, s: nat)
    requires Inv(st) && s in st.scripts && s in st'.scripts && st'.scripts[s] == st.scripts[s]
    requires forall x | x in st.compiler :: x in st'.compiler && st'.compiler[x] == st.compiler[x]
    requires forall x | x in st.compiler && st.compiler[x] == s :: x in st'.lost ==> x in st.lost
    requires forall i | 0 <= i < |st.scripts[s].slots| && st.scripts[s].slots[i].item.Some? ::
               IsFreed(st'.frees, st.scripts[s].slots[i].item.value) ==>
                 IsFreed(st.frees, st.scripts[s].slots[i].item.value)
    requires var p := st.scripts[s].parent; p.Some? ==> p.value in st'.scripts && st'.scripts[p.value].parent == None
    ensures ScriptOk(st', s, st'.scripts[s])
  {
    hide Inv, IsFreed;
    var script := st.scripts[s];
    ScriptFacts(st, s);
    forall i | 0 <= i < |script.slots| ensures EntryOk(st', s, script, i) {
      assert EntryOk(st, s, script, i);
    }
  }

  lemma {:induction false} LoadInv(st: State, op: Op)
    requires Inv(st) && op.Load? && Enabled(st, op)
    ensures Inv(Step(st, op))
  {
    var st' := Step(st, op);
    forall s | s in st'.scripts ensures ScriptOk(st', s, st'.scripts[s]) {
      if s != op.script {
        ScriptFacts(st, s);
        ScriptKeeps(st, st', s);
      }
    }
    forall x | x in st'.compiler ensures Accounted(st', x) {
      assert Accounted(st, x);
    }
  }

  lemma {:induction false} ForkInv(st: State, op: Op)
    requires Inv(st) && op.Fork? && Enabled(st, op)
    ensures Inv(Step(st, op))
  {
    var st' := Step(st, op);
    forall s | s in st'.scripts ensures ScriptOk(st', s, st'.scripts[s]) {
      if s == op.script && s !in st.scripts {
        LoansOk(st, op.master);
      } else {
        ScriptFacts(st, s);
        ScriptKeeps(st, st', s);
      }
    }
    forall x | x in st'.compiler ensures Accounted(st', x) {
      assert Accounted(st, x);
    }
  }

  /** The loans of a master are all of its own expressions. */
  lemma {:induction false} LoansOk(st: State, m: nat)
    requires Inv(st) && m in st.scripts && st.scripts[m].parent == None
    ensures forall k | 0 <= k < |Loans(st.scripts[m].slots)| ::
              var e := Loans(st.scripts[m].slots)[k];
              e.nonOwned && e.item.Some? && e.item.value in st.compiler && st.compiler[e.item.value] == m
              && !IsFreed(st.frees, e.item.value)
  {
    hide Inv, IsFreed;
    var slots := st.scripts[m].slots;
    forall k | 0 <= k < |Loans(slots)|
      ensures var e := Loans(slots)[k];
              e.nonOwned && e.item.Some? && e.item.value in st.compiler && st.compiler[e.item.value] == m
              && !IsFreed(st.frees, e.item.value)
    {
      var i := LoanSource(slots, k);
      EntryFacts(st, m, i);
    }
  }

  lemma {:induction false} CompileInv(st: State, op: Op)
    requires Inv(st) && op.Compile? && Enabled(st, op)
    ensures Inv(Step(st, op))
  {
    var st' := Step(st, op);
    if st' != st {
      var x := op.result.value;
      ScriptFacts(st, op.script);
      assert !IsFreed(st.frees, x);
      forall s | s in st'.scripts ensures ScriptOk(st', s, st'.scripts[s]) {
        ScriptFacts(st, s);
        if st'.scripts[s] == st.scripts[s] {
          ScriptKeeps(st, st', s);
        } else {
          Appended(st, st', s, x, op.hash);
        }
      }
      forall y | y in st'.compiler ensures Accounted(st', y) {
        if y != x {
          assert Accounted(st, y);
          StillHeld(st.scripts, st'.scripts, op.script, st.compiler[y], y);
        } else {
          var n := |st.scripts[op.script].slots|;
          assert x in st'.lost
                 || (st'.scripts[op.script].slots[n].item == Some(x) && IsOwned(st'.scripts[op.script].slots[n]));
        }
      }
    }
  }

  lemma {:induction false} Appended(st: State, st': State, s: nat, x: Regex, hash: nat)
    requires Inv(st) && s in st.scripts && x !in st.compiler && |st.scripts[s].slots| < st.scripts[s].cap
    requires var script := st.scripts[s].(slots := st.scripts[s].slots + [Entry(Some(x), hash, false)]);
             st' == st.(scripts := st.scripts[s := script], compiler := st.compiler[x := s])
    ensures ScriptOk(st', s, st'.scripts[s])
  {
    var script, script' := st.scripts[s], st'.scripts[s];
    ScriptFacts(st, s);
    forall i | 0 <= i < |script'.slots| ensures EntryOk(st', s, script', i) {
      if i < |script.slots| {
        assert EntryOk(st, s, script, i);
      }
    }
    forall i, j | 0 <= i < j < |script'.slots| && IsOwned(script'.slots[i]) && IsOwned(script'.slots[j])
      ensures script'.slots[i].item != script'.slots[j].item
    {
      assert EntryOk(st, s, script, i);
    }
  }

  /** Nothing is taken out of a table by adding to it. */
  lemma {:induction false} StillHeld(scripts: map<nat, Script>, scripts': map<nat, Script>, s: nat, c: nat, y: Regex)
    requires s in scripts && s in scripts' && scripts' == scripts[s := scripts'[s]]
             && scripts[s].slots <= scripts'[s].slots
    ensures c in scripts && Holds(scripts[c].slots, y) ==> c in scripts' && Holds(scripts'[c].slots, y)
  {
    if c in scripts && Holds(scripts[c].slots, y) {
      var i :| 0 <= i < |scripts[c].slots| && IsOwned(scripts[c].slots[i]) && scripts[c].slots[i].item.value == y;
      assert scripts'[c].slots[i] == scripts[c].slots[i];
    }
  }

  lemma {:induction false} DeleteInv(st: State, op: Op)
    requires Inv(st) && op.Delete? && Enabled(st, op)
    ensures Inv(Step(st, op))
  {
    var st' := Step(st, op);
    var s, idx := op.script, op.idx;
    if idx < |st.scripts[s].slots| {
      var slots := st.scripts[s].slots;
      EntryFacts(st, s, idx);
      forall t | t in st'.scripts ensures ScriptOk(st', t, st'.scripts[t]) {
        ScriptFacts(st, t);
        if t != s {
          ScriptKeeps(st, st', t);
        } else {
          Blanked(st, st', s, idx);
        }
      }
      forall y | y in st'.compiler ensures Accounted(st', y) {
        assert Accounted(st, y);
        if st.compiler[y] in st.scripts && Holds(st.scripts[st.compiler[y]].slots, y) && y !in st'.lost {
          var i :| 0 <= i < |st.scripts[st.compiler[y]].slots| && IsOwned(st.scripts[st.compiler[y]].slots[i])
                   && st.scripts[st.compiler[y]].slots[i].item.value == y;
          assert st'.scripts[st.compiler[y]].slots[i] == st.scripts[st.compiler[y]].slots[i];
        }
      }
    }
  }

  lemma {:induction false} Blanked(st: State, st': State, s: nat, idx: nat)
    requires Inv(st) && Enabled(st, Delete(s, idx)) && idx < |st.scripts[s].slots| && st' == Step(st, Delete(s, idx))
    ensures ScriptOk(st', s, st'.scripts[s])
  {
    var script, script' := st.scripts[s], st'.scripts[s];
    ScriptFacts(st, s);
    forall i | 0 <= i < |script'.slots| ensures EntryOk(st', s, script', i) {
      assert EntryOk(st, s, script, i);
      assert IsOwned(script.slots[i]) && IsOwned(script.slots[idx]) && i != idx
             ==> script.slots[i].item != script.slots[idx].item;
    }
  }

  lemma {:induction false} DestroyInv(st: State, op: Op)
    requires Inv(st) && op.Destroy? && Enabled(st, op)
    ensures Inv(Step(st, op))
  {
    hide IsFreed, Holds;
    var st' := Step(st, op);
    var s := op.script;
    var items := OwnedItems(st.scripts[s].slots);
    ScriptFacts(st, s);
    DestroyFrees(st, s);
    forall t | t in st'.scripts ensures ScriptOk(st', t, st'.scripts[t]) {
      ScriptFacts(st, t);
      OthersNotFreed(st, s, t);
      ScriptKeeps(st, st', t);
    }
    forall y | y in st'.compiler ensures Accounted(st', y) {
      assert Accounted(st, y);
      FreedMore(st.frees, s, items, y);
      OwnedIsHeld(st.scripts[s].slots, y);
    }
    forall x | x in st'.lost ensures !IsFreed(st'.frees, x) {
      FreedMore(st.frees, s, items, x);
      HeldFacts(st, s, x);
    }
  }

  lemma {:induction false} HeldFacts(st: State, s: nat, x: Regex)
    requires Inv(st) && s in st.scripts
    ensures x in OwnedItems(st.scripts[s].slots)
            ==> x in st.compiler && st.compiler[x] == s && x !in st.lost && !IsFreed(st.frees, x)
  {
    hide Inv, IsFreed;
    OwnedIsHeld(st.scripts[s].slots, x);
    if x in OwnedItems(st.scripts[s].slots) {
      var i :| 0 <= i < |st.scripts[s].slots| && IsOwned(st.scripts[s].slots[i])
        && st.scripts[s].slots[i].item.value == x;
      EntryFacts(st, s, i);
    }
  }

  /** Freeing what its compiler still holds is freeing once. */
  lemma {:induction false} MoreFrees(frees: seq<Free>, compiler: map<Regex, nat>, s: nat, items: seq<Regex>)
    requires FreesOk(frees, compiler) && Distinct(items)
    requires forall x | x in items :: x in compiler && compiler[x] == s && !IsFreed(frees, x)
    ensures FreesOk(frees + Freeing(s, items), compiler)
  {
    var all, n := frees + Freeing(s, items), |frees|;
    assert forall i | 0 <= i < n :: all[i] == frees[i];
    assert forall i | n <= i < |all| :: all[i] == Free(s, items[i - n]) && items[i - n] in items;
    forall i, j | 0 <= i < j < |all| ensures all[i].item != all[j].item {
      if i < n <= j {
        assert !IsFreed(frees, items[j - n]);
      }
    }
  }

  lemma {:induction false} DestroyFrees(st: State, s: nat)
    requires Inv(st) && s in st.scripts
    ensures FreesOk(st.frees + Freeing(s, OwnedItems(st.scripts[s].slots)), st.compiler)
  {
    hide Inv, OwnedItems, IsOwned, FreesOk, Freeing, IsFreed;
    var items := OwnedItems(st.scripts[s].slots);
    FreesFacts(st);
    ScriptFacts(st, s);
    OwnedDistinct(st.scripts[s].slots);
    forall x | x in items ensures x in st.compiler && st.compiler[x] == s && !IsFreed(st.frees, x) {
      HeldFacts(st, s, x);
    }
    MoreFrees(st.frees, st.compiler, s, items);
  }

  lemma {:induction false} OthersNotFreed(st: State, s: nat, t: nat)
    requires Inv(st) && s in st.scripts && t in st.scripts && t != s && st.scripts[t].parent != Some(s)
    ensures forall i | 0 <= i < |st.scripts[t].slots| && st.scripts[t].slots[i].item.Some? ::
              !IsFreed(st.frees + Freeing(s, OwnedItems(st.scripts[s].slots)), st.scripts[t].slots[i].item.value)
  {
    hide Inv, IsFreed;
    forall i | 0 <= i < |st.scripts[t].slots| && st.scripts[t].slots[i].item.Some?
      ensures !IsFreed(st.frees + Freeing(s, OwnedItems(st.scripts[s].slots)), st.scripts[t].slots[i].item.value)
    {
      var x := st.scripts[t].slots[i].item.value;
      EntryFacts(st, t, i);
      FreedMore(st.frees, s, OwnedItems(st.scripts[s].slots), x);
      HeldFacts(st, s, x);
    }
  }

  lemma {:induction false} StepInv(st: State, op: Op)
    requires Inv(st) && Enabled(st, op)
    ensures Inv(Step(st, op))
  {
    hide Inv;
    match op
    case Load(_, _) => LoadInv(st, op);
    case Fork(_, _, _) => ForkInv(st, op);
    case Compile(_, _, _) => CompileInv(st, op);
    case Delete(_, _) => DeleteInv(st, op);
    case Destroy(_) => DestroyInv(st, op);
  }

  ghost predicate Legal(st: State, ops: seq<Op>)
    decreases ops
  {
    ops == [] || (Enabled(st, ops[0]) && Legal(Step(st, ops[0]), ops[1..]))
  }

  ghost function Run(st: State, ops: seq<Op>): State
    requires Legal(st, ops)
    decreases ops
  {
    if ops == [] then st else Run(Step(st, ops[0]), ops[1..])
  }

  lemma {:induction false} RunInv(st: State, ops: seq<Op>)
    requires Inv(st) && Legal(st, ops)
    ensures Inv(Run(st, ops))
    decreases ops
  {
    hide Inv, Step, Enabled;
    if ops != [] {
      StepInv(st, ops[0]);
      RunInv(Step(st, ops[0]), ops[1..]);
    }
  }

  const NOTHING := State(map[], map[], [], {})

  /**
   Over any run: an expression is freed at most once, and by the script that compiled it; no table
   refers to a freed one or outgrows its limit.
   */
  lemma {:induction false} FreedOnce(ops: seq<Op>)
    requires Legal(NOTHING, ops)
    ensures var st := Run(NOTHING, ops);
            && FreesOk(st.frees, st.compiler)
            && (forall s, i | s in st.scripts && 0 <= i < |st.scripts[s].slots| && st.scripts[s].slots[i].item.Some? ::
                  !IsFreed(st.frees, st.scripts[s].slots[i].item.value))
            && (forall s | s in st.scripts :: |st.scripts[s].slots| <= st.scripts[s].cap <= CACHE_MAX)
  {
    RunInv(NOTHING, ops);
    var st := Run(NOTHING, ops);
    hide Inv, IsFreed;
    forall s, i | s in st.scripts && 0 <= i < |st.scripts[s].slots| && st.scripts[s].slots[i].item.Some?
      ensures !IsFreed(st.frees, st.scripts[s].slots[i].item.value)
    {
      EntryFacts(st, s, i);
    }
    forall s | s in st.scripts ensures |st.scripts[s].slots| <= st.scripts[s].cap <= CACHE_MAX {
      ScriptFacts(st, s);
    }
    FreesFacts(st);
  }

  /**
   In every reachable state, a regex_compile that finds its hash returns the number of a live
   expression, except for hash zero when a deleted slot comes first.
   */
  lemma {:induction false} HandleIsLive(ops: seq<Op>, s: nat, hash: nat)
    requires Legal(NOTHING, ops) && s in Run(NOTHING, ops).scripts
    ensures var st := Run(NOTHING, ops); var slots := st.scripts[s].slots; var k := FirstHash(slots, hash);
            k < |slots| ==>
              (slots[k].item.Some? && !IsFreed(st.frees, slots[k].item.value) <==> !(hash == 0 && BlankFirst(slots)))
  {
    RunInv(NOTHING, ops);
    hide Inv, IsFreed, BlankFirst, Run;
    var st := Run(NOTHING, ops);
    var slots := st.scripts[s].slots;
    var k := FirstHash(slots, hash);
    forall i | 0 <= i < |slots| && slots[i].item == None ensures slots[i] == BLANK {
      EntryFacts(st, s, i);
    }
    FoundIsBlank(slots, hash);
    if k < |slots| {
      EntryFacts(st, s, k);
    }
  }

  // ---- Numbers in a fork -----------------------------------------------------------------------------

  /** From n on, the table has no loans. */
  ghost predicate OwnFrom(slots: seq<Entry>, n: nat) {
    n <= |slots| && forall j | n <= j < |slots| && slots[j].item.Some? :: IsOwned(slots[j])
  }

  lemma {:induction false} StepKeepsSlots(st: State, op: Op, s: nat, i: nat, n: nat)
    requires Enabled(st, op) && s in st.scripts && op != Destroy(s) && OwnFrom(st.scripts[s].slots, n)
    ensures s in Step(st, op).scripts && Step(st, op).scripts[s].parent == st.scripts[s].parent
    ensures OwnFrom(Step(st, op).scripts[s].slots, n)
    ensures var slots := st.scripts[s].slots;
            i < |slots| && op != Delete(s, i) ==>
              i < |Step(st, op).scripts[s].slots| && Step(st, op).scripts[s].slots[i] == slots[i]
  {
    hide OwnedItems, Loans;
  }

  /** A slot keeps its number and its entry until it is deleted, and new slots are not loans. */
  lemma {:induction false} RunKeepsSlots(st: State, ops: seq<Op>, s: nat, i: nat, n: nat)
    requires Legal(st, ops) && s in st.scripts && Destroy(s) !in ops && OwnFrom(st.scripts[s].slots, n)
    ensures s in Run(st, ops).scripts && OwnFrom(Run(st, ops).scripts[s].slots, n)
    ensures var slots := st.scripts[s].slots;
            i < |slots| && Delete(s, i) !in ops ==>
              i < |Run(st, ops).scripts[s].slots| && Run(st, ops).scripts[s].slots[i] == slots[i]
    decreases ops
  {
    hide Step, Enabled, OwnFrom;
    if ops != [] {
      StepKeepsSlots(st, ops[0], s, i, n);
      RunKeepsSlots(Step(st, ops[0]), ops[1..], s, i, n);
    }
  }

  lemma {:induction false} MasterStays(st: State, ops: seq<Op>, f: nat, m: nat)
    requires Legal(st, ops) && f in st.scripts && st.scripts[f].parent == Some(m) && Destroy(f) !in ops
    ensures Destroy(m) !in ops
    decreases ops
  {
    if ops != [] {
      assert ops[0] != Destroy(m);
      hide Step, Enabled;
      StepKeepsSlots(st, ops[0], f, 0, |st.scripts[f].slots|);
      MasterStays(Step(st, ops[0]), ops[1..], f, m);
    }
  }

  /** A master has no loans, and no expression twice. */
  lemma {:induction false} MasterOwns(st: State, m: nat, i: nat)
    requires Inv(st) && m in st.scripts && st.scripts[m].parent == None
    requires i < |st.scripts[m].slots| && st.scripts[m].slots[i].item.Some?
    ensures var slots := st.scripts[m].slots;
            && IsOwned(slots[i])
            && forall j | 0 <= j < |slots| && j != i :: slots[j].item != slots[i].item
  {
    var slots := st.scripts[m].slots;
    EntryFacts(st, m, i);
    hide Inv, IsFreed;
    forall j | 0 <= j < |slots| && j != i ensures slots[j].item != slots[i].item {
      if slots[j].item.Some? {
        assert EntryOk(st, m, st.scripts[m], j);
      }
    }
  }

  lemma {:induction false} OwnDiffer(st: State, f: nat, m: nat, i: nat)
    requires Inv(st) && f in st.scripts && m in st.scripts && f != m
    requires i < |st.scripts[f].slots| && i < |st.scripts[m].slots|
    requires IsOwned(st.scripts[f].slots[i]) && IsOwned(st.scripts[m].slots[i])
    ensures st.scripts[f].slots[i].item != st.scripts[m].slots[i].item
  {
    EntryFacts(st, f, i);
    EntryFacts(st, m, i);
  }

  /** f was made from m, whose table then was slots, and has it on loan. */
  ghost predicate Forked(st: State, f: nat, m: nat, slots: seq<Entry>) {
    && f in st.scripts && m in st.scripts && f != m
    && st.scripts[f].parent == Some(m) && st.scripts[m].parent == None
    && st.scripts[f].slots == Loans(slots) && st.scripts[m].slots == slots
  }

  lemma {:induction false} HandlesSince(st: State, f: nat, m: nat, slots: seq<Entry>, later: seq<Op>, i: nat)
    requires Inv(st) && Forked(st, f, m, slots) && Legal(st, later) && i < |slots| && slots[i].item.Some?
    requires Destroy(f) !in later && Delete(f, i) !in later && Delete(m, i) !in later
    ensures var last := Run(st, later);
            && m in last.scripts && f in last.scripts
            && i < |last.scripts[m].slots| && last.scripts[m].slots[i] == slots[i]
            && (i < |last.scripts[f].slots| && last.scripts[f].slots[i].item == slots[i].item
                <==> Deleted(slots[..i]) == 0)
  {
    hide Inv, Run, Step, Legal, Enabled, Loans, Deleted;
    var last := Run(st, later);
    RunInv(st, later);
    MasterStays(st, later, f, m);
    RunKeepsSlots(st, later, m, i, |slots|);
    RunKeepsSlots(st, later, f, i, |Loans(slots)|);
    MasterOwns(st, m, i);
    SameHandle(slots, i);
    if |Loans(slots)| <= i < |last.scripts[f].slots| && last.scripts[f].slots[i].item.Some? {
      OwnDiffer(last, f, m, i);
    }
  }

  lemma {:induction false} ForkMakes(st: State, f: nat, m: nat, max: nat)
    requires Enabled(st, Fork(f, m, max)) && |Loans(st.scripts[m].slots)| <= Cap(max)
    ensures Forked(Step(st, Fork(f, m, max)), f, m, st.scripts[m].slots)
  {
  }

  /**
   In every reachable state, whatever happened since the fork: as long as neither has deleted it, a fork
   knows an expression of its master by the same number exactly if no slot before it was deleted when the
   fork was made.
   */
  lemma {:induction false} ForkHandles(ops: seq<Op>, f: nat, m: nat, max: nat, later: seq<Op>, i: nat)
    requires Legal(NOTHING, ops) && Enabled(Run(NOTHING, ops), Fork(f, m, max))
    requires |Loans(Run(NOTHING, ops).scripts[m].slots)| <= Cap(max)
    requires Legal(Step(Run(NOTHING, ops), Fork(f, m, max)), later)
    requires Destroy(f) !in later && Delete(f, i) !in later && Delete(m, i) !in later
    requires var slots := Run(NOTHING, ops).scripts[m].slots; i < |slots| && slots[i].item.Some?
    ensures var st := Run(NOTHING, ops); var slots, last := st.scripts[m].slots, Run(Step(st, Fork(f, m, max)), later);
            && m in last.scripts && f in last.scripts
            && i < |last.scripts[m].slots| && last.scripts[m].slots[i] == slots[i]
            && (i < |last.scripts[f].slots| && last.scripts[f].slots[i].item == slots[i].item
                <==> Deleted(slots[..i]) == 0)
  {
    RunInv(NOTHING, ops);
    var st := Run(NOTHING, ops);
    ForkMakes(st, f, m, max);
    hide Inv, Run, Step, Legal, Loans, Deleted;
    StepInv(st, Fork(f, m, max));
    HandlesSince(Step(st, Fork(f, m, max)), f, m, st.scripts[m].slots, later, i);
  }

  lemma {:induction false} FreesFacts(st: State)
    requires Inv(st)
    ensures FreesOk(st.frees, st.compiler)
  {
  }

  /** Once all scripts are gone, what was compiled has been freed, except what was deleted or found no room. */
  lemma {:induction false} NothingForgotten(ops: seq<Op>, x: Regex)
    requires Legal(NOTHING, ops) && Run(NOTHING, ops).scripts == map[] && x in Run(NOTHING, ops).compiler
    ensures IsFreed(Run(NOTHING, ops).frees, x) <==> x !in Run(NOTHING, ops).lost
  {
    RunInv(NOTHING, ops);
    assert Accounted(Run(NOTHING, ops), x);
  }

  // ---- Deletion ---------------------------------------------------------------------------------------

  lemma {:induction false} StepKeepsBlank(st: State, op: Op, s: nat, i: nat)
    requires Enabled(st, op) && s in st.scripts && op != Destroy(s)
    requires i < |st.scripts[s].slots| && st.scripts[s].slots[i] == BLANK
    ensures var st' := Step(st, op);
            s in st'.scripts && i < |st'.scripts[s].slots| && st'.scripts[s].slots[i] == BLANK
  {
    hide OwnedItems, Loans;
  }

  lemma {:induction false} StaysBlank(st: State, ops: seq<Op>, s: nat, i: nat)
    requires Legal(st, ops) && s in st.scripts && Destroy(s) !in ops
    requires i < |st.scripts[s].slots| && st.scripts[s].slots[i] == BLANK
    ensures var last := Run(st, ops);
            s in last.scripts && i < |last.scripts[s].slots| && last.scripts[s].slots[i] == BLANK
    decreases ops
  {
    hide Step, Enabled;
    if ops != [] {
      StepKeepsBlank(st, ops[0], s, i);
      StaysBlank(Step(st, ops[0]), ops[1..], s, i);
    }
  }

  lemma {:induction false} StaysLost(st: State, ops: seq<Op>, x: Regex)
    requires Legal(st, ops) && x in st.lost
    ensures x in Run(st, ops).lost
    decreases ops
  {
    if ops != [] {
      assert x in Step(st, ops[0]).lost;
      StaysLost(Step(st, ops[0]), ops[1..], x);
    }
  }

  /**
   In every reachable state, whatever happens after regex_delete: the slot holds nothing for as long as the
   script lives, and an expression that the script had compiled itself is never freed.
   */
  lemma {:induction false} DeletedForGood(ops: seq<Op>, s: nat, i: nat, later: seq<Op>)
    requires Legal(NOTHING, ops) && s in Run(NOTHING, ops).scripts && i < |Run(NOTHING, ops).scripts[s].slots|
    requires Legal(Step(Run(NOTHING, ops), Delete(s, i)), later)
    ensures var st := Run(NOTHING, ops); var e, last := st.scripts[s].slots[i], Run(Step(st, Delete(s, i)), later);
            && (Destroy(s) !in later ==>
                  s in last.scripts && i < |last.scripts[s].slots| && last.scripts[s].slots[i] == BLANK)
            && (IsOwned(e) ==> !IsFreed(last.frees, e.item.value))
  {
    RunInv(NOTHING, ops);
    var st := Run(NOTHING, ops);
    var e := st.scripts[s].slots[i];
    var st' := Step(st, Delete(s, i));
    assert st'.scripts[s].slots[i] == BLANK && (IsOwned(e) ==> e.item.value in st'.lost);
    StepInv(st, Delete(s, i));
    hide Run, Step, IsFreed;
    RunInv(st', later);
    if Destroy(s) !in later {
      StaysBlank(st', later, s, i);
    }
    if IsOwned(e) {
      StaysLost(st', later, e.item.value);
    }
  }

  // ---- The tables themselves ----------------------------------------------------------------------------

  /** A table in the heap is that of a script. */
  ghost predicate Shows(cache: Cache, script: Script)
    reads cache, cache.entries
  {
    cache.Valid() && cache.Slots() == script.slots && cache.maxEntries == script.cap
  }

  /** An operation concerns one script. */
  lemma {:induction false} OthersStay(st: State, op: Op)
    requires Enabled(st, op)
    ensures var st' := Step(st, op); var s := op.script;
            && (forall t | t != s :: t in st'.scripts <==> t in st.scripts)
            && (forall t | t in st.scripts && t != s :: st'.scripts[t] == st.scripts[t])
            && (op.Load? || op.Compile? || op.Delete? ==> s in st'.scripts)
            && (op.Destroy? ==> s !in st'.scripts)
  {
  }

  /** The constructor of a script from a binary. */
  method NewTable(ghost st: State, s: nat, max: nat) returns (cache: Cache)
    requires Enabled(st, Load(s, max))
    ensures fresh(cache) && fresh(cache.entries) && Shows(cache, Step(st, Load(s, max)).scripts[s])
  {
    cache := new Cache(max);
  }

  /** The constructor of a script from another one; None stands for the exception, and then there is no script. */
  method ForkTable(ghost st: State, s: nat, m: nat, max: nat, source: Cache) returns (cache: Option<Cache>)
    requires Enabled(st, Fork(s, m, max)) && Shows(source, st.scripts[m])
    ensures cache.Some? <==> s in Step(st, Fork(s, m, max)).scripts
    ensures cache.Some? ==> fresh(cache.value) && fresh(cache.value.entries)
                            && Shows(cache.value, Step(st, Fork(s, m, max)).scripts[s])
    ensures cache == None ==> Step(st, Fork(s, m, max)) == st
  {
    var table := new Cache(max);
    var ok := table.LoanFrom(source);
    return if ok then Some(table) else None;
  }

  /** regex_compile answers a number of the table with that hash; None stands for an exception. */
  method CompileIn(ghost st: State, s: nat, hash: nat, compiled: Option<Regex>, cache: Cache)
    returns (handle: Option<nat>)
    requires Enabled(st, Compile(s, hash, compiled)) && Shows(cache, st.scripts[s])
    modifies cache, cache.entries
    ensures var script := Step(st, Compile(s, hash, compiled)).scripts[s];
            Shows(cache, script) && Answers(script, hash, compiled, handle)
  {
    handle := RegexCompile(cache, hash, compiled);
  }

  ghost predicate Answers(script: Script, hash: nat, compiled: Option<Regex>, handle: Option<nat>) {
    if handle.Some? then handle.value < |script.slots| && script.slots[handle.value].hash == hash
    else FirstHash(script.slots, hash) == |script.slots| && (compiled == None || |script.slots| == script.cap)
  }

  /** regex_delete; false stands for the exception. */
  method DeleteIn(ghost st: State, s: nat, idx: nat, cache: Cache) returns (ok: bool)
    requires Enabled(st, Delete(s, idx)) && Shows(cache, st.scripts[s])
    modifies cache.entries
    ensures Shows(cache, Step(st, Delete(s, idx)).scripts[s]) && (ok <==> idx < CACHE_MAX)
  {
    ok := cache.Free(idx);
  }

  /** The destructor of a script, and the expressions it gave to VRE_free. */
  method DestroyTable(ghost st: State, s: nat, cache: Cache) returns (freed: seq<Regex>)
    requires Enabled(st, Destroy(s)) && Shows(cache, st.scripts[s])
    modifies cache.entries
    ensures Step(st, Destroy(s)).frees == st.frees + Freeing(s, freed)
  {
    freed := cache.FreeOwned();
  }

  /** The live scripts, each with its own table, do what Step says, operation by operation. */
  class Scripts {
    var caches: map<nat, Cache>
    ghost var state: State

    ghost function Objects(): set<object>
      reads this
    {
      (set s | s in caches :: caches[s] as object) + (set s | s in caches :: caches[s].entries as object)
    }

    ghost predicate Valid()
      reads this, Objects()
    {
      && caches.Keys == state.scripts.Keys
      && (forall s, t | s in caches && t in caches && s != t ::
            caches[s] != caches[t] && caches[s].entries != caches[t].entries)
      && forall s | s in caches :: Shows(caches[s], state.scripts[s])
    }

    constructor ()
      ensures Valid() && state == NOTHING && caches == map[]
    {
      caches := map[];
      state := NOTHING;
    }

    /** The tables stay as the state says if only that of s changes, and as the state says. */
    twostate lemma OneChanged(s: nat)
      requires old(Valid()) && caches == old(caches) && s in caches && s in state.scripts
      requires Shows(caches[s], state.scripts[s])
      requires forall t | t in caches && t != s :: unchanged(caches[t]) && unchanged(caches[t].entries)
      requires forall t | t != s :: t in state.scripts <==> t in old(state).scripts
      requires forall t | t in old(state).scripts && t != s :: state.scripts[t] == old(state).scripts[t]
      ensures Valid()
    {
      hide Shows;
    }

    /** The same for a new table. */
    twostate lemma OneAdded(s: nat)
      requires old(Valid()) && s in caches && s in state.scripts && s !in old(caches)
      requires caches == old(caches)[s := caches[s]] && fresh(caches[s]) && fresh(caches[s].entries)
      requires Shows(caches[s], state.scripts[s])
      requires forall t | t in old(caches) :: unchanged(old(caches)[t]) && unchanged(old(caches)[t].entries)
      requires forall t | t != s :: t in state.scripts <==> t in old(state).scripts
      requires forall t | t in old(state).scripts && t != s :: state.scripts[t] == old(state).scripts[t]
      ensures Valid()
    {
      hide Shows;
    }

    method Load(s: nat, max: nat)
      requires Valid() && Enabled(state, Op.Load(s, max))
      modifies this
      ensures Valid() && state == Step(old(state), Op.Load(s, max))
      ensures caches == old(caches)[s := caches[s]] && fresh(caches[s]) && fresh(caches[s].entries)
    {
      OthersStay(state, Op.Load(s, max));
      assert s !in caches;
      hide Enabled, Step, Shows;
      var cache := NewTable(state, s, max);
      state := Step(state, Op.Load(s, max));
      caches := caches[s := cache];
      hide Valid;
      OneAdded(s);
    }

    method Fork(s: nat, m: nat, max: nat) returns (ok: bool)
      requires Valid() && Enabled(state, Op.Fork(s, m, max))
      modifies this
      ensures Valid() && state == Step(old(state), Op.Fork(s, m, max)) && (ok <==> s in state.scripts)
      ensures if ok then caches == old(caches)[s := caches[s]] && fresh(caches[s]) && fresh(caches[s].entries)
              else caches == old(caches)
    {
      OthersStay(state, Op.Fork(s, m, max));
      assert s !in caches && m in caches;
      hide Enabled, Step, Shows;
      var cache := ForkTable(state, s, m, max, caches[m]);
      if cache == None {
        return false;
      }
      state := Step(state, Op.Fork(s, m, max));
      caches := caches[s := cache.value];
      hide Valid;
      OneAdded(s);
      return true;
    }

    method Compile(s: nat, hash: nat, compiled: Option<Regex>) returns (handle: Option<nat>)
      requires Valid() && Enabled(state, Op.Compile(s, hash, compiled))
      modifies this`state, caches[s], caches[s].entries
      ensures Valid() && state == Step(old(state), Op.Compile(s, hash, compiled))
      ensures Answers(state.scripts[s], hash, compiled, handle)
    {
      OthersStay(state, Op.Compile(s, hash, compiled));
      assert s in caches;
      assert forall t | t in caches && t != s :: caches[t] != caches[s] && caches[t].entries != caches[s].entries;
      hide Enabled, Step, Shows, Answers, FirstHash;
      handle := CompileIn(state, s, hash, compiled, caches[s]);
      state := Step(state, Op.Compile(s, hash, compiled));
      hide Valid;
      OneChanged(s);
    }

    method Delete(s: nat, idx: nat) returns (ok: bool)
      requires Valid() && Enabled(state, Op.Delete(s, idx))
      modifies this`state, caches[s].entries
      ensures Valid() && state == Step(old(state), Op.Delete(s, idx))
      ensures ok <==> idx < CACHE_MAX
    {
      OthersStay(state, Op.Delete(s, idx));
      assert s in caches;
      assert forall t | t in caches && t != s :: caches[t] != caches[s] && caches[t].entries != caches[s].entries;
      hide Enabled, Step, Shows;
      ok := DeleteIn(state, s, idx, caches[s]);
      state := Step(state, Op.Delete(s, idx));
      hide Valid;
      OneChanged(s);
    }

    method Destroy(s: nat) returns (freed: seq<Regex>)
      requires Valid() && Enabled(state, Op.Destroy(s))
      modifies this, caches[s].entries
      ensures Valid() && state == Step(old(state), Op.Destroy(s)) && caches == old(caches) - {s}
      ensures state.frees == old(state.frees) + Freeing(s, freed)
    {
      OthersStay(state, Op.Destroy(s));
      assert s in caches;
      hide Enabled, Step, Shows;
      freed := DestroyTable(state, s, caches[s]);
      state := Step(state, Op.Destroy(s));
      caches := caches - {s};
    }
  }
}
