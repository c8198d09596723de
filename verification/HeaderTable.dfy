/** The header table of an HTTP object, and the calls through which a script changes it. */
module HeaderTable {
  import opened Bytes

  /** The first field after the protocol fields. */
  const HDR_FIRST: nat := 6

  const HDR_INVALID: nat := 0xFFFF_FFFF

  datatype Header = Header(field: Bytes, flags: byte)

  function Without(h: seq<Header>, i: nat): seq<Header>
    requires i < |h|
  {
    h[..i] + h[i + 1..]
  }

  /** What is left of a table when the fields at some indices are taken out. */
  function Survivors(h: seq<Header>, dead: set<nat>): seq<Header> {
    if h == [] then []
    else
      var n := |h| - 1;
      Survivors(h[..n], dead) + if n in dead then [] else [h[n]]
  }

  lemma {:induction false} SurvivorsNone(h: seq<Header>)
    ensures Survivors(h, {}) == h
  {
    if h != [] {
      SurvivorsNone(h[..|h| - 1]);
    }
  }

  lemma {:induction false} SurvivorsCount(h: seq<Header>, dead: set<nat>)
    requires forall i | i in dead :: i < |h|
    ensures |Survivors(h, dead)| == |h| - |dead|
  {
    if h == [] {
      assert dead == {};
    } else {
      var n := |h| - 1;
      SurvivorsSame(h[..n], dead, dead - {n});
      SurvivorsCount(h[..n], dead - {n});
    }
  }

  /** Only the indices of the table matter. */
  lemma {:induction false} SurvivorsSame(h: seq<Header>, dead: set<nat>, dead': set<nat>)
    requires forall i | 0 <= i < |h| :: i in dead <==> i in dead'
    ensures Survivors(h, dead) == Survivors(h, dead')
  {
    if h != [] {
      SurvivorsSame(h[..|h| - 1], dead, dead');
    }
  }

  /** A field behind all that were taken out has moved down by as many places. */
  lemma {:induction false} OneMoreDead(h: seq<Header>, dead: set<nat>, m: nat)
    requires m < |h| && forall i | i in dead :: i < m
    ensures |dead| <= m < |h| - |dead| + |dead| && |Survivors(h, dead)| == |h| - |dead|
    ensures m - |dead| < |Survivors(h, dead)| && Survivors(h, dead + {m}) == Without(Survivors(h, dead), m - |dead|)
  {
    var n := |h| - 1;
    SurvivorsCount(h, dead);
    SurvivorsCount(h[..m], dead);
    if m == n {
      SurvivorsSame(h[..n], dead, dead + {m});
      assert Survivors(h, dead) == Survivors(h[..n], dead) + [h[n]];
    } else {
      OneMoreDead(h[..n], dead, m);
      var s := Survivors(h[..n], dead);
      assert Survivors(h, dead) == s + [h[n]];
      assert Without(s + [h[n]], m - |dead|) == Without(s, m - |dead|) + [h[n]];
    }
  }

  ghost predicate Increasing(marks: seq<nat>) {
    forall i, j | 0 <= i < j < |marks| :: marks[i] < marks[j]
  }

  /** How many of the marked fields the delete pass takes out of a table of n fields. */
  function Honoured(n: nat, marks: seq<nat>): (k: nat)
    ensures k <= |marks|
  {
    if marks == [] then 0
    else
      var init := marks[..|marks| - 1];
      var k := Honoured(n, init);
      if k == |init| && marks[|init|] + |init| < n then k + 1 else k
  }

  /** It is the longest prefix of marks m0 < m1 < ... with m_k + k < n. */
  lemma {:induction false} HonouredPrefix(n: nat, marks: seq<nat>)
    requires Increasing(marks)
    ensures var k := Honoured(n, marks);
            && (forall i | 0 <= i < k :: marks[i] + i < n)
            && (forall i | k <= i < |marks| :: marks[i] + i >= n)
  {
    if marks != [] {
      var init := marks[..|marks| - 1];
      HonouredPrefix(n, init);
      if Honoured(n, init) < |init| {
        assert init[|init| - 1] == marks[|init| - 1] < marks[|init|];
      }
    }
  }

  /** All marked fields are taken out exactly if the last one is in reach when its turn comes. */
  lemma {:induction false} AllHonoured(n: nat, marks: seq<nat>)
    requires Increasing(marks) && marks != []
    ensures Honoured(n, marks) == |marks| <==> marks[|marks| - 1] + |marks| - 1 < n
  {
    HonouredPrefix(n, marks);
  }

  /** Of two fields that are the whole table, the second stays although it is marked. */
  lemma {:induction false} SecondMarkIsLost()
    ensures Increasing([6, 7]) && Honoured(8, [6, 7]) == 1
  {
    assert [6, 7][..1] == [6] && [6][..0] == [];
    assert Honoured(8, []) == 0 && Honoured(8, [6]) == 1;
  }

  ghost function Elements(marks: seq<nat>): set<nat> {
    if marks == [] then {} else Elements(marks[..|marks| - 1]) + {marks[|marks| - 1]}
  }

  lemma {:induction false} ElementsOf(marks: seq<nat>)
    requires Increasing(marks)
    ensures |Elements(marks)| == |marks| && forall m | m in Elements(marks) :: m in marks
  {
    if marks != [] {
      var init := marks[..|marks| - 1];
      ElementsOf(init);
      forall m | m in Elements(init) ensures m in marks && m != marks[|init|] {
        var i :| 0 <= i < |init| && init[i] == m;
        assert marks[i] == m;
      }
    }
  }

  /** memmove of count elements down by one place. */
  method MoveDown<T>(a: array<T>, idx: nat, count: nat)
    requires idx + 1 + count <= a.Length
    modifies a
    ensures forall i | 0 <= i < a.Length :: a[i] == if idx <= i < idx + count then old(a[i + 1]) else old(a[i])
  {
    for k := 0 to count
      invariant forall i | 0 <= i < a.Length :: a[i] == if idx <= i < idx + k then old(a[i + 1]) else old(a[i])
    {
      a[idx + k] := a[idx + k + 1];
    }
  }

  /** One field as foreach_header_field hands it to the script, which may mark it as deleted. */
  datatype GuestField = GuestField(index: nat, deleted: bool)

  /** The entries after a callback that marks the given indices. */
  function Marked(entries: seq<GuestField>, chosen: set<nat>): seq<GuestField> {
    seq(|entries|, i requires 0 <= i < |entries| => GuestField(entries[i].index, entries[i].index in chosen))
  }

  /** A field that foreach_header_field offers and the callback marks. */
  ghost predicate Picked(h: seq<Header>, m: nat, chosen: set<nat>) {
    HDR_FIRST <= m < |h| && m in chosen && h[m].field != []
  }

  lemma {:induction false} OfferedMarks(h: seq<Header>, n: nat, chosen: set<nat>)
    requires HDR_FIRST <= n <= |h|
    ensures var marks := Marks(Marked(Offered(h, n), chosen));
            Orderly(marks) && forall m: nat :: m in marks <==> m < n && Picked(h, m, chosen)
  {
    hide Orderly, Marks, Marked;
    if n > HDR_FIRST {
      OfferedMarks(h, n - 1, chosen);
      OfferedStep(h, n, chosen);
      OrderlyAppend(Marks(Marked(Offered(h, n - 1), chosen)), n - 1);
    } else {
      NoneMarked(chosen);
    }
  }

  lemma {:induction false} OfferedStep(h: seq<Header>, n: nat, chosen: set<nat>)
    requires HDR_FIRST < n <= |h|
    ensures var marks := Marks(Marked(Offered(h, n - 1), chosen));
            Marks(Marked(Offered(h, n), chosen)) == if Picked(h, n - 1, chosen) then marks + [n - 1] else marks
  {
    hide Marks;
    var a, b := Marked(Offered(h, n - 1), chosen), Marked(Offered(h, n), chosen);
    if h[n - 1].field != [] {
      var e := GuestField(n - 1, n - 1 in chosen);
      assert b == a + [e];
      MarksAppend(a, e);
    } else {
      assert b == a;
    }
  }

  lemma {:induction false} NoneMarked(chosen: set<nat>)
    ensures Marks(Marked([], chosen)) == [] && Orderly([])
  {
  }

  lemma {:induction false} MarksAppend(entries: seq<GuestField>, e: GuestField)
    ensures Marks(entries + [e]) == if e.deleted then Marks(entries) + [e.index] else Marks(entries)
  {
    assert (entries + [e])[..|entries|] == entries;
  }

  lemma {:induction false} OrderlyAppend(marks: seq<nat>, m: nat)
    requires Orderly(marks) && m >= HDR_FIRST && forall x | x in marks :: x < m
    ensures Orderly(marks + [m])
  {
    var s := marks + [m];
    forall i, j | 0 <= i < j < |s| ensures s[i] < s[j] {
      assert s[i] == marks[i] && marks[i] in marks;
    }
  }

  /** The fields that the expression does not match, in order. */
  function NonMatching(h: seq<Header>, matches: Bytes -> bool): seq<Header> {
    if h == [] then [] else (if matches(h[0].field) then [] else [h[0]]) + NonMatching(h[1..], matches)
  }

  lemma {:induction false} NonMatchingStep(h: seq<Header>, i: nat, matches: Bytes -> bool)
    requires i <= |h|
    ensures i == |h| ==> h[..i] + NonMatching(h[i..], matches) == h
    ensures i < |h| ==>
              h[..i] + NonMatching(h[i..], matches) ==
              if matches(h[i].field) then h[..i] + NonMatching(h[i + 1..], matches)
              else h[..i + 1] + NonMatching(h[i + 1..], matches)
  {
    if i < |h| {
      assert h[i..][1..] == h[i + 1..];
      assert h[..i + 1] == h[..i] + [h[i]];
    } else {
      assert h[i..] == [] && h[..i] == h;
    }
  }

  /** The indices of the fields that the expression matches. */
  ghost function Matching(h: seq<Header>, matches: Bytes -> bool): set<nat> {
    set i: nat | i < |h| && matches(h[i].field)
  }

  /** http_unset_re takes out the fields at the indices that match, and no others. */
  lemma {:induction false} NonMatchingSurvive(h: seq<Header>, matches: Bytes -> bool)
    ensures NonMatching(h, matches) == Survivors(h, Matching(h, matches))
  {
    if h != [] {
      var n := |h| - 1;
      NonMatchingSurvive(h[..n], matches);
      SurvivorsSame(h[..n], Matching(h[..n], matches), Matching(h, matches));
      NonMatchingLast(h, matches);
    }
  }

  lemma {:induction false} NonMatchingLast(h: seq<Header>, matches: Bytes -> bool)
    requires h != []
    ensures var n := |h| - 1;
            NonMatching(h, matches) == NonMatching(h[..n], matches) + if matches(h[n].field) then [] else [h[n]]
  {
    if |h| > 1 {
      NonMatchingLast(h[1..], matches);
      assert h[1..][..|h| - 2] == h[..|h| - 1][1..];
    } else {
      assert h[..0] == [] && h[1..] == [];
    }
  }

  lemma {:induction false} RemoveAt(h: seq<Header>, i: nat, tail: seq<Header>)
    requires i < |h|
    ensures Without(h[..i + 1] + tail, i) == h[..i] + tail
  {
  }

  ghost predicate Orderly(marks: seq<nat>) {
    Increasing(marks) && forall i | 0 <= i < |marks| :: marks[i] >= HDR_FIRST
  }

  /** The state of the delete pass after some marks. */
  ghost predicate Swept(h: seq<Header>, marks: seq<nat>, dcount: nat, now: seq<Header>) {
    dcount == Honoured(|h|, marks) && now == Survivors(h, Elements(marks[..dcount]))
  }

  lemma {:induction false} NothingMarked(h: seq<Header>)
    ensures Swept(h, Marks([]), 0, h)
  {
    SurvivorsNone(h);
  }

  lemma {:induction false} MarksStep(entries: seq<GuestField>, i: nat)
    requires i < |entries|
    ensures Marks(entries[..i + 1]) == if entries[i].deleted then Marks(entries[..i]) + [entries[i].index]
                                       else Marks(entries[..i])
    ensures Orderly(Marks(entries)) ==> Orderly(Marks(entries[..i + 1]))
  {
    assert entries[..i + 1][..i] == entries[..i];
    MarksPrefix(entries, i + 1);
  }

  lemma {:induction false} MarksPrefix(entries: seq<GuestField>, i: nat)
    requires i <= |entries|
    ensures Marks(entries[..i]) <= Marks(entries)
    decreases |entries|
  {
    if i < |entries| {
      var init := entries[..|entries| - 1];
      assert init[..i] == entries[..i];
      MarksPrefix(init, i);
    } else {
      assert entries[..i] == entries;
    }
  }

  lemma {:induction false} AtLeast(marks: seq<nat>, i: nat)
    requires Orderly(marks) && i < |marks|
    ensures marks[i] >= HDR_FIRST + i
  {
    if i > 0 {
      AtLeast(marks, i - 1);
    }
  }

  /** The next mark is in range exactly if it is honoured, and then its field is the one taken out. */
  lemma {:induction false} NextMark(h: seq<Header>, seen: seq<nat>, m: nat)
    requires Orderly(seen + [m])
    ensures var k := Honoured(|h|, seen); var now := Survivors(h, Elements(seen[..k]));
            && k <= m && |now| == |h| - k
            && (m < |h| - k ==> m - k >= HDR_FIRST && Swept(h, seen + [m], k + 1, Without(now, m - k)))
            && (m >= |h| - k ==> Swept(h, seen + [m], k, now))
  {
    hide Survivors, Orderly, Without;
    var k := Honoured(|h|, seen);
    var dead := Elements(seen[..k]);
    DeadFacts(|h|, seen, m);
    SurvivorsCount(h, dead);
    MarkInReach(|h|, seen, m);
    if m < |h| - k {
      OneMoreDead(h, dead, m);
    }
  }

  lemma {:induction false} Later(seen: seq<nat>, m: nat)
    requires Orderly(seen + [m])
    ensures Increasing(seen) && forall i | 0 <= i < |seen| :: seen[i] < m
  {
    var marks := seen + [m];
    forall i | 0 <= i < |seen| ensures seen[i] < m {
      assert marks[i] < marks[|seen|];
    }
    forall i, j | 0 <= i < j < |seen| ensures seen[i] < seen[j] {
      assert marks[i] < marks[j];
    }
  }

  lemma {:induction false} DeadFacts(n: nat, seen: seq<nat>, m: nat)
    requires Orderly(seen + [m])
    ensures var k := Honoured(n, seen); var dead := Elements(seen[..k]);
            |dead| == k && m >= HDR_FIRST + |seen| && forall d | d in dead :: d < m && d < n
  {
    var marks, k := seen + [m], Honoured(n, seen);
    AtLeast(marks, |seen|);
    Later(seen, m);
    HonouredPrefix(n, seen);
    ElementsOf(seen[..k]);
    forall d | d in Elements(seen[..k]) ensures d < m && d < n {
      var i :| 0 <= i < k && seen[..k][i] == d;
      assert seen[i] == d && seen[i] + i < n;
    }
  }

  lemma {:induction false} MarkInReach(n: nat, seen: seq<nat>, m: nat)
    requires Orderly(seen + [m])
    ensures var k := Honoured(n, seen); var marks := seen + [m];
            && Honoured(n, marks) == (if m < n - k then k + 1 else k)
            && (m < n - k ==> k == |seen| && marks[..k + 1] == marks && Elements(marks) == Elements(seen[..k]) + {m})
            && (m >= n - k ==> marks[..k] == seen[..k])
  {
    var marks, k := seen + [m], Honoured(n, seen);
    assert marks[..|seen|] == seen;
    Later(seen, m);
    HonouredPrefix(n, seen);
    if k == |seen| {
      assert seen[..k] == seen;
    } else {
      assert n <= seen[k] + k < m + k;
    }
  }

  /** What foreach_header_field shows of the fields before index n. */
  function Offered(h: seq<Header>, n: nat): seq<GuestField>
    requires n <= |h|
  {
    if n <= HDR_FIRST then []
    else Offered(h, n - 1) + if h[n - 1].field == [] then [] else [GuestField(n - 1, false)]
  }

  function Marks(entries: seq<GuestField>): seq<nat> {
    if entries == [] then []
    else
      var last := entries[|entries| - 1];
      Marks(entries[..|entries| - 1]) + if last.deleted then [last.index] else []
  }

  class Http {
    const fieldsMax: nat
    const fieldArray: array<Bytes>
    const fieldFlags: array<byte>
    var fieldCount: nat

    ghost predicate Valid()
      reads this, fieldArray, fieldFlags
    {
      fieldArray.Length == fieldsMax && fieldFlags.Length == fieldsMax && HDR_FIRST <= fieldCount <= fieldsMax
    }

    ghost function Headers(): (h: seq<Header>)
      requires Valid()
      reads this, fieldArray, fieldFlags
      ensures |h| == fieldCount
    {
      seq(fieldCount,
          i requires 0 <= i < fieldCount && Valid() reads this, fieldArray, fieldFlags =>
            Header(fieldArray[i], fieldFlags[i]))
    }

    /** http_unsetat: the fields behind it move down, and their flags with them. */
    method UnsetAt(idx: nat)
      requires Valid() && HDR_FIRST <= idx < fieldCount
      modifies this, fieldArray, fieldFlags
      ensures Valid() && fieldCount == old(fieldCount) - 1
      ensures Headers() == Without(old(Headers()), idx) && Headers()[..HDR_FIRST] == old(Headers())[..HDR_FIRST]
    {
      var count := fieldCount - idx - 1;
      MoveDown(fieldArray, idx, count);
      MoveDown(fieldFlags, idx, count);
      fieldCount := fieldCount - 1;
    }

    /** The first loop of foreach_header_field: the fields that are not empty, in order. */
    method Collect() returns (entries: seq<GuestField>)
      requires Valid()
      ensures entries == Offered(Headers(), fieldCount)
    {
      entries := [];
      for idx := HDR_FIRST to fieldCount
        invariant entries == Offered(Headers(), idx)
      {
        if |fieldArray[idx]| == 0 {
          continue;
        }
        entries := entries + [GuestField(idx, false)];
      }
    }

    /** The second loop of foreach_header_field; http_unsetat aborts if an index is out of its range. */
    method DeletePass(entries: seq<GuestField>) returns (aborted: bool)
      requires Valid()
      modifies this, fieldArray, fieldFlags
      ensures Valid() && Headers()[..HDR_FIRST] == old(Headers())[..HDR_FIRST]
      ensures var marks := Marks(entries);
              Orderly(marks) ==>
                !aborted && Headers() == Survivors(old(Headers()), Elements(marks[..Honoured(old(fieldCount), marks)]))
    {
      hide Survivors, Without, Orderly, Elements, Honoured;
      ghost var h := Headers();
      var dcount := 0;
      NothingMarked(h);
      assert entries[..0] == [] && entries[..|entries|] == entries;
      for i := 0 to |entries|
        invariant Valid() && 0 <= dcount && Headers()[..HDR_FIRST] == h[..HDR_FIRST] && fieldCount == |h| - dcount
        invariant Orderly(Marks(entries)) ==> Swept(h, Marks(entries[..i]), dcount, Headers())
      {
        MarksStep(entries, i);
        if entries[i].deleted {
          var idx := entries[i].index;
          if Orderly(Marks(entries)) {
            NextMark(h, Marks(entries[..i]), idx);
          }
          if idx < fieldCount {
            if idx - dcount < HDR_FIRST {
              return true;
            }
            ghost var now := Headers();
            UnsetAt(idx - dcount);
            assert Headers() == Without(now, idx - dcount);
            dcount := dcount + 1;
          }
        }
      }
      return false;
    }

    /**
     foreach_header_field with a callback that leaves the table and the indices alone and marks the
     fields at the given indices.
     */
    method ForeachHeaderField(chosen: set<nat>) returns (acount: nat, aborted: bool)
      requires Valid()
      modifies this, fieldArray, fieldFlags
      ensures Valid() && !aborted && acount == |Offered(old(Headers()), old(fieldCount))|
      ensures Headers()[..HDR_FIRST] == old(Headers())[..HDR_FIRST]
      ensures var marks := Marks(Marked(Offered(old(Headers()), old(fieldCount)), chosen));
              && Orderly(marks)
              && (forall m: nat :: m in marks <==> Picked(old(Headers()), m, chosen))
              && Headers() == Survivors(old(Headers()), Elements(marks[..Honoured(old(fieldCount), marks)]))
    {
      hide Survivors, Elements, Honoured, Orderly;
      var entries := Collect();
      acount := |entries|;
      OfferedMarks(Headers(), fieldCount, chosen);
      aborted := DeletePass(Marked(entries, chosen));
    }

    /** http_unset_re, from the last field down; matching is up to the expression. */
    method UnsetMatching(matches: Bytes -> bool) returns (mcount: nat)
      requires Valid()
      modifies this, fieldArray, fieldFlags
      ensures Valid() && Headers() == old(Headers())[..HDR_FIRST] + NonMatching(old(Headers())[HDR_FIRST..], matches)
      ensures mcount == old(fieldCount) - fieldCount && Headers()[..HDR_FIRST] == old(Headers())[..HDR_FIRST]
    {
      hide NonMatching;
      mcount := 0;
      ghost var h := Headers();
      var i := fieldCount - 1;
      NonMatchingStep(h, |h|, matches);
      while i >= HDR_FIRST
        invariant Valid() && HDR_FIRST - 1 <= i < fieldCount && mcount == |h| - fieldCount && i < |h|
        invariant Headers() == h[..i + 1] + NonMatching(h[i + 1..], matches)
      {
        NonMatchingStep(h, i, matches);
        assert Headers()[i] == h[i];
        if matches(fieldArray[i]) {
          RemoveAt(h, i, NonMatching(h[i + 1..], matches));
          UnsetAt(i);
          mcount := mcount + 1;
        }
        i := i - 1;
      }
    }

    /** header_field_append; the outcome is the index, HDR_INVALID if the table is full, None if the workspace is. */
    method Append(val: Bytes, workspace: bool) returns (r: Option<nat>)
      requires Valid() && fieldsMax <= 0xFFFF
      modifies this, fieldArray, fieldFlags
      ensures Valid()
      ensures r == if !workspace then None
                   else if old(fieldCount) < fieldsMax then Some(old(fieldCount))
                   else Some(HDR_INVALID)
      ensures Headers() == if workspace && old(fieldCount) < fieldsMax then old(Headers()) + [Header(val, 0)]
                           else old(Headers())
      ensures Headers()[..HDR_FIRST] == old(Headers())[..HDR_FIRST]
    {
      if !workspace {
        return None;
      }
      if fieldCount >= fieldsMax {
        return Some(HDR_INVALID);
      }
      var idx := fieldCount;
      fieldCount := fieldCount + 1;
      fieldArray[idx] := val;
      fieldFlags[idx] := 0;
      return Some(idx);
    }

    /** header_field_unset; None stands for the exception. */
    method Unset(index: nat) returns (r: Option<nat>)
      requires Valid() && fieldsMax <= 0xFFFF
      modifies this, fieldArray, fieldFlags
      ensures Valid() && r == if HDR_FIRST <= index < old(fieldCount) || index == HDR_INVALID then Some(index) else None
      ensures Headers() == if HDR_FIRST <= index < old(fieldCount) then Without(old(Headers()), index)
                           else old(Headers())
      ensures Headers()[..HDR_FIRST] == old(Headers())[..HDR_FIRST]
    {
      if index < fieldCount && index >= HDR_FIRST {
        UnsetAt(index);
        return Some(index);
      } else if index == HDR_INVALID {
        return Some(HDR_INVALID);
      }
      return None;
    }

    /**
     http_copy_from, into this table, from another one or from this one; http_SetH takes the text
     up to its NUL.
     */
    method CopyFrom(from: Http, index: nat) returns (r: Option<nat>)
      requires Valid() && from.Valid() && fieldsMax <= 0xFFFF && from.fieldsMax <= 0xFFFF
      requires from == this || (from.fieldArray != fieldArray && from.fieldFlags != fieldFlags)
      modifies this, fieldArray, fieldFlags
      ensures Valid() && from.Valid() && (from != this ==> from.Headers() == old(from.Headers()))
      ensures r == if index == HDR_INVALID then Some(HDR_INVALID)
                   else if index >= old(from.fieldCount) then None
                   else Some(if old(fieldCount) < fieldsMax then old(fieldCount) else HDR_INVALID)
      ensures Headers() == if index < old(from.fieldCount) && old(fieldCount) < fieldsMax
                           then old(Headers()) + [Header(CString(old(from.Headers())[index].field), 0)]
                           else old(Headers())
      ensures Headers()[..HDR_FIRST] == old(Headers())[..HDR_FIRST]
    {
      if index == HDR_INVALID {
        return Some(HDR_INVALID);
      }
      if index >= from.fieldCount {
        return None;
      }
      if fieldCount >= fieldsMax {
        return Some(HDR_INVALID);
      }
      var text := CString(from.fieldArray[index]);
      var idx := fieldCount;
      fieldCount := fieldCount + 1;
      fieldArray[idx] := text;
      fieldFlags[idx] := 0;
      return Some(idx);
    }
  }
}
