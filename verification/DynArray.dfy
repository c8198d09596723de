/** tinyxml2's DynArray: a growable array whose copying is paid for by its growth. */
module DynArrays {
  function Max(a: nat, b: nat): nat {
    if a < b then b else a
  }

  /** memcpy of the first n elements. */
  method Copy<T>(from: array<T>, to: array<T>, n: nat)
    requires n <= from.Length && n <= to.Length && from != to
    modifies to
    ensures to[..n] == old(from[..n])
  {
    for i := 0 to n
      invariant to[..i] == from[..i] && from[..] == old(from[..])
    {
      to[i] := from[i];
    }
  }

  /** The last element in the place of another one. */
  ghost function Swapped<T>(s: seq<T>, i: nat): seq<T>
    requires i < |s|
  {
    s[i := s[|s| - 1]][..|s| - 1]
  }

  /** t has what s has, in any order, except for one x. */
  ghost predicate OneLess<T>(s: seq<T>, t: seq<T>, x: T) {
    multiset(s) == multiset(t) + multiset{x}
  }

  lemma {:induction false} SwapRemoved<T>(s: seq<T>, i: nat)
    requires i < |s|
    ensures OneLess(s, Swapped(s, i), s[i])
  {
    var t := s[i := s[|s| - 1]];
    assert t == t[..|s| - 1] + [t[|s| - 1]];
    assert multiset(t) == multiset(s) - multiset{s[i]} + multiset{s[|s| - 1]};
  }

  /** The same of a part of the memory. */
  lemma {:induction false} SwappedIs<T>(mem: seq<T>, size: nat, i: nat)
    requires i < size <= |mem|
    ensures var t := mem[i := mem[size - 1]][..size - 1];
            t == Swapped(mem[..size], i) && OneLess(mem[..size], t, mem[i])
  {
    SwapRemoved(mem[..size], i);
  }

  class DynArray<T(0)> {
    var mem: array<T>
    var size: nat

    /** The capacity of the array that is part of the object, before any growth. */
    ghost const initial: nat
    /** How many elements have been copied so far, and the largest size so far. */
    ghost var copied: nat
    ghost var peak: nat

    ghost predicate Valid()
      reads this
    {
      && size <= mem.Length && size <= peak && initial <= mem.Length
      && copied <= mem.Length && (mem.Length == initial || mem.Length <= 2 * peak)
      && (mem.Length == initial ==> copied == 0)
    }

    ghost function Contents(): seq<T>
      requires Valid()
      reads this, mem
    {
      mem[..size]
    }

    constructor (initial: nat)
      ensures Valid() && Contents() == [] && fresh(mem) && copied == 0 && peak == 0 && mem.Length == initial
    {
      mem := new T[initial];
      size, this.initial, copied, peak := 0, initial, 0, 0;
    }

    /** Over any run of operations, no more elements are copied than twice the largest size. */
    lemma CopyingIsAmortized()
      requires Valid()
      ensures copied <= 2 * peak
    {
    }

    /** DynArray::EnsureCapacity: growing at least doubles the capacity; memory is whether new succeeds. */
    method EnsureCapacity(cap: nat, memory: bool) returns (ok: bool)
      requires Valid()
      modifies this`mem, this`copied, this`peak
      ensures Valid() && (ok <==> cap <= old(mem.Length) || memory) && Contents() == old(Contents())
      ensures ok ==> cap <= mem.Length && peak == Max(old(peak), cap)
      ensures ok && cap > old(mem.Length) ==> fresh(mem) && mem.Length == 2 * cap && copied == old(copied) + size
      ensures cap <= old(mem.Length) ==> mem == old(mem) && copied == old(copied)
      ensures !ok ==> mem == old(mem) && copied == old(copied) && peak == old(peak)
    {
      if cap > mem.Length {
        if !memory {
          return false;
        }
        var newMem := new T[cap * 2];
        Copy(mem, newMem, size);
        copied := copied + size;
        mem := newMem;
      }
      peak := Max(peak, cap);
      return true;
    }

    /** How many elements a growth to this size copies. */
    ghost function Copying(cap: nat): nat
      reads this
    {
      if cap > mem.Length then size else 0
    }

    /** DynArray::Push; nothing changes if there is no memory to grow. */
    method Push(t: T, memory: bool) returns (ok: bool)
      requires Valid()
      modifies this, mem
      ensures Valid() && (ok <==> old(size) < old(mem.Length) || memory) && (mem == old(mem) || fresh(mem))
      ensures Contents() == if ok then old(Contents()) + [t] else old(Contents())
      ensures ok ==> peak == Max(old(peak), size) && copied == old(copied) + old(Copying(size + 1))
      ensures !ok ==> peak == old(peak) && copied == old(copied)
    {
      ok := EnsureCapacity(size + 1, memory);
      if ok {
        mem[size] := t;
        size := size + 1;
      }
    }

    /** DynArray::PushArr: room for count more elements, whose values are unspecified. */
    method PushArr(count: nat, memory: bool) returns (ok: bool, start: nat)
      requires Valid()
      modifies this
      ensures Valid() && (ok <==> old(size) + count <= old(mem.Length) || memory) && (mem == old(mem) || fresh(mem))
      ensures start == old(size) && size == start + if ok then count else 0
      ensures Contents()[..start] == old(Contents())
      ensures ok ==> peak == Max(old(peak), size) && copied == old(copied) + old(Copying(size + count))
      ensures !ok ==> peak == old(peak) && copied == old(copied)
    {
      start := size;
      ok := EnsureCapacity(size + count, memory);
      if ok {
        size := size + count;
      }
    }

    /** DynArray::Pop. */
    method Pop() returns (t: T)
      requires Valid() && size > 0
      modifies this`size
      ensures Valid() && old(Contents()) == Contents() + [t]
    {
      size := size - 1;
      t := mem[size];
    }

    /** DynArray::PopArr. */
    method PopArr(count: nat)
      requires Valid() && count <= size
      modifies this`size
      ensures Valid() && size == old(size) - count && Contents() == old(Contents())[..size]
    {
      size := size - count;
    }

    /** DynArray::SwapRemove: the last element takes the place of the one removed. */
    method SwapRemove(i: nat)
      requires Valid() && i < size
      modifies this`size, mem
      ensures Valid() && size == old(size) - 1
      ensures OneLess(old(Contents()), Contents(), old(mem[i]))
      ensures Contents() == Swapped(old(Contents()), i)
    {
      hide Swapped, OneLess;
      SwappedIs(mem[..], size, i);
      mem[i] := mem[size - 1];
      assert mem[..] == old(mem[..])[i := old(mem[..])[size - 1]];
      size := size - 1;
    }

    /** DynArray::Clear; the memory is kept. */
    method Clear()
      requires Valid()
      modifies this`size
      ensures Valid() && Contents() == []
    {
      size := 0;
    }
  }
}
