/** The growable array of the library: what its operations mean, and what growing it costs. */
module Vectors {

  // ---------- The sequence operations ----------

  function Inserted<T>(s: seq<T>, i: nat, v: T): seq<T>
    requires i <= |s|
  {
    s[..i] + [v] + s[i..]
  }

  function Without<T>(s: seq<T>, i: nat, j: nat): seq<T>
    requires i <= j <= |s|
  {
    s[..i] + s[j..]
  }

  /** The last element takes the place of the one at `i`. */
  function WithoutUnsorted<T>(s: seq<T>, i: nat): seq<T>
    requires i < |s|
  {
    s[i := s[|s| - 1]][..|s| - 1]
  }

  /** The index of the first `v`, or the length if there is none. */
  function IndexOf<T(==)>(s: seq<T>, v: T): (i: nat)
    ensures i <= |s|
    ensures i < |s| <==> v in s
    ensures i < |s| ==> s[i] == v
    ensures v !in s[..i]
  {
    if s == [] then 0
    else if s[0] == v then 0
    else
      assert s == [s[0]] + s[1..];
      var i := IndexOf(s[1..], v);
      assert s[..i + 1] == [s[0]] + s[1..][..i];
      i + 1
  }

  /** Erasing without keeping the order removes one occurrence of the element and nothing else. */
  lemma UnsortedRemovesOne<T>(s: seq<T>, i: nat)
    requires i < |s|
    ensures multiset(WithoutUnsorted(s, i)) == multiset(s) - multiset{s[i]}
    ensures forall j {:trigger WithoutUnsorted(s, i)[j]} :: 0 <= j < |s| - 1 && j != i ==>
              WithoutUnsorted(s, i)[j] == s[j]
  {
    var n := |s| - 1;
    assert s == s[..n] + [s[n]];
    if i < n {
      assert s[..n] == s[..i] + [s[i]] + s[i + 1..n];
      assert WithoutUnsorted(s, i) == s[..i] + [s[n]] + s[i + 1..n];
    } else {
      assert WithoutUnsorted(s, i) == s[..n];
    }
  }

  /** Erasing what was inserted, and inserting what was erased. */
  lemma EraseUndoesInsert<T>(s: seq<T>, i: nat, v: T)
    requires i <= |s|
    ensures Without(Inserted(s, i, v), i, i + 1) == s
    ensures i < |s| ==> Inserted(Without(s, i, i + 1), i, s[i]) == s
  {
  }

  // ---------- What pushing costs ----------

  /** `copied` counts the elements that reserve has copied so far. */
  datatype Growth = Growth(size: nat, capacity: nat, copied: nat)

  /** One and a half times the capacity, rounded down, from 8 on; at least what is asked for. */
  function GrowCapacity(capacity: nat, needed: nat): (r: nat)
    ensures r >= needed
    ensures capacity >= 2 ==> r > capacity
    ensures 2 * r + 1 >= 3 * capacity && (capacity == 0 ==> r >= 8)
    ensures r == needed || 2 * r <= 3 * capacity || (capacity == 0 && r == 8)
  {
    var n := if capacity > 0 then capacity + capacity / 2 else 8;
    if n > needed then n else needed
  }

  function Pushed(g: Growth): Growth {
    if g.size == g.capacity then
      Growth(g.size + 1, GrowCapacity(g.capacity, g.size + 1), g.copied + g.size)
    else g.(size := g.size + 1)
  }

  function PushedTimes(g: Growth, n: nat): Growth {
    if n == 0 then g else Pushed(PushedTimes(g, n - 1))
  }

  /** What pushing keeps: the copies are paid for by the capacity and by the size. */
  predicate Paid(g: Growth) {
    && g.size <= g.capacity
    && (g.capacity == 0 ==> g.copied == 0)
    && (g.capacity > 0 ==> g.capacity >= 8 && g.copied <= 3 * g.capacity - 24)
    && g.copied <= 4 * g.size
  }

  lemma PushKeepsPaid(g: Growth)
    requires Paid(g)
    ensures Paid(Pushed(g))
  {
  }

  /** From an empty vector, n pushes copy at most 4n elements. */
  lemma {:induction false} PushesCopyLittle(n: nat)
    ensures var g := PushedTimes(Growth(0, 0, 0), n);
            g.size == n && g.copied <= 4 * n && Paid(g)
  {
    if n > 0 {
      PushesCopyLittle(n - 1);
      PushKeepsPaid(PushedTimes(Growth(0, 0, 0), n - 1));
    }
  }

  // ---------- The vector ----------

  class ImVector<T(==,0)> {
    var size: nat
    var capacity: nat
    var data: array?<T>
    /** How many elements reserve has copied. */
    ghost var copied: nat

    ghost predicate Valid()
      reads this
    {
      && size <= capacity
      && (if data == null then capacity == 0 else data.Length == capacity)
    }

    ghost function Footprint(): set<object>
      reads this
    {
      if data == null then {} else {data}
    }

    ghost function Elements(): (s: seq<T>)
      requires Valid()
      reads this, Footprint()
      ensures |s| == size
    {
      if data == null then [] else data[..size]
    }

    ghost function State(): Growth
      reads this
    {
      Growth(size, capacity, copied)
    }

    constructor ()
      ensures Valid() && Elements() == [] && State() == Growth(0, 0, 0) && Footprint() == {}
    {
      size, capacity, data, copied := 0, 0, null, 0;
    }

    /** Release the memory. */
    method Clear()
      requires Valid()
      modifies this
      ensures Valid() && Elements() == [] && capacity == 0 && Footprint() == {}
    {
      if data != null {
        size, capacity := 0, 0;
        data := null;
      }
    }

    /** Make room; the elements move to a larger array. */
    method Reserve(newCapacity: nat)
      requires Valid()
      modifies this
      ensures Valid() && Elements() == old(Elements()) && fresh(Footprint() - old(Footprint()))
      ensures capacity == if newCapacity <= old(capacity) then old(capacity) else newCapacity
      ensures copied == old(copied) + (if newCapacity <= old(capacity) then 0 else old(size))
      ensures newCapacity <= old(capacity) ==> data == old(data)
    {
      if newCapacity <= capacity {
        return;
      }
      var newData := new T[newCapacity];
      if data != null {
        forall k | 0 <= k < size {
          newData[k] := data[k];
        }
        copied := copied + size;
      }
      data := newData;
      capacity := newCapacity;
    }

    /** Make room without keeping the elements. */
    method ReserveDiscard(newCapacity: nat)
      requires Valid()
      modifies this
      ensures Valid() && size == old(size) && fresh(Footprint() - old(Footprint()))
      ensures capacity == if newCapacity <= old(capacity) then old(capacity) else newCapacity
      ensures newCapacity <= old(capacity) ==> Elements() == old(Elements())
    {
      if newCapacity <= capacity {
        return;
      }
      data := new T[newCapacity];
      capacity := newCapacity;
    }

    /** Change the size; new elements are whatever the memory holds. */
    method Resize(newSize: nat)
      requires Valid()
      modifies this
      ensures Valid() && size == newSize && fresh(Footprint() - old(Footprint()))
      ensures forall k {:trigger Elements()[k]} :: 0 <= k < newSize && k < old(size) ==>
                Elements()[k] == old(Elements())[k]
      ensures capacity == if newSize <= old(capacity) then old(capacity) else GrowCapacity(old(capacity), newSize)
      ensures newSize <= old(capacity) ==> data == old(data)
    {
      if newSize > capacity {
        Reserve(GrowCapacity(capacity, newSize));
      }
      size := newSize;
    }

    /** Change the size; new elements are `v`. */
    method ResizeWith(newSize: nat, v: T)
      requires Valid()
      modifies this, Footprint()
      ensures Valid() && fresh(Footprint() - old(Footprint()))
      ensures Elements() == if newSize <= old(size) then old(Elements())[..newSize]
                            else old(Elements()) + seq(newSize - old(size), _ => v)
    {
      ghost var before := Elements();
      if newSize > capacity {
        Reserve(GrowCapacity(capacity, newSize));
      }
      if newSize > size {
        for n := size to newSize
          invariant Valid() && size == |before| && capacity >= newSize && data != null
          invariant fresh(Footprint() - old(Footprint()))
          invariant data[..n] == before + seq(n - |before|, _ => v)
        {
          data[n] := v;
        }
      }
      size := newSize;
    }

    /** Make the vector smaller, without touching its memory. */
    method Shrink(newSize: nat)
      requires Valid() && newSize <= size
      modifies this`size
      ensures Valid() && Elements() == old(Elements())[..newSize]
    {
      size := newSize;
    }

    method PushBack(v: T)
      requires Valid()
      modifies this, Footprint()
      ensures Valid() && Elements() == old(Elements()) + [v] && State() == Pushed(old(State()))
      ensures fresh(Footprint() - old(Footprint()))
    {
      if size == capacity {
        Reserve(GrowCapacity(capacity, size + 1));
      }
      data[size] := v;
      size := size + 1;
    }

    method PopBack()
      requires Valid() && size > 0
      modifies this`size
      ensures Valid() && Elements() == old(Elements())[..old(size) - 1]
    {
      size := size - 1;
    }

    /** Insert before index `off`; the tail moves up in place. */
    method Insert(off: nat, v: T)
      requires Valid() && off <= size
      modifies this, Footprint()
      ensures Valid() && Elements() == Inserted(old(Elements()), off, v) && State() == Pushed(old(State()))
      ensures fresh(Footprint() - old(Footprint()))
    {
      if size == capacity {
        Reserve(GrowCapacity(capacity, size + 1));
      }
      MoveUp(off);
      data[off] := v;
      size := size + 1;
    }

    /** Move the elements from `off` on up by one, into the room behind them. */
    method MoveUp(off: nat)
      requires Valid() && off <= size < capacity && data != null
      modifies data
      ensures data[..off] == old(data[..off]) && data[off + 1..size + 1] == old(data[off..size])
    {
      if off < size {
        forall k | off <= k < size {
          data[k + 1] := data[k];
        }
      }
    }

    method PushFront(v: T)
      requires Valid()
      modifies this, Footprint()
      ensures Valid() && Elements() == [v] + old(Elements())
      ensures fresh(Footprint() - old(Footprint()))
    {
      if size == 0 {
        PushBack(v);
      } else {
        Insert(0, v);
      }
    }

    /** Erase the element at `off`; the tail moves down in place. */
    method Erase(off: nat)
      requires Valid() && off < size
      modifies this`size, Footprint()
      ensures Valid() && Elements() == Without(old(Elements()), off, off + 1)
    {
      forall k | off <= k < size - 1 {
        data[k] := data[k + 1];
      }
      size := size - 1;
    }

    /** Erase the elements from `off` up to `last`. */
    method EraseRange(off: nat, last: nat)
      requires Valid() && off < size && off <= last <= size
      modifies this`size, Footprint()
      ensures Valid() && Elements() == Without(old(Elements()), off, last)
    {
      var count := last - off;
      forall k | off <= k < size - count {
        data[k] := data[k + count];
      }
      size := size - count;
    }

    /** Erase the element at `off` by moving the last element into its place. */
    method EraseUnsorted(off: nat)
      requires Valid() && off < size
      modifies this`size, Footprint()
      ensures Valid() && Elements() == WithoutUnsorted(old(Elements()), off)
    {
      if off < size - 1 {
        data[off] := data[size - 1];
      }
      size := size - 1;
    }

    /** The index of the first `v`, or the size. */
    method Find(v: T) returns (i: nat)
      requires Valid()
      ensures i == IndexOf(Elements(), v)
    {
      i := 0;
      while i < size
        invariant i <= size && v !in Elements()[..i]
      {
        if data[i] == v {
          break;
        }
        i := i + 1;
      }
      FirstIndex(Elements(), v, i);
    }

    method Contains(v: T) returns (r: bool)
      requires Valid()
      ensures r <==> v in Elements()
    {
      var i := 0;
      while i < size
        invariant i <= size && v !in Elements()[..i]
      {
        if data[i] == v {
          assert Elements()[i] == v;
          return true;
        }
        i := i + 1;
      }
      assert Elements()[..size] == Elements();
      r := false;
    }

    /** Erase the first `v`. */
    method FindErase(v: T) returns (found: bool)
      requires Valid()
      modifies this`size, Footprint()
      ensures Valid() && (found <==> v in old(Elements()))
      ensures var i := IndexOf(old(Elements()), v);
              Elements() == if found then Without(old(Elements()), i, i + 1) else old(Elements())
    {
      var i := Find(v);
      found := i < size;
      if found {
        Erase(i);
      }
    }

    method FindEraseUnsorted(v: T) returns (found: bool)
      requires Valid()
      modifies this`size, Footprint()
      ensures Valid() && (found <==> v in old(Elements()))
      ensures multiset(Elements()) == if found then multiset(old(Elements())) - multiset{v}
                                      else multiset(old(Elements()))
    {
      var i := Find(v);
      found := i < size;
      if found {
        UnsortedRemovesOne(Elements(), i);
        EraseUnsorted(i);
      }
    }

    /** Exchange the contents of two vectors. */
    method Swap(rhs: ImVector<T>)
      requires Valid() && rhs.Valid()
      modifies this, rhs
      ensures Valid() && rhs.Valid()
      ensures Elements() == old(rhs.Elements()) && rhs.Elements() == old(Elements())
      ensures Footprint() == old(rhs.Footprint()) && rhs.Footprint() == old(Footprint())
    {
      var rhsSize, rhsCapacity, rhsData := rhs.size, rhs.capacity, rhs.data;
      rhs.size := size;
      size := rhsSize;
      rhs.capacity := capacity;
      capacity := rhsCapacity;
      rhs.data := data;
      data := rhsData;
    }

    /** Assignment copies the elements; assigning a vector to itself empties it. */
    method Assign(src: ImVector<T>)
      requires Valid() && src.Valid() && (src != this ==> Footprint() !! src.Footprint())
      modifies this
      ensures Valid() && fresh(Footprint() - old(Footprint()))
      ensures Elements() == if src == this then [] else old(src.Elements())
      ensures src != this ==> src.Valid() && src.Elements() == old(src.Elements()) && Footprint() !! src.Footprint()
    {
      Clear();
      Resize(src.size);
      if src.data != null {
        forall k | 0 <= k < size {
          data[k] := src.data[k];
        }
      }
    }
  }

  lemma FirstIndex<T>(s: seq<T>, v: T, i: nat)
    requires i <= |s| && v !in s[..i] && (i < |s| ==> s[i] == v)
    ensures i == IndexOf(s, v)
  {
    var j := IndexOf(s, v);
    assert forall k :: 0 <= k < i ==> s[..i][k] == s[k];
    assert forall k :: 0 <= k < j ==> s[..j][k] == s[k];
  }
}
