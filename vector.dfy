/**
 * The growable vector of Vector/vector.h: a heap buffer `data_` of `capacity_`
 * elements of which the first `size_` are in use. The element type is `int`:
 * the sized constructor writes 0 and the list constructor takes ints.
 */
module Vectors {

  class Vector {
    /** The buffer; an empty array stands for the null pointer of a vector that never allocated. */
    var data: array<int>
    var size: nat
    var capacity: nat

    /**
     * The bookkeeping every member keeps: the buffer holds at least `capacity`
     * cells and `size` of them are in use. The buffer holds exactly `capacity`
     * cells except after an assignment from a vector of smaller capacity.
     */
    ghost predicate Valid()
      reads this
    {
      capacity <= data.Length && size <= capacity
    }

    /** The elements in use, in order. */
    function Elements(): seq<int>
      reads this, data
      requires Valid()
    {
      data[..size]
    }

    /** Vector(): an empty vector that has reserved room for one element. */
    constructor ()
      ensures Valid() && fresh(data)
      ensures Elements() == [] && capacity == 1
    {
      data := new int[0];
      size, capacity := 0, 0;
      new;
      Reserve(1);
    }

    /** Vector(size): `size` zeros and no spare room. */
    constructor Sized(n: nat)
      ensures Valid() && fresh(data)
      ensures Elements() == seq(n, _ => 0) && capacity == n
    {
      data := new int[0];
      size, capacity := 0, 0;
      new;
      Realloc(n);
      var i := 0;
      while i < n
        invariant Valid() && size == 0 && capacity == n && fresh(data)
        invariant 0 <= i <= n
        invariant forall k :: 0 <= k < i ==> data[k] == 0
      {
        data[i] := 0;
        i := i + 1;
      }
      size := n;
      capacity := size;
    }

    /** Vector(std::initializer_list<int>): the list, in order, and no spare room. */
    constructor FromList(list: seq<int>)
      ensures Valid() && fresh(data)
      ensures Elements() == list && capacity == |list|
    {
      data := new int[0];
      size, capacity := 0, 0;
      new;
      Realloc(|list|);
      var i := 0;
      while i < |list|
        invariant Valid() && size == 0 && capacity == |list| && fresh(data)
        invariant 0 <= i <= |list|
        invariant data[..i] == list[..i]
      {
        data[i] := list[i];
        i := i + 1;
      }
      size := |list|;
      capacity := size;
    }

    /** The copy constructor: the same elements and the same capacity, in a buffer of its own. */
    constructor Copy(other: Vector)
      requires other.Valid()
      ensures Valid() && fresh(data)
      ensures Elements() == other.Elements() && capacity == other.capacity
    {
      data := new int[0];
      size, capacity := 0, 0;
      new;
      Reserve(other.capacity);
      var i := 0;
      while i < other.size
        invariant Valid() && size == 0 && capacity == other.capacity && fresh(data)
        invariant 0 <= i <= other.size
        invariant data[..i] == other.data[..i]
      {
        data[i] := other.data[i];
        i := i + 1;
      }
      size := other.size;
      capacity := other.capacity;
    }

    /**
     * operator=: takes its argument by value, so `other` is a copy with a
     * buffer of its own. Reserves the other's capacity, copies its elements and
     * takes over its size and capacity; when this buffer was already larger it
     * is kept, and the recorded capacity then understates it.
     */
    method Assign(other: Vector)
      requires Valid() && other.Valid() && other != this && other.data != data
      modifies this, data
      ensures Valid() && Elements() == old(other.Elements()) && capacity == other.capacity
      ensures data.Length == if old(capacity) < other.capacity then other.capacity else old(data.Length)
      ensures other.Elements() == old(other.Elements())
    {
      Reserve(other.capacity);
      var i := 0;
      while i < other.size
        invariant Valid() && capacity >= other.capacity && size == old(size)
        invariant data.Length == if old(capacity) < other.capacity then other.capacity else old(data.Length)
        invariant data != other.data && other.Elements() == old(other.Elements())
        invariant data == old(data) || fresh(data)
        invariant 0 <= i <= other.size
        invariant data[..i] == other.data[..i]
      {
        data[i] := other.data[i];
        i := i + 1;
      }
      size := other.size;
      capacity := other.capacity;
    }

    /** operator[] read: element `index` in use. */
    function Get(index: nat): (x: int)
      reads this, data
      requires Valid() && index < size
      ensures x == Elements()[index]
    {
      data[index]
    }

    /** operator[] write through the returned reference. */
    method Set(index: nat, x: int)
      requires Valid() && index < size
      modifies data
      ensures Valid() && Elements() == old(Elements())[index := x]
    {
      data[index] := x;
    }

    /** Size(): the number of elements in use. */
    function Size(): (n: nat)
      reads this, data
      requires Valid()
      ensures n == |Elements()|
    {
      size
    }

    /** Capacity(): the recorded number of cells, never more than the buffer holds. */
    function Capacity(): (n: nat)
      reads this
      requires Valid()
      ensures n <= data.Length && n >= size
    {
      capacity
    }

    /** Empty(): no element in use. */
    function Empty(): (r: bool)
      reads this, data
      requires Valid()
      ensures r <==> Elements() == []
    {
      size == 0
    }

    /** Swap: the two vectors exchange buffers, sizes and capacities. */
    method Swap(other: Vector)
      requires Valid() && other.Valid()
      modifies this, other
      ensures Valid() && other.Valid()
      ensures data == old(other.data) && size == old(other.size) && capacity == old(other.capacity)
      ensures other.data == old(data) && other.size == old(size) && other.capacity == old(capacity)
    {
      var d, s, c := data, size, capacity;
      data, size, capacity := other.data, other.size, other.capacity;
      other.data, other.size, other.capacity := d, s, c;
    }

    /**
     * PushBack: stores the element after the last one in use, first doubling
     * the buffer when it is full. A vector with no room at all (capacity 0)
     * first reserves one cell: doubling a size of 0 would reserve nothing, and
     * the code as written then writes past its buffer or loses elements
     * (`PushBackCells` below).
     */
    method PushBack(x: int)
      requires Valid()
      modifies this, data
      ensures Valid()
      ensures Elements() == old(Elements()) + [x]
      ensures old(size) < old(capacity) ==> capacity == old(capacity) && data == old(data)
      ensures old(size) == old(capacity) ==> capacity == Growth(old(size)) && fresh(data)
    {
      if capacity >= size + 1 {
        data[size] := x;
        size := size + 1;
      } else {
        Reserve(Growth(size));
        data[size] := x;
        size := size + 1;
      }
    }

    /** PopBack: drops the last element in use; nothing happens to an empty vector. */
    method PopBack()
      requires Valid()
      modifies this
      ensures Valid() && data == old(data) && capacity == old(capacity)
      ensures old(size) == 0 ==> size == 0
      ensures old(size) > 0 ==> Elements() == old(Elements())[..old(size) - 1]
    {
      if !Empty() {
        size := size - 1;
      }
    }

    /** Clear: no element in use; the buffer stays. */
    method Clear()
      requires Valid()
      modifies this
      ensures Valid() && Elements() == [] && data == old(data) && capacity == old(capacity)
    {
      size := 0;
    }

    /** Reserve: grows the buffer to `n` cells when it is smaller, keeping the elements; it never shrinks. */
    method Reserve(n: nat)
      requires Valid()
      modifies this
      ensures Valid() && size == old(size)
      ensures capacity == if old(capacity) < n then n else old(capacity)
      ensures Elements() == old(Elements())
      ensures old(capacity) < n ==> fresh(data) && data.Length == n
      ensures old(capacity) >= n ==> data == old(data)
    {
      if capacity < n {
        Realloc(n);
        capacity := n;
      }
    }

    /**
     * Realloc: a fresh buffer of `n` cells; when there was a buffer, the
     * elements in use are moved into the new one.
     */
    method Realloc(n: nat)
      requires Valid() && size <= n
      modifies this
      ensures Valid() && size == old(size) && capacity == n && fresh(data) && data.Length == n
      ensures Elements() == old(Elements())
    {
      if capacity == 0 {
        data := new int[n];
        capacity := n;
      } else {
        var copy := new int[n];
        var i := 0;
        while i < size
          invariant data == old(data) && size == old(size) && capacity == old(capacity) && Valid()
          invariant copy.Length == n && 0 <= i <= size
          invariant copy[..i] == data[..i]
        {
          copy[i] := data[i];
          i := i + 1;
        }
        data := copy;
        capacity := n;
      }
    }
  }

  /** The capacity PushBack reserves when the vector is full: twice the size, and at least one cell. */
  function Growth(size: nat): (n: nat)
    ensures n > size
    ensures size > 0 ==> n == 2 * size
  {
    if size == 0 then 1 else 2 * size
  }

  /**
   * The fields of a Vector as values, for following PushBack exactly as
   * written: the cells of the buffer, `size_` and `capacity_`.
   */
  datatype Cells = Cells(buffer: seq<int>, size: nat, capacity: nat)

  /** The outcome of a push as written: the new fields, or a write past the end of the buffer. */
  datatype Pushed = Stored(cells: Cells) | PastBuffer

  /**
   * Realloc as written: with `capacity_ == 0` the new buffer is taken as
   * it comes, without moving anything; otherwise the elements in use are moved
   * into it. `unset` stands for the unspecified contents of `new T[n]`.
   */
  function ReallocCells(v: Cells, n: nat, unset: seq<int>): Cells
    requires |unset| == n && v.size <= n && v.size <= |v.buffer|
  {
    if v.capacity == 0 then Cells(unset, v.size, n)
    else Cells(v.buffer[..v.size] + unset[v.size..], v.size, n)
  }

  /**
   * PushBack as written: Reserve(size_ * 2) when full, which reallocates only
   * when the capacity is below that, then the store at `size_`.
   */
  function PushBackCells(v: Cells, x: int, unset: seq<int>): (r: Pushed)
    requires v.size <= |v.buffer| && |unset| == 2 * v.size
    ensures v.size < v.capacity <= |v.buffer| ==> r == Stored(Cells(v.buffer[v.size := x], v.size + 1, v.capacity))
    ensures 0 < v.capacity && v.size <= v.capacity <= |v.buffer| ==>
              r.Stored? && r.cells.size == v.size + 1 && r.cells.size <= r.cells.capacity <= |r.cells.buffer|
              && r.cells.buffer[..v.size + 1] == v.buffer[..v.size] + [x]
  {
    var w := if v.capacity >= v.size + 1 || v.capacity >= 2 * v.size then v else ReallocCells(v, 2 * v.size, unset);
    if w.size < |w.buffer| then Stored(Cells(w.buffer[w.size := x], w.size + 1, w.capacity)) else PastBuffer
  }

  /**
   * `Vector<int>(0)`, `Vector<int>(std::initializer_list<int>{})` and their
   * copies have capacity 0 and no cell: the first PushBack writes past the buffer.
   */
  lemma PushBackPastBuffer()
    ensures PushBackCells(Cells([], 0, 0), 5, []) == PastBuffer
  {
  }

  /**
   * After `a = Vector<int>(0)` on a vector with one cell, `a` keeps that cell
   * with capacity 0. Pushing 5 stores it with size 1 above capacity 0; pushing
   * 6 then reallocates without moving the 5, so whatever `new T[2]` holds,
   * the first element is that cell and not the 5.
   */
  lemma PushBackLosesElement(unset: seq<int>)
    requires |unset| == 2
    ensures var first := PushBackCells(Cells([1], 0, 0), 5, []);
      && first == Stored(Cells([5], 1, 0))
      && var second := PushBackCells(first.cells, 6, unset);
      && second == Stored(Cells([unset[0], 6], 2, 2))
      && (unset[0] != 5 ==> second.cells.buffer[..2] != [5, 6])
  {
    var first := Cells([5], 1, 0);
    assert PushBackCells(Cells([1], 0, 0), 5, []) == Stored(first);
    assert ReallocCells(first, 2, unset) == Cells(unset, 1, 2);
    assert unset[1 := 6] == [unset[0], 6];
    assert PushBackCells(first, 6, unset) == Stored(Cells([unset[0], 6], 2, 2));
    assert [unset[0], 6][..2] == [unset[0], 6];
  }
}
