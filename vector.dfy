/**
 * The growable array `vector<T>` of vector/vector.hpp and vector/vector.cpp: an owned
 * buffer `data` of `capacity` slots whose first `size` slots hold the elements.
 */
module Vectors {
  import opened Results
  import opened Sequences

  /** Number of slots the default constructor and `clear` allocate. */
  const DefaultCapacity: nat := 10

  /** The capacity `push_back` computes for a full buffer, as the code writes it. */
  function GrowthAsWritten(capacity: nat): (r: nat)
  {
    if capacity == 0 then 0 else capacity * 2
  }

  /**
   * The rule as written leaves room for the element being appended exactly when the
   * buffer already had a slot: a full buffer of capacity 0 is "grown" to capacity 0,
   * and the append then writes slot 0 of an empty allocation.
   */
  lemma GrowthAsWrittenMakesRoomIffNonEmpty(capacity: nat)
    ensures GrowthAsWritten(capacity) > capacity <==> capacity > 0
    ensures GrowthAsWritten(0) == 0
  {
  }

  /** The growth rule the model uses: doubling, with an empty buffer grown to one slot. */
  function Growth(capacity: nat): (r: nat)
    ensures r > capacity
    ensures capacity > 0 ==> r == GrowthAsWritten(capacity)
  {
    if capacity == 0 then 1 else capacity * 2
  }

  class Vector<T(0,==)> {
    var data: array?<T>
    var size: nat
    var capacity: nat

    /** `size <= capacity`, and `capacity` is the length of the buffer (0 when there is none). */
    ghost predicate Valid()
      reads this
    {
      size <= capacity &&
      if data == null then capacity == 0 else data.Length == capacity
    }

    /** The live elements, slots `[0, size)` of the buffer. */
    ghost function Elements(): (s: seq<T>)
      reads this, data
      requires Valid()
      ensures |s| == size
    {
      if data == null then [] else data[..size]
    }

    /** vector(): an empty vector with `DefaultCapacity` slots. */
    constructor ()
      ensures Valid() && data != null && fresh(data)
      ensures size == 0 && capacity == DefaultCapacity
      ensures Elements() == []
    {
      size := 0;
      capacity := DefaultCapacity;
      data := new T[DefaultCapacity];
    }

    /** vector(init, n): `n` copies of `init` in a buffer of `2 * n` slots. */
    constructor Fill(init: T, initSize: nat)
      ensures Valid() && data != null && fresh(data)
      ensures size == initSize && capacity == 2 * initSize
      ensures Elements() == Repeat(init, initSize)
    {
      var a := new T[initSize * 2];
      for i := 0 to initSize
        invariant a[..i] == Repeat(init, i)
      {
        a[i] := init;
      }
      size := initSize;
      capacity := initSize * 2;
      data := a;
    }

    /** vector(const vector&): the same size, capacity and elements in a buffer of its own. */
    constructor Copy(v: Vector<T>)
      requires v.Valid()
      ensures Valid() && data != null && fresh(data)
      ensures size == v.size && capacity == v.capacity
      ensures Elements() == v.Elements()
    {
      var a := new T[v.capacity];
      for i := 0 to v.size
        invariant a[..i] == v.Elements()[..i]
      {
        a[i] := v.data[i];
      }
      size := v.size;
      capacity := v.capacity;
      data := a;
    }

    /** vector(vector&&): takes over `v`'s buffer and leaves `v` with no buffer. */
    constructor Move(v: Vector<T>)
      requires v.Valid()
      modifies v
      ensures Valid() && v.Valid()
      ensures data == old(v.data) && size == old(v.size) && capacity == old(v.capacity)
      ensures Elements() == old(v.Elements())
      ensures v.data == null && v.size == 0 && v.capacity == 0
    {
      size := v.size;
      capacity := v.capacity;
      data := v.data;
      new;
      v.data := null;
      v.size, v.capacity := 0, 0;
    }

    /** get_size. */
    method GetSize() returns (n: nat)
      requires Valid()
      ensures n == |Elements()|
    {
      n := size;
    }

    /**
     * push_back: appends `el`; a full buffer is first replaced by one of `Growth(capacity)`
     * slots holding the same elements.
     */
    method PushBack(el: T)
      requires Valid()
      modifies this, data
      ensures Valid()
      ensures size == old(size) + 1
      ensures Elements() == old(Elements()) + [el]
      ensures old(size) == old(capacity) ==>
                capacity == Growth(old(capacity)) && data != null && fresh(data)
      ensures old(size) < old(capacity) ==> capacity == old(capacity) && data == old(data)
    {
      if size == capacity {
        var newCapacity := Growth(capacity);
        var restore := new T[newCapacity];
        for i := 0 to size
          modifies restore
          invariant restore[..i] == old(Elements())[..i]
        {
          restore[i] := data[i];
        }
        data := restore;
        capacity := newCapacity;
      }
      data[size] := el;
      size := size + 1;
      assert Elements() == old(Elements()) + [el] by {
        assert data[..size - 1] == old(Elements());
      }
    }

    /** clean_up: releases the buffer and resets `size` and `capacity`. */
    method CleanUp()
      modifies this
      ensures Valid()
      ensures data == null && size == 0 && capacity == 0
      ensures Elements() == []
    {
      data := null;
      size, capacity := 0, 0;
    }

    /** copy_from: copies `v`'s elements into the first `v.size` slots of this buffer. */
    method CopyFrom(v: Vector<T>)
      requires v.Valid() && data != null && data != v.data
      requires v.size <= data.Length
      modifies data
      ensures data[..v.size] == v.Elements()
      ensures data[v.size..] == old(data[v.size..])
    {
      for i := 0 to v.size
        invariant data[..i] == v.Elements()[..i]
        invariant data[v.size..] == old(data[v.size..])
      {
        data[i] := v.data[i];
      }
    }

    /**
     * operator=(const vector&): unless `v` is this vector, releases the buffer, then takes
     * `v`'s size, capacity and elements in a fresh buffer; `v` is left as it was.
     */
    method CopyAssign(v: Vector<T>)
      requires Valid() && v.Valid()
      modifies this
      ensures Valid() && v.Valid()
      ensures v == this ==> data == old(data) && size == old(size) && capacity == old(capacity)
      ensures v != this ==> data != null && fresh(data)
      ensures size == old(v.size) && capacity == old(v.capacity)
      ensures Elements() == old(v.Elements())
      ensures v.Elements() == old(v.Elements())
    {
      if this != v {
        CleanUp();
        data := new T[v.capacity];
        CopyFrom(v);
        size := v.size;
        capacity := v.capacity;
        assert Elements() == data[..size] == v.Elements();
      }
    }

    /**
     * operator=(vector&&): unless `v` is this vector, releases the buffer, takes `v`'s buffer,
     * size and capacity, and leaves `v` with no buffer.
     */
    method MoveAssign(v: Vector<T>)
      requires Valid() && v.Valid()
      modifies this, v
      ensures Valid() && v.Valid()
      ensures v == this ==> data == old(data) && size == old(size) && capacity == old(capacity)
      ensures v != this ==> data == old(v.data) && size == old(v.size) && capacity == old(v.capacity)
      ensures v != this ==> v.data == null && v.size == 0 && v.capacity == 0
      ensures Elements() == old(v.Elements())
    {
      if this != v {
        CleanUp();
        data := v.data;
        size := v.size;
        capacity := v.capacity;
        v.data := null;
        v.size, v.capacity := 0, 0;
      }
    }

    /** at: element `index`, or out_of_range when `index >= size`. */
    method At(index: nat) returns (r: Result<T>)
      requires Valid()
      ensures index < size ==> r == Ok(Elements()[index])
      ensures index >= size ==> r == Err(OutOfRange)
    {
      if index >= size {
        return Err(OutOfRange);
      }
      return Ok(data[index]);
    }

    /** empty. */
    method Empty() returns (b: bool)
      requires Valid()
      ensures b <==> Elements() == []
    {
      b := size == 0;
    }

    /** back: the last element, or out_of_range on an empty vector. */
    method Back() returns (r: Result<T>)
      requires Valid()
      ensures Elements() != [] ==> r == Ok(Elements()[|Elements()| - 1])
      ensures Elements() == [] ==> r == Err(OutOfRange)
    {
      if size == 0 {
        return Err(OutOfRange);
      }
      return Ok(data[size - 1]);
    }

    /** front: the first element, or out_of_range on an empty vector. */
    method Front() returns (r: Result<T>)
      requires Valid()
      ensures Elements() != [] ==> r == Ok(Elements()[0])
      ensures Elements() == [] ==> r == Err(OutOfRange)
    {
      if size == 0 {
        return Err(OutOfRange);
      }
      return Ok(data[0]);
    }

    /**
     * operator==: a vector equals itself; otherwise the sizes must agree and the elements
     * must agree index by index.
     */
    method Equals(v: Vector<T>) returns (b: bool)
      requires Valid() && v.Valid()
      ensures b <==> Elements() == v.Elements()
      ensures v == this ==> b
    {
      if this != v {
        if size != v.size {
          return false;
        }
        for i := 0 to size
          invariant Elements()[..i] == v.Elements()[..i]
        {
          if data[i] != v.data[i] {
            assert Elements()[i] != v.Elements()[i];
            return false;
          }
        }
        assert Elements() == Elements()[..size];
        assert v.Elements() == v.Elements()[..size];
      }
      return true;
    }

    /** operator!=: the negation of operator==. */
    method NotEquals(v: Vector<T>) returns (b: bool)
      requires Valid() && v.Valid()
      ensures b <==> Elements() != v.Elements()
    {
      var eq := Equals(v);
      b := !eq;
    }

    /** clear: discards the elements and the buffer, and allocates `DefaultCapacity` fresh slots. */
    method Clear()
      modifies this
      ensures Valid() && data != null && fresh(data)
      ensures size == 0 && capacity == DefaultCapacity
      ensures Elements() == []
    {
      CleanUp();
      capacity := DefaultCapacity;
      data := new T[capacity];
    }
  }

  /** A copy owns its buffer: appending to the copy leaves the original as it was. */
  method AppendToCopy<T(0,==)>(v: Vector<T>, x: T) returns (c: Vector<T>)
    requires v.Valid()
    ensures c.Valid() && v.Valid()
    ensures c.Elements() == v.Elements() + [x]
    ensures fresh(c.data)
  {
    c := new Vector.Copy(v);
    c.PushBack(x);
  }

  /** Appending to the original after copying it leaves the copy as it was. */
  method AppendAfterCopy<T(0,==)>(v: Vector<T>, x: T) returns (c: Vector<T>)
    requires v.Valid()
    modifies v, v.data
    ensures c.Valid() && v.Valid()
    ensures c.Elements() == old(v.Elements())
    ensures v.Elements() == old(v.Elements()) + [x]
  {
    c := new Vector.Copy(v);
    v.PushBack(x);
  }
}
