/** DynamicArray<T> of src/indexer.h: a growable array that owns a heap buffer
    `data` of `capacity` slots, the first `size` of which are in use.

    A zero-capacity array has no buffer in the source (a null pointer); here it
    is an array of length 0. */
module DynamicArrays {

  class DynamicArray<T(0)> {
    var data: array<T>
    var size: nat
    var capacity: nat

    /** The buffer has exactly `capacity` slots and `size` of them are used. */
    ghost predicate Valid()
      reads this
    {
      size <= capacity && data.Length == capacity
    }

    /** The elements in use, in order. */
    ghost function Elements(): seq<T>
      reads this, data
      requires Valid()
    {
      data[..size]
    }

    /** The default constructor (src/indexer.h:59): empty, no buffer. */
    constructor ()
      ensures Valid() && fresh(data)
      ensures size == 0 && capacity == 0 && Elements() == []
    {
      data := new T[0];
      size, capacity := 0, 0;
    }

    /** The copy constructor (src/indexer.h:61-68): same elements; a non-empty
        source also passes on its capacity, an empty one leaves no buffer. */
    constructor Copy(other: DynamicArray<T>)
      requires other.Valid()
      ensures Valid() && fresh(data)
      ensures Elements() == other.Elements()
      ensures capacity == if other.size > 0 then other.capacity else 0
    {
      data := new T[0];
      size, capacity := 0, 0;
      new;
      if other.size > 0 {
        Reserve(other.capacity);
        var i := 0;
        while i < other.size
          invariant Valid() && fresh(data) && data != other.data
          invariant 0 <= i <= other.size && size == i
          invariant capacity == other.capacity
          invariant Elements() == other.Elements()[..i]
        {
          PushBack(other.data[i]);
          i := i + 1;
        }
      }
    }

    /** operator= (src/indexer.h:70-85): self-assignment changes nothing;
        otherwise the buffer is dropped and the other array's elements copied. */
    method Assign(other: DynamicArray<T>)
      requires Valid() && other.Valid()
      modifies this
      ensures Valid()
      ensures other == this ==> data == old(data) && size == old(size) && capacity == old(capacity)
      ensures other != this ==> fresh(data) && Elements() == old(other.Elements())
      ensures other != this ==> capacity == if old(other.size) > 0 then old(other.capacity) else 0
    {
      if other != this {
        data := new T[0];
        size, capacity := 0, 0;
        if other.size > 0 {
          Reserve(other.capacity);
          var i := 0;
          while i < other.size
            invariant Valid() && fresh(data) && data != other.data
            invariant 0 <= i <= other.size && size == i
            invariant capacity == other.capacity
            invariant other.Valid() && other.Elements() == old(other.Elements())
            invariant Elements() == other.Elements()[..i]
          {
            PushBack(other.data[i]);
            i := i + 1;
          }
        }
      }
    }

    /** reserve (src/indexer.h:91-102): a request no larger than the current
        capacity does nothing; a larger one moves the elements into a fresh
        buffer of exactly that many slots. */
    method Reserve(newCapacity: nat)
      requires Valid()
      modifies this
      ensures Valid() && size == old(size)
      ensures Elements() == old(Elements())
      ensures newCapacity <= old(capacity) ==> data == old(data) && capacity == old(capacity)
      ensures newCapacity > old(capacity) ==> fresh(data) && capacity == newCapacity
    {
      if newCapacity <= capacity {
        return;
      }
      var newData := new T[newCapacity];
      var i := 0;
      while i < size
        invariant Valid() && size < newCapacity == newData.Length
        invariant unchanged(this)
        invariant 0 <= i <= size
        invariant newData[..i] == data[..i]
      {
        newData[i] := data[i];
        i := i + 1;
      }
      data := newData;
      capacity := newCapacity;
    }

    /** push_back (src/indexer.h:104-109): a full array first grows to 8 slots
        when it has none, otherwise to twice its capacity; then the value is
        stored after the existing elements, which stay as they were. */
    method PushBack(value: T)
      requires Valid()
      modifies this, data
      ensures Valid() && size == old(size) + 1
      ensures Elements() == old(Elements()) + [value]
      ensures old(size) < old(capacity) ==> capacity == old(capacity) && data == old(data)
      ensures old(size) == old(capacity) ==> fresh(data)
      ensures old(size) == old(capacity) ==> capacity == if old(capacity) == 0 then 8 else 2 * old(capacity)
    {
      if size >= capacity {
        Reserve(if capacity == 0 then 8 else capacity * 2);
      }
      data[size] := value;
      size := size + 1;
    }

    /** operator[] (src/indexer.h:111-117); the source does not check the index. */
    method Get(index: nat) returns (r: T)
      requires Valid() && index < size
      ensures r == Elements()[index]
    {
      r := data[index];
    }
  }
}
