/** The scan's result records and the growable buffer that collects them. */
module Results {
  import opened Bytes

  /** Capacity of a fresh result buffer. */
  const DefaultResultBuffSize: nat := 32

  /** One hit: the file offset of the window and the key whose pattern it equals. */
  datatype SearchResult = SearchResult(offset: nat, byteKey: byte)

  /** The results array together with its fill count and its capacity. */
  class ResultBuffer {
    var data: array<SearchResult>
    var count: nat
    var capacity: nat

    /** The count never exceeds the capacity, which is the length of the backing array. */
    ghost predicate Valid()
      reads this
    {
      0 < capacity && capacity == data.Length && count <= capacity
    }

    /** The results appended so far, oldest first. */
    ghost function Contents(): (s: seq<SearchResult>)
      reads this, data
      requires Valid()
    {
      data[..count]
    }

    constructor ()
      ensures Valid() && fresh(data)
      ensures capacity == DefaultResultBuffSize && Contents() == []
    {
      capacity := DefaultResultBuffSize;
      data := new SearchResult[DefaultResultBuffSize];
      count := 0;
    }

    /** Doubles the capacity: allocates a new array and copies the stored results over. */
    method Grow()
      requires Valid()
      modifies this
      ensures Valid() && fresh(data)
      ensures capacity == 2 * old(capacity) && count == old(count)
      ensures Contents() == old(Contents())
    {
      capacity := capacity * 2;
      var bigger := new SearchResult[capacity];
      var j := 0;
      while j < count
        invariant 0 <= j <= count
        invariant bigger[..j] == data[..j]
        modifies bigger
      {
        bigger[j] := data[j];
        j := j + 1;
      }
      data := bigger;
    }

    /** Appends one result, growing the buffer first when it is full. */
    method Append(r: SearchResult)
      requires Valid()
      modifies this, data
      ensures Valid()
      ensures Contents() == old(Contents()) + [r]
      ensures capacity == if old(count) >= old(capacity) then 2 * old(capacity) else old(capacity)
      ensures data == old(data) || fresh(data)
    {
      if count >= capacity {
        Grow();
      }
      data[count] := r;
      count := count + 1;
    }
  }
}
