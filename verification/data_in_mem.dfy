/**
 * The in-memory example store of src/buffer_loader/data_reader/data_in_mem.rs:
 * examples are appended one by one, optionally shuffled once, then read
 * out in consecutive batches from a cursor.
 *
 * The example type is the parameter `E`.  `Vec::with_capacity` and
 * `shrink_to_fit` only change the allocation, which is not modelled.
 */
module InMemData {

  class DataInMem<E(==)> {
    var data: seq<E>
    var size: nat
    var cursor: nat

    ghost predicate Valid()
      reads this
    {
      size == |data|
    }

    /** Lines 30-36: empty, with the cursor at the start. */
    constructor (capacity: nat)
      ensures Valid() && data == [] && size == 0 && cursor == 0
    {
      data := [];
      size := 0;
      cursor := 0;
    }

    /**
     * Lines 17-21: the next `batchSize` examples from the cursor, which
     * moves past them.  Slicing past the end panics in the source.
     */
    method Fetch(batchSize: nat) returns (batch: seq<E>)
      requires Valid() && cursor + batchSize <= |data|
      modifies this
      ensures Valid() && data == old(data) && size == old(size)
      ensures cursor == old(cursor) + batchSize
      ensures batch == data[old(cursor)..cursor]
    {
      var curr := cursor;
      cursor := cursor + batchSize;
      batch := data[curr..cursor];
    }

    /** Lines 23-25: back to the first example. */
    method Reset()
      modifies this
      ensures cursor == 0 && data == old(data) && size == old(size)
    {
      cursor := 0;
    }

    /** Lines 38-41: the example goes last. */
    method Append(example: E)
      requires Valid()
      modifies this
      ensures Valid() && data == old(data) + [example] && size == old(size) + 1
      ensures cursor == old(cursor)
    {
      data := data + [example];
      size := size + 1;
    }

    /**
     * Lines 43-48: with `shuffle`, the examples are put in an arbitrary
     * order (the random shuffle); the same examples remain either way.
     */
    method Release(shuffle: bool)
      requires Valid()
      modifies this
      ensures Valid() && multiset(data) == multiset(old(data)) && size == old(size)
      ensures !shuffle ==> data == old(data)
      ensures cursor == old(cursor)
    {
      if shuffle {
        var shuffled :| |shuffled| == |data| && multiset(shuffled) == multiset(data);
        data := shuffled;
      }
    }
  }
}
