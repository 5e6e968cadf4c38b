/**
 * The block store of src/stratified_storage/strata/disk_buffer.rs: a file
 * of fixed-size blocks whose free slots are kept in a `BitMap`.
 *
 * The file is modelled as a map from slot to the block stored there; a
 * block at slot `p` lives `p * blockSize` bytes into the file.
 */
module DiskBuffers {
  import opened Wrappers
  import opened BitMaps

  type Block = seq<bv8>

  class DiskBuffer {
    const blockSize: nat
    const capacity: nat
    const bitmap: BitMap
    /** One past the highest slot ever written. */
    var size: nat
    /** The buffer file, slot by slot. */
    var file: map<nat, Block>

    ghost predicate Valid()
      reads this, bitmap, bitmap.isFree
    {
      bitmap.Valid() && bitmap.size == capacity && size <= capacity &&
      (forall p :: p in file <==> 0 <= p < size) &&
      (forall p :: p in file ==> |file[p]| == blockSize) &&
      // every slot from `size` on has never been handed out
      (forall p :: size <= p < capacity ==> p in bitmap.free)
    }

    /** Lines 24-39: an empty file with every one of `capacity` slots free. */
    constructor (blockSize: nat, capacity: nat)
      ensures Valid() && this.blockSize == blockSize && this.capacity == capacity
      ensures size == 0 && file == map[]
      ensures forall p :: p in bitmap.free <==> 0 <= p < capacity
      ensures fresh(bitmap) && fresh(bitmap.isFree)
    {
      this.blockSize := blockSize;
      this.capacity := capacity;
      bitmap := new BitMap(capacity, false);
      size := 0;
      file := map[];
    }

    /**
     * Lines 41-60: store `data` at the lowest free slot and return that
     * slot.  `None` is the "No free slot available." panic, which leaves
     * the buffer as it was.
     */
    method Write(data: Block) returns (r: Option<nat>)
      requires Valid() && |data| == blockSize
      modifies this, bitmap, bitmap.isFree
      ensures Valid()
      ensures bitmap.isFree == old(bitmap.isFree)
      ensures r.None? <==> old(bitmap.free) == {}
      ensures r.None? ==> size == old(size) && file == old(file) && bitmap.free == old(bitmap.free)
      ensures r.Some? ==>
        var p := r.value;
        p in old(bitmap.free) && (forall q :: q in old(bitmap.free) ==> p <= q) &&
        p <= old(size) &&
        size == (if p == old(size) then old(size) + 1 else old(size)) &&
        file == old(file)[p := data] &&
        bitmap.free == old(bitmap.free) - {p}
    {
      var idx := bitmap.GetFirstFree();
      if idx.None? {
        return None;
      }
      var position := idx.value;
      // line 50 never fails: every slot from `size` on is free
      assert size < capacity ==> size in bitmap.free;
      assert position <= size;
      bitmap.MarkFilled(position);
      if position >= size {
        size := size + 1;
      }
      file := file[position := data];
      r := Some(position);
    }

    /** Lines 62-74: the block stored at `position`, whose slot becomes free. */
    method Read(position: nat) returns (data: Block)
      requires Valid() && position < size
      modifies bitmap, bitmap.isFree
      ensures Valid()
      ensures bitmap.isFree == old(bitmap.isFree)
      ensures data == file[position] && |data| == blockSize
      ensures bitmap.free == old(bitmap.free) + {position}
    {
      data := file[position];
      bitmap.MarkFree(position);
    }

    /** Lines 76-78: the number of slots in use in the file, at most `capacity`. */
    method GetSize() returns (n: nat)
      requires Valid()
      ensures n == size && n <= capacity
    {
      n := size;
    }
  }

  /** Lines 107-120: a block written and read back is the block written. */
  method TestRwOnce(data: Block) returns (index: Option<nat>, retrieve: Block)
    ensures index == Some(0) && retrieve == data
  {
    var buffer := new DiskBuffer(|data|, 5);
    assert 0 in buffer.bitmap.free;
    index := buffer.Write(data);
    retrieve := buffer.Read(index.value);
  }

  /**
   * Lines 122-139: writing and reading back one block at a time always
   * uses slot 0 and keeps the size at 1.
   */
  method TestRwOneByOne(inputs: seq<Block>, blockSize: nat) returns (indices: seq<Option<nat>>, sizes: seq<nat>, retrieved: seq<Block>)
    requires forall i :: 0 <= i < |inputs| ==> |inputs[i]| == blockSize
    ensures |indices| == |sizes| == |retrieved| == |inputs|
    ensures forall i :: 0 <= i < |inputs| ==> indices[i] == Some(0) && sizes[i] == 1 && retrieved[i] == inputs[i]
  {
    var buffer := new DiskBuffer(blockSize, 5);
    indices, sizes, retrieved := [], [], [];
    var i := 0;
    while i < |inputs|
      invariant 0 <= i <= |inputs|
      invariant fresh(buffer) && fresh(buffer.bitmap) && fresh(buffer.bitmap.isFree)
      invariant buffer.Valid() && buffer.blockSize == blockSize && buffer.capacity == 5
      invariant forall p :: p in buffer.bitmap.free <==> 0 <= p < 5
      invariant buffer.size == if i == 0 then 0 else 1
      invariant |indices| == |sizes| == |retrieved| == i
      invariant forall k :: 0 <= k < i ==> indices[k] == Some(0) && sizes[k] == 1 && retrieved[k] == inputs[k]
    {
      assert 0 in buffer.bitmap.free;
      var index := buffer.Write(inputs[i]);
      var n := buffer.GetSize();
      var retrieve := buffer.Read(index.value);
      indices, sizes, retrieved := indices + [index], sizes + [n], retrieved + [retrieve];
      i := i + 1;
    }
  }

  /**
   * Lines 141-162: sequential writes fill slots 0, 1, 2, ... and grow the
   * size one at a time; reading slot `i` returns the `i`-th block.
   */
  method TestRwSeq(inputs: seq<Block>, blockSize: nat) returns (indices: seq<Option<nat>>, sizes: seq<nat>, retrieved: seq<Block>)
    requires |inputs| <= 5
    requires forall i :: 0 <= i < |inputs| ==> |inputs[i]| == blockSize
    ensures |indices| == |sizes| == |retrieved| == |inputs|
    ensures forall i :: 0 <= i < |inputs| ==> indices[i] == Some(i) && sizes[i] == i + 1 && retrieved[i] == inputs[i]
  {
    var buffer := new DiskBuffer(blockSize, 5);
    indices, sizes := [], [];
    var i := 0;
    while i < |inputs|
      invariant 0 <= i <= |inputs|
      invariant fresh(buffer) && fresh(buffer.bitmap) && fresh(buffer.bitmap.isFree)
      invariant buffer.Valid() && buffer.blockSize == blockSize && buffer.capacity == 5
      invariant forall p :: p in buffer.bitmap.free <==> i <= p < 5
      invariant buffer.size == i
      invariant forall k :: 0 <= k < i ==> k in buffer.file && buffer.file[k] == inputs[k]
      invariant |indices| == |sizes| == i
      invariant forall k :: 0 <= k < i ==> indices[k] == Some(k) && sizes[k] == k + 1
    {
      assert i in buffer.bitmap.free;
      var index := buffer.Write(inputs[i]);
      var n := buffer.GetSize();
      indices, sizes := indices + [index], sizes + [n];
      i := i + 1;
    }
    retrieved := [];
    i := 0;
    while i < |inputs|
      invariant 0 <= i <= |inputs|
      invariant fresh(buffer) && fresh(buffer.bitmap) && fresh(buffer.bitmap.isFree)
      invariant buffer.Valid() && buffer.size == |inputs|
      invariant forall k :: 0 <= k < |inputs| ==> k in buffer.file && buffer.file[k] == inputs[k]
      invariant |retrieved| == i
      invariant forall k :: 0 <= k < i ==> retrieved[k] == inputs[k]
    {
      var retrieve := buffer.Read(i);
      retrieved := retrieved + [retrieve];
      i := i + 1;
    }
  }

  /** Lines 172-182: the sixth write into five slots finds no free slot. */
  method TestWriteFull(data: Block) returns (results: seq<Option<nat>>)
    ensures |results| == 6 && results[5] == None
    ensures forall i :: 0 <= i < 5 ==> results[i] == Some(i)
  {
    var buffer := new DiskBuffer(|data|, 5);
    results := [];
    var i := 0;
    while i < 6
      invariant 0 <= i <= 6
      invariant fresh(buffer) && fresh(buffer.bitmap) && fresh(buffer.bitmap.isFree)
      invariant buffer.Valid() && buffer.blockSize == |data| && buffer.capacity == 5
      invariant forall p :: p in buffer.bitmap.free <==> i <= p < 5
      invariant |results| == i
      invariant forall k :: 0 <= k < i && k < 5 ==> results[k] == Some(k)
      invariant i == 6 ==> results[5] == None
    {
      if i < 5 {
        assert i in buffer.bitmap.free;
      } else {
        assert buffer.bitmap.free == {};
      }
      var index := buffer.Write(data);
      results := results + [index];
      i := i + 1;
    }
  }
}
