/**
 * The batch reader of src/buffer_loader/data_reader/mod.rs: it walks a
 * store of `size` examples in batches of `batchSize`, the last batch of a
 * pass taking whatever remains, and rewinds the store after each pass.
 *
 * Only the in-memory store is modelled; the on-disk store
 * (data_on_disk.rs) is not part of this model.
 */
module DataReaders {
  import opened InMemData

  /**
   * Lines 79-90 as a definition: from cursor `c`, the size of the next
   * batch and the cursor after it.
   */
  function Step(size: nat, batchSize: nat, c: nat): (nat, nat)
    requires c == 0 || c * batchSize < size
  {
    if (c + 1) * batchSize < size then (batchSize, c + 1)
    else (size - c * batchSize, 0)
  }

  /** A cursor the reader can hold: the start, or a batch boundary short of `size`. */
  predicate CursorOk(size: nat, batchSize: nat, c: nat) {
    c == 0 || c * batchSize < size
  }

  /** Each step stays on a good cursor, and a non-empty store gives a non-empty batch. */
  lemma StepKeeps(size: nat, batchSize: nat, c: nat)
    requires batchSize > 0 && CursorOk(size, batchSize, c)
    ensures CursorOk(size, batchSize, Step(size, batchSize, c).1)
    ensures size > 0 ==> Step(size, batchSize, c).0 > 0
    ensures Step(size, batchSize, c).1 != 0 ==> Step(size, batchSize, c).0 == batchSize
    ensures c * batchSize + Step(size, batchSize, c).0 <= size
  {
  }

  /** The batch sizes of one pass from cursor `c` to the wrap-around. */
  function Pass(size: nat, batchSize: nat, c: nat): (bs: seq<nat>)
    requires batchSize > 0 && CursorOk(size, batchSize, c)
    ensures |bs| > 0
    decreases size - c * batchSize
  {
    var (b, next) := Step(size, batchSize, c);
    if next == 0 then [b] else [b] + Pass(size, batchSize, next)
  }

  function Sum(bs: seq<nat>): nat {
    if bs == [] then 0 else bs[0] + Sum(bs[1..])
  }

  /** The batches of a pass from `c` cover exactly the examples from `c * batchSize` on. */
  lemma {:induction false} PassSum(size: nat, batchSize: nat, c: nat)
    requires batchSize > 0 && CursorOk(size, batchSize, c)
    ensures Sum(Pass(size, batchSize, c)) == size - c * batchSize
    decreases size - c * batchSize
  {
    var (b, next) := Step(size, batchSize, c);
    if next != 0 {
      PassSum(size, batchSize, next);
      assert Pass(size, batchSize, c)[1..] == Pass(size, batchSize, next);
    }
  }

  /** Line 41: the number of batches in a pass, `size / batchSize` rounded up. */
  function NumBatch(size: nat, batchSize: nat): nat
    requires batchSize > 0
  {
    (size + batchSize - 1) / batchSize
  }

  lemma CeilStep(n: nat, batchSize: nat)
    requires batchSize > 0 && n > batchSize
    ensures NumBatch(n, batchSize) == 1 + NumBatch(n - batchSize, batchSize)
  {
    DivShift(n - batchSize + batchSize - 1, batchSize, 1);
  }

  lemma CeilOne(n: nat, batchSize: nat)
    requires 0 < n <= batchSize
    ensures NumBatch(n, batchSize) == 1
  {
    DivUnique(n + batchSize - 1, batchSize, 1, n - 1);
  }

  /** A pass from cursor `c` has `NumBatch(size, batchSize) - c` batches. */
  lemma {:induction false} PassLength(size: nat, batchSize: nat, c: nat)
    requires batchSize > 0 && size > 0 && CursorOk(size, batchSize, c)
    ensures c < NumBatch(size, batchSize)
    ensures |Pass(size, batchSize, c)| == NumBatch(size, batchSize) - c
    decreases size - c * batchSize
  {
    var (b, next) := Step(size, batchSize, c);
    var rest := size - c * batchSize;
    assert rest > 0;
    if next != 0 {
      PassLength(size, batchSize, next);
      assert Pass(size, batchSize, c)[1..] == Pass(size, batchSize, next);
      assert size - next * batchSize == rest - batchSize;
      CeilStep(rest, batchSize);
    } else {
      CeilOne(rest, batchSize);
    }
    CeilShift(size, batchSize, c);
  }

  /** Skipping `c` whole batches takes `c` off the batch count. */
  lemma CeilShift(size: nat, batchSize: nat, c: nat)
    requires batchSize > 0 && c * batchSize <= size
    ensures NumBatch(size - c * batchSize, batchSize) == NumBatch(size, batchSize) - c
  {
    var n := size - c * batchSize;
    assert size + batchSize - 1 == (n + batchSize - 1) + c * batchSize;
    DivShift(n + batchSize - 1, batchSize, c);
  }

  lemma DivShift(a: nat, batchSize: nat, c: nat)
    requires batchSize > 0
    ensures (a + c * batchSize) / batchSize == a / batchSize + c
  {
    var q := a / batchSize;
    var r := a % batchSize;
    assert a + c * batchSize == (q + c) * batchSize + r;
    DivUnique(a + c * batchSize, batchSize, q + c, r);
  }

  lemma MulAtLeast(x: int, d: int)
    requires x >= 1 && d > 0
    ensures x * d >= d
  {
  }

  /** The quotient is the one `q` with `a == q * d + r` and `0 <= r < d`. */
  lemma DivUnique(a: int, d: int, q: int, r: int)
    requires d > 0 && 0 <= r < d && a == q * d + r
    ensures a / d == q
  {
    var q', r' := a / d, a % d;
    assert a == q' * d + r';
    if q' > q {
      MulAtLeast(q' - q, d);
    } else if q' < q {
      MulAtLeast(q - q', d);
    }
  }

  /** The examples of consecutive batches of sizes `bs`, starting at `from`. */
  function Batches<E>(data: seq<E>, from: nat, bs: seq<nat>): (r: seq<seq<E>>)
    requires from + Sum(bs) <= |data|
    ensures |r| == |bs|
    decreases |bs|
  {
    if bs == [] then [] else [data[from..from + bs[0]]] + Batches(data, from + bs[0], bs[1..])
  }

  function Concat<E>(ss: seq<seq<E>>): seq<E> {
    if ss == [] then [] else ss[0] + Concat(ss[1..])
  }

  /** Consecutive batches put together are the slice they cover. */
  lemma {:induction false} BatchesConcat<E>(data: seq<E>, from: nat, bs: seq<nat>)
    requires from + Sum(bs) <= |data|
    ensures Concat(Batches(data, from, bs)) == data[from..from + Sum(bs)]
    decreases |bs|
  {
    if bs != [] {
      var r := Batches(data, from, bs);
      BatchesConcat(data, from + bs[0], bs[1..]);
      assert r[1..] == Batches(data, from + bs[0], bs[1..]);
      assert data[from..from + bs[0]] + data[from + bs[0]..from + Sum(bs)] == data[from..from + Sum(bs)];
    }
  }

  /** One pass from the start reads every example once, in order. */
  lemma PassReadsAll<E>(data: seq<E>, size: nat, batchSize: nat)
    requires batchSize > 0 && size <= |data|
    ensures Sum(Pass(size, batchSize, 0)) == size
    ensures Concat(Batches(data, 0, Pass(size, batchSize, 0))) == data[..size]
  {
    PassSum(size, batchSize, 0);
    BatchesConcat(data, 0, Pass(size, batchSize, 0));
  }

  /**
   * Lines 105-111: fetch a batch and, when this was the last batch of a
   * pass, rewind the store.
   */
  method FetchAndReset<E(==)>(reader: DataInMem<E>, batchSize: nat, reset: bool) returns (ret: seq<E>)
    requires reader.Valid() && reader.cursor + batchSize <= |reader.data|
    modifies reader
    ensures reader.Valid() && reader.data == old(reader.data) && reader.size == old(reader.size)
    ensures ret == reader.data[old(reader.cursor)..old(reader.cursor) + batchSize]
    ensures reader.cursor == if reset then 0 else old(reader.cursor) + batchSize
  {
    ret := reader.Fetch(batchSize);
    if reset {
      reader.Reset();
    }
  }

  /** Lines 25-36. */
  class DataReader<E(==)> {
    const size: nat
    const batchSize: nat
    const numBatch: nat
    var cursor: nat
    const reader: DataInMem<E>
    var currBatch: seq<E>

    ghost predicate Valid()
      reads this
    {
      batchSize > 0 && numBatch == NumBatch(size, batchSize) &&
      CursorOk(size, batchSize, cursor)
    }

    /** The store's cursor sits where this reader's batches say it should. */
    ghost predicate InSync()
      reads this, reader
    {
      reader.Valid() && reader.cursor == cursor * batchSize && size <= |reader.data|
    }

    /**
     * Lines 40-53.  A zero `batchSize` divides by zero at line 41.  The
     * reader starts in step with a store that is at its start and holds
     * at least `size` examples.
     */
    constructor (size: nat, batchSize: nat, reader: DataInMem<E>)
      requires batchSize > 0
      ensures Valid() && this.size == size && this.batchSize == batchSize && this.reader == reader
      ensures cursor == 0 && currBatch == []
      ensures reader.Valid() && reader.cursor == 0 && size <= |reader.data| ==> InSync()
    {
      this.size := size;
      this.batchSize := batchSize;
      this.numBatch := (size + batchSize - 1) / batchSize;
      this.cursor := 0;
      this.reader := reader;
      this.currBatch := [];
    }

    /** Lines 55-57. */
    function GetNumBatches(): (n: nat)
      requires Valid()
      reads this
      ensures n * batchSize >= size && (n == 0 || (n - 1) * batchSize < size)
    {
      CeilBounds(size, batchSize);
      numBatch
    }

    /**
     * Lines 79-90: the cursor before the call and the size of the batch at
     * it; the cursor moves on, or back to 0 after the last batch.
     */
    method GetNextBatchSize() returns (currLoc: nat, batch: nat)
      requires Valid()
      modifies this
      ensures Valid() && currBatch == old(currBatch)
      ensures currLoc == old(cursor)
      ensures (batch, cursor) == Step(size, batchSize, old(cursor))
    {
      currLoc := cursor;
      if (cursor + 1) * batchSize < size {
        cursor := cursor + 1;
        batch := batchSize;
      } else {
        var tailRemains := size - cursor * batchSize;
        cursor := 0;
        batch := tailRemains;
      }
      StepKeeps(size, batchSize, currLoc);
    }

    /**
     * Lines 63-77: the next batch becomes `currBatch`; `reset` tells
     * whether it closed a pass, in which case the store is rewound.
     */
    method FetchNextBatch() returns (currLoc: nat, batch: nat, reset: bool)
      requires Valid() && InSync()
      modifies this, reader
      ensures Valid() && InSync()
      ensures currLoc == old(cursor) && (batch, cursor) == Step(size, batchSize, old(cursor))
      ensures reset <==> cursor == 0
      ensures reader.data == old(reader.data)
      ensures currBatch == reader.data[currLoc * batchSize..currLoc * batchSize + batch]
    {
      currLoc, batch := GetNextBatchSize();
      StepKeeps(size, batchSize, currLoc);
      reset := cursor == 0;
      currBatch := FetchAndReset(reader, batch, reset);
    }
  }

  lemma CeilBounds(size: nat, batchSize: nat)
    requires batchSize > 0
    ensures NumBatch(size, batchSize) * batchSize >= size
    ensures NumBatch(size, batchSize) == 0 || (NumBatch(size, batchSize) - 1) * batchSize < size
  {
    var a := size + batchSize - 1;
    var q := a / batchSize;
    var r := a % batchSize;
    assert a == q * batchSize + r;
  }
}
