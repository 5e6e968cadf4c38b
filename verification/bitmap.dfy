/**
 * The free-slot bitmap of src/data_loader/stratified_loader/bitmap.rs.
 *
 * Slot `p` is free when bit `p % 32` of word `p / 32` is set.  The words
 * are Rust `i32`s; their bit patterns are modelled as `bv32`, on which
 * `|`, `&` and `!` act exactly as on `i32`.
 */
module BitMaps {
  import opened Wrappers

  /** Bit `q` of a word. */
  predicate Bit(w: bv32, q: bv32)
    requires q < 32
  {
    (w >> q) & 1 == 1
  }

  /**
   * A small count as a shift amount.  Counting up one at a time keeps the
   * solver away from general integer/bit-vector conversion.
   */
  function Index(n: nat): bv32 {
    if n == 0 then 0 else Index(n - 1) + 1
  }

  lemma IndexTable()
    ensures Index(0) == 0 && Index(1) == 1 && Index(2) == 2 && Index(3) == 3 && Index(4) == 4 && Index(5) == 5 &&
      Index(6) == 6 && Index(7) == 7 && Index(8) == 8 && Index(9) == 9 && Index(10) == 10 && Index(11) == 11 &&
      Index(12) == 12 && Index(13) == 13 && Index(14) == 14 && Index(15) == 15 && Index(16) == 16 && Index(17) == 17 &&
      Index(18) == 18 && Index(19) == 19 && Index(20) == 20 && Index(21) == 21 && Index(22) == 22 && Index(23) == 23 &&
      Index(24) == 24 && Index(25) == 25 && Index(26) == 26 && Index(27) == 27 && Index(28) == 28 && Index(29) == 29 &&
      Index(30) == 30 && Index(31) == 31 && Index(32) == 32 && Index(33) == 33
  {
    assert Index(1) == 1;
    assert Index(2) == 2;
    assert Index(3) == 3;
    assert Index(4) == 4;
    assert Index(5) == 5;
    assert Index(6) == 6;
    assert Index(7) == 7;
    assert Index(8) == 8;
    assert Index(9) == 9;
    assert Index(10) == 10;
    assert Index(11) == 11;
    assert Index(12) == 12;
    assert Index(13) == 13;
    assert Index(14) == 14;
    assert Index(15) == 15;
    assert Index(16) == 16;
    assert Index(17) == 17;
    assert Index(18) == 18;
    assert Index(19) == 19;
    assert Index(20) == 20;
    assert Index(21) == 21;
    assert Index(22) == 22;
    assert Index(23) == 23;
    assert Index(24) == 24;
    assert Index(25) == 25;
    assert Index(26) == 26;
    assert Index(27) == 27;
    assert Index(28) == 28;
    assert Index(29) == 29;
    assert Index(30) == 30;
    assert Index(31) == 31;
    assert Index(32) == 32;
    assert Index(33) == 33;
  }

  lemma IndexBound(n: nat)
    requires n <= 33
    ensures Index(n) <= 33 && (n <= 32 ==> Index(n) <= 32) && (n < 32 ==> Index(n) < 32)
  {
    IndexTable();
    if n == 0 {
    } else if n == 1 {
    } else if n == 2 {
    } else if n == 3 {
    } else if n == 4 {
    } else if n == 5 {
    } else if n == 6 {
    } else if n == 7 {
    } else if n == 8 {
    } else if n == 9 {
    } else if n == 10 {
    } else if n == 11 {
    } else if n == 12 {
    } else if n == 13 {
    } else if n == 14 {
    } else if n == 15 {
    } else if n == 16 {
    } else if n == 17 {
    } else if n == 18 {
    } else if n == 19 {
    } else if n == 20 {
    } else if n == 21 {
    } else if n == 22 {
    } else if n == 23 {
    } else if n == 24 {
    } else if n == 25 {
    } else if n == 26 {
    } else if n == 27 {
    } else if n == 28 {
    } else if n == 29 {
    } else if n == 30 {
    } else if n == 31 {
    } else if n == 32 {
    }
  }

  lemma {:induction false} IndexOrder(a: nat, b: nat)
    requires a < b <= 33
    ensures Index(a) < Index(b)
    decreases b
  {
    IndexBound(b - 1);
    if a < b - 1 {
      IndexOrder(a, b - 1);
    }
  }

  lemma IndexDistinct(a: nat, b: nat)
    requires a <= 33 && b <= 33 && a != b
    ensures Index(a) != Index(b)
  {
    if a < b {
      IndexOrder(a, b);
    } else {
      IndexOrder(b, a);
    }
  }

  lemma IndexInjective(a: nat, b: nat)
    requires a <= 33 && b <= 33 && Index(a) == Index(b)
    ensures a == b
  {
    if a < b {
      IndexOrder(a, b);
    } else if b < a {
      IndexOrder(b, a);
    }
  }

  lemma BitOr(w: bv32, x: bv32, y: bv32, v: bv32)
    requires x < 32 && y < 32 && v == w | (1 << x)
    ensures Bit(v, y) == (y == x || Bit(w, y))
  {
  }

  lemma BitAndNot(w: bv32, x: bv32, y: bv32, v: bv32)
    requires x < 32 && y < 32 && v == w & !(1 << x)
    ensures Bit(v, y) == (y != x && Bit(w, y))
  {
  }

  /** The mask of the bits below `q`. */
  function Below(q: bv32): bv32
    requires q <= 32
  {
    if q == 32 then 0xFFFF_FFFF else (1 << q) - 1
  }

  lemma BelowClear(w: bv32, p: bv32, q: bv32)
    requires q < p <= 32 && w & Below(p) == 0
    ensures !Bit(w, q)
  {
  }

  /** Bit `q` is the lowest set bit: `k & -k` isolates it. */
  lemma Isolate(k: bv32, q: bv32, v: bv32)
    requires q < 32 && k & Below(q) == 0 && Bit(k, q) && v == 1 << q
    ensures k & -k == v
  {
  }

  lemma ClearOneMore(k: bv32, q: bv32, q1: bv32)
    requires q < 32 && k & Below(q) == 0 && !Bit(k, q) && q1 == q + 1
    ensures k & Below(q1) == 0
  {
  }

  /** Bit number `n` of `w`. */
  predicate BitAt(w: bv32, n: nat)
    requires n < 32
  {
    IndexBound(n);
    Bit(w, Index(n))
  }

  /** No bit of `w` below number `n` is set. */
  predicate ClearBelow(w: bv32, n: nat)
    requires n <= 32
  {
    IndexBound(n);
    w & Below(Index(n)) == 0
  }

  /** `1 << r`: the word with bit `r` alone set. */
  function Single(r: nat): bv32
    requires r < 32
  {
    IndexBound(r);
    1 << Index(r)
  }

  /** `w | (1 << r)` sets bit `r` and no other. */
  lemma SetBit(w: bv32, r: nat, n: nat)
    requires r < 32 && n < 32
    ensures BitAt(w | Single(r), n) == (n == r || BitAt(w, n))
  {
    IndexBound(r);
    IndexBound(n);
    BitOr(w, Index(r), Index(n), w | Single(r));
    if n != r {
      IndexDistinct(n, r);
    }
  }

  /** `w & !(1 << r)` clears bit `r` and no other. */
  lemma ClearBit(w: bv32, r: nat, n: nat)
    requires r < 32 && n < 32
    ensures BitAt(w & !Single(r), n) == (n != r && BitAt(w, n))
  {
    IndexBound(r);
    IndexBound(n);
    BitAndNot(w, Index(r), Index(n), w & !Single(r));
    if n != r {
      IndexDistinct(n, r);
    }
  }

  lemma ClearNext(k: bv32, n: nat)
    requires n < 32 && ClearBelow(k, n) && !BitAt(k, n)
    ensures ClearBelow(k, n + 1)
  {
    IndexBound(n);
    IndexBound(n + 1);
    ClearOneMore(k, Index(n), Index(n + 1));
  }

  lemma ClearAll(k: bv32)
    requires ClearBelow(k, 32)
    ensures k == 0
  {
    IndexTable();
  }

  lemma ClearBelowBit(k: bv32, p: nat, n: nat)
    requires n < p <= 32 && ClearBelow(k, p)
    ensures !BitAt(k, n)
  {
    IndexBound(n);
    IndexBound(p);
    IndexOrder(n, p);
    BelowClear(k, Index(p), Index(n));
  }

  lemma IsolateAt(k: bv32, p: nat)
    requires p < 32 && ClearBelow(k, p) && BitAt(k, p)
    ensures k & -k == Single(p)
  {
    IndexBound(p);
    Isolate(k, Index(p), Single(p));
  }

  /** The lowest set bit of a non-zero word, searched upwards from bit `q`. */
  function LowestFrom(k: bv32, q: nat): (p: nat)
    requires k != 0 && q < 32 && ClearBelow(k, q)
    ensures q <= p < 32 && BitAt(k, p) && ClearBelow(k, p)
    decreases 32 - q
  {
    if BitAt(k, q) then q
    else
      ClearNext(k, q);
      if q == 31 then ClearAll(k); assert false; q
      else LowestFrom(k, q + 1)
  }

  /** `self.is_free[i] as i64`: sign extension of the word. */
  function Widen(w: bv32): bv64 {
    if w & 0x8000_0000 != 0 then (w as bv64) | 0xFFFF_FFFF_0000_0000 else w as bv64
  }

  /** Isolating the lowest set bit after sign extension isolates the same bit. */
  lemma WidenIsolate(w: bv32, k: bv64)
    requires k == Widen(w)
    ensures k & -k == (w & -w) as bv64
    ensures k == 0 <==> w == 0
  {
    if w & 0x8000_0000 != 0 {
    } else {
    }
  }

  /** The words of an all-full and an all-free map. */
  lemma WordBits(n: nat)
    requires n < 32
    ensures !BitAt(0, n) && BitAt(0xFFFF_FFFF, n)
  {
    IndexBound(n);
  }

  /** A single bit `x` sits at the highest set position `y` only when `x == y`. */
  lemma Pin(x: bv32, y: bv32)
    requires x < 32 && y < 33
    requires ((1 as bv64) << (x as bv64)) >> (y as bv64) != 0
    requires ((1 as bv64) << (x as bv64)) >> ((y + 1) as bv64) == 0
    ensures x == y
  {
  }

  /** `t >> n` for a small count `n`. */
  function Shr(t: bv64, n: nat): bv64
    requires n <= 33
  {
    IndexBound(n);
    t >> (Index(n) as bv64)
  }

  /** The isolated bit `1 << p`, widened to 64 bits, has its highest set bit at `p`. */
  lemma LogOfBit(p: nat, l: nat)
    requires p < 32 && l < 33
    requires var j := Single(p) as bv64; 0 < j < 0x2_0000_0000 ==> Shr(j, l) != 0 && Shr(j, l + 1) == 0
    ensures l == p
  {
    IndexBound(p);
    IndexBound(l);
    var x := Index(p);
    assert ((1 as bv32) << x) as bv64 == (1 as bv64) << (x as bv64);
    Pin(x, Index(l));
    IndexInjective(p, l);
  }

  /**
   * What `get_first_free` reads off a non-zero word `w`: given `j = w & -w`
   * and `l = log(j)`, bit `l` is the lowest set bit of `w`.
   */
  lemma FirstInWord(w: bv32, j: bv64, l: nat)
    requires w != 0 && j == (w & -w) as bv64 && l < 33
    requires 0 < j < 0x2_0000_0000 ==> Shr(j, l) != 0 && Shr(j, l + 1) == 0
    ensures l < 32 && BitAt(w, l) && ClearBelow(w, l)
  {
    var p := LowestFrom(w, 0);
    IsolateAt(w, p);
    LogOfBit(p, l);
  }

  /**
   * Lines 56-68: binary search for the highest set bit of `t`.  Of a value
   * below 2^33 it returns that bit's index, of 0 it returns 0.
   */
  method Log(t: bv64) returns (l: nat)
    ensures l < 33 && (t == 0 ==> l == 0)
    ensures 0 < t < 0x2_0000_0000 ==> Shr(t, l) != 0 && Shr(t, l + 1) == 0
  {
    IndexTable();
    var left: nat := 0;
    var right: nat := 32 + 1;
    while left + 1 < right
      invariant left < right <= 33
      invariant t == 0 ==> left == 0
      invariant t != 0 ==> Shr(t, left) != 0
      invariant t < 0x2_0000_0000 ==> Shr(t, right) == 0
      decreases right - left
    {
      var mid := (left + right) / 2;
      if Shr(t, mid) == 0 {
        right := mid;
      } else {
        left := mid;
      }
    }
    l := left;
  }

  /** The slots `0 .. n - 1`. */
  function Slots(n: nat): (r: set<nat>)
    ensures forall p :: p in r <==> 0 <= p < n
  {
    if n == 0 then {} else Slots(n - 1) + {n - 1}
  }

  class BitMap {
    var size: nat
    var isFree: array<bv32>
    /** The slots marked free. */
    ghost var free: set<nat>

    ghost predicate Shaped()
      reads this
    {
      isFree.Length == (size + 31) / 32
    }

    /** The bit of slot `p` is set. */
    ghost predicate IsFree(p: nat)
      requires Shaped() && p < size
      reads this, isFree
    {
      BitAt(isFree[p / 32], p % 32)
    }

    ghost predicate Valid()
      reads this, isFree
    {
      Shaped() &&
      (forall p :: p in free ==> p < size) &&
      (forall p {:trigger IsFree(p)} :: 0 <= p < size ==> (p in free <==> IsFree(p)))
    }

    /** Lines 8-20: `(size + 31) / 32` words, all bits clear when full, all set otherwise. */
    constructor (size: nat, allFull: bool)
      ensures Valid() && this.size == size && fresh(isFree)
      ensures forall p :: p in free <==> !allFull && 0 <= p < size
    {
      this.size := size;
      var word: bv32 := if allFull then 0 else 0xFFFF_FFFF;
      isFree := new bv32[(size + 31) / 32](_ => word);
      free := if allFull then {} else Slots(size);
      new;
      forall p | 0 <= p < size ensures p in free <==> IsFree(p) {
        assert isFree[p / 32] == word;
        WordBits(p % 32);
      }
    }

    /**
     * Lines 22-40: the lowest-numbered free slot, found by skipping zero
     * words and isolating the lowest set bit of the first non-zero one;
     * `None` when no slot is free.
     */
    method GetFirstFree() returns (r: Option<nat>)
      requires Valid()
      ensures r.Some? ==> r.value in free && forall q :: q in free ==> r.value <= q
      ensures r.None? <==> free == {}
    {
      var i := 0;
      var j: bv64 := 0;
      while i * 32 < size
        invariant i <= isFree.Length && j == 0
        invariant forall q :: 0 <= q < size && q < i * 32 ==> !IsFree(q)
      {
        var k := Widen(isFree[i]);
        WidenIsolate(isFree[i], k);
        if k == 0 {
          forall q | 0 <= q < size && q < (i + 1) * 32 ensures !IsFree(q) {
            if q >= i * 32 {
              assert q / 32 == i;
              WordBits(q % 32);
            }
          }
          i := i + 1;
        } else {
          j := k & -k;
          break;
        }
      }
      var l := Log(j);
      if j == 0 {
        forall q | 0 <= q < size ensures q !in free {
          assert !IsFree(q);
        }
        return None;
      }
      var w := isFree[i];
      FirstInWord(w, j, l);
      var ret := i * 32 + l;
      // the slots of word i below bit l are filled
      forall q | 0 <= q < size && i * 32 <= q < ret ensures !IsFree(q) {
        assert q / 32 == i;
        ClearBelowBit(w, l, q % 32);
      }
      if ret >= size {
        forall q | 0 <= q < size ensures q !in free {
          assert !IsFree(q);
        }
        r := None;
      } else {
        assert ret / 32 == i && ret % 32 == l;
        assert IsFree(ret);
        forall q | q in free ensures ret <= q {
          assert IsFree(q);
        }
        r := Some(ret);
      }
    }

    /** Lines 42-47: set the bit of slot `position`; a position past the end panics. */
    method MarkFree(position: nat)
      requires Valid() && position < size
      modifies this, isFree
      ensures Valid() && size == old(size) && isFree == old(isFree)
      ensures free == old(free) + {position}
    {
      var div := position / 32;
      var res := position % 32;
      var w := isFree[div];
      var v := w | Single(res);
      isFree[div] := v;
      free := free + {position};
      forall q | 0 <= q < size ensures q in free <==> IsFree(q) {
        assert old(IsFree(q)) <==> q in old(free);
        if q / 32 == div {
          SetBit(w, res, q % 32);
          assert q % 32 == res <==> q == position;
        }
      }
    }

    /** Lines 49-54: clear the bit of slot `position`; a position past the end panics. */
    method MarkFilled(position: nat)
      requires Valid() && position < size
      modifies this, isFree
      ensures Valid() && size == old(size) && isFree == old(isFree)
      ensures free == old(free) - {position}
    {
      var div := position / 32;
      var res := position % 32;
      var w := isFree[div];
      var v := w & !Single(res);
      isFree[div] := v;
      free := free - {position};
      forall q | 0 <= q < size ensures q in free <==> IsFree(q) {
        assert old(IsFree(q)) <==> q in old(free);
        if q / 32 == div {
          ClearBit(w, res, q % 32);
          assert q % 32 == res <==> q == position;
        }
      }
    }
  }

  /** Lines 76-86: a full map offers no slot until one is freed, and then exactly that one. */
  method TestAllFull() returns (answers: seq<Option<nat>>)
    ensures answers == [None, None, Some(105), None]
  {
    var bitmap := new BitMap(200, true);
    var a := bitmap.GetFirstFree();
    bitmap.MarkFilled(105);
    var b := bitmap.GetFirstFree();
    bitmap.MarkFree(105);
    var c := bitmap.GetFirstFree();
    bitmap.MarkFilled(105);
    var d := bitmap.GetFirstFree();
    answers := [a, b, c, d];
  }

  /** Lines 88-98: an empty map hands out slots in order, and a freed slot comes first again. */
  method TestAllEmpty() returns (answers: seq<Option<nat>>)
    ensures answers == [Some(0), Some(1), Some(2), Some(0)]
  {
    var bitmap := new BitMap(200, false);
    assert 0 in bitmap.free;
    var a := bitmap.GetFirstFree();
    assert a == Some(0);
    bitmap.MarkFilled(0);
    assert 1 in bitmap.free && 0 !in bitmap.free;
    var b := bitmap.GetFirstFree();
    assert b == Some(1);
    bitmap.MarkFilled(1);
    assert 2 in bitmap.free && 0 !in bitmap.free && 1 !in bitmap.free;
    var c := bitmap.GetFirstFree();
    assert c == Some(2);
    bitmap.MarkFree(0);
    assert 0 in bitmap.free;
    var d := bitmap.GetFirstFree();
    answers := [a, b, c, d];
  }
}
