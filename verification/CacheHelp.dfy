/** cacheHelp.c and the window arithmetic that cfs_read and cfs_write build on it.
    A contract here pins its result down: there is exactly one multiple of the
    block size in each of the half-open ranges named. */
module CacheHelp {

  /** alignLowerOffset: the start of the block holding `offset`. */
  function AlignLower(offset: nat, bs: nat): (r: nat)
    requires bs > 0
    ensures r % bs == 0 && r <= offset < r + bs
  {
    assert offset - offset % bs == bs * (offset / bs);
    MultipleMod(offset / bs, bs);
    offset - offset % bs
  }

  /** The window length: `size` rounded up to whole blocks. */
  function AlignedSize(size: nat, bs: nat): (r: nat)
    requires bs > 0
    ensures r % bs == 0 && size <= r < size + bs
    ensures r == bs * (r / bs)
  {
    MultipleMod(size / bs, bs);
    MultipleMod(size / bs + 1, bs);
    assert size == bs * (size / bs) + size % bs;
    var whole := bs * (size / bs);
    if size % bs != 0 then whole + bs else whole
  }

  /** The offsets of `n` consecutive blocks from `lower` on. */
  function Offsets(lower: nat, n: nat, bs: nat): (r: seq<nat>)
    ensures |r| == n
    ensures forall i :: 0 <= i < n ==> r[i] == lower + bs * i
  {
    seq(n, i => lower + bs * i)
  }

  /** The request lies inside the window the code sizes from `size` alone. */
  predicate WindowFits(offset: nat, size: nat, bs: nat)
    requires bs > 0
  {
    offset % bs + size <= AlignedSize(size, bs)
  }

  lemma OffsetInBlock(offset: nat, bs: nat)
    requires bs > 0
    ensures offset - AlignLower(offset, bs) == offset % bs
    ensures offset % bs == 0 <==> AlignLower(offset, bs) == offset
  {
  }

  lemma WholeBlocks(size: nat, bs: nat)
    requires bs > 0
    ensures AlignedSize(size, bs) == size <==> size % bs == 0
  {
  }

  lemma MulMonotone(bs: nat, a: int, b: int)
    ensures a <= b ==> bs * a <= bs * b
  {
    if a <= b {
      assert 0 <= bs * (b - a);
    }
  }

  lemma MultipleMod(k: nat, bs: nat)
    requires bs > 0
    ensures (bs * k) % bs == 0
    ensures (bs * k) / bs == k
  {
    DivUnique(bs * k, bs, k, 0);
  }

  lemma DivUnique(a: int, bs: int, q: int, r: int)
    requires bs > 0 && a == bs * q + r && 0 <= r < bs
    ensures a / bs == q && a % bs == r
  {
    var d := a / bs - q;
    assert a == bs * (a / bs) + a % bs;
    assert bs * d == r - a % bs;
    MulMonotone(bs, 1, d);
    MulMonotone(bs, d, -1);
  }

  /** Two block starts are equal or a whole block apart. */
  lemma BlockGap(a: nat, b: nat, bs: nat)
    requires bs > 0 && a % bs == 0 && b % bs == 0
    requires a < b
    ensures a + bs <= b
  {
    var d := b / bs - a / bs;
    assert a == bs * (a / bs) && b == bs * (b / bs);
    assert bs * d == b - a;
    MulMonotone(bs, d, 0);
    MulMonotone(bs, 1, d);
  }

  /** Two block starts within a block of the same byte are one. */
  lemma SameBlock(a: nat, b: nat, x: nat, bs: nat)
    requires bs > 0 && a % bs == 0 && b % bs == 0
    requires a <= x < a + bs && b <= x < b + bs
    ensures a == b
  {
    if a < b {
      BlockGap(a, b, bs);
    } else if b < a {
      BlockGap(b, a, bs);
    }
  }

  lemma BlockStart(lower: nat, i: nat, bs: nat)
    requires bs > 0 && lower % bs == 0
    ensures (lower + bs * i) % bs == 0
  {
    assert lower + bs * i == bs * (lower / bs + i);
    MultipleMod(lower / bs + i, bs);
  }

  /** A block start within the window is one of its offsets. */
  lemma WindowIndex(o: nat, lower: nat, n: nat, bs: nat)
    requires bs > 0 && o % bs == 0 && lower % bs == 0
    requires lower <= o < lower + bs * n
    ensures var i := (o - lower) / bs; 0 <= i < n && o == lower + bs * i
  {
    var i := o / bs - lower / bs;
    assert o == bs * (o / bs) && lower == bs * (lower / bs);
    assert o - lower == bs * i;
    MulMonotone(bs, i, -1);
    MulMonotone(bs, n, i);
    MultipleMod(i, bs);
  }

  lemma OffsetAt(lower: nat, n: nat, bs: nat, i: nat)
    requires bs > 0 && lower % bs == 0 && i < n
    ensures var o := Offsets(lower, n, bs)[i]; o % bs == 0 && lower <= o && o + bs <= lower + bs * n
  {
    BlockStart(lower, i, bs);
    MulMonotone(bs, 0, i);
    MulMonotone(bs, i + 1, n);
    assert bs * (i + 1) == bs * i + bs;
  }

  lemma OffsetsAligned(lower: nat, n: nat, bs: nat)
    requires bs > 0 && lower % bs == 0
    ensures forall o :: o in Offsets(lower, n, bs) ==> o % bs == 0 && lower <= o && o + bs <= lower + bs * n
  {
    forall i | 0 <= i < n
      ensures var o := Offsets(lower, n, bs)[i]; o % bs == 0 && lower <= o && o + bs <= lower + bs * n
    {
      OffsetAt(lower, n, bs, i);
    }
  }

  lemma OffsetsDistinct(lower: nat, n: nat, bs: nat)
    requires bs > 0
    ensures forall i, j :: 0 <= i < j < n ==> Offsets(lower, n, bs)[i] != Offsets(lower, n, bs)[j]
  {
    forall i, j | 0 <= i < j < n
      ensures lower + bs * i != lower + bs * j
    {
      assert bs * (j - i) > 0;
    }
  }

  /** Block-aligned requests always fit, and those of whole blocks fit only when aligned. */
  lemma WindowFitsAligned(offset: nat, size: nat, bs: nat)
    requires bs > 0
    ensures offset % bs == 0 ==> WindowFits(offset, size, bs)
    ensures size % bs == 0 ==> (WindowFits(offset, size, bs) <==> offset % bs == 0)
  {
    if size % bs == 0 {
      assert AlignedSize(size, bs) == size;
    }
  }
}
