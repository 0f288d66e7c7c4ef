/** What cfs_read returns: the bytes each pread of a block got, added up. */
module ReadCounts {
  import opened Posix
  import opened CacheHelp
  import opened PathName
  import opened CacheModel
  import opened Coherence
  import opened ReadProofs
  import M = MetaModel

  /** How many bytes of the `n` from `o` on a file of the given length has. */
  function Reach(length: nat, o: nat, n: nat): nat { Max(0, Min(n, length - o)) }

  /** Hits are read from the cached file, misses from the NAS file. */
  function Counted(nas: nat, cache: nat, o: nat, hits: seq<bool>, bs: nat): nat
    decreases |hits|
  {
    if hits == [] then 0
    else Reach(if hits[0] then cache else nas, o, bs) + Counted(nas, cache, o + bs, hits[1..], bs)
  }

  /** The cached file may have grown since the loop began, but not beyond the block at `o`. */
  predicate SameAhead(was: nat, length: nat, o: nat) {
    length == was || was <= length <= o
  }

  lemma StoreGrows(st: State, p: Path, chunk: seq<byte>, o: nat, now: nat, was: nat)
    requires Readable(st, p) && |chunk| == st.meta.blockSize
    requires SameAhead(was, |st.cache[Flatten(p)].data|, o)
    ensures var st' := Store(st, p, chunk, o, now);
            && st'.nas == st.nas
            && SameAhead(was, |st'.cache[Flatten(p)].data|, o + |chunk|)
  {
    hide Flatten;
  }

  lemma BlockReach(st: State, p: Path, o: nat, hit: bool, was: nat)
    requires Readable(st, p) && SameAhead(was, |st.cache[Flatten(p)].data|, o)
    ensures var bs := st.meta.blockSize;
            |Pread(Source(st, p, hit), bs, o)| == Reach(if hit then was else |st.nas[p].data|, o, bs)
  {
  }

  lemma ReachAdds(length: nat, o: nat, n: nat, m: nat)
    ensures Reach(length, o, n + m) == Reach(length, o, n) + Reach(length, o + n, m)
  {
  }

  lemma {:induction false} FillCounts(st: State, p: Path, o: nat, hits: seq<bool>, done: seq<byte>, rest: seq<byte>,
                                      ret: nat, now: nat, was: nat, f: Outcome)
    requires Readable(st, p) && |rest| == Span(|hits|, st.meta.blockSize)
    requires SameAhead(was, |st.cache[Flatten(p)].data|, o)
    requires f == Fill(st, p, o, hits, done, rest, ret, now)
    ensures f.Returns? ==> f.ret == ret + Counted(|st.nas[p].data|, was, o, hits, st.meta.blockSize)
    decreases |hits|
  {
    hide Flatten, Overlay, Store, Pread, Source, Full, Reach;
    var bs := st.meta.blockSize;
    if hits != [] && (hits[0] || !Full(st)) {
      var chunk, n := FillStep(st, p, o, hits, done, rest, ret, now);
      BlockReach(st, p, o, hits[0], was);
      if hits[0] {
        FillCounts(st, p, o + bs, hits[1..], done + chunk, rest[bs..], ret + n, now, was, f);
      } else {
        StoreGrows(st, p, chunk, o, now, was);
        FillCounts(Store(st, p, chunk, o, now), p, o + bs, hits[1..], done + chunk, rest[bs..], ret + n, now, was, f);
      }
    }
  }

  lemma {:induction false} AllHitsCount(nas: nat, cache: nat, o: nat, hits: seq<bool>, bs: nat)
    requires forall i :: 0 <= i < |hits| ==> hits[i]
    ensures Counted(nas, cache, o, hits, bs) == Reach(cache, o, Span(|hits|, bs))
    decreases |hits|
  {
    if hits != [] {
      AllHitsCount(nas, cache, o + bs, hits[1..], bs);
    }
  }

  /** The return value, for every window and every mixture of hits and misses. */
  lemma ReadReturnsCount(st: State, p: Path, size: nat, offset: nat, junk: seq<byte>, behind: seq<byte>, now: nat)
    requires Readied(st, p, size, offset, junk, behind)
    ensures var bs, lower := st.meta.blockSize, AlignLower(offset, st.meta.blockSize);
            var hits := M.Hits(st.meta, Flatten(p), Offsets(lower, |junk| / bs, bs));
            var r := Read(st, p, size, offset, junk, behind, now);
            r.Returns? ==> r.ret == Counted(|st.nas[p].data|, |st.cache[Flatten(p)].data|, lower, hits, bs)
  {
    hide Flatten, Fill, Counted;
    var bs, lower := st.meta.blockSize, AlignLower(offset, st.meta.blockSize);
    var hits := M.Hits(st.meta, Flatten(p), Offsets(lower, |junk| / bs, bs));
    var nas, cache := |st.nas[p].data|, |st.cache[Flatten(p)].data|;
    SpanIs(|junk| / bs, bs);
    if forall i :: 0 <= i < |hits| ==> hits[i] {
      AllHitsCount(nas, cache, lower, hits, bs);
    } else {
      FillCounts(st, p, lower, hits, [], junk, 0, now, cache, Fill(st, p, lower, hits, [], junk, 0, now));
    }
  }

  /* ---- against the plain read of the window ---- */

  /** The block is counted as the NAS file has it, though it may be read from the cache. */
  predicate CountsRight(nas: nat, cache: nat, o: nat, bs: nat) {
    o + bs <= nas || cache <= nas || cache <= o
  }

  predicate AllCountRight(nas: nat, cache: nat, blocks: set<nat>, window: set<nat>, bs: nat) {
    forall x :: x in blocks && x in window ==> CountsRight(nas, cache, x, bs)
  }

  lemma OneMoreCountsRight(nas: nat, cache: nat, blocks: set<nat>, o: nat, window: set<nat>, bs: nat)
    ensures AllCountRight(nas, cache, blocks, {o} + window, bs) <==>
            (o in blocks ==> CountsRight(nas, cache, o, bs)) && AllCountRight(nas, cache, blocks, window, bs)
  {
    if AllCountRight(nas, cache, blocks, {o} + window, bs) {
      assert forall x :: x in window ==> x in {o} + window;
      assert o in {o} + window;
    }
  }

  lemma BlockCounts(nas: nat, cache: nat, o: nat, bs: nat)
    requires bs > 0
    ensures cache >= Min(o + bs, nas) ==>
              && Reach(cache, o, bs) >= Reach(nas, o, bs)
              && (Reach(cache, o, bs) == Reach(nas, o, bs) <==> CountsRight(nas, cache, o, bs))
  {
  }

  lemma NothingToCount(nas: nat, cache: nat, blocks: set<nat>, o: nat, bs: nat)
    ensures Reach(nas, o, 0) == 0
    ensures AllCountRight(nas, cache, blocks, M.SetOf(Offsets(o, 0, bs)), bs)
  {
  }

  lemma {:induction false} CountedAgainstPlain(nas: nat, cache: nat, blocks: set<nat>, o: nat, hits: seq<bool>, bs: nat)
    requires bs > 0 && o % bs == 0 && BitmapRight(blocks, o, hits, bs)
    requires forall x :: x in blocks && x % bs == 0 ==> cache >= Min(x + bs, nas)
    ensures var window := M.SetOf(Offsets(o, |hits|, bs));
            var counted, plain := Counted(nas, cache, o, hits, bs), Reach(nas, o, Span(|hits|, bs));
            && counted >= plain
            && (counted == plain <==> AllCountRight(nas, cache, blocks, window, bs))
    decreases |hits|
  {
    hide M.SetOf, AllCountRight, CountsRight, Reach;
    if hits == [] {
      NothingToCount(nas, cache, blocks, o, bs);
    } else {
      BlockCounts(nas, cache, o, bs);
      ReachAdds(nas, o, bs, Span(|hits| - 1, bs));
      BlockStart(o, 1, bs);
      CountedAgainstPlain(nas, cache, blocks, o + bs, hits[1..], bs);
      OffsetsFirst(o, |hits|, bs);
      OneMoreCountsRight(nas, cache, blocks, o, M.SetOf(Offsets(o + bs, |hits| - 1, bs)), bs);
    }
  }

  /** A call returns at least what a plain read of the window returns, and exactly that if and only
      if no tracked block of the window reaches behind the end of the NAS file with the cached file
      reaching into that part of it. */
  lemma PlainCountExactly(st: State, p: Path, size: nat, offset: nat, junk: seq<byte>, behind: seq<byte>, now: nat)
    requires Readied(st, p, size, offset, junk, behind) && Coherent(st, p)
    ensures var bs, lower := st.meta.blockSize, AlignLower(offset, st.meta.blockSize);
            var nas, cache := st.nas[p].data, st.cache[Flatten(p)].data;
            var window := M.SetOf(Offsets(lower, |junk| / bs, bs));
            var r, plain := Read(st, p, size, offset, junk, behind, now), |Pread(nas, |junk|, lower)|;
            r.Returns? ==>
              && r.ret >= plain
              && (r.ret == plain <==> AllCountRight(|nas|, |cache|, Blocks(st, p), window, bs))
  {
    hide Flatten, Read, Counted, M.SetOf;
    var bs, lower := st.meta.blockSize, AlignLower(offset, st.meta.blockSize);
    var n := |junk| / bs;
    SpanIs(n, bs);
    BitmapMadeRight(st.meta, Flatten(p), lower, n);
    ReadReturnsCount(st, p, size, offset, junk, behind, now);
    var hits := M.Hits(st.meta, Flatten(p), Offsets(lower, n, bs));
    CountedAgainstPlain(|st.nas[p].data|, |st.cache[Flatten(p)].data|, Blocks(st, p), lower, hits, bs);
  }

  /* ---- against the size asked for ---- */

  /** When the file's part of the window is as long as the request. */
  lemma WindowCount(offset: nat, size: nat, bs: nat, nas: nat)
    requires bs > 0 && offset + size <= nas
    ensures var plain := Min(AlignedSize(size, bs), nas - AlignLower(offset, bs));
            && plain >= size
            && (plain == size <==> size % bs == 0 || (offset % bs == 0 && offset + size == nas))
  {
    hide AlignedSize;
    WholeBlocks(size, bs);
    OffsetInBlock(offset, bs);
  }

  /** In a window of whole blocks inside the file every block counts as it should. */
  lemma InsideCountsRight(nas: nat, cache: nat, blocks: set<nat>, lower: nat, n: nat, bs: nat)
    requires bs > 0 && lower % bs == 0 && lower + bs * n <= nas
    ensures AllCountRight(nas, cache, blocks, M.SetOf(Offsets(lower, n, bs)), bs)
  {
    OffsetsAligned(lower, n, bs);
  }

  /** In a window whose last block holds the end of the file only that block can go wrong. */
  lemma LastBlockCounts(nas: nat, cache: nat, blocks: set<nat>, lower: nat, n: nat, bs: nat)
    requires bs > 0 && lower % bs == 0 && lower <= nas < lower + bs * n && lower + bs * n < nas + bs
    ensures AllCountRight(nas, cache, blocks, M.SetOf(Offsets(lower, n, bs)), bs) <==>
            AlignLower(nas, bs) !in blocks || cache <= nas
  {
    var window, last := Offsets(lower, n, bs), AlignLower(nas, bs);
    OffsetsAligned(lower, n, bs);
    if last < lower {
      BlockGap(last, lower, bs);
    }
    WindowIndex(last, lower, n, bs);
    assert last == window[(last - lower) / bs];
    assert last in M.SetOf(window);
    forall x | x in M.SetOf(window) && x + bs > nas
      ensures x == last
    {
      SameBlock(x, last, nas, bs);
    }
  }

  /** For a request inside the file the call, if it comes back, returns `size` if and only if that is
      whole blocks, or the request starts at a block and ends with the file, whose last block is not
      tracked, or is but the cached file ends there too. */
  lemma FullCountExactly(st: State, p: Path, size: nat, offset: nat, junk: seq<byte>, behind: seq<byte>, now: nat)
    requires Readied(st, p, size, offset, junk, behind) && Coherent(st, p)
    requires offset + size <= |st.nas[p].data|
    ensures var bs, nas, cache := st.meta.blockSize, |st.nas[p].data|, |st.cache[Flatten(p)].data|;
            var r := Read(st, p, size, offset, junk, behind, now);
            r.Returns? ==>
              (r.ret == size <==>
               || size % bs == 0
               || (offset % bs == 0 && offset + size == nas && (AlignLower(nas, bs) !in Blocks(st, p) || cache <= nas)))
  {
    hide Flatten, Read, AllCountRight, AlignedSize, AlignLower, M.SetOf;
    var bs, nas, cache := st.meta.blockSize, |st.nas[p].data|, |st.cache[Flatten(p)].data|;
    PlainCountExactly(st, p, size, offset, junk, behind, now);
    WindowCount(offset, size, bs, nas);
    OffsetInBlock(offset, bs);
    WholeBlocks(size, bs);
    if size % bs == 0 {
      InsideCountsRight(nas, cache, Blocks(st, p), AlignLower(offset, bs), |junk| / bs, bs);
    } else if offset % bs == 0 && offset + size == nas {
      LastBlockCounts(nas, cache, Blocks(st, p), offset, |junk| / bs, bs);
    }
  }
}
