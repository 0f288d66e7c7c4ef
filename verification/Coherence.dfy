/** The agreement between cache and NAS that reads rely on, and what each operation does to it. */
module Coherence {
  import opened Posix
  import opened CacheHelp
  import opened PathName
  import opened CacheModel
  import M = MetaModel

  /* ---- bytes ---- */

  /** The cached copy of the block at `o` is right up to the NAS end of file; behind it the
      cache may hold anything. */
  ghost predicate BlockAgrees(nas: seq<byte>, cache: seq<byte>, o: nat, bs: nat) {
    && |cache| >= Min(o + bs, |nas|)
    && forall i :: o <= i < Min(o + bs, |nas|) ==> cache[i] == nas[i]
  }

  /** Offsets that are no multiples of the block size, left from a mount with another one, are never
      asked for. */
  ghost predicate Agree(nas: seq<byte>, cache: seq<byte>, tracked: set<nat>, bs: nat)
    requires bs > 0
  {
    forall o :: o in tracked && o % bs == 0 ==> BlockAgrees(nas, cache, o, bs)
  }

  /** Every byte of `now` outside the range stood there before. */
  ghost predicate ChangedInside(before: seq<byte>, now: seq<byte>, lo: nat, hi: nat) {
    forall i :: 0 <= i < |now| && !(lo <= i < hi) ==> i < |before| && now[i] == before[i]
  }

  /** `chunk` repeats the NAS bytes from `lower` on, as far as the NAS file goes. */
  ghost predicate Copies(nas: seq<byte>, chunk: seq<byte>, lower: nat) {
    forall k :: 0 <= k < |chunk| && lower + k < |nas| ==> chunk[k] == nas[lower + k]
  }

  /** The NAS file changed inside a window of `n` blocks at most, and the window is then
      stored in the cache as the NAS now has it: every block stays right. */
  lemma PatchAgrees(nas: seq<byte>, cache: seq<byte>, tracked: set<nat>, bs: nat, nas': seq<byte>,
                    chunk: seq<byte>, lower: nat, n: nat)
    requires bs > 0 && lower % bs == 0 && |chunk| == bs * n
    requires Agree(nas, cache, tracked, bs)
    requires ChangedInside(nas, nas', lower, lower + |chunk|)
    requires Copies(nas', chunk, lower)
    ensures Agree(nas', Pwrite(cache, chunk, lower), tracked + M.SetOf(Offsets(lower, n, bs)), bs)
  {
    var cache' := Pwrite(cache, chunk, lower);
    var window := Offsets(lower, n, bs);
    OffsetsAligned(lower, n, bs);
    forall o | o in tracked + M.SetOf(window) && o % bs == 0
      ensures BlockAgrees(nas', cache', o, bs)
    {
      if lower < o + bs && o < lower + bs * n {
        OverlapInside(o, lower, n, bs);
        WindowBlock(nas', cache, chunk, lower, o, bs);
      } else {
        OtherBlock(nas, cache, nas', chunk, lower, o, bs);
      }
    }
  }

  lemma OverlapInside(o: nat, lower: nat, n: nat, bs: nat)
    requires bs > 0 && o % bs == 0 && lower % bs == 0
    requires lower < o + bs && o < lower + bs * n
    ensures lower <= o && o + bs <= lower + bs * n
  {
    BlockStart(lower, n, bs);
    BlockGap(o, lower + bs * n, bs);
    if o < lower {
      BlockGap(o, lower, bs);
    }
  }

  lemma WindowBlock(nas: seq<byte>, cache: seq<byte>, chunk: seq<byte>, lower: nat, o: nat, bs: nat)
    requires bs > 0 && lower <= o && o + bs <= lower + |chunk|
    requires Copies(nas, chunk, lower)
    ensures BlockAgrees(nas, Pwrite(cache, chunk, lower), o, bs)
  {
    var cache' := Pwrite(cache, chunk, lower);
    forall i | o <= i < Min(o + bs, |nas|)
      ensures cache'[i] == nas[i]
    {
      assert chunk[i - lower] == nas[lower + (i - lower)];
    }
  }

  lemma OtherBlock(nas: seq<byte>, cache: seq<byte>, nas': seq<byte>, chunk: seq<byte>, lower: nat, o: nat, bs: nat)
    requires o + bs <= lower || lower + |chunk| <= o
    requires BlockAgrees(nas, cache, o, bs)
    requires ChangedInside(nas, nas', lower, lower + |chunk|)
    ensures BlockAgrees(nas', Pwrite(cache, chunk, lower), o, bs)
  {
    var cache' := Pwrite(cache, chunk, lower);
    var end := Min(o + bs, |nas'|);
    if end > 0 {
      var last := nas'[end - 1];
      assert !(lower <= end - 1 < lower + |chunk|) ==> last == nas[end - 1];
    }
    forall i | o <= i < end
      ensures i < |cache'| && cache'[i] == nas'[i]
    {
      assert i < |nas| && nas'[i] == nas[i];
    }
  }

  /** Cutting both files short keeps every block right, though none is forgotten. */
  lemma ShrinkAgrees(nas: seq<byte>, cache: seq<byte>, tracked: set<nat>, bs: nat, size: nat)
    requires bs > 0 && Agree(nas, cache, tracked, bs) && size <= |nas|
    ensures Agree(Truncate(nas, size), Truncate(cache, size), tracked, bs)
  {
    var nas', cache' := Truncate(nas, size), Truncate(cache, size);
    forall o | o in tracked && o % bs == 0
      ensures BlockAgrees(nas', cache', o, bs)
    {
      assert BlockAgrees(nas, cache, o, bs);
      forall i | o <= i < Min(o + bs, |nas'|)
        ensures cache'[i] == nas'[i]
      {
        assert i < Min(o + bs, |nas|);
      }
    }
  }

  /* ---- states ---- */

  ghost predicate Coherent(st: State, p: Path) {
    && Readable(st, p)
    && Flatten(p) in st.meta.files
    && Agree(st.nas[p].data, st.cache[Flatten(p)].data, Blocks(st, p), st.meta.blockSize)
  }

  function Blocks(st: State, p: Path): set<nat>
    requires Flatten(p) in st.meta.files
  {
    st.meta.files[Flatten(p)].blocks
  }

  /** Nothing but the one file, its cached copy, its row and its handle differs. */
  ghost predicate SameElsewhere(a: State, b: State, p: Path) {
    var name := Flatten(p);
    && a.capacity == b.capacity
    && a.meta.blockSize == b.meta.blockSize
    && a.nas - {p} == b.nas - {p}
    && a.open - {p} == b.open - {p}
    && a.cache - {name} == b.cache - {name}
    && a.meta.files - {name} == b.meta.files - {name}
    && a.fetched - {name} == b.fetched - {name}
  }

  lemma NasChange(st: State, p: Path, f: File)
    ensures SameElsewhere(st, st.(nas := st.nas[p := f]), p)
  {
    assert st.nas[p := f] - {p} == st.nas - {p};
  }

  /* ---- cfs_cacheWrite ---- */

  /** Storing `n` whole blocks: the tracked set becomes the union, and the books move by the
      blocks that were not there. */
  lemma CacheWriteEffect(st: State, p: Path, buf: seq<byte>, lower: nat, n: nat, now: nat)
    requires Readable(st, p) && Flatten(p) in st.meta.files && |buf| == st.meta.blockSize * n
    ensures var st' := CacheWrite(st, Flatten(p), buf, lower, now);
            var added := M.SetOf(Offsets(lower, n, st.meta.blockSize));
            && SameElsewhere(st, st', p)
            && st' == st.(meta := st'.meta, cache := st'.cache)
            && Blocks(st', p) == Blocks(st, p) + added
            && st'.meta.used == st.meta.used + st.meta.blockSize * |added - Blocks(st, p)|
            && st'.cache[Flatten(p)] == WriteFile(st.cache[Flatten(p)], buf, lower, now)
  {
    MultipleMod(n, st.meta.blockSize);
    M.TrackGrowth(st.meta, Flatten(p), M.SetOf(Offsets(lower, n, st.meta.blockSize)));
  }

  /* ---- cfs_write ---- */

  /** The window sized from the request covers everything the write changes below the new NAS
      end of file: its bytes, and the hole in front of them when it starts past the old end. */
  predicate WriteCovers(nasSize: nat, offset: nat, size: nat, bs: nat)
    requires bs > 0
  {
    size == 0 || (WindowFits(offset, size, bs) && AlignLower(offset, bs) <= nasSize)
  }

  /** Write-through, whatever the cache does: the NAS gets exactly the spliced bytes.  The call
      returns exactly when the cache is not full, and then the whole window is tracked. */
  lemma WriteEffect(st: State, p: Path, data: seq<byte>, offset: nat, junk: seq<byte>, nasTime: nat, cacheTime: nat)
    requires Valid(st) && p in st.open
    requires |junk| == AlignedSize(|data|, st.meta.blockSize)
    ensures var bs := st.meta.blockSize;
            var r := Write(st, p, data, offset, junk, nasTime, cacheTime);
            && r.st.nas == st.nas[p := WriteFile(st.nas[p], data, offset, nasTime)]
            && SameElsewhere(st, r.st, p)
            && r.st.open == st.open && r.st.fetched == st.fetched
            && (r.Returns? <==> st.meta.used < st.capacity * 1024)
            && (r.Spins? ==> r.st.meta == st.meta && r.st.cache == st.cache)
            && (r.Returns? ==>
                  var window := M.SetOf(Offsets(AlignLower(offset, bs), |junk| / bs, bs));
                  && r.ret == |data|
                  && Blocks(r.st, p) == Blocks(st, p) + window
                  && r.st.meta.used == st.meta.used + bs * |window - Blocks(st, p)|)
  {
    var bs := st.meta.blockSize;
    var lower, aligned := AlignLower(offset, bs), AlignedSize(|data|, bs);
    var st1 := st.(nas := st.nas[p := WriteFile(st.nas[p], data, offset, nasTime)]);
    NasChange(st, p, st1.nas[p]);
    if !Full(st1) {
      var nas := st1.nas[p].data;
      ReadBackFits(st.nas[p].data, data, offset, bs);
      var buf := Overlay(junk, Pread(nas, NasReadSize(aligned, lower, |nas|), lower), 0);
      CacheWriteEffect(st1, p, buf, lower, aligned / bs, cacheTime);
      assert Write(st, p, data, offset, junk, nasTime, cacheTime)
          == Returns(CacheWrite(st1, Flatten(p), buf, lower, cacheTime), [], |data|);
    }
  }

  /** What the write stores in the cache. */
  lemma WriteStores(st: State, p: Path, data: seq<byte>, offset: nat, junk: seq<byte>, nasTime: nat, cacheTime: nat)
      returns (chunk: seq<byte>)
    requires Valid(st) && p in st.open
    requires |junk| == AlignedSize(|data|, st.meta.blockSize)
    requires Write(st, p, data, offset, junk, nasTime, cacheTime).Returns?
    ensures var r := Write(st, p, data, offset, junk, nasTime, cacheTime);
            var lower := AlignLower(offset, st.meta.blockSize);
            && |chunk| == |junk|
            && r.st.cache[Flatten(p)] == WriteFile(st.cache[Flatten(p)], chunk, lower, cacheTime)
            && Copies(r.st.nas[p].data, chunk, lower)
  {
    hide Flatten, M.SetOf, Pread, Overlay, Copies;
    var bs := st.meta.blockSize;
    var lower, aligned := AlignLower(offset, bs), AlignedSize(|data|, bs);
    var nas := Pwrite(st.nas[p].data, data, offset);
    ReadBackFits(st.nas[p].data, data, offset, bs);
    var got := Pread(nas, NasReadSize(aligned, lower, |nas|), lower);
    chunk := Overlay(junk, got, 0);
    WindowReadBack(nas, junk, NasReadSize(aligned, lower, |nas|), lower);
  }

  /** A window read back over whatever the buffer held, as far as the file goes. */
  lemma WindowReadBack(nas: seq<byte>, junk: seq<byte>, n: nat, lower: nat)
    requires |Pread(nas, n, lower)| <= |junk| && (junk == [] || n == Min(|junk|, |nas| - lower))
    ensures Copies(nas, Overlay(junk, Pread(nas, n, lower), 0), lower)
  {
  }

  lemma WriteKeepsCoherence(st: State, p: Path, data: seq<byte>, offset: nat, junk: seq<byte>, nasTime: nat,
                            cacheTime: nat)
    requires Valid(st) && p in st.open && Coherent(st, p)
    requires |junk| == AlignedSize(|data|, st.meta.blockSize)
    requires WriteCovers(|st.nas[p].data|, offset, |data|, st.meta.blockSize)
    requires Write(st, p, data, offset, junk, nasTime, cacheTime).Returns?
    ensures Coherent(Write(st, p, data, offset, junk, nasTime, cacheTime).st, p)
  {
    var bs := st.meta.blockSize;
    var lower, r := AlignLower(offset, bs), Write(st, p, data, offset, junk, nasTime, cacheTime);
    WriteEffect(st, p, data, offset, junk, nasTime, cacheTime);
    var chunk := WriteStores(st, p, data, offset, junk, nasTime, cacheTime);
    var nas, nas' := st.nas[p].data, r.st.nas[p].data;
    assert ChangedInside(nas, nas', lower, lower + |chunk|);
    PatchAgrees(nas, st.cache[Flatten(p)].data, Blocks(st, p), bs, nas', chunk, lower, |junk| / bs);
  }

  /* ---- cfs_ftruncate ---- */

  lemma ShrinkKeepsCoherence(st: State, p: Path, size: nat, cacheTime: nat, nasTime: nat)
    requires Valid(st) && p in st.open && Coherent(st, p)
    requires size <= |st.nas[p].data|
    ensures Coherent(Ftruncate(st, p, size, cacheTime, nasTime), p)
  {
    ShrinkAgrees(st.nas[p].data, st.cache[Flatten(p)].data, Blocks(st, p), st.meta.blockSize, size);
  }

  /* ---- a mount with another block size ---- */

  /** The blocks of the new size that the table will call hits lie in tracked blocks of the old one. */
  predicate Regrouped(tracked: set<nat>, bs: nat, bs': nat)
    requires bs > 0 && bs' > 0
  {
    forall o, x :: o in tracked && o % bs' == 0 && o <= x < o + bs' ==> AlignLower(x, bs) in tracked
  }

  lemma RegroupAgrees(nas: seq<byte>, cache: seq<byte>, tracked: set<nat>, bs: nat, bs': nat)
    requires bs > 0 && bs' > 0 && Agree(nas, cache, tracked, bs) && Regrouped(tracked, bs, bs')
    ensures Agree(nas, cache, tracked, bs')
  {
    forall o | o in tracked && o % bs' == 0
      ensures BlockAgrees(nas, cache, o, bs')
    {
      var end := Min(o + bs', |nas|);
      forall x | o <= x < end
        ensures x < |cache| && cache[x] == nas[x]
      {
        assert BlockAgrees(nas, cache, AlignLower(x, bs), bs);
      }
      var last := Max(o, end - 1);
      assert BlockAgrees(nas, cache, AlignLower(last, bs), bs);
    }
  }
}
