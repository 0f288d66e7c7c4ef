/** Every byte a read hands back, above the end of the file as well as below it. */
module ReadBytes {
  import opened Posix
  import opened CacheHelp
  import opened PathName
  import opened CacheModel
  import opened Coherence
  import opened ReadProofs
  import opened ReadCounts
  import M = MetaModel

  /** The byte the window gets for place `x` of the file: from the cached file if its block is tracked,
      else from the NAS file, and what the buffer held where that file has ended. */
  function ByteAt(nas: seq<byte>, cache: seq<byte>, blocks: set<nat>, junk: byte, x: nat, bs: nat): byte
    requires bs > 0
  {
    var source := if AlignLower(x, bs) in blocks then cache else nas;
    if x < |source| then source[x] else junk
  }

  /** The cached file is as it was from `o` on, or ends before. */
  ghost predicate BytesAhead(was: seq<byte>, cache: seq<byte>, o: nat) {
    && (|cache| == |was| || |was| <= |cache| <= o)
    && forall x :: o <= x < |was| ==> cache[x] == was[x]
  }

  lemma StoreAhead(st: State, p: Path, chunk: seq<byte>, o: nat, now: nat, was: seq<byte>)
    requires Readable(st, p) && |chunk| == st.meta.blockSize
    requires BytesAhead(was, st.cache[Flatten(p)].data, o)
    ensures var st' := Store(st, p, chunk, o, now);
            st'.nas == st.nas && BytesAhead(was, st'.cache[Flatten(p)].data, o + |chunk|)
  {
    hide Flatten;
  }

  /** One block of the window. */
  lemma BlockBytes(st: State, p: Path, o: nat, hit: bool, junk: seq<byte>, was: seq<byte>, blocks: set<nat>, k: nat)
    requires Readable(st, p) && |junk| == st.meta.blockSize && o % st.meta.blockSize == 0 && k < |junk|
    requires BytesAhead(was, st.cache[Flatten(p)].data, o) && (hit <==> o in blocks)
    ensures Overlay(junk, Pread(Source(st, p, hit), |junk|, o), 0)[k]
         == ByteAt(st.nas[p].data, was, blocks, junk[k], o + k, |junk|)
  {
    hide Flatten;
    SameBlock(AlignLower(o + k, |junk|), o, o + k, |junk|);
  }

  ghost predicate Holds(buf: seq<byte>, at: nat, nas: seq<byte>, cache: seq<byte>, blocks: set<nat>,
                        junk: seq<byte>, o: nat, bs: nat)
    requires bs > 0
  {
    && |buf| == at + |junk|
    && forall k :: 0 <= k < |junk| ==> buf[at + k] == ByteAt(nas, cache, blocks, junk[k], o + k, bs)
  }

  lemma {:induction false} FillBytes(st: State, p: Path, o: nat, hits: seq<bool>, done: seq<byte>, rest: seq<byte>,
                                     ret: nat, now: nat, was: seq<byte>, blocks: set<nat>, f: Outcome)
    requires Readable(st, p) && |rest| == Span(|hits|, st.meta.blockSize) && o % st.meta.blockSize == 0
    requires BitmapRight(blocks, o, hits, st.meta.blockSize) && BytesAhead(was, st.cache[Flatten(p)].data, o)
    requires f == Fill(st, p, o, hits, done, rest, ret, now)
    ensures f.Returns? ==>
              done <= f.buf && Holds(f.buf, |done|, st.nas[p].data, was, blocks, rest, o, st.meta.blockSize)
    decreases |hits|
  {
    hide Flatten, Overlay, Store, Pread, Source, Full, ByteAt, BytesAhead, Fill;
    var bs := st.meta.blockSize;
    if hits == [] {
      FillsNothing(st, p, o, done, rest, ret, now);
    } else if !hits[0] && Full(st) {
      FillSpins(st, p, o, hits, done, rest, ret, now);
    } else {
      var chunk, n := FillStep(st, p, o, hits, done, rest, ret, now);
      BlockStart(o, 1, bs);
      var st1 := if hits[0] then st else Store(st, p, chunk, o, now);
      if hits[0] {
        AheadLater(was, st.cache[Flatten(p)].data, o, o + bs);
      } else {
        StoreAhead(st, p, chunk, o, now, was);
      }
      FillBytes(st1, p, o + bs, hits[1..], done + chunk, rest[bs..], ret + n, now, was, blocks, f);
      if f.Returns? {
        forall k | 0 <= k < bs
          ensures chunk[k] == ByteAt(st.nas[p].data, was, blocks, rest[k], o + k, bs)
        {
          BlockBytes(st, p, o, hits[0], rest[..bs], was, blocks, k);
        }
        OneMoreBlock(f.buf, done, chunk, st.nas[p].data, was, blocks, rest, o, bs);
      }
    }
  }

  lemma FillsNothing(st: State, p: Path, o: nat, done: seq<byte>, rest: seq<byte>, ret: nat, now: nat)
    requires Readable(st, p) && rest == []
    ensures Fill(st, p, o, [], done, rest, ret, now) == Returns(st, done, ret)
  {
  }

  lemma FillSpins(st: State, p: Path, o: nat, hits: seq<bool>, done: seq<byte>, rest: seq<byte>, ret: nat, now: nat)
    requires Readable(st, p) && |rest| == Span(|hits|, st.meta.blockSize) && hits != [] && !hits[0] && Full(st)
    ensures Fill(st, p, o, hits, done, rest, ret, now) == Spins(st)
  {
  }

  lemma AheadLater(was: seq<byte>, cache: seq<byte>, o: nat, later: nat)
    requires BytesAhead(was, cache, o) && o <= later
    ensures BytesAhead(was, cache, later)
  {
  }

  lemma OneMoreBlock(buf: seq<byte>, done: seq<byte>, chunk: seq<byte>, nas: seq<byte>, was: seq<byte>,
                     blocks: set<nat>, rest: seq<byte>, o: nat, bs: nat)
    requires bs > 0 && |chunk| == bs <= |rest| && done + chunk <= buf
    requires forall k :: 0 <= k < bs ==> chunk[k] == ByteAt(nas, was, blocks, rest[k], o + k, bs)
    requires Holds(buf, |done + chunk|, nas, was, blocks, rest[bs..], o + bs, bs)
    ensures done <= buf && Holds(buf, |done|, nas, was, blocks, rest, o, bs)
  {
    hide ByteAt;
    forall k | 0 <= k < |rest|
      ensures buf[|done| + k] == ByteAt(nas, was, blocks, rest[k], o + k, bs)
    {
      if k < bs {
        assert buf[|done| + k] == (done + chunk)[|done| + k] == chunk[k];
      } else {
        assert buf[|done + chunk| + (k - bs)] == ByteAt(nas, was, blocks, rest[bs..][k - bs], o + bs + (k - bs), bs);
      }
    }
  }

  /** The window when every block of it is tracked. */
  lemma HitBytes(nas: seq<byte>, cache: seq<byte>, blocks: set<nat>, junk: seq<byte>, lower: nat, n: nat, bs: nat)
    requires bs > 0 && lower % bs == 0 && |junk| == bs * n && M.SetOf(Offsets(lower, n, bs)) <= blocks
    ensures Holds(Overlay(junk, Pread(cache, |junk|, lower), 0), 0, nas, cache, blocks, junk, lower, bs)
  {
    hide AlignLower, Overlay, Pread, M.SetOf, Offsets, ByteAt;
    var buf := Overlay(junk, Pread(cache, |junk|, lower), 0);
    forall k | 0 <= k < |junk|
      ensures buf[0 + k] == ByteAt(nas, cache, blocks, junk[k], lower + k, bs)
    {
      InWindow(lower + k, lower, n, bs);
      HitByte(nas, cache, blocks, junk, lower, k, bs);
    }
  }

  lemma HitByte(nas: seq<byte>, cache: seq<byte>, blocks: set<nat>, junk: seq<byte>, lower: nat, k: nat, bs: nat)
    requires bs > 0 && k < |junk| && AlignLower(lower + k, bs) in blocks
    ensures Overlay(junk, Pread(cache, |junk|, lower), 0)[k] == ByteAt(nas, cache, blocks, junk[k], lower + k, bs)
  {
  }

  lemma InWindow(x: nat, lower: nat, n: nat, bs: nat)
    requires bs > 0 && lower % bs == 0 && lower <= x < lower + bs * n
    ensures AlignLower(x, bs) in M.SetOf(Offsets(lower, n, bs))
  {
    var o := AlignLower(x, bs);
    if o < lower {
      BlockGap(o, lower, bs);
    }
    WindowIndex(o, lower, n, bs);
    assert Offsets(lower, n, bs)[(o - lower) / bs] == o;
  }

  /** Every byte handed back by any read that returns: of a tracked block the cached file's, of any other
      the NAS file's, of none of them what the buffer held, and behind the buffer what memory holds. */
  lemma ReadBytesExactly(st: State, p: Path, size: nat, offset: nat, junk: seq<byte>, behind: seq<byte>, now: nat,
                         k: nat)
    requires Readied(st, p, size, offset, junk, behind) && k < size
    ensures var bs := st.meta.blockSize;
            var i := offset % bs + k;
            var r := Read(st, p, size, offset, junk, behind, now);
            r.Returns? ==>
              r.buf[k] == if i < |junk|
                          then ByteAt(st.nas[p].data, st.cache[Flatten(p)].data, Blocks(st, p), junk[i], offset + k, bs)
                          else behind[i - |junk|]
  {
    hide Flatten, Fill, ByteAt, Overlay, Pread;
    var bs, lower := st.meta.blockSize, AlignLower(offset, st.meta.blockSize);
    var n := |junk| / bs;
    var hits := M.Hits(st.meta, Flatten(p), Offsets(lower, n, bs));
    SpanIs(n, bs);
    OffsetInBlock(offset, bs);
    var nas, cache := st.nas[p].data, st.cache[Flatten(p)].data;
    var f := FillWindow(st, p, lower, hits, junk, now);
    if f.Returns? {
      if forall i :: 0 <= i < |hits| ==> hits[i] {
        AllHitsTracked(st, p, lower, n);
        HitBytes(nas, cache, Blocks(st, p), junk, lower, n, bs);
      } else {
        BitmapMadeRight(st.meta, Flatten(p), lower, n);
        FillBytes(st, p, lower, hits, [], junk, 0, now, cache, Blocks(st, p), f);
      }
      assert Holds(f.buf, 0, nas, cache, Blocks(st, p), junk, lower, bs);
      var i := offset - lower + k;
      if i < |junk| {
        assert f.buf[0 + i] == ByteAt(nas, cache, Blocks(st, p), junk[i], lower + i, bs);
      }
    }
  }

  lemma AllHitsTracked(st: State, p: Path, lower: nat, n: nat)
    requires Flatten(p) in st.meta.files
    requires forall hit :: hit in M.Hits(st.meta, Flatten(p), Offsets(lower, n, st.meta.blockSize)) ==> hit
    ensures M.SetOf(Offsets(lower, n, st.meta.blockSize)) <= Blocks(st, p)
  {
    var offsets := Offsets(lower, n, st.meta.blockSize);
    var hits := M.Hits(st.meta, Flatten(p), offsets);
    forall o | o in M.SetOf(offsets)
      ensures o in Blocks(st, p)
    {
      var i :| 0 <= i < |offsets| && offsets[i] == o;
      assert hits[i] in hits;
    }
  }

  /* ---- after cfs_ftruncate ---- */

  /** Both files are `size` long, each its own beginning, followed by zeros where it was shorter; the
      tables, the handles and all other files are as they were. */
  lemma FtruncateEffect(st: State, p: Path, size: nat, cacheTime: nat, nasTime: nat)
    requires Valid(st) && p in st.open
    ensures var st', name := Ftruncate(st, p, size, cacheTime, nasTime), Flatten(p);
            && SameElsewhere(st, st', p) && st'.meta == st.meta && st'.open == st.open && st'.fetched == st.fetched
            && name in st'.cache && p in st'.nas
            && CutTo(st.cache[name].data, st'.cache[name].data, size) && st'.cache[name].mtime == cacheTime
            && CutTo(st.nas[p].data, st'.nas[p].data, size) && st'.nas[p].mtime == nasTime
  {
    hide Flatten;
    var st', name := Ftruncate(st, p, size, cacheTime, nasTime), Flatten(p);
    assert st'.cache - {name} == st.cache - {name} && st'.nas - {p} == st.nas - {p};
  }

  predicate CutTo(before: seq<byte>, after: seq<byte>, size: nat) {
    |after| == size && forall x :: 0 <= x < size ==> after[x] == if x < |before| then before[x] else 0
  }

  /** After a shrink any read counts what a plain read of its window counts, and behind the new end of
      the file the buffer is as malloc left it: nothing that was cut off comes back. */
  lemma ShrunkReadsPlain(st: State, p: Path, cut: nat, cacheTime: nat, nasTime: nat, size: nat, offset: nat,
                         junk: seq<byte>, behind: seq<byte>, now: nat)
    requires Valid(st) && p in st.open && Coherent(st, p) && cut <= |st.nas[p].data|
    requires var st' := Ftruncate(st, p, cut, cacheTime, nasTime);
             Readied(st', p, size, offset, junk, behind)
    ensures var st' := Ftruncate(st, p, cut, cacheTime, nasTime);
            var r, lower := Read(st', p, size, offset, junk, behind, now), AlignLower(offset, st.meta.blockSize);
            r.Returns? ==>
              && r.ret == |Pread(st.nas[p].data[..cut], |junk|, lower)|
              && forall k :: 0 <= k < size && offset + k >= cut && offset - lower + k < |junk| ==>
                   r.buf[k] == junk[offset - lower + k]
  {
    hide Flatten, Read, Fill, M.SetOf, Agree;
    var st', bs := Ftruncate(st, p, cut, cacheTime, nasTime), st.meta.blockSize;
    var lower := AlignLower(offset, bs);
    ShrinkKeepsCoherence(st, p, cut, cacheTime, nasTime);
    FtruncateEffect(st, p, cut, cacheTime, nasTime);
    OffsetInBlock(offset, bs);
    PlainCountExactly(st', p, size, offset, junk, behind, now);
    assert st'.nas[p].data == st.nas[p].data[..cut];
    if Read(st', p, size, offset, junk, behind, now).Returns? {
      forall k | 0 <= k < size && offset + k >= cut && offset - lower + k < |junk|
        ensures Read(st', p, size, offset, junk, behind, now).buf[k] == junk[offset - lower + k]
      {
        ReadBytesExactly(st', p, size, offset, junk, behind, now, k);
      }
    }
  }
}
