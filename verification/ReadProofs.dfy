/** cfs_read against the NAS it stands in front of, for every mixture of hits and misses. */
module ReadProofs {
  import opened Posix
  import opened CacheHelp
  import opened PathName
  import opened CacheModel
  import opened Coherence
  import M = MetaModel

  /* ---- one block ---- */

  lemma StoreEffect(st: State, p: Path, chunk: seq<byte>, offset: nat, now: nat)
    requires Readable(st, p) && Flatten(p) in st.meta.files
    ensures var st' := Store(st, p, chunk, offset, now);
            && SameElsewhere(st, st', p)
            && st' == st.(meta := st'.meta, cache := st'.cache, fetched := st'.fetched)
            && Flatten(p) in st'.meta.files
            && Blocks(st', p) == Blocks(st, p) + {offset}
            && st'.meta.used == st.meta.used + (if offset in Blocks(st, p) then 0 else st.meta.blockSize)
            && st'.fetched[Flatten(p)] == st.fetched[Flatten(p)] + [offset]
            && st'.cache[Flatten(p)] == WriteFile(st.cache[Flatten(p)], chunk, offset, now)
  {
  }

  lemma StoreKeepsCoherence(st: State, p: Path, chunk: seq<byte>, offset: nat, now: nat)
    requires Coherent(st, p) && |chunk| == st.meta.blockSize && offset % st.meta.blockSize == 0
    requires Copies(st.nas[p].data, chunk, offset)
    ensures Coherent(Store(st, p, chunk, offset, now), p)
  {
    var nas := st.nas[p].data;
    StoreEffect(st, p, chunk, offset, now);
    PatchAgrees(nas, st.cache[Flatten(p)].data, Blocks(st, p), st.meta.blockSize, nas, chunk, offset, 1);
    assert M.SetOf(Offsets(offset, 1, st.meta.blockSize)) == {offset} by {
      assert Offsets(offset, 1, st.meta.blockSize) == [offset];
    }
  }

  /** A block read from a source that is right about it, over whatever the buffer held. */
  lemma BlockCopied(nas: seq<byte>, source: seq<byte>, junk: seq<byte>, o: nat)
    requires BlockAgrees(nas, source, o, |junk|)
    ensures Copies(nas, Overlay(junk, Pread(source, |junk|, o), 0), o)
    ensures o + |junk| <= |nas| ==> |Pread(source, |junk|, o)| == |junk|
  {
    var got := Pread(source, |junk|, o);
    var chunk := Overlay(junk, got, 0);
    forall k | 0 <= k < |chunk| && o + k < |nas|
      ensures chunk[k] == nas[o + k]
    {
      assert source[o + k] == nas[o + k];
    }
  }

  lemma CopiesAppend(nas: seq<byte>, done: seq<byte>, chunk: seq<byte>, lower: nat)
    requires Copies(nas, done, lower) && Copies(nas, chunk, lower + |done|)
    ensures Copies(nas, done + chunk, lower)
  {
    forall k | 0 <= k < |done + chunk| && lower + k < |nas|
      ensures (done + chunk)[k] == nas[lower + k]
    {
      if k >= |done| {
        assert chunk[k - |done|] == nas[lower + |done| + (k - |done|)];
      }
    }
  }

  /* ---- the loop: bytes ---- */

  /** Every block the bitmap calls a hit is tracked. */
  predicate HitsTracked(blocks: set<nat>, o: nat, hits: seq<bool>, bs: nat)
    decreases |hits|
  {
    hits == [] || ((hits[0] ==> o in blocks) && HitsTracked(blocks, o + bs, hits[1..], bs))
  }

  lemma {:induction false} HitsStayTracked(blocks: set<nat>, more: set<nat>, o: nat, hits: seq<bool>, bs: nat)
    requires HitsTracked(blocks, o, hits, bs) && blocks <= more
    ensures HitsTracked(more, o, hits, bs)
    decreases |hits|
  {
    if hits != [] {
      HitsStayTracked(blocks, more, o + bs, hits[1..], bs);
    }
  }

  /** What holds when the loop reaches the block at `o`. */
  ghost predicate Filling(st: State, p: Path, o: nat, hits: seq<bool>, done: seq<byte>, rest: seq<byte>) {
    && Coherent(st, p) && o % st.meta.blockSize == 0
    && |rest| == Span(|hits|, st.meta.blockSize)
    && HitsTracked(Blocks(st, p), o, hits, st.meta.blockSize)
    && |done| <= o && Copies(st.nas[p].data, done, o - |done|)
  }

  /** What the finished loop leaves: the NAS untouched, the cache right, every buffer byte below
      the NAS end of file the NAS byte, and a window inside the file counted in full. */
  ghost predicate Filled(nas: map<Path, File>, p: Path, lower: nat, total: nat, f: Outcome) {
    && f.st.nas == nas && Coherent(f.st, p)
    && (f.Returns? ==> Copies(nas[p].data, f.buf, lower))
    && (f.Returns? && lower + |f.buf| <= |nas[p].data| ==> f.ret == total)
  }

  /** The block read from wherever the bitmap says. */
  lemma FillingRead(st: State, p: Path, o: nat, hits: seq<bool>, done: seq<byte>, rest: seq<byte>)
      returns (chunk: seq<byte>, n: nat)
    requires Filling(st, p, o, hits, done, rest) && hits != []
    ensures var bs := st.meta.blockSize;
            var got := Pread(Source(st, p, hits[0]), bs, o);
            && n == |got| && chunk == Overlay(rest[..bs], got, 0)
            && Filling(st, p, o + bs, hits[1..], done + chunk, rest[bs..])
            && Copies(st.nas[p].data, chunk, o)
            && (o + bs <= |st.nas[p].data| ==> n == bs)
  {
    var bs := st.meta.blockSize;
    var got := Pread(Source(st, p, hits[0]), bs, o);
    n, chunk := |got|, Overlay(rest[..bs], got, 0);
    BlockCopied(st.nas[p].data, Source(st, p, hits[0]), rest[..bs], o);
    CopiesAppend(st.nas[p].data, done, chunk, o - |done|);
    BlockStart(o, 1, bs);
  }

  lemma FillingStore(st: State, p: Path, o: nat, hits: seq<bool>, done: seq<byte>, rest: seq<byte>,
                     chunk: seq<byte>, at: nat, now: nat)
    requires Filling(st, p, o, hits, done, rest)
    requires |chunk| == st.meta.blockSize && at % st.meta.blockSize == 0 && Copies(st.nas[p].data, chunk, at)
    ensures Filling(Store(st, p, chunk, at, now), p, o, hits, done, rest)
  {
    StoreEffect(st, p, chunk, at, now);
    StoreKeepsCoherence(st, p, chunk, at, now);
    HitsStayTracked(Blocks(st, p), Blocks(Store(st, p, chunk, at, now), p), o, hits, st.meta.blockSize);
  }

  /** One turn of the recursion. */
  lemma FillStep(st: State, p: Path, o: nat, hits: seq<bool>, done: seq<byte>, rest: seq<byte>, ret: nat, now: nat)
      returns (chunk: seq<byte>, n: nat)
    requires Readable(st, p) && |rest| == Span(|hits|, st.meta.blockSize)
    requires hits != [] && (hits[0] || !Full(st))
    ensures var bs := st.meta.blockSize;
            var got := Pread(Source(st, p, hits[0]), bs, o);
            && n == |got| && chunk == Overlay(rest[..bs], got, 0) && |chunk| == bs
            && Fill(st, p, o, hits, done, rest, ret, now)
            == Fill(if hits[0] then st else Store(st, p, chunk, o, now), p,
                    o + bs, hits[1..], done + chunk, rest[bs..], ret + n, now)
  {
    hide Pread, Overlay, Source, Store, Flatten;
    var got := Pread(Source(st, p, hits[0]), st.meta.blockSize, o);
    n, chunk := |got|, Overlay(rest[..st.meta.blockSize], got, 0);
  }

  /** One turn of the loop that does not spin. */
  lemma FillTurn(st: State, p: Path, o: nat, hits: seq<bool>, done: seq<byte>, rest: seq<byte>, ret: nat, now: nat)
      returns (st1: State, chunk: seq<byte>, n: nat)
    requires Filling(st, p, o, hits, done, rest) && hits != [] && (hits[0] || !Full(st))
    ensures Filling(st1, p, o + st.meta.blockSize, hits[1..], done + chunk, rest[st.meta.blockSize..])
    ensures st1.nas == st.nas && st1.meta.blockSize == st.meta.blockSize == |chunk|
    ensures o + st.meta.blockSize <= |st.nas[p].data| ==> n == st.meta.blockSize
    ensures Fill(st, p, o, hits, done, rest, ret, now)
         == Fill(st1, p, o + st.meta.blockSize, hits[1..], done + chunk, rest[st.meta.blockSize..], ret + n, now)
  {
    hide Fill, Pread, Overlay, Source, Filling, Copies, Flatten;
    var bs := st.meta.blockSize;
    FillingShape(st, p, o, hits, done, rest);
    chunk, n := FillingRead(st, p, o, hits, done, rest);
    var _, _ := FillStep(st, p, o, hits, done, rest, ret, now);
    if hits[0] {
      st1 := st;
    } else {
      st1 := Store(st, p, chunk, o, now);
      FillingStore(st, p, o + bs, hits[1..], done + chunk, rest[bs..], chunk, o, now);
    }
  }

  lemma {:induction false} FillCopies(st: State, p: Path, o: nat, hits: seq<bool>, done: seq<byte>,
                                      rest: seq<byte>, ret: nat, now: nat, f: Outcome)
    requires Filling(st, p, o, hits, done, rest)
    requires f == Fill(st, p, o, hits, done, rest, ret, now)
    ensures Filled(st.nas, p, o - |done|, ret + |rest|, f)
    decreases |hits|
  {
    hide Fill, Filling, Filled;
    FillingShape(st, p, o, hits, done, rest);
    if hits != [] && (hits[0] || !Full(st)) {
      var bs := st.meta.blockSize;
      var st1, chunk, n := FillTurn(st, p, o, hits, done, rest, ret, now);
      var done1, rest1 := done + chunk, rest[bs..];
      FillCopies(st1, p, o + bs, hits[1..], done1, rest1, ret + n, now, f);
      assert o + bs - |done1| == o - |done|;
      FilledTotal(st.nas, p, o - |done|, ret + n + |rest1|, ret + |rest|, f);
    } else {
      FillEnds(st, p, o, hits, done, rest, ret, now);
    }
  }

  lemma FillEnds(st: State, p: Path, o: nat, hits: seq<bool>, done: seq<byte>, rest: seq<byte>, ret: nat, now: nat)
    requires Filling(st, p, o, hits, done, rest)
    requires Readable(st, p) && |rest| == Span(|hits|, st.meta.blockSize) && |done| <= o
    requires hits == [] || (!hits[0] && Full(st))
    ensures Filled(st.nas, p, o - |done|, ret + |rest|, Fill(st, p, o, hits, done, rest, ret, now))
  {
  }

  /** The count matters only for windows inside the file. */
  lemma FilledTotal(nas: map<Path, File>, p: Path, lower: nat, t1: nat, t2: nat, f: Outcome)
    requires Filled(nas, p, lower, t1, f)
    requires t1 == t2 || (p in nas && (f.Returns? ==> lower + |f.buf| > |nas[p].data|))
    ensures Filled(nas, p, lower, t2, f)
  {
  }

  lemma FillingShape(st: State, p: Path, o: nat, hits: seq<bool>, done: seq<byte>, rest: seq<byte>)
    requires Filling(st, p, o, hits, done, rest)
    ensures Readable(st, p) && |rest| == Span(|hits|, st.meta.blockSize) && |done| <= o && o % st.meta.blockSize == 0
    ensures hits != [] ==> st.meta.blockSize <= |rest|
  {
  }

  /* ---- the loop: books ---- */

  /** The blocks the bitmap calls missing, in the order the loop reaches them. */
  function Missing(o: nat, hits: seq<bool>, bs: nat): seq<nat>
    decreases |hits|
  {
    if hits == [] then []
    else if hits[0] then Missing(o + bs, hits[1..], bs)
    else [o] + Missing(o + bs, hits[1..], bs)
  }

  /** The bitmap tells exactly which blocks are tracked. */
  predicate BitmapRight(blocks: set<nat>, o: nat, hits: seq<bool>, bs: nat)
    decreases |hits|
  {
    hits == [] || ((hits[0] <==> o in blocks) && BitmapRight(blocks, o + bs, hits[1..], bs))
  }

  /** It stays right for the blocks ahead while those behind are stored. */
  lemma {:induction false} BitmapStays(blocks: set<nat>, behind: nat, o: nat, hits: seq<bool>, bs: nat)
    requires BitmapRight(blocks, o, hits, bs) && behind < o
    ensures BitmapRight(blocks + {behind}, o, hits, bs)
    decreases |hits|
  {
    if hits != [] {
      BitmapStays(blocks, behind, o + bs, hits[1..], bs);
    }
  }

  /** `k` of the missing blocks have been fetched on the way from `st` to `st'`, in order. */
  ghost predicate Fetched(st: State, st': State, p: Path, missing: seq<nat>, k: nat) {
    && Flatten(p) in st.meta.files && Flatten(p) in st.fetched
    && k <= |missing|
    && SameElsewhere(st, st', p)
    && st' == st.(meta := st'.meta, cache := st'.cache, fetched := st'.fetched)
    && Flatten(p) in st'.meta.files && Flatten(p) in st'.fetched
    && Blocks(st', p) == Blocks(st, p) + M.SetOf(missing[..k])
    && st'.fetched[Flatten(p)] == st.fetched[Flatten(p)] + missing[..k]
    && st'.meta.used == st.meta.used + Span(k, st.meta.blockSize)
  }

  lemma FetchedNone(st: State, p: Path, missing: seq<nat>)
    requires Flatten(p) in st.meta.files && Flatten(p) in st.fetched
    ensures Fetched(st, st, p, missing, 0)
  {
    assert Blocks(st, p) + M.SetOf(missing[..0]) == Blocks(st, p);
  }

  lemma FetchedOneMore(st: State, st1: State, st': State, p: Path, o: nat, missing: seq<nat>, k: nat)
    requires Fetched(st, st1, p, [o], 1) && Fetched(st1, st', p, missing, k)
    ensures Fetched(st, st', p, [o] + missing, k + 1)
  {
    var bs := st.meta.blockSize;
    assert ([o] + missing)[..k + 1] == [o] + missing[..k];
    assert [o][..1] == [o];
    assert M.SetOf([o] + missing[..k]) == M.SetOf([o]) + M.SetOf(missing[..k]);
    assert Span(1, bs) == bs + Span(0, bs) == bs;
    assert Span(k + 1, bs) == bs + Span(k, bs);
  }

  /** The condition under which a loop over `m` missing blocks comes to its end. */
  predicate RoomFor(st: State, m: nat) {
    m == 0 || st.meta.used + Span(m - 1, st.meta.blockSize) < st.capacity * 1024
  }

  /** `k` blocks are fetched, each of them once and each one that was missing; the loop returns
      exactly when that is all of them, and what stops it is a full cache. */
  ghost predicate Booked(st: State, p: Path, missing: seq<nat>, k: nat, f: Outcome) {
    && Fetched(st, f.st, p, missing, k)
    && (f.Returns? <==> k == |missing|)
    && (f.Returns? <==> RoomFor(st, |missing|))
    && (f.Spins? ==> Full(f.st))
  }

  lemma BookedOneMore(st: State, st1: State, p: Path, o: nat, missing: seq<nat>, k: nat, f: Outcome)
    requires !Full(st)
    requires Fetched(st, st1, p, [o], 1) && Booked(st1, p, missing, k, f)
    ensures Booked(st, p, [o] + missing, k + 1, f)
  {
    FetchedOneMore(st, st1, f.st, p, o, missing, k);
    assert Span(1, st.meta.blockSize) == st.meta.blockSize + Span(0, st.meta.blockSize);
  }

  lemma FillStops(st: State, p: Path, o: nat, hits: seq<bool>, done: seq<byte>, rest: seq<byte>, ret: nat, now: nat)
    requires Readable(st, p) && Flatten(p) in st.meta.files && |rest| == Span(|hits|, st.meta.blockSize)
    requires hits == [] || (!hits[0] && Full(st))
    ensures Booked(st, p, Missing(o, hits, st.meta.blockSize), 0, Fill(st, p, o, hits, done, rest, ret, now))
  {
    FetchedNone(st, p, Missing(o, hits, st.meta.blockSize));
  }

  lemma FillSkip(st: State, p: Path, o: nat, hits: seq<bool>, done: seq<byte>, rest: seq<byte>, ret: nat, now: nat)
      returns (chunk: seq<byte>, n: nat)
    requires Readable(st, p) && |rest| == Span(|hits|, st.meta.blockSize) && hits != [] && hits[0]
    ensures Fill(st, p, o, hits, done, rest, ret, now)
         == Fill(st, p, o + st.meta.blockSize, hits[1..], done + chunk, rest[st.meta.blockSize..], ret + n, now)
  {
    hide Fill, Pread, Overlay, Source, Store, Flatten;
    chunk, n := FillStep(st, p, o, hits, done, rest, ret, now);
  }

  lemma FillFetch(st: State, p: Path, o: nat, hits: seq<bool>, done: seq<byte>, rest: seq<byte>, ret: nat, now: nat)
      returns (st1: State, chunk: seq<byte>, n: nat)
    requires Readable(st, p) && Flatten(p) in st.meta.files && |rest| == Span(|hits|, st.meta.blockSize)
    requires hits != [] && !hits[0] && !Full(st) && BitmapRight(Blocks(st, p), o, hits, st.meta.blockSize)
    ensures Readable(st1, p) && Flatten(p) in st1.meta.files && st1.meta.blockSize == st.meta.blockSize
    ensures BitmapRight(Blocks(st1, p), o + st.meta.blockSize, hits[1..], st.meta.blockSize)
    ensures Fill(st, p, o, hits, done, rest, ret, now)
         == Fill(st1, p, o + st.meta.blockSize, hits[1..], done + chunk, rest[st.meta.blockSize..], ret + n, now)
    ensures Fetched(st, st1, p, [o], 1)
  {
    hide Fill, Pread, Overlay, Source, Store, Flatten, Fetched;
    var bs := st.meta.blockSize;
    chunk, n := FillStep(st, p, o, hits, done, rest, ret, now);
    st1 := Store(st, p, chunk, o, now);
    StoreEffect(st, p, chunk, o, now);
    BitmapStays(Blocks(st, p), o, o + bs, hits[1..], bs);
    StoreFetches(st, p, chunk, o, now);
  }

  lemma StoreFetches(st: State, p: Path, chunk: seq<byte>, o: nat, now: nat)
    requires Readable(st, p) && Flatten(p) in st.meta.files && o !in Blocks(st, p)
    ensures Fetched(st, Store(st, p, chunk, o, now), p, [o], 1)
  {
    hide Store, Flatten;
    StoreEffect(st, p, chunk, o, now);
    assert [o][..1] == [o] && M.SetOf([o]) == {o};
    assert Span(1, st.meta.blockSize) == st.meta.blockSize + Span(0, st.meta.blockSize) == st.meta.blockSize;
  }

  lemma {:induction false} FillBooks(st: State, p: Path, o: nat, hits: seq<bool>, done: seq<byte>,
                                     rest: seq<byte>, ret: nat, now: nat, f: Outcome)
      returns (missing: seq<nat>, k: nat)
    requires Readable(st, p) && Flatten(p) in st.meta.files && |rest| == Span(|hits|, st.meta.blockSize)
    requires BitmapRight(Blocks(st, p), o, hits, st.meta.blockSize)
    requires f == Fill(st, p, o, hits, done, rest, ret, now)
    ensures missing == Missing(o, hits, st.meta.blockSize)
    ensures Booked(st, p, missing, k, f)
    decreases |hits|
  {
    hide Fill, Booked, Fetched, Flatten;
    var bs := st.meta.blockSize;
    if hits == [] || (!hits[0] && Full(st)) {
      FillStops(st, p, o, hits, done, rest, ret, now);
      missing, k := Missing(o, hits, bs), 0;
    } else if hits[0] {
      var chunk, n := FillSkip(st, p, o, hits, done, rest, ret, now);
      missing, k := FillBooks(st, p, o + bs, hits[1..], done + chunk, rest[bs..], ret + n, now, f);
    } else {
      var st1, chunk, n := FillFetch(st, p, o, hits, done, rest, ret, now);
      var missing1, k1 := FillBooks(st1, p, o + bs, hits[1..], done + chunk, rest[bs..], ret + n, now, f);
      BookedOneMore(st, st1, p, o, missing1, k1, f);
      missing, k := [o] + missing1, k1 + 1;
    }
  }

  /* ---- the bitmap made before the loop ---- */

  lemma {:induction false} BitmapMadeRight(m: M.Meta, name: string, lower: nat, n: nat)
    requires name in m.files
    ensures BitmapRight(m.files[name].blocks, lower, M.Hits(m, name, Offsets(lower, n, m.blockSize)), m.blockSize)
    decreases n
  {
    if n > 0 {
      var bs := m.blockSize;
      var hits, next := M.Hits(m, name, Offsets(lower, n, bs)), M.Hits(m, name, Offsets(lower + bs, n - 1, bs));
      BitmapMadeRight(m, name, lower + bs, n - 1);
      forall i | 0 <= i < n - 1
        ensures hits[1..][i] == next[i]
      {
        assert bs * (i + 1) == bs + bs * i;
      }
      assert hits[1..] == next;
      assert Offsets(lower, n, bs)[0] == lower;
    }
  }

  lemma {:induction false} RightIsTracked(blocks: set<nat>, o: nat, hits: seq<bool>, bs: nat)
    requires BitmapRight(blocks, o, hits, bs)
    ensures HitsTracked(blocks, o, hits, bs)
    decreases |hits|
  {
    if hits != [] {
      RightIsTracked(blocks, o + bs, hits[1..], bs);
    }
  }

  /** What is missing is the window less what is tracked, each block once. */
  lemma {:induction false} MissingIsWindowLess(blocks: set<nat>, o: nat, hits: seq<bool>, bs: nat)
    requires BitmapRight(blocks, o, hits, bs) && bs > 0
    ensures var missing := Missing(o, hits, bs);
            && M.AllDistinct(missing)
            && (forall x :: x in missing ==> o <= x)
            && M.SetOf(missing) == M.SetOf(Offsets(o, |hits|, bs)) - blocks
    decreases |hits|
  {
    if hits != [] {
      var next := Missing(o + bs, hits[1..], bs);
      MissingIsWindowLess(blocks, o + bs, hits[1..], bs);
      OffsetsFirst(o, |hits|, bs);
      assert forall x :: x in next ==> o < x;
      if !hits[0] {
        assert M.SetOf([o] + next) == {o} + M.SetOf(next);
      }
    }
  }

  lemma OffsetsFirst(o: nat, n: nat, bs: nat)
    requires n > 0
    ensures M.SetOf(Offsets(o, n, bs)) == {o} + M.SetOf(Offsets(o + bs, n - 1, bs))
  {
    var all, next := Offsets(o, n, bs), Offsets(o + bs, n - 1, bs);
    forall i | 0 <= i < n - 1
      ensures all[1..][i] == next[i]
    {
      assert bs * (i + 1) == bs + bs * i;
    }
    assert all == [o] + next;
  }

  /* ---- cfs_read ---- */

  /** The all-hit path: one read of the whole window. */
  lemma WindowHit(nas: seq<byte>, cache: seq<byte>, tracked: set<nat>, bs: nat, junk: seq<byte>, lower: nat, n: nat)
    requires bs > 0 && lower % bs == 0 && |junk| == bs * n
    requires Agree(nas, cache, tracked, bs) && M.SetOf(Offsets(lower, n, bs)) <= tracked
    ensures Copies(nas, Overlay(junk, Pread(cache, |junk|, lower), 0), lower)
    ensures lower + |junk| <= |nas| ==> |Pread(cache, |junk|, lower)| == |junk|
  {
    forall i | lower <= i < Min(lower + |junk|, |nas|)
      ensures i < |cache| && cache[i] == nas[i]
    {
      WindowIndex(AlignLower(i, bs), lower, n, bs) by {
        if AlignLower(i, bs) < lower {
          BlockGap(AlignLower(i, bs), lower, bs);
        }
      }
      var o := AlignLower(i, bs);
      assert Offsets(lower, n, bs)[(o - lower) / bs] == o;
      assert o in M.SetOf(Offsets(lower, n, bs));
    }
    if 0 < |junk| && lower < |nas| {
      var last := Min(lower + |junk|, |nas|) - 1;
      var byteThere := nas[last];
      assert last < |cache|;
      BlockCopied(nas, cache, junk, lower);
    }
  }

  /** The window sized from the request covers what the file has of it. */
  predicate ReadCovers(nasSize: nat, offset: nat, size: nat, bs: nat)
    requires bs > 0
  {
    size == 0 || WindowFits(offset, size, bs) || nasSize <= AlignLower(offset, bs) + AlignedSize(size, bs)
  }

  /** The NAS and the agreement are as before, spinning or not.  The bytes handed back are, below the
      NAS end of file, what a plain pread returns, if the window covers them.  For a window inside the
      file the call returns the window's length, hence `size` exactly when that is whole blocks. */
  lemma ReadIsRight(st: State, p: Path, size: nat, offset: nat, junk: seq<byte>, behind: seq<byte>, now: nat)
    requires Readied(st, p, size, offset, junk, behind) && Coherent(st, p)
    ensures var r := Read(st, p, size, offset, junk, behind, now);
            var nas := st.nas[p].data;
            var plain := Pread(nas, size, offset);
            && r.st.nas == st.nas && Coherent(r.st, p)
            && (r.Returns? && ReadCovers(|nas|, offset, size, st.meta.blockSize) ==>
                  |plain| <= |r.buf| == size && r.buf[..|plain|] == plain)
            && (r.Returns? && AlignLower(offset, st.meta.blockSize) + |junk| <= |nas| ==>
                  r.ret == |junk| && (r.ret == size <==> size % st.meta.blockSize == 0))
  {
    hide AlignedSize, Read, Coherent, Copies, Pread;
    var bs, nas := st.meta.blockSize, st.nas[p].data;
    var buf, ret, st' := ReadBuffer(st, p, size, offset, junk, behind, now);
    OffsetInBlock(offset, bs);
    WholeBlocks(size, bs);
    if ReadCovers(|nas|, offset, size, bs) {
      CutIsPlain(nas, buf, behind, AlignLower(offset, bs), offset, size);
    }
  }

  /** The aligned buffer from which a returning call takes its bytes. */
  lemma ReadBuffer(st: State, p: Path, size: nat, offset: nat, junk: seq<byte>, behind: seq<byte>, now: nat)
      returns (buf: seq<byte>, ret: nat, st': State)
    requires Readied(st, p, size, offset, junk, behind) && Coherent(st, p)
    ensures var r := Read(st, p, size, offset, junk, behind, now);
            var lower := AlignLower(offset, st.meta.blockSize);
            && r.st == st' && st'.nas == st.nas && Coherent(st', p)
            && |buf| == |junk| && offset - lower + size <= |buf + behind|
            && (r.Returns? ==>
                  && r.ret == ret && r.buf == (buf + behind)[offset - lower..offset - lower + size]
                  && Copies(st.nas[p].data, buf, lower)
                  && (lower + |junk| <= |st.nas[p].data| ==> ret == |junk|))
  {
    hide Fill, Filling, HitsTracked;
    var bs, nas := st.meta.blockSize, st.nas[p].data;
    var lower, n := AlignLower(offset, bs), |junk| / bs;
    var offsets := Offsets(lower, n, bs);
    var hits := M.Hits(st.meta, Flatten(p), offsets);
    SpanIs(n, bs);
    if forall i :: 0 <= i < |hits| ==> hits[i] {
      var cache := st.cache[Flatten(p)].data;
      forall o | o in M.SetOf(offsets)
        ensures o in Blocks(st, p)
      {
        var i :| 0 <= i < |offsets| && offsets[i] == o;
        assert hits[i];
      }
      WindowHit(nas, cache, Blocks(st, p), bs, junk, lower, n);
      var got := Pread(cache, |junk|, lower);
      buf, ret, st' := Overlay(junk, got, 0), |got|, st;
    } else {
      var f := Fill(st, p, lower, hits, [], junk, 0, now);
      BitmapMadeRight(st.meta, Flatten(p), lower, n);
      RightIsTracked(Blocks(st, p), lower, hits, bs);
      FillingStarts(st, p, lower, hits, junk);
      FillCopies(st, p, lower, hits, [], junk, 0, now, f);
      buf, ret, st' := if f.Returns? then f.buf else junk, if f.Returns? then f.ret else 0, f.st;
    }
  }

  lemma FillingStarts(st: State, p: Path, lower: nat, hits: seq<bool>, junk: seq<byte>)
    requires Coherent(st, p) && lower % st.meta.blockSize == 0 && |junk| == Span(|hits|, st.meta.blockSize)
    requires HitsTracked(Blocks(st, p), lower, hits, st.meta.blockSize)
    ensures Filling(st, p, lower, hits, [], junk)
  {
  }

  /** The request lies in the buffer, or the file ends before it leaves it. */
  lemma CutIsPlain(nas: seq<byte>, buf: seq<byte>, behind: seq<byte>, lower: nat, offset: nat, size: nat)
    requires lower <= offset && offset - lower + size <= |buf + behind|
    requires size == 0 || offset - lower + size <= |buf| || |nas| <= lower + |buf|
    ensures var plain := Pread(nas, size, offset);
            && |plain| <= size
            && (Copies(nas, buf, lower) ==>
                  (buf + behind)[offset - lower..offset - lower + size][..|plain|] == plain)
  {
    var plain, cut := Pread(nas, size, offset), (buf + behind)[offset - lower..offset - lower + size];
    if Copies(nas, buf, lower) {
      forall k | 0 <= k < |plain|
        ensures cut[k] == plain[k]
      {
        assert buf[offset - lower + k] == nas[lower + (offset - lower + k)];
      }
    }
  }

  /** What memory holds behind the buffer matters only to a request that reaches there. */
  lemma BehindUnused(st: State, p: Path, size: nat, offset: nat, junk: seq<byte>, behind: seq<byte>,
                     behind': seq<byte>, now: nat)
    requires Readied(st, p, size, offset, junk, behind) && Readied(st, p, size, offset, junk, behind')
    requires WindowFits(offset, size, st.meta.blockSize)
    ensures Read(st, p, size, offset, junk, behind, now) == Read(st, p, size, offset, junk, behind', now)
  {
    hide FillWindow, Flatten;
    var bs := st.meta.blockSize;
    var lower := AlignLower(offset, bs);
    SpanIs(|junk| / bs, bs);
    var f := FillWindow(st, p, lower, M.Hits(st.meta, Flatten(p), Offsets(lower, |junk| / bs, bs)), junk, now);
    if f.Returns? {
      var from := offset - lower;
      assert (f.buf + behind)[from..from + size] == f.buf[from..from + size];
      assert (f.buf + behind')[from..from + size] == f.buf[from..from + size];
    }
  }

  /** What a read does to the books: the missing blocks of the window are fetched once each, in
      order, until none is left or the cache is full; it returns exactly when there is room. */
  lemma ReadBooks(st: State, p: Path, size: nat, offset: nat, junk: seq<byte>, behind: seq<byte>, now: nat)
      returns (missing: seq<nat>, k: nat)
    requires Readied(st, p, size, offset, junk, behind)
    ensures var bs := st.meta.blockSize;
            var window := M.SetOf(Offsets(AlignLower(offset, bs), |junk| / bs, bs));
            var r := Read(st, p, size, offset, junk, behind, now);
            && M.AllDistinct(missing) && M.SetOf(missing) == window - Blocks(st, p)
            && |missing| == |window - Blocks(st, p)|
            && Booked(st, p, missing, k, r)
            && (r.Returns? ==> Blocks(r.st, p) == Blocks(st, p) + window)
  {
    hide Fill, Flatten, Missing, M.SetOf, M.AllDistinct;
    var bs := st.meta.blockSize;
    var lower, n := AlignLower(offset, bs), |junk| / bs;
    var offsets := Offsets(lower, n, bs);
    var hits := M.Hits(st.meta, Flatten(p), offsets);
    SpanIs(n, bs);
    BitmapMadeRight(st.meta, Flatten(p), lower, n);
    MissingIsWindowLess(Blocks(st, p), lower, hits, bs);
    missing, k := ReadLoop(st, p, size, offset, junk, behind, now);
    M.CountListed(missing, M.SetOf(missing));
    assert M.SetOf(missing) * M.SetOf(missing) == M.SetOf(missing);
    assert missing[..|missing|] == missing;
    var window := M.SetOf(offsets);
    assert Blocks(st, p) + (window - Blocks(st, p)) == Blocks(st, p) + window;
  }

  lemma ReadLoop(st: State, p: Path, size: nat, offset: nat, junk: seq<byte>, behind: seq<byte>, now: nat)
      returns (missing: seq<nat>, k: nat)
    requires Readied(st, p, size, offset, junk, behind)
    ensures var bs := st.meta.blockSize;
            var lower := AlignLower(offset, bs);
            && missing == Missing(lower, M.Hits(st.meta, Flatten(p), Offsets(lower, |junk| / bs, bs)), bs)
            && Booked(st, p, missing, k, Read(st, p, size, offset, junk, behind, now))
  {
    var bs := st.meta.blockSize;
    var lower, n := AlignLower(offset, bs), |junk| / bs;
    var hits := M.Hits(st.meta, Flatten(p), Offsets(lower, n, bs));
    SpanIs(n, bs);
    if forall i :: 0 <= i < |hits| ==> hits[i] {
      AllHitsNoneMissing(lower, hits, bs);
      missing, k := [], 0;
      FetchedNone(st, p, missing);
    } else {
      BitmapMadeRight(st.meta, Flatten(p), lower, n);
      missing, k := FillBooks(st, p, lower, hits, [], junk, 0, now, Fill(st, p, lower, hits, [], junk, 0, now));
    }
  }

  lemma {:induction false} AllHitsNoneMissing(o: nat, hits: seq<bool>, bs: nat)
    requires forall i :: 0 <= i < |hits| ==> hits[i]
    ensures Missing(o, hits, bs) == []
    decreases |hits|
  {
    if hits != [] {
      AllHitsNoneMissing(o + bs, hits[1..], bs);
    }
  }
}
