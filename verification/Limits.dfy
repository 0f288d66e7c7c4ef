/** Where the guarantees end: for each condition under which an operation keeps the cache right,
    the proof that nothing weaker on the same quantities would do. */
module Limits {
  import opened Posix
  import opened CacheHelp
  import opened PathName
  import opened CacheModel
  import opened Coherence
  import opened ReadProofs
  import opened Runs
  import M = MetaModel

  const SAMPLE: Path := "/f"

  /** One open file with the given bytes on either side and the given tracked block, on a cache
      with room to spare. */
  function Sample(bs: nat, nas: seq<byte>, cache: seq<byte>, block: nat): State
    requires bs > 0
  {
    State(bs + 1, map[SAMPLE := File(nas, 0)], map[SAMPLE := File(cache, 0)],
      M.Meta(bs, map[SAMPLE := M.Row(|nas|, bs, {block})], bs), {SAMPLE}, map[SAMPLE := []], 0)
  }

  lemma SampleIsCoherent(bs: nat, nas: seq<byte>, cache: seq<byte>, block: nat)
    requires bs > 0 && block % bs == 0 && BlockAgrees(nas, cache, block, bs)
    ensures var st := Sample(bs, nas, cache, block);
            && Valid(st) && SAMPLE in st.open && Coherent(st, SAMPLE) && !Full(st) && M.Conserved(st.meta)
  {
    var st := Sample(bs, nas, cache, block);
    assert Flatten(SAMPLE) == SAMPLE by {
      SlashlessFixed("f");
    }
    M.SumUpdate(map[], SAMPLE, M.Row(|nas|, bs, {block}));
    assert map[][SAMPLE := M.Row(|nas|, bs, {block})] == st.meta.files;
  }

  function Zeros(n: nat): (s: seq<byte>)
    ensures |s| == n && forall i :: 0 <= i < n ==> s[i] == 0
  {
    seq(n, _ => 0)
  }

  function Ones(n: nat): (s: seq<byte>)
    ensures |s| == n && forall i :: 0 <= i < n ==> s[i] == 1
  {
    seq(n, _ => 1)
  }

  /* ---- cfs_write ---- */

  /** Every write of this shape, to a file of this size, from every coherent state. */
  ghost predicate WriteAlwaysSafe(bs: nat, nasSize: nat, offset: nat, size: nat)
    requires bs > 0
  {
    forall st: State, p: Path, data: seq<byte>, junk: seq<byte>, nasTime: nat, cacheTime: nat ::
      WriteAsked(st, p, data, junk, bs, nasSize, size) && Write(st, p, data, offset, junk, nasTime, cacheTime).Returns?
      ==> Coherent(Write(st, p, data, offset, junk, nasTime, cacheTime).st, p)
  }

  ghost predicate WriteAsked(st: State, p: Path, data: seq<byte>, junk: seq<byte>, bs: nat, nasSize: nat, size: nat) {
    && Valid(st) && p in st.open && Coherent(st, p)
    && st.meta.blockSize == bs && |st.nas[p].data| == nasSize
    && |data| == size && |junk| == AlignedSize(size, bs)
  }

  /** A write keeps the cache right, whatever is tracked and whatever is written, exactly when
      its window covers what it changes. */
  lemma WriteSafeExactly(bs: nat, nasSize: nat, offset: nat, size: nat)
    requires bs > 0
    ensures WriteAlwaysSafe(bs, nasSize, offset, size) <==> WriteCovers(nasSize, offset, size, bs)
  {
    if WriteCovers(nasSize, offset, size, bs) {
      forall st: State, p: Path, data: seq<byte>, junk: seq<byte>, nasTime: nat, cacheTime: nat |
        WriteAsked(st, p, data, junk, bs, nasSize, size)
            && Write(st, p, data, offset, junk, nasTime, cacheTime).Returns?
        ensures Coherent(Write(st, p, data, offset, junk, nasTime, cacheTime).st, p)
      {
        WriteKeepsCoherence(st, p, data, offset, junk, nasTime, cacheTime);
      }
    } else if !WindowFits(offset, size, bs) {
      WriteBeyondWindow(bs, nasSize, offset, size);
    } else {
      WriteBeyondEof(bs, nasSize, offset, size);
    }
  }

  /** The byte behind the window reaches the NAS and not the cache. */
  lemma WriteBeyondWindow(bs: nat, nasSize: nat, offset: nat, size: nat)
    requires bs > 0 && size > 0 && !WindowFits(offset, size, bs)
    ensures !WriteAlwaysSafe(bs, nasSize, offset, size)
  {
    var lower, aligned := AlignLower(offset, bs), AlignedSize(size, bs);
    var behind := lower + aligned;
    BlockStart(lower, aligned / bs, bs);
    AlignedPositive(size, bs);
    var nas, cache, data, junk := Zeros(nasSize), Zeros(behind + bs), Ones(size), Zeros(aligned);
    var st := Sample(bs, nas, cache, behind);
    SampleIsCoherent(bs, nas, cache, behind);
    var r := Write(st, SAMPLE, data, offset, junk, 0, 0);
    WriteEffect(st, SAMPLE, data, offset, junk, 0, 0);
    var chunk := WriteStores(st, SAMPLE, data, offset, junk, 0, 0);
    var nas', cache' := r.st.nas[SAMPLE].data, r.st.cache[SAMPLE].data;
    assert offset % bs == offset - lower;
    assert nas'[behind] == 1 && cache'[behind] == 0;
    assert behind in Blocks(r.st, SAMPLE);
    assert !BlockAgrees(nas', cache', behind, bs);
    assert WriteAsked(st, SAMPLE, data, junk, bs, nasSize, size);
  }

  lemma AlignedPositive(size: nat, bs: nat)
    requires bs > 0 && size > 0
    ensures AlignedSize(size, bs) >= bs
  {
    BlockGap(0, AlignedSize(size, bs), bs);
  }

  /** A hole of zeros opens where the cache kept the tail of an old buffer. */
  lemma WriteBeyondEof(bs: nat, nasSize: nat, offset: nat, size: nat)
    requires bs > 0 && size > 0 && AlignLower(offset, bs) > nasSize
    ensures !WriteAlwaysSafe(bs, nasSize, offset, size)
  {
    var lower, block := AlignLower(offset, bs), AlignLower(nasSize, bs);
    BlockGap(block, lower, bs);
    var nas, data, junk := Zeros(nasSize), Ones(size), Zeros(AlignedSize(size, bs));
    var cache := Zeros(nasSize) + Ones(block + bs - nasSize);
    var st := Sample(bs, nas, cache, block);
    SampleIsCoherent(bs, nas, cache, block);
    var r := Write(st, SAMPLE, data, offset, junk, 0, 0);
    WriteEffect(st, SAMPLE, data, offset, junk, 0, 0);
    var chunk := WriteStores(st, SAMPLE, data, offset, junk, 0, 0);
    var nas', cache' := r.st.nas[SAMPLE].data, r.st.cache[SAMPLE].data;
    assert nas'[nasSize] == 0 && cache'[nasSize] == 1;
    assert block in Blocks(r.st, SAMPLE);
    assert !BlockAgrees(nas', cache', block, bs);
    assert WriteAsked(st, SAMPLE, data, junk, bs, nasSize, size);
  }

  /* ---- cfs_ftruncate ---- */

  ghost predicate FtruncateAlwaysSafe(bs: nat, nasSize: nat, size: nat) {
    forall st: State, p: Path, cacheTime: nat, nasTime: nat ::
      Valid(st) && p in st.open && Coherent(st, p) && st.meta.blockSize == bs && |st.nas[p].data| == nasSize
      ==> Coherent(Ftruncate(st, p, size, cacheTime, nasTime), p)
  }

  /** Truncation keeps the cache right exactly when it does not lengthen the file. */
  lemma FtruncateSafeExactly(bs: nat, nasSize: nat, size: nat)
    requires bs > 0
    ensures FtruncateAlwaysSafe(bs, nasSize, size) <==> size <= nasSize
  {
    if size <= nasSize {
      forall st: State, p: Path, cacheTime: nat, nasTime: nat |
        Valid(st) && p in st.open && Coherent(st, p) && st.meta.blockSize == bs && |st.nas[p].data| == nasSize
        ensures Coherent(Ftruncate(st, p, size, cacheTime, nasTime), p)
      {
        ShrinkKeepsCoherence(st, p, size, cacheTime, nasTime);
      }
    } else {
      var block := AlignLower(nasSize, bs);
      var nas, cache := Zeros(nasSize), Zeros(nasSize) + Ones(block + bs - nasSize);
      var st := Sample(bs, nas, cache, block);
      SampleIsCoherent(bs, nas, cache, block);
      var st' := Ftruncate(st, SAMPLE, size, 0, 0);
      assert st'.nas[SAMPLE].data[nasSize] == 0 && st'.cache[SAMPLE].data[nasSize] == 1;
      assert block in Blocks(st', SAMPLE);
      assert !BlockAgrees(st'.nas[SAMPLE].data, st'.cache[SAMPLE].data, block, bs);
    }
  }

  /* ---- the freshness check of cfs_open ---- */

  /** The file opened again after another client wrote it. */
  function Reopened(st: State, p: Path, data: seq<byte>, writeTime: nat, openTime: nat): State
    requires st.meta.files.Keys == st.cache.Keys
  {
    Open(st.(nas := st.nas[p := File(data, writeTime)]), p, openTime)
  }

  /** No block is tracked that a mount with this block size would ask for. */
  predicate NoneTracked(blocks: set<nat>, bs: nat)
    requires bs > 0
  {
    forall o :: o in blocks ==> o % bs != 0
  }

  /** Comparing modification times finds out every write by another client exactly when the
      write's time is strictly later than the cached copy's, or nothing is tracked. */
  lemma FreshnessExactly(st: State, p: Path, writeTime: nat)
    requires Valid(st) && p !in st.open && Flatten(p) in st.cache
    ensures (forall data: seq<byte>, openTime: nat :: Coherent(Reopened(st, p, data, writeTime, openTime), p)) <==>
            writeTime > st.cache[Flatten(p)].mtime || NoneTracked(Blocks(st, p), st.meta.blockSize)
  {
    if writeTime > st.cache[Flatten(p)].mtime || NoneTracked(Blocks(st, p), st.meta.blockSize) {
      forall data: seq<byte>, openTime: nat
        ensures Coherent(Reopened(st, p, data, writeTime, openTime), p)
      {
        var st1 := st.(nas := st.nas[p := File(data, writeTime)]);
        assert Stale(st1, p) <==> writeTime > st.cache[Flatten(p)].mtime;
      }
    } else {
      var o :| o in Blocks(st, p) && o % st.meta.blockSize == 0;
      var cache := st.cache[Flatten(p)].data;
      var data := seq(o + 1, _ => if o < |cache| && cache[o] == 0 then 1 else 0);
      var st' := Reopened(st, p, data, writeTime, 0);
      assert st'.cache == st.cache && Blocks(st', p) == Blocks(st, p);
      assert data[o] == if o < |cache| && cache[o] == 0 then 1 else 0;
      assert !BlockAgrees(data, cache, o, st.meta.blockSize);
      assert !Coherent(Reopened(st, p, data, writeTime, 0), p);
    }
  }

  /* ---- requests that reach behind their window ---- */

  ghost predicate ReadAsked(st: State, p: Path, junk: seq<byte>, behind: seq<byte>, bs: nat, nasSize: nat,
                            offset: nat, size: nat) {
    && Readied(st, p, size, offset, junk, behind) && Coherent(st, p)
    && st.meta.blockSize == bs && |st.nas[p].data| == nasSize
  }

  /** Every read of this shape, of a file of this size, in every coherent state and whatever lies
      behind the buffer. */
  ghost predicate ReadAlwaysRight(bs: nat, nasSize: nat, offset: nat, size: nat)
    requires bs > 0
  {
    forall st: State, p: Path, junk: seq<byte>, behind: seq<byte>, now: nat ::
      ReadAsked(st, p, junk, behind, bs, nasSize, offset, size)
      && Read(st, p, size, offset, junk, behind, now).Returns?
      ==> HandsBackPlain(st, p, size, offset, Read(st, p, size, offset, junk, behind, now).buf)
  }

  predicate HandsBackPlain(st: State, p: Path, size: nat, offset: nat, buf: seq<byte>)
    requires p in st.nas
  {
    var plain := Pread(st.nas[p].data, size, offset);
    |plain| <= |buf| && buf[..|plain|] == plain
  }

  /** A read hands back the file's bytes, whatever is tracked and whatever memory holds, exactly when
      it asks for nothing, lies inside its window, or the file ends with the window at the latest. */
  lemma ReadSafeExactly(bs: nat, nasSize: nat, offset: nat, size: nat)
    requires bs > 0
    ensures ReadAlwaysRight(bs, nasSize, offset, size) <==> ReadCovers(nasSize, offset, size, bs)
  {
    if ReadCovers(nasSize, offset, size, bs) {
      forall st: State, p: Path, junk: seq<byte>, behind: seq<byte>, now: nat |
        ReadAsked(st, p, junk, behind, bs, nasSize, offset, size)
        && Read(st, p, size, offset, junk, behind, now).Returns?
        ensures HandsBackPlain(st, p, size, offset, Read(st, p, size, offset, junk, behind, now).buf)
      {
        ReadIsRight(st, p, size, offset, junk, behind, now);
      }
    } else {
      ReadBeyondWindow(bs, nasSize, offset, size);
    }
  }

  /** The file cached in full, blocks of the window tracked. */
  function Twin(bs: nat, bytes: seq<byte>, blocks: set<nat>): State {
    State(1, map[SAMPLE := File(bytes, 0)], map[SAMPLE := File(bytes, 0)],
      M.Meta(bs, map[SAMPLE := M.Row(|bytes|, 0, blocks)], 0), {SAMPLE}, map[SAMPLE := []], 0)
  }

  lemma TwinIsCoherent(bs: nat, bytes: seq<byte>, lower: nat, n: nat)
    requires bs > 0 && lower % bs == 0
    ensures var st := Twin(bs, bytes, M.SetOf(Offsets(lower, n, bs)));
            Valid(st) && SAMPLE in st.open && Flatten(SAMPLE) == SAMPLE && Coherent(st, SAMPLE)
  {
    assert Flatten(SAMPLE) == SAMPLE by {
      SlashlessFixed("f");
    }
    OffsetsAligned(lower, n, bs);
  }

  /** The byte behind the window comes from memory and not from the file. */
  lemma ReadBeyondWindow(bs: nat, nasSize: nat, offset: nat, size: nat)
    requires bs > 0 && size > 0 && !WindowFits(offset, size, bs)
    requires nasSize > AlignLower(offset, bs) + AlignedSize(size, bs)
    ensures !ReadAlwaysRight(bs, nasSize, offset, size)
  {
    hide Read, Coherent, Flatten;
    var lower, aligned := AlignLower(offset, bs), AlignedSize(size, bs);
    var n := aligned / bs;
    AlignedPositive(size, bs);
    var junk, behind := Zeros(aligned), Ones(bs + size);
    var st := Twin(bs, Zeros(nasSize), M.SetOf(Offsets(lower, n, bs)));
    TwinIsCoherent(bs, Zeros(nasSize), lower, n);
    ReadReturns(st, SAMPLE, size, offset, junk, behind, 0);
    assert M.SetOf(Offsets(lower, n, bs)) - Blocks(st, SAMPLE) == {};
    var buf, ret, st' := ReadBuffer(st, SAMPLE, size, offset, junk, behind, 0);
    var r := Read(st, SAMPLE, size, offset, junk, behind, 0);
    var k := lower + aligned - offset;
    assert r.buf[k] == (buf + behind)[aligned] == behind[0] == 1;
    assert Pread(Zeros(nasSize), size, offset)[k] == 0;
    assert !HandsBackPlain(st, SAMPLE, size, offset, r.buf);
    assert ReadAsked(st, SAMPLE, junk, behind, bs, nasSize, offset, size);
  }

  /* ---- a mount with another block size ---- */

  /** Whatever the two files hold. */
  ghost predicate RemountAlwaysSafe(tracked: set<nat>, bs: nat, bs': nat)
    requires bs > 0 && bs' > 0
  {
    forall nas: seq<byte>, cache: seq<byte> :: Agree(nas, cache, tracked, bs) ==> Agree(nas, cache, tracked, bs')
  }

  /** Mounting with another block size keeps the cache right exactly when the blocks of the new size
      that the table will call hits lie in tracked blocks of the old one. */
  lemma RemountSafeExactly(tracked: set<nat>, bs: nat, bs': nat)
    requires bs > 0 && bs' > 0
    ensures RemountAlwaysSafe(tracked, bs, bs') <==> Regrouped(tracked, bs, bs')
  {
    if Regrouped(tracked, bs, bs') {
      forall nas: seq<byte>, cache: seq<byte> | Agree(nas, cache, tracked, bs)
        ensures Agree(nas, cache, tracked, bs')
      {
        RegroupAgrees(nas, cache, tracked, bs, bs');
      }
    } else {
      var o, x :| o in tracked && o % bs' == 0 && o <= x < o + bs' && AlignLower(x, bs) !in tracked;
      NeverFetched(tracked, bs, bs', o, x);
    }
  }

  /** A byte of an untracked block that the new size counts to a tracked one. */
  lemma NeverFetched(tracked: set<nat>, bs: nat, bs': nat, o: nat, x: nat)
    requires bs > 0 && bs' > 0
    requires o in tracked && o % bs' == 0 && o <= x < o + bs' && AlignLower(x, bs) !in tracked
    ensures !RemountAlwaysSafe(tracked, bs, bs')
  {
    hide AlignLower;
    var gap := AlignLower(x, bs);
    var nas, cache := Zeros(x + 1), Zeros(gap) + Ones(x + 1 - gap);
    forall t | t in tracked && t % bs == 0
      ensures BlockAgrees(nas, cache, t, bs)
    {
      OutsideGap(nas, cache, gap, t, bs);
    }
    assert nas[x] == 0 && cache[x] == 1;
    assert !BlockAgrees(nas, cache, o, bs');
    assert Agree(nas, cache, tracked, bs) && !Agree(nas, cache, tracked, bs');
  }

  lemma OutsideGap(nas: seq<byte>, cache: seq<byte>, gap: nat, o: nat, bs: nat)
    requires bs > 0 && gap % bs == 0 && o % bs == 0 && o != gap
    requires gap < |nas| <= gap + bs && |cache| == |nas|
    requires forall i :: 0 <= i < gap ==> cache[i] == nas[i]
    ensures BlockAgrees(nas, cache, o, bs)
  {
    if o < gap {
      BlockGap(o, gap, bs);
    } else {
      BlockGap(gap, o, bs);
    }
  }

  /** Whatever is tracked under one block size, a mount with another is safe exactly when that is
      no larger. */
  lemma RemountSafeForAll(bs: nat, bs': nat)
    requires bs > 0 && bs' > 0
    ensures (forall tracked: set<nat> | (forall o :: o in tracked ==> o % bs == 0) ::
               RemountAlwaysSafe(tracked, bs, bs')) <==> bs' <= bs
  {
    if bs' <= bs {
      forall tracked: set<nat> | forall o :: o in tracked ==> o % bs == 0
        ensures RemountAlwaysSafe(tracked, bs, bs')
      {
        SmallerRegroups(tracked, bs, bs');
        RemountSafeExactly(tracked, bs, bs');
      }
    } else {
      OffsetInBlock(0, bs);
      NeverFetched({0}, bs, bs', 0, bs);
    }
  }

  lemma SmallerRegroups(tracked: set<nat>, bs: nat, bs': nat)
    requires 0 < bs' <= bs && forall o :: o in tracked ==> o % bs == 0
    ensures Regrouped(tracked, bs, bs')
  {
    forall o, x | o in tracked && o % bs' == 0 && o <= x < o + bs'
      ensures AlignLower(x, bs) == o
    {
      SameBlock(AlignLower(x, bs), o, x, bs);
    }
  }

  /* ---- shared cache names ---- */

  /** The first read of a block through a cache of one-byte blocks. */
  lemma ByteMissed(st: State, p: Path, junk: seq<byte>, now: nat)
    requires Valid(st) && p in st.open && st.meta.blockSize == |junk| == 1 && !Full(st)
    requires Blocks(st, p) == {} && |st.nas[p].data| >= 1
    ensures WindowFits(0, 1, 1) && AlignedSize(1, 1) == 1
    ensures Read(st, p, 1, 0, junk, [], now)
         == Returns(Store(st, p, [st.nas[p].data[0]], 0, now), [st.nas[p].data[0]], 1)
  {
    hide Flatten, Store, M.SetOf;
    var byte0 := [st.nas[p].data[0]];
    var hits := M.Hits(st.meta, Flatten(p), [0]);
    assert Offsets(0, 1, 1) == [0] && hits == [false];
    assert Span(1, 1) == 1 + Span(0, 1);
    var chunk, n := FillStep(st, p, 0, hits, [], junk, 0, now);
    assert chunk == byte0 && [] + chunk == byte0;
    assert byte0[0..1] == byte0;
  }

  /** Every later one. */
  lemma ByteHit(st: State, p: Path, junk: seq<byte>, now: nat)
    requires Valid(st) && p in st.open && st.meta.blockSize == |junk| == 1
    requires 0 in Blocks(st, p) && |st.cache[Flatten(p)].data| >= 1
    ensures WindowFits(0, 1, 1) && AlignedSize(1, 1) == 1
    ensures Read(st, p, 1, 0, junk, [], now) == Returns(st, [st.cache[Flatten(p)].data[0]], 1)
  {
    hide Flatten;
    var byte0 := [st.cache[Flatten(p)].data[0]];
    assert Offsets(0, 1, 1) == [0] && M.Hits(st.meta, Flatten(p), [0]) == [true];
    assert Span(1, 1) == 1 + Span(0, 1);
    assert Overlay(junk, Pread(st.cache[Flatten(p)].data, 1, 0), 0) == byte0;
    assert byte0[0..1] == byte0;
  }

  /** Two files of one byte each, not the same, equally old. */
  function TwoFiles(p: Path, q: Path): State {
    State(1, map[p := File([0], 0), q := File([1], 0)], map[], M.Meta(1, map[], 0), {}, map[], 0)
  }

  /** On the way: the first file open, and its byte cached or not yet. */
  ghost predicate FirstOpen(st: State, p: Path, q: Path, cached: seq<byte>, blocks: set<nat>) {
    && Valid(st) && DatabaseApart(st) && st.open == {p} && st.nas == TwoFiles(p, q).nas && st.clock == 0
    && Flatten(p) in st.meta.files && Blocks(st, p) == blocks && st.meta.blockSize == 1
    && st.cache == map[Flatten(p) := File(cached, 0)] && (blocks == {} ==> !Full(st))
  }

  lemma SharedOpen(p: Path, q: Path) returns (st1: State)
    requires p != q && !Reserved(Flatten(p))
    ensures var st, step := TwoFiles(p, q), DoOpen(p, 0);
            Initial(st) && Enabled(st, step) && st1 == Apply(st, step)
    ensures FirstOpen(st1, p, q, [], {})
  {
    hide Flatten, Reserved;
    st1 := Apply(TwoFiles(p, q), DoOpen(p, 0));
  }

  lemma SharedRead(st1: State, p: Path, q: Path) returns (st2: State)
    requires p != q && FirstOpen(st1, p, q, [], {})
    ensures var step := DoRead(p, 1, 0, [0], [], 0);
            Enabled(st1, step) && st2 == Apply(st1, step)
    ensures FirstOpen(st2, p, q, [0], {0})
  {
    hide Flatten, Reserved, Read;
    ByteMissed(st1, p, [0], 0);
    StoreEffect(st1, p, [0], 0, 0);
    StoreKeepsValid(st1, p, [0], 0, 0);
    st2 := Apply(st1, DoRead(p, 1, 0, [0], [], 0));
    assert Pwrite([], [0], 0) == [0];
  }

  lemma SharedReopen(st2: State, p: Path, q: Path) returns (st3: State)
    requires p != q && Flatten(p) == Flatten(q) && FirstOpen(st2, p, q, [0], {0})
    ensures Enabled(st2, DoOpen(q, 0)) && st3 == Apply(st2, DoOpen(q, 0))
    ensures st3 == st2.(open := {p, q}) && Valid(st3) && DatabaseApart(st3)
  {
    hide Flatten, Reserved;
    st3 := Apply(st2, DoOpen(q, 0));
    assert st2.open + {q} == {p, q};
  }

  lemma SharedReread(st3: State, p: Path, q: Path) returns (st4: State)
    requires p != q && Flatten(p) == Flatten(q)
    requires Valid(st3) && DatabaseApart(st3) && q in st3.open && st3.meta.blockSize == 1
        && st3.clock == 0
    requires 0 in Blocks(st3, q) && st3.cache[Flatten(p)].data == [0]
    ensures var step := DoRead(q, 1, 0, [0], [], 0);
            && Enabled(st3, step) && st4 == Apply(st3, step)
            && Read(st3, q, 1, 0, [0], [], 0).Returns? && Read(st3, q, 1, 0, [0], [], 0).buf == [0]
  {
    hide Flatten, Reserved, Read;
    ByteHit(st3, q, [0], 0);
    st4 := Apply(st3, DoRead(q, 1, 0, [0], [], 0));
  }

  /** The first file opened and read, then the second: it reads as the first. */
  lemma SharedNameRun(p: Path, q: Path, paths: iset<Path>) returns (trace: seq<State>, steps: seq<Step>)
    requires p != q && Flatten(p) == Flatten(q) && !Reserved(Flatten(p)) && p in paths && q in paths
    ensures IsTrace(trace, steps, paths) && |steps| == 4 && steps[3].DoRead?
    ensures Enabled(trace[3], steps[3]) && !ReadsPlain(trace, steps, 3)
  {
    hide Flatten, Reserved, Read, Open, Enabled, Act, Apply, Pread, PlainAfter;
    steps := [DoOpen(p, 0), DoRead(p, 1, 0, [0], [], 0), DoOpen(q, 0), DoRead(q, 1, 0, [0], [], 0)];
    var st1 := SharedOpen(p, q);
    var st2 := SharedRead(st1, p, q);
    var st3 := SharedReopen(st2, p, q);
    var st4 := SharedReread(st3, p, q);
    trace := [TwoFiles(p, q), st1, st2, st3, st4];
    assert StepAt(trace, steps, 0) && StepAt(trace, steps, 1) && StepAt(trace, steps, 2) && StepAt(trace, steps, 3);
    PlainStays(TwoFiles(p, q), steps);
    SecondByte(p, q);
    var buf: seq<byte> := Read(st3, q, 1, 0, [0], [], 0).buf;
    assert buf[..1][0] == 0;
  }

  lemma SecondByte(p: Path, q: Path)
    requires p != q
    ensures q in Contents(TwoFiles(p, q)) && Pread(Contents(TwoFiles(p, q))[q], 1, 0) == [1]
  {
  }

  lemma PlainStays(st: State, steps: seq<Step>)
    requires |steps| == 4 && steps[0].DoOpen? && steps[1].DoRead? && steps[2].DoOpen?
    ensures PlainAfter(Contents(st), steps[..3]) == Contents(st)
  {
    var nas := Contents(st);
    assert steps[..3][..2] == steps[..2] && steps[..2][..1] == steps[..1] && steps[..1][..0] == [];
    assert PlainAfter(nas, steps[..1]) == nas;
    assert PlainAfter(nas, steps[..2]) == nas;
  }

  /* ---- the database's own file ---- */

  /** One open of a path that flattens to the database's file is enough: the cached copy is that file. */
  lemma DatabaseOpened(p: Path, paths: iset<Path>) returns (trace: seq<State>, steps: seq<Step>)
    requires p in paths && Reserved(Flatten(p))
    ensures IsTrace(trace, steps, paths) && |trace| == 2 && !DatabaseApart(trace[1])
  {
    hide Flatten, Reserved;
    var st := State(1, map[p := File([0], 0)], map[], M.Meta(1, map[], 0), {}, map[], 0);
    steps := [DoOpen(p, 0)];
    trace := [st, Apply(st, steps[0])];
    assert StepAt(trace, steps, 0);
    assert Flatten(p) in trace[1].cache;
  }

  /** In every run on the given paths the database keeps its file to itself, and every read returns
      what it would without the cache. */
  ghost predicate Transparent(paths: iset<Path>) {
    forall trace: seq<State>, steps: seq<Step> :: IsTrace(trace, steps, paths) ==>
      && (forall i :: 0 <= i < |trace| ==> DatabaseApart(trace[i]))
      && (forall i :: 0 <= i < |steps| && steps[i].DoRead? ==>
            StepAt(trace, steps, i) && ReadsPlain(trace, steps, i))
  }

  /** The cache cannot be seen, in any run on the given paths, exactly when every one of them has a
      file of its own in the cache directory. */
  lemma TransparentExactly(paths: iset<Path>)
    ensures Transparent(paths) <==> OwnNames(paths)
  {
    hide ReadsPlain, Apply, Reserved, Flatten;
    if OwnNames(paths) {
      forall trace: seq<State>, steps: seq<Step> | IsTrace(trace, steps, paths)
        ensures forall i :: 0 <= i < |trace| ==> DatabaseApart(trace[i])
        ensures forall i :: 0 <= i < |steps| && steps[i].DoRead? ==>
                  StepAt(trace, steps, i) && ReadsPlain(trace, steps, i)
      {
        OwnNamesSuffice(trace, steps, paths);
      }
    } else if p: Path :| p in paths && Reserved(Flatten(p)) {
      var trace, steps := DatabaseOpened(p, paths);
      assert IsTrace(trace, steps, paths) && !DatabaseApart(trace[1]);
    } else {
      var p, q :| p in paths && q in paths && Flatten(p) == Flatten(q) && p != q;
      var trace, steps := SharedNameRun(p, q, paths);
      assert IsTrace(trace, steps, paths) && 3 < |steps| && steps[3].DoRead?;
    }
  }

  lemma OwnNamesSuffice(trace: seq<State>, steps: seq<Step>, paths: iset<Path>)
    requires IsTrace(trace, steps, paths) && OwnNames(paths)
    ensures forall i :: 0 <= i < |trace| ==> DatabaseApart(trace[i])
    ensures forall i :: 0 <= i < |steps| && steps[i].DoRead? ==>
              StepAt(trace, steps, i) && ReadsPlain(trace, steps, i)
  {
    hide ReadsPlain, Enabled, Apply;
    assert IsRun(trace, steps, paths);
    forall i | 0 <= i < |trace|
      ensures DatabaseApart(trace[i])
    {
      InvAlways(trace, steps, paths, i);
    }
    forall i | 0 <= i < |steps| && steps[i].DoRead?
      ensures StepAt(trace, steps, i) && ReadsPlain(trace, steps, i)
    {
      CacheIsTransparent(trace, steps, paths, i);
    }
  }

  /* ---- counting past the end of file, see ReadCounts ---- */

  /** Reading a file shorter than a block twice: the first call counts the bytes of the file, the
      second the whole block, garbage included. */
  lemma ShortFileReadTwice(st: State, p: Path, junk: seq<byte>, junk2: seq<byte>, now: nat)
    requires Valid(st) && p in st.open && !Full(st) && Blocks(st, p) == {}
    requires |junk| == |junk2| == st.meta.blockSize && 0 < |st.nas[p].data| < st.meta.blockSize
    ensures st.meta.blockSize % st.meta.blockSize == 0
        && AlignedSize(st.meta.blockSize, st.meta.blockSize) == st.meta.blockSize
    ensures WindowFits(0, st.meta.blockSize, st.meta.blockSize)
    ensures var bs := st.meta.blockSize;
            var first := Read(st, p, bs, 0, junk, [], now);
            && first.Returns? && first.ret == |st.nas[p].data|
            && Valid(first.st) && p in first.st.open && first.st.meta.blockSize == bs
            && var second := Read(first.st, p, bs, 0, junk2, [], now);
               second.Returns? && second.ret == bs
  {
    var bs := st.meta.blockSize;
    MultipleMod(1, bs);
    WindowFitsAligned(0, bs, bs);
    assert Offsets(0, 1, bs) == [0];
    assert Span(1, bs) == bs + Span(0, bs);
    var chunk := Overlay(junk, Pread(st.nas[p].data, bs, 0), 0);
    StoreEffect(st, p, chunk, 0, now);
    var st1 := Store(st, p, chunk, 0, now);
    var hits := M.Hits(st.meta, Flatten(p), [0]);
    assert hits == [false];
    assert junk[..bs] == junk && [] + chunk == chunk;
    assert Fill(st, p, 0, hits, [], junk, 0, now)
        == Fill(st1, p, bs, hits[1..], chunk, junk[bs..], |st.nas[p].data|, now);
    assert M.Hits(st1.meta, Flatten(p), [0]) == [true];
  }
}
