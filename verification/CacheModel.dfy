/** The state of one mounted CacheFS and its file operations, as cachefs.c performs them.
    Path names, system calls, block arithmetic and the metadata routines come from the modules
    below; what the C code leaves to chance (the clock, the bytes of fresh memory) is an argument. */
module CacheModel {
  import opened Posix
  import opened CacheHelp
  import opened PathName
  import M = MetaModel

  /** `capacity` is cache_size in kilobytes; the cache directory and the metadata are keyed by
      flattened names, the NAS and the open handles by paths.  `fetched` records, for each cached
      file, the blocks read from the NAS to fill it since its row was made. */
  datatype State = State(
    capacity: nat,
    nas: map<Path, File>,
    cache: map<string, File>,
    meta: M.Meta,
    open: set<Path>,
    fetched: map<string, seq<nat>>,
    clock: nat)

  /** Every row has its file in the cache directory, and every handle its two files. */
  ghost predicate Valid(st: State) {
    && st.meta.blockSize > 0
    && st.cache.Keys == st.meta.files.Keys == st.fetched.Keys
    && forall p :: p in st.open ==> p in st.nas && Flatten(p) in st.cache
  }

  /** The condition under which cfs_cacheWrite loops: eviction is commented out, so forever. */
  predicate Full(st: State) {
    st.meta.used >= st.capacity * 1024
  }

  /** A call returns, or spins for ever in cfs_cacheWrite. */
  datatype Outcome =
    | Returns(st: State, buf: seq<byte>, ret: nat)
    | Spins(st: State)

  /* ---- cfs_cacheWrite, past its loop ---- */

  /** The metadata half is write_blks, which MetaModel.WriteBlksUpserts shows to be `Track`. */
  function CacheWrite(st: State, name: string, buf: seq<byte>, offset: nat, now: nat): (st': State)
    requires st.meta.blockSize > 0 && name in st.cache
    ensures st'.meta.blockSize == st.meta.blockSize && st'.meta.files.Keys == st.meta.files.Keys
    ensures st'.cache.Keys == st.cache.Keys && st'.nas == st.nas
  {
    var bs := st.meta.blockSize;
    st.(meta := M.Track(st.meta, name, M.SetOf(Offsets(offset, |buf| / bs, bs))),
        cache := st.cache[name := WriteFile(st.cache[name], buf, offset, now)])
  }

  /* ---- cfs_open ---- */

  function Purge(st: State, name: string): State {
    st.(meta := M.DeleteFile(st.meta, name), cache := st.cache - {name}, fetched := st.fetched - {name})
  }

  /** A new row and an empty cache file. */
  function Make(st: State, name: string, remoteSize: nat, now: nat): State {
    st.(meta := M.CreateFile(st.meta, name, remoteSize),
        cache := st.cache[name := File([], now)],
        fetched := st.fetched[name := []])
  }

  /** The cached copy is older than the NAS file by their modification times. */
  predicate Stale(st: State, p: Path)
    requires p in st.nas && Flatten(p) in st.cache
  {
    st.cache[Flatten(p)].mtime < st.nas[p].mtime
  }

  function Open(st: State, p: Path, now: nat): State
    requires st.meta.files.Keys == st.cache.Keys
  {
    var name := Flatten(p);
    if p !in st.nas then
      if name in st.meta.files then Purge(st, name) else st
    else
      var st1 := if name in st.meta.files && Stale(st, p) then Purge(st, name) else st;
      var st2 :=
        if name in st1.meta.files then st1
        else Make(st1, name, |st1.nas[p].data|, now);
      st2.(open := st2.open + {p})
  }

  /* ---- cfs_read ---- */

  /** What a read through an open handle relies on. */
  ghost predicate Readable(st: State, p: Path) {
    st.meta.blockSize > 0 && p in st.nas && Flatten(p) in st.cache && Flatten(p) in st.fetched
  }

  /** One missing block stored in the cache, as cfs_cacheWrite does it (StoreIsCacheWrite), and
      the fetch recorded. */
  function Store(st: State, p: Path, chunk: seq<byte>, offset: nat, now: nat): (st': State)
    requires Readable(st, p)
    ensures Readable(st', p) && st'.meta.blockSize == st.meta.blockSize
  {
    var name := Flatten(p);
    st.(meta := M.InsertBlock(st.meta, name, offset),
        cache := st.cache[name := WriteFile(st.cache[name], chunk, offset, now)],
        fetched := st.fetched[name := st.fetched[name] + [offset]])
  }

  lemma StoreIsCacheWrite(st: State, p: Path, chunk: seq<byte>, offset: nat, now: nat)
    requires Readable(st, p) && |chunk| == st.meta.blockSize
    ensures Store(st, p, chunk, offset, now)
         == CacheWrite(st, Flatten(p), chunk, offset, now).(fetched := Store(st, p, chunk, offset, now).fetched)
  {
    var name, bs := Flatten(p), st.meta.blockSize;
    MultipleMod(1, bs);
    assert Offsets(offset, 1, bs) == [offset];
    assert M.SetOf([offset]) == {offset};
    if name in st.meta.files {
      M.InsertIsWithBlocks(st.meta, name, offset);
    }
  }

  lemma StoreKeepsValid(st: State, p: Path, chunk: seq<byte>, offset: nat, now: nat)
    requires Valid(st) && p in st.open
    ensures Readable(st, p) && Valid(Store(st, p, chunk, offset, now))
  {
  }

  /** The bytes of `n` blocks. */
  function Span(n: nat, bs: nat): nat {
    if n == 0 then 0 else bs + Span(n - 1, bs)
  }

  lemma {:induction false} SpanIs(n: nat, bs: nat)
    ensures Span(n, bs) == bs * n
  {
    if n > 0 {
      SpanIs(n - 1, bs);
      assert bs * n == bs * (n - 1) + bs;
    }
  }

  /** The block-by-block loop from the block at `o` on: `hits` is what is left of the bitmap made
      before the loop began, `done` and `rest` are the two parts of the aligned buffer. */
  function Fill(st: State, p: Path, o: nat, hits: seq<bool>, done: seq<byte>, rest: seq<byte>, ret: nat,
                now: nat): (r: Outcome)
    requires Readable(st, p) && |rest| == Span(|hits|, st.meta.blockSize)
    ensures r.Returns? ==> |r.buf| == |done| + |rest|
    decreases |hits|
  {
    var bs := st.meta.blockSize;
    if hits == [] then Returns(st, done, ret)
    else
      var got := Pread(Source(st, p, hits[0]), bs, o);
      var chunk := Overlay(rest[..bs], got, 0);
      if hits[0] then Fill(st, p, o + bs, hits[1..], done + chunk, rest[bs..], ret + |got|, now)
      else if Full(st) then Spins(st)
      else Fill(Store(st, p, chunk, o, now), p, o + bs, hits[1..], done + chunk, rest[bs..], ret + |got|, now)
  }

  /** Where the loop reads a block from. */
  function Source(st: State, p: Path, hit: bool): seq<byte>
    requires Readable(st, p)
  {
    if hit then st.cache[Flatten(p)].data else st.nas[p].data
  }

  /** The aligned buffer filled: in one read when every block is a hit, else block by block. */
  function FillWindow(st: State, p: Path, lower: nat, hits: seq<bool>, junk: seq<byte>, now: nat): (r: Outcome)
    requires Readable(st, p) && |junk| == Span(|hits|, st.meta.blockSize)
    ensures r.Returns? ==> |r.buf| == |junk|
  {
    if forall i :: 0 <= i < |hits| ==> hits[i] then
      var got := Pread(st.cache[Flatten(p)].data, |junk|, lower);
      Returns(st, Overlay(junk, got, 0), |got|)
    else
      Fill(st, p, lower, hits, [], junk, 0, now)
  }

  /** What a read through an open handle is given: `junk` is what malloc left in the aligned buffer,
      `behind` what memory holds after it, where the final copy of `size` bytes may reach. */
  ghost predicate Readied(st: State, p: Path, size: nat, offset: nat, junk: seq<byte>, behind: seq<byte>) {
    && Valid(st) && p in st.open
    && |junk| == AlignedSize(size, st.meta.blockSize)
    && offset % st.meta.blockSize + size <= |junk| + |behind|
  }

  function Read(st: State, p: Path, size: nat, offset: nat, junk: seq<byte>, behind: seq<byte>, now: nat): (r: Outcome)
    requires Readied(st, p, size, offset, junk, behind)
    ensures r.Returns? ==> |r.buf| == size
  {
    var bs := st.meta.blockSize;
    var lower, n := AlignLower(offset, bs), |junk| / bs;
    SpanIs(n, bs);
    match FillWindow(st, p, lower, M.Hits(st.meta, Flatten(p), Offsets(lower, n, bs)), junk, now)
    case Returns(st', buf, ret) => Returns(st', (buf + behind)[offset - lower..offset - lower + size], ret)
    case Spins(st') => Spins(st')
  }

  lemma ReadIsWindow(st: State, p: Path, size: nat, offset: nat, junk: seq<byte>, behind: seq<byte>, now: nat)
    requires Readied(st, p, size, offset, junk, behind)
    ensures var bs, lower := st.meta.blockSize, AlignLower(offset, st.meta.blockSize);
            var hits := M.Hits(st.meta, Flatten(p), Offsets(lower, |junk| / bs, bs));
            && |junk| == Span(|hits|, bs) && 0 <= offset - lower && offset - lower + size <= |junk| + |behind|
            && var f, r := FillWindow(st, p, lower, hits, junk, now), Read(st, p, size, offset, junk, behind, now);
               && r.st == f.st && (r.Returns? <==> f.Returns?)
               && (r.Returns? ==> r.ret == f.ret && r.buf == (f.buf + behind)[offset - lower..offset - lower + size])
  {
    SpanIs(|junk| / st.meta.blockSize, st.meta.blockSize);
  }

  /* ---- cfs_write ---- */

  /** A difference of two file sizes as a size_t. */
  function Wrap(d: int): nat { if d >= 0 then d else d % 0x1_0000_0000_0000_0000 }

  /** How much of the window to read back, in size_t arithmetic: a NAS file ending before the
      window would wrap around. */
  function NasReadSize(aligned: nat, lower: nat, nasSize: nat): nat {
    if aligned + lower > nasSize then Wrap(nasSize - lower) else aligned
  }

  function Write(st: State, p: Path, data: seq<byte>, offset: nat, junk: seq<byte>, nasTime: nat,
                 cacheTime: nat): Outcome
    requires Valid(st) && p in st.open
    requires |junk| == AlignedSize(|data|, st.meta.blockSize)
  {
    var bs, name := st.meta.blockSize, Flatten(p);
    var lower, aligned := AlignLower(offset, bs), AlignedSize(|data|, bs);
    var st1 := st.(nas := st.nas[p := WriteFile(st.nas[p], data, offset, nasTime)]);
    var nas := st1.nas[p].data;
    var got := Pread(nas, NasReadSize(aligned, lower, |nas|), lower);
    ReadBackFits(st.nas[p].data, data, offset, bs);
    var buf := Overlay(junk, got, 0);
    if Full(st1) then Spins(st1)
    else Returns(CacheWrite(st1, name, buf, lower, cacheTime), [], |data|)
  }

  /** The read-back never overruns its buffer; and for a write of at least one byte the
      subtraction does not wrap, so it asks for exactly the window cut at the NAS end of file. */
  lemma ReadBackFits(old_: seq<byte>, data: seq<byte>, offset: nat, bs: nat)
    requires bs > 0
    ensures var lower, aligned := AlignLower(offset, bs), AlignedSize(|data|, bs);
            var nas := Pwrite(old_, data, offset);
            && |Pread(nas, NasReadSize(aligned, lower, |nas|), lower)| <= aligned
            && (data != [] ==> NasReadSize(aligned, lower, |nas|) == Min(aligned, |nas| - lower))
  {
  }

  /* ---- cfs_ftruncate, cfs_release, cfs_mknod, cfs_unlink ---- */

  function Ftruncate(st: State, p: Path, size: nat, cacheTime: nat, nasTime: nat): State
    requires Valid(st) && p in st.open
  {
    var name := Flatten(p);
    st.(cache := st.cache[name := File(Truncate(st.cache[name].data, size), cacheTime)],
        nas := st.nas[p := File(Truncate(st.nas[p].data, size), nasTime)])
  }

  /** `fallocate -d` keeps the bytes; it may touch the modification time. */
  function Release(st: State, p: Path, touched: bool, now: nat): State
    requires Valid(st) && p in st.open
  {
    var name := Flatten(p);
    st.(open := st.open - {p},
        cache := if touched then st.cache[name := st.cache[name].(mtime := now)] else st.cache)
  }

  function Mknod(st: State, p: Path, now: nat): State {
    if p in st.nas then st else st.(nas := st.nas[p := File([], now)])
  }

  function Unlink(st: State, p: Path): State {
    Purge(st, Flatten(p)).(nas := st.nas - {p})
  }
}
