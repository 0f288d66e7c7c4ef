/** The read loop on an array, turn by turn the recursion CacheModel.Fill. */
module FillSteps {
  import opened Posix
  import opened PathName
  import Model = CacheModel

  /** One block read over the buffer, seen by the part already filled and the part ahead. */
  lemma BlockRead(before: seq<byte>, after: seq<byte>, got: seq<byte>, at: nat, bs: nat)
    requires at + bs <= |before| && |got| <= bs && after == Overlay(before, got, at)
    ensures after[at..at + bs] == Overlay(before[at..][..bs], got, 0)
    ensures after[..at + bs] == before[..at] + Overlay(before[at..][..bs], got, 0)
    ensures after[at + bs..] == before[at..][bs..]
  {
    var block, chunk := before[at..][..bs], after[at..at + bs];
    assert after == before[..at] + got + before[at + |got|..];
    assert chunk == got + before[at + |got|..at + bs];
    assert block[|got|..] == before[at + |got|..at + bs];
    assert after[..at + bs] == after[..at] + chunk && after[..at] == before[..at];
    assert after[at + bs..] == before[at + bs..] == before[at..][bs..];
  }

  /** `f` is what the loop will come to from block `i` on. */
  ghost predicate Pending(f: Model.Outcome, st: Model.State, p: Path, o: nat, hits: seq<bool>, i: nat,
                          buf: seq<byte>, at: nat, ret: nat, now: nat) {
    && Model.Readable(st, p) && i <= |hits| && at <= |buf|
    && |buf| - at == Model.Span(|hits| - i, st.meta.blockSize)
    && f == Model.Fill(st, p, o, hits[i..], buf[..at], buf[at..], ret, now)
  }

  lemma PendingBlock(f: Model.Outcome, st: Model.State, p: Path, o: nat, hits: seq<bool>, i: nat,
                     buf: seq<byte>, at: nat, ret: nat, now: nat)
    requires Pending(f, st, p, o, hits, i, buf, at, ret, now) && i < |hits|
    ensures at + st.meta.blockSize <= |buf|
  {
  }

  /** One turn of the loop on the array is one turn of the model's recursion. */
  lemma FillOnce(st: Model.State, p: Path, o: nat, hits: seq<bool>, i: nat, before: seq<byte>,
                 after: seq<byte>, at: nat, ret: nat, now: nat)
    requires Model.Readable(st, p) && i < |hits| && at + st.meta.blockSize <= |before|
    requires |before| - at == Model.Span(|hits| - i, st.meta.blockSize)
    requires after == Overlay(before, Pread(Model.Source(st, p, hits[i]), st.meta.blockSize, o), at)
    ensures var bs := st.meta.blockSize;
            var got := |Pread(Model.Source(st, p, hits[i]), bs, o)|;
            Model.Fill(st, p, o, hits[i..], before[..at], before[at..], ret, now) ==
              if !hits[i] && Model.Full(st) then Model.Spins(st)
              else
                var st1 := if hits[i] then st else Model.Store(st, p, after[at..at + bs], o, now);
                Model.Fill(st1, p, o + bs, hits[i + 1..],
                              after[..at + bs], after[at + bs..], ret + got, now)
  {
    hide Pread, Overlay, Model.Source, Model.Full, Model.Store, Flatten;
    var bs := st.meta.blockSize;
    BlockRead(before, after, Pread(Model.Source(st, p, hits[i]), bs, o), at, bs);
    assert hits[i..][1..] == hits[i + 1..];
  }

  lemma PendingTurn(f: Model.Outcome, st: Model.State, p: Path, o: nat, hits: seq<bool>, i: nat,
                    before: seq<byte>, at: nat, ret: nat, now: nat,
                    st1: Model.State, o1: nat, i1: nat, after: seq<byte>, at1: nat, ret1: nat)
    requires Pending(f, st, p, o, hits, i, before, at, ret, now) && i < |hits| && at + st.meta.blockSize <= |before|
    requires var bs := st.meta.blockSize;
             var got := Pread(Model.Source(st, p, hits[i]), bs, o);
             && after == Overlay(before, got, at)
             && (hits[i] || !Model.Full(st))
             && st1 == (if hits[i] then st else Model.Store(st, p, after[at..at + bs], o, now))
             && o1 == o + bs && i1 == i + 1 && at1 == at + bs && ret1 == ret + |got|
    ensures Pending(f, st1, p, o1, hits, i1, after, at1, ret1, now)
  {
    hide Pread, Overlay, Model.Source, Model.Full, Model.Store, Model.Fill, Flatten;
    FillOnce(st, p, o, hits, i, before, after, at, ret, now);
  }

  lemma PendingStarts(f: Model.Outcome, st: Model.State, p: Path, o: nat, hits: seq<bool>, buf: seq<byte>, now: nat)
    requires Model.Readable(st, p) && |buf| == Model.Span(|hits|, st.meta.blockSize)
    requires f == Model.Fill(st, p, o, hits, [], buf, 0, now)
    ensures Pending(f, st, p, o, hits, 0, buf, 0, 0, now)
  {
    assert hits[0..] == hits && buf[..0] == [] && buf[0..] == buf;
  }

  lemma PendingStop(f: Model.Outcome, st: Model.State, p: Path, o: nat, hits: seq<bool>, i: nat,
                    buf: seq<byte>, at: nat, ret: nat, now: nat)
    requires Pending(f, st, p, o, hits, i, buf, at, ret, now) && i < |hits| && !hits[i] && Model.Full(st)
    ensures f == Model.Spins(st)
  {
  }

  lemma PendingDone(f: Model.Outcome, st: Model.State, p: Path, o: nat, hits: seq<bool>, buf: seq<byte>, at: nat,
                    ret: nat, now: nat)
    requires Pending(f, st, p, o, hits, |hits|, buf, at, ret, now)
    ensures f == Model.Returns(st, buf, ret)
  {
    assert buf[..at] == buf;
  }
}

/** cachefs.c in its own form: an object whose methods change the NAS, the cache directory and the
    metadata database in place, with the loops of the C code.  Every method is proved to take the
    state where CacheModel says.  `done` is false when the C call would never return. */
module CacheFs {
  import opened Posix
  import opened CacheHelp
  import opened PathName
  import Meta = Metadata
  import M = MetaModel
  import Model = CacheModel
  import opened FillSteps

  /** pread(2) into a buffer at an index. */
  method PreadInto(data: seq<byte>, size: nat, off: nat, buf: array<byte>, at: nat) returns (n: nat)
    requires at + size <= buf.Length
    modifies buf
    ensures n == |Pread(data, size, off)|
    ensures buf[..] == Overlay(old(buf[..]), Pread(data, size, off), at)
  {
    var got := Pread(data, size, off);
    n := |got|;
    var i := 0;
    while i < n
      invariant 0 <= i <= n
      invariant forall k :: 0 <= k < buf.Length ==> buf[k] == if at <= k < at + i then got[k - at] else old(buf[k])
    {
      buf[at + i] := got[i];
      i := i + 1;
    }
  }

  /** The offsets of the blocks of a window, one by one into an array. */
  method FillOffsets(lower: nat, n: nat, bs: nat) returns (offsets: array<nat>)
    ensures fresh(offsets) && offsets[..] == Offsets(lower, n, bs)
  {
    offsets := new nat[n];
    var i := 0;
    while i < n
      invariant 0 <= i <= n
      invariant forall k :: 0 <= k < i ==> offsets[k] == lower + bs * k
    {
      offsets[i] := lower + bs * i;
      i := i + 1;
    }
  }

  /** malloc, with what the memory held. */
  method NewBuffer(junk: seq<byte>) returns (buf: array<byte>)
    ensures fresh(buf) && buf.Length == |junk| && buf[..] == junk
  {
    buf := new byte[|junk|](i requires 0 <= i < |junk| => junk[i]);
  }

  method Memcpy(buf: array<byte>, data: seq<byte>)
    requires |data| <= buf.Length
    modifies buf
    ensures buf[..] == Overlay(old(buf[..]), data, 0)
  {
    assert Pread(data, |data|, 0) == data;
    var _ := PreadInto(data, |data|, 0, buf, 0);
  }

  class CacheFs {
    const capacity: nat
    const db: Meta.Database
    var nas: map<Path, File>
    var cache: map<string, File>
    var open: set<Path>

    /** The state this object is in; the clock is the environment's. */
    ghost var state: Model.State

    ghost predicate Holds()
      reads this, db
    {
      && db.Valid() && state.meta.blockSize == db.blockSize
      && state == Model.State(capacity, nas, cache, db.contents, open, state.fetched, state.clock)
    }

    ghost predicate Valid()
      reads this, db
    {
      Holds() && Model.Valid(state)
    }

    constructor (capacity: nat, blockSize: nat, nas: map<Path, File>)
      requires blockSize > 0
      ensures Valid() && fresh(db)
      ensures state == Model.State(capacity, nas, map[], M.Meta(blockSize, map[], 0), {}, map[], 0)
    {
      this.capacity, this.nas := capacity, nas;
      cache, open := map[], {};
      db := new Meta.Database(blockSize);
      state := Model.State(capacity, nas, map[], M.Meta(blockSize, map[], 0), {}, map[], 0);
    }

    /** Mounting again: a new process finds the NAS, the cache directory and the database as the last
        one left them, and is given sizes of its own. */
    constructor Remount(previous: CacheFs, blockSize: nat, capacity: nat)
      requires previous.Valid() && previous.open == {} && blockSize > 0
      ensures Valid() && fresh(db)
      ensures var st := previous.state;
              state == st.(capacity := capacity, meta := M.InitCacheUsedSize(M.Meta(blockSize, st.meta.files, 0)))
    {
      this.capacity, nas, cache, open := capacity, previous.nas, previous.cache, {};
      db := new Meta.Database.Reopen(previous.db, blockSize);
      var st := previous.state;
      state := st.(capacity := capacity, meta := M.InitCacheUsedSize(M.Meta(blockSize, st.meta.files, 0)));
    }

    /** cfs_cacheWrite of `size` bytes of `buf` from index `at` on.  A full cache is waited out in
        a loop that changes nothing. */
    method CacheWrite(name: string, buf: array<byte>, at: nat, size: nat, offset: nat, now: nat) returns (done: bool)
      requires Holds() && db.blockSize > 0 && name in cache && at + size <= buf.Length
      modifies this`cache, this`state, db
      ensures Holds()
      ensures done <==> !Model.Full(old(state))
      ensures state == if done then Model.CacheWrite(old(state), name, buf[at..at + size], offset, now) else old(state)
    {
      var numberBlocks := size / db.blockSize;
      var offsetArray := FillOffsets(offset, numberBlocks, db.blockSize);
      if db.cacheUsedSize >= capacity * 1024 {
        return false;
      }
      var chunk := buf[at..at + size];
      assert |chunk| / state.meta.blockSize == numberBlocks;
      db.WriteBlks(name, offsetArray);
      cache := cache[name := WriteFile(cache[name], chunk, offset, now)];
      state := Model.CacheWrite(state, name, chunk, offset, now);
      assert state.meta == db.contents && state.cache == cache;
      done := true;
    }

    method Open(p: Path, now: nat) returns (ok: bool)
      requires Valid()
      modifies this`cache, this`open, this`state, db
      ensures Holds() && state == Model.Open(old(state), p, now)
      ensures ok <==> p in nas
    {
      hide Flatten;
      var name := Flatten(p);
      var presentInCache := db.IsFileInCache(name);
      if p !in nas {
        if presentInCache {
          Purge(name);
        }
        return false;
      }
      if presentInCache && cache[name].mtime < nas[p].mtime {
        Purge(name);
        presentInCache := false;
      }
      if !presentInCache {
        var _ := db.CreateFile(name, |nas[p].data|);
        cache := cache[name := File([], now)];
        state := Model.Make(state, name, |nas[p].data|, now);
      }
      open := open + {p};
      state := state.(open := open);
      ok := true;
    }

    method Purge(name: string)
      requires Holds()
      modifies this`cache, this`state, db
      ensures Holds() && state == Model.Purge(old(state), name)
    {
      var _ := db.DeleteFile(name);
      cache := cache - {name};
      state := Model.Purge(state, name);
    }

    /** cfs_read into the caller's buffer; `behind` is what memory holds after the aligned buffer, for
        requests that reach there. */
    method Read(p: Path, buf: array<byte>, size: nat, offset: nat, junk: seq<byte>, behind: seq<byte>, now: nat)
        returns (done: bool, ret: nat)
      requires Valid() && Model.Readied(state, p, size, offset, junk, behind) && size <= buf.Length
      modifies this`cache, this`state, db, buf
      ensures Holds()
      ensures var r := Model.Read(old(state), p, size, offset, junk, behind, now);
              && state == r.st
              && (done <==> r.Returns?)
              && (done ==> buf[..size] == r.buf && ret == r.ret)
      ensures buf[size..] == old(buf[size..])
    {
      hide Model.FillWindow, Model.Read, M.Hits, Offsets, Flatten;
      var bs := db.blockSize;
      var lowerOffset, alignedSize := AlignLower(offset, bs), AlignedSize(size, bs);
      var numberBlocks := alignedSize / bs;
      var hitYN, dataHit := MakeBitmap(Flatten(p), lowerOffset, numberBlocks);
      var cacheBuf := NewBuffer(junk);
      Model.ReadIsWindow(state, p, size, offset, junk, behind, now);
      done, ret := ReadWindow(p, lowerOffset, hitYN, dataHit, cacheBuf, now);
      if done {
        var memory := NewBuffer(cacheBuf[..] + behind);
        Copy(memory, offset - lowerOffset, buf, size);
      }
    }

    /** Which blocks of the window are in the cache, and whether all are. */
    method MakeBitmap(name: string, lowerOffset: nat, numberBlocks: nat) returns (hitYN: array<bool>, dataHit: bool)
      requires Holds()
      ensures fresh(hitYN) && hitYN.Length == numberBlocks
      ensures hitYN[..] == M.Hits(state.meta, name, Offsets(lowerOffset, numberBlocks, db.blockSize))
      ensures dataHit <==> forall i :: 0 <= i < hitYN.Length ==> hitYN[i]
    {
      var offsetArray := FillOffsets(lowerOffset, numberBlocks, db.blockSize);
      hitYN := new bool[numberBlocks];
      dataHit := db.AreBlocksInCache(name, offsetArray, hitYN);
    }

    /** The aligned buffer filled from the cache in one read, or block by block. */
    method ReadWindow(p: Path, lowerOffset: nat, hitYN: array<bool>, dataHit: bool, cacheBuf: array<byte>, now: nat)
        returns (done: bool, ret: nat)
      requires Valid() && p in open && cacheBuf.Length == Model.Span(hitYN.Length, db.blockSize)
      requires dataHit <==> forall i :: 0 <= i < hitYN.Length ==> hitYN[i]
      modifies this`cache, this`state, db, cacheBuf
      ensures Holds()
      ensures var f := Model.FillWindow(old(state), p, lowerOffset, hitYN[..], old(cacheBuf[..]), now);
              && state == f.st && (done <==> f.Returns?)
              && (done ==> cacheBuf[..] == f.buf && ret == f.ret)
    {
      hide Model.Fill, Overlay, Pread, Flatten;
      ghost var hits := hitYN[..];
      if dataHit {
        assert forall i :: 0 <= i < |hits| ==> hits[i];
        ret := PreadInto(cache[Flatten(p)].data, cacheBuf.Length, lowerOffset, cacheBuf, 0);
        done := true;
      } else {
        assert exists i :: 0 <= i < |hits| && !hits[i];
        done, ret := FillLoop(p, lowerOffset, hitYN, cacheBuf, now);
      }
    }

    /** The block-by-block branch of cfs_read. */
    method FillLoop(p: Path, lowerOffset: nat, hitYN: array<bool>, cacheBuf: array<byte>, now: nat)
        returns (done: bool, ret: nat)
      requires Valid() && p in open && cacheBuf.Length == Model.Span(hitYN.Length, db.blockSize)
      modifies this`cache, this`state, db, cacheBuf
      ensures Holds()
      ensures var f := Model.Fill(old(state), p, lowerOffset, hitYN[..], [], old(cacheBuf[..]), 0, now);
              && state == f.st && (done <==> f.Returns?)
              && (done ==> cacheBuf[..] == f.buf && ret == f.ret)
    {
      hide Pread, Overlay, Model.Source, Model.Full, Model.Store, Model.Fill, Flatten, Pending;
      var bs, n := db.blockSize, hitYN.Length;
      ghost var hits := hitYN[..];
      ghost var f := Model.Fill(state, p, lowerOffset, hits, [], cacheBuf[..], 0, now);
      ret := 0;
      var i: nat, at: nat, o: nat := 0, 0, lowerOffset;
      PendingStarts(f, state, p, o, hits, cacheBuf[..], now);
      while i < n
        invariant 0 <= i <= n && hitYN[..] == hits
        invariant Valid() && p in open
        invariant Pending(f, state, p, o, hits, i, cacheBuf[..], at, ret, now)
      {
        ghost var st, o0, i0, before, at0, ret0 := state, o, i, cacheBuf[..], at, ret;
        PendingBlock(f, st, p, o, hits, i, before, at, ret, now);
        var got;
        done, got := FillBlock(p, o, hitYN[i], cacheBuf, at, now);
        if !done {
          PendingStop(f, st, p, o, hits, i, before, at, ret, now);
          return;
        }
        ret := ret + got;
        i, at, o := i + 1, at + bs, o + bs;
        PendingTurn(f, st, p, o0, hits, i0, before, at0, ret0, now, state, o, i, cacheBuf[..], at, ret);
      }
      PendingDone(f, state, p, o, hits, cacheBuf[..], at, ret, now);
      done := true;
    }

    /** One turn: the block read from the cache or from the NAS, and in that case stored. */
    method FillBlock(p: Path, o: nat, hit: bool, cacheBuf: array<byte>, at: nat, now: nat)
        returns (done: bool, got: nat)
      requires Valid() && p in open && at + db.blockSize <= cacheBuf.Length
      modifies this`cache, this`state, db, cacheBuf
      ensures Valid() && Model.Readable(old(state), p)
      ensures var st, bs := old(state), db.blockSize;
              var data := Pread(Model.Source(st, p, hit), bs, o);
              && got == |data| && cacheBuf[..] == Overlay(old(cacheBuf[..]), data, at)
              && (done <==> hit || !Model.Full(st))
              && state == if hit || !done then st else Model.Store(st, p, cacheBuf[at..at + bs], o, now)
    {
      if hit {
        got := PreadInto(cache[Flatten(p)].data, db.blockSize, o, cacheBuf, at);
        done := true;
      } else {
        got := PreadInto(nas[p].data, db.blockSize, o, cacheBuf, at);
        done := KeepBlock(p, o, cacheBuf, at, now);
      }
    }

    /** A block fetched from the NAS stored in the cache for later reads. */
    method KeepBlock(p: Path, o: nat, cacheBuf: array<byte>, at: nat, now: nat) returns (done: bool)
      requires Valid() && p in open && at + db.blockSize <= cacheBuf.Length
      modifies this`cache, this`state, db
      ensures Valid() && Model.Readable(old(state), p)
      ensures done <==> !Model.Full(old(state))
      ensures state == if done then Model.Store(old(state), p, cacheBuf[at..at + db.blockSize], o, now) else old(state)
    {
      hide Model.CacheWrite, Model.Store, Flatten, Model.Full;
      ghost var st, chunk := state, cacheBuf[at..at + db.blockSize];
      done := CacheWrite(Flatten(p), cacheBuf, at, db.blockSize, o, now);
      if done {
        Model.StoreKeepsValid(st, p, chunk, o, now);
        Model.StoreIsCacheWrite(st, p, chunk, o, now);
        state := Model.Store(st, p, chunk, o, now);
      }
    }

    /** memcpy of `size` bytes. */
    method Copy(source: array<byte>, from: nat, dest: array<byte>, size: nat)
      requires source != dest && from + size <= source.Length && size <= dest.Length
      modifies dest
      ensures dest[..size] == source[from..from + size] && dest[size..] == old(dest[size..])
    {
      var i := 0;
      while i < size
        invariant 0 <= i <= size
        invariant forall k :: 0 <= k < dest.Length ==> dest[k] == if k < i then source[from + k] else old(dest[k])
      {
        dest[i] := source[from + i];
        i := i + 1;
      }
    }

    method Write(p: Path, data: seq<byte>, offset: nat, junk: seq<byte>, nasTime: nat, cacheTime: nat)
        returns (done: bool, ret: nat)
      requires Valid() && p in open
      requires |junk| == AlignedSize(|data|, db.blockSize)
      modifies this`nas, this`cache, this`state, db
      ensures Holds()
      ensures var r := Model.Write(old(state), p, data, offset, junk, nasTime, cacheTime);
              && state == r.st && (done <==> r.Returns?) && (done ==> ret == r.ret)
    {
      nas := nas[p := WriteFile(nas[p], data, offset, nasTime)];
      ghost var before := state;
      state := state.(nas := nas);
      Model.ReadBackFits(before.nas[p].data, data, offset, db.blockSize);
      done := Refresh(p, AlignLower(offset, db.blockSize), junk, cacheTime);
      ret := |data|;
    }

    /** The window read back from the NAS and stored in the cache. */
    method Refresh(p: Path, lowerOffset: nat, junk: seq<byte>, now: nat) returns (done: bool)
      requires Holds() && db.blockSize > 0 && p in nas && Flatten(p) in cache
      requires |Pread(nas[p].data, Model.NasReadSize(|junk|, lowerOffset, |nas[p].data|), lowerOffset)| <= |junk|
      modifies this`cache, this`state, db
      ensures Holds()
      ensures done <==> !Model.Full(old(state))
      ensures var content := nas[p].data;
              var got := Pread(content, Model.NasReadSize(|junk|, lowerOffset, |content|), lowerOffset);
              var chunk := Overlay(junk, got, 0);
              state == if done then Model.CacheWrite(old(state), Flatten(p), chunk, lowerOffset, now) else old(state)
    {
      var content := nas[p].data;
      var got := Pread(content, Model.NasReadSize(|junk|, lowerOffset, |content|), lowerOffset);
      var cacheBuf := NewBuffer(junk);
      Memcpy(cacheBuf, got);
      assert cacheBuf[0..0 + |junk|] == cacheBuf[..];
      done := CacheWrite(Flatten(p), cacheBuf, 0, |junk|, lowerOffset, now);
    }

    method Ftruncate(p: Path, size: nat, cacheTime: nat, nasTime: nat)
      requires Valid() && p in open
      modifies this`nas, this`cache, this`state
      ensures Holds() && state == Model.Ftruncate(old(state), p, size, cacheTime, nasTime)
    {
      var name := Flatten(p);
      cache := cache[name := File(Truncate(cache[name].data, size), cacheTime)];
      nas := nas[p := File(Truncate(nas[p].data, size), nasTime)];
      state := Model.Ftruncate(state, p, size, cacheTime, nasTime);
    }

    method Release(p: Path, touched: bool, now: nat)
      requires Valid() && p in open
      modifies this`cache, this`open, this`state
      ensures Holds() && state == Model.Release(old(state), p, touched, now)
    {
      var name := Flatten(p);
      if touched {
        cache := cache[name := cache[name].(mtime := now)];
      }
      open := open - {p};
      state := Model.Release(state, p, touched, now);
    }

    method Mknod(p: Path, now: nat)
      requires Valid()
      modifies this`nas, this`state
      ensures Holds() && state == Model.Mknod(old(state), p, now)
    {
      if p !in nas {
        nas := nas[p := File([], now)];
      }
      state := Model.Mknod(state, p, now);
    }

    method Unlink(p: Path)
      requires Valid()
      modifies this`nas, this`cache, this`state, db
      ensures Holds() && state == Model.Unlink(old(state), p)
    {
      Purge(Flatten(p));
      nas := nas - {p};
      state := state.(nas := nas);
    }
  }
}
