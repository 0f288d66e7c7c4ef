/** iozone's read tests on libasync: a whole file, record after record, up or down. */
module AsyncScan {
  import opened Posix
  import opened AsyncEntry
  import opened AsyncCache
  import R = ReadAhead
  import S = Scans

  function RecordStart(i: nat, reclen: nat): nat { i * reclen }

  /** The keys of a file's records. */
  function Records(fd: int, reclen: nat, numrecs: nat): seq<R.Key> {
    seq(numrecs, i requires 0 <= i => R.Key(fd, i * reclen, reclen))
  }

  function RecordsDown(fd: int, reclen: nat, numrecs: nat): seq<R.Key> {
    seq(numrecs, i requires 0 <= i => R.Key(fd, (numrecs - 1 - i) * reclen, reclen))
  }

  /** What the caller gets: the bytes the file has there. */
  predicate HoldsRecord(file: seq<byte>, reclen: nat, offset: nat, got: seq<byte>) {
    var record := Pread(file, reclen, offset);
    |record| <= |got| == reclen && got[..|record|] == record
  }

  /** At none of these moments was the list too long, or a record in it twice. */
  ghost predicate AllBounded(moments: seq<seq<R.Key>>, maxDepth: int) {
    forall l :: l in moments ==> R.NoDuplicates(l) && |l| <= maxDepth
  }

  /** The loop of the read test.  Every record reaches the caller's buffer; each is read from the file
      once, in order, and nothing is left in flight; the list never holds more entries than maxDepth, or
      two for the same record, not even in the middle of a call. */
  method ReadFile(c: Cache, fd: int, reclen: nat, numrecs: nat, depth: int, nbuff: array<byte>)
      returns (got: seq<seq<byte>>)
    requires c.Valid() && c.list == [] && 1 <= reclen == nbuff.Length
    modifies c, nbuff
    ensures c.Valid() && c.list == []
    ensures c.trail.submitted == old(c.trail.submitted) + Records(fd, reclen, numrecs)
    ensures old(c.trail.moments) <= c.trail.moments
    ensures c.maxDepth >= 1 ==> AllBounded(c.trail.moments[|old(c.trail.moments)|..], c.maxDepth)
    ensures |got| == numrecs
    ensures forall i :: 0 <= i < numrecs ==> HoldsRecord(c.disk(fd), reclen, RecordStart(i, reclen), got[i])
  {
    hide InScan, AllBounded, Records, HoldsRecord, Cache.Valid;
    ghost var s := S.Scan(fd, reclen, 0, 1, numrecs * reclen, depth, c.maxDepth);
    ghost var before := c.trail;
    NothingRead(s, before);
    got := [];
    var i := 0;
    while i < numrecs
      invariant 0 <= i == |got| <= numrecs
      invariant forall k :: 0 <= k < |c.list| ==> fresh(c.list[k])
      invariant c.Valid() && InScan(s, i, Keys(c.list), before, c.trail)
      invariant forall j :: 0 <= j < i ==> HoldsRecord(c.disk(fd), reclen, RecordStart(j, reclen), got[j])
    {
      S.RecordUp(s, numrecs, 0);
      S.RecordUp(s, numrecs, i);
      ghost var was := c.list;
      assert forall e :: e in was ==> fresh(e);
      ReadRecord(c, s, i, before, R.Request(fd, RecordStart(i, reclen), reclen, 1, numrecs * reclen, depth), nbuff);
      forall k | 0 <= k < |c.list|
        ensures fresh(c.list[k])
      {
        assert c.list[k] in c.list;
      }
      got := got + [nbuff[..]];
      i := i + 1;
    }
    AllReadUp(s, numrecs, Keys(c.list), before, c.trail);
  }

  /** The loop of the backward read test, from the last record down.  Every record reaches the caller's
      buffer; each is read from the file once, in descending order, and nothing is left in flight; the
      list keeps the same bounds. */
  method ReadBackward(c: Cache, fd: int, reclen: nat, numrecs: nat, depth: int, nbuff: array<byte>)
      returns (got: seq<seq<byte>>)
    requires c.Valid() && c.list == [] && 1 <= reclen == nbuff.Length
    modifies c, nbuff
    ensures c.Valid() && c.list == []
    ensures c.trail.submitted == old(c.trail.submitted) + RecordsDown(fd, reclen, numrecs)
    ensures old(c.trail.moments) <= c.trail.moments
    ensures c.maxDepth >= 1 ==> AllBounded(c.trail.moments[|old(c.trail.moments)|..], c.maxDepth)
    ensures |got| == numrecs
    ensures forall i :: 0 <= i < numrecs ==>
              HoldsRecord(c.disk(fd), reclen, RecordStart(numrecs - 1 - i, reclen), got[i])
  {
    hide InScan, AllBounded, RecordsDown, HoldsRecord, Cache.Valid;
    ghost var s := S.Scan(fd, reclen, (numrecs - 1) * reclen, -1, numrecs * reclen, depth, c.maxDepth);
    ghost var before := c.trail;
    NothingRead(s, before);
    got := [];
    var i := 0;
    while i < numrecs
      invariant 0 <= i == |got| <= numrecs
      invariant forall k :: 0 <= k < |c.list| ==> fresh(c.list[k])
      invariant c.Valid() && InScan(s, i, Keys(c.list), before, c.trail)
      invariant forall j :: 0 <= j < i ==> HoldsRecord(c.disk(fd), reclen, RecordStart(numrecs - 1 - j, reclen), got[j])
    {
      S.RecordDown(s, numrecs, 0);
      S.RecordDown(s, numrecs, i);
      ghost var was := c.list;
      assert forall e :: e in was ==> fresh(e);
      var offset := RecordStart(numrecs - 1 - i, reclen);
      ReadRecord(c, s, i, before, R.Request(fd, offset, reclen, -1, numrecs * reclen, depth), nbuff);
      forall k | 0 <= k < |c.list|
        ensures fresh(c.list[k])
      {
        assert c.list[k] in c.list;
      }
      got := got + [nbuff[..]];
      i := i + 1;
    }
    AllReadDown(s, numrecs, Keys(c.list), before, c.trail);
  }

  /** Where the scan that began at `before` has come to before record `n`. */
  ghost predicate InScan(s: S.Scan, n: nat, keys: seq<R.Key>, before: R.Trail, trail: R.Trail) {
    && before.submitted <= trail.submitted && before.moments <= trail.moments
    && S.ScannedSoFar(s, n, keys, trail.submitted[|before.submitted|..])
    && (s.maxDepth >= 1 ==> AllBounded(trail.moments[|before.moments|..], s.maxDepth))
  }

  lemma NothingRead(s: S.Scan, before: R.Trail)
    ensures InScan(s, 0, [], before, before)
  {
  }

  method ReadRecord(c: Cache, ghost s: S.Scan, ghost n: nat, ghost before: R.Trail, r: R.Request, nbuff: array<byte>)
    requires c.Valid() && InScan(s, n, Keys(c.list), before, c.trail) && nbuff.Length == r.size
    requires S.Proper(s) && S.InRange(s, 0) && S.InRange(s, n) && r == S.Call(s, n)
    requires s.maxDepth == c.maxDepth && r.offset >= 0
    modifies c, c.list, nbuff
    ensures c.Valid() && InScan(s, n + 1, Keys(c.list), before, c.trail)
    ensures forall e :: e in c.list ==> e in old(c.list) || fresh(e)
    ensures HoldsRecord(c.disk(r.fd), r.size, r.offset, nbuff[..])
  {
    hide InScan, S.InRange, S.Call, S.ScannedSoFar, Follows, Keys, Cache.Valid;
    ghost var keys, trail := Keys(c.list), c.trail;
    InScanStep(s, n, keys, before, trail);
    var retval, tailLost := c.AsyncRead(r, nbuff);
    StepLogged(s, n, keys, before, trail, Keys(c.list), c.trail);
  }

  lemma InScanStep(s: S.Scan, n: nat, keys: seq<R.Key>, before: R.Trail, trail: R.Trail)
    requires S.Proper(s) && S.InRange(s, 0) && S.InRange(s, n) && InScan(s, n, keys, before, trail)
    ensures !R.TakesTail(keys, S.Call(s, n))
  {
    S.ScanStep(s, n, keys, trail.submitted[|before.submitted|..]);
  }

  lemma StepLogged(s: S.Scan, n: nat, keys: seq<R.Key>, before: R.Trail, trail: R.Trail, keysAfter: seq<R.Key>,
                   after: R.Trail)
    requires S.Proper(s) && S.InRange(s, 0) && S.InRange(s, n) && InScan(s, n, keys, before, trail)
    requires Follows(keys, trail, S.Call(s, n), s.maxDepth, keysAfter, after)
    ensures InScan(s, n + 1, keysAfter, before, after)
  {
    hide R.AsyncRead, R.Growth, R.NoDuplicates, S.ScannedSoFar, S.InRange, S.Call;
    var o := R.AsyncRead(keys, S.Call(s, n), s.maxDepth);
    S.ScanStep(s, n, keys, trail.submitted[|before.submitted|..]);
    if s.maxDepth >= 1 {
      R.GrowthBounded(o.peak, |o.submitted|, s.maxDepth);
    }
    assert after.submitted[|before.submitted|..] == trail.submitted[|before.submitted|..] + o.submitted;
    assert after.moments[|before.moments|..] == trail.moments[|before.moments|..] + R.Growth(o.peak, |o.submitted|);
  }

  lemma AllRead(s: S.Scan, n: nat, keys: seq<R.Key>, before: R.Trail, trail: R.Trail)
    requires S.Proper(s) && !S.InRange(s, n) && (n > 0 ==> S.InRange(s, 0) && S.InRange(s, n - 1))
    requires InScan(s, n, keys, before, trail)
    ensures keys == []
    ensures trail.submitted == before.submitted + seq(n, i requires 0 <= i < n => S.BlockKey(s, i))
    ensures before.moments <= trail.moments
    ensures s.maxDepth >= 1 ==> AllBounded(trail.moments[|before.moments|..], s.maxDepth)
  {
    hide S.ScannedSoFar, S.Offset, S.InRange, R.NoDuplicates;
    S.WholeFile(s, n, keys, trail.submitted[|before.submitted|..]);
  }

  lemma AllReadUp(s: S.Scan, numrecs: nat, keys: seq<R.Key>, before: R.Trail, trail: R.Trail)
    requires S.Upwards(s, numrecs) && InScan(s, numrecs, keys, before, trail)
    ensures keys == [] && trail.submitted == before.submitted + Records(s.fd, s.size, numrecs)
    ensures before.moments <= trail.moments
    ensures s.maxDepth >= 1 ==> AllBounded(trail.moments[|before.moments|..], s.maxDepth)
  {
    hide InScan, S.Offset, S.InRange, AllBounded;
    S.RecordUp(s, numrecs, numrecs);
    if numrecs > 0 {
      S.RecordUp(s, numrecs, 0);
      S.RecordUp(s, numrecs, numrecs - 1);
    }
    AllRead(s, numrecs, keys, before, trail);
    forall i | 0 <= i < numrecs
      ensures S.BlockKey(s, i) == R.Key(s.fd, i * s.size, s.size)
    {
      S.RecordUp(s, numrecs, i);
    }
    assert Records(s.fd, s.size, numrecs) == seq(numrecs, i requires 0 <= i < numrecs => S.BlockKey(s, i));
  }

  lemma AllReadDown(s: S.Scan, numrecs: nat, keys: seq<R.Key>, before: R.Trail, trail: R.Trail)
    requires S.Downwards(s, numrecs) && InScan(s, numrecs, keys, before, trail)
    ensures keys == [] && trail.submitted == before.submitted + RecordsDown(s.fd, s.size, numrecs)
    ensures before.moments <= trail.moments
    ensures s.maxDepth >= 1 ==> AllBounded(trail.moments[|before.moments|..], s.maxDepth)
  {
    hide InScan, S.Offset, S.InRange, AllBounded;
    S.RecordDown(s, numrecs, numrecs);
    if numrecs > 0 {
      S.RecordDown(s, numrecs, 0);
      S.RecordDown(s, numrecs, numrecs - 1);
    }
    AllRead(s, numrecs, keys, before, trail);
    forall i | 0 <= i < numrecs
      ensures S.BlockKey(s, i) == R.Key(s.fd, (numrecs - 1 - i) * s.size, s.size)
    {
      S.RecordDown(s, numrecs, i);
    }
    assert RecordsDown(s.fd, s.size, numrecs) == seq(numrecs, i requires 0 <= i < numrecs => S.BlockKey(s, i));
  }
}
