/** A file read from one end to the other, in either direction, through the read-ahead policy. */
module Scans {
  import opened ReadAhead

  /** Call `n` asks for the block `n` strides on from `start`; a stride below 0 reads downwards. */
  datatype Scan = Scan(fd: int, size: nat, start: int, stride: int, max: int, depth: int, maxDepth: int)

  predicate Proper(s: Scan) {
    s.size >= 1 && s.stride != 0
  }

  /** How many blocks the scan keeps in flight: the depth asked for, but less than maxDepth. */
  function Reach(s: Scan): nat {
    if s.depth <= 0 || s.maxDepth <= 1 then 0 else if s.depth < s.maxDepth then s.depth else s.maxDepth - 1
  }

  lemma ReachIs(s: Scan)
    ensures Clip(s.depth, s.maxDepth) == Reach(s) || (Clip(s.depth, s.maxDepth) <= 0 && Reach(s) == 0)
  {
  }

  /** `n` steps of `stride * size` bytes from the start. */
  function Offset(s: Scan, n: nat): int {
    if n == 0 then s.start else Offset(s, n - 1) + s.stride * s.size
  }

  predicate InRange(s: Scan, n: nat) { 0 <= Offset(s, n) && Offset(s, n) + s.size <= s.max }

  /** The way the scan goes. */
  predicate Onward(s: Scan, a: int, b: int) { if s.stride > 0 then a < b else b < a }

  function BlockKey(s: Scan, n: nat): Key { Key(s.fd, Offset(s, n), s.size) }

  function Call(s: Scan, n: nat): Request {
    Request(s.fd, Offset(s, n), s.size, s.stride, s.max, s.depth)
  }

  /** The blocks `from`, `from + 1`, ... , at most `count` of them, that lie in the file. */
  function Blocks(s: Scan, from: nat, count: nat): (keys: seq<Key>)
    ensures |keys| <= count
    decreases count
  {
    if count == 0 || !InRange(s, from) then [] else [BlockKey(s, from)] + Blocks(s, from + 1, count - 1)
  }

  lemma StepSign(s: Scan)
    requires Proper(s)
    ensures s.stride > 0 ==> s.stride * s.size >= 1
    ensures s.stride < 0 ==> s.stride * s.size <= -1
  {
    if s.stride > 0 {
      assert (s.stride - 1) * s.size >= 0;
    } else {
      assert (-1 - s.stride) * s.size >= 0;
    }
  }

  lemma {:induction false} OffsetStep(s: Scan, n: nat, i: nat)
    requires Proper(s)
    ensures Offset(s, n) + i * (s.stride * s.size) == Offset(s, n + i)
    ensures i >= 1 ==> Onward(s, Offset(s, n), Offset(s, n + i))
    decreases i
  {
    var step := s.stride * s.size;
    StepSign(s);
    if i > 0 {
      OffsetStep(s, n, i - 1);
      assert i * step == (i - 1) * step + step;
    }
  }

  lemma OffsetMoves(s: Scan, n: nat, m: nat)
    requires Proper(s) && n <= m
    ensures n < m ==> Onward(s, Offset(s, n), Offset(s, m))
  {
    OffsetStep(s, n, m - n);
  }

  /** Between two blocks in the file lie only blocks in the file. */
  lemma Between(s: Scan, a: nat, b: nat, c: nat)
    requires Proper(s) && a <= b <= c && InRange(s, a) && InRange(s, c)
    ensures InRange(s, b)
  {
    hide Offset;
    OffsetMoves(s, a, b);
    OffsetMoves(s, b, c);
  }

  lemma AheadKeyIs(s: Scan, n: nat, i: nat)
    requires Proper(s)
    ensures AheadKey(Call(s, n), i) == BlockKey(s, n + 1 + i)
  {
    OffsetStep(s, n, i + 1);
  }

  lemma {:induction false} BlocksAt(s: Scan, from: nat, count: nat)
    requires Proper(s)
    ensures var keys := Blocks(s, from, count);
            && (forall j :: 0 <= j < |keys| ==> keys[j] == BlockKey(s, from + j) && InRange(s, from + j))
            && (|keys| < count ==> !InRange(s, from + |keys|))
    decreases count
  {
    if count > 0 && InRange(s, from) {
      BlocksAt(s, from + 1, count - 1);
      var keys, rest := Blocks(s, from, count), Blocks(s, from + 1, count - 1);
      forall j | 0 <= j < |keys|
        ensures keys[j] == BlockKey(s, from + j) && InRange(s, from + j)
      {
        assert j > 0 ==> keys[j] == rest[j - 1];
      }
    }
  }

  /** Blocks come in the order of the scan, so none is in the list twice. */
  lemma BlocksMove(s: Scan, from: nat, count: nat)
    requires Proper(s)
    ensures var keys := Blocks(s, from, count);
            forall i, j :: 0 <= i < j < |keys| ==> Onward(s, keys[i].offset, keys[j].offset)
  {
    BlocksAt(s, from, count);
    var keys := Blocks(s, from, count);
    forall i, j | 0 <= i < j < |keys|
      ensures Onward(s, keys[i].offset, keys[j].offset)
    {
      OffsetMoves(s, from + i, from + j);
    }
  }

  lemma BlocksFirst(s: Scan, from: nat, count: nat)
    requires count >= 1 && InRange(s, from)
    ensures Blocks(s, from, count) == [BlockKey(s, from)] + Blocks(s, from + 1, count - 1)
  {
  }

  /** One more block at the end, if it lies in the file; `n` is a block before that does. */
  lemma {:induction false} BlocksMore(s: Scan, n: nat, from: nat, count: nat)
    requires Proper(s) && n <= from && InRange(s, n)
    ensures Blocks(s, from, count + 1) ==
            Blocks(s, from, count) + if InRange(s, from + count) then [BlockKey(s, from + count)] else []
    decreases count
  {
    if InRange(s, from) {
      if count > 0 {
        BlocksMore(s, n, from + 1, count - 1);
      }
    } else if InRange(s, from + count) {
      Between(s, n, from, from + count);
    }
  }

  lemma BlockReached(s: Scan, from: nat, count: nat, i: nat)
    requires Proper(s)
    ensures i < |Blocks(s, from, count)| ==> InRange(s, from + i)
  {
    if i < |Blocks(s, from, count)| {
      BlocksAt(s, from, count);
      assert Blocks(s, from, count)[i] == BlockKey(s, from + i);
    }
  }

  lemma PrefixInRange(s: Scan, n: nat, from: nat, count: nat, i: nat)
    requires Proper(s) && n <= from && InRange(s, n) && i < count && InRange(s, from + i)
    ensures i < |Blocks(s, from, count)|
  {
    BlocksAt(s, from, count);
    var m := |Blocks(s, from, count)|;
    if m <= i {
      Between(s, n, from + m, from + i);
    }
  }

  /** A turn for a block already in flight, or out of the file, submits nothing. */
  lemma BehindIsThere(s: Scan, n: nat, pre: seq<Key>, i: nat, c: nat)
    requires Proper(s) && InRange(s, n) && i < c
    ensures !Issues(pre + Blocks(s, n + 1, c), Call(s, n), i)
  {
    hide Offset;
    AheadKeyIs(s, n, i);
    if InRange(s, n + 1 + i) {
      var blocks := Blocks(s, n + 1, c);
      PrefixInRange(s, n, n + 1, c, i);
      BlocksAt(s, n + 1, c);
      assert blocks[i] in pre + blocks;
    }
  }

  /** Nothing but the block asked for. */
  predicate OnlyWanted(s: Scan, n: nat, pre: seq<Key>) { pre == [] || pre == [BlockKey(s, n)] }

  lemma NextIsIssued(s: Scan, n: nat, pre: seq<Key>, c: nat)
    requires Proper(s) && OnlyWanted(s, n, pre)
    ensures Issues(pre + Blocks(s, n + 1, c), Call(s, n), c) <==> InRange(s, n + 1 + c)
  {
    hide Offset;
    AheadKeyIs(s, n, c);
    OffsetMoves(s, n, n + 1 + c);
    BlocksAt(s, n + 1, c);
    var behind := Blocks(s, n + 1, c);
    forall j | 0 <= j < |behind|
      ensures behind[j] != BlockKey(s, n + 1 + c)
    {
      OffsetMoves(s, n + 1 + j, n + 1 + c);
    }
  }

  /** The turns for the blocks already there. */
  lemma {:induction false} AheadSkips(s: Scan, n: nat, pre: seq<Key>, i: nat, c: nat, depth: nat)
    requires Proper(s) && InRange(s, n) && i <= c <= depth
    ensures var keys := pre + Blocks(s, n + 1, c);
            Ahead(keys, Call(s, n), i, depth) == Ahead(keys, Call(s, n), c, depth)
    decreases c - i
  {
    hide AheadKey, Offset, Issues;
    if i < c {
      var keys := pre + Blocks(s, n + 1, c);
      BehindIsThere(s, n, pre, i, c);
      AheadTurn(keys, keys, Call(s, n), i, depth);
      AheadSkips(s, n, pre, i + 1, c, depth);
    }
  }

  /** One more block, or the end of the file. */
  lemma AheadAdds(s: Scan, n: nat, pre: seq<Key>, c: nat, depth: nat)
    requires Proper(s) && InRange(s, n) && OnlyWanted(s, n, pre) && c < depth
    ensures Ahead(pre + Blocks(s, n + 1, c), Call(s, n), c, depth)
        == Ahead(pre + Blocks(s, n + 1, c + 1), Call(s, n), c + 1, depth)
  {
    hide AheadKey, Offset, Issues, OnlyWanted;
    var keys, more := pre + Blocks(s, n + 1, c), pre + Blocks(s, n + 1, c + 1);
    AheadKeyIs(s, n, c);
    NextIsIssued(s, n, pre, c);
    BlocksMore(s, n, n + 1, c);
    AheadTurn(keys, more, Call(s, n), c, depth);
  }

  lemma {:induction false} AheadFills(s: Scan, n: nat, pre: seq<Key>, i: nat, c: nat, depth: nat, out: seq<Key>)
    requires Proper(s) && InRange(s, n) && OnlyWanted(s, n, pre) && i <= c <= depth
    requires out == Ahead(pre + Blocks(s, n + 1, c), Call(s, n), i, depth)
    ensures out == pre + Blocks(s, n + 1, depth)
    decreases depth - c
  {
    hide AheadKey, Offset, Issues;
    AheadSkips(s, n, pre, i, c, depth);
    if c < depth {
      AheadAdds(s, n, pre, c, depth);
      AheadFills(s, n, pre, c + 1, c + 1, depth, out);
    }
  }

  /** What holds after call `n` of a scan that started with nothing in flight. */
  ghost predicate Scanned(s: Scan, n: nat, keys: seq<Key>, submitted: seq<Key>) {
    keys == Blocks(s, n + 1, Reach(s)) && submitted == Blocks(s, 0, n + 1 + Reach(s))
  }

  /** A call that finds nothing in flight. */
  lemma ScanMisses(s: Scan, n: nat)
    requires Proper(s) && InRange(s, n)
    ensures var o := AsyncRead([], Call(s, n), s.maxDepth);
            && o.keys == Blocks(s, n + 1, Reach(s))
            && o.submitted == [BlockKey(s, n)] + Blocks(s, n + 1, Reach(s))
  {
    hide AheadKey, Issues, Ahead, Offset, Reach;
    ReachIs(s);
    var depth, first := Clip(s.depth, s.maxDepth), [BlockKey(s, n)];
    assert Wanted(Call(s, n)) == BlockKey(s, n);
    if depth >= 1 {
      assert first + Blocks(s, n + 1, 0) == first;
      AheadFills(s, n, first, 0, 0, depth, Ahead(first, Call(s, n), 0, depth));
    } else {
      NoTurns(first, Call(s, n), 0, depth);
      assert Blocks(s, n + 1, 0) == [] && first + [] == first;
    }
  }

  lemma ScanStarts(s: Scan)
    requires Proper(s) && InRange(s, 0)
    ensures var o := AsyncRead([], Call(s, 0), s.maxDepth);
            Scanned(s, 0, o.keys, o.submitted)
  {
    hide AsyncRead, Reach;
    ScanMisses(s, 0);
    BlocksFirst(s, 0, 1 + Reach(s));
  }

  /** The whole read-ahead of a call that has all but the last block in flight already. */
  lemma AheadTopsUp(s: Scan, n: nat)
    requires Proper(s) && InRange(s, n) && Reach(s) >= 1
    ensures AheadAll(Blocks(s, n + 1, Reach(s) - 1), Call(s, n), s.maxDepth) == Blocks(s, n + 1, Reach(s))
  {
    hide AheadKey, Offset, Issues, Ahead, Reach;
    ReachIs(s);
    var depth := Clip(s.depth, s.maxDepth);
    var base, all := Blocks(s, n + 1, depth - 1), Blocks(s, n + 1, depth);
    assert [] + base == base && [] + all == all;
    var i := if |base| > 1 then depth - 1 else 0;
    AheadFills(s, n, [], i, depth - 1, depth, Ahead(base, Call(s, n), i, depth));
  }

  /** Every call after the first finds its block at the head of the list and submits at most
      the one block that comes into reach; without read-ahead it submits its own. */
  lemma ScanGoesOn(s: Scan, n: nat, keys: seq<Key>, submitted: seq<Key>)
    requires Proper(s) && n >= 1 && InRange(s, 0) && InRange(s, n)
    requires Scanned(s, n - 1, keys, submitted)
    ensures if Reach(s) >= 1 then keys != [] && keys[0] == Wanted(Call(s, n)) else keys == []
    ensures var o := AsyncRead(keys, Call(s, n), s.maxDepth);
            && Scanned(s, n, o.keys, submitted + o.submitted)
            && |o.submitted| <= 1
  {
    hide AheadKey, Offset, Ahead, AheadAll, Blocks, AsyncRead, Find, Reach;
    var depth := Reach(s);
    BlocksMore(s, 0, 0, n + depth);
    if depth >= 1 {
      var base, all := Blocks(s, n + 1, depth - 1), Blocks(s, n + 1, depth);
      BlocksFirst(s, n, depth);
      HitAtHead(keys, Call(s, n), s.maxDepth);
      assert keys[1..] == base;
      AheadTopsUp(s, n);
      BlocksMore(s, n, n + 1, depth - 1);
      var last := if InRange(s, n + depth) then [BlockKey(s, n + depth)] else [];
      assert all[|base|..] == last;
    } else {
      NoBlocks(s, n);
      NoBlocks(s, n + 1);
      ScanMisses(s, n);
    }
  }

  lemma NoBlocks(s: Scan, from: nat)
    ensures Blocks(s, from, 0) == []
  {
  }

  function Calls(s: Scan, n: nat): (calls: seq<Request>)
    ensures |calls| == n
  {
    seq(n, i requires 0 <= i => Call(s, i))
  }

  /** A whole scan, from nothing in flight. */
  lemma {:induction false} ScanProceeds(s: Scan, n: nat)
    requires Proper(s) && InRange(s, 0) && InRange(s, n)
    ensures Scanned(s, n, AfterCalls([], Calls(s, n + 1), s.maxDepth), Submissions([], Calls(s, n + 1), s.maxDepth))
    decreases n
  {
    hide AheadKey, Offset, Scanned, AsyncRead;
    var calls := Calls(s, n + 1);
    assert calls[..n] == Calls(s, n) && calls[n] == Call(s, n);
    if n == 0 {
      ScanStarts(s);
      assert Calls(s, 0) == [];
      var o := AsyncRead([], Call(s, 0), s.maxDepth);
      assert [] + o.submitted == o.submitted;
    } else {
      Between(s, 0, n - 1, n);
      ScanProceeds(s, n - 1);
      ScanGoesOn(s, n, AfterCalls([], Calls(s, n), s.maxDepth), Submissions([], Calls(s, n), s.maxDepth));
    }
  }

  lemma BlocksHold(s: Scan, n: nat, count: nat, keys: seq<Key>)
    requires Proper(s) && InRange(s, 0) && InRange(s, n) && n < count && keys == Blocks(s, 0, count)
    ensures NoDuplicates(keys)
    ensures forall m :: 0 <= m <= n ==> BlockKey(s, m) in keys
  {
    hide Offset;
    BlocksMove(s, 0, count);
    BlocksAt(s, 0, count);
    forall m | 0 <= m <= n
      ensures BlockKey(s, m) in keys
    {
      Between(s, 0, m, n);
      PrefixInRange(s, 0, 0, count, m);
      assert keys[m] == BlockKey(s, m);
    }
  }

  /** What that says: the list is the next blocks of the file in the order of the scan, as many as the
      depth allows; every block asked for has been submitted, and none was submitted twice. */
  lemma ScannedMeans(s: Scan, n: nat, keys: seq<Key>, submitted: seq<Key>)
    requires Proper(s) && InRange(s, 0) && InRange(s, n) && Scanned(s, n, keys, submitted)
    ensures keys == Blocks(s, n + 1, Reach(s))
    ensures forall i, j :: 0 <= i < j < |keys| ==> Onward(s, keys[i].offset, keys[j].offset)
    ensures NoDuplicates(submitted)
    ensures forall i, j :: 0 <= i < j < |submitted| ==> Onward(s, submitted[i].offset, submitted[j].offset)
    ensures forall m :: 0 <= m <= n ==> BlockKey(s, m) in submitted
  {
    BlocksMove(s, n + 1, Reach(s));
    BlocksMove(s, 0, n + 1 + Reach(s));
    BlocksHold(s, n, n + 1 + Reach(s), submitted);
  }

  /** No call of a scan takes the last entry off a longer list. */
  lemma ScanSparesTail(s: Scan, n: nat)
    requires Proper(s) && InRange(s, 0) && InRange(s, n)
    ensures SparesTail(Calls(s, n + 1), s.maxDepth)
  {
    hide AsyncRead, Offset, InRange, Reach;
    var calls := Calls(s, n + 1);
    forall m | 0 <= m < |calls|
      ensures !TakesTail(AfterCalls([], calls[..m], s.maxDepth), calls[m])
    {
      assert calls[..m] == Calls(s, m) && calls[m] == Call(s, m);
      if m > 0 {
        Between(s, 0, m - 1, n);
        Between(s, 0, m, n);
        ScanProceeds(s, m - 1);
        ScanGoesOn(s, m, AfterCalls([], Calls(s, m), s.maxDepth), Submissions([], Calls(s, m), s.maxDepth));
      }
    }
  }

  /* ---- a whole file ---- */

  /** What holds before call `n`. */
  ghost predicate ScannedSoFar(s: Scan, n: nat, keys: seq<Key>, submitted: seq<Key>) {
    if n == 0 then keys == [] && submitted == [] else Scanned(s, n - 1, keys, submitted)
  }

  lemma ScanStep(s: Scan, n: nat, keys: seq<Key>, submitted: seq<Key>)
    requires Proper(s) && InRange(s, 0) && InRange(s, n) && ScannedSoFar(s, n, keys, submitted)
    ensures !TakesTail(keys, Call(s, n))
    ensures var o := AsyncRead(keys, Call(s, n), s.maxDepth);
            && ScannedSoFar(s, n + 1, o.keys, submitted + o.submitted)
            && (s.maxDepth >= 1 ==> NoDuplicates(o.peak) && |o.peak| <= s.maxDepth)
  {
    hide AsyncRead, Scanned;
    if n == 0 {
      ScanStarts(s);
      assert [] + AsyncRead([], Call(s, 0), s.maxDepth).submitted == AsyncRead([], Call(s, 0), s.maxDepth).submitted;
    } else {
      ScanGoesOn(s, n, keys, submitted);
    }
    if s.maxDepth >= 1 {
      ScannedFits(s, n, keys, submitted);
      ReadBounded(keys, Call(s, n), s.maxDepth);
    }
  }

  lemma ScannedFits(s: Scan, n: nat, keys: seq<Key>, submitted: seq<Key>)
    requires Proper(s) && s.maxDepth >= 1 && ScannedSoFar(s, n, keys, submitted)
    ensures NoDuplicates(keys) && |keys| <= s.maxDepth
  {
    hide Offset, Blocks;
    if n > 0 {
      BlocksMove(s, n, Reach(s));
      assert keys == Blocks(s, n, Reach(s));
      assert forall i, j :: 0 <= i < j < |keys| ==> Onward(s, keys[i].offset, keys[j].offset);
    }
  }

  /** The scan of a file of `n` records: in the end nothing is in flight, and every record was submitted
      once, in order. */
  lemma WholeFile(s: Scan, n: nat, keys: seq<Key>, submitted: seq<Key>)
    requires Proper(s) && !InRange(s, n) && (n > 0 ==> InRange(s, 0) && InRange(s, n - 1))
    requires ScannedSoFar(s, n, keys, submitted)
    ensures keys == [] && submitted == seq(n, i requires 0 <= i < n => BlockKey(s, i))
  {
    hide Offset;
    if n > 0 {
      var count := n + Reach(s);
      BlocksAt(s, 0, count);
      PrefixInRange(s, 0, 0, count, n - 1);
      BlockReached(s, 0, count, n);
    }
  }

  /** Records side by side from the first one up. */
  predicate Upwards(s: Scan, records: nat) {
    s.size >= 1 && s.start == 0 && s.stride == 1 && s.max == records * s.size
  }

  /** And from the last one down. */
  predicate Downwards(s: Scan, records: nat) {
    s.size >= 1 && s.start == (records - 1) * s.size && s.stride == -1 && s.max == records * s.size
  }

  lemma RecordUp(s: Scan, records: nat, n: nat)
    requires Upwards(s, records)
    ensures Offset(s, n) == n * s.size
    ensures InRange(s, n) <==> n < records
  {
    hide Offset;
    OffsetStep(s, 0, n);
    NoOffset(s);
    assert s.stride * s.size == s.size by {
      OneStride(s.size);
    }
    Times(n + 1, records, s.size);
    Times(records, n, s.size);
    assert (n + 1) * s.size == n * s.size + s.size;
  }

  lemma RecordDown(s: Scan, records: nat, n: nat)
    requires Downwards(s, records)
    ensures Offset(s, n) == (records - 1 - n) * s.size
    ensures InRange(s, n) <==> n < records
  {
    hide Offset;
    OffsetStep(s, 0, n);
    NoOffset(s);
    assert s.stride * s.size == 0 - s.size by {
      OneStride(s.size);
    }
    var left := records - 1 - n;
    assert (records - 1) * s.size - n * s.size == left * s.size by {
      Minus(records - 1, n, s.size);
    }
    Times(0, left, s.size);
    Times(left, -1, s.size);
    Times(left + 1, records, s.size);
    assert (left + 1) * s.size == left * s.size + s.size;
  }

  lemma Minus(a: int, b: int, c: nat)
    ensures a * c - b * c == (a - b) * c
  {
  }

  lemma NoOffset(s: Scan)
    ensures Offset(s, 0) == s.start
  {
  }

  lemma OneStride(size: nat)
    ensures 1 * size == size && -1 * size == 0 - size
  {
  }

  lemma Times(a: int, b: int, c: nat)
    ensures a <= b ==> a * c <= b * c
  {
    if a <= b {
      assert 0 <= (b - a) * c;
    }
  }
}
