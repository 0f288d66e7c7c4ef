/** The read-ahead policy of libasync's async_read, on the list of blocks it keeps in flight. */
module ReadAhead {

  /** What identifies a cache entry. */
  datatype Key = Key(fd: int, offset: int, size: nat)

  /** One call: `stride` is in units of `size`, `max` bounds the file. */
  datatype Request = Request(fd: int, offset: int, size: nat, stride: int, max: int, depth: int)

  /** The list afterwards, the longest it got on the way, and what was submitted, in order. */
  datatype Outcome = Outcome(keys: seq<Key>, peak: seq<Key>, submitted: seq<Key>)

  function Wanted(r: Request): Key { Key(r.fd, r.offset, r.size) }

  function Clip(depth: int, maxDepth: int): int {
    if depth >= maxDepth - 1 then maxDepth - 1 else depth
  }

  /** The tests that skip the read-ahead altogether. */
  predicate LooksAhead(r: Request, maxDepth: int) {
    r.stride != 0 && r.offset >= 0 && r.offset + r.size <= r.max && Clip(r.depth, maxDepth) != 0
  }

  function AheadKey(r: Request, i: int): Key {
    Key(r.fd, r.offset + (i + 1) * (r.stride * r.size), r.size)
  }

  /** Whether turn `i` of the loop submits its block. */
  predicate Issues(keys: seq<Key>, r: Request, i: int) {
    var k := AheadKey(r, i);
    k.offset >= 0 && k.offset + r.size <= r.max && k !in keys
  }

  /** The read-ahead loop from turn `i` up to `depth`. */
  function Ahead(keys: seq<Key>, r: Request, i: int, depth: int): (out: seq<Key>)
    ensures keys <= out
    decreases depth - i
  {
    if i >= depth then keys
    else Ahead(if Issues(keys, r, i) then keys + [AheadKey(r, i)] else keys, r, i + 1, depth)
  }

  lemma NoTurns(keys: seq<Key>, r: Request, i: int, depth: int)
    requires i >= depth
    ensures Ahead(keys, r, i, depth) == keys
  {
  }

  lemma AheadTurn(keys: seq<Key>, more: seq<Key>, r: Request, i: int, depth: int)
    requires i < depth && more == if Issues(keys, r, i) then keys + [AheadKey(r, i)] else keys
    ensures Ahead(keys, r, i, depth) == Ahead(more, r, i + 1, depth)
  {
  }

  /** With more than one entry left only the last turn is run. */
  function AheadAll(base: seq<Key>, r: Request, maxDepth: int): (out: seq<Key>)
    ensures base <= out
  {
    if !LooksAhead(r, maxDepth) then base
    else
      var depth := Clip(r.depth, maxDepth);
      Ahead(base, r, if |base| > 1 then depth - 1 else 0, depth)
  }

  /** The entry found by scanning from the head. */
  function Find(keys: seq<Key>, k: Key): (i: nat)
    ensures i <= |keys|
    ensures i < |keys| ==> keys[i] == k
    ensures i == |keys| <==> k !in keys
    ensures forall j :: 0 <= j < i ==> keys[j] != k
  {
    if keys == [] then 0 else if keys[0] == k then 0 else 1 + Find(keys[1..], k)
  }

  function RemoveAt<T>(s: seq<T>, i: nat): seq<T>
    requires i < |s|
  {
    s[..i] + s[i + 1..]
  }

  /** One call.  A hit is taken off the list; a miss purges the list and reads the block anew,
      and that entry leaves the list when the call returns. */
  function AsyncRead(keys: seq<Key>, r: Request, maxDepth: int): (o: Outcome)
    ensures |o.submitted| <= |o.peak|
  {
    var k := Wanted(r);
    var i := Find(keys, k);
    if i < |keys| then
      var base := RemoveAt(keys, i);
      var out := AheadAll(base, r, maxDepth);
      Outcome(out, out, out[|base|..])
    else
      var out := AheadAll([k], r, maxDepth);
      Outcome(out[1..], out, out)
  }

  /* ---- the list in the middle of a call ---- */

  /** The list after each of its last `n` entries was added. */
  function Growth(keys: seq<Key>, n: nat): (moments: seq<seq<Key>>)
    requires n <= |keys|
    ensures |moments| == n
  {
    seq(n, j requires 0 <= j < n => keys[..|keys| - n + 1 + j])
  }

  /** Everything submitted so far, and the list after each submission. */
  datatype Trail = Trail(submitted: seq<Key>, moments: seq<seq<Key>>)

  /** `n` blocks submitted, one by one, the last of them the last of the list. */
  function Grown(t: Trail, keys: seq<Key>, n: nat): Trail
    requires n <= |keys|
  {
    Trail(t.submitted + keys[|keys| - n..], t.moments + Growth(keys, n))
  }

  lemma GrownNone(t: Trail, keys: seq<Key>)
    ensures Grown(t, keys, 0) == t
  {
  }

  lemma GrownMore(t: Trail, keys: seq<Key>, n: nat, more: seq<Key>, m: nat)
    requires n <= |keys| && keys <= more && |more| == |keys| + m
    ensures Grown(Grown(t, keys, n), more, m) == Grown(t, more, n + m)
  {
    hide Growth;
    GrowthMore(keys, n, more, m);
    assert t.moments + Growth(keys, n) + Growth(more, m) == t.moments + (Growth(keys, n) + Growth(more, m));
    assert more[|keys| - n..] == keys[|keys| - n..] + more[|keys|..];
  }

  lemma GrowthMore(keys: seq<Key>, n: nat, more: seq<Key>, m: nat)
    requires n <= |keys| && keys <= more && |more| == |keys| + m
    ensures Growth(more, n + m) == Growth(keys, n) + Growth(more, m)
  {
    var all, both := Growth(more, n + m), Growth(keys, n) + Growth(more, m);
    forall j | 0 <= j < n + m
      ensures all[j] == both[j]
    {
      var end := |keys| - n + 1 + j;
      if j < n {
        PrefixOfPrefix(keys, more, end);
      }
    }
  }

  lemma PrefixOfPrefix(keys: seq<Key>, more: seq<Key>, end: nat)
    requires keys <= more && end <= |keys|
    ensures more[..end] == keys[..end]
  {
  }

  /* ---- bounded and free of duplicates ---- */

  ghost predicate NoDuplicates(keys: seq<Key>) {
    forall i, j :: 0 <= i < j < |keys| ==> keys[i] != keys[j]
  }

  lemma {:induction false} AheadBounded(keys: seq<Key>, r: Request, i: int, depth: int)
    requires NoDuplicates(keys)
    ensures NoDuplicates(Ahead(keys, r, i, depth))
    ensures |Ahead(keys, r, i, depth)| <= |keys| + if i < depth then depth - i else 0
    decreases depth - i
  {
    hide AheadKey;
    if i < depth {
      AheadBounded(if Issues(keys, r, i) then keys + [AheadKey(r, i)] else keys, r, i + 1, depth);
    }
  }

  /** One call, whatever its offset, stride and depth: at no moment are there more than
      `maxDepth` entries, or two for the same block. */
  lemma ReadBounded(keys: seq<Key>, r: Request, maxDepth: int)
    requires maxDepth >= 1 && NoDuplicates(keys) && |keys| <= maxDepth
    ensures var o := AsyncRead(keys, r, maxDepth);
            && NoDuplicates(o.keys) && |o.keys| <= maxDepth
            && NoDuplicates(o.peak) && |o.peak| <= maxDepth
  {
    hide AheadKey, Issues, Ahead;
    var k := Wanted(r);
    var i := Find(keys, k);
    var base := if i < |keys| then RemoveAt(keys, i) else [k];
    var depth := Clip(r.depth, maxDepth);
    AheadBounded(base, r, if |base| > 1 then depth - 1 else 0, depth);
  }

  /** So is the list at each of those moments. */
  lemma GrowthBounded(keys: seq<Key>, n: nat, maxDepth: int)
    requires n <= |keys| <= maxDepth && NoDuplicates(keys)
    ensures forall l :: l in Growth(keys, n) ==> NoDuplicates(l) && |l| <= maxDepth
  {
  }

  /** The lists after each of a series of calls. */
  function AfterCalls(keys: seq<Key>, calls: seq<Request>, maxDepth: int): seq<Key> {
    if calls == [] then keys
    else AsyncRead(AfterCalls(keys, calls[..|calls| - 1], maxDepth), calls[|calls| - 1], maxDepth).keys
  }

  lemma {:induction false} AlwaysBounded(calls: seq<Request>, maxDepth: int)
    requires maxDepth >= 1
    ensures var keys := AfterCalls([], calls, maxDepth);
            NoDuplicates(keys) && |keys| <= maxDepth
    ensures calls != [] ==>
              var peak := AsyncRead(AfterCalls([], calls[..|calls| - 1], maxDepth), calls[|calls| - 1], maxDepth).peak;
              NoDuplicates(peak) && |peak| <= maxDepth
  {
    if calls != [] {
      AlwaysBounded(calls[..|calls| - 1], maxDepth);
      ReadBounded(AfterCalls([], calls[..|calls| - 1], maxDepth), calls[|calls| - 1], maxDepth);
    }
  }

  /* ---- what a call reads ahead ---- */

  /** The block `m` strides on from the one asked for. */
  function Near(r: Request, m: int): Key {
    Key(r.fd, r.offset + m * (r.stride * r.size), r.size)
  }

  predicate InFile(r: Request, k: Key) { 0 <= k.offset && k.offset + r.size <= r.max }

  /** `more` are blocks `first` to `last` strides on that lie in the file, those not in `keys` before. */
  ghost predicate ReadsOn(keys: seq<Key>, more: seq<Key>, r: Request, first: int, last: int) {
    && (forall k :: k in more ==> exists m :: first <= m <= last && k == Near(r, m) && InFile(r, k) && k !in keys)
    && (forall m :: first <= m <= last && InFile(r, Near(r, m)) ==> Near(r, m) in keys + more)
  }

  lemma NoneOn(keys: seq<Key>, r: Request, first: int, last: int)
    requires first > last
    ensures ReadsOn(keys, [], r, first, last)
  {
  }

  /** One more turn in front. */
  lemma OneOn(keys: seq<Key>, next: seq<Key>, more: seq<Key>, r: Request, i: int, last: int)
    requires i < last && next == if Issues(keys, r, i) then keys + [AheadKey(r, i)] else keys
    requires ReadsOn(next, more, r, i + 2, last)
    ensures ReadsOn(keys, next[|keys|..] + more, r, i + 1, last)
  {
    var all, k := next[|keys|..] + more, Near(r, i + 1);
    assert AheadKey(r, i) == k;
    assert next + more == keys + all;
    forall x | x in all
      ensures exists m :: i + 1 <= m <= last && x == Near(r, m) && InFile(r, x) && x !in keys
    {
      if x in more {
        var m :| i + 2 <= m <= last && x == Near(r, m) && InFile(r, x) && x !in next;
        assert x !in keys;
      } else {
        assert x == Near(r, i + 1);
      }
    }
    forall m | i + 1 <= m <= last && InFile(r, Near(r, m))
      ensures Near(r, m) in keys + all
    {
      if m == i + 1 {
        assert k in next;
      }
    }
  }

  lemma {:induction false} AheadReads(keys: seq<Key>, r: Request, i: int, depth: int, out: seq<Key>)
    requires out == Ahead(keys, r, i, depth)
    ensures ReadsOn(keys, out[|keys|..], r, i + 1, depth)
    decreases depth - i
  {
    hide AheadKey, Issues, ReadsOn;
    if i < depth {
      var next := if Issues(keys, r, i) then keys + [AheadKey(r, i)] else keys;
      AheadReads(next, r, i + 1, depth, out);
      OneOn(keys, next, out[|next|..], r, i, depth);
      assert next[|keys|..] + out[|next|..] == out[|keys|..];
    } else {
      NoneOn(keys, r, i + 1, depth);
      assert out[|keys|..] == [];
    }
  }

  /** What one call leaves in flight beside the block it asks for. */
  function Left(keys: seq<Key>, r: Request): (left: seq<Key>)
    ensures Wanted(r) !in keys ==> left == [Wanted(r)]
    ensures Wanted(r) in keys ==> |left| == |keys| - 1
  {
    var i := Find(keys, Wanted(r));
    if i < |keys| then RemoveAt(keys, i) else [Wanted(r)]
  }

  /** Any call, whatever its stride and depth.  When the block asked for is in the file, the call reads on
      from it, upwards or downwards as the stride goes: with at most one entry left it brings all the
      blocks up to the clipped depth in flight, with more only the last of them, and submits no others.
      Otherwise, and for a stride or depth of 0, it reads nothing ahead. */
  lemma CallReadsAhead(keys: seq<Key>, r: Request, maxDepth: int) returns (more: seq<Key>)
    ensures var o, left := AsyncRead(keys, r, maxDepth), Left(keys, r);
            var last := if r.depth < maxDepth - 1 then r.depth else maxDepth - 1;
            && o.peak == left + more
            && (if Wanted(r) in keys then o.submitted == more && o.keys == left + more
                else o.submitted == left + more && o.keys == more)
            && (if r.stride == 0 || last == 0 || !InFile(r, Wanted(r)) then more == []
                else ReadsOn(left, more, r, if |left| > 1 then last else 1, last))
  {
    hide Issues, AheadKey, Ahead, ReadsOn;
    var left, depth := Left(keys, r), Clip(r.depth, maxDepth);
    var all := AheadAll(left, r, maxDepth);
    more := all[|left|..];
    if LooksAhead(r, maxDepth) {
      AheadReads(left, r, if |left| > 1 then depth - 1 else 0, depth, all);
    }
  }

  /** A call with stride 0 submits its own block, if that is not in flight, and nothing else. */
  lemma StrideZero(keys: seq<Key>, r: Request, maxDepth: int)
    requires r.stride == 0
    ensures AsyncRead(keys, r, maxDepth).submitted == if Wanted(r) in keys then [] else [Wanted(r)]
    ensures AsyncRead(keys, r, maxDepth).keys == if Wanted(r) in keys then Left(keys, r) else []
  {
    var more := CallReadsAhead(keys, r, maxDepth);
  }

  /** Everything a series of calls submits, in order. */
  function Submissions(keys: seq<Key>, calls: seq<Request>, maxDepth: int): seq<Key> {
    if calls == [] then []
    else
      var earlier := calls[..|calls| - 1];
      Submissions(keys, earlier, maxDepth)
        + AsyncRead(AfterCalls(keys, earlier, maxDepth), calls[|calls| - 1], maxDepth).submitted
  }

  /* ---- calls that take the last entry off a longer list ---- */

  /** takeoff_cache then leaves the tail pointer where it was, see AsyncCache. */
  predicate TakesTail(keys: seq<Key>, r: Request) {
    var i := Find(keys, Wanted(r));
    i > 0 && i + 1 == |keys|
  }

  lemma TakesTailIs(keys: seq<Key>, r: Request)
    requires NoDuplicates(keys)
    ensures TakesTail(keys, r) <==> |keys| > 1 && keys[|keys| - 1] == Wanted(r)
  {
    var i := Find(keys, Wanted(r));
    if |keys| > 1 && keys[|keys| - 1] == Wanted(r) {
      assert keys[i] == keys[|keys| - 1];
    }
  }

  /** Two ordinary calls are enough: read the first block with two ahead, then the third. */
  lemma TailIsReached()
    ensures var keys := AfterCalls([], [Request(1, 0, 1, 1, 100, 2)], 10);
            keys == [Key(1, 1, 1), Key(1, 2, 1)] && TakesTail(keys, Request(1, 2, 1, 1, 100, 2))
  {
    var r := Request(1, 0, 1, 1, 100, 2);
    var first, k1, k2 := [Key(1, 0, 1)], Key(1, 1, 1), Key(1, 2, 1);
    assert AheadKey(r, 0) == k1 && AheadKey(r, 1) == k2;
    assert Issues(first, r, 0) && Issues(first + [k1], r, 1);
    AheadTurn(first, first + [k1], r, 0, 2);
    AheadTurn(first + [k1], first + [k1, k2], r, 1, 2);
    assert Ahead(first, r, 0, 2) == first + [k1, k2];
    assert [r][..0] == [] && AfterCalls([], [r], 10) == AsyncRead([], r, 10).keys;
    TakesTailIs([k1, k2], Request(1, 2, 1, 1, 100, 2));
  }

  /** No call of the series, made one after the other, takes a last entry. */
  ghost predicate SparesTail(calls: seq<Request>, maxDepth: int) {
    SparesSoFar(calls, maxDepth, |calls|)
  }

  ghost predicate SparesSoFar(calls: seq<Request>, maxDepth: int, n: nat)
    requires n <= |calls|
  {
    forall m :: 0 <= m < n ==> !TakesTail(AfterCalls([], calls[..m], maxDepth), calls[m])
  }

  /** Call `n` asks for the block submitted last of all, while more than it is in flight. */
  ghost predicate AsksForLast(calls: seq<Request>, n: nat, maxDepth: int)
    requires n < |calls|
  {
    var given := Submissions([], calls[..n], maxDepth);
    |AfterCalls([], calls[..n], maxDepth)| > 1 && given != [] && given[|given| - 1] == Wanted(calls[n])
  }

  lemma ReadKeepsLast(keys: seq<Key>, given: seq<Key>, r: Request, maxDepth: int)
    requires !TakesTail(keys, r)
    requires keys != [] ==> given != [] && given[|given| - 1] == keys[|keys| - 1]
    ensures var o := AsyncRead(keys, r, maxDepth);
            var all := given + o.submitted;
            o.keys != [] ==> all != [] && all[|all| - 1] == o.keys[|o.keys| - 1]
  {
    hide AheadAll;
    var i := Find(keys, Wanted(r));
    if i < |keys| {
      var base := RemoveAt(keys, i);
      assert base != [] ==> base[|base| - 1] == keys[|keys| - 1];
    }
  }

  /** As long as no last entry was taken, the last entry of the list is the block submitted last. */
  lemma {:induction false} LastInFlight(calls: seq<Request>, maxDepth: int, n: nat)
    requires n <= |calls| && SparesSoFar(calls, maxDepth, n)
    ensures var keys, given := AfterCalls([], calls[..n], maxDepth), Submissions([], calls[..n], maxDepth);
            keys != [] ==> given != [] && given[|given| - 1] == keys[|keys| - 1]
    decreases n
  {
    hide AsyncRead, TakesTail;
    if n > 0 {
      assert !TakesTail(AfterCalls([], calls[..n - 1], maxDepth), calls[n - 1]);
      LastInFlight(calls, maxDepth, n - 1);
      assert calls[..n][..n - 1] == calls[..n - 1];
      ReadKeepsLast(AfterCalls([], calls[..n - 1], maxDepth), Submissions([], calls[..n - 1], maxDepth),
          calls[n - 1], maxDepth);
    }
  }

  /** A series never takes a last entry exactly when none of its calls asks for the block submitted
      last of all while others are in flight. */
  lemma SparesTailExactly(calls: seq<Request>, maxDepth: int)
    requires maxDepth >= 1
    ensures SparesTail(calls, maxDepth) <==> forall n :: 0 <= n < |calls| ==> !AsksForLast(calls, n, maxDepth)
  {
    if SparesTail(calls, maxDepth) {
      forall n | 0 <= n < |calls|
        ensures !AsksForLast(calls, n, maxDepth)
      {
        TakesTailWhen(calls, maxDepth, n);
      }
    } else {
      SomeAsksForLast(calls, maxDepth, |calls|);
    }
  }

  lemma TakesTailWhen(calls: seq<Request>, maxDepth: int, n: nat)
    requires maxDepth >= 1 && n < |calls| && SparesSoFar(calls, maxDepth, n)
    ensures TakesTail(AfterCalls([], calls[..n], maxDepth), calls[n]) <==> AsksForLast(calls, n, maxDepth)
  {
    hide TakesTail, SparesSoFar, AfterCalls, Submissions, NoDuplicates;
    LastInFlight(calls, maxDepth, n);
    AlwaysBounded(calls[..n], maxDepth);
    TakesTailIs(AfterCalls([], calls[..n], maxDepth), calls[n]);
  }

  /** The first call that takes a last entry asks for the block submitted last. */
  lemma {:induction false} SomeAsksForLast(calls: seq<Request>, maxDepth: int, n: nat)
    requires maxDepth >= 1 && n <= |calls| && !SparesSoFar(calls, maxDepth, n)
    ensures exists m :: 0 <= m < |calls| && AsksForLast(calls, m, maxDepth)
    decreases n
  {
    hide TakesTail, AsksForLast;
    if SparesSoFar(calls, maxDepth, n - 1) {
      TakesTailWhen(calls, maxDepth, n - 1);
    } else {
      SomeAsksForLast(calls, maxDepth, n - 1);
    }
  }

  lemma HitAtHead(keys: seq<Key>, r: Request, maxDepth: int)
    requires keys != [] && keys[0] == Wanted(r)
    ensures var out := AheadAll(keys[1..], r, maxDepth);
            AsyncRead(keys, r, maxDepth) == Outcome(out, out, out[|keys| - 1..])
  {
    hide AheadAll;
    assert Find(keys, Wanted(r)) == 0 && RemoveAt(keys, 0) == keys[1..];
  }
}
