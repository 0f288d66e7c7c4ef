module AsyncCache {
  import opened Posix
  import opened AsyncEntry
  import R = ReadAhead

  class Cache {
    const maxDepth: int
    const disk: int -> seq<byte>
    var head: Entry?
    var tail: Entry?
    var count: int
    var inuseHead: Entry?
    var wHead: Entry?
    var wTail: Entry?
    var wCount: int

    /** The lists the pointers spell out, and where each entry ever allocated is. */
    ghost var list: seq<Entry>
    ghost var inuse: seq<Entry>
    ghost var queue: seq<Entry>
    ghost var home: map<Entry, Place>
    /** Blocks given to aio_read, in order, and the list as each of them left it. */
    ghost var trail: R.Trail
    /** Writes not yet reaped, and writes reaped, in order. */
    ghost var pending: seq<WriteRequest>
    ghost var reaped: seq<WriteRequest>

    ghost predicate Valid()
      reads this, list, inuse, queue
    {
      && Reading(list, head, tail, count, disk, home, inuse, queue)
      && Elsewhere(inuse, inuseHead, queue, wHead, wTail, wCount, pending)
    }

    constructor (maxDepth: int, disk: int -> seq<byte>)
      ensures Valid() && this.maxDepth == maxDepth && this.disk == disk
      ensures list == [] && inuse == [] && queue == [] && home == map[]
      ensures trail == R.Trail([], []) && reaped == []
    {
      this.maxDepth, this.disk := maxDepth, disk;
      head, tail, inuseHead, wHead, wTail, count, wCount := null, null, null, null, null, 0, 0;
      list, inuse, queue, home, trail, pending, reaped := [], [], [], map[], R.Trail([], []), [], [];
    }

    /** free(), of any entry and however often: it is the callers that do it once. */
    ghost method Free(e: Entry)
      modifies this`home
      ensures home == old(home)[e := AfterFree(old(home), e)]
    {
      home := home[e := AfterFree(home, e)];
    }

    /** alloc_cache: a new entry at the tail. */
    method AllocCache(key: R.Key) returns (ce: Entry)
      requires ReadListOk(list, head, tail, count) && Homes(home, list, inuse, queue, [])
      modifies this`head, this`tail, this`count, this`list, this`home, {tail}`forward
      ensures fresh(ce) && tail == ce && KeyOf(ce) == key && !ce.direct
      ensures list == old(list) + [ce] && home == old(home)[ce := ReadList]
      ensures ReadListOk(list, head, tail, count) && Homes(home, list, inuse, queue, [])
    {
      ce := new Entry(key.fd, key.offset, key.size);
      ghost var s := list;
      AppendHomes(home, s, inuse, queue, ce);
      home, list := home[ce := ReadList], s + [ce];
      LinkAtTail(ce, s);
    }

    method LinkAtTail(ce: Entry, ghost s: seq<Entry>)
      requires ReadListOk(s, head, tail, count)
      requires ce !in s && ce.forward == null
      modifies this`head, this`tail, this`count, ce`back, {tail}`forward
      ensures ReadListOk(s + [ce], head, tail, count) && tail == ce
    {
      ChainDistinct(s, head);
      ce.back := tail;
      if tail != null {
        tail.forward := ce;
      }
      tail := ce;
      if head == null {
        head := ce;
      }
      count := count + 1;
      AppendedLinks(s, ce, head);
    }

    /** incache: the first entry with the given key. */
    method InCache(key: R.Key) returns (move: Entry?, ghost k: nat)
      requires Chain(list, head)
      ensures k == R.Find(Keys(list), key)
      ensures move == At(list, k) && (move != null ==> KeyOf(move) == key)
    {
      move, k := head, 0;
      while move != null
        invariant k <= |list| && move == At(list, k)
        invariant forall j :: 0 <= j < k ==> KeyOf(list[j]) != key
        decreases |list| - k
      {
        if move.fd == key.fd && move.offset == key.offset && key.size == move.size {
          FindIs(Keys(list), key, k);
          return;
        }
        move, k := move.forward, k + 1;
      }
      FindIs(Keys(list), key, k);
    }

    /** takeoff_cache.  The walk repairs the neighbours' links and the count in every case; the
        tail pointer it repairs only with the last entry, so afterwards it is right exactly when
        the entry taken was the head or had a successor. */
    method TakeoffCache(ce: Entry, ghost k: nat)
      requires ReadListOk(list, head, tail, count) && Homes(home, list, inuse, queue, [])
      requires k < |list| && list[k] == ce
      modifies this`head, this`tail, this`count, this`list, this`home, list`forward, list`back
      ensures list == R.RemoveAt(old(list), k)
      ensures Chain(list, head) && Backward(list) && count == |list|
      ensures tail == Last(list) <==> k == 0 || k + 1 < |old(list)|
      ensures tail == if |old(list)| == 1 then null else old(tail)
      ensures home == old(home)[ce := if ce.direct then Loose else Freed(1)]
      ensures Homes(home, list, inuse, queue, if ce.direct then [ce] else [])
    {
      hide Homes, Last;
      ghost var s := list;
      ChainDistinct(s, head);
      ghost var p := if ce.direct then Loose else Freed(1);
      TakeoffHomes(home, s, inuse, queue, k, ce, p);
      LastOfRest(s, k);
      if ce.direct {
        home := home[ce := Loose];
      } else {
        Free(ce);
      }
      list := R.RemoveAt(s, k);
      Unlink(ce, k, s);
    }

    /** The pointer part of takeoff_cache: the head case, or the walk to the entry. */
    method Unlink(ce: Entry, ghost k: nat, ghost s: seq<Entry>)
      requires ReadListOk(s, head, tail, count) && Distinct(s)
      requires k < |s| && s[k] == ce
      modifies this`head, this`tail, this`count, s`forward, s`back
      ensures var rest := R.RemoveAt(s, k);
              Chain(rest, head) && Backward(rest) && count == |rest|
      ensures tail == if |s| == 1 then null else old(tail)
    {
      var move := head;
      if move == ce {
        head := ce.forward;
        if head != null {
          head.back := null;
        } else {
          tail := null;
        }
      } else {
        move := WalkTo(ce, k, s);
        if move.forward != null {
          move.forward.back := move.back;
        }
        if move.back != null {
          move.back.forward := move.forward;
        }
      }
      count := count - 1;
      BypassedLinks(s, k, head);
    }

    method WalkTo(ce: Entry, ghost k: nat, ghost s: seq<Entry>) returns (move: Entry)
      requires Chain(s, head) && k < |s| && s[k] == ce
      ensures move == ce
    {
      move := head;
      ghost var i := 0;
      while move != ce
        invariant 0 <= i <= k && move == s[i]
        decreases k - i
      {
        move, i := move.forward, i + 1;
      }
    }

    /** aio_read, accepted, and complete by the time its result is asked for. */
    method AioRead(ce: Entry)
      requires list != [] && list[|list| - 1] == ce
      modifies this`trail, ce`data
      ensures ce.data == Delivered(disk, KeyOf(ce)) && trail == R.Grown(old(trail), Keys(list), 1)
    {
      ce.data := if ce.offset < 0 then [] else Pread(disk(ce.fd), ce.size, ce.offset);
      trail := R.Grown(trail, Keys(list), 1);
    }

    method Submit(key: R.Key) returns (ce: Entry)
      requires Reading(list, head, tail, count, disk, home, inuse, queue)
      modifies this`head, this`tail, this`count, this`list, this`home, this`trail, {tail}`forward
      ensures fresh(ce) && tail == ce && KeyOf(ce) == key && !ce.direct
      ensures list == old(list) + [ce] && Keys(list) == old(Keys(list)) + [KeyOf(ce)]
      ensures trail == R.Grown(old(trail), Keys(list), 1)
      ensures Reading(list, head, tail, count, disk, home, inuse, queue) && Kept(old(home), home)
    {
      hide R.Grown, Homes;
      ce := AllocCache(key);
      AppendKeys(old(list), ce);
      AioRead(ce);
    }

    /** del_cache: entry after entry comes off the head, until there is none. */
    method DelCache()
      requires Reading(list, head, tail, count, disk, home, inuse, queue)
      modifies this`head, this`tail, this`count, this`list, this`home, list`forward, list`back, list`direct
      ensures list == [] && tail == null
      ensures Reading(list, head, tail, count, disk, home, inuse, queue) && Kept(old(home), home)
    {
      ghost var n := 0;
      while true
        invariant n <= |old(list)| && list == old(list)[n..]
        invariant Reading(list, head, tail, count, disk, home, inuse, queue) && Kept(old(home), home)
        invariant inuse == old(inuse) && queue == old(queue)
        decreases |list|
      {
        var ce := head;
        if ce == null {
          return;
        }
        Drop(ce, 0);
        n := n + 1;
      }
    }

    /** Take a finished entry off the list and free it. */
    method Drop(ce: Entry, ghost k: nat)
      requires Reading(list, head, tail, count, disk, home, inuse, queue)
      requires k < |list| && list[k] == ce && (k == 0 || k + 1 < |list|)
      modifies this`head, this`tail, this`count, this`list, this`home, list`forward, list`back, ce`direct
      ensures list == R.RemoveAt(old(list), k) && Kept(old(home), home)
      ensures tail == null || tail == old(tail)
      ensures Reading(list, head, tail, count, disk, home, inuse, queue)
    {
      hide Kept;
      ce.direct := false;
      TakeoffCache(ce, k);
      KeptFreed(old(list), inuse, queue, old(home), k);
    }

    /** The read-ahead both readers run. */
    method Lookahead(r: R.Request)
      requires Reading(list, head, tail, count, disk, home, inuse, queue)
      modifies this`head, this`tail, this`count, this`list, this`home, this`trail, {tail}`forward
      ensures old(list) <= list && fresh(list[|old(list)|..]) && (tail == old(tail) || fresh(tail))
      ensures Keys(list) == R.AheadAll(old(Keys(list)), r, maxDepth)
      ensures trail == R.Grown(old(trail), Keys(list), |list| - |old(list)|)
      ensures Reading(list, head, tail, count, disk, home, inuse, queue) && Kept(old(home), home)
    {
      hide R.Ahead, Kept, R.Grown;
      KeptSame(home);
      R.GrownNone(trail, Keys(list));
      if r.stride == 0 || r.offset < 0 || r.offset + r.size > r.max {
        return;
      }
      var d := if r.depth >= maxDepth - 1 then maxDepth - 1 else r.depth;
      if d == 0 {
        return;
      }
      var start := if count > 1 then d - 1 else 0;
      LookaheadLoop(r, start, d);
    }

    method LookaheadLoop(r: R.Request, start: int, d: int)
      requires Reading(list, head, tail, count, disk, home, inuse, queue)
      modifies this`head, this`tail, this`count, this`list, this`home, this`trail, {tail}`forward
      ensures old(list) <= list && fresh(list[|old(list)|..]) && (tail == old(tail) || fresh(tail))
      ensures Keys(list) == R.Ahead(old(Keys(list)), r, start, d)
      ensures trail == R.Grown(old(trail), Keys(list), |list| - |old(list)|)
      ensures Reading(list, head, tail, count, disk, home, inuse, queue) && Kept(old(home), home)
    {
      hide R.AheadAll, Keys, Reading, Kept, R.Grown, R.Ahead, R.Growth;
      KeptSame(home);
      R.GrownNone(trail, Keys(list));
      ghost var base, extra := list, [];
      ghost var all := R.Ahead(Keys(list), r, start, d);
      var i := start;
      while i < d
        invariant list == base + extra && fresh(extra) && (tail == old(tail) || fresh(tail))
        invariant R.Ahead(Keys(list), r, i, d) == all
        invariant trail == R.Grown(old(trail), Keys(list), |extra|)
        invariant Reading(list, head, tail, count, disk, home, inuse, queue) && Kept(old(home), home)
        invariant inuse == old(inuse) && queue == old(queue)
      {
        ghost var before := home;
        ghost var more := LookaheadTurn(r, i, d);
        KeptOn(old(home), before, home);
        MoreGrown(old(trail), base + extra, |extra|, more);
        extra := extra + more;
        i := i + 1;
      }
      R.NoTurns(Keys(list), r, i, d);
    }

    method LookaheadTurn(r: R.Request, i: int, ghost d: int) returns (ghost more: seq<Entry>)
      requires Reading(list, head, tail, count, disk, home, inuse, queue) && i < d
      modifies this`head, this`tail, this`count, this`list, this`home, this`trail, {tail}`forward
      ensures (tail == old(tail) || fresh(tail)) && fresh(more) && list == old(list) + more
      ensures R.Ahead(Keys(list), r, i + 1, d) == R.Ahead(old(Keys(list)), r, i, d)
      ensures trail == R.Grown(old(trail), Keys(list), |more|)
      ensures Reading(list, head, tail, count, disk, home, inuse, queue) && Kept(old(home), home)
    {
      hide Homes, Kept, Filled, Backward, R.Grown;
      KeptSame(home);
      R.GrownNone(trail, Keys(list));
      more := [];
      var key := R.AheadKey(r, i);
      if key.offset >= 0 && key.offset + r.size <= r.max {
        var ce, k := InCache(key);
        if ce == null {
          ce := Submit(key);
          more := [ce];
        }
      }
      R.AheadTurn(old(Keys(list)), Keys(list), r, i, d);
    }

    /** mbcopy */
    method MbCopy(source: seq<byte>, dest: array<byte>, len: nat)
      requires len <= |source| && len <= dest.Length
      modifies dest
      ensures dest[..] == Overlay(old(dest[..]), source[..len], 0)
    {
      var i := 0;
      while i < len
        invariant i <= len
        invariant dest[..i] == source[..i] && dest[i..] == old(dest[..])[i..]
      {
        dest[i] := source[i];
        i := i + 1;
      }
    }

    /** aio_return of a finished read: its byte count, or -1. */
    method AioReturn(ce: Entry) returns (retval: int)
      requires ce.data == Delivered(disk, KeyOf(ce))
      ensures retval == Returned(disk, KeyOf(ce))
    {
      retval := if ce.offset < 0 then -1 else |ce.data|;
    }

    lemma FilledAt(k: nat)
      requires Reading(list, head, tail, count, disk, home, inuse, queue) && k < |list|
      ensures list[k].data == Delivered(disk, KeyOf(list[k]))
    {
    }

    /** Copy a finished entry into the caller's buffer. */
    method CopyOut(ce: Entry, ubuffer: array<byte>) returns (retval: int)
      requires ce.data == Delivered(disk, KeyOf(ce)) && ce.size <= ubuffer.Length
      modifies ubuffer
      ensures Answered(disk, KeyOf(ce), old(ubuffer[..]), ubuffer[..], retval)
    {
      retval := AioReturn(ce);
      if retval > 0 {
        MbCopy(ce.data, ubuffer, retval);
        assert ce.data[..retval] == ce.data;
      }
    }

    /** async_read.  When the call takes the last entry off a longer list the tail pointer is lost to
        it, see TakeoffCache.  The bytes are delivered all the same, but what the C code does from there
        on, beginning with its read-ahead, is not part of the model: the call then ends here. */
    method AsyncRead(r: R.Request, ubuffer: array<byte>) returns (retval: int, tailLost: bool)
      requires Valid() && r.size <= ubuffer.Length
      modifies this`head, this`tail, this`count, this`list, this`home, this`trail
      modifies list`forward, list`back, list`direct, ubuffer
      ensures forall e :: e in list ==> e in old(list) || fresh(e)
      ensures Answered(disk, R.Wanted(r), old(ubuffer[..]), ubuffer[..], retval) && Kept(old(home), home)
      ensures tailLost <==> R.TakesTail(old(Keys(list)), r)
      ensures !tailLost ==> Valid() && Follows(old(Keys(list)), old(trail), r, maxDepth, Keys(list), trail)
      ensures tailLost ==>
                && Astray(list, head, tail, count, disk, home, inuse, queue, Freed(1))
                && tail == old(tail) && list == old(list)[..|old(list)| - 1] && trail == old(trail)
                && Elsewhere(inuse, inuseHead, queue, wHead, wTail, wCount, pending)
    {
      hide Reading, Astray, Follows, Answered, R.TakesTail, Keys, Kept;
      Apart(list, head, tail, count, disk, home, inuse, queue);
      retval, tailLost := ReadThrough(r, ubuffer);
      assert forall i :: 0 <= i < |inuse| ==> unchanged(inuse[i]);
      assert forall i :: 0 <= i < |queue| ==> unchanged(queue[i]);
    }

    method ReadThrough(r: R.Request, ubuffer: array<byte>) returns (retval: int, tailLost: bool)
      requires Reading(list, head, tail, count, disk, home, inuse, queue) && r.size <= ubuffer.Length
      modifies this`head, this`tail, this`count, this`list, this`home, this`trail
      modifies list`forward, list`back, list`direct, ubuffer
      ensures forall e :: e in list ==> e in old(list) || fresh(e)
      ensures Answered(disk, R.Wanted(r), old(ubuffer[..]), ubuffer[..], retval) && Kept(old(home), home)
      ensures tailLost <==> R.TakesTail(old(Keys(list)), r)
      ensures !tailLost ==>
                && Reading(list, head, tail, count, disk, home, inuse, queue)
                && Follows(old(Keys(list)), old(trail), r, maxDepth, Keys(list), trail)
      ensures tailLost ==>
                && Astray(list, head, tail, count, disk, home, inuse, queue, Freed(1))
                && tail == old(tail) && list == old(list)[..|old(list)| - 1] && trail == old(trail)
    {
      hide Filled, Homes, Astray, Follows, Answered, Kept, R.Find, Keys, Delivered;
      var ce, k := InCache(R.Wanted(r));
      LastTest(list, head, tail, count, disk, home, inuse, queue, r, k);
      tailLost := false;
      if ce == null {
        retval := ReadMiss(r, ubuffer);
      } else if ce != head && ce.forward == null {
        tailLost := true;
        retval := ReadLast(ce, k, ubuffer);
      } else {
        retval := ReadHit(r, ce, k, ubuffer);
      }
    }

    method ReadLast(ce: Entry, ghost k: nat, ubuffer: array<byte>) returns (retval: int)
      requires Reading(list, head, tail, count, disk, home, inuse, queue) && ce.size <= ubuffer.Length
      requires 0 < k == |list| - 1 && list[k] == ce
      modifies this`head, this`tail, this`count, this`list, this`home, list`forward, list`back, ce`direct, ubuffer
      ensures forall e :: e in list ==> e in old(list) || fresh(e)
      ensures Astray(list, head, tail, count, disk, home, inuse, queue, Freed(1)) && Kept(old(home), home)
      ensures tail == old(tail) && list == old(list)[..k]
      ensures Answered(disk, KeyOf(ce), old(ubuffer[..]), ubuffer[..], retval)
    {
      hide Kept, Answered, Homes;
      FilledAt(k);
      retval := CopyOut(ce, ubuffer);
      ce.direct := false;
      TakeoffCache(ce, k);
      KeptFreed(old(list), inuse, queue, old(home), k);
    }

    method ReadHit(r: R.Request, ce: Entry, ghost k: nat, ubuffer: array<byte>) returns (retval: int)
      requires Reading(list, head, tail, count, disk, home, inuse, queue) && r.size <= ubuffer.Length
      requires k < |list| && ce == list[k] && (k == 0 || k + 1 < |list|)
      requires k == R.Find(Keys(list), R.Wanted(r)) && KeyOf(ce) == R.Wanted(r)
      modifies this`head, this`tail, this`count, this`list, this`home, this`trail
      modifies list`forward, list`back, ce`direct, ubuffer
      ensures forall e :: e in list ==> e in old(list) || fresh(e)
      ensures Reading(list, head, tail, count, disk, home, inuse, queue) && Kept(old(home), home)
      ensures Follows(old(Keys(list)), old(trail), r, maxDepth, Keys(list), trail)
      ensures Answered(disk, R.Wanted(r), old(ubuffer[..]), ubuffer[..], retval)
    {
      hide R.AheadAll, R.Find, Follows, Answered, Keys, Kept, Reading, Delivered, R.Grown;
      Apart(list, head, tail, count, disk, home, inuse, queue);
      FilledAt(k);
      retval := CopyOut(ce, ubuffer);
      Drop(ce, k);
      ghost var between, rest := home, list;
      assert forall e :: e in rest ==> e in old(list);
      Lookahead(r);
      assert list == rest + list[|rest|..];
      KeptOn(old(home), between, home);
      HitFollows(old(list), k, list, r, maxDepth, old(trail), trail);
    }

    method ReadMiss(r: R.Request, ubuffer: array<byte>) returns (retval: int)
      requires Reading(list, head, tail, count, disk, home, inuse, queue) && r.size <= ubuffer.Length
      requires R.Find(Keys(list), R.Wanted(r)) == |list|
      modifies this`head, this`tail, this`count, this`list, this`home, this`trail
      modifies list`forward, list`back, list`direct, ubuffer
      ensures forall e :: e in list ==> e in old(list) || fresh(e)
      ensures Reading(list, head, tail, count, disk, home, inuse, queue) && Kept(old(home), home)
      ensures Follows(old(Keys(list)), old(trail), r, maxDepth, Keys(list), trail)
      ensures Answered(disk, R.Wanted(r), old(ubuffer[..]), ubuffer[..], retval)
    {
      hide R.AheadAll, R.Find, Follows, Answered, Keys, Kept, Reading, Delivered, R.Grown;
      var first := StartAnew(r);
      MissFollows(old(list), first, list, r, maxDepth, old(trail), trail);
      FilledAt(0);
      retval := CopyOut(first, ubuffer);
      ghost var between, all := home, list;
      Drop(first, 0);
      assert list == all[1..];
      assert forall e :: e in list ==> e in all;
      KeptOn(old(home), between, home);
    }

    /** Purge the list, then read the block and those ahead of it. */
    method StartAnew(r: R.Request) returns (first: Entry)
      requires Reading(list, head, tail, count, disk, home, inuse, queue)
      modifies this`head, this`tail, this`count, this`list, this`home, this`trail
      modifies list`forward, list`back, list`direct
      ensures fresh(list) && [first] <= list && KeyOf(first) == R.Wanted(r)
      ensures Keys(list) == R.AheadAll(Keys([first]), r, maxDepth)
      ensures trail == R.Grown(old(trail), Keys(list), |list|)
      ensures Reading(list, head, tail, count, disk, home, inuse, queue) && Kept(old(home), home)
    {
      hide R.AheadAll, R.Find, Keys, Kept, Reading, R.Grown;
      DelCache();
      ghost var h1 := home;
      first := Submit(R.Wanted(r));
      assert list == [first];
      ghost var h2 := home;
      KeptOn(old(home), h1, h2);
      Lookahead(r);
      MoreGrown(old(trail), [first], 1, list[1..]);
      assert [first] + list[1..] == list;
      KeptOn(old(home), h2, home);
    }

    /** putoninuse */
    method PutOnInuse(entry: Entry)
      requires Chain(inuse, inuseHead) && Homes(home, list, inuse, queue, [entry])
      modifies this`inuseHead, this`inuse, this`home, entry`forward
      ensures inuse == [entry] + old(inuse) && home == old(home)[entry := InUse]
      ensures Chain(inuse, inuseHead) && Homes(home, list, inuse, queue, [])
    {
      InuseHomes(home, list, inuse, queue, entry);
      home := home[entry := InUse];
      inuse := [entry] + inuse;
      if inuseHead != null {
        entry.forward := inuseHead;
      } else {
        entry.forward := null;
      }
      inuseHead := entry;
      assert forall i :: 1 <= i < |inuse| ==> inuse[i] == old(inuse)[i - 1];
    }

    /** takeoffinuse, for async_release.  With nothing in use the code follows a null pointer. */
    method TakeoffInuse()
      requires Valid() && inuse != []
      modifies this`inuseHead, this`inuse, this`home
      ensures inuse == old(inuse)[1..] && home == old(home)[old(inuse)[0] := Freed(1)]
      ensures Valid()
    {
      hide Homes, Filled, ReadListOk, Carries, QueueOk;
      ChainDistinct(inuse, inuseHead);
      ReleaseHomes(home, list, inuse, queue);
      var ce := inuseHead;
      inuseHead := inuseHead.forward;
      inuse := inuse[1..];
      Free(ce);
    }

    /** async_read_no_copy: the caller gets the entry's own buffer, and the entry is kept for it
        on the in-use list.  A lost tail pointer then points at it there. */
    method AsyncReadNoCopy(r: R.Request) returns (retval: int, ubuffer: Entry?, tailLost: bool)
      requires Valid()
      modifies this`head, this`tail, this`count, this`list, this`home, this`trail, this`inuseHead, this`inuse
      modifies list`forward, list`back, list`direct
      ensures Handed(disk, R.Wanted(r), old(inuse), inuse, retval, ubuffer) && Kept(old(home), home)
      ensures tailLost <==> R.TakesTail(old(Keys(list)), r)
      ensures !tailLost ==> Valid() && Follows(old(Keys(list)), old(trail), r, maxDepth, Keys(list), trail)
      ensures tailLost ==>
                && Astray(list, head, tail, count, disk, home, inuse, queue, InUse)
                && tail == old(tail) && list == old(list)[..|old(list)| - 1] && trail == old(trail)
                && Elsewhere(inuse, inuseHead, queue, wHead, wTail, wCount, pending)
    {
      hide Reading, Astray, Follows, R.TakesTail, Keys, Kept, Homes, ReadListOk, Filled, Delivered;
      Apart(list, head, tail, count, disk, home, inuse, queue);
      retval, ubuffer, tailLost := HoldThrough(r);
      assert forall i :: 0 <= i < |queue| ==> unchanged(queue[i]);
    }

    method HoldThrough(r: R.Request) returns (retval: int, ubuffer: Entry?, tailLost: bool)
      requires Reading(list, head, tail, count, disk, home, inuse, queue) && Chain(inuse, inuseHead)
      modifies this`head, this`tail, this`count, this`list, this`home, this`trail, this`inuseHead, this`inuse
      modifies list`forward, list`back, list`direct
      ensures Handed(disk, R.Wanted(r), old(inuse), inuse, retval, ubuffer) && Kept(old(home), home)
      ensures tailLost <==> R.TakesTail(old(Keys(list)), r)
      ensures Chain(inuse, inuseHead)
      ensures !tailLost ==>
                && Reading(list, head, tail, count, disk, home, inuse, queue)
                && Follows(old(Keys(list)), old(trail), r, maxDepth, Keys(list), trail)
      ensures tailLost ==>
                && Astray(list, head, tail, count, disk, home, inuse, queue, InUse)
                && tail == old(tail) && list == old(list)[..|old(list)| - 1] && trail == old(trail)
    {
      hide Filled, Homes, Astray, Follows, Kept, R.Find, Keys, Delivered, Handed;
      var ce, k := InCache(R.Wanted(r));
      LastTest(list, head, tail, count, disk, home, inuse, queue, r, k);
      tailLost := false;
      if ce == null {
        retval, ubuffer := HoldMiss(r);
      } else if ce != head && ce.forward == null {
        tailLost := true;
        retval, ubuffer := HoldLast(ce, k);
      } else {
        retval, ubuffer := HoldHit(r, ce, k);
      }
    }

    method HoldLast(ce: Entry, ghost k: nat) returns (retval: int, ubuffer: Entry?)
      requires Reading(list, head, tail, count, disk, home, inuse, queue) && Chain(inuse, inuseHead)
      requires 0 < k == |list| - 1 && list[k] == ce
      modifies this`head, this`tail, this`count, this`list, this`home, this`inuseHead, this`inuse
      modifies list`forward, list`back, ce`direct
      ensures Astray(list, head, tail, count, disk, home, inuse, queue, InUse) && Chain(inuse, inuseHead)
      ensures Kept(old(home), home) && tail == old(tail) && list == old(list)[..k]
      ensures Handed(disk, KeyOf(ce), old(inuse), inuse, retval, ubuffer)
    {
      hide Kept, Chain, Filled, Backward, Homes, Delivered;
      Apart(list, head, tail, count, disk, home, inuse, queue);
      FilledAt(k);
      retval := AioReturn(ce);
      ubuffer := if retval > 0 then ce else null;
      ce.direct := true;
      TakeoffCache(ce, k);
      FilledRest(old(list), k);
      assert forall i :: 0 <= i < |inuse| ==> unchanged(inuse[i]);
      LooseApart(home, list, inuse, queue, ce);
      PutOnInuse(ce);
      KeptHeld(old(list), old(inuse), queue, old(home), k);
    }

    lemma FilledRest(s: seq<Entry>, k: nat)
      requires Filled(s, disk) && k < |s|
      ensures Filled(R.RemoveAt(s, k), disk)
    {
    }

    method HoldHit(r: R.Request, ce: Entry, ghost k: nat) returns (retval: int, ubuffer: Entry?)
      requires Reading(list, head, tail, count, disk, home, inuse, queue) && Chain(inuse, inuseHead)
      requires k < |list| && ce == list[k] && (k == 0 || k + 1 < |list|)
      requires k == R.Find(Keys(list), R.Wanted(r)) && KeyOf(ce) == R.Wanted(r)
      modifies this`head, this`tail, this`count, this`list, this`home, this`trail, this`inuseHead, this`inuse
      modifies list`forward, list`back, ce`direct
      ensures Reading(list, head, tail, count, disk, home, inuse, queue) && Chain(inuse, inuseHead)
          && Kept(old(home), home)
      ensures Follows(old(Keys(list)), old(trail), r, maxDepth, Keys(list), trail)
      ensures Handed(disk, R.Wanted(r), old(inuse), inuse, retval, ubuffer)
    {
      hide Reading, Follows, R.AheadAll, R.Find, Keys, Kept, Chain, ReadListOk, Filled, Homes, Delivered, R.Grown;
      Apart(list, head, tail, count, disk, home, inuse, queue);
      FilledAt(k);
      retval := AioReturn(ce);
      ubuffer := if retval > 0 then ce else null;
      Hold(ce, k);
      Apart(list, head, tail, count, disk, home, inuse, queue);
      ghost var between := home;
      Lookahead(r);
      KeptOn(old(home), between, home);
      HitFollows(old(list), k, list, r, maxDepth, old(trail), trail);
    }

    method HoldMiss(r: R.Request) returns (retval: int, ubuffer: Entry?)
      requires Reading(list, head, tail, count, disk, home, inuse, queue) && Chain(inuse, inuseHead)
      requires R.Find(Keys(list), R.Wanted(r)) == |list|
      modifies this`head, this`tail, this`count, this`list, this`home, this`trail, this`inuseHead, this`inuse
      modifies list`forward, list`back, list`direct
      ensures Reading(list, head, tail, count, disk, home, inuse, queue) && Chain(inuse, inuseHead)
          && Kept(old(home), home)
      ensures Follows(old(Keys(list)), old(trail), r, maxDepth, Keys(list), trail)
      ensures Handed(disk, R.Wanted(r), old(inuse), inuse, retval, ubuffer)
    {
      hide Reading, Follows, R.AheadAll, R.Find, Keys, Kept, Chain, Delivered, R.Grown;
      Apart(list, head, tail, count, disk, home, inuse, queue);
      var first := StartAnew(r);
      MissFollows(old(list), first, list, r, maxDepth, old(trail), trail);
      FilledAt(0);
      retval := AioReturn(first);
      ubuffer := if retval > 0 then first else null;
      ghost var between, all := home, list;
      Hold(first, 0);
      assert list == all[1..];
      KeptOn(old(home), between, home);
    }

    /** Move a finished entry from the read list to the in-use list. */
    method Hold(ce: Entry, ghost k: nat)
      requires Reading(list, head, tail, count, disk, home, inuse, queue) && Chain(inuse, inuseHead)
      requires k < |list| && list[k] == ce && (k == 0 || k + 1 < |list|)
      modifies this`head, this`tail, this`count, this`list, this`home, this`inuseHead, this`inuse
      modifies list`forward, list`back, ce`direct
      ensures list == R.RemoveAt(old(list), k) && inuse == [ce] + old(inuse) && Kept(old(home), home)
      ensures tail == null || tail == old(tail)
      ensures Reading(list, head, tail, count, disk, home, inuse, queue) && Chain(inuse, inuseHead)
    {
      hide Kept, Chain, ReadListOk, Filled, Homes;
      Apart(list, head, tail, count, disk, home, inuse, queue);
      Detach(ce, k);
      assert forall i :: 0 <= i < |inuse| ==> unchanged(inuse[i]);
      LooseApart(home, list, inuse, queue, ce);
      PutOnInuse(ce);
      KeptHeld(old(list), old(inuse), queue, old(home), k);
    }

    /** Take a finished entry off the list but keep it. */
    method Detach(ce: Entry, ghost k: nat)
      requires Reading(list, head, tail, count, disk, home, inuse, queue)
      requires k < |list| && list[k] == ce && (k == 0 || k + 1 < |list|)
      modifies this`head, this`tail, this`count, this`list, this`home
      modifies list`forward, list`back, ce`direct
      ensures list == R.RemoveAt(old(list), k) && home == old(home)[ce := Loose]
      ensures tail == null || tail == old(tail)
      ensures ReadListOk(list, head, tail, count) && Filled(list, disk) && Homes(home, list, inuse, queue, [ce])
    {
      ce.direct := true;
      TakeoffCache(ce, k);
    }

    /** async_put_on_write_queue */
    method PutOnWriteQueue(ce: Entry)
      requires QueueOk(queue, wHead, wTail, wCount) && Carries(queue, pending) && Homes(home, list, inuse, queue, [ce])
      requires !ce.direct
      modifies this`wHead, this`wTail, this`wCount, this`queue, this`pending, this`home, ce`forward, ce`back,
          {wTail}`forward
      ensures queue == old(queue) + [ce] && pending == old(pending) + [WriteRequest(KeyOf(ce), ce.data)]
      ensures home == old(home)[ce := WriteQueue] && wCount == old(wCount) + 1
      ensures QueueOk(queue, wHead, wTail, wCount) && Carries(queue, pending) && Homes(home, list, inuse, queue, [])
    {
      hide Homes, Carries;
      EnqueueHomes(home, list, inuse, queue, ce);
      AppendCarries(queue, pending, ce);
      ghost var s := queue;
      pending, queue := pending + [WriteRequest(KeyOf(ce), ce.data)], s + [ce];
      home := home[ce := WriteQueue];
      LinkAtWriteTail(ce, s);
    }

    method LinkAtWriteTail(ce: Entry, ghost s: seq<Entry>)
      requires QueueOk(s, wHead, wTail, wCount) && ce !in s
      modifies this`wHead, this`wTail, this`wCount, ce`forward, ce`back, {wTail}`forward
      ensures QueueOk(s + [ce], wHead, wTail, wCount) && wCount == old(wCount) + 1
    {
      ChainDistinct(s, wHead);
      ce.forward := null;
      ce.back := wTail;
      if wTail != null {
        wTail.forward := ce;
      }
      wTail := ce;
      if wHead == null {
        wHead := ce;
      }
      wCount := wCount + 1;
      AppendedQueue(s, ce, wHead);
    }

    /** async_wait_for_write: reap the oldest write, if any. */
    method WaitForWrite()
      requires QueueOk(queue, wHead, wTail, wCount) && Carries(queue, pending) && Homes(home, list, inuse, queue, [])
      modifies this`wHead, this`wTail, this`wCount, this`queue, this`pending, this`reaped, this`home, queue`forward
      ensures old(queue) == [] ==> queue == [] && pending == old(pending) && reaped == old(reaped) && home == old(home)
      ensures old(queue) != [] ==>
                && queue == old(queue)[1..] && pending == old(pending)[1..] && reaped == old(reaped) + [old(pending)[0]]
                && home == old(home)[old(queue)[0] := Freed(1)]
      ensures (wTail == null || wTail == old(wTail)) && Kept(old(home), home)
      ensures QueueOk(queue, wHead, wTail, wCount) && Carries(queue, pending) && Homes(home, list, inuse, queue, [])
    {
      hide Carries, Homes;
      if wHead == null {
        return;
      }
      ghost var s := queue;
      ChainDistinct(s, wHead);
      DequeueHomes(home, list, inuse, s);
      RestCarries(s, pending);
      queue, reaped, pending := s[1..], reaped + [pending[0]], pending[1..];
      var ce := UnlinkWriteHead(s);
      if !ce.direct {
        Free(ce);
      }
    }

    method UnlinkWriteHead(ghost s: seq<Entry>) returns (ce: Entry)
      requires QueueOk(s, wHead, wTail, wCount) && s != []
      modifies this`wHead, this`wTail, this`wCount, s`forward
      ensures ce == s[0] && QueueOk(s[1..], wHead, wTail, wCount) && (wTail == null || wTail == old(wTail))
    {
      RestOfQueue(s, wHead);
      ce := wHead;
      wHead := ce.forward;
      wCount := wCount - 1;
      ce.forward := null;
      if ce == wTail {
        wTail := null;
      }
    }

    /** async_write: at most one write is reaped to make room, then this one joins the queue. */
    method AsyncWrite(key: R.Key, buffer: array<byte>, depth: int) returns (out: Wrote)
      requires Valid() && key.size <= buffer.Length
      modifies this`wHead, this`wTail, this`wCount, this`queue, this`pending, this`reaped, this`home, queue`forward
      ensures Valid() && Kept(old(home), home)
      ensures key.fd == 0 ==>
                && out == Exited(178) && queue == old(queue) && pending == old(pending) && reaped == old(reaped)
      ensures key.fd != 0 ==>
                && out == Accepted(key.size)
                && reaped + pending == old(reaped + pending) + [WriteRequest(key, buffer[..key.size])]
                && wCount == NextWCount(old(wCount), depth)
    {
      hide Homes, Chain, ReadListOk, Filled, QueueOk, Carries, Kept, NextWCount;
      KeptSame(home);
      if key.fd == 0 {
        return Exited(178);
      }
      Apart(list, head, tail, count, disk, home, inuse, queue);
      WriteThrough(key, buffer, depth);
      out := Accepted(key.size);
      assert forall i :: 0 <= i < |list| ==> unchanged(list[i]);
      assert forall i :: 0 <= i < |inuse| ==> unchanged(inuse[i]);
    }

    method WriteThrough(key: R.Key, buffer: array<byte>, depth: int)
      requires QueueOk(queue, wHead, wTail, wCount) && Carries(queue, pending) && Homes(home, list, inuse, queue, [])
      requires key.size <= buffer.Length
      modifies this`wHead, this`wTail, this`wCount, this`queue, this`pending, this`reaped, this`home, queue`forward
      ensures reaped + pending == old(reaped + pending) + [WriteRequest(key, buffer[..key.size])]
      ensures wCount == NextWCount(old(wCount), depth) && Kept(old(home), home)
      ensures QueueOk(queue, wHead, wTail, wCount) && Carries(queue, pending) && Homes(home, list, inuse, queue, [])
    {
      hide Kept, Homes, QueueOk, Carries, NextWCount;
      QueueEmptyTogether(queue, wHead, wTail, wCount);
      MakeRoom(depth);
      ghost var between := home;
      var ce := AllocateWriteBuffer(key, buffer);
      PutOnWriteQueue(ce);
      KeptFresh(between, ce);
      KeptOn(old(home), between, home);
    }

    /** The wait in allocate_write_buffer. */
    method MakeRoom(depth: int)
      requires QueueOk(queue, wHead, wTail, wCount) && Carries(queue, pending) && Homes(home, list, inuse, queue, [])
      modifies this`wHead, this`wTail, this`wCount, this`queue, this`pending, this`reaped, this`home, queue`forward
      ensures reaped + pending == old(reaped + pending)
      ensures wCount + 1 == NextWCount(old(wCount), depth) && Kept(old(home), home)
      ensures wTail == null || wTail == old(wTail)
      ensures QueueOk(queue, wHead, wTail, wCount) && Carries(queue, pending) && Homes(home, list, inuse, queue, [])
    {
      if wCount > depth {
        WaitForWrite();
      }
    }

    method AllocateWriteBuffer(key: R.Key, buffer: array<byte>) returns (ce: Entry)
      requires Homes(home, list, inuse, queue, []) && key.size <= buffer.Length
      modifies this`home
      ensures fresh(ce) && KeyOf(ce) == key && !ce.direct && ce.data == buffer[..key.size]
      ensures ce !in old(home) && home == old(home)[ce := Loose] && Homes(home, list, inuse, queue, [ce])
    {
      ce := new Entry(key.fd, key.offset, key.size);
      LooseHomes(home, list, inuse, queue, ce);
      home := home[ce := Loose];
      ce.data := buffer[..key.size];
    }

    /** async_write_finish: reap until nothing is queued. */
    method WriteFinish()
      requires QueueOk(queue, wHead, wTail, wCount) && Carries(queue, pending) && Homes(home, list, inuse, queue, [])
      modifies this`wHead, this`wTail, this`wCount, this`queue, this`pending, this`reaped, this`home, queue`forward
      ensures queue == [] && reaped == old(reaped + pending) && Kept(old(home), home)
      ensures QueueOk(queue, wHead, wTail, wCount) && Carries(queue, pending) && Homes(home, list, inuse, queue, [])
    {
      hide Homes, Carries;
      ghost var n := 0;
      while wHead != null
        invariant n <= |old(queue)| && queue == old(queue)[n..]
        invariant reaped + pending == old(reaped + pending) && Kept(old(home), home)
        invariant QueueOk(queue, wHead, wTail, wCount) && Carries(queue, pending) && Homes(home, list, inuse, queue, [])
        invariant list == old(list) && inuse == old(inuse)
        decreases |queue|
      {
        CarriesAll(queue, pending);
        ghost var before := home;
        WaitForWrite();
        KeptOn(old(home), before, home);
        n := n + 1;
      }
      CarriesAll(queue, pending);
    }

    /** end_async. */
    method EndAsync()
      requires Valid()
      modifies this`head, this`tail, this`count, this`list, this`wHead, this`wTail, this`wCount, this`queue
      modifies this`pending, this`reaped, this`home, list`forward, list`back, list`direct, queue`forward
      ensures list == [] && queue == [] && reaped == old(reaped + pending) && Kept(old(home), home)
      ensures forall e :: e in home ==> home[e] == if e in inuse then InUse else Freed(1)
    {
      hide Homes, Chain, ReadListOk, Filled, QueueOk, Carries, Kept;
      Apart(list, head, tail, count, disk, home, inuse, queue);
      QueueEmptyTogether(queue, wHead, wTail, wCount);
      CarriesAll(queue, pending);
      DelCache();
      ghost var between := home;
      assert forall i :: 0 <= i < |queue| ==> unchanged(queue[i]);
      if wHead != null {
        WriteFinish();
        KeptOn(old(home), between, home);
      }
      AllFreed(home, inuse);
    }
  }
}
