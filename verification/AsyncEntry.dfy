/** The entries libasync links into its lists, and what well-formed lists of them are. */
module AsyncEntry {
  import opened Posix
  import R = ReadAhead

  /** struct cache_ent.  The request never changes once the entry is made. */
  class Entry {
    const fd: int
    const offset: int
    const size: nat
    var forward: Entry?
    var back: Entry?
    var direct: bool
    /** What aio_buf holds. */
    var data: seq<byte>

    constructor (fd: int, offset: int, size: nat)
      ensures this.fd == fd && this.offset == offset && this.size == size
      ensures forward == null && back == null && !direct
    {
      this.fd, this.offset, this.size := fd, offset, size;
      forward, back, direct, data := null, null, false, [];
    }
  }

  /** Where an entry is; `Loose` is in the hands of the running call. */
  datatype Place = ReadList | InUse | WriteQueue | Loose | Freed(times: nat)

  datatype WriteRequest = WriteRequest(key: R.Key, data: seq<byte>)

  /** What async_write gives back, or the status the process exits with. */
  datatype Wrote = Accepted(bytes: nat) | Exited(status: int)

  function KeyOf(e: Entry): R.Key { R.Key(e.fd, e.offset, e.size) }

  function Keys(s: seq<Entry>): (keys: seq<R.Key>)
    ensures |keys| == |s|
  {
    seq(|s|, i requires 0 <= i < |s| => KeyOf(s[i]))
  }

  function At(s: seq<Entry>, i: int): Entry? {
    if 0 <= i < |s| then s[i] else null
  }

  function Last(s: seq<Entry>): Entry? { At(s, |s| - 1) }

  /** From `head` the forward pointers spell out `s`. */
  ghost predicate Chain(s: seq<Entry>, head: Entry?)
    reads s`forward
  {
    head == At(s, 0) && forall i {:trigger s[i].forward} :: 0 <= i < |s| ==> s[i].forward == At(s, i + 1)
  }

  /** The back pointers spell it out the other way. */
  ghost predicate Backward(s: seq<Entry>)
    reads s`back
  {
    forall i {:trigger s[i].back} :: 0 <= i < |s| ==> s[i].back == At(s, i - 1)
  }

  ghost predicate Distinct(s: seq<Entry>) {
    forall i, j :: 0 <= i < j < |s| ==> s[i] != s[j]
  }

  /** A chain that ends never comes round again. */
  lemma ChainDistinct(s: seq<Entry>, head: Entry?)
    requires Chain(s, head)
    ensures Distinct(s)
  {
    forall i, j | 0 <= i < j < |s|
      ensures s[i] != s[j]
    {
      NoReturn(s, head, i, j);
    }
  }

  lemma {:induction false} NoReturn(s: seq<Entry>, head: Entry?, i: nat, j: nat)
    requires Chain(s, head) && i < j < |s|
    ensures s[i] != s[j]
    decreases |s| - j
  {
    assert s[i].forward == s[i + 1] && s[j].forward == At(s, j + 1);
    if j + 1 < |s| {
      NoReturn(s, head, i + 1, j + 1);
    }
  }

  /** What an aio_read of a block delivers in the end: the bytes, or none and a failure. */
  function Delivered(disk: int -> seq<byte>, k: R.Key): seq<byte> {
    if k.offset < 0 then [] else Pread(disk(k.fd), k.size, k.offset)
  }

  function Returned(disk: int -> seq<byte>, k: R.Key): int {
    if k.offset < 0 then -1 else |Delivered(disk, k)|
  }

  /** The caller got what the file holds there: `now` is its buffer, which was `was`. */
  ghost predicate Answered(disk: int -> seq<byte>, k: R.Key, was: seq<byte>, now: seq<byte>, retval: int) {
    var bytes := Delivered(disk, k);
    retval == Returned(disk, k) && |bytes| <= |was| && now == Overlay(was, bytes, 0)
  }

  /** The caller got the buffer of the entry now first among those in use, which holds what the
      file holds there, or nothing when there is nothing. */
  ghost predicate Handed(disk: int -> seq<byte>, k: R.Key, was: seq<Entry>, now: seq<Entry>, retval: int,
                         ubuffer: Entry?)
    reads now`data
  {
    && now != [] && now[1..] == was && KeyOf(now[0]) == k && now[0].data == Delivered(disk, k)
    && retval == Returned(disk, k) && ubuffer == if retval > 0 then now[0] else null
  }

  /** In so many words: a call for a negative offset fails; any other gets the bytes the file has there,
      up to the size asked for, and returns how many. */
  lemma AnsweredMeans(disk: int -> seq<byte>, k: R.Key, was: seq<byte>, now: seq<byte>, retval: int)
    requires Answered(disk, k, was, now, retval)
    ensures k.offset < 0 ==> retval == -1 && now == was
    ensures k.offset >= 0 ==>
              var file := disk(k.fd);
              && retval == Max(0, Min(k.size, |file| - k.offset)) && |now| == |was|
              && forall i :: 0 <= i < |now| ==> now[i] == if i < retval then file[k.offset + i] else was[i]
  {
  }

  /** And the zero-copy call hands out a buffer with them. */
  lemma HandedMeans(disk: int -> seq<byte>, k: R.Key, was: seq<Entry>, now: seq<Entry>, retval: int, ubuffer: Entry?)
    requires Handed(disk, k, was, now, retval, ubuffer)
    ensures k.offset < 0 ==> retval == -1
    ensures k.offset >= 0 ==> retval == Max(0, Min(k.size, |disk(k.fd)| - k.offset))
    ensures if retval <= 0 then ubuffer == null
            else ubuffer != null && ubuffer.data == disk(k.fd)[k.offset..k.offset + retval]
  {
  }

  /** The list of keys, the log of submissions and that of the list at each of them moved on as the
      policy says. */
  ghost predicate Follows(keys: seq<R.Key>, trail: R.Trail, r: R.Request, maxDepth: int, keysAfter: seq<R.Key>,
                          trailAfter: R.Trail) {
    var o := R.AsyncRead(keys, r, maxDepth);
    && keysAfter == o.keys
    && trailAfter.submitted == trail.submitted + o.submitted
    && trailAfter.moments == trail.moments + R.Growth(o.peak, |o.submitted|)
  }

  /** The read-ahead list: one acyclic doubly linked list, whose entries hold their blocks. */
  ghost predicate ReadListOk(s: seq<Entry>, head: Entry?, tail: Entry?, count: int)
    reads s`forward, s`back
  {
    Chain(s, head) && Backward(s) && tail == Last(s) && count == |s|
  }

  ghost predicate Filled(s: seq<Entry>, disk: int -> seq<byte>)
    reads s`data
  {
    forall e :: e in s ==> e.data == Delivered(disk, KeyOf(e))
  }

  ghost predicate QueueOk(s: seq<Entry>, head: Entry?, tail: Entry?, count: int)
    reads s`forward
  {
    Chain(s, head) && tail == Last(s) && count == |s|
  }

  /** The queue carries the requests not yet reaped, in buffers the library frees. */
  ghost predicate Carries(s: seq<Entry>, pending: seq<WriteRequest>)
    reads s`data, s`direct
  {
    |pending| == |s| && forall i :: 0 <= i < |s| ==> pending[i] == WriteRequest(KeyOf(s[i]), s[i].data) && !s[i].direct
  }

  /** The entries in place `p` are those of `s`. */
  ghost predicate Placed(home: map<Entry, Place>, s: seq<Entry>, p: Place) {
    && (forall e :: e in s ==> e in home && home[e] == p)
    && (forall e :: e in home && home[e] == p ==> e in s)
  }

  /** What free() makes of an entry's place: it counts. */
  function AfterFree(home: map<Entry, Place>, e: Entry): Place {
    if e in home && home[e].Freed? then Freed(home[e].times + 1) else Freed(1)
  }

  /** No entry was ever freed twice. */
  ghost predicate FreedOnce(home: map<Entry, Place>) {
    forall e :: e in home && home[e].Freed? ==> home[e].times == 1
  }

  /** Every entry ever allocated is in one place only: on one of the lists, in hand, or freed, once. */
  ghost predicate Homes(home: map<Entry, Place>, list: seq<Entry>, inuse: seq<Entry>, queue: seq<Entry>,
                        loose: seq<Entry>) {
    && Placed(home, list, ReadList) && Placed(home, inuse, InUse)
    && Placed(home, queue, WriteQueue) && Placed(home, loose, Loose)
    && FreedOnce(home)
  }

  /** The read side alone: the list, its data, and where the entries are. */
  ghost predicate Reading(list: seq<Entry>, head: Entry?, tail: Entry?, count: int, disk: int -> seq<byte>,
                          home: map<Entry, Place>, inuse: seq<Entry>, queue: seq<Entry>)
    reads list`forward, list`back, list`data
  {
    ReadListOk(list, head, tail, count) && Filled(list, disk) && Homes(home, list, inuse, queue, [])
  }

  /** The read side after the last entry of a longer list was taken off: all is right but the tail
      pointer, which points at that entry in its new place. */
  ghost predicate Astray(list: seq<Entry>, head: Entry?, tail: Entry?, count: int, disk: int -> seq<byte>,
                         home: map<Entry, Place>, inuse: seq<Entry>, queue: seq<Entry>, place: Place)
    reads list`forward, list`back, list`data
  {
    && list != [] && Chain(list, head) && Backward(list) && count == |list| && Filled(list, disk)
    && Homes(home, list, inuse, queue, [])
    && tail != null && tail in home && home[tail] == place && tail != Last(list)
  }

  /** The other two lists: entries handed to callers, and writes not yet reaped. */
  ghost predicate Elsewhere(inuse: seq<Entry>, inuseHead: Entry?, queue: seq<Entry>, wHead: Entry?, wTail: Entry?,
                            wCount: int,
                            pending: seq<WriteRequest>)
    reads inuse`forward, queue`forward, queue`data, queue`direct
  {
    Chain(inuse, inuseHead) && QueueOk(queue, wHead, wTail, wCount) && Carries(queue, pending)
  }

  /** Entries do not vanish, and what is freed stays freed. */
  ghost predicate Kept(before: map<Entry, Place>, after: map<Entry, Place>) {
    forall e :: e in before ==> e in after && (before[e].Freed? ==> after[e] == before[e])
  }

  lemma AppendHomes(home: map<Entry, Place>, list: seq<Entry>, inuse: seq<Entry>, queue: seq<Entry>, e: Entry)
    requires Homes(home, list, inuse, queue, []) && e !in home
    ensures e !in list
    ensures Homes(home[e := ReadList], list + [e], inuse, queue, [])
  {
  }

  lemma TakeoffHomes(home: map<Entry, Place>, list: seq<Entry>, inuse: seq<Entry>, queue: seq<Entry>, k: nat,
                     e: Entry, p: Place)
    requires Homes(home, list, inuse, queue, []) && Distinct(list) && k < |list| && list[k] == e
    requires p == Loose || p == Freed(1)
    ensures e in home && home[e] == ReadList
    ensures Homes(home[e := p], R.RemoveAt(list, k), inuse, queue, if p == Loose then [e] else [])
  {
    var rest := R.RemoveAt(list, k);
    forall x | x in list && x != e
      ensures x in rest
    {
      var i :| 0 <= i < |list| && list[i] == x;
      assert rest[if i < k then i else i - 1] == x;
    }
  }

  lemma RemoveKeys(list: seq<Entry>, k: nat)
    requires k < |list|
    ensures Keys(R.RemoveAt(list, k)) == R.RemoveAt(Keys(list), k)
  {
  }

  lemma AppendKeys(list: seq<Entry>, e: Entry)
    ensures Keys(list + [e]) == Keys(list) + [KeyOf(e)]
  {
  }

  /** More entries added to those added before. */
  lemma MoreGrown(trail: R.Trail, before: seq<Entry>, n: nat, more: seq<Entry>)
    requires n <= |before|
    ensures R.Grown(R.Grown(trail, Keys(before), n), Keys(before + more), |more|)
         == R.Grown(trail, Keys(before + more), n + |more|)
  {
    assert Keys(before) <= Keys(before + more);
    R.GrownMore(trail, Keys(before), n, Keys(before + more), |more|);
  }

  lemma AppendedLinks(list: seq<Entry>, e: Entry, head: Entry?)
    requires forall i {:trigger list[i].back} :: 0 <= i < |list| ==> list[i].back == At(list, i - 1)
    requires forall i {:trigger list[i].forward} :: 0 <= i < |list| ==> list[i].forward == At(list + [e], i + 1)
    requires e.forward == null && e.back == Last(list)
    requires head == At(list + [e], 0)
    ensures ReadListOk(list + [e], head, e, |list| + 1)
  {
    var all := list + [e];
    forall i | 0 <= i < |all|
      ensures all[i].forward == At(all, i + 1) && all[i].back == At(all, i - 1)
    {
      if i < |list| {
        assert all[i] == list[i];
      }
    }
  }

  /** The links around entry `k` lead past it, all others are as they were. */
  ghost predicate Bypassed(list: seq<Entry>, k: nat)
    requires k < |list|
    reads list`forward, list`back
  {
    && (forall i {:trigger list[i].forward} :: 0 <= i < |list| && i != k ==>
          list[i].forward == if i + 1 == k then At(list, k + 1) else At(list, i + 1))
    && (forall i {:trigger list[i].back} :: 0 <= i < |list| && i != k ==>
          list[i].back == if i == k + 1 then At(list, k - 1) else At(list, i - 1))
  }

  lemma BypassedLinks(list: seq<Entry>, k: nat, head: Entry?)
    requires k < |list| && Bypassed(list, k)
    requires head == if k == 0 then At(list, 1) else list[0]
    ensures var rest := R.RemoveAt(list, k);
            Chain(rest, head) && Backward(rest)
  {
    var rest := R.RemoveAt(list, k);
    forall i | 0 <= i < |rest|
      ensures rest[i].forward == At(rest, i + 1) && rest[i].back == At(rest, i - 1)
    {
      var j := if i < k then i else i + 1;
      assert rest[i] == list[j];
    }
  }

  lemma LastOfRest(list: seq<Entry>, k: nat)
    requires Distinct(list) && k < |list|
    ensures var rest := R.RemoveAt(list, k);
            && (|list| == 1 ==> Last(rest) == null)
            && (|list| > 1 ==> (Last(rest) == Last(list) <==> k + 1 < |list|))
  {
  }

  lemma {:induction false} FindIs(keys: seq<R.Key>, k: R.Key, i: nat)
    requires i <= |keys| && forall j :: 0 <= j < i ==> keys[j] != k
    requires i < |keys| ==> keys[i] == k
    ensures R.Find(keys, k) == i
    decreases i
  {
    if i > 0 {
      FindIs(keys[1..], k, i - 1);
    }
  }

  /** A call that found its block at `k` did what the policy says. */
  lemma HitFollows(before: seq<Entry>, k: nat, after: seq<Entry>, r: R.Request, maxDepth: int, was: R.Trail,
                   now: R.Trail)
    requires k < |before| && k == R.Find(Keys(before), R.Wanted(r))
    requires var rest := R.RemoveAt(before, k);
             rest <= after && Keys(after) == R.AheadAll(Keys(rest), r, maxDepth)
    requires now == R.Grown(was, Keys(after), |after| - (|before| - 1))
    ensures Follows(Keys(before), was, r, maxDepth, Keys(after), now)
  {
    hide R.AheadAll, R.Find;
    RemoveKeys(before, k);
  }

  /** So did a call that started anew with `first`. */
  lemma MissFollows(before: seq<Entry>, first: Entry, after: seq<Entry>, r: R.Request, maxDepth: int,
                    was: R.Trail, now: R.Trail)
    requires |before| == R.Find(Keys(before), R.Wanted(r)) && KeyOf(first) == R.Wanted(r)
    requires [first] <= after && Keys(after) == R.AheadAll(Keys([first]), r, maxDepth)
    requires now == R.Grown(was, Keys(after), |after|)
    ensures Follows(Keys(before), was, r, maxDepth, Keys(after[1..]), now)
  {
    hide R.AheadAll, R.Find;
    assert Keys([first]) == [R.Wanted(r)];
  }

  lemma Apart(list: seq<Entry>, head: Entry?, tail: Entry?, count: int, disk: int -> seq<byte>,
              home: map<Entry, Place>, inuse: seq<Entry>, queue: seq<Entry>)
    requires Reading(list, head, tail, count, disk, home, inuse, queue)
    ensures forall i :: 0 <= i < |inuse| ==> inuse[i] !in list && inuse[i] !in queue
    ensures forall i :: 0 <= i < |queue| ==> queue[i] !in list
    ensures tail == null || tail in list
  {
    assert list != [] ==> list[|list| - 1] in list;
  }

  /** The entry found is not the first, and has no successor. */
  lemma LastTest(list: seq<Entry>, head: Entry?, tail: Entry?, count: int, disk: int -> seq<byte>,
                 home: map<Entry, Place>, inuse: seq<Entry>, queue: seq<Entry>, r: R.Request, k: nat)
    requires Reading(list, head, tail, count, disk, home, inuse, queue)
    requires k == R.Find(Keys(list), R.Wanted(r))
    ensures R.TakesTail(Keys(list), r) <==> k < |list| && list[k] != head && list[k].forward == null
  {
    hide R.Find, R.Wanted, Homes, Filled, Backward;
    ChainDistinct(list, head);
    if k < |list| {
      assert list[k].forward == At(list, k + 1);
    }
  }

  lemma KeptOn(a: map<Entry, Place>, b: map<Entry, Place>, c: map<Entry, Place>)
    requires Kept(a, b) && Kept(b, c)
    ensures Kept(a, c)
  {
  }

  lemma KeptFreed(list: seq<Entry>, inuse: seq<Entry>, queue: seq<Entry>, home: map<Entry, Place>, k: nat)
    requires Homes(home, list, inuse, queue, []) && k < |list|
    ensures Kept(home, home[list[k] := Freed(1)])
  {
  }

  lemma InuseHomes(home: map<Entry, Place>, list: seq<Entry>, inuse: seq<Entry>, queue: seq<Entry>, e: Entry)
    requires Homes(home, list, inuse, queue, [e])
    ensures e in home && home[e] == Loose && e !in inuse && e !in list
    ensures Homes(home[e := InUse], list, [e] + inuse, queue, [])
  {
    assert e in [e];
  }

  lemma ReleaseHomes(home: map<Entry, Place>, list: seq<Entry>, inuse: seq<Entry>, queue: seq<Entry>)
    requires Homes(home, list, inuse, queue, []) && Distinct(inuse) && inuse != []
    ensures inuse[0] in home && home[inuse[0]] == InUse
    ensures Homes(home[inuse[0] := Freed(1)], list, inuse[1..], queue, [])
  {
  }

  lemma EnqueueHomes(home: map<Entry, Place>, list: seq<Entry>, inuse: seq<Entry>, queue: seq<Entry>, e: Entry)
    requires Homes(home, list, inuse, queue, [e])
    ensures e in home && home[e] == Loose && e !in queue && e !in list && e !in inuse
    ensures Homes(home[e := WriteQueue], list, inuse, queue + [e], [])
  {
    assert e in [e];
  }

  lemma DequeueHomes(home: map<Entry, Place>, list: seq<Entry>, inuse: seq<Entry>, queue: seq<Entry>)
    requires Homes(home, list, inuse, queue, []) && Distinct(queue) && queue != []
    ensures queue[0] in home && home[queue[0]] == WriteQueue
    ensures Homes(home[queue[0] := Freed(1)], list, inuse, queue[1..], [])
  {
  }

  /** w_head, w_tail and w_count agree on whether anything is queued. */
  lemma QueueEmptyTogether(s: seq<Entry>, head: Entry?, tail: Entry?, count: int)
    requires QueueOk(s, head, tail, count)
    ensures count == |s|
    ensures (head == null <==> count == 0) && (tail == null <==> count == 0)
    ensures tail == null || tail in s
  {
    assert s != [] ==> head == s[0] && tail == s[|s| - 1];
  }

  lemma AppendedQueue(s: seq<Entry>, e: Entry, head: Entry?)
    requires forall i {:trigger s[i].forward} :: 0 <= i < |s| ==> s[i].forward == At(s + [e], i + 1)
    requires e.forward == null && head == At(s + [e], 0)
    ensures QueueOk(s + [e], head, e, |s| + 1)
  {
    var all := s + [e];
    forall i | 0 <= i < |all|
      ensures all[i].forward == At(all, i + 1)
    {
      if i < |s| {
        assert all[i] == s[i];
      }
    }
  }

  lemma RestOfQueue(s: seq<Entry>, head: Entry?)
    requires Chain(s, head) && s != []
    ensures Chain(s[1..], s[0].forward)
    ensures s[1..] == [] <==> s[0] == Last(s)
    ensures s[1..] != [] ==> Last(s[1..]) == Last(s)
    ensures forall i :: 0 <= i < |s[1..]| ==> s[1..][i] != s[0]
  {
    ChainDistinct(s, head);
    forall i | 0 <= i < |s[1..]|
      ensures s[1..][i].forward == At(s[1..], i + 1)
    {
      assert s[1..][i] == s[i + 1];
    }
  }

  lemma AppendCarries(s: seq<Entry>, pending: seq<WriteRequest>, e: Entry)
    requires Carries(s, pending) && !e.direct
    ensures Carries(s + [e], pending + [WriteRequest(KeyOf(e), e.data)])
  {
  }

  lemma RestCarries(s: seq<Entry>, pending: seq<WriteRequest>)
    requires Carries(s, pending) && s != []
    ensures |pending| == |s| && !s[0].direct
    ensures Carries(s[1..], pending[1..])
  {
  }

  lemma KeptHeld(list: seq<Entry>, inuse: seq<Entry>, queue: seq<Entry>, home: map<Entry, Place>, k: nat)
    requires Homes(home, list, inuse, queue, []) && k < |list|
    ensures Kept(home, home[list[k] := Loose][list[k] := InUse])
  {
  }

  lemma LooseApart(home: map<Entry, Place>, list: seq<Entry>, inuse: seq<Entry>, queue: seq<Entry>, e: Entry)
    requires Homes(home, list, inuse, queue, [e])
    ensures forall i :: 0 <= i < |list| ==> list[i] != e
  {
    assert e in [e];
  }

  lemma LooseHomes(home: map<Entry, Place>, list: seq<Entry>, inuse: seq<Entry>, queue: seq<Entry>, e: Entry)
    requires Homes(home, list, inuse, queue, []) && e !in home
    ensures Homes(home[e := Loose], list, inuse, queue, [e])
  {
  }

  /** With all three lists empty only entries in callers' hands are not freed. */
  lemma AllFreed(home: map<Entry, Place>, inuse: seq<Entry>)
    requires Homes(home, [], inuse, [], [])
    ensures forall e :: e in home ==> home[e] == if e in inuse then InUse else Freed(1)
  {
    forall e | e in home
      ensures home[e] == if e in inuse then InUse else Freed(1)
    {
      assert home[e].ReadList? || home[e].InUse? || home[e].WriteQueue? || home[e].Loose? || home[e].Freed?;
    }
  }

  /** w_count after one async_write with the given depth. */
  function NextWCount(count: nat, depth: int): nat {
    (if count > depth && count > 0 then count - 1 else count) + 1
  }

  /** After writes with the given depths, from an empty queue. */
  function WCount(depths: seq<int>): nat {
    if depths == [] then 0 else NextWCount(WCount(depths[..|depths| - 1]), depths[|depths| - 1])
  }

  /** Whatever the depths, as long as none exceeds `most`. */
  lemma {:induction false} WritesBounded(depths: seq<int>, most: nat)
    requires forall i :: 0 <= i < |depths| ==> depths[i] <= most
    ensures WCount(depths) <= most + 1
  {
    if depths != [] {
      WritesBounded(depths[..|depths| - 1], most);
    }
  }

  /** With one depth throughout the queue fills up to one more than it, and stays there. */
  lemma {:induction false} WritesFill(depths: seq<int>, depth: nat)
    requires forall i :: 0 <= i < |depths| ==> depths[i] == depth
    ensures WCount(depths) == Min(|depths|, depth + 1)
  {
    if depths != [] {
      WritesFill(depths[..|depths| - 1], depth);
    }
  }

  lemma KeptFresh(home: map<Entry, Place>, e: Entry)
    requires e !in home
    ensures Kept(home, home[e := Loose][e := WriteQueue])
  {
  }

  lemma KeptSame(home: map<Entry, Place>)
    ensures Kept(home, home)
  {
  }

  lemma CarriesAll(s: seq<Entry>, pending: seq<WriteRequest>)
    requires Carries(s, pending)
    ensures |pending| == |s|
  {
  }
}
