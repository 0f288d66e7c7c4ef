/** What fileop times: which readings of the clock each sample is made of. */
module FileTimes {
  import opened FileTree
  import opened FileopStats

  /** Two readings of the clock, by their numbers. */
  datatype Span = Span(start: nat, end: nat)

  /** A sample adds up the time between readings, for dir_traverse on the way down and on the way up. */
  type Timing = seq<Span>

  function Elapsed(clock: nat -> real, timing: Timing): real {
    if timing == [] then 0.0
    else
      var last := timing[|timing| - 1];
      Elapsed(clock, timing[..|timing| - 1]) + (clock(last.end) - clock(last.start))
  }

  /** Time does not run backwards in a report. */
  function Sample(clock: nat -> real, timing: Timing): real {
    if Elapsed(clock, timing) < 0.0 then 0.0 else Elapsed(clock, timing)
  }

  lemma SampleIs(clock: nat -> real, timing: Timing, elapsed: real)
    requires elapsed == Elapsed(clock, timing)
    ensures Sample(clock, timing) == if elapsed < 0.0 then 0.0 else elapsed
  {
  }

  function Samples(clock: nat -> real, times: seq<Timing>): (samples: seq<real>)
    ensures |samples| == |times|
  {
    seq(|times|, i requires 0 <= i < |times| => Sample(clock, times[i]))
  }

  lemma SamplesMore(clock: nat -> real, times: seq<Timing>, timing: Timing)
    ensures Samples(clock, times + [timing]) == Samples(clock, times) + [Sample(clock, timing)]
  {
  }

  lemma OneSpan(clock: nat -> real, start: nat, end: nat)
    ensures Elapsed(clock, [Span(start, end)]) == clock(end) - clock(start)
  {
    assert [Span(start, end)][..0] == [];
    assert Elapsed(clock, []) == 0.0;
  }

  lemma TwoSpans(clock: nat -> real, a: Span, b: Span)
    ensures Elapsed(clock, [a, b]) == (clock(a.end) - clock(a.start)) + (clock(b.end) - clock(b.start))
  {
    assert [a, b][..1] == [a];
    OneSpan(clock, a.start, a.end);
  }

  /* ---- the readings of a test, in the order of its loops ---- */

  datatype Call =
    | SysMkdir | SysChdir | SysChdirUp | SysRmdir
    | SysCreat | SysWrite | SysClose | SysOpen | SysRead
    | SysStat | SysAccess | SysChmod | SysReaddir | SysLink | SysUnlink

  /** A system call, and how often the clock had been read when it was made. */
  datatype Act = Act(call: Call, at: nat)

  /** The samples so far, how often the clock was read, and the system calls made. */
  datatype Log = Log(times: seq<Timing>, ticks: nat, acts: seq<Act>)

  /** file_create also times write and close, and file_read open. */
  function LeafTicks(t: Test): nat {
    match t
    case FileCreate => 6
    case FileRead => 4
    case _ => 2
  }

  /** A pair of readings around one call. */
  function AddPair(c: Call, l: Log): Log {
    Log(l.times + [[Span(l.ticks, l.ticks + 1)]], l.ticks + 2, l.acts + [Act(c, l.ticks + 1)])
  }

  /** A call outside of any. */
  function AddAct(c: Call, l: Log): Log { l.(acts := l.acts + [Act(c, l.ticks)]) }

  /** A pair of readings for statistics of another kind. */
  function AddOther(c: Call, l: Log): Log {
    Log(l.times, l.ticks + 2, l.acts + [Act(c, l.ticks + 1)])
  }

  /** What the readings of a sample of the test stand around. */
  function TimedCall(t: Test): Call {
    match t
    case DirCreate => SysMkdir
    case DirTraverse => SysChdir
    case DirDelete => SysRmdir
    case FileCreate => SysCreat
    case FileStat => SysStat
    case FileRead => SysRead
    case FileAccess => SysAccess
    case FileChmod => SysChmod
    case FileReaddir => SysReaddir
    case FileLink => SysLink
    case FileUnlink => SysUnlink
    case FileDelete => SysUnlink
  }

  /** The body of the innermost loop.  file_create also times write and close, and file_read open. */
  function AddLeaf(t: Test, l: Log): Log {
    match t
    case DirCreate => AddAct(SysChdirUp, AddAct(SysChdir, AddPair(SysMkdir, l)))
    case DirTraverse =>
      Log(l.times + [[Span(l.ticks, l.ticks + 1)]], l.ticks + 2,
        l.acts + [Act(SysChdir, l.ticks + 1), Act(SysChdirUp, l.ticks + 1)])
    case DirDelete => AddPair(SysRmdir, AddAct(SysChdirUp, AddAct(SysChdir, l)))
    case FileCreate => AddOther(SysClose, AddOther(SysWrite, AddPair(SysCreat, l)))
    case FileRead => AddAct(SysClose, AddPair(SysRead, AddOther(SysOpen, l)))
    case _ => AddPair(TimedCall(t), l)
  }

  lemma LeafShape(t: Test, l: Log)
    ensures var m, start := AddLeaf(t, l), if t.FileRead? then l.ticks + 2 else l.ticks;
            && m.times == l.times + [[Span(start, start + 1)]]
            && m.ticks == AddLeaf(t, Log([], l.ticks, l.acts)).ticks
            && m.acts == AddLeaf(t, Log([], l.ticks, l.acts)).acts
  {
  }

  lemma ReadLog(ticks: nat, acts: seq<Act>)
    ensures AddLeaf(FileRead, Log([], ticks, acts)).ticks == ticks + 4
    ensures AddLeaf(FileRead, Log([], ticks, acts)).acts
         == acts + [Act(SysOpen, ticks + 1)] + [Act(SysRead, ticks + 3)] + [Act(SysClose, ticks + 4)]
  {
  }

  function AddLeaves(t: Test, n: nat, l: Log): Log {
    if n == 0 then l else AddLeaf(t, AddLeaves(t, n - 1, l))
  }

  /** On the way down: readings around the mkdir of dir_create, and around the chdir of dir_traverse, to
      be counted later. */
  function AddEnter(t: Test, l: Log): Log {
    match t
    case DirCreate => AddAct(SysChdir, AddPair(SysMkdir, l))
    case FileCreate => AddAct(SysChdir, AddAct(SysMkdir, l))
    case DirTraverse => AddOther(SysChdir, l)
    case _ => AddAct(SysChdir, l)
  }

  /** On the way up: readings around the chdir of dir_traverse, with those on the way down at `entered`;
      around the rmdir of dir_delete. */
  function AddLeave(t: Test, entered: nat, l: Log): Log {
    match t
    case DirTraverse =>
      AddOther(SysChdirUp, l).(times := l.times + [[Span(entered, entered + 1), Span(l.ticks, l.ticks + 1)]])
    case DirDelete => AddPair(SysRmdir, AddAct(SysChdirUp, l))
    case FileDelete => AddAct(SysRmdir, AddAct(SysChdirUp, l))
    case _ => AddAct(SysChdirUp, l)
  }

  function AddSub(t: Test, x: nat, l: Log): Log {
    var e := AddEnter(t, l);
    AddLeave(t, l.ticks, if t.FileReaddir? then AddPair(SysReaddir, e) else AddLeaves(t, x, e))
  }

  function AddSubs(t: Test, n: nat, x: nat, l: Log): Log {
    if n == 0 then l else AddSub(t, x, AddSubs(t, n - 1, x, l))
  }

  function AddTop(t: Test, x: nat, l: Log): Log {
    AddLeave(t, l.ticks, AddSubs(t, x, x, AddEnter(t, l)))
  }

  function AddTops(t: Test, n: nat, x: nat, l: Log): Log {
    if n == 0 then l else AddTop(t, x, AddTops(t, n - 1, x, l))
  }

  /** All of a test, from reading `ticks` of the clock on. */
  function TestLog(t: Test, x: nat, ticks: nat, acts: seq<Act>): Log { AddTops(t, x, x, Log([], ticks, acts)) }

  /* ---- how many ---- */

  lemma {:induction false} LeavesCounted(t: Test, n: nat, l: Log)
    ensures |AddLeaves(t, n, l).times| == |l.times| + n
  {
    if n > 0 {
      LeavesCounted(t, n - 1, l);
    }
  }

  lemma SubCounted(t: Test, x: nat, l: Log)
    ensures |AddSub(t, x, l).times| == |l.times| + LeafCount(t, x) + PerSub(t)
  {
    LeavesCounted(t, x, AddEnter(t, l));
  }

  lemma {:induction false} SubsCounted(t: Test, n: nat, x: nat, l: Log)
    ensures |AddSubs(t, n, x, l).times| == |l.times| + SubCount(t, n, x)
  {
    hide AddSub;
    if n > 0 {
      SubsCounted(t, n - 1, x, l);
      SubCounted(t, x, AddSubs(t, n - 1, x, l));
    }
  }

  lemma TopCounted(t: Test, x: nat, l: Log)
    ensures |AddTop(t, x, l).times| == |l.times| + SubCount(t, x, x) + PerTop(t)
  {
    SubsCounted(t, x, x, AddEnter(t, l));
  }

  lemma {:induction false} TopsCounted(t: Test, n: nat, x: nat, l: Log)
    ensures |AddTops(t, n, x, l).times| == |l.times| + TopCount(t, n, x)
  {
    hide AddTop;
    if n > 0 {
      TopsCounted(t, n - 1, x, l);
      TopCounted(t, x, AddTops(t, n - 1, x, l));
    }
  }

  /** One sample for every operation. */
  lemma TestCounted(t: Test, x: nat, ticks: nat, acts: seq<Act>)
    ensures |TestLog(t, x, ticks, acts).times| == Operations(t, x)
  {
    TopsCounted(t, x, x, Log([], ticks, acts));
    Counters(t, x);
  }

  /* ---- what a clock that does not run backwards gives ---- */

  ghost predicate Steady(clock: nat -> real) { forall a: nat, b: nat :: a <= b ==> clock(a) <= clock(b) }

  ghost predicate Strict(clock: nat -> real) { forall a: nat, b: nat :: a < b ==> clock(a) < clock(b) }

  /** The time between all readings of all samples. */
  function Total(clock: nat -> real, times: seq<Timing>): real {
    if times == [] then 0.0 else Total(clock, times[..|times| - 1]) + Elapsed(clock, times[|times| - 1])
  }

  lemma TotalMore(clock: nat -> real, times: seq<Timing>, timing: Timing)
    ensures Total(clock, times + [timing]) == Total(clock, times) + Elapsed(clock, timing)
  {
    assert (times + [timing])[..|times|] == times;
  }

  /** From the first of the readings `a` to `b - 1` to the last. */
  function Gap(clock: nat -> real, a: nat, b: nat): real {
    if a < b then clock(b - 1) - clock(a) else 0.0
  }

  /** What a part of a test adds to the log: ever later readings, two by two around the call that is
      timed, no more time than passed. */
  ghost predicate Adds(clock: nat -> real, t: Test, l: Log, m: Log) {
    && l.ticks <= m.ticks && l.times <= m.times && l.acts <= m.acts
    && (forall i :: |l.times| <= i < |m.times| ==> InOrder(m.times[i], l.ticks, m.ticks))
    && (forall i :: |l.times| <= i < |m.times| ==> Around(t, m.times[i], m.acts))
    && (Steady(clock) ==> Total(clock, m.times) - Total(clock, l.times) <= Gap(clock, l.ticks, m.ticks))
  }

  /** At least one pair of readings, the later one behind the earlier one, all between `from` and `to`. */
  predicate InOrder(timing: Timing, from: nat, to: nat) {
    timing != [] && forall i :: 0 <= i < |timing| ==> from <= timing[i].start < timing[i].end < to
  }

  /** The call was made when the first of two readings had been taken and the second had not. */
  ghost predicate Around(t: Test, timing: Timing, acts: seq<Act>) {
    forall i :: 0 <= i < |timing| ==> timing[i].end == timing[i].start + 1 && MadeAt(t, acts, timing[i].end)
  }

  ghost predicate MadeAt(t: Test, acts: seq<Act>, at: nat) {
    exists a :: a in acts && a.at == at && (a.call == TimedCall(t) || (t.DirTraverse? && a.call == SysChdirUp))
  }

  lemma AroundStays(t: Test, timing: Timing, acts: seq<Act>, more: seq<Act>)
    requires Around(t, timing, acts) && acts <= more
    ensures Around(t, timing, more)
  {
    forall i | 0 <= i < |timing|
      ensures MadeAt(t, more, timing[i].end)
    {
      assert MadeAt(t, acts, timing[i].end);
      var a :| a in acts && a.at == timing[i].end
          && (a.call == TimedCall(t) || (t.DirTraverse? && a.call == SysChdirUp));
      assert a in more;
    }
  }

  lemma AddsNone(clock: nat -> real, t: Test, l: Log)
    ensures Adds(clock, t, l, l)
  {
  }

  lemma AddsBoth(clock: nat -> real, t: Test, l: Log, m: Log, n: Log)
    requires Adds(clock, t, l, m) && Adds(clock, t, m, n)
    ensures Adds(clock, t, l, n)
  {
    hide Total, Elapsed;
    forall i | |l.times| <= i < |n.times|
      ensures InOrder(n.times[i], l.ticks, n.ticks) && Around(t, n.times[i], n.acts)
    {
      if i < |m.times| {
        assert n.times[i] == m.times[i];
        AroundStays(t, m.times[i], m.acts, n.acts);
      }
    }
  }

  /** One pair of readings in a stretch of them. */
  lemma AddsPair(clock: nat -> real, t: Test, l: Log, start: nat, m: Log)
    requires l.ticks <= start && start + 1 < m.ticks && l.acts <= m.acts
    requires m.times == l.times + [[Span(start, start + 1)]]
    requires Act(TimedCall(t), start + 1) in m.acts
    ensures Adds(clock, t, l, m)
  {
    hide Total, Elapsed;
    OneSpan(clock, start, start + 1);
    TotalMore(clock, l.times, [Span(start, start + 1)]);
    assert MadeAt(t, m.acts, start + 1);
    assert Steady(clock) ==> clock(l.ticks) <= clock(start) && clock(start + 1) <= clock(m.ticks - 1);
  }

  /** Calls, and readings for other statistics. */
  lemma AddsNoTimes(clock: nat -> real, t: Test, l: Log, m: Log)
    requires m.times == l.times && l.ticks <= m.ticks && l.acts <= m.acts
    ensures Adds(clock, t, l, m)
  {
    assert Steady(clock) && l.ticks < m.ticks ==> clock(l.ticks) <= clock(m.ticks - 1);
  }

  lemma LeafAdds(clock: nat -> real, t: Test, l: Log)
    ensures Adds(clock, t, l, AddLeaf(t, l))
  {
    hide Adds;
    var m, start := AddLeaf(t, l), if t.FileRead? then l.ticks + 2 else l.ticks;
    assert Act(TimedCall(t), start + 1) in m.acts by {
      LeafActs(t, l, start);
    }
    AddsPair(clock, t, l, start, m);
  }

  lemma LeafActs(t: Test, l: Log, start: nat)
    requires start == if t.FileRead? then l.ticks + 2 else l.ticks
    ensures Act(TimedCall(t), start + 1) in AddLeaf(t, l).acts && l.acts <= AddLeaf(t, l).acts
  {
    var acts, n := AddLeaf(t, l).acts, |l.acts|;
    match t
    case DirCreate => assert acts[n] == Act(SysMkdir, start + 1);
    case DirTraverse => assert acts[n] == Act(SysChdir, start + 1);
    case DirDelete => assert acts[n + 2] == Act(SysRmdir, start + 1);
    case FileCreate => assert acts[n] == Act(SysCreat, start + 1);
    case FileRead => assert acts[n + 1] == Act(SysRead, start + 1);
    case _ => assert acts[n] == Act(TimedCall(t), start + 1);
  }

  lemma {:induction false} LeavesAdd(clock: nat -> real, t: Test, n: nat, l: Log)
    ensures Adds(clock, t, l, AddLeaves(t, n, l))
  {
    hide Adds, AddLeaf;
    if n > 0 {
      LeavesAdd(clock, t, n - 1, l);
      LeafAdds(clock, t, AddLeaves(t, n - 1, l));
      AddsBoth(clock, t, l, AddLeaves(t, n - 1, l), AddLeaves(t, n, l));
    } else {
      AddsNone(clock, t, l);
    }
  }

  /** A directory: on the way down, inside, on the way up. */
  lemma DirAdds(clock: nat -> real, t: Test, l: Log, inside: Log)
    requires Adds(clock, t, AddEnter(t, l), inside)
    ensures Adds(clock, t, l, AddLeave(t, l.ticks, inside))
  {
    hide Adds;
    var e, m := AddEnter(t, l), AddLeave(t, l.ticks, inside);
    match t
    case DirCreate =>
      assert e.acts[|l.acts|] == Act(SysMkdir, l.ticks + 1);
      AddsPair(clock, t, l, l.ticks, e);
      AddsNoTimes(clock, t, inside, m);
      AddsBoth(clock, t, l, e, inside);
      AddsBoth(clock, t, l, inside, m);
    case DirDelete =>
      AddsNoTimes(clock, t, l, e);
      assert m.acts[|inside.acts| + 1] == Act(SysRmdir, inside.ticks + 1);
      AddsPair(clock, t, inside, inside.ticks, m);
      AddsBoth(clock, t, l, e, inside);
      AddsBoth(clock, t, l, inside, m);
    case DirTraverse => TraverseAdds(clock, l, inside, m);
    case _ =>
      AddsNoTimes(clock, t, l, e);
      AddsNoTimes(clock, t, inside, m);
      AddsBoth(clock, t, l, e, inside);
      AddsBoth(clock, t, l, inside, m);
  }

  lemma TraverseAdds(clock: nat -> real, l: Log, inside: Log, m: Log)
    requires Adds(clock, DirTraverse, AddEnter(DirTraverse, l), inside) && m == AddLeave(DirTraverse, l.ticks, inside)
    ensures Adds(clock, DirTraverse, l, m)
  {
    hide Total, Elapsed, MadeAt;
    var e, down, up := AddEnter(DirTraverse, l), Span(l.ticks, l.ticks + 1), Span(inside.ticks, inside.ticks + 1);
    TwoSpans(clock, down, up);
    TotalMore(clock, inside.times, [down, up]);
    assert Steady(clock) ==> clock(l.ticks + 1) <= clock(inside.ticks);
    BothMade(l, e, inside, m);
    forall i | |l.times| <= i < |m.times|
      ensures InOrder(m.times[i], l.ticks, m.ticks) && Around(DirTraverse, m.times[i], m.acts)
    {
      if i < |inside.times| {
        assert m.times[i] == inside.times[i];
        AroundStays(DirTraverse, m.times[i], inside.acts, m.acts);
      } else {
        assert m.times[i] == [down, up];
      }
    }
  }

  lemma BothMade(l: Log, e: Log, inside: Log, m: Log)
    requires e == AddEnter(DirTraverse, l) && e.acts <= inside.acts && m == AddLeave(DirTraverse, l.ticks, inside)
    ensures MadeAt(DirTraverse, m.acts, l.ticks + 1) && MadeAt(DirTraverse, m.acts, inside.ticks + 1)
  {
    assert m.acts[|l.acts|] == e.acts[|l.acts|] == Act(SysChdir, l.ticks + 1);
    assert m.acts[|inside.acts|] == Act(SysChdirUp, inside.ticks + 1);
  }

  lemma SubAdds(clock: nat -> real, t: Test, x: nat, l: Log)
    ensures Adds(clock, t, l, AddSub(t, x, l))
  {
    hide Adds, AddEnter, AddLeave;
    var e := AddEnter(t, l);
    if t.FileReaddir? {
      assert AddPair(SysReaddir, e).acts[|e.acts|] == Act(SysReaddir, e.ticks + 1);
      AddsPair(clock, t, e, e.ticks, AddPair(SysReaddir, e));
      DirAdds(clock, t, l, AddPair(SysReaddir, e));
    } else {
      LeavesAdd(clock, t, x, e);
      DirAdds(clock, t, l, AddLeaves(t, x, e));
    }
  }

  lemma {:induction false} SubsAdd(clock: nat -> real, t: Test, n: nat, x: nat, l: Log)
    ensures Adds(clock, t, l, AddSubs(t, n, x, l))
  {
    hide Adds, AddSub;
    if n > 0 {
      SubsAdd(clock, t, n - 1, x, l);
      SubAdds(clock, t, x, AddSubs(t, n - 1, x, l));
      AddsBoth(clock, t, l, AddSubs(t, n - 1, x, l), AddSubs(t, n, x, l));
    } else {
      AddsNone(clock, t, l);
    }
  }

  lemma {:induction false} TopsAdd(clock: nat -> real, t: Test, n: nat, x: nat, l: Log)
    ensures Adds(clock, t, l, AddTops(t, n, x, l))
  {
    hide Adds, AddEnter, AddLeave;
    if n > 0 {
      var before := AddTops(t, n - 1, x, l);
      TopsAdd(clock, t, n - 1, x, l);
      SubsAdd(clock, t, x, x, AddEnter(t, before));
      DirAdds(clock, t, before, AddSubs(t, x, x, AddEnter(t, before)));
      AddsBoth(clock, t, l, before, AddTops(t, n, x, l));
    } else {
      AddsNone(clock, t, l);
    }
  }

  lemma {:induction false} ElapsedInOrder(clock: nat -> real, timing: Timing, from: nat, to: nat)
    requires InOrder(timing, from, to)
    ensures Steady(clock) ==> Elapsed(clock, timing) >= 0.0
    ensures Strict(clock) ==> Elapsed(clock, timing) > 0.0
    decreases |timing|
  {
    var rest := timing[..|timing| - 1];
    if rest != [] {
      ElapsedInOrder(clock, rest, from, to);
    }
  }

  lemma {:induction false} SumIsTotal(clock: nat -> real, times: seq<Timing>)
    requires forall i :: 0 <= i < |times| ==> Elapsed(clock, times[i]) >= 0.0
    ensures Sum(Samples(clock, times)) == Total(clock, times)
  {
    hide Elapsed;
    if times != [] {
      var rest, last := times[..|times| - 1], times[|times| - 1];
      SumIsTotal(clock, rest);
      SamplesMore(clock, rest, last);
      assert rest + [last] == times;
      OneMore(Samples(clock, rest), Sample(clock, last), 0.0);
    }
  }

  /** Every sample of a test is made of readings taken right before and right after the call that the test
      is about.  On a clock that does not run backwards the samples add up to the time between their
      readings, and to no more than passed from its first reading to its last; on one that moves on
      between any two readings every sample is positive. */
  lemma TestTimes(clock: nat -> real, t: Test, x: nat, ticks: nat, acts: seq<Act>)
    ensures var l := TestLog(t, x, ticks, acts);
            && (forall i :: 0 <= i < |l.times| ==> Around(t, l.times[i], l.acts))
            && (forall i :: 0 <= i < |l.times| ==> InOrder(l.times[i], ticks, l.ticks))
            && (Steady(clock) ==>
                  Sum(Samples(clock, l.times)) == Total(clock, l.times) <= Gap(clock, ticks, l.ticks))
            && (Strict(clock) ==> forall s :: s in Samples(clock, l.times) ==> s > 0.0)
  {
    hide AddTops, Elapsed, Around;
    var l := TestLog(t, x, ticks, acts);
    TopsAdd(clock, t, x, x, Log([], ticks, acts));
    assert forall i :: 0 <= i < |l.times| ==> InOrder(l.times[i], ticks, l.ticks);
    forall i | 0 <= i < |l.times|
      ensures Steady(clock) ==> Elapsed(clock, l.times[i]) >= 0.0
      ensures Strict(clock) ==> Elapsed(clock, l.times[i]) > 0.0
    {
      ElapsedInOrder(clock, l.times[i], ticks, l.ticks);
    }
    if Steady(clock) {
      SumIsTotal(clock, l.times);
      assert Total(clock, []) == 0.0;
    }
  }
}
