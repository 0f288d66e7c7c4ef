/** fileop's tests and the loop over force factors, on the tree as values of FileTree. */
module Fileop {
  import opened Posix
  import opened FileTree
  import opened FileopStats
  import opened FileTimes

  /** The process, and the file system seen from its working directory. */
  class Fileop {
    /** sz, the size of the files, and time_so_far. */
    const size: nat
    const clock: nat -> real
    var ticks: nat
    var entries: Entries
    var above: seq<Level>
    const mbuffer: array<byte>
    /** How often "Data Mis-compare" was reported. */
    var mismatches: nat
    /** The system calls made. */
    ghost var acts: seq<Act>

    constructor (size: nat, clock: nat -> real, start: Entries, above: seq<Level>)
      ensures this.size == size && mbuffer.Length == size && fresh(mbuffer)
      ensures entries == start && this.above == above && mismatches == 0
    {
      this.size, this.clock, ticks, entries, this.above, mismatches := size, clock, 0, start, above, 0;
      acts := [];
      mbuffer := new byte[size](_ => 97);
    }

    method TimeSoFar() returns (time: real)
      modifies this`ticks
      ensures time == clock(old(ticks)) && ticks == old(ticks) + 1
    {
      time := clock(ticks);
      ticks := ticks + 1;
    }

    /** The second reading, and the lines that follow it. */
    method Stop(starttime: real, ghost start: nat, stat: Stat)
      requires stat.Valid() && starttime == clock(start)
      modifies this`ticks, stat
      ensures stat.Valid() && stat.sentinel == old(stat.sentinel) && ticks == old(ticks) + 1
      ensures stat.samples == old(stat.samples) + [Sample(clock, [Span(start, old(ticks))])]
    {
      var endtime := TimeSoFar();
      stat.Record(endtime - starttime);
      OneSpan(clock, start, old(ticks));
    }

    /** The samples since `base`, and the system calls, are those of the log. */
    ghost predicate Timed(stat: Stat, base: seq<real>, l: Log)
      reads this`ticks, this`acts, stat
    {
      ticks == l.ticks && acts == l.acts && stat.samples == base + Samples(clock, l.times)
    }

    /** One sample more. */
    lemma OneTimed(before: seq<real>, base: seq<real>, times: seq<Timing>, timing: Timing)
      requires before == base + Samples(clock, times)
      ensures before + [Sample(clock, timing)] == base + Samples(clock, times + [timing])
    {
      SamplesMore(clock, times, timing);
    }

    /* ---- system calls ---- */

    ghost method Do(c: Call)
      modifies this`acts
      ensures acts == old(acts) + [Act(c, ticks)]
    {
      acts := acts + [Act(c, ticks)];
    }

    method Mkdir(n: Name) returns (ret: int)
      modifies this`acts, this`entries
      ensures acts == old(acts) + [Act(SysMkdir, ticks)]
      ensures ret == if n in old(entries) then -1 else 0
      ensures entries == if n in old(entries) then old(entries) else old(entries)[n := Dir(map[])]
    {
      Do(SysMkdir);
      if n in entries {
        return -1;
      }
      entries := entries[n := Dir(map[])];
      ret := 0;
    }

    method Chdir(n: Name)
      modifies this`acts, this`entries, this`above
      ensures acts == old(acts) + [Act(SysChdir, ticks)]
      ensures n in old(entries) && old(entries)[n].Dir? ==>
                above == old(above) + [Level(n, old(entries) - {n})] && entries == old(entries)[n].entries
      ensures !(n in old(entries) && old(entries)[n].Dir?) ==> above == old(above) && entries == old(entries)
    {
      Do(SysChdir);
      if n in entries && entries[n].Dir? {
        above, entries := above + [Level(n, entries - {n})], entries[n].entries;
      }
    }

    /** chdir("..") */
    method ChdirUp()
      modifies this`acts, this`entries, this`above
      ensures acts == old(acts) + [Act(SysChdirUp, ticks)]
      ensures old(above) == [] ==> above == [] && entries == old(entries)
      ensures old(above) != [] ==>
                var up := old(above)[|old(above)| - 1];
                above == old(above)[..|old(above)| - 1] && entries == up.beside[up.name := Dir(old(entries))]
    {
      Do(SysChdirUp);
      if above != [] {
        var up := above[|above| - 1];
        above, entries := above[..|above| - 1], up.beside[up.name := Dir(entries)];
      }
    }

    method Rmdir(n: Name)
      modifies this`acts, this`entries
      ensures acts == old(acts) + [Act(SysRmdir, ticks)]
      ensures entries == if Find(old(entries), n) == Found(Dir(map[])) then old(entries) - {n} else old(entries)
    {
      Do(SysRmdir);
      if n in entries && entries[n] == Dir(map[]) {
        entries := entries - {n};
      }
    }

    method Unlink(n: Name) returns (ret: int)
      modifies this`acts, this`entries
      ensures acts == old(acts) + [Act(SysUnlink, ticks)]
      ensures ret == if n in old(entries) && old(entries)[n].Regular? then 0 else -1
      ensures entries == if ret == 0 then old(entries) - {n} else old(entries)
    {
      Do(SysUnlink);
      if n in entries && entries[n].Regular? {
        entries := entries - {n};
        return 0;
      }
      ret := -1;
    }

    lemma PairTimed(stat: Stat, base: seq<real>, c: Call, l: Log, before: seq<real>)
      requires before == base + Samples(clock, l.times) && ticks == l.ticks + 2
      requires acts == l.acts + [Act(c, l.ticks + 1)]
      requires stat.samples == before + [Sample(clock, [Span(l.ticks, l.ticks + 1)])]
      ensures Timed(stat, base, AddPair(c, l))
    {
      OneTimed(before, base, l.times, [Span(l.ticks, l.ticks + 1)]);
    }

    /* ---- the innermost loop bodies ---- */

    method Leaf(t: Test, i: nat, j: nat, k: nat, stat: Stat, ghost base: seq<real>, ghost l: Log)
        returns (exited: bool)
      requires stat.Valid() && mbuffer.Length == size && !t.FileReaddir?
      modifies this`acts, this`entries, this`above, this`ticks, this`mismatches, mbuffer, stat
      ensures stat.Valid() && stat.sentinel == old(stat.sentinel)
      ensures Ready(t, old(entries), size, i, j, k) ==>
                && !exited && entries == LeafStep(t, old(entries), size, i, j, k) && above == old(above)
                && mismatches == old(mismatches)
                && (old(Timed(stat, base, l)) ==> Timed(stat, base, AddLeaf(t, l)))
    {
      hide Sample, Samples, LeafStep, Ready, AddLeaf;
      if t.DirCreate? || t.DirTraverse? || t.DirDelete? {
        exited := LeafDir(t, i, j, k, stat);
      } else {
        exited := LeafFile(t, i, j, k, stat);
      }
      if Ready(t, old(entries), size, i, j, k) && old(Timed(stat, base, l)) {
        LeafTimed(t, stat, base, l, old(stat.samples));
      }
    }

    lemma LeafTimed(t: Test, stat: Stat, base: seq<real>, l: Log, before: seq<real>)
      requires before == base + Samples(clock, l.times)
      requires ticks == AddLeaf(t, Log([], l.ticks, l.acts)).ticks && acts == AddLeaf(t, Log([], l.ticks, l.acts)).acts
      requires var start := if t.FileRead? then l.ticks + 2 else l.ticks;
               stat.samples == before + [Sample(clock, [Span(start, start + 1)])]
      ensures Timed(stat, base, AddLeaf(t, l))
    {
      hide Samples, Sample;
      LeafShape(t, l);
      OneTimed(before, base, l.times, AddLeaf(t, l).times[|l.times|]);
    }

    method LeafDir(t: Test, i: nat, j: nat, k: nat, stat: Stat) returns (exited: bool)
      requires stat.Valid() && (t.DirCreate? || t.DirTraverse? || t.DirDelete?)
      modifies this`acts, this`entries, this`above, this`ticks, stat
      ensures stat.Valid() && stat.sentinel == old(stat.sentinel)
      ensures Ready(t, old(entries), size, i, j, k) ==>
                && !exited && entries == LeafStep(t, old(entries), size, i, j, k) && above == old(above)
                && OneSample(stat, t)
    {
      hide Sample;
      if t.DirCreate? {
        exited := MakeLeafDir(DirLeaf(i, j, k), stat);
      } else if t.DirDelete? {
        exited := DropLeafDir(DirLeaf(i, j, k), stat);
      } else {
        exited := TraverseLeafDir(DirLeaf(i, j, k), stat);
      }
    }

    method LeafFile(t: Test, i: nat, j: nat, k: nat, stat: Stat) returns (exited: bool)
      requires stat.Valid() && mbuffer.Length == size && !t.DirCreate? && !t.DirTraverse? && !t.DirDelete?
      requires !t.FileReaddir?
      modifies this`acts, this`entries, this`ticks, this`mismatches, mbuffer, stat
      ensures stat.Valid() && stat.sentinel == old(stat.sentinel)
      ensures Ready(t, old(entries), size, i, j, k) ==>
                && !exited && entries == LeafStep(t, old(entries), size, i, j, k) && mismatches == old(mismatches)
                && OneSample(stat, t)
    {
      hide Sample, Content;
      if t.FileCreate? {
        exited := WriteLeaf(FileLeaf(i, j, k), i, j, k, stat);
      } else if t.FileRead? {
        exited := ReadLeaf(FileLeaf(i, j, k), i, j, k, stat);
      } else if t.FileLink? {
        exited := LinkLeafTo(FileLeaf(i, j, k), LinkLeaf(i, j, k), stat);
      } else if t.FileUnlink? {
        exited := UnlinkLeaf(LinkLeaf(i, j, k), true, stat);
      } else if t.FileDelete? {
        exited := UnlinkLeaf(FileLeaf(i, j, k), false, stat);
      } else {
        exited := LookAtLeaf(t, FileLeaf(i, j, k), stat);
      }
    }

    /** What the bodies below add: one sample, and what else the log of the test has. */
    twostate predicate OneSample(stat: Stat, t: Test)
      reads this`ticks, this`acts, stat
    {
      var start := if t.FileRead? then old(ticks) + 2 else old(ticks);
      && ticks == AddLeaf(t, Log([], old(ticks), old(acts))).ticks
      && acts == AddLeaf(t, Log([], old(ticks), old(acts))).acts
      && stat.samples == old(stat.samples) + [Sample(clock, [Span(start, start + 1)])]
    }

    method MakeLeafDir(n: Name, stat: Stat) returns (exited: bool)
      requires stat.Valid()
      modifies this`acts, this`entries, this`above, this`ticks, stat
      ensures stat.Valid() && stat.sentinel == old(stat.sentinel)
      ensures n !in old(entries) ==>
                !exited && entries == old(entries)[n := Dir(map[])] && above == old(above) && OneSample(stat, DirCreate)
    {
      var starttime := TimeSoFar();
      var ret := Mkdir(n);
      if ret < 0 {
        return true;
      }
      Stop(starttime, old(ticks), stat);
      Chdir(n);
      ChdirUp();
      exited := false;
    }

    method TraverseLeafDir(n: Name, stat: Stat) returns (exited: bool)
      requires stat.Valid()
      modifies this`acts, this`entries, this`above, this`ticks, stat
      ensures stat.Valid() && stat.sentinel == old(stat.sentinel) && !exited && OneSample(stat, DirTraverse)
      ensures Find(old(entries), n) == Found(Dir(map[])) ==> entries == old(entries) && above == old(above)
    {
      var starttime := TimeSoFar();
      Chdir(n);
      ChdirUp();
      Stop(starttime, old(ticks), stat);
      exited := false;
    }

    method DropLeafDir(n: Name, stat: Stat) returns (exited: bool)
      requires stat.Valid()
      modifies this`acts, this`entries, this`above, this`ticks, stat
      ensures stat.Valid() && stat.sentinel == old(stat.sentinel) && !exited && OneSample(stat, DirDelete)
      ensures Find(old(entries), n) == Found(Dir(map[])) ==> entries == old(entries) - {n} && above == old(above)
    {
      Chdir(n);
      ChdirUp();
      var starttime := TimeSoFar();
      Rmdir(n);
      Stop(starttime, old(ticks), stat);
      exited := false;
    }

    /** A buffer filled with the file's byte; creat; then write and close, where the two pairs of readings
        go to statistics of their own. */
    method WriteLeaf(n: Name, i: nat, j: nat, k: nat, stat: Stat) returns (exited: bool)
      requires stat.Valid() && mbuffer.Length == size
      modifies this`acts, this`entries, this`ticks, mbuffer, stat
      ensures stat.Valid() && stat.sentinel == old(stat.sentinel)
      ensures n !in old(entries) ==>
                !exited && entries == old(entries)[n := Regular(Content(size, i, j, k))] && OneSample(stat, FileCreate)
    {
      hide Content, Sample;
      Memset(i, j, k);
      exited := Creat(n, stat);
      if exited {
        return;
      }
      WriteAndClose(n);
    }

    method Creat(n: Name, stat: Stat) returns (exited: bool)
      requires stat.Valid()
      modifies this`acts, this`entries, this`ticks, stat
      ensures stat.Valid() && stat.sentinel == old(stat.sentinel)
      ensures n !in old(entries) ==> !exited && entries == old(entries)[n := Regular([])]
      ensures !exited ==>
                && ticks == old(ticks) + 2 && acts == old(acts) + [Act(SysCreat, old(ticks) + 1)]
                && stat.samples == old(stat.samples) + [Sample(clock, [Span(old(ticks), old(ticks) + 1)])]
    {
      hide Sample;
      var starttime := TimeSoFar();
      Do(SysCreat);
      if n in entries && entries[n].Dir? {
        return true;
      }
      entries := entries[n := Regular([])];
      Stop(starttime, old(ticks), stat);
      exited := false;
    }

    method WriteAndClose(n: Name)
      modifies this`acts, this`entries, this`ticks
      ensures acts == old(acts) + [Act(SysWrite, old(ticks) + 1)] + [Act(SysClose, old(ticks) + 3)]
      ensures ticks == old(ticks) + 4 && entries == old(entries)[n := Regular(mbuffer[..])]
    {
      var writeStart := TimeSoFar();
      Do(SysWrite);
      entries := entries[n := Regular(Pwrite([], mbuffer[..], 0))];
      WholeWrite(mbuffer[..]);
      var writeEnd := TimeSoFar();
      var closeStart := TimeSoFar();
      Do(SysClose);
      var closeEnd := TimeSoFar();
    }

    method Memset(i: nat, j: nat, k: nat)
      requires mbuffer.Length == size
      modifies mbuffer
      ensures mbuffer[..] == Content(size, i, j, k)
    {
      forall p | 0 <= p < mbuffer.Length {
        mbuffer[p] := Value(i, j, k);
      }
    }

    lemma WholeWrite(bytes: seq<byte>)
      ensures Pwrite([], bytes, 0) == bytes
    {
    }

    /** open, with statistics of its own, then read. */
    method ReadLeaf(n: Name, i: nat, j: nat, k: nat, stat: Stat) returns (exited: bool)
      requires stat.Valid() && mbuffer.Length == size
      modifies this`acts, this`mismatches, this`ticks, mbuffer, stat
      ensures stat.Valid() && stat.sentinel == old(stat.sentinel)
      ensures Find(entries, n) == Found(Regular(Content(size, i, j, k))) ==>
                !exited && mismatches == old(mismatches) && OneSample(stat, FileRead)
    {
      hide Content, Sample, Value, AddLeaf;
      exited := OpenLeaf(n);
      if exited {
        return;
      }
      ReadBack(entries[n].data, i, j, k, stat);
      ReadLog(old(ticks), old(acts));
    }

    method OpenLeaf(n: Name) returns (exited: bool)
      modifies this`acts, this`ticks
      ensures exited <==> !(n in entries && entries[n].Regular?)
      ensures !exited ==> ticks == old(ticks) + 2 && acts == old(acts) + [Act(SysOpen, old(ticks) + 1)]
    {
      var openStart := TimeSoFar();
      Do(SysOpen);
      if n !in entries || entries[n].Dir? {
        return true;
      }
      var openEnd := TimeSoFar();
      exited := false;
    }

    method ReadBack(data: seq<byte>, i: nat, j: nat, k: nat, stat: Stat)
      requires stat.Valid() && mbuffer.Length == size
      modifies this`acts, this`mismatches, this`ticks, mbuffer, stat
      ensures stat.Valid() && stat.sentinel == old(stat.sentinel)
      ensures data == Content(size, i, j, k) ==> mismatches == old(mismatches)
      ensures ticks == old(ticks) + 2
      ensures acts == old(acts) + [Act(SysRead, old(ticks) + 1)] + [Act(SysClose, old(ticks) + 2)]
      ensures stat.samples == old(stat.samples) + [Sample(clock, [Span(old(ticks), old(ticks) + 1)])]
    {
      hide Sample, Value;
      var starttime := TimeSoFar();
      Do(SysRead);
      var bytes := Pread(data, size, 0);
      forall p | 0 <= p < |bytes| {
        mbuffer[p] := bytes[p];
      }
      var bad := Validate(size, Value(i, j, k));
      if bad != 0 {
        mismatches := mismatches + 1;
      }
      Stop(starttime, old(ticks), stat);
      Do(SysClose);
    }

    /** unlink; only file_unlink looks at the result. */
    method UnlinkLeaf(n: Name, looks: bool, stat: Stat) returns (exited: bool)
      requires stat.Valid()
      modifies this`acts, this`entries, this`ticks, stat
      ensures stat.Valid() && stat.sentinel == old(stat.sentinel)
      ensures n in old(entries) && old(entries)[n].Regular? ==>
                !exited && entries == old(entries) - {n} && OneSample(stat, if looks then FileUnlink else FileDelete)
    {
      var starttime := TimeSoFar();
      var y := Unlink(n);
      if looks && y < 0 {
        return true;
      }
      Stop(starttime, old(ticks), stat);
      exited := false;
    }

    /** stat, access and chmod, which need the file to be there. */
    method LookAtLeaf(t: Test, n: Name, stat: Stat) returns (exited: bool)
      requires stat.Valid() && (t.FileStat? || t.FileAccess? || t.FileChmod?)
      modifies this`acts, this`ticks, stat
      ensures stat.Valid() && stat.sentinel == old(stat.sentinel)
      ensures n in entries ==> !exited && OneSample(stat, t)
    {
      var starttime := TimeSoFar();
      Do(TimedCall(t));
      if n !in entries {
        return true;
      }
      Stop(starttime, old(ticks), stat);
      exited := false;
    }

    method Validate(len: nat, value: byte) returns (bad: int)
      requires len <= mbuffer.Length
      ensures bad == if forall p :: 0 <= p < len ==> mbuffer[p] == value then 0 else 1
    {
      var p := 0;
      while p < len
        invariant p <= len
        invariant forall q :: 0 <= q < p ==> mbuffer[q] == value
      {
        if mbuffer[p] != value {
          return 1;
        }
        p := p + 1;
      }
      bad := 0;
    }

    method LinkLeafTo(n: Name, to: Name, stat: Stat) returns (exited: bool)
      requires stat.Valid()
      modifies this`acts, this`entries, this`ticks, stat
      ensures stat.Valid() && stat.sentinel == old(stat.sentinel)
      ensures exited <==> !(n in old(entries) && old(entries)[n].Regular? && to !in old(entries))
      ensures entries == if exited then old(entries) else old(entries)[to := old(entries)[n]]
      ensures !exited ==> OneSample(stat, FileLink)
    {
      var starttime := TimeSoFar();
      Do(SysLink);
      if n !in entries || entries[n].Dir? || to in entries {
        return true;
      }
      entries := entries[to := entries[n]];
      Stop(starttime, old(ticks), stat);
      exited := false;
    }

    /* ---- the three nested loops ---- */

    method Innermost(t: Test, i: nat, j: nat, x: nat, stat: Stat, ghost base: seq<real>, ghost l: Log)
        returns (exited: bool)
      requires stat.Valid() && mbuffer.Length == size && !t.FileReaddir?
      modifies this`acts, this`entries, this`above, this`ticks, this`mismatches, mbuffer, stat
      ensures stat.Valid() && stat.sentinel == old(stat.sentinel)
      ensures old(entries) == Leaves(All(Before(t), x), size, i, j) ==>
                && !exited && entries == Leaves(All(After(t), x), size, i, j) && above == old(above)
                && mismatches == old(mismatches)
                && (old(Timed(stat, base, l)) ==> Timed(stat, base, AddLeaves(t, x, l)))
    {
      hide Leaves, LeafStep, Ready, Timed, AddLeaf;
      LeavesEnds(Before(t), After(t), size, x, i, j);
      ghost var fine := entries == Leaves(Range(Before(t), After(t), 0, x), size, i, j);
      var k := 0;
      while k < x
        invariant k <= x && stat.Valid() && stat.sentinel == old(stat.sentinel)
        invariant fine ==>
                    && entries == Leaves(Range(Before(t), After(t), k, x), size, i, j) && above == old(above)
                    && mismatches == old(mismatches)
                    && (old(Timed(stat, base, l)) ==> Timed(stat, base, AddLeaves(t, k, l)))
      {
        LeafReady(t, size, x, i, j, k);
        LeafTurn(t, size, x, i, j, k);
        exited := Leaf(t, i, j, k, stat, base, AddLeaves(t, k, l));
        if exited {
          return;
        }
        k := k + 1;
      }
      exited := false;
    }

    /** On the way down: mkdir, for the tests that make the tree, and chdir.  What is timed is the
        mkdir or, to be added to on the way up, the chdir. */
    method Enter(t: Test, n: Name, stat: Stat, ghost base: seq<real>, ghost l: Log)
        returns (exited: bool, time: real)
      requires stat.Valid()
      modifies this`acts, this`entries, this`above, this`ticks, stat
      ensures stat.Valid() && stat.sentinel == old(stat.sentinel)
      ensures exited <==> Before(t) == Nothing && n in old(entries)
      ensures exited ==> entries == old(entries) && above == old(above)
      ensures !exited && (Before(t) == Nothing || (n in old(entries) && old(entries)[n].Dir?)) ==>
                && above == old(above) + [Level(n, old(entries) - {n})]
                && entries == (if Before(t) == Nothing then map[] else old(entries)[n].entries)
      ensures !exited && old(Timed(stat, base, l)) ==>
                && Timed(stat, base, AddEnter(t, l))
                && (t.DirTraverse? ==> time == clock(l.ticks + 1) - clock(l.ticks))
    {
      hide Sample, Samples;
      time := 0.0;
      exited := false;
      if t.DirCreate? {
        exited := TimedMkdir(n, stat, base, l);
      } else if t.FileCreate? {
        var ret := Mkdir(n);
        exited := ret < 0;
      }
      if exited {
        return;
      }
      if t.DirTraverse? {
        var starttime := TimeSoFar();
        Chdir(n);
        var endtime := TimeSoFar();
        time := endtime - starttime;
      } else {
        Chdir(n);
      }
      assert old(entries)[n := Dir(map[])] - {n} == old(entries) - {n};
    }

    method TimedMkdir(n: Name, stat: Stat, ghost base: seq<real>, ghost l: Log) returns (exited: bool)
      requires stat.Valid()
      modifies this`acts, this`entries, this`ticks, stat
      ensures stat.Valid() && stat.sentinel == old(stat.sentinel)
      ensures exited <==> n in old(entries)
      ensures entries == if exited then old(entries) else old(entries)[n := Dir(map[])]
      ensures !exited && old(Timed(stat, base, l)) ==> Timed(stat, base, AddPair(SysMkdir, l))
    {
      hide Sample, Samples, AddPair, Elapsed;
      var starttime := TimeSoFar();
      var ret := Mkdir(n);
      if ret < 0 {
        return true;
      }
      Stop(starttime, old(ticks), stat);
      if old(Timed(stat, base, l)) {
        PairTimed(stat, base, SysMkdir, l, old(stat.samples));
      }
      exited := false;
    }

    /** A directory about to be removed is empty. */
    predicate LeavesRightly(t: Test, es: Entries) { After(t) == Nothing ==> es == map[] }

    /** On the way up: chdir(".."), and rmdir for the tests that remove the tree. */
    method Leave(t: Test, n: Name, time: real, stat: Stat, ghost base: seq<real>, ghost entered: nat, ghost l: Log)
      requires stat.Valid()
      modifies this`acts, this`entries, this`above, this`ticks, stat
      ensures stat.Valid() && stat.sentinel == old(stat.sentinel)
      ensures old(above) != [] && old(above)[|old(above)| - 1].name == n && LeavesRightly(t, old(entries)) ==>
                var beside := old(above)[|old(above)| - 1].beside;
                && above == old(above)[..|old(above)| - 1]
                && entries == (if After(t) == Nothing then beside - {n} else beside[n := Dir(old(entries))])
      ensures old(Timed(stat, base, l)) && (t.DirTraverse? ==> time == clock(entered + 1) - clock(entered)) ==>
                Timed(stat, base, AddLeave(t, entered, l))
    {
      hide Timed, AddAct, AddPair;
      ghost var up := AddAct(SysChdirUp, l);
      if t.DirTraverse? {
        UpAgain(time, stat, base, entered, l);
      } else {
        GoUp(stat, base, l);
        if t.DirDelete? {
          TimedRmdir(n, stat, base, up);
        } else if t.FileDelete? {
          Remove(n, stat, base, up);
        }
      }
      ghost var beside := if old(above) == [] then map[] else old(above)[|old(above)| - 1].beside;
      assert beside[n := Dir(map[])] - {n} == beside - {n};
    }

    method GoUp(ghost stat: Stat, ghost base: seq<real>, ghost l: Log)
      modifies this`acts, this`entries, this`above
      ensures old(above) == [] ==> above == [] && entries == old(entries)
      ensures old(above) != [] ==>
                var up := old(above)[|old(above)| - 1];
                above == old(above)[..|old(above)| - 1] && entries == up.beside[up.name := Dir(old(entries))]
      ensures old(Timed(stat, base, l)) ==> Timed(stat, base, AddAct(SysChdirUp, l))
    {
      ChdirUp();
    }

    method Remove(n: Name, ghost stat: Stat, ghost base: seq<real>, ghost l: Log)
      modifies this`acts, this`entries
      ensures entries == if Find(old(entries), n) == Found(Dir(map[])) then old(entries) - {n} else old(entries)
      ensures old(Timed(stat, base, l)) ==> Timed(stat, base, AddAct(SysRmdir, l))
    {
      Rmdir(n);
    }

    method TimedRmdir(n: Name, stat: Stat, ghost base: seq<real>, ghost l: Log)
      requires stat.Valid()
      modifies this`acts, this`entries, this`ticks, stat
      ensures stat.Valid() && stat.sentinel == old(stat.sentinel)
      ensures entries == if Find(old(entries), n) == Found(Dir(map[])) then old(entries) - {n} else old(entries)
      ensures old(Timed(stat, base, l)) ==> Timed(stat, base, AddPair(SysRmdir, l))
    {
      hide Sample, Samples, AddPair, Elapsed;
      var starttime := TimeSoFar();
      Rmdir(n);
      Stop(starttime, old(ticks), stat);
      if old(Timed(stat, base, l)) {
        PairTimed(stat, base, SysRmdir, l, old(stat.samples));
      }
    }

    /** dir_traverse on the way up: the time on the way down is added. */
    method UpAgain(time: real, stat: Stat, ghost base: seq<real>, ghost entered: nat, ghost l: Log)
      requires stat.Valid()
      modifies this`acts, this`entries, this`above, this`ticks, stat
      ensures stat.Valid() && stat.sentinel == old(stat.sentinel)
      ensures old(above) == [] ==> above == [] && entries == old(entries)
      ensures old(above) != [] ==>
                var up := old(above)[|old(above)| - 1];
                above == old(above)[..|old(above)| - 1] && entries == up.beside[up.name := Dir(old(entries))]
      ensures old(Timed(stat, base, l)) && time == clock(entered + 1) - clock(entered) ==>
                Timed(stat, base, AddLeave(DirTraverse, entered, l))
    {
      hide Samples, Sample, Elapsed;
      var starttime := TimeSoFar();
      ChdirUp();
      var endtime := TimeSoFar();
      var elapsed := time + endtime - starttime;
      stat.Record(elapsed);
      if old(Timed(stat, base, l)) && time == clock(entered + 1) - clock(entered) {
        var down, up := Span(entered, entered + 1), Span(l.ticks, l.ticks + 1);
        TwoSpans(clock, down, up);
        SampleIs(clock, [down, up], elapsed);
        OneTimed(old(stat.samples), base, l.times, [down, up]);
      }
    }

    /** file_readdir: the first entry of the working directory, which there always is. */
    method Readdir(stat: Stat, ghost base: seq<real>, ghost l: Log)
      requires stat.Valid()
      modifies this`acts, this`ticks, stat
      ensures stat.Valid() && stat.sentinel == old(stat.sentinel)
      ensures old(Timed(stat, base, l)) ==> Timed(stat, base, AddPair(SysReaddir, l))
    {
      hide Sample, Samples, AddPair, Elapsed;
      var starttime := TimeSoFar();
      Do(SysReaddir);
      Stop(starttime, old(ticks), stat);
      if old(Timed(stat, base, l)) {
        PairTimed(stat, base, SysReaddir, l, old(stat.samples));
      }
    }

    method Middle(t: Test, i: nat, x: nat, stat: Stat, ghost base: seq<real>, ghost l: Log) returns (exited: bool)
      requires stat.Valid() && mbuffer.Length == size
      modifies this`acts, this`entries, this`above, this`ticks, this`mismatches, mbuffer, stat
      ensures stat.Valid() && stat.sentinel == old(stat.sentinel)
      ensures old(entries) == Subs(All(Before(t), x), size, i) ==>
                && !exited && entries == Subs(All(After(t), x), size, i) && above == old(above)
                && mismatches == old(mismatches)
                && (old(Timed(stat, base, l)) ==> Timed(stat, base, AddSubs(t, x, x, l)))
    {
      hide Leaves, Subs, Timed, AddSub;
      SubsEnds(Before(t), After(t), size, x, i);
      ghost var fine := entries == Subs(Range(Before(t), After(t), 0, x), size, i);
      var j := 0;
      while j < x
        invariant j <= x && stat.Valid() && stat.sentinel == old(stat.sentinel)
        invariant fine ==>
                    && entries == Subs(Range(Before(t), After(t), j, x), size, i) && above == old(above)
                    && mismatches == old(mismatches)
                    && (old(Timed(stat, base, l)) ==> Timed(stat, base, AddSubs(t, j, x, l)))
      {
        SubTurn(t, size, x, i, j);
        exited := MiddleTurn(t, i, j, x, stat, base, AddSubs(t, j, x, l));
        if exited {
          return;
        }
        j := j + 1;
      }
      exited := false;
    }

    method MiddleTurn(t: Test, i: nat, j: nat, x: nat, stat: Stat, ghost base: seq<real>, ghost l: Log)
        returns (exited: bool)
      requires stat.Valid() && mbuffer.Length == size
      modifies this`acts, this`entries, this`above, this`ticks, this`mismatches, mbuffer, stat
      ensures stat.Valid() && stat.sentinel == old(stat.sentinel)
      ensures var n, before, after := L2(i, j), Leaves(All(Before(t), x), size, i, j),
          Leaves(All(After(t), x), size, i, j);
              Find(old(entries), n) == (if Before(t) == Nothing then Missing else Found(Dir(before))) ==>
                && !exited
                && entries == (if After(t) == Nothing then old(entries) - {n} else old(entries)[n := Dir(after)])
                && above == old(above) && mismatches == old(mismatches)
                && (old(Timed(stat, base, l)) ==> Timed(stat, base, AddSub(t, x, l)))
    {
      hide Leaves, Timed, AddEnter, AddLeave, AddLeaves, AddPair;
      NothingIn(size, x, i, j);
      var n := L2(i, j);
      var time;
      exited, time := Enter(t, n, stat, base, l);
      if exited {
        return;
      }
      ghost var inside := AddEnter(t, l);
      if t.FileReaddir? {
        Readdir(stat, base, inside);
        inside := AddPair(SysReaddir, inside);
      } else {
        exited := Innermost(t, i, j, x, stat, base, inside);
        if exited {
          return;
        }
        inside := AddLeaves(t, x, inside);
      }
      Leave(t, n, time, stat, base, l.ticks, inside);
      assert (old(entries) - {n}) - {n} == old(entries) - {n};
      ghost var after := Dir(Leaves(All(After(t), x), size, i, j));
      assert (old(entries) - {n})[n := after] == old(entries)[n := after];
    }

    /** A test as a whole: it finds the tree the test before left, and leaves its own.  A test
        that makes the tree exits exactly when one of its directories is there already. */
    method Run(t: Test, x: nat, stat: Stat, ghost start: Entries) returns (exited: bool)
      requires stat.Valid() && mbuffer.Length == size
      modifies this`acts, this`entries, this`above, this`ticks, this`mismatches, mbuffer, stat
      ensures stat.Valid() && stat.sentinel == old(stat.sentinel)
      ensures old(entries) == Grown(start, Before(t), x, size) && (Before(t) == Nothing || Clear(start, x)) ==>
                && (exited <==> !Clear(start, x))
                && (!exited ==>
                      && entries == Grown(start, After(t), x, size) && above == old(above)
                      && mismatches == old(mismatches) && stat.counter == old(stat.counter) + Operations(t, x)
                      && Timed(stat, old(stat.samples), TestLog(t, x, old(ticks), old(acts)))
                      && stat.Reported())
    {
      hide Subs, Tops, Operations, Timed, AddTop, Samples;
      ghost var base, l := stat.samples, Log([], ticks, acts);
      NothingTimed(stat);
      TopsEnds(Before(t), After(t), size, x);
      ghost var fine := entries == start + Tops(Range(Before(t), After(t), 0, x), size)
          && (Before(t) == Nothing || Clear(start, x));
      var i := 0;
      while i < x
        invariant i <= x && stat.Valid() && stat.sentinel == old(stat.sentinel)
        invariant fine ==>
                    && Clear(start, i)
                    && entries == start + Tops(Range(Before(t), After(t), i, x), size) && above == old(above)
                    && mismatches == old(mismatches) && Timed(stat, base, AddTops(t, i, x, l))
      {
        ghost var there := L1(i) in start;
        if !there {
          TopTurn(t, start, size, x, i);
        }
        exited := OuterTurn(t, i, x, stat, base, AddTops(t, i, x, l));
        assert fine ==> (exited <==> there);
        if exited {
          return;
        }
        i := i + 1;
      }
      exited := false;
      if fine {
        AllTimed(t, x, stat, base, old(ticks), old(acts));
      }
      stat.ReportIsTrue();
    }

    lemma NothingTimed(stat: Stat)
      ensures Timed(stat, stat.samples, Log([], ticks, acts))
    {
    }

    lemma AllTimed(t: Test, x: nat, stat: Stat, base: seq<real>, start: nat, before: seq<Act>)
      requires Timed(stat, base, TestLog(t, x, start, before))
      ensures |stat.samples| == |base| + Operations(t, x)
    {
      TestCounted(t, x, start, before);
    }

    /** What a test reports of a fresh statistic when the clock does not run backwards: the total is the
        time between its readings and no more than passed; and on a strict clock the best time is
        positive. */
    lemma TestReport(t: Test, x: nat, stat: Stat, start: nat, before: seq<Act>)
      requires stat.Valid() && Timed(stat, [], TestLog(t, x, start, before)) && stat.sentinel > 0.0
      ensures Steady(clock) ==>
                stat.total == Total(clock, TestLog(t, x, start, before).times) <= Gap(clock, start, ticks)
      ensures Strict(clock) ==> stat.best > 0.0
    {
      TestTimes(clock, t, x, start, before);
      var times := TestLog(t, x, start, before).times;
      assert [] + Samples(clock, times) == Samples(clock, times);
      Extremes(stat.samples, stat.sentinel);
    }

    method OuterTurn(t: Test, i: nat, x: nat, stat: Stat, ghost base: seq<real>, ghost l: Log)
        returns (exited: bool)
      requires stat.Valid() && mbuffer.Length == size
      modifies this`acts, this`entries, this`above, this`ticks, this`mismatches, mbuffer, stat
      ensures stat.Valid() && stat.sentinel == old(stat.sentinel)
      ensures Before(t) == Nothing && L1(i) in old(entries) ==> exited
      ensures var n, before, after := L1(i), Subs(All(Before(t), x), size, i), Subs(All(After(t), x), size, i);
              Find(old(entries), n) == (if Before(t) == Nothing then Missing else Found(Dir(before))) ==>
                && !exited
                && entries == (if After(t) == Nothing then old(entries) - {n} else old(entries)[n := Dir(after)])
                && above == old(above) && mismatches == old(mismatches)
                && (old(Timed(stat, base, l)) ==> Timed(stat, base, AddTop(t, x, l)))
    {
      hide Subs, Timed, AddEnter, AddLeave, AddSubs;
      NothingIn(size, x, i, 0);
      var n := L1(i);
      var time;
      exited, time := Enter(t, n, stat, base, l);
      if exited {
        return;
      }
      exited := Middle(t, i, x, stat, base, AddEnter(t, l));
      if exited {
        return;
      }
      Leave(t, n, time, stat, base, l.ticks, AddSubs(t, x, x, AddEnter(t, l)));
      assert (old(entries) - {n}) - {n} == old(entries) - {n};
      ghost var after := Dir(Subs(All(After(t), x), size, i));
      assert (old(entries) - {n})[n := after] == old(entries)[n := after];
    }

    /** The tests of one force factor, in main's order: the directory and the tree are then as
        they were, and no file read differed from what was written. */
    method Round(x: nat) returns (exited: bool)
      requires mbuffer.Length == size
      modifies this`acts, this`entries, this`above, this`ticks, this`mismatches, mbuffer
      ensures exited <==> !Clear(old(entries), x)
      ensures !exited ==> entries == old(entries) && above == old(above) && mismatches == old(mismatches)
    {
      hide Grown, Clear, Operations;
      ghost var start := entries;
      GrownNothing(start, x, size);
      var tests := Tests();
      var p := 0;
      while p < |tests|
        invariant p <= |tests|
        invariant entries == Grown(start, if p == |tests| then Nothing else Before(tests[p]), x, size)
        invariant above == old(above) && mismatches == old(mismatches)
        invariant p > 0 ==> Clear(start, x)
      {
        TestsFollow(p);
        var stat := new Stat(Sentinel(tests[p]));
        exited := Run(tests[p], x, stat, start);
        if exited {
          return;
        }
        p := p + 1;
      }
      exited := false;
    }

    /** The first `rounds` rounds of the loop over force factors; see FileTree.ForceLoopEnds. */
    method ForceLoop(lower: nat, upper: nat, incr: nat, rounds: nat) returns (s: LoopState)
      requires mbuffer.Length == size
      modifies this`acts, this`entries, this`above, this`ticks, this`mismatches, mbuffer
      ensures s == AfterRounds(old(entries), upper, incr, Next(lower, upper), rounds)
      ensures !s.Exited? ==> entries == old(entries) && above == old(above) && mismatches == old(mismatches)
    {
      hide Clear;
      s := Next(lower, upper);
      var n := 0;
      while n < rounds && s.Running?
        invariant n <= rounds
        invariant AfterRounds(old(entries), upper, incr, s, rounds - n)
               == AfterRounds(old(entries), upper, incr, Next(lower, upper), rounds)
        invariant !s.Exited? ==> entries == old(entries) && above == old(above) && mismatches == old(mismatches)
      {
        var exited := Round(s.x);
        s := if exited then Exited else Next(s.x + incr, upper);
        n := n + 1;
      }
      if !s.Running? {
        Stays(old(entries), upper, incr, s, rounds - n);
      }
    }
  }

  /** The tests of a round, in main's order. */
  function Tests(): seq<Test> {
    [DirCreate, DirTraverse, DirDelete, FileCreate, FileStat, FileRead, FileAccess, FileChmod, FileReaddir,
     FileLink, FileUnlink, FileDelete]
  }

  /** Each finds what the one before it left. */
  lemma TestsFollow(p: nat)
    requires p < |Tests()|
    ensures Before(Tests()[0]) == Nothing && After(Tests()[|Tests()| - 1]) == Nothing
    ensures p + 1 < |Tests()| ==> Before(Tests()[p + 1]) == After(Tests()[p])
  {
  }

  /** What `best` starts from. */
  function Sentinel(t: Test): real {
    match t
    case DirCreate => 99999.9
    case DirTraverse => 99999.9
    case DirDelete => 99999.9
    case FileStat => 99999.9
    case FileRead => 99999.9
    case _ => 999999.9
  }
}
