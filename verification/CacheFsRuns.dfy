/** Whole runs on the object: the calls of a run made one after the other on CacheFs, with the mounts
    and what other clients do to the NAS in between. */
module CacheFsRuns {
  import opened Posix
  import opened PathName
  import opened Runs
  import opened History
  import Model = CacheModel
  import opened CacheFs

  /** One step.  A mount is a new process, so a new object; every other step is a call on this one, or
      changes the NAS it stands in front of. */
  method Perform(fs: CacheFs, step: Step, ghost paths: iset<Path>) returns (next: CacheFs, got: seq<byte>)
    requires fs.Valid() && Inv(fs.state, paths) && OwnNames(paths)
    requires Enabled(fs.state, step) && (!step.Remount? ==> step.p in paths)
    modifies fs, fs.db
    ensures next == fs || (fresh(next) && fresh(next.db))
    ensures next.Valid() && next.state == Apply(old(fs.state), step) && Inv(next.state, paths)
    ensures step.DoRead? ==>
              var DoRead(p, size, offset, junk, behind, now) := step;
              got == Model.Read(old(fs.state), p, size, offset, junk, behind, now).buf
  {
    hide Inv, OwnNames, Act, Enabled;
    StepKeeps(fs.state, step, paths);
    InvValid(Apply(fs.state, step), paths);
    next, got := fs, [];
    if step.Remount? {
      next := MountAgain(fs, step);
    } else if step.DoRead? {
      got := CallRead(fs, step);
    } else if step.OutsideWrite? || step.OutsideRemove? {
      OtherClient(fs, step);
    } else {
      Call(fs, step);
    }
    next.state := next.state.(clock := step.now);
  }

  method CallRead(fs: CacheFs, step: Step) returns (got: seq<byte>)
    requires fs.Valid() && Enabled(fs.state, step) && step.DoRead?
    modifies fs, fs.db
    ensures fs.Holds() && fs.state == Act(old(fs.state), step)
    ensures var DoRead(p, size, offset, junk, behind, now) := step;
            got == Model.Read(old(fs.state), p, size, offset, junk, behind, now).buf
  {
    hide Model.Read, Flatten, Reserved;
    var DoRead(p, size, offset, junk, behind, now) := step;
    var buf := new byte[size];
    var _, _ := fs.Read(p, buf, size, offset, junk, behind, now);
    got := buf[..size];
  }

  method Call(fs: CacheFs, step: Step)
    requires fs.Valid() && Enabled(fs.state, step)
    requires !step.Remount? && !step.DoRead? && !step.OutsideWrite? && !step.OutsideRemove?
    modifies fs, fs.db
    ensures fs.Holds() && fs.state == Act(old(fs.state), step)
  {
    hide Flatten, Reserved, Model.Write, Model.Open, Model.Unlink, Model.Ftruncate, Model.Release;
    match step {
      case DoOpen(p, now) =>
        var _ := fs.Open(p, now);
      case DoWrite(p, data, offset, junk, nasTime, now) =>
        var _, _ := fs.Write(p, data, offset, junk, nasTime, now);
      case DoFtruncate(p, size, cacheTime, now) =>
        fs.Ftruncate(p, size, cacheTime, now);
      case DoRelease(p, touched, now) =>
        fs.Release(p, touched, now);
      case DoMknod(p, now) =>
        fs.Mknod(p, now);
      case DoUnlink(p, now) =>
        fs.Unlink(p);
    }
  }

  /** The NAS changes under the object. */
  method OtherClient(fs: CacheFs, step: Step)
    requires fs.Valid() && Enabled(fs.state, step) && (step.OutsideWrite? || step.OutsideRemove?)
    modifies fs`nas, fs`state
    ensures fs.Holds() && fs.state == Act(old(fs.state), step)
  {
    hide Flatten, Reserved;
    fs.nas := if step.OutsideWrite? then fs.nas[step.p := File(step.data, step.now)] else fs.nas - {step.p};
    fs.state := fs.state.(nas := fs.nas);
  }

  method MountAgain(fs: CacheFs, step: Step) returns (next: CacheFs)
    requires fs.Valid() && Enabled(fs.state, step) && step.Remount?
    ensures fresh(next) && fresh(next.db) && next.Holds() && next.state == Act(fs.state, step)
  {
    next := new CacheFs.Remount(fs, step.blockSize, step.capacity);
  }

  lemma InvValid(st: Model.State, paths: iset<Path>)
    requires Inv(st, paths)
    ensures Model.Valid(st)
  {
  }

  /** The cache cannot be seen through the object: after any run made on it the NAS holds what it would
      without a cache, and every read handed back the bytes it would have without one. */
  method PerformAll(fs: CacheFs, steps: seq<Step>, ghost trace: seq<Model.State>, ghost paths: iset<Path>)
      returns (last: CacheFs, got: seq<seq<byte>>)
    requires fs.Valid() && IsRun(trace, steps, paths) && fs.state == trace[0]
    modifies fs, fs.db
    ensures last.Valid() && last.state == trace[|steps|]
    ensures Bytes(last.nas) == PlainAfter(Bytes(old(fs.nas)), steps)
    ensures last.open == Handles(Bytes(old(fs.nas)), steps)
    ensures |got| == |steps|
    ensures forall i :: 0 <= i < |steps| && steps[i].DoRead? ==>
              var blockSize := SizesAfter(fs.db.blockSize, fs.capacity, steps[..i]).0;
              blockSize > 0 && PlainRead(PlainAfter(Bytes(old(fs.nas)), steps[..i]), steps[i], got[i], blockSize)
  {
    hide Inv, Initial, StepAt, PlainRead, PlainAfter, SizesAfter, Handles, AllPlain;
    last, got := fs, [];
    var i := 0;
    InvAlways(trace, steps, paths, 0);
    NonePlain(trace[0], steps);
    while i < |steps|
      invariant 0 <= i == |got| <= |steps|
      invariant last == fs || (fresh(last) && fresh(last.db))
      invariant last.Valid() && last.state == trace[i] && Inv(last.state, paths)
      invariant AllPlain(trace[0], steps, got)
    {
      RunStep(trace, steps, paths, i);
      ghost var before := last.state;
      var bytes;
      last, bytes := Perform(last, steps[i], paths);
      if steps[i].DoRead? {
        ReadInRun(trace, steps, paths, i, bytes);
      }
      OneMorePlain(trace[0], steps, got, bytes);
      got := got + [bytes];
      i := i + 1;
    }
    RunRefines(trace, steps, paths, |steps|);
    HandlesInRun(trace, steps, paths, |steps|);
    assert steps[..|steps|] == steps;
    PlainMeans(trace[0], steps, got);
  }

  /** So far every read handed back what it would have without a cache. */
  ghost predicate AllPlain(first: Model.State, steps: seq<Step>, got: seq<seq<byte>>) {
    |got| <= |steps| && forall j :: 0 <= j < |got| && steps[j].DoRead? ==> PlainAt(first, steps, j, got[j])
  }

  ghost predicate PlainAt(first: Model.State, steps: seq<Step>, j: nat, got: seq<byte>)
    requires j < |steps| && steps[j].DoRead?
  {
    var blockSize := SizesAfter(first.meta.blockSize, first.capacity, steps[..j]).0;
    blockSize > 0 && PlainRead(PlainAfter(Bytes(first.nas), steps[..j]), steps[j], got, blockSize)
  }

  lemma NonePlain(first: Model.State, steps: seq<Step>)
    ensures AllPlain(first, steps, [])
  {
  }

  lemma OneMorePlain(first: Model.State, steps: seq<Step>, got: seq<seq<byte>>, bytes: seq<byte>)
    requires AllPlain(first, steps, got) && |got| < |steps|
    requires steps[|got|].DoRead? ==> PlainAt(first, steps, |got|, bytes)
    ensures AllPlain(first, steps, got + [bytes])
  {
    hide PlainAt;
  }

  lemma PlainMeans(first: Model.State, steps: seq<Step>, got: seq<seq<byte>>)
    requires AllPlain(first, steps, got) && |got| == |steps|
    ensures forall j :: 0 <= j < |steps| && steps[j].DoRead? ==>
              var blockSize := SizesAfter(first.meta.blockSize, first.capacity, steps[..j]).0;
              blockSize > 0 && PlainRead(PlainAfter(Bytes(first.nas), steps[..j]), steps[j], got[j], blockSize)
  {
    hide PlainRead, PlainAfter, SizesAfter;
    forall j | 0 <= j < |steps| && steps[j].DoRead?
      ensures var blockSize := SizesAfter(first.meta.blockSize, first.capacity, steps[..j]).0;
              blockSize > 0 && PlainRead(PlainAfter(Bytes(first.nas), steps[..j]), steps[j], got[j], blockSize)
    {
      assert PlainAt(first, steps, j, got[j]);
    }
  }

  lemma RunStep(trace: seq<Model.State>, steps: seq<Step>, paths: iset<Path>, i: nat)
    requires IsRun(trace, steps, paths) && i < |steps|
    ensures Enabled(trace[i], steps[i]) && trace[i + 1] == Apply(trace[i], steps[i])
    ensures OwnNames(paths) && (!steps[i].Remount? ==> steps[i].p in paths)
  {
    assert StepAt(trace, steps, i);
  }

  lemma ReadInRun(trace: seq<Model.State>, steps: seq<Step>, paths: iset<Path>, i: nat, got: seq<byte>)
    requires IsRun(trace, steps, paths) && i < |steps| && steps[i].DoRead? && Enabled(trace[i], steps[i])
    requires var DoRead(p, size, offset, junk, behind, now) := steps[i];
             got == Model.Read(trace[i], p, size, offset, junk, behind, now).buf
    ensures PlainAt(trace[0], steps, i, got)
  {
    hide Model.Read, PlainAfter;
    CacheIsTransparent(trace, steps, paths, i);
    HandlesInRun(trace, steps, paths, i);
  }
}
