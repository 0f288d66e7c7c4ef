/** The mounted file system as a state machine: calls on it, remounts, and other clients of the
    NAS.  The invariant every step keeps, and what it means for whole runs. */
module Runs {
  import opened Posix
  import opened CacheHelp
  import opened PathName
  import opened CacheModel
  import opened Coherence
  import opened ReadProofs
  import M = MetaModel

  datatype Step =
    | DoOpen(p: Path, now: nat)
    | DoRead(p: Path, size: nat, offset: nat, junk: seq<byte>, behind: seq<byte>, now: nat)
    | DoWrite(p: Path, data: seq<byte>, offset: nat, junk: seq<byte>, nasTime: nat, now: nat)
    | DoFtruncate(p: Path, size: nat, cacheTime: nat, now: nat)
    | DoRelease(p: Path, touched: bool, now: nat)
    | DoMknod(p: Path, now: nat)
    | DoUnlink(p: Path, now: nat)
    | Remount(blockSize: nat, capacity: nat, now: nat)
    | OutsideWrite(p: Path, data: seq<byte>, now: nat)
    | OutsideRemove(p: Path, now: nat)

  /** Another client may act only while the file is closed here, and at a time strictly after
      the modification time of the cached copy. */
  predicate OutsideAllowed(st: State, p: Path, now: nat) {
    p !in st.open && (Flatten(p) in st.cache ==> st.cache[Flatten(p)].mtime < now)
  }

  /** No cached copy shares its file with the database. */
  predicate DatabaseApart(st: State) {
    forall name :: name in st.cache ==> !Reserved(name)
  }

  /** A block size of its own is given to each mount.  It must find tracked blocks whole. */
  ghost predicate Mountable(st: State, blockSize: nat) {
    && st.open == {} && st.meta.blockSize > 0 && blockSize > 0
    && forall name :: name in st.meta.files ==> Regrouped(st.meta.files[name].blocks, st.meta.blockSize, blockSize)
  }

  /** When a step may be taken: calls go through an open handle, one per file, and return. */
  ghost predicate Enabled(st: State, step: Step) {
    && Valid(st) && DatabaseApart(st) && st.clock <= step.now
    && match step
       case DoOpen(p, now) => p !in st.open
       case DoRead(p, size, offset, junk, behind, now) =>
         Readied(st, p, size, offset, junk, behind) && Read(st, p, size, offset, junk, behind, now).Returns?
       case DoWrite(p, data, offset, junk, nasTime, now) =>
         && p in st.open && WriteCovers(|st.nas[p].data|, offset, |data|, st.meta.blockSize)
         && |junk| == AlignedSize(|data|, st.meta.blockSize) && st.clock <= nasTime <= now
         && Write(st, p, data, offset, junk, nasTime, now).Returns?
       case DoFtruncate(p, size, cacheTime, now) =>
         p in st.open && size <= |st.nas[p].data| && st.clock <= cacheTime <= now
       case DoRelease(p, touched, now) => p in st.open
       case DoMknod(p, now) => true
       case DoUnlink(p, now) => p !in st.open
       case Remount(blockSize, capacity, now) => Mountable(st, blockSize)
       case OutsideWrite(p, data, now) => OutsideAllowed(st, p, now)
       case OutsideRemove(p, now) => OutsideAllowed(st, p, now)
  }

  /** A remount keeps the database and the cache directory, and recomputes the counter; its sizes come
      from the command line. */
  ghost function Remounted(st: State, blockSize: nat, capacity: nat): State {
    st.(capacity := capacity, meta := M.InitCacheUsedSize(M.Meta(blockSize, st.meta.files, 0)))
  }

  ghost function Act(st: State, step: Step): State
    requires Enabled(st, step)
  {
    match step
    case DoOpen(p, now) => Open(st, p, now)
    case DoRead(p, size, offset, junk, behind, now) => Read(st, p, size, offset, junk, behind, now).st
    case DoWrite(p, data, offset, junk, nasTime, now) => Write(st, p, data, offset, junk, nasTime, now).st
    case DoFtruncate(p, size, cacheTime, now) => Ftruncate(st, p, size, cacheTime, now)
    case DoRelease(p, touched, now) => Release(st, p, touched, now)
    case DoMknod(p, now) => Mknod(st, p, now)
    case DoUnlink(p, now) => Unlink(st, p)
    case Remount(blockSize, capacity, now) => Remounted(st, blockSize, capacity)
    case OutsideWrite(p, data, now) => st.(nas := st.nas[p := File(data, now)])
    case OutsideRemove(p, now) => st.(nas := st.nas - {p})
  }

  ghost function Apply(st: State, step: Step): State
    requires Enabled(st, step)
  {
    Act(st, step).(clock := step.now)
  }

  /* ---- the invariant ---- */

  /** Cache names are shared by no two paths in use. */
  ghost predicate CollisionFree(paths: iset<Path>) {
    forall p, q :: p in paths && q in paths && Flatten(p) == Flatten(q) ==> p == q
  }

  /** Every path in use has a file of its own in the cache directory, shared neither with another path
      nor with the database. */
  ghost predicate OwnNames(paths: iset<Path>) {
    CollisionFree(paths) && forall p :: p in paths ==> !Reserved(Flatten(p))
  }

  /** A cached file is right while open; while closed it is right unless its modification time
      gives it away, and a copy of a removed file is older than the clock. */
  ghost predicate FileOk(st: State, p: Path) {
    Flatten(p) in st.cache ==>
      if p in st.nas then p in st.open || !Stale(st, p) ==> Coherent(st, p)
      else st.cache[Flatten(p)].mtime < st.clock
  }

  /** No block was fetched twice since the row was made, and what was fetched is tracked. */
  ghost predicate FetchedOk(st: State, name: string)
    requires name in st.fetched && name in st.meta.files
  {
    M.AllDistinct(st.fetched[name]) && M.SetOf(st.fetched[name]) <= st.meta.files[name].blocks
  }

  ghost predicate Inv(st: State, paths: iset<Path>) {
    && Valid(st)
    && DatabaseApart(st)
    && (forall p :: p in st.open ==> p in paths)
    && (forall p :: p in paths ==> FileOk(st, p))
    && (forall name :: name in st.fetched ==> FetchedOk(st, name))
  }

  /* ---- one step ---- */

  /** What has to be checked of the one file a step touches. */
  ghost predicate FileInOrder(st: State, p: Path) {
    var name := Flatten(p);
    && (name in st.cache <==> name in st.meta.files) && (name in st.cache <==> name in st.fetched)
    && (p in st.open ==> p in st.nas && name in st.cache)
    && (name in st.cache ==> FetchedOk(st, name))
    && FileOk(st, p)
  }

  lemma ValidElsewhere(st: State, st': State, p: Path, paths: iset<Path>)
    requires Valid(st) && SameElsewhere(st, st', p) && FileInOrder(st', p)
    requires OwnNames(paths) && p in paths && forall q :: q in st.open ==> q in paths
    requires DatabaseApart(st)
    ensures Valid(st') && DatabaseApart(st') && forall q :: q in st'.open ==> q in paths
  {
    hide Flatten, Reserved;
    Elsewhere(st, st', p);
    assert forall n :: n in st.cache <==> n in st.meta.files;
    assert forall n :: n in st.cache <==> n in st.fetched;
    assert forall n :: n in st'.cache <==> n in st'.meta.files;
    assert forall n :: n in st'.cache <==> n in st'.fetched;
    forall q | q in st'.open && q != p
      ensures q in st'.nas && Flatten(q) in st'.cache
    {
      assert q in st.open && Flatten(q) != Flatten(p);
    }
  }

  lemma FetchedElsewhere(st: State, st': State, p: Path)
    requires Valid(st) && Valid(st') && SameElsewhere(st, st', p) && FileInOrder(st', p)
    requires forall n :: n in st.fetched ==> FetchedOk(st, n)
    ensures forall n :: n in st'.fetched ==> FetchedOk(st', n)
  {
    Elsewhere(st, st', p);
    forall n | n in st'.fetched && n != Flatten(p)
      ensures FetchedOk(st', n)
    {
      assert n in st.fetched && FetchedOk(st, n);
    }
  }

  /** A step that keeps to one file keeps the invariant if it does so for that file. */
  lemma OneFileSuffices(st: State, st': State, p: Path, paths: iset<Path>)
    requires Inv(st, paths) && OwnNames(paths) && p in paths
    requires SameElsewhere(st, st', p) && st.clock <= st'.clock
    requires FileInOrder(st', p)
    ensures Inv(st', paths)
  {
    ValidElsewhere(st, st', p, paths);
    FetchedElsewhere(st, st', p);
    forall q | q in paths && q != p
      ensures FileOk(st', q)
    {
      assert FileOk(st, q) && Flatten(q) != Flatten(p);
      OtherFileOk(st, st', p, q);
    }
  }

  /** Equality of maps with one key taken out, key by key. */
  lemma Elsewhere(st: State, st': State, p: Path)
    requires SameElsewhere(st, st', p)
    ensures forall q :: q != p ==> (q in st'.nas <==> q in st.nas) && (q in st.nas ==> st'.nas[q] == st.nas[q])
    ensures forall q :: q != p ==> (q in st'.open <==> q in st.open)
    ensures forall n :: n != Flatten(p) ==>
              (n in st'.cache <==> n in st.cache) && (n in st.cache ==> st'.cache[n] == st.cache[n])
    ensures forall n :: n != Flatten(p) ==>
              && (n in st'.meta.files <==> n in st.meta.files)
              && (n in st.meta.files ==> st'.meta.files[n] == st.meta.files[n])
    ensures forall n :: n != Flatten(p) ==>
              (n in st'.fetched <==> n in st.fetched) && (n in st.fetched ==> st'.fetched[n] == st.fetched[n])
  {
    forall q | q != p
      ensures (q in st'.nas <==> q in st.nas) && (q in st.nas ==> st'.nas[q] == st.nas[q])
      ensures q in st'.open <==> q in st.open
    {
      assert q in st'.nas - {p} <==> q in st.nas - {p};
      assert q in st'.open - {p} <==> q in st.open - {p};
    }
    var name := Flatten(p);
    forall n | n != name
      ensures (n in st'.cache <==> n in st.cache) && (n in st.cache ==> st'.cache[n] == st.cache[n])
    {
      assert n in st'.cache - {name} <==> n in st.cache - {name};
    }
    forall n | n != name
      ensures (n in st'.meta.files <==> n in st.meta.files)
          && (n in st.meta.files ==> st'.meta.files[n] == st.meta.files[n])
    {
      assert n in st'.meta.files - {name} <==> n in st.meta.files - {name};
    }
    forall n | n != name
      ensures (n in st'.fetched <==> n in st.fetched) && (n in st.fetched ==> st'.fetched[n] == st.fetched[n])
    {
      assert n in st'.fetched - {name} <==> n in st.fetched - {name};
    }
  }

  lemma OtherFileOk(st: State, st': State, p: Path, q: Path)
    requires SameElsewhere(st, st', p) && st.clock <= st'.clock
    requires q != p && Flatten(q) != Flatten(p)
    requires Valid(st) && FileOk(st, q)
    ensures FileOk(st', q)
  {
    Elsewhere(st, st', p);
  }

  /* ---- the operations, one by one ---- */

  lemma SameWithClock(st: State, st': State, p: Path, now: nat)
    requires SameElsewhere(st, st', p)
    ensures SameElsewhere(st, st'.(clock := now), p)
  {
  }

  lemma PurgeEffect(st: State, p: Path)
    ensures SameElsewhere(st, Purge(st, Flatten(p)), p)
  {
    var name := Flatten(p);
    assert st.cache - {name} - {name} == st.cache - {name};
    assert st.meta.files - {name} - {name} == st.meta.files - {name};
    assert st.fetched - {name} - {name} == st.fetched - {name};
    if name !in st.meta.files {
      assert st.meta.files - {name} == st.meta.files;
    }
  }

  lemma MakeEffect(st: State, p: Path, remoteSize: nat, now: nat)
    requires Flatten(p) !in st.meta.files
    ensures SameElsewhere(st, Make(st, Flatten(p), remoteSize, now), p)
  {
    var name := Flatten(p);
    assert st.cache[name := File([], now)] - {name} == st.cache - {name};
    assert st.fetched[name := []] - {name} == st.fetched - {name};
    assert st.meta.files[name := M.Row(remoteSize, 0, {})] - {name} == st.meta.files - {name};
  }

  lemma SameTransitive(a: State, b: State, c: State, p: Path)
    requires SameElsewhere(a, b, p) && SameElsewhere(b, c, p)
    ensures SameElsewhere(a, c, p)
  {
  }

  /** An open leaves the file coherent: a copy that might be wrong is thrown away. */
  lemma OpenKeeps(st: State, p: Path, now: nat, paths: iset<Path>)
    requires Inv(st, paths) && OwnNames(paths) && p in paths
    requires p !in st.open && st.clock <= now
    ensures var st' := Open(st, p, now).(clock := now);
            && Inv(st', paths)
            && (p in st.nas ==> p in st'.open && Coherent(st', p))
  {
    var name := Flatten(p);
    assert FileOk(st, p);
    PurgeEffect(st, p);
    if p !in st.nas {
      var st' := Open(st, p, now).(clock := now);
      OneFileSuffices(st, st', p, paths);
    } else {
      var st1 := if name in st.meta.files && Stale(st, p) then Purge(st, name) else st;
      var st2 := if name in st1.meta.files then st1 else Make(st1, name, |st1.nas[p].data|, now);
      if name !in st1.meta.files {
        MakeEffect(st1, p, |st1.nas[p].data|, now);
      }
      SameTransitive(st, st1, st2, p);
      var st' := st2.(open := st2.open + {p}, clock := now);
      assert st'.open - {p} == st.open - {p};
      OneFileSuffices(st, st', p, paths);
    }
  }

  lemma ReadKeeps(st: State, step: Step, paths: iset<Path>)
    requires Inv(st, paths) && OwnNames(paths) && step.DoRead? && Enabled(st, step)
    ensures Inv(Apply(st, step), paths)
  {
    hide Read;
    var DoRead(p, size, offset, junk, behind, now) := step;
    var r := Read(st, p, size, offset, junk, behind, now);
    assert FileOk(st, p) && FetchedOk(st, Flatten(p));
    ReadIsRight(st, p, size, offset, junk, behind, now);
    var missing, k := ReadBooks(st, p, size, offset, junk, behind, now);
    forall o | o in missing[..k]
      ensures o !in Blocks(st, p)
    {
      assert o in M.SetOf(missing);
    }
    FetchedAppend(st.fetched[Flatten(p)], missing[..k], Blocks(st, p));
    SameWithClock(st, r.st, p, now);
    OneFileSuffices(st, r.st.(clock := now), p, paths);
  }

  lemma FetchedAppend(old_: seq<nat>, more: seq<nat>, blocks: set<nat>)
    requires M.AllDistinct(old_) && M.SetOf(old_) <= blocks
    requires M.AllDistinct(more) && forall o :: o in more ==> o !in blocks
    ensures M.AllDistinct(old_ + more) && M.SetOf(old_ + more) <= blocks + M.SetOf(more)
  {
    forall i, j | 0 <= i < |old_| && 0 <= j < |more|
      ensures old_[i] != more[j]
    {
      assert old_[i] in M.SetOf(old_) && more[j] in more;
    }
  }

  lemma WriteKeeps(st: State, p: Path, data: seq<byte>, offset: nat, junk: seq<byte>, nasTime: nat, now: nat,
                   paths: iset<Path>)
    requires Inv(st, paths) && OwnNames(paths)
    requires Enabled(st, DoWrite(p, data, offset, junk, nasTime, now))
    ensures Inv(Apply(st, DoWrite(p, data, offset, junk, nasTime, now)), paths)
  {
    var r := Write(st, p, data, offset, junk, nasTime, now);
    assert FileOk(st, p) && FetchedOk(st, Flatten(p));
    WriteEffect(st, p, data, offset, junk, nasTime, now);
    WriteKeepsCoherence(st, p, data, offset, junk, nasTime, now);
    SameWithClock(st, r.st, p, now);
    OneFileSuffices(st, r.st.(clock := now), p, paths);
  }

  lemma FtruncateKeeps(st: State, p: Path, size: nat, cacheTime: nat, now: nat, paths: iset<Path>)
    requires Inv(st, paths) && OwnNames(paths)
    requires Enabled(st, DoFtruncate(p, size, cacheTime, now))
    ensures Inv(Apply(st, DoFtruncate(p, size, cacheTime, now)), paths)
  {
    var name, st1 := Flatten(p), Ftruncate(st, p, size, cacheTime, now);
    assert FileOk(st, p) && FetchedOk(st, name);
    ShrinkKeepsCoherence(st, p, size, cacheTime, now);
    assert st1.cache - {name} == st.cache - {name} && st1.nas - {p} == st.nas - {p};
    OneFileSuffices(st, st1.(clock := now), p, paths);
  }

  lemma ReleaseKeeps(st: State, p: Path, touched: bool, now: nat, paths: iset<Path>)
    requires Inv(st, paths) && OwnNames(paths)
    requires Enabled(st, DoRelease(p, touched, now))
    ensures Inv(Apply(st, DoRelease(p, touched, now)), paths)
  {
    var name, st1 := Flatten(p), Release(st, p, touched, now);
    assert FileOk(st, p) && FetchedOk(st, name);
    assert st1.cache - {name} == st.cache - {name} && st1.open - {p} == st.open - {p};
    OneFileSuffices(st, st1.(clock := now), p, paths);
  }

  lemma MknodKeeps(st: State, p: Path, now: nat, paths: iset<Path>)
    requires Inv(st, paths) && OwnNames(paths) && p in paths && Enabled(st, DoMknod(p, now))
    ensures Inv(Apply(st, DoMknod(p, now)), paths)
  {
    assert FileOk(st, p);
    assert Flatten(p) in st.fetched ==> FetchedOk(st, Flatten(p));
    NasChange(st, p, File([], now));
    OneFileSuffices(st, Mknod(st, p, now).(clock := now), p, paths);
  }

  lemma UnlinkKeeps(st: State, p: Path, now: nat, paths: iset<Path>)
    requires Inv(st, paths) && OwnNames(paths) && p in paths && Enabled(st, DoUnlink(p, now))
    ensures Inv(Apply(st, DoUnlink(p, now)), paths)
  {
    PurgeEffect(st, p);
    assert st.nas - {p} - {p} == st.nas - {p};
    OneFileSuffices(st, Unlink(st, p).(clock := now), p, paths);
  }

  lemma OutsideKeeps(st: State, step: Step, paths: iset<Path>)
    requires Inv(st, paths) && OwnNames(paths) && Enabled(st, step)
    requires (step.OutsideWrite? || step.OutsideRemove?) && step.p in paths
    ensures Inv(Apply(st, step), paths)
  {
    var p := step.p;
    assert FileOk(st, p);
    assert Flatten(p) in st.fetched ==> FetchedOk(st, Flatten(p));
    assert st.nas - {p} - {p} == st.nas - {p};
    if step.OutsideWrite? {
      NasChange(st, p, File(step.data, step.now));
    }
    OneFileSuffices(st, Apply(st, step), p, paths);
  }

  /** Blocks tracked under the old size are right under the new one. */
  lemma RemountKeeps(st: State, blockSize: nat, capacity: nat, now: nat, paths: iset<Path>)
    requires Inv(st, paths) && Enabled(st, Remount(blockSize, capacity, now))
    ensures Inv(Apply(st, Remount(blockSize, capacity, now)), paths)
  {
    hide Regrouped, Agree, Flatten, M.SumLocal;
    var st' := Apply(st, Remount(blockSize, capacity, now));
    forall p | p in paths
      ensures FileOk(st', p)
    {
      assert FileOk(st, p);
      if p in st.nas && Flatten(p) in st.cache && !Stale(st, p) {
        RegroupAgrees(st.nas[p].data, st.cache[Flatten(p)].data, Blocks(st, p), st.meta.blockSize, blockSize);
      }
    }
    forall name | name in st'.fetched
      ensures FetchedOk(st', name)
    {
      assert FetchedOk(st, name);
    }
  }

  /** Every step keeps the invariant. */
  lemma StepKeeps(st: State, step: Step, paths: iset<Path>)
    requires Inv(st, paths) && OwnNames(paths) && Enabled(st, step)
    requires !step.Remount? ==> step.p in paths
    ensures Inv(Apply(st, step), paths)
  {
    match step
    case DoOpen(p, now) => OpenKeeps(st, p, now, paths);
    case DoRead(p, size, offset, junk, behind, now) => ReadKeeps(st, step, paths);
    case DoWrite(p, data, offset, junk, nasTime, now) => WriteKeeps(st, p, data, offset, junk, nasTime, now, paths);
    case DoFtruncate(p, size, cacheTime, now) => FtruncateKeeps(st, p, size, cacheTime, now, paths);
    case DoRelease(p, touched, now) => ReleaseKeeps(st, p, touched, now, paths);
    case DoMknod(p, now) => MknodKeeps(st, p, now, paths);
    case DoUnlink(p, now) => UnlinkKeeps(st, p, now, paths);
    case Remount(blockSize, capacity, now) => RemountKeeps(st, blockSize, capacity, now, paths);
    case OutsideWrite(p, data, now) => OutsideKeeps(st, step, paths);
    case OutsideRemove(p, now) => OutsideKeeps(st, step, paths);
  }

  /* ---- whole runs ---- */

  /** A fresh mount: an empty cache before a NAS of any contents. */
  predicate Initial(st: State) {
    && st.meta.blockSize > 0 && st.meta == M.Meta(st.meta.blockSize, map[], 0)
    && st.cache == map[] && st.fetched == map[] && st.open == {}
  }

  ghost predicate StepAt(trace: seq<State>, steps: seq<Step>, i: nat)
    requires i < |steps| && |trace| == |steps| + 1
  {
    Enabled(trace[i], steps[i]) && trace[i + 1] == Apply(trace[i], steps[i])
  }

  /** Steps on the given paths, from a fresh mount. */
  ghost predicate IsTrace(trace: seq<State>, steps: seq<Step>, paths: iset<Path>) {
    && |trace| == |steps| + 1 && Initial(trace[0])
    && forall i :: 0 <= i < |steps| ==> StepAt(trace, steps, i) && (!steps[i].Remount? ==> steps[i].p in paths)
  }

  ghost predicate IsRun(trace: seq<State>, steps: seq<Step>, paths: iset<Path>) {
    IsTrace(trace, steps, paths) && OwnNames(paths)
  }

  lemma {:induction false} InvAlways(trace: seq<State>, steps: seq<Step>, paths: iset<Path>, i: nat)
    requires IsRun(trace, steps, paths) && i < |trace|
    ensures Inv(trace[i], paths)
    decreases i
  {
    if i > 0 {
      InvAlways(trace, steps, paths, i - 1);
      assert StepAt(trace, steps, i - 1);
      StepKeeps(trace[i - 1], steps[i - 1], paths);
    }
  }

  /** Close-to-open consistency: in every reachable state every open file is coherent, and a
      closed one is coherent unless its modification time says otherwise. */
  lemma CloseToOpen(trace: seq<State>, steps: seq<Step>, paths: iset<Path>, i: nat, p: Path)
    requires IsRun(trace, steps, paths) && i < |trace| && p in paths
    ensures p in trace[i].open ==> Coherent(trace[i], p)
    ensures (p in trace[i].nas && Flatten(p) in trace[i].cache && !Stale(trace[i], p)) ==> Coherent(trace[i], p)
  {
    InvAlways(trace, steps, paths, i);
    assert FileOk(trace[i], p);
  }

  /* ---- the books ---- */

  /** What a row's local_size pays for stays what it was, see MetaModel.RestartConserves. */
  predicate KeepsPrices(m: M.Meta, blockSize: nat) {
    blockSize == m.blockSize || forall name :: name in m.files ==> m.files[name].blocks == {}
  }

  /** The remounts before state `i` kept the block size, or found no block. */
  predicate PricesKept(trace: seq<State>, steps: seq<Step>, i: nat)
    requires i <= |steps| && |trace| == |steps| + 1
  {
    forall j :: 0 <= j < i && steps[j].Remount? ==> KeepsPrices(trace[j].meta, steps[j].blockSize)
  }

  lemma ReadConserves(st: State, p: Path, size: nat, offset: nat, junk: seq<byte>, behind: seq<byte>, now: nat)
    requires Readied(st, p, size, offset, junk, behind) && M.Conserved(st.meta)
    ensures M.Conserved(Read(st, p, size, offset, junk, behind, now).st.meta)
  {
    var bs := st.meta.blockSize;
    var lower, n := AlignLower(offset, bs), |junk| / bs;
    SpanIs(n, bs);
    FillConserves(st, p, lower, M.Hits(st.meta, Flatten(p), Offsets(lower, n, bs)), [], junk, 0, now);
  }

  lemma {:induction false} FillConserves(st: State, p: Path, o: nat, hits: seq<bool>, done: seq<byte>,
                                         rest: seq<byte>, ret: nat, now: nat)
    requires Readable(st, p) && |rest| == Span(|hits|, st.meta.blockSize) && M.Conserved(st.meta)
    ensures M.Conserved(Fill(st, p, o, hits, done, rest, ret, now).st.meta)
    decreases |hits|
  {
    if hits != [] && (hits[0] || !Full(st)) {
      var bs := st.meta.blockSize;
      var got := Pread(Source(st, p, hits[0]), bs, o);
      var chunk := Overlay(rest[..bs], got, 0);
      M.InsertBlockConserves(st.meta, Flatten(p), o);
      var st1 := if hits[0] then st else Store(st, p, chunk, o, now);
      FillConserves(st1, p, o + bs, hits[1..], done + chunk, rest[bs..], ret + |got|, now);
    }
  }

  lemma WriteConserves(st: State, p: Path, data: seq<byte>, offset: nat, junk: seq<byte>, nasTime: nat, now: nat)
    requires Valid(st) && p in st.open && |junk| == AlignedSize(|data|, st.meta.blockSize) && M.Conserved(st.meta)
    ensures M.Conserved(Write(st, p, data, offset, junk, nasTime, now).st.meta)
  {
    var bs := st.meta.blockSize;
    M.TrackConserves(st.meta, Flatten(p), M.SetOf(Offsets(AlignLower(offset, bs), |junk| / bs, bs)));
  }

  lemma OpenConserves(st: State, p: Path, now: nat)
    requires Valid(st) && M.Conserved(st.meta)
    ensures M.Conserved(Open(st, p, now).meta)
  {
    hide M.Conserved, Flatten;
    M.DeleteFileConserves(st.meta, Flatten(p));
    if p in st.nas {
      M.CreateFileConserves(st.meta, Flatten(p), |st.nas[p].data|);
      M.CreateFileConserves(M.DeleteFile(st.meta, Flatten(p)), Flatten(p), |st.nas[p].data|);
    }
  }

  /** Every step keeps the books, a remount if and only if it keeps the prices. */
  lemma StepConserves(st: State, step: Step)
    requires M.Conserved(st.meta) && Enabled(st, step)
    ensures M.Conserved(Apply(st, step).meta) <==> (step.Remount? ==> KeepsPrices(st.meta, step.blockSize))
  {
    hide M.Conserved, Read, Write, Open;
    match step
    case DoOpen(p, now) => OpenConserves(st, p, now);
    case DoRead(p, size, offset, junk, behind, now) => ReadConserves(st, p, size, offset, junk, behind, now);
    case DoWrite(p, data, offset, junk, nasTime, now) => WriteConserves(st, p, data, offset, junk, nasTime, now);
    case DoUnlink(p, now) => M.DeleteFileConserves(st.meta, Flatten(p));
    case Remount(blockSize, capacity, now) => M.RestartConserves(st.meta, blockSize);
    case _ =>
  }

  lemma {:induction false} BooksAlways(trace: seq<State>, steps: seq<Step>, paths: iset<Path>, i: nat)
    requires IsTrace(trace, steps, paths) && i < |trace| && PricesKept(trace, steps, i)
    ensures M.Conserved(trace[i].meta)
    decreases i
  {
    hide Enabled, Act, KeepsPrices, M.SumLocal;
    if i > 0 {
      BooksAlways(trace, steps, paths, i - 1);
      assert StepAt(trace, steps, i - 1);
      StepConserves(trace[i - 1], steps[i - 1]);
    } else {
      M.NoRows();
    }
  }

  /** Conservation: in every reachable state the counter is the block size times the blocks held,
      and a remount with the same sizes would compute it again. */
  lemma UsedIsBlocks(trace: seq<State>, steps: seq<Step>, paths: iset<Path>, i: nat)
    requires IsTrace(trace, steps, paths) && i < |trace| && PricesKept(trace, steps, i)
    ensures var m := trace[i].meta;
            && M.Conserved(m) && m.used == m.blockSize * M.CountBlocks(m.files)
            && Remounted(trace[i], m.blockSize, trace[i].capacity) == trace[i]
  {
    BooksAlways(trace, steps, paths, i);
    M.ConservedUsed(trace[i].meta);
  }

  /** Between two purges of a file no block of it is read from the NAS twice to fill the cache,
      and the blocks so fetched never exceed what the file adds to the counter. */
  lemma FetchAtMostOnce(trace: seq<State>, steps: seq<Step>, paths: iset<Path>, i: nat, name: string)
    requires IsRun(trace, steps, paths) && i < |trace| && name in trace[i].fetched
    ensures M.AllDistinct(trace[i].fetched[name])
    ensures name in trace[i].meta.files
    ensures PricesKept(trace, steps, i) ==>
              var m := trace[i].meta;
              m.blockSize * |trace[i].fetched[name]| <= m.files[name].localSize <= m.used
  {
    var st := trace[i];
    InvAlways(trace, steps, paths, i);
    assert FetchedOk(st, name);
    if PricesKept(trace, steps, i) {
      BooksAlways(trace, steps, paths, i);
      var fetched, blocks := st.fetched[name], st.meta.files[name].blocks;
      M.CountListed(fetched, blocks);
      assert M.SetOf(fetched) * blocks + (blocks - M.SetOf(fetched)) == blocks;
      MulMonotone(st.meta.blockSize, |fetched|, |blocks|);
      M.ConservedUsed(st.meta);
    }
  }

  /* ---- against the plain NAS ---- */

  /** The NAS without a cache in front of it. */
  function Plain(nas: map<Path, seq<byte>>, step: Step): map<Path, seq<byte>> {
    match step
    case DoWrite(p, data, offset, _, _, _) => if p in nas then nas[p := Pwrite(nas[p], data, offset)] else nas
    case DoFtruncate(p, size, _, _) => if p in nas then nas[p := Truncate(nas[p], size)] else nas
    case DoMknod(p, _) => if p in nas then nas else nas[p := []]
    case DoUnlink(p, _) => nas - {p}
    case OutsideWrite(p, data, _) => nas[p := data]
    case OutsideRemove(p, _) => nas - {p}
    case _ => nas
  }

  function PlainAfter(nas: map<Path, seq<byte>>, steps: seq<Step>): map<Path, seq<byte>> {
    if steps == [] then nas else Plain(PlainAfter(nas, steps[..|steps| - 1]), steps[|steps| - 1])
  }

  function Bytes(nas: map<Path, File>): map<Path, seq<byte>> {
    map p | p in nas :: nas[p].data
  }

  function Contents(st: State): map<Path, seq<byte>> { Bytes(st.nas) }

  lemma StepRefines(st: State, step: Step, paths: iset<Path>)
    requires Inv(st, paths) && Enabled(st, step) && (!step.Remount? ==> step.p in paths)
    ensures Contents(Apply(st, step)) == Plain(Contents(st), step)
  {
    hide Read, Write, Inv;
    if step.DoRead? {
      ReadLeavesNas(st, step, paths);
    } else if step.DoWrite? {
      WriteIsSplice(st, step);
    }
  }

  lemma ReadLeavesNas(st: State, step: Step, paths: iset<Path>)
    requires Inv(st, paths) && Enabled(st, step) && step.DoRead? && step.p in paths
    ensures Apply(st, step).nas == st.nas
  {
    assert FileOk(st, step.p);
    ReadIsRight(st, step.p, step.size, step.offset, step.junk, step.behind, step.now);
  }

  lemma WriteIsSplice(st: State, step: Step)
    requires Enabled(st, step) && step.DoWrite?
    ensures Contents(Apply(st, step)) == Contents(st)[step.p := Pwrite(Contents(st)[step.p], step.data, step.offset)]
  {
    WriteEffect(st, step.p, step.data, step.offset, step.junk, step.nasTime, step.now);
  }

  lemma {:induction false} RunRefines(trace: seq<State>, steps: seq<Step>, paths: iset<Path>, i: nat)
    requires IsRun(trace, steps, paths) && i < |trace|
    ensures Contents(trace[i]) == PlainAfter(Contents(trace[0]), steps[..i])
    decreases i
  {
    if i > 0 {
      RunRefines(trace, steps, paths, i - 1);
      InvAlways(trace, steps, paths, i - 1);
      assert StepAt(trace, steps, i - 1);
      StepRefines(trace[i - 1], steps[i - 1], paths);
      assert steps[..i][..i - 1] == steps[..i - 1];
    }
  }

  /** What a read hands back is what a plain read hands back after the same steps without a cache, as
      far as that goes and if the window covers it (see Limits.ReadSafeExactly). */
  predicate PlainRead(plainNas: map<Path, seq<byte>>, step: Step, got: seq<byte>, blockSize: nat)
    requires step.DoRead? && blockSize > 0
  {
    && step.p in plainNas
    && var plain := Pread(plainNas[step.p], step.size, step.offset);
       && |plain| <= step.size == |got|
       && (ReadCovers(|plainNas[step.p]|, step.offset, step.size, blockSize) ==> got[..|plain|] == plain)
  }

  ghost predicate ReadsPlain(trace: seq<State>, steps: seq<Step>, i: nat)
    requires i < |steps| && |trace| == |steps| + 1 && steps[i].DoRead? && Enabled(trace[i], steps[i])
  {
    var DoRead(p, size, offset, junk, behind, now) := steps[i];
    var got := Read(trace[i], p, size, offset, junk, behind, now).buf;
    PlainRead(PlainAfter(Contents(trace[0]), steps[..i]), steps[i], got, trace[i].meta.blockSize)
  }

  /** The cache cannot be seen: for every run, whatever the block sizes, the NAS holds what it
      would hold without a cache, and every read returns, as far as the NAS file goes, the bytes
      that a plain read at that point of the cache-free run returns. */
  lemma CacheIsTransparent(trace: seq<State>, steps: seq<Step>, paths: iset<Path>, i: nat)
    requires IsRun(trace, steps, paths) && i < |steps| && steps[i].DoRead?
    ensures Contents(trace[i]) == PlainAfter(Contents(trace[0]), steps[..i])
    ensures ReadsPlain(trace, steps, i)
  {
    hide Read, PlainAfter;
    RunRefines(trace, steps, paths, i);
    InvAlways(trace, steps, paths, i);
    assert StepAt(trace, steps, i);
    var st := trace[i];
    var DoRead(p, size, offset, junk, behind, now) := steps[i];
    assert FileOk(st, p);
    ReadIsRight(st, p, size, offset, junk, behind, now);
  }

  /* ---- capacity ---- */

  /** No write in the run asks for a window longer than `w`. */
  predicate WindowsUpTo(steps: seq<Step>, w: nat) {
    forall i :: 0 <= i < |steps| && steps[i].DoWrite? ==> |steps[i].junk| <= w
  }

  /** How many blocks of the requested window the cache lacks. */
  function Lacking(st: State, p: Path, offset: nat, window: nat): nat
    requires st.meta.blockSize > 0 && Flatten(p) in st.meta.files
  {
    var bs := st.meta.blockSize;
    |M.SetOf(Offsets(AlignLower(offset, bs), window / bs, bs)) - Blocks(st, p)|
  }

  lemma ReadReturns(st: State, p: Path, size: nat, offset: nat, junk: seq<byte>, behind: seq<byte>, now: nat)
    requires Readied(st, p, size, offset, junk, behind)
    ensures Read(st, p, size, offset, junk, behind, now).Returns? <==> RoomFor(st, Lacking(st, p, offset, |junk|))
  {
    var missing, k := ReadBooks(st, p, size, offset, junk, behind, now);
  }

  /** A read over `m` missing blocks returns exactly when the counter stays under the capacity
      until the last of them; what a write needs is in Coherence.WriteEffect. */
  lemma Progress(st: State, p: Path, size: nat, offset: nat, junk: seq<byte>, behind: seq<byte>, now: nat)
    requires Readied(st, p, size, offset, junk, behind)
    ensures var m := Lacking(st, p, offset, |junk|);
            Read(st, p, size, offset, junk, behind, now).Returns? <==>
            m == 0 || st.meta.used + st.meta.blockSize * (m - 1) < st.capacity * 1024
  {
    ReadReturns(st, p, size, offset, junk, behind, now);
    RoomForMeans(st, Lacking(st, p, offset, |junk|));
  }

  lemma RoomForMeans(st: State, m: nat)
    ensures RoomFor(st, m) <==> m == 0 || st.meta.used + st.meta.blockSize * (m - 1) < st.capacity * 1024
  {
    if m > 0 {
      SpanIs(m - 1, st.meta.blockSize);
    }
  }

  /** A mount of these sizes, its counter less than a block or a window of `w` above the capacity. */
  predicate Bounded(st: State, blockSize: nat, capacity: nat, w: nat) {
    && st.capacity == capacity && st.meta.blockSize == blockSize
    && st.meta.used < capacity * 1024 + Max(blockSize, w)
  }

  lemma StepBounded(st: State, step: Step, w: nat)
    requires M.Conserved(st.meta) && Enabled(st, step)
    requires step.Remount? ==> step.blockSize == st.meta.blockSize && step.capacity == st.capacity
    requires step.DoWrite? ==> |step.junk| <= w
    requires Bounded(st, st.meta.blockSize, st.capacity, w)
    ensures Bounded(Apply(st, step), st.meta.blockSize, st.capacity, w)
  {
    hide Read, Write, M.SetOf;
    match step
    case DoRead(p, size, offset, junk, behind, now) => ReadBounded(st, p, size, offset, junk, behind, now, w);
    case DoWrite(p, data, offset, junk, nasTime, now) => WriteBounded(st, p, data, offset, junk, nasTime, now);
    case DoOpen(p, now) => M.ConservedUsed(st.meta);
    case DoUnlink(p, now) => M.ConservedUsed(st.meta);
    case Remount(blockSize, capacity, now) => M.ConservedUsed(st.meta);
    case _ =>
  }

  lemma ReadBounded(st: State, p: Path, size: nat, offset: nat, junk: seq<byte>, behind: seq<byte>, now: nat, w: nat)
    requires Enabled(st, DoRead(p, size, offset, junk, behind, now))
    requires st.meta.used < st.capacity * 1024 + Max(st.meta.blockSize, w)
    ensures var st' := Read(st, p, size, offset, junk, behind, now).st;
            && st'.capacity == st.capacity && st'.meta.blockSize == st.meta.blockSize
            && st'.meta.used < st.capacity * 1024 + Max(st.meta.blockSize, w)
  {
    hide Read, M.SetOf;
    var bs := st.meta.blockSize;
    var missing, k := ReadBooks(st, p, size, offset, junk, behind, now);
    if k > 0 {
      assert Span(k, bs) == bs + Span(k - 1, bs);
    }
  }

  lemma WriteBounded(st: State, p: Path, data: seq<byte>, offset: nat, junk: seq<byte>, nasTime: nat, now: nat)
    requires Enabled(st, DoWrite(p, data, offset, junk, nasTime, now))
    ensures var st' := Write(st, p, data, offset, junk, nasTime, now).st;
            && st'.capacity == st.capacity && st'.meta.blockSize == st.meta.blockSize
            && st'.meta.used < st.capacity * 1024 + (if junk == [] then 1 else |junk|)
  {
    hide Write, M.SetOf, AlignLower;
    var bs := st.meta.blockSize;
    WriteEffect(st, p, data, offset, junk, nasTime, now);
    WindowGrowth(Blocks(st, p), AlignLower(offset, bs), |junk| / bs, bs);
  }

  /** A window of `n` blocks adds no more than itself. */
  lemma WindowGrowth(blocks: set<nat>, lower: nat, n: nat, bs: nat)
    ensures bs * |M.SetOf(Offsets(lower, n, bs)) - blocks| <= bs * n
  {
    hide M.SetOf;
    var window := M.SetOf(Offsets(lower, n, bs));
    M.CountListed(Offsets(lower, n, bs), window);
    assert window * window == window;
    assert (window - blocks) + window * blocks == window;
    MulMonotone(bs, |window - blocks|, n);
  }

  /** Every mount of the run has the same sizes. */
  predicate SameSizes(steps: seq<Step>, blockSize: nat, capacity: nat) {
    forall i :: 0 <= i < |steps| && steps[i].Remount? ==>
      steps[i].blockSize == blockSize && steps[i].capacity == capacity
  }

  /** The cache overshoots its capacity by less than one window. */
  lemma {:induction false} CapacityBound(trace: seq<State>, steps: seq<Step>, paths: iset<Path>, w: nat, i: nat)
    requires IsTrace(trace, steps, paths) && i < |trace| && WindowsUpTo(steps, w)
    requires SameSizes(steps, trace[0].meta.blockSize, trace[0].capacity)
    ensures Bounded(trace[i], trace[0].meta.blockSize, trace[0].capacity, w) && PricesKept(trace, steps, i)
    decreases i
  {
    hide Enabled, Act, Bounded, PricesKept, M.Conserved;
    BoundedAtFirst(trace, steps, w);
    if i > 0 {
      CapacityBound(trace, steps, paths, w, i - 1);
      BooksAlways(trace, steps, paths, i - 1);
      assert StepAt(trace, steps, i - 1);
      BoundedSizes(trace, steps, trace[0].meta.blockSize, trace[0].capacity, w, i - 1);
      StepBounded(trace[i - 1], steps[i - 1], w);
    }
  }

  lemma BoundedAtFirst(trace: seq<State>, steps: seq<Step>, w: nat)
    requires |trace| == |steps| + 1 && Initial(trace[0])
    ensures Bounded(trace[0], trace[0].meta.blockSize, trace[0].capacity, w) && PricesKept(trace, steps, 0)
  {
  }

  lemma BoundedSizes(trace: seq<State>, steps: seq<Step>, blockSize: nat, capacity: nat, w: nat, i: nat)
    requires |trace| == |steps| + 1 && i < |steps| && SameSizes(steps, blockSize, capacity)
    requires Bounded(trace[i], blockSize, capacity, w) && PricesKept(trace, steps, i)
    ensures trace[i].meta.blockSize == blockSize && trace[i].capacity == capacity && PricesKept(trace, steps, i + 1)
  {
  }

  /* ---- there are such runs ---- */

  lemma InitialInv(st: State, paths: iset<Path>)
    requires Initial(st)
    ensures Inv(st, paths)
  {
  }

  /** On a fresh open any block can be read. */
  lemma FirstRead(st: State, p: Path, junk: seq<byte>, now: nat)
    requires Valid(st) && DatabaseApart(st) && p in st.open && Blocks(st, p) == {} && !Full(st) && st.clock <= now
    requires |junk| == st.meta.blockSize
    ensures Enabled(st, DoRead(p, st.meta.blockSize, 0, junk, [], now))
    ensures var st' := Apply(st, DoRead(p, st.meta.blockSize, 0, junk, [], now));
            && st'.open == st.open && st'.nas.Keys == st.nas.Keys && st'.capacity == st.capacity
            && st'.meta.blockSize == st.meta.blockSize && st'.meta.used == st.meta.used + st.meta.blockSize
  {
    hide Read;
    var bs := st.meta.blockSize;
    WindowFitsAligned(0, bs, bs);
    var missing, k := ReadBooks(st, p, bs, 0, junk, [], now);
    OneBlock(bs);
    assert M.SetOf([0]) - Blocks(st, p) == {0};
    assert Span(0, bs) == 0 && Span(1, bs) == bs + Span(0, bs);
  }

  lemma OneBlock(bs: nat)
    requires bs > 0
    ensures AlignedSize(bs, bs) == bs && bs / bs == 1 && Offsets(AlignLower(0, bs), 1, bs) == [0] && M.SetOf([0]) == {0}
  {
    MultipleMod(1, bs);
    assert bs / bs == 1;
  }

  /** From every fresh mount with room for more than a block, every file can be opened, read,
      written and closed. */
  lemma RunsExist(st: State, p: Path, data: seq<byte>, junk: seq<byte>) returns (trace: seq<State>, steps: seq<Step>)
    requires Initial(st) && p in st.nas && !Reserved(Flatten(p)) && st.capacity * 1024 > st.meta.blockSize
    requires |junk| == st.meta.blockSize == |data|
    ensures IsRun(trace, steps, iset{p}) && |steps| == 4
    ensures steps[0].DoOpen? && steps[1].DoRead? && steps[2].DoWrite? && steps[3].DoRelease?
  {
    hide Read, Write, Inv, Act, Enabled, Flatten, Reserved;
    var bs, now, paths := st.meta.blockSize, st.clock, iset{p};
    steps := [DoOpen(p, now), DoRead(p, bs, 0, junk, [], now), DoWrite(p, data, 0, junk, now, now),
        DoRelease(p, false, now)];
    InitialInv(st, paths);
    var st1 := Opened(st, p, now);
    StepKeeps(st, steps[0], paths);
    FirstRead(st1, p, junk, now);
    var st2 := Apply(st1, steps[1]);
    StepKeeps(st1, steps[1], paths);
    FirstWrite(st2, p, data, junk, now, paths);
    var st3 := Apply(st2, steps[2]);
    StepKeeps(st2, steps[2], paths);
    var st4 := Closed(st3, p, now, paths);
    trace := [st, st1, st2, st3, st4];
    assert StepAt(trace, steps, 0) && StepAt(trace, steps, 1) && StepAt(trace, steps, 2) && StepAt(trace, steps, 3);
  }

  lemma Opened(st: State, p: Path, now: nat) returns (st1: State)
    requires Initial(st) && p in st.nas && st.clock <= now && st.capacity > 0
    ensures Enabled(st, DoOpen(p, now)) && st1 == Apply(st, DoOpen(p, now))
    ensures Valid(st1) && p in st1.open && Blocks(st1, p) == {} && st1.clock == now
    ensures st1.capacity == st.capacity && st1.meta.used == 0 && st1.meta.blockSize == st.meta.blockSize
  {
    st1 := Apply(st, DoOpen(p, now));
  }

  lemma FirstWrite(st: State, p: Path, data: seq<byte>, junk: seq<byte>, now: nat, paths: iset<Path>)
    requires Inv(st, paths) && p in st.open && !Full(st) && st.clock <= now
    requires |junk| == st.meta.blockSize == |data|
    ensures Enabled(st, DoWrite(p, data, 0, junk, now, now))
    ensures p in Apply(st, DoWrite(p, data, 0, junk, now, now)).open
  {
    hide Write;
    var bs := st.meta.blockSize;
    WindowFitsAligned(0, bs, bs);
    OneBlock(bs);
    WriteEffect(st, p, data, 0, junk, now, now);
  }

  lemma Closed(st: State, p: Path, now: nat, paths: iset<Path>) returns (st1: State)
    requires Inv(st, paths) && p in st.open && st.clock <= now
    ensures Enabled(st, DoRelease(p, false, now)) && st1 == Apply(st, DoRelease(p, false, now))
  {
    st1 := Apply(st, DoRelease(p, false, now));
  }
}
