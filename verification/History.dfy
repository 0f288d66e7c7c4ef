/** How long a cached copy lasts: what an open keeps and what it throws away, and which blocks, bytes,
    handles and sizes there are after whole runs. */
module History {
  import opened Posix
  import opened CacheHelp
  import opened PathName
  import opened CacheModel
  import opened Coherence
  import opened ReadProofs
  import opened ReadBytes
  import opened Runs
  import M = MetaModel

  /* ---- cfs_open ---- */

  /** The row and the cached copy are gone, and what the row added to the counter. */
  ghost predicate Dropped(st: State, st': State, name: string) {
    && name !in st'.meta.files && name !in st'.cache && name !in st'.fetched
    && st'.meta.used == st.meta.used - if name in st.meta.files then st.meta.files[name].localSize else 0
  }

  /** A new row with no block, an empty cached file, and the counter without what the old row added. */
  ghost predicate Renewed(st: State, st': State, name: string, remoteSize: nat, now: nat) {
    && name in st'.meta.files && st'.meta.files[name] == M.Row(remoteSize, 0, {})
    && name in st'.cache && st'.cache[name] == File([], now)
    && name in st'.fetched && st'.fetched[name] == []
    && st'.meta.used == st.meta.used - if name in st.meta.files then st.meta.files[name].localSize else 0
  }

  /** An open of a file the NAS does not have drops the copy and fails.  Any other succeeds: it keeps a
      copy that is not older than the NAS file, whole and as it is, and makes a new one otherwise. */
  lemma OpenEffect(st: State, p: Path, now: nat)
    requires Valid(st)
    ensures var st', name := Open(st, p, now), Flatten(p);
            && SameElsewhere(st, st', p) && st'.nas == st.nas && st'.clock == st.clock
            && (p !in st.nas ==> Dropped(st, st', name) && st'.open == st.open)
            && (p in st.nas ==>
                  && st'.open == st.open + {p}
                  && if name in st.cache && st.cache[name].mtime >= st.nas[p].mtime
                     then st'.meta == st.meta && st'.cache == st.cache && st'.fetched == st.fetched
                     else Renewed(st, st', name, |st.nas[p].data|, now))
  {
    hide Flatten;
    var name := Flatten(p);
    PurgeEffect(st, p);
    if p in st.nas {
      var st1 := if name in st.meta.files && Stale(st, p) then Purge(st, name) else st;
      var st2 := if name in st1.meta.files then st1 else Make(st1, name, |st1.nas[p].data|, now);
      if name !in st1.meta.files {
        MakeEffect(st1, p, |st1.nas[p].data|, now);
      }
      SameTransitive(st, st1, st2, p);
      assert st2.open + {p} - {p} == st2.open - {p};
    }
  }

  /* ---- what ends a copy, and what does not ---- */

  /** The file is unlinked, or an open finds the NAS file missing or strictly newer. */
  ghost predicate Ends(st: State, step: Step, name: string)
    requires name in st.cache
  {
    match step
    case DoUnlink(p, _) => Flatten(p) == name
    case DoOpen(p, _) => Flatten(p) == name && (p !in st.nas || st.cache[name].mtime < st.nas[p].mtime)
    case _ => false
  }

  /** Every tracked block stays tracked, and what has been fetched since were none of them. */
  ghost predicate Lasts(st: State, st': State, name: string) {
    && name in st.meta.files && name in st'.meta.files && name in st.fetched && name in st'.fetched
    && name in st.cache && name in st'.cache
    && st'.meta.files[name].remoteSize == st.meta.files[name].remoteSize
    && st.meta.files[name].blocks <= st'.meta.files[name].blocks
    && st.fetched[name] <= st'.fetched[name]
    && forall o :: o in st'.fetched[name][|st.fetched[name]|..] ==> o !in st.meta.files[name].blocks
  }

  /** The step writes over byte `x` of the cached file, or cuts it off. */
  predicate Changes(st: State, step: Step, name: string, x: nat)
    requires st.meta.blockSize > 0
  {
    || (step.DoWrite? && Flatten(step.p) == name
        && AlignLower(step.offset, st.meta.blockSize) <= x < AlignLower(step.offset, st.meta.blockSize) + |step.junk|)
    || (step.DoFtruncate? && Flatten(step.p) == name && step.size <= x)
  }

  /** The bytes of tracked blocks stay, but for those the step is there to change. */
  ghost predicate BytesLast(st: State, step: Step, st': State, name: string)
    requires st.meta.blockSize > 0 && name in st.cache && name in st.meta.files && name in st'.cache
  {
    var before, after := st.cache[name].data, st'.cache[name].data;
    forall x | 0 <= x < |before| && AlignLower(x, st.meta.blockSize) in st.meta.files[name].blocks ::
      Changes(st, step, name, x) || (x < |after| && after[x] == before[x])
  }

  /* ---- reads leave tracked bytes alone ---- */

  ghost predicate CopyKept(st: State, st': State, p: Path, now: nat) {
    var name := Flatten(p);
    && st.meta.blockSize > 0 && name in st.meta.files && name in st'.meta.files && name in st.cache && name in st'.cache
    && st'.nas == st.nas && st'.meta.blockSize == st.meta.blockSize
    && st'.meta.files[name].remoteSize == st.meta.files[name].remoteSize
    && st.meta.files[name].blocks <= st'.meta.files[name].blocks
    && |st.cache[name].data| <= |st'.cache[name].data|
    && (forall x :: 0 <= x < |st.cache[name].data| && AlignLower(x, st.meta.blockSize) in st.meta.files[name].blocks ==>
          st'.cache[name].data[x] == st.cache[name].data[x])
    && (st'.cache[name] == st.cache[name] || st'.cache[name].mtime == now)
  }

  lemma StoreKeepsCopy(st: State, p: Path, chunk: seq<byte>, o: nat, now: nat)
    requires Readable(st, p) && Flatten(p) in st.meta.files && |chunk| == st.meta.blockSize
    requires o % st.meta.blockSize == 0 && o !in Blocks(st, p)
    ensures CopyKept(st, Store(st, p, chunk, o, now), p, now)
  {
    hide Flatten;
    var name, bs, st' := Flatten(p), st.meta.blockSize, Store(st, p, chunk, o, now);
    StoreEffect(st, p, chunk, o, now);
    forall x | 0 <= x < |st.cache[name].data| && AlignLower(x, bs) in Blocks(st, p)
      ensures st'.cache[name].data[x] == st.cache[name].data[x]
    {
      if o <= x < o + bs {
        SameBlock(AlignLower(x, bs), o, x, bs);
      }
    }
  }

  lemma CopyKeptOn(a: State, b: State, c: State, p: Path, now: nat)
    requires CopyKept(a, b, p, now) && CopyKept(b, c, p, now)
    ensures CopyKept(a, c, p, now)
  {
    hide Flatten;
  }

  lemma {:induction false} FillKeepsCopy(st: State, p: Path, o: nat, hits: seq<bool>, done: seq<byte>, rest: seq<byte>,
                                         ret: nat, now: nat, f: Outcome)
    requires Readable(st, p) && Flatten(p) in st.meta.files && |rest| == Span(|hits|, st.meta.blockSize)
    requires o % st.meta.blockSize == 0 && BitmapRight(Blocks(st, p), o, hits, st.meta.blockSize)
    requires f == Fill(st, p, o, hits, done, rest, ret, now)
    ensures CopyKept(st, f.st, p, now)
    decreases |hits|
  {
    hide Flatten, Overlay, Store, Pread, Source, Full, Fill, CopyKept;
    var bs := st.meta.blockSize;
    if hits == [] {
      FillsNothing(st, p, o, done, rest, ret, now);
      CopyItself(st, p, now);
    } else if !hits[0] && Full(st) {
      FillSpins(st, p, o, hits, done, rest, ret, now);
      CopyItself(st, p, now);
    } else {
      BlockStart(o, 1, bs);
      var chunk, n := FillStep(st, p, o, hits, done, rest, ret, now);
      if hits[0] {
        FillKeepsCopy(st, p, o + bs, hits[1..], done + chunk, rest[bs..], ret + n, now, f);
      } else {
        var st1 := Store(st, p, chunk, o, now);
        StoreEffect(st, p, chunk, o, now);
        StoreKeepsCopy(st, p, chunk, o, now);
        BitmapStays(Blocks(st, p), o, o + bs, hits[1..], bs);
        FillKeepsCopy(st1, p, o + bs, hits[1..], done + chunk, rest[bs..], ret + n, now, f);
        CopyKeptOn(st, st1, f.st, p, now);
      }
    }
  }

  lemma CopyItself(st: State, p: Path, now: nat)
    requires Readable(st, p) && Flatten(p) in st.meta.files
    ensures CopyKept(st, st, p, now)
  {
  }

  lemma ReadKeepsCopy(st: State, p: Path, size: nat, offset: nat, junk: seq<byte>, behind: seq<byte>, now: nat)
    requires Readied(st, p, size, offset, junk, behind)
    ensures CopyKept(st, Read(st, p, size, offset, junk, behind, now).st, p, now)
  {
    hide Flatten, Fill, CopyKept;
    var bs, lower := st.meta.blockSize, AlignLower(offset, st.meta.blockSize);
    var n := |junk| / bs;
    var hits := M.Hits(st.meta, Flatten(p), Offsets(lower, n, bs));
    SpanIs(n, bs);
    CopyItself(st, p, now);
    BitmapMadeRight(st.meta, Flatten(p), lower, n);
    FillKeepsCopy(st, p, lower, hits, [], junk, 0, now, Fill(st, p, lower, hits, [], junk, 0, now));
  }

  /* ---- one step ---- */

  /** A step of a run touches one file only. */
  lemma StepElsewhere(st: State, step: Step)
    requires Enabled(st, step) && !step.Remount?
    ensures SameElsewhere(st, Apply(st, step), step.p)
  {
    hide Flatten, Read, Write, Open, Reserved;
    var p := step.p;
    match step
    case DoOpen(_, now) => OpenEffect(st, p, now);
    case DoRead(_, size, offset, junk, behind, now) =>
      var missing, k := ReadBooks(st, p, size, offset, junk, behind, now);
    case DoWrite(_, data, offset, junk, nasTime, now) => WriteEffect(st, p, data, offset, junk, nasTime, now);
    case DoFtruncate(_, size, cacheTime, now) => FtruncateEffect(st, p, size, cacheTime, now);
    case DoRelease(_, touched, now) =>
      assert Act(st, step).cache - {Flatten(p)} == st.cache - {Flatten(p)} && Act(st, step).open - {p} == st.open - {p};
    case DoMknod(_, now) => NasChange(st, p, File([], now));
    case DoUnlink(_, now) =>
      PurgeEffect(st, p);
      assert st.nas - {p} - {p} == st.nas - {p};
    case OutsideWrite(_, data, now) => NasChange(st, p, File(data, now));
    case OutsideRemove(_, now) => assert st.nas - {p} - {p} == st.nas - {p};
  }

  /** A copy outlasts every step that does not end it: each tracked block stays tracked, the bytes of
      each stay but for those a write or a truncate is there to change, and nothing tracked is fetched. */
  lemma StepLasts(st: State, step: Step, name: string)
    requires Enabled(st, step) && name in st.meta.files && !Ends(st, step, name)
    ensures Lasts(st, Apply(st, step), name) && BytesLast(st, step, Apply(st, step), name)
  {
    hide Flatten, Read, Write, Open, Reserved, M.SumLocal, AlignLower, M.SetOf, Regrouped;
    if !step.Remount? {
      StepElsewhere(st, step);
      if Flatten(step.p) != name {
        Elsewhere(st, Apply(st, step), step.p);
      } else {
        match step
        case DoOpen(p, now) => OpenEffect(st, p, now);
        case DoRead(p, size, offset, junk, behind, now) => ReadLasts(st, step);
        case DoWrite(p, data, offset, junk, nasTime, now) => WriteLasts(st, step);
        case DoFtruncate(p, size, cacheTime, now) => FtruncateEffect(st, p, size, cacheTime, now);
        case _ =>
      }
    }
  }

  lemma ReadLasts(st: State, step: Step)
    requires Enabled(st, step) && step.DoRead?
    ensures Lasts(st, Apply(st, step), Flatten(step.p)) && BytesLast(st, step, Apply(st, step), Flatten(step.p))
  {
    hide Flatten, Read, AlignLower, Reserved, M.SetOf;
    var DoRead(p, size, offset, junk, behind, now) := step;
    var missing, k := ReadBooks(st, p, size, offset, junk, behind, now);
    ReadKeepsCopy(st, p, size, offset, junk, behind, now);
    FetchedMissing(missing, k, Blocks(st, p));
  }

  lemma FetchedMissing(missing: seq<nat>, k: nat, blocks: set<nat>)
    requires k <= |missing|
    ensures M.SetOf(missing) * blocks == {} ==> forall o :: o in missing[..k] ==> o !in blocks
  {
    forall o | o in missing[..k]
      ensures o in M.SetOf(missing)
    {
    }
    assert forall o :: o in missing[..k] && o in blocks ==> o in M.SetOf(missing) * blocks;
  }

  lemma WriteLasts(st: State, step: Step)
    requires Enabled(st, step) && step.DoWrite?
    ensures Lasts(st, Apply(st, step), Flatten(step.p)) && BytesLast(st, step, Apply(st, step), Flatten(step.p))
  {
    hide Flatten, Write, AlignLower, Reserved, M.SetOf;
    var DoWrite(p, data, offset, junk, nasTime, now) := step;
    WriteEffect(st, p, data, offset, junk, nasTime, now);
    var chunk := WriteStores(st, p, data, offset, junk, nasTime, now);
    WriteKeepsRow(st, p, data, offset, junk, nasTime, now);
    WriteRows(st, p, data, offset, junk, nasTime, now);
  }

  lemma WriteKeepsRow(st: State, p: Path, data: seq<byte>, offset: nat, junk: seq<byte>, nasTime: nat, now: nat)
    requires Valid(st) && p in st.open && |junk| == AlignedSize(|data|, st.meta.blockSize)
    ensures var r := Write(st, p, data, offset, junk, nasTime, now);
            Flatten(p) in r.st.meta.files
            && r.st.meta.files[Flatten(p)].remoteSize == st.meta.files[Flatten(p)].remoteSize
  {
    hide M.SetOf, Offsets, Overlay, Pread;
  }

  /** And it does not outlast one that ends it. */
  lemma EndsIt(st: State, step: Step, name: string)
    requires Enabled(st, step) && name in st.meta.files && Ends(st, step, name)
    ensures var st' := Apply(st, step);
            if step.DoOpen? && step.p in st.nas then Renewed(st, st', name, |st.nas[step.p].data|, step.now)
            else Dropped(st, st', name)
  {
    hide Flatten, Open, Reserved;
    if step.DoOpen? {
      OpenEffect(st, step.p, step.now);
    }
  }

  /* ---- whole runs ---- */

  ghost predicate NoneEnds(trace: seq<State>, steps: seq<Step>, name: string, i: nat, j: nat)
    requires i <= j <= |steps| && |trace| == |steps| + 1
  {
    forall k :: i <= k < j && name in trace[k].cache ==> !Ends(trace[k], steps[k], name)
  }

  lemma LastsOn(a: State, b: State, c: State, name: string)
    requires Lasts(a, b, name) && Lasts(b, c, name)
    ensures Lasts(a, c, name)
  {
    var x, y, z := a.fetched[name], b.fetched[name], c.fetched[name];
    assert z[|x|..] == y[|x|..] + z[|y|..];
  }

  /** A cached copy lasts over any opens, releases, reads, writes, truncates, mounts and whatever other
      clients do, until the file is unlinked or an open finds it missing or newer on the NAS: no block of
      it is forgotten, none is fetched again, and what it adds to the counter does not shrink. */
  lemma {:induction false} CopyLasts(trace: seq<State>, steps: seq<Step>, paths: iset<Path>, name: string,
                                     i: nat, j: nat)
    requires IsTrace(trace, steps, paths) && i <= j < |trace| && name in trace[i].meta.files
    requires NoneEnds(trace, steps, name, i, j)
    ensures Lasts(trace[i], trace[j], name)
    ensures PricesKept(trace, steps, j) ==>
              trace[i].meta.files[name].localSize <= trace[j].meta.files[name].localSize
    decreases j
  {
    hide Enabled, Act, Ends, Lasts, PricesKept, M.Conserved, Initial;
    if i == j {
      LastsItself(trace, steps, paths, name, i);
    } else {
      CopyLasts(trace, steps, paths, name, i, j - 1);
      LastsThere(trace[i], trace[j - 1], name);
      var st, st' := trace[j - 1], trace[j];
      assert StepAt(trace, steps, j - 1);
      StepLasts(st, steps[j - 1], name);
      LastsOn(trace[i], st, st', name);
      ShareLasts(trace, steps, paths, name, j - 1);
    }
  }

  /** So between two such events no block of a file is fetched twice. */
  lemma NeverRefetched(trace: seq<State>, steps: seq<Step>, paths: iset<Path>, name: string, i: nat, j: nat)
    requires IsRun(trace, steps, paths) && i <= j < |trace| && name in trace[i].meta.files
    requires NoneEnds(trace, steps, name, i, j)
    ensures Lasts(trace[i], trace[j], name) && M.AllDistinct(trace[j].fetched[name])
  {
    CopyLasts(trace, steps, paths, name, i, j);
    FetchAtMostOnce(trace, steps, paths, j, name);
  }

  lemma LastsItself(trace: seq<State>, steps: seq<Step>, paths: iset<Path>, name: string, i: nat)
    requires IsTrace(trace, steps, paths) && i < |trace| && name in trace[i].meta.files
    ensures Lasts(trace[i], trace[i], name)
  {
    ValidAlways(trace, steps, paths, i);
  }

  lemma LastsThere(st: State, st': State, name: string)
    requires Lasts(st, st', name)
    ensures name in st'.meta.files && name in st'.cache
  {
  }

  lemma {:induction false} ValidAlways(trace: seq<State>, steps: seq<Step>, paths: iset<Path>, i: nat)
    requires IsTrace(trace, steps, paths) && i < |trace|
    ensures trace[i].cache.Keys == trace[i].meta.files.Keys == trace[i].fetched.Keys
    decreases i
  {
    hide Enabled, Act;
    if i > 0 {
      ValidAlways(trace, steps, paths, i - 1);
      assert StepAt(trace, steps, i - 1);
      StepRows(trace[i - 1], steps[i - 1]);
    }
  }

  /** Rows, cached files and fetches stay together. */
  lemma StepRows(st: State, step: Step)
    requires Enabled(st, step)
    ensures var st' := Apply(st, step); st'.cache.Keys == st'.meta.files.Keys == st'.fetched.Keys
  {
    hide Flatten, Read, Write, Reserved, Fill, M.SumLocal, M.SetOf;
    match step
    case DoRead(p, size, offset, junk, behind, now) =>
      var missing, k := ReadBooks(st, p, size, offset, junk, behind, now);
      ReadKeepsCopy(st, p, size, offset, junk, behind, now);
      SameRows(st, Act(st, step), p);
    case DoWrite(p, data, offset, junk, nasTime, now) =>
      WriteEffect(st, p, data, offset, junk, nasTime, now);
      WriteRows(st, p, data, offset, junk, nasTime, now);
    case _ =>
  }

  lemma SameRows(st: State, st': State, p: Path)
    requires Valid(st) && SameElsewhere(st, st', p)
    requires Flatten(p) in st'.cache && Flatten(p) in st'.meta.files && Flatten(p) in st'.fetched
    ensures st'.cache.Keys == st'.meta.files.Keys == st'.fetched.Keys
  {
    hide Flatten;
    Elsewhere(st, st', p);
    forall n
      ensures (n in st'.cache <==> n in st'.meta.files) && (n in st'.cache <==> n in st'.fetched)
    {
      assert n in st.cache <==> n in st.meta.files;
      assert n in st.cache <==> n in st.fetched;
    }
  }

  lemma WriteRows(st: State, p: Path, data: seq<byte>, offset: nat, junk: seq<byte>, nasTime: nat, now: nat)
    requires Valid(st) && p in st.open && |junk| == AlignedSize(|data|, st.meta.blockSize)
    ensures var r := Write(st, p, data, offset, junk, nasTime, now);
            r.st.cache.Keys == r.st.meta.files.Keys == st.fetched.Keys
  {
    hide M.SetOf, Offsets, Overlay, Pread;
  }

  lemma ShareLasts(trace: seq<State>, steps: seq<Step>, paths: iset<Path>, name: string, i: nat)
    requires IsTrace(trace, steps, paths) && i < |steps|
    requires Lasts(trace[i], trace[i + 1], name)
    ensures PricesKept(trace, steps, i + 1) ==>
              && PricesKept(trace, steps, i)
              && trace[i].meta.files[name].localSize <= trace[i + 1].meta.files[name].localSize
  {
    hide Act, Enabled, M.SumLocal;
    if PricesKept(trace, steps, i + 1) {
      var st, st' := trace[i], trace[i + 1];
      BooksAlways(trace, steps, paths, i);
      BooksAlways(trace, steps, paths, i + 1);
      assert StepAt(trace, steps, i);
      RowsAfter(st, steps[i], name);
      SubsetCount(st.meta.files[name].blocks, st'.meta.files[name].blocks);
      MulMonotone(st.meta.blockSize, |st.meta.files[name].blocks|, |st'.meta.files[name].blocks|);
    }
  }

  lemma SubsetCount(a: set<nat>, b: set<nat>)
    requires a <= b
    ensures |a| <= |b|
  {
    assert a + (b - a) == b;
  }

  lemma RowsAfter(st: State, step: Step, name: string)
    requires Enabled(st, step) && name in st.meta.files
    ensures step.Remount? ==> Apply(st, step).meta.files == st.meta.files
    ensures !step.Remount? ==> Apply(st, step).meta.blockSize == st.meta.blockSize
  {
    hide Act, Enabled, M.SumLocal, Flatten;
    if !step.Remount? {
      StepElsewhere(st, step);
    } else {
      MountRows(st, step);
    }
  }

  lemma MountRows(st: State, step: Step)
    requires Enabled(st, step) && step.Remount?
    ensures Apply(st, step).meta.files == st.meta.files
  {
    hide M.SumLocal, Regrouped;
  }

  /* ---- handles and sizes ---- */

  /** The paths opened, where there was a file to open, and not released since. */
  function Handles(nas: map<Path, seq<byte>>, steps: seq<Step>): set<Path> {
    if steps == [] then {}
    else
      var earlier := steps[..|steps| - 1];
      match steps[|steps| - 1]
      case DoOpen(p, _) => if p in PlainAfter(nas, earlier) then Handles(nas, earlier) + {p} else Handles(nas, earlier)
      case DoRelease(p, _, _) => Handles(nas, earlier) - {p}
      case _ => Handles(nas, earlier)
  }

  lemma StepHandles(st: State, step: Step)
    requires Enabled(st, step)
    ensures Apply(st, step).open ==
            match step
            case DoOpen(p, _) => if p in st.nas then st.open + {p} else st.open
            case DoRelease(p, _, _) => st.open - {p}
            case _ => st.open
  {
    hide Flatten, Read, Write, Open, Reserved, M.SumLocal, M.SetOf;
    match step
    case DoOpen(p, now) => OpenEffect(st, p, now);
    case DoRead(p, size, offset, junk, behind, now) =>
      var missing, k := ReadBooks(st, p, size, offset, junk, behind, now);
    case DoWrite(p, data, offset, junk, nasTime, now) => WriteEffect(st, p, data, offset, junk, nasTime, now);
    case _ =>
  }

  /** The handles after a run are those opened and not released; block size and capacity are those of the
      last mount. */
  lemma {:induction false} HandlesInRun(trace: seq<State>, steps: seq<Step>, paths: iset<Path>, i: nat)
    requires IsRun(trace, steps, paths) && i < |trace|
    ensures trace[i].open == Handles(Contents(trace[0]), steps[..i])
    ensures (trace[i].meta.blockSize, trace[i].capacity)
         == SizesAfter(trace[0].meta.blockSize, trace[0].capacity, steps[..i])
    decreases i
  {
    hide Enabled, Act, PlainAfter;
    if i > 0 {
      HandlesInRun(trace, steps, paths, i - 1);
      RunRefines(trace, steps, paths, i - 1);
      assert StepAt(trace, steps, i - 1);
      StepHandles(trace[i - 1], steps[i - 1]);
      StepSizes(trace[i - 1], steps[i - 1]);
      assert steps[..i][..i - 1] == steps[..i - 1];
    }
  }

  /** Block size and capacity of the last mount. */
  function SizesAfter(blockSize: nat, capacity: nat, steps: seq<Step>): (nat, nat) {
    if steps == [] then (blockSize, capacity)
    else
      var last := steps[|steps| - 1];
      if last.Remount? then (last.blockSize, last.capacity) else SizesAfter(blockSize, capacity, steps[..|steps| - 1])
  }

  lemma StepSizes(st: State, step: Step)
    requires Enabled(st, step)
    ensures var st' := Apply(st, step);
            if step.Remount? then st'.meta.blockSize == step.blockSize && st'.capacity == step.capacity
            else st'.meta.blockSize == st.meta.blockSize && st'.capacity == st.capacity
  {
    hide Flatten, Read, Write, Open, Reserved, M.SumLocal, Regrouped;
    if !step.Remount? {
      StepElsewhere(st, step);
    }
  }

  /* ---- modification times ---- */

  /** The file is as it was, or was modified meanwhile. */
  predicate Dated(before: map<string, File>, after: map<string, File>, n: string, from: nat, to: nat) {
    n in after ==> (n in before && after[n] == before[n]) || from <= after[n].mtime <= to
  }

  lemma WriteDates(st: State, step: Step)
    requires Enabled(st, step) && step.DoWrite?
    ensures var st', name := Apply(st, step), Flatten(step.p);
            && step.p in st'.nas && name in st.cache && name in st'.cache
            && (st'.nas[step.p] == st.nas[step.p] || st.clock <= st'.nas[step.p].mtime <= step.now)
            && (st'.cache[name] == st.cache[name] || st.clock <= st'.cache[name].mtime <= step.now)
  {
    hide Flatten, Write, Reserved, M.SetOf, Pwrite;
    var DoWrite(p, data, offset, junk, nasTime, now) := step;
    WriteEffect(st, p, data, offset, junk, nasTime, now);
    WriteRows(st, p, data, offset, junk, nasTime, now);
    var chunk := WriteStores(st, p, data, offset, junk, nasTime, now);
  }

  lemma TouchedDates(st: State, step: Step)
    requires Enabled(st, step) && !step.Remount?
    ensures var st' := Apply(st, step);
            && Dated(st.nas, st'.nas, step.p, st.clock, step.now)
            && Dated(st.cache, st'.cache, Flatten(step.p), st.clock, step.now)
  {
    hide Flatten, Read, Write, Open, Reserved, M.SumLocal, M.SetOf;
    match step
    case DoOpen(p, now) => OpenEffect(st, p, now);
    case DoRead(p, size, offset, junk, behind, now) => ReadKeepsCopy(st, p, size, offset, junk, behind, now);
    case DoWrite(p, data, offset, junk, nasTime, now) => WriteDates(st, step);
    case DoFtruncate(p, size, cacheTime, now) => FtruncateEffect(st, p, size, cacheTime, now);
    case _ =>
  }

  /** Every file a step changes, on the NAS or in the cache, bears a time within the step. */
  lemma StepDates(st: State, step: Step, n: string)
    requires Enabled(st, step)
    ensures var st' := Apply(st, step);
            && Dated(st.nas, st'.nas, n, st.clock, step.now) && Dated(st.cache, st'.cache, n, st.clock, step.now)
  {
    hide Enabled, Act, Flatten;
    if step.Remount? {
      MountFiles(st, step);
    } else {
      StepElsewhere(st, step);
      Elsewhere(st, Apply(st, step), step.p);
      TouchedDates(st, step);
    }
  }

  lemma MountFiles(st: State, step: Step)
    requires Enabled(st, step) && step.Remount?
    ensures Apply(st, step).nas == st.nas && Apply(st, step).cache == st.cache
  {
    hide M.SumLocal, Regrouped;
  }
}
