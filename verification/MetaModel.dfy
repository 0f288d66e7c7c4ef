/** What the metadata database of meta.c says, table identifiers forgotten: for every cached
    file its row and the set of block offsets recorded for it, beside the running counter
    `cache_used_size`.  Each function is one routine of meta.c, failing cases included. */
module MetaModel {

  datatype Row = Row(remoteSize: nat, localSize: int, blocks: set<nat>)

  datatype Meta = Meta(blockSize: nat, files: map<string, Row>, used: int)

  /* ---- the routines ---- */

  predicate Tracked(m: Meta, name: string, offset: nat) {
    name in m.files && offset in m.files[name].blocks
  }

  /** UNIQUE on relative_path refuses a second row. */
  function CreateFile(m: Meta, name: string, remoteSize: nat): Meta {
    if name in m.files then m else m.(files := m.files[name := Row(remoteSize, 0, {})])
  }

  /** UNIQUE(offset, file) refuses a second block, NOT NULL one without a file; a refused
      insertion returns before either counter moves. */
  function InsertBlock(m: Meta, name: string, offset: nat): Meta {
    if name !in m.files || offset in m.files[name].blocks then m
    else
      var r := m.files[name];
      m.(files := m.files[name := r.(localSize := r.localSize + m.blockSize, blocks := r.blocks + {offset})],
         used := m.used + m.blockSize)
  }

  function InsertBlocks(m: Meta, name: string, offsets: seq<nat>): Meta
    decreases |offsets|
  {
    if offsets == [] then m else InsertBlocks(InsertBlock(m, name, offsets[0]), name, offsets[1..])
  }

  /** The row goes and its blocks with it; a missing row reads as size 0. */
  function DeleteFile(m: Meta, name: string): Meta {
    if name !in m.files then m
    else m.(files := m.files - {name}, used := m.used - m.files[name].localSize)
  }

  /** Both counters go down whether or not there was such a block. */
  function DeleteBlock(m: Meta, name: string, offset: nat): Meta {
    if name !in m.files then m.(used := m.used - m.blockSize)
    else
      var r := m.files[name];
      m.(files := m.files[name := r.(localSize := r.localSize - m.blockSize, blocks := r.blocks - {offset})],
         used := m.used - m.blockSize)
  }

  function DeleteBlocks(m: Meta, name: string, offsets: seq<nat>): Meta
    decreases |offsets|
  {
    if offsets == [] then m else DeleteBlocks(DeleteBlock(m, name, offsets[0]), name, offsets[1..])
  }

  /** are_blocks_in_cache: the hit bitmap. */
  function Hits(m: Meta, name: string, offsets: seq<nat>): (hits: seq<bool>)
    ensures |hits| == |offsets|
  {
    seq(|offsets|, i requires 0 <= i < |offsets| => Tracked(m, name, offsets[i]))
  }

  /** The second pass of write_blks, which trusts a bitmap made before it began. */
  function Upsert(m: Meta, name: string, offsets: seq<nat>, hits: seq<bool>): (r: Meta)
    requires |hits| == |offsets|
    ensures r.blockSize == m.blockSize && r.files.Keys == m.files.Keys
    decreases |offsets|
  {
    if offsets == [] then m
    else Upsert(if hits[0] then m else InsertBlock(m, name, offsets[0]), name, offsets[1..], hits[1..])
  }

  function WriteBlks(m: Meta, name: string, offsets: seq<nat>): (r: Meta)
    ensures r.blockSize == m.blockSize && r.files.Keys == m.files.Keys
  {
    Upsert(m, name, offsets, Hits(m, name, offsets))
  }

  /** SUM over no rows is NULL, and then the counter keeps its value. */
  ghost function InitCacheUsedSize(m: Meta): Meta {
    if m.files == map[] then m else m.(used := SumLocal(m.files))
  }

  /* ---- sums over the Files table ---- */

  ghost function SumLocal(files: map<string, Row>): int {
    if files == map[] then 0
    else
      var name :| name in files;
      files[name].localSize + SumLocal(files - {name})
  }

  ghost function CountBlocks(files: map<string, Row>): nat {
    if files == map[] then 0
    else
      var name :| name in files;
      |files[name].blocks| + CountBlocks(files - {name})
  }

  lemma {:induction false} SumRemove(files: map<string, Row>, name: string)
    requires name in files
    ensures SumLocal(files) == files[name].localSize + SumLocal(files - {name})
    decreases |files|
  {
    var first :| first in files && SumLocal(files) == files[first].localSize + SumLocal(files - {first});
    if first != name {
      SumRemove(files - {first}, name);
      SumRemove(files - {name}, first);
      assert files - {first} - {name} == files - {name} - {first};
    }
  }

  lemma SumUpdate(files: map<string, Row>, name: string, r: Row)
    ensures SumLocal(files[name := r]) ==
            SumLocal(files) + r.localSize - if name in files then files[name].localSize else 0
  {
    SumRemove(files[name := r], name);
    assert files[name := r] - {name} == files - {name};
    if name in files {
      SumRemove(files, name);
    } else {
      assert files - {name} == files;
    }
  }

  /* ---- conservation ---- */

  ghost predicate Conserved(m: Meta) {
    EachPaid(m.files, m.blockSize) && m.used == SumLocal(m.files)
  }

  lemma {:induction false} CountRemove(files: map<string, Row>, name: string)
    requires name in files
    ensures CountBlocks(files) == |files[name].blocks| + CountBlocks(files - {name})
    decreases |files|
  {
    var first :| first in files && CountBlocks(files) == |files[first].blocks| + CountBlocks(files - {first});
    if first != name {
      CountRemove(files - {first}, name);
      CountRemove(files - {name}, first);
      assert files - {first} - {name} == files - {name} - {first};
    }
  }

  /** Every row's local_size pays for its blocks. */
  ghost predicate EachPaid(files: map<string, Row>, bs: nat) {
    forall name :: name in files ==> files[name].localSize == bs * |files[name].blocks|
  }

  function Price(bs: nat, n: nat): nat { bs * n }

  lemma NoRows()
    ensures SumLocal(map[]) == 0 && CountBlocks(map[]) == 0
  {
  }

  lemma PriceAdds(bs: nat, a: nat, b: nat)
    ensures Price(bs, a + b) == Price(bs, a) + Price(bs, b)
  {
  }

  lemma OnePaid(files: map<string, Row>, bs: nat, name: string)
    requires EachPaid(files, bs) && name in files
    ensures files[name].localSize == Price(bs, |files[name].blocks|) && EachPaid(files - {name}, bs)
  {
  }

  lemma SumIsBlocks(files: map<string, Row>, bs: nat)
    requires EachPaid(files, bs)
    ensures SumLocal(files) == bs * CountBlocks(files)
  {
    SumIsPrice(files, bs);
  }

  lemma {:induction false} SumIsPrice(files: map<string, Row>, bs: nat)
    requires EachPaid(files, bs)
    ensures SumLocal(files) == Price(bs, CountBlocks(files))
    decreases |files|
  {
    hide EachPaid, Price, SumLocal, CountBlocks;
    if files != map[] {
      var name :| name in files;
      var here, rest := |files[name].blocks|, CountBlocks(files - {name});
      OnePaid(files, bs, name);
      SumRemove(files, name);
      CountRemove(files, name);
      SumIsPrice(files - {name}, bs);
      PriceAdds(bs, here, rest);
    } else {
      PriceAdds(bs, 0, 0);
      NoRows();
    }
  }

  lemma Distribute(a: int, b: int, c: int)
    ensures a * (b + c) == a * b + a * c
  {
  }

  /** The redundant counters say one thing: so many whole blocks are held. */
  lemma ConservedUsed(m: Meta)
    requires Conserved(m)
    ensures m.used == m.blockSize * CountBlocks(m.files) >= 0
    ensures forall name :: name in m.files ==> 0 <= m.files[name].localSize <= m.used
  {
    hide SumLocal, CountBlocks, Price;
    SumIsBlocks(m.files, m.blockSize);
    forall name | name in m.files
      ensures 0 <= m.files[name].localSize <= m.used
    {
      SumRemove(m.files, name);
      SumIsBlocks(m.files - {name}, m.blockSize);
    }
  }

  lemma CreateFileConserves(m: Meta, name: string, remoteSize: nat)
    requires Conserved(m)
    ensures Conserved(CreateFile(m, name, remoteSize))
  {
    SumUpdate(m.files, name, Row(remoteSize, 0, {}));
  }

  lemma InsertBlockConserves(m: Meta, name: string, offset: nat)
    requires Conserved(m)
    ensures Conserved(InsertBlock(m, name, offset))
  {
    if name in m.files && offset !in m.files[name].blocks {
      var r := m.files[name];
      var grown := r.(localSize := r.localSize + m.blockSize, blocks := r.blocks + {offset});
      SumUpdate(m.files, name, grown);
      assert |grown.blocks| == |r.blocks| + 1;
      assert m.blockSize * (|r.blocks| + 1) == m.blockSize * |r.blocks| + m.blockSize;
    }
  }

  lemma DeleteFileConserves(m: Meta, name: string)
    requires Conserved(m)
    ensures Conserved(DeleteFile(m, name))
  {
    if name in m.files {
      SumRemove(m.files, name);
    }
  }

  /** delete_block keeps the books exactly when the block was there to delete. */
  lemma DeleteBlockConserves(m: Meta, name: string, offset: nat)
    requires Conserved(m) && m.blockSize > 0
    ensures Conserved(DeleteBlock(m, name, offset)) <==> Tracked(m, name, offset)
  {
    if name in m.files {
      var r := m.files[name];
      var shrunk := r.(localSize := r.localSize - m.blockSize, blocks := r.blocks - {offset});
      SumUpdate(m.files, name, shrunk);
      if offset in r.blocks {
        assert |shrunk.blocks| == |r.blocks| - 1;
        assert m.blockSize * (|r.blocks| - 1) == m.blockSize * |r.blocks| - m.blockSize;
      } else {
        assert shrunk.blocks == r.blocks;
        assert DeleteBlock(m, name, offset).files[name] == shrunk;
      }
    }
  }

  function SetOf(offsets: seq<nat>): set<nat> { set o | o in offsets }

  predicate AllDistinct(offsets: seq<nat>) {
    forall i, j :: 0 <= i < j < |offsets| ==> offsets[i] != offsets[j]
  }

  lemma NoneListed()
    ensures SetOf([]) == {} && AllDistinct([])
  {
  }

  lemma SetOfFirst(offsets: seq<nat>)
    requires offsets != []
    ensures SetOf(offsets) == {offsets[0]} + SetOf(offsets[1..])
  {
    assert offsets == [offsets[0]] + offsets[1..];
  }

  lemma SetOfMore(init: seq<nat>, last: nat)
    ensures SetOf(init + [last]) == SetOf(init) + {last}
    ensures last in SetOf(init) <==> last in init
  {
  }

  lemma CountMore(a: set<nat>, last: nat, s: set<nat>)
    ensures |(a + {last}) * s| == |a * s| + if last in s && last !in a then 1 else 0
    ensures a + {last} <= s <==> a <= s && last in s
  {
    if last in s && last !in a {
      assert (a + {last}) * s == a * s + {last};
    } else {
      assert (a + {last}) * s == a * s;
    }
  }

  lemma DistinctMore(init: seq<nat>, last: nat)
    ensures AllDistinct(init + [last]) <==> AllDistinct(init) && last !in init
  {
    var all := init + [last];
    assert forall i :: 0 <= i < |init| ==> all[i] == init[i];
    if last in init {
      var i :| 0 <= i < |init| && init[i] == last;
      assert all[i] == all[|init|];
    }
  }

  /** How many of the listed offsets a set holds, and when that is all of them. */
  lemma {:induction false} CountListed(offsets: seq<nat>, s: set<nat>)
    ensures |SetOf(offsets) * s| <= |offsets|
    ensures |SetOf(offsets) * s| == |offsets| <==> AllDistinct(offsets) && SetOf(offsets) <= s
  {
    hide SetOf, AllDistinct;
    NoneListed();
    if offsets != [] {
      var last, init := offsets[|offsets| - 1], offsets[..|offsets| - 1];
      CountListed(init, s);
      SetOfMore(init, last);
      assert offsets == init + [last];
      CountMore(SetOf(init), last, s);
      DistinctMore(init, last);
    }
  }

  /** `k` block sizes taken off both counters and the offsets `gone` out of the file's set. */
  function Debit(m: Meta, name: string, k: nat, gone: set<nat>): Meta {
    var total := m.used - m.blockSize * k;
    if name !in m.files then m.(used := total)
    else
      var r := m.files[name];
      m.(files := m.files[name := Row(r.remoteSize, r.localSize - m.blockSize * k, r.blocks - gone)], used := total)
  }

  lemma {:induction false} DeleteBlocksEffect(m: Meta, name: string, offsets: seq<nat>)
    ensures DeleteBlocks(m, name, offsets) == Debit(m, name, |offsets|, SetOf(offsets))
    decreases |offsets|
  {
    if offsets == [] {
      if name in m.files {
        assert m.files[name].blocks - SetOf(offsets) == m.files[name].blocks;
        assert m.files == m.files[name := m.files[name]];
      }
    } else {
      var m1 := DeleteBlock(m, name, offsets[0]);
      DeleteBlocksEffect(m1, name, offsets[1..]);
      Distribute(m.blockSize, 1, |offsets| - 1);
      assert offsets == [offsets[0]] + offsets[1..];
      assert SetOf(offsets) == {offsets[0]} + SetOf(offsets[1..]);
      if name in m.files {
        var b := m.files[name].blocks;
        assert b - {offsets[0]} - SetOf(offsets[1..]) == b - SetOf(offsets);
        var d := Debit(m, name, |offsets|, SetOf(offsets));
        var d1 := Debit(m1, name, |offsets| - 1, SetOf(offsets[1..]));
        assert d1.files[name] == d.files[name];
        assert d1.files == d.files;
      }
    }
  }

  lemma PaidStill(bs: nat, blocks: nat, rest: nat, gone: nat, n: nat, before: int, after: int)
    requires bs > 0 && blocks == rest + gone && before == bs * blocks && after == before - bs * n
    ensures after == bs * rest <==> gone == n
  {
    Distribute(bs, rest, gone);
    assert after - bs * rest == bs * (gone - n);
  }

  /** delete_blocks keeps the books exactly when every offset is tracked and none repeats. */
  lemma DeleteBlocksConserves(m: Meta, name: string, offsets: seq<nat>)
    requires Conserved(m) && m.blockSize > 0
    ensures Conserved(DeleteBlocks(m, name, offsets)) <==>
            AllDistinct(offsets) && forall o :: o in offsets ==> Tracked(m, name, o)
  {
    var m' := DeleteBlocks(m, name, offsets);
    var n, bs := |offsets|, m.blockSize;
    DeleteBlocksEffect(m, name, offsets);
    if name in m.files {
      var r, r' := m.files[name], m'.files[name];
      CountListed(offsets, r.blocks);
      assert r.blocks == r'.blocks + SetOf(offsets) * r.blocks;
      var gone := |SetOf(offsets) * r.blocks|;
      assert |r.blocks| == |r'.blocks| + gone;
      PaidStill(bs, |r.blocks|, |r'.blocks|, gone, n, r.localSize, r'.localSize);
      SumUpdate(m.files, name, r');
      assert (forall o :: o in offsets ==> Tracked(m, name, o)) <==> SetOf(offsets) <= r.blocks;
    } else {
      assert m'.used == m.used <==> n == 0;
      assert n != 0 ==> offsets[0] in offsets;
    }
  }

  /* ---- write_blks is an exact upsert ---- */

  /** The file's set replaced and both counters moved by the difference in size. */
  function WithBlocks(m: Meta, name: string, blocks: set<nat>): Meta
    requires name in m.files
  {
    var r := m.files[name];
    var delta := m.blockSize * (|blocks| - |r.blocks|);
    m.(files := m.files[name := Row(r.remoteSize, r.localSize + delta, blocks)], used := m.used + delta)
  }

  lemma WithBlocksTwice(m: Meta, name: string, a: set<nat>, b: set<nat>)
    requires name in m.files
    ensures WithBlocks(WithBlocks(m, name, a), name, b) == WithBlocks(m, name, b)
  {
    Distribute(m.blockSize, |a| - |m.files[name].blocks|, |b| - |a|);
  }

  lemma InsertIsWithBlocks(m: Meta, name: string, offset: nat)
    requires name in m.files
    ensures InsertBlock(m, name, offset) == WithBlocks(m, name, m.files[name].blocks + {offset})
  {
    var r := m.files[name];
    if offset in r.blocks {
      assert r.blocks + {offset} == r.blocks;
      assert m.files == m.files[name := r];
    } else {
      assert |r.blocks + {offset}| == |r.blocks| + 1;
    }
  }

  lemma SameBlocks(m: Meta, name: string)
    requires name in m.files
    ensures WithBlocks(m, name, m.files[name].blocks) == m
  {
    assert m.files == m.files[name := m.files[name]];
  }

  /** Sound whenever the bitmap is right about the blocks it calls hits. */
  lemma {:induction false} UpsertEffect(m: Meta, name: string, offsets: seq<nat>, hits: seq<bool>)
    requires |hits| == |offsets| && name in m.files
    requires forall i :: 0 <= i < |offsets| && hits[i] ==> offsets[i] in m.files[name].blocks
    ensures Upsert(m, name, offsets, hits) == WithBlocks(m, name, m.files[name].blocks + SetOf(offsets))
    decreases |offsets|
  {
    hide SetOf, WithBlocks;
    var b := m.files[name].blocks;
    if offsets == [] {
      NoneListed();
      SameBlocks(m, name);
      assert b + SetOf(offsets) == b;
    } else {
      InsertIsWithBlocks(m, name, offsets[0]);
      var m1 := if hits[0] then m else InsertBlock(m, name, offsets[0]);
      var b1 := m1.files[name].blocks;
      assert b1 == b + {offsets[0]};
      UpsertEffect(m1, name, offsets[1..], hits[1..]);
      SetOfFirst(offsets);
      assert b1 + SetOf(offsets[1..]) == b + SetOf(offsets);
      if !hits[0] {
        WithBlocksTwice(m, name, b1, b + SetOf(offsets));
      }
    }
  }

  /** The blocks of a file recorded, those that are new counted once each; nothing without a file. */
  function Track(m: Meta, name: string, added: set<nat>): (r: Meta)
    ensures r.blockSize == m.blockSize && r.files.Keys == m.files.Keys
  {
    if name in m.files then WithBlocks(m, name, m.files[name].blocks + added) else m
  }

  /** Whatever the list repeats, and though the bitmap goes stale: the tracked set becomes the
      union, both counters grow by the new blocks alone, and no other file is touched. */
  lemma WriteBlksUpserts(m: Meta, name: string, offsets: seq<nat>)
    ensures WriteBlks(m, name, offsets) == Track(m, name, SetOf(offsets))
    ensures name in m.files ==>
              var m', r := WriteBlks(m, name, offsets), m.files[name];
              var growth := m.blockSize * |SetOf(offsets) - r.blocks|;
              && m' == m.(files := m.files[name := r.(localSize := r.localSize + growth,
                                                      blocks := r.blocks + SetOf(offsets))],
                          used := m.used + growth)
  {
    if name in m.files {
      var b := m.files[name].blocks;
      UpsertEffect(m, name, offsets, Hits(m, name, offsets));
      assert b + SetOf(offsets) == b + (SetOf(offsets) - b);
    } else {
      UpsertMissing(m, name, offsets, Hits(m, name, offsets));
    }
  }

  lemma TrackConserves(m: Meta, name: string, added: set<nat>)
    requires Conserved(m)
    ensures Conserved(Track(m, name, added))
  {
    if name in m.files {
      var r := m.files[name];
      var blocks := r.blocks + added;
      var delta := |blocks| - |r.blocks|;
      SumUpdate(m.files, name, Row(r.remoteSize, r.localSize + m.blockSize * delta, blocks));
      Distribute(m.blockSize, |r.blocks|, delta);
    }
  }

  lemma TrackGrowth(m: Meta, name: string, added: set<nat>)
    requires name in m.files
    ensures Track(m, name, added).used == m.used + m.blockSize * |added - m.files[name].blocks|
  {
    var b := m.files[name].blocks;
    assert b + added == b + (added - b);
  }

  lemma {:induction false} UpsertMissing(m: Meta, name: string, offsets: seq<nat>, hits: seq<bool>)
    requires |hits| == |offsets| && name !in m.files
    ensures Upsert(m, name, offsets, hits) == m
    decreases |offsets|
  {
    if offsets != [] {
      UpsertMissing(m, name, offsets[1..], hits[1..]);
    }
  }

  lemma {:induction false} UpsertConserves(m: Meta, name: string, offsets: seq<nat>, hits: seq<bool>)
    requires |hits| == |offsets| && Conserved(m)
    ensures Conserved(Upsert(m, name, offsets, hits))
    decreases |offsets|
  {
    if offsets != [] {
      InsertBlockConserves(m, name, offsets[0]);
      UpsertConserves(if hits[0] then m else InsertBlock(m, name, offsets[0]), name, offsets[1..], hits[1..]);
    }
  }

  lemma {:induction false} InsertBlocksConserves(m: Meta, name: string, offsets: seq<nat>)
    requires Conserved(m)
    ensures Conserved(InsertBlocks(m, name, offsets))
    decreases |offsets|
  {
    if offsets != [] {
      InsertBlockConserves(m, name, offsets[0]);
      InsertBlocksConserves(InsertBlock(m, name, offsets[0]), name, offsets[1..]);
    }
  }

  /* ---- whole runs ---- */

  datatype MetaOp =
    | OpCreateFile(name: string, remoteSize: nat)
    | OpInsertBlock(name: string, offset: nat)
    | OpInsertBlocks(name: string, offsets: seq<nat>)
    | OpWriteBlks(name: string, offsets: seq<nat>)
    | OpDeleteFile(name: string)
    | OpDeleteBlock(name: string, offset: nat)
    | OpDeleteBlocks(name: string, offsets: seq<nat>)

  function Perform(m: Meta, op: MetaOp): Meta {
    match op
    case OpCreateFile(name, remoteSize) => CreateFile(m, name, remoteSize)
    case OpInsertBlock(name, offset) => InsertBlock(m, name, offset)
    case OpInsertBlocks(name, offsets) => InsertBlocks(m, name, offsets)
    case OpWriteBlks(name, offsets) => WriteBlks(m, name, offsets)
    case OpDeleteFile(name) => DeleteFile(m, name)
    case OpDeleteBlock(name, offset) => DeleteBlock(m, name, offset)
    case OpDeleteBlocks(name, offsets) => DeleteBlocks(m, name, offsets)
  }

  /** Deletions name blocks that are there, each once. */
  predicate Lawful(m: Meta, op: MetaOp) {
    match op
    case OpDeleteBlock(name, offset) => Tracked(m, name, offset)
    case OpDeleteBlocks(name, offsets) => AllDistinct(offsets) && forall o :: o in offsets ==> Tracked(m, name, o)
    case _ => true
  }

  function PerformAll(m: Meta, ops: seq<MetaOp>): Meta {
    if ops == [] then m else Perform(PerformAll(m, ops[..|ops| - 1]), ops[|ops| - 1])
  }

  predicate AllLawful(m: Meta, ops: seq<MetaOp>) {
    ops == [] || (AllLawful(m, ops[..|ops| - 1]) && Lawful(PerformAll(m, ops[..|ops| - 1]), ops[|ops| - 1]))
  }

  /** One step keeps the books exactly when it deletes nothing that is not there. */
  lemma PerformConserves(m: Meta, op: MetaOp)
    requires Conserved(m) && m.blockSize > 0
    ensures Conserved(Perform(m, op)) <==> Lawful(m, op)
    ensures Perform(m, op).blockSize == m.blockSize
  {
    match op
    case OpCreateFile(name, remoteSize) => CreateFileConserves(m, name, remoteSize);
    case OpInsertBlock(name, offset) => InsertBlockConserves(m, name, offset);
    case OpInsertBlocks(name, offsets) =>
      InsertBlocksConserves(m, name, offsets);
      InsertBlocksBlockSize(m, name, offsets);
    case OpWriteBlks(name, offsets) =>
      UpsertConserves(m, name, offsets, Hits(m, name, offsets));
      WriteBlksUpserts(m, name, offsets);
    case OpDeleteFile(name) => DeleteFileConserves(m, name);
    case OpDeleteBlock(name, offset) => DeleteBlockConserves(m, name, offset);
    case OpDeleteBlocks(name, offsets) =>
      DeleteBlocksConserves(m, name, offsets);
      DeleteBlocksEffect(m, name, offsets);
  }

  lemma {:induction false} InsertBlocksBlockSize(m: Meta, name: string, offsets: seq<nat>)
    ensures InsertBlocks(m, name, offsets).blockSize == m.blockSize
    decreases |offsets|
  {
    if offsets != [] {
      InsertBlocksBlockSize(InsertBlock(m, name, offsets[0]), name, offsets[1..]);
    }
  }

  /** Conservation over every run from the empty database, and what a restart then finds:
      the recomputed counter is the one that was lost. */
  lemma {:induction false} RunConserves(blockSize: nat, ops: seq<MetaOp>)
    requires blockSize > 0
    requires AllLawful(Meta(blockSize, map[], 0), ops)
    ensures var m := PerformAll(Meta(blockSize, map[], 0), ops);
            && m.blockSize == blockSize
            && Conserved(m)
            && m.used == blockSize * CountBlocks(m.files)
            && InitCacheUsedSize(Meta(blockSize, m.files, 0)) == m
  {
    if ops != [] {
      RunConserves(blockSize, ops[..|ops| - 1]);
      PerformConserves(PerformAll(Meta(blockSize, map[], 0), ops[..|ops| - 1]), ops[|ops| - 1]);
    }
    ConservedUsed(PerformAll(Meta(blockSize, map[], 0), ops));
  }

  /** A restart with another block size leaves the books right exactly when nothing is cached. */
  lemma RestartConserves(m: Meta, blockSize: nat)
    requires Conserved(m)
    ensures Conserved(InitCacheUsedSize(Meta(blockSize, m.files, 0))) <==>
            blockSize == m.blockSize || forall name :: name in m.files ==> m.files[name].blocks == {}
  {
    forall name | name in m.files
      ensures m.files[name].localSize == blockSize * |m.files[name].blocks| <==>
              blockSize == m.blockSize || m.files[name].blocks == {}
    {
      var n := |m.files[name].blocks|;
      var gap: int := blockSize - m.blockSize;
      Distribute(n, m.blockSize, gap);
      assert n * gap == 0 <==> n == 0 || blockSize == m.blockSize;
    }
  }
}
