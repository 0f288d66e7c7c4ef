/** meta.c over its two SQL tables, each keyed by its UNIQUE columns.  A statement the tables'
    constraints refuse comes back as -1; every routine is proved to act on the database as
    MetaModel says. */
module Metadata {
  import M = MetaModel

  datatype FileRow = FileRow(fileId: nat, remoteSize: nat, localSize: int)

  datatype BlockRow = BlockRow(offset: nat, fileId: nat)

  ghost function BlocksOf(blocks: set<BlockRow>, id: nat): (s: set<nat>)
    ensures forall o :: o in s <==> BlockRow(o, id) in blocks
  {
    var s := set b | b in blocks && b.fileId == id :: b.offset;
    assert forall o :: BlockRow(o, id) in blocks ==> BlockRow(o, id).offset in s;
    s
  }

  lemma BlocksLess(blocks: set<BlockRow>, id: nat, offset: nat)
    ensures BlocksOf(blocks - {BlockRow(offset, id)}, id) == BlocksOf(blocks, id) - {offset}
  {
  }

  ghost function RowOf(row: FileRow, blocks: set<BlockRow>): M.Row {
    M.Row(row.remoteSize, row.localSize, BlocksOf(blocks, row.fileId))
  }

  /** The Files rows with their blocks. */
  ghost function Rows(files: map<string, FileRow>, blocks: set<BlockRow>): map<string, M.Row> {
    map name | name in files :: RowOf(files[name], blocks)
  }

  /** The primary key of Files, and the foreign key of Datablocks into it. */
  ghost predicate Constraints(files: map<string, FileRow>, blocks: set<BlockRow>) {
    && (forall p, q :: p in files && q in files && files[p].fileId == files[q].fileId ==> p == q)
    && (forall b :: b in blocks ==> Owned(files, b))
  }

  ghost predicate Owned(files: map<string, FileRow>, b: BlockRow) {
    exists p :: p in files && files[p].fileId == b.fileId
  }

  lemma ConstraintsUpdate(files: map<string, FileRow>, blocks: set<BlockRow>, name: string, row: FileRow,
                          blocks': set<BlockRow>)
    requires Constraints(files, blocks)
    requires forall p :: p in files ==> (files[p].fileId == row.fileId <==> p == name)
    requires forall b :: b in blocks' ==> b in blocks || b.fileId == row.fileId
    ensures Constraints(files[name := row], blocks')
  {
    var files' := files[name := row];
    forall b | b in blocks'
      ensures Owned(files', b)
    {
      if b in blocks {
        var p :| p in files && files[p].fileId == b.fileId;
        assert p in files' && files'[p].fileId == b.fileId;
      } else {
        assert name in files' && files'[name].fileId == b.fileId;
      }
    }
  }

  /** delete_block on the tables. */
  lemma DeletedBlock(files: map<string, FileRow>, blocks: set<BlockRow>, bs: nat, used: int, name: string, offset: nat)
    requires Constraints(files, blocks)
    ensures var m' := M.DeleteBlock(M.Meta(bs, Rows(files, blocks), used), name, offset);
            if name in files then
              var row := files[name];
              var files', blocks' := files[name := row.(localSize := row.localSize - bs)],
                  blocks - {BlockRow(offset, row.fileId)};
              Constraints(files', blocks') && m' == M.Meta(bs, Rows(files', blocks'), used - bs)
            else m' == M.Meta(bs, Rows(files, blocks), used - bs)
  {
    hide BlocksOf;
    if name in files {
      var row := files[name];
      var row', blocks' := row.(localSize := row.localSize - bs), blocks - {BlockRow(offset, row.fileId)};
      BlocksLess(blocks, row.fileId, offset);
      ConstraintsUpdate(files, blocks, name, row', blocks');
      RowsUpdate(files, blocks, name, row', blocks');
    }
  }

  /** Blocks of one file changed, and that file's row: no other entry moves. */
  lemma RowsUpdate(files: map<string, FileRow>, blocks: set<BlockRow>, name: string, row: FileRow,
                   blocks': set<BlockRow>)
    requires forall p :: p in files && p != name ==> files[p].fileId != row.fileId
    requires forall b: BlockRow :: b.fileId != row.fileId ==> (b in blocks' <==> b in blocks)
    ensures Rows(files[name := row], blocks') == Rows(files, blocks)[name := RowOf(row, blocks')]
  {
    forall p | p in files && p != name
      ensures BlocksOf(blocks', files[p].fileId) == BlocksOf(blocks, files[p].fileId)
    {
    }
  }

  lemma RowsRemove(files: map<string, FileRow>, blocks: set<BlockRow>, name: string, blocks': set<BlockRow>)
    requires Constraints(files, blocks) && name in files
    requires blocks' == set b | b in blocks && b.fileId != files[name].fileId
    ensures Constraints(files - {name}, blocks')
    ensures Rows(files - {name}, blocks') == Rows(files, blocks) - {name}
  {
    forall p | p in files && p != name
      ensures BlocksOf(blocks', files[p].fileId) == BlocksOf(blocks, files[p].fileId)
    {
    }
    forall b | b in blocks'
      ensures Owned(files - {name}, b)
    {
      var p :| p in files && files[p].fileId == b.fileId;
      assert p in files - {name};
    }
  }

  lemma NewIdIsUnused(files: map<string, FileRow>, blocks: set<BlockRow>, id: nat)
    requires Constraints(files, blocks)
    requires id !in set p | p in files :: files[p].fileId
    ensures forall p :: p in files ==> files[p].fileId != id
    ensures BlocksOf(blocks, id) == {}
  {
    forall p | p in files
      ensures files[p].fileId != id
    {
      assert files[p].fileId in set q | q in files :: files[q].fileId;
    }
    forall b | b in blocks
      ensures b.fileId != id
    {
      assert Owned(files, b);
    }
  }

  class Database {
    const blockSize: nat
    var files: map<string, FileRow>
    var blocks: set<BlockRow>
    var cacheUsedSize: int

    /** What the tables and the counter say, identifiers forgotten. */
    ghost var contents: M.Meta

    ghost predicate Valid()
      reads this
    {
      Constraints(files, blocks) && contents == M.Meta(blockSize, Rows(files, blocks), cacheUsedSize)
    }

    constructor (blockSize: nat)
      ensures Valid() && this.blockSize == blockSize
      ensures contents == M.Meta(blockSize, map[], 0)
    {
      this.blockSize := blockSize;
      files, blocks, cacheUsedSize := map[], {}, 0;
      contents := M.Meta(blockSize, map[], 0);
    }

    /** Another process on the same tables: set_block_size, and the counter that starts at 0 is
        recomputed. */
    constructor Reopen(previous: Database, blockSize: nat)
      requires previous.Valid()
      ensures Valid() && this.blockSize == blockSize
      ensures contents == M.InitCacheUsedSize(M.Meta(blockSize, previous.contents.files, 0))
    {
      this.blockSize := blockSize;
      files, blocks, cacheUsedSize := previous.files, previous.blocks, 0;
      contents := M.Meta(blockSize, previous.contents.files, 0);
      new;
      InitCacheUsedSize();
    }

    method IsFileInCache(name: string) returns (found: bool)
      requires Valid()
      ensures found <==> name in contents.files
    {
      found := name in files;
    }

    method IsBlkInCache(name: string, offset: nat) returns (found: bool)
      requires Valid()
      ensures found <==> M.Tracked(contents, name, offset)
    {
      found := name in files && BlockRow(offset, files[name].fileId) in blocks;
    }

    method CreateFile(name: string, remoteSize: nat) returns (ret: int)
      requires Valid()
      modifies this
      ensures Valid() && contents == M.CreateFile(old(contents), name, remoteSize)
      ensures ret == if name in old(contents).files then -1 else 0
    {
      if name in files {
        return -1;
      }
      var id := FreshId(set p | p in files :: files[p].fileId);
      NewIdIsUnused(files, blocks, id);
      var row := FileRow(id, remoteSize, 0);
      ConstraintsUpdate(files, blocks, name, row, blocks);
      RowsUpdate(files, blocks, name, row, blocks);
      files := files[name := row];
      contents := M.CreateFile(contents, name, remoteSize);
      ret := 0;
    }

    method InsertBlock(name: string, offset: nat) returns (ret: int)
      requires Valid()
      modifies this
      ensures Valid() && contents == M.InsertBlock(old(contents), name, offset)
      ensures ret == if name !in old(contents).files || M.Tracked(old(contents), name, offset) then -1 else 0
    {
      if name !in files || BlockRow(offset, files[name].fileId) in blocks {
        return -1;
      }
      var row := files[name];
      var blocks' := blocks + {BlockRow(offset, row.fileId)};
      var row' := row.(localSize := row.localSize + blockSize);
      assert BlocksOf(blocks', row.fileId) == BlocksOf(blocks, row.fileId) + {offset};
      ConstraintsUpdate(files, blocks, name, row', blocks');
      RowsUpdate(files, blocks, name, row', blocks');
      files, blocks := files[name := row'], blocks';
      cacheUsedSize := cacheUsedSize + blockSize;
      contents := M.InsertBlock(contents, name, offset);
      ret := 0;
    }

    method InsertBlocks(name: string, blkArr: array<nat>)
      requires Valid()
      modifies this
      ensures Valid() && contents == M.InsertBlocks(old(contents), name, blkArr[..])
    {
      var i := 0;
      while i < blkArr.Length
        invariant 0 <= i <= blkArr.Length && Valid()
        invariant M.InsertBlocks(old(contents), name, blkArr[..]) == M.InsertBlocks(contents, name, blkArr[i..])
      {
        assert blkArr[i..][1..] == blkArr[i + 1..];
        var _ := InsertBlock(name, blkArr[i]);
        i := i + 1;
      }
    }

    /** ON DELETE CASCADE takes the blocks along. */
    method DeleteFile(name: string) returns (ret: int)
      requires Valid()
      modifies this
      ensures Valid() && contents == M.DeleteFile(old(contents), name)
      ensures ret == 0
    {
      if name in files {
        var id := files[name].fileId;
        var blocks' := set b | b in blocks && b.fileId != id;
        RowsRemove(files, blocks, name, blocks');
        cacheUsedSize := cacheUsedSize - files[name].localSize;
        files, blocks := files - {name}, blocks';
      }
      contents := M.DeleteFile(contents, name);
      ret := 0;
    }

    method DeleteBlock(name: string, offset: nat) returns (ret: int)
      requires Valid()
      modifies this
      ensures Valid() && contents == M.DeleteBlock(old(contents), name, offset)
      ensures ret == 0
    {
      hide BlocksOf, Constraints, Rows;
      DeletedBlock(files, blocks, blockSize, cacheUsedSize, name, offset);
      if name in files {
        var row := files[name];
        blocks := blocks - {BlockRow(offset, row.fileId)};
        files := files[name := row.(localSize := row.localSize - blockSize)];
      }
      cacheUsedSize := cacheUsedSize - blockSize;
      contents := M.DeleteBlock(contents, name, offset);
      ret := 0;
    }

    method DeleteBlocks(name: string, blkArr: array<nat>)
      requires Valid()
      modifies this
      ensures Valid() && contents == M.DeleteBlocks(old(contents), name, blkArr[..])
    {
      var i := 0;
      while i < blkArr.Length
        invariant 0 <= i <= blkArr.Length && Valid()
        invariant M.DeleteBlocks(old(contents), name, blkArr[..]) == M.DeleteBlocks(contents, name, blkArr[i..])
      {
        assert blkArr[i..][1..] == blkArr[i + 1..];
        var _ := DeleteBlock(name, blkArr[i]);
        i := i + 1;
      }
    }

    method AreBlocksInCache(name: string, blkArr: array<nat>, boolArr: array<bool>) returns (totalHit: bool)
      requires Valid() && blkArr.Length == boolArr.Length
      modifies boolArr
      ensures boolArr[..] == M.Hits(contents, name, blkArr[..])
      ensures totalHit <==> forall k :: 0 <= k < boolArr.Length ==> boolArr[k]
    {
      totalHit := true;
      ghost var m := contents;
      var i := 0;
      while i < blkArr.Length
        invariant 0 <= i <= blkArr.Length
        invariant forall k :: 0 <= k < i ==> boolArr[k] == M.Tracked(m, name, blkArr[k])
        invariant totalHit <==> forall k :: 0 <= k < i ==> boolArr[k]
      {
        boolArr[i] := IsBlkInCache(name, blkArr[i]);
        if !boolArr[i] {
          totalHit := false;
        }
        i := i + 1;
      }
    }

    method WriteBlks(name: string, blkArr: array<nat>)
      requires Valid()
      modifies this
      ensures Valid() && contents == M.Track(old(contents), name, M.SetOf(blkArr[..]))
    {
      M.WriteBlksUpserts(contents, name, blkArr[..]);
      var boolArr := new bool[blkArr.Length];
      var _ := AreBlocksInCache(name, blkArr, boolArr);
      var i := 0;
      while i < blkArr.Length
        invariant 0 <= i <= blkArr.Length && Valid()
        invariant M.WriteBlks(old(contents), name, blkArr[..])
               == M.Upsert(contents, name, blkArr[i..], boolArr[i..])
      {
        assert blkArr[i..][1..] == blkArr[i + 1..];
        assert boolArr[i..][1..] == boolArr[i + 1..];
        if !boolArr[i] {
          var _ := InsertBlock(name, blkArr[i]);
        }
        i := i + 1;
      }
    }

    /** The statement's SUM, and the callback that stores it unless it is NULL. */
    method InitCacheUsedSize()
      requires Valid()
      modifies this`cacheUsedSize, this`contents
      ensures Valid() && contents == M.InitCacheUsedSize(old(contents))
      ensures cacheUsedSize == if files == map[] then old(cacheUsedSize) else M.SumLocal(contents.files)
    {
      hide M.SumLocal;
      M.NoRows();
      var rest, sum := files, 0;
      while rest != map[]
        invariant cacheUsedSize == old(cacheUsedSize) && contents == old(contents)
        invariant sum + M.SumLocal(Rows(rest, blocks)) == M.SumLocal(Rows(files, blocks))
        decreases rest.Keys
      {
        var name :| name in rest;
        M.SumRemove(Rows(rest, blocks), name);
        assert Rows(rest - {name}, blocks) == Rows(rest, blocks) - {name};
        sum := sum + rest[name].localSize;
        rest := rest - {name};
      }
      assert Rows(rest, blocks) == map[];
      if files != map[] {
        var name :| name in files;
        assert name in Rows(files, blocks);
        cacheUsedSize := sum;
      } else {
        assert Rows(files, blocks) == map[];
      }
      contents := M.InitCacheUsedSize(contents);
    }
  }

  /** INTEGER PRIMARY KEY: one more than the largest in use. */
  method FreshId(ids: set<nat>) returns (id: nat)
    ensures id !in ids
  {
    id := 1;
    var rest := ids;
    while rest != {}
      invariant rest <= ids && forall i :: i in ids && i !in rest ==> i < id
      decreases rest
    {
      var i :| i in rest;
      rest := rest - {i};
      if i >= id {
        id := i + 1;
      }
    }
  }
}
