/**
  copy_inodes, as far as data blocks go: each inode's blocks come as callbacks from ext2,
  create_file_extents turns them into extents, and together they are the file system tree
  that the conversion starts from.
 */
module CopyFiles {
  import opened Basics
  import opened Layout
  import opened Tiling
  import opened RefTree
  import opened View
  import opened Allocator
  import opened Relocation
  import opened Image
  import opened Accounting
  import opened Rollback

  /** The data blocks of an ext2 inode in file order, and the number of blocks of its size. */
  datatype Inode = Inode(cbs: seq<Callback>, lastBlock: nat) {
    ghost predicate Valid(g: Geometry, used: set<nat>) {
      && Increasing(cbs) && (forall i :: 0 <= i < |cbs| ==> 0 < cbs[i].disk < g.total && cbs[i].disk in used)
      && forall i, j :: 0 <= i < j < |cbs| ==> cbs[i].disk != cbs[j].disk
    }

    ghost predicate Uses(d: nat) { exists i :: 0 <= i < |cbs| && cbs[i].disk == d }
  }

  /** A consistent ext2: no two files, nor two blocks of one file, share a data block. */
  ghost predicate Ext2Ok(g: Geometry, used: set<nat>, inodes: map<nat, Inode>) {
    && (forall a :: a in inodes ==> inodes[a].Valid(g, used))
    && forall a, b, d :: a in inodes && b in inodes && inodes[a].Uses(d) && inodes[b].Uses(d) ==> a == b
  }

  /** Item `q` reads sector `x` for the callback that named it. */
  ghost predicate FromCallback(inode: Inode, q: Ref, run: Run, x: nat) {
    exists i :: 0 <= i < |inode.cbs| && inode.cbs[i].disk == x && inode.cbs[i].file + run.disk == q.off + x
  }

  /** The items of one file. */
  ghost predicate FileOk(g: Geometry, ino: nat, inode: Inode, ps: Refs) {
    && FilesApart(ps) && RunsOk(g, ps)
    && (forall q :: q in ps ==> q.root == FsTree && q.ino == ino)
    && (forall q, x: nat :: q in ps && ps[q].Holds(x) ==> FromCallback(inode, q, ps[q], x))
  }

  lemma PieceFrom(g: Geometry, ino: nat, inode: Inode, es: seq<Extent>, to: nat, q: Ref)
    requires Increasing(inode.cbs) && (forall i :: 0 <= i < |inode.cbs| ==> inode.cbs[i].disk < g.total)
    requires Records(g, CallbackMap(inode.cbs, |inode.cbs|), es, 0, to) && DistinctFiles(es)
    requires q in Pieces(Ref(FsTree, ino, 0), es)
    ensures q.root == FsTree && q.ino == ino && RunOk(g, Pieces(Ref(FsTree, ino, 0), es)[q])
    ensures forall x: nat :: Pieces(Ref(FsTree, ino, 0), es)[q].Holds(x) ==>
      FromCallback(inode, q, Pieces(Ref(FsTree, ino, 0), es)[q], x)
  {
    hide CallbackMap, Pieces, Tiles;
    var m := CallbackMap(inode.cbs, |inode.cbs|);
    var i := PieceOf(Ref(FsTree, ino, 0), es, 0, to, q);
    var e := es[i];
    assert Faithful(g, m, e);
    if !e.Hole() {
      assert e.Covers(e.End() - 1);
      Named(inode.cbs, e.End() - 1);
      forall x: nat | e.disk <= x < e.disk + e.len ensures FromCallback(inode, q, Run(e.disk, e.len), x) {
        var b := e.file + (x - e.disk);
        assert e.Covers(b);
        Named(inode.cbs, b);
        var k :| 0 <= k < |inode.cbs| && inode.cbs[k].file == b && inode.cbs[k].disk == m[b];
      }
    }
  }

  lemma Named(cbs: seq<Callback>, b: nat)
    requires Increasing(cbs) && b in CallbackMap(cbs, |cbs|)
    ensures exists k :: 0 <= k < |cbs| && cbs[k].file == b && cbs[k].disk == CallbackMap(cbs, |cbs|)[b]
  {}

  lemma TilesApart(r: Ref, es: seq<Extent>, to: nat)
    requires Tiles(es, 0, to) && DistinctFiles(es)
    ensures FilesApart(Pieces(r, es))
  {
    hide Tiles;
    var ps := Pieces(r, es);
    forall q, s | q in ps && s in ps && q != s && q.root == s.root && q.ino == s.ino
      ensures q.off + ps[q].len <= s.off || s.off + ps[s].len <= q.off
    {
      var i := PieceOf(r, es, 0, to, q);
      var j := PieceOf(r, es, 0, to, s);
      if i < j { TilesOrdered(es, 0, to, i, j); } else { TilesOrdered(es, 0, to, j, i); }
    }
  }

  lemma OneFile(g: Geometry, ino: nat, inode: Inode, es: seq<Extent>, to: nat)
    requires Increasing(inode.cbs) && (forall i :: 0 <= i < |inode.cbs| ==> inode.cbs[i].disk < g.total)
    requires Records(g, CallbackMap(inode.cbs, |inode.cbs|), es, 0, to)
    ensures DistinctFiles(es) && FileOk(g, ino, inode, Pieces(Ref(FsTree, ino, 0), es))
  {
    hide CallbackMap, Pieces, AllFaithful, RunOk, FromCallback;
    TilesDistinct(es, 0, to);
    TilesApart(Ref(FsTree, ino, 0), es, to);
    forall q | q in Pieces(Ref(FsTree, ino, 0), es)
      ensures q.root == FsTree && q.ino == ino && RunOk(g, Pieces(Ref(FsTree, ino, 0), es)[q])
      ensures forall x: nat :: Pieces(Ref(FsTree, ino, 0), es)[q].Holds(x) ==>
        FromCallback(inode, q, Pieces(Ref(FsTree, ino, 0), es)[q], x)
    {
      PieceFrom(g, ino, inode, es, to, q);
    }
  }

  /** The tree so far holds items of the inodes in `done`, each sector for its callback. */
  ghost predicate Copied(g: Geometry, inodes: map<nat, Inode>, done: set<nat>, files: Refs) {
    && done <= inodes.Keys && FilesApart(files) && RunsOk(g, files)
    && (forall q :: q in files ==> q.root == FsTree && q.ino in done)
    && (forall q, x: nat :: q in files && files[q].Holds(x) ==>
        q.ino in inodes && FromCallback(inodes[q.ino], q, files[q], x))
  }

  lemma CopiedMore(g: Geometry, inodes: map<nat, Inode>, done: set<nat>, files: Refs, ino: nat, ps: Refs)
    requires Copied(g, inodes, done, files) && ino in inodes && ino !in done && FileOk(g, ino, inodes[ino], ps)
    ensures Copied(g, inodes, done + {ino}, files + ps)
  {
    hide FromCallback, RunOk;
    assert forall q :: q in ps ==> q !in files;
  }

  /** Distinct blocks make a tree in which each sector has one item. */
  lemma CopiedOk(g: Geometry, used: set<nat>, inodes: map<nat, Inode>, files: Refs)
    requires Ext2Ok(g, used, inodes) && Copied(g, inodes, inodes.Keys, files)
    ensures FilesOk(g, used, files)
  {
    hide FromCallback, RunOk;
    forall s: nat | Live(files, s) ensures s in used {
      var r :| r in files && files[r].Holds(s);
      OneUse(inodes[r.ino], r, files[r], s);
      assert inodes[r.ino].Valid(g, used);
    }
    forall r, s, x: nat | r in files && s in files && files[r].Holds(x) && files[s].Holds(x) ensures r == s {
      OneItem(g, used, inodes, files, r, s, x);
    }
  }

  /** A sector is read by one item. */
  lemma OneItem(g: Geometry, used: set<nat>, inodes: map<nat, Inode>, files: Refs, r: Ref, s: Ref, x: nat)
    requires Ext2Ok(g, used, inodes) && Copied(g, inodes, inodes.Keys, files)
    requires r in files && s in files && files[r].Holds(x) && files[s].Holds(x)
    ensures r == s
  {
    hide FromCallback, RunOk;
    OneUse(inodes[r.ino], r, files[r], x);
    OneUse(inodes[s.ino], s, files[s], x);
    assert r.ino == s.ino && inodes[r.ino].Valid(g, used);
    OneBlock(inodes[r.ino], r, files[r], s, files[s], x);
  }

  lemma OneUse(inode: Inode, q: Ref, run: Run, x: nat)
    requires FromCallback(inode, q, run, x)
    ensures inode.Uses(x) && exists i :: 0 <= i < |inode.cbs| && inode.cbs[i].disk == x
  {}

  /** Two items of a file that read one sector read it for one block of the file. */
  lemma OneBlock(inode: Inode, q: Ref, run: Run, r: Ref, run': Run, x: nat)
    requires forall i, j :: 0 <= i < j < |inode.cbs| ==> inode.cbs[i].disk != inode.cbs[j].disk
    requires FromCallback(inode, q, run, x) && FromCallback(inode, r, run', x)
    ensures q.off + x - run.disk == r.off + x - run'.disk
  {
    var i :| 0 <= i < |inode.cbs| && inode.cbs[i].disk == x && inode.cbs[i].file + run.disk == q.off + x;
    var j :| 0 <= j < |inode.cbs| && inode.cbs[j].disk == x && inode.cbs[j].file + run'.disk == r.off + x;
    assert i == j;
  }

  /** A reader of the file finds the blocks that the callbacks named, and no others. */
  ghost predicate Reads(files: Refs, ino: nat, inode: Inode) {
    forall b: nat, d: nat :: At(files, FileBlock(FsTree, ino, b), d) <==> Callback(b, d) in inode.cbs
  }

  lemma FileReads(g: Geometry, ino: nat, inode: Inode, es: seq<Extent>, to: nat)
    requires Increasing(inode.cbs)
    requires forall i :: 0 <= i < |inode.cbs| ==> 0 < inode.cbs[i].disk && inode.cbs[i].file < to
    requires Records(g, CallbackMap(inode.cbs, |inode.cbs|), es, 0, to) && DistinctFiles(es)
    ensures Reads(Pieces(Ref(FsTree, ino, 0), es), ino, inode)
  {
    hide CallbackMap, Pieces, Tiles, AllFaithful;
    var ps, m := Pieces(Ref(FsTree, ino, 0), es), CallbackMap(inode.cbs, |inode.cbs|);
    forall b: nat, d: nat ensures At(ps, FileBlock(FsTree, ino, b), d) <==> Callback(b, d) in inode.cbs {
      var p := FileBlock(FsTree, ino, b);
      if At(ps, p, d) {
        var q :| Through(ps, q, p, d);
        var i := PieceOf(Ref(FsTree, ino, 0), es, 0, to, q);
        BlockOf(g, m, es, i, b);
        Named(inode.cbs, b);
      }
      if Callback(b, d) in inode.cbs {
        var k :| 0 <= k < |inode.cbs| && inode.cbs[k] == Callback(b, d);
        NamedAt(inode.cbs, k);
        var i := TilesCover(es, 0, to, b);
        BlockOf(g, m, es, i, b);
        PieceIn(Ref(FsTree, ino, 0), es, i);
        assert Through(ps, Ref(FsTree, ino, es[i].file), p, d);
      }
    }
  }

  lemma BlockOf(g: Geometry, m: map<nat, nat>, es: seq<Extent>, i: nat, b: nat)
    requires AllFaithful(g, m, es) && i < |es| && es[i].Covers(b)
    ensures b in m <==> 0 < es[i].disk
    ensures b in m ==> m[b] == es[i].disk + (b - es[i].file)
  {
    assert Faithful(g, m, es[i]);
  }

  lemma NamedAt(cbs: seq<Callback>, k: nat)
    requires Increasing(cbs) && k < |cbs|
    ensures cbs[k].file in CallbackMap(cbs, |cbs|) && CallbackMap(cbs, |cbs|)[cbs[k].file] == cbs[k].disk
  {}

  /** Another file's items change nothing for a reader of this one. */
  lemma ReadsMore(files: Refs, ps: Refs, ino: nat, other: nat, inode: Inode)
    requires (forall q :: q in ps ==> q.ino == other) && (forall q :: q in files ==> q.ino != other)
    ensures ino != other ==> (Reads(files, ino, inode) <==> Reads(files + ps, ino, inode))
    ensures ino == other ==> (Reads(ps, ino, inode) <==> Reads(files + ps, ino, inode))
  {
    forall b: nat, d: nat
      ensures At(files + ps, FileBlock(FsTree, ino, b), d) <==>
        if ino == other then At(ps, FileBlock(FsTree, ino, b), d) else At(files, FileBlock(FsTree, ino, b), d)
    {
      var p, all := FileBlock(FsTree, ino, b), files + ps;
      if At(all, p, d) {
        var q :| Through(all, q, p, d);
        if ino == other { assert Through(ps, q, p, d); } else { assert Through(files, q, p, d); }
      }
      if ino == other && At(ps, p, d) {
        var q :| Through(ps, q, p, d);
        assert Through(all, q, p, d);
      }
      if ino != other && At(files, p, d) {
        var q :| Through(files, q, p, d);
        assert Through(all, q, p, d);
      }
    }
  }

  /** The extents of one inode, as items of the tree. */
  method CopyInode(g: Geometry, used: set<nat>, ino: nat, inode: Inode) returns (ps: Refs)
    requires g.Valid() && g.total <= U64_MAX && inode.Valid(g, used)
    ensures FileOk(g, ino, inode, ps) && Reads(ps, ino, inode)
  {
    hide Records, CallbackMap, FileOk, Reads;
    var es := CreateFileExtents(g, inode.cbs, inode.lastBlock);
    ghost var n := |inode.cbs|;
    ghost var to :=
      if inode.cbs != [] && inode.lastBlock <= inode.cbs[n - 1].file then inode.cbs[n - 1].file + 1
      else inode.lastBlock;
    assert forall i :: 0 <= i < n ==> inode.cbs[i].file <= inode.cbs[n - 1].file;
    OneFile(g, ino, inode, es, to);
    FileReads(g, ino, inode, es, to);
    ps := Pieces(Ref(FsTree, ino, 0), es);
  }

  /** copy_inodes: every inode, in any order. */
  method CopyInodes(g: Geometry, used: set<nat>, inodes: map<nat, Inode>) returns (files: Refs)
    requires g.Valid() && g.total <= U64_MAX && Ext2Ok(g, used, inodes)
    ensures FilesOk(g, used, files)
    ensures forall ino, b: nat, d: nat :: ino in inodes ==>
      (At(files, FileBlock(FsTree, ino, b), d) <==> Callback(b, d) in inodes[ino].cbs)
  {
    hide FilesApart, RunsOk, Reads;
    files := map[];
    assert Copied(g, inodes, {}, files) by { NothingCopied(g, inodes); }
    var todo := inodes.Keys;
    assert inodes.Keys - todo == {};
    while todo != {}
      invariant todo <= inodes.Keys && Copied(g, inodes, inodes.Keys - todo, files)
      invariant forall ino :: ino in inodes && ino !in todo ==> Reads(files, ino, inodes[ino])
    {
      var ino :| ino in todo;
      ghost var before, done := files, inodes.Keys - todo;
      var ps := CopyInode(g, used, ino, inodes[ino]);
      CopiedMore(g, inodes, done, files, ino, ps);
      files := files + ps;
      todo := todo - {ino};
      assert inodes.Keys - todo == done + {ino};
      forall a | a in inodes && a !in todo ensures Reads(files, a, inodes[a]) {
        ReadsMore(before, ps, a, ino, inodes[a]);
      }
    }
    assert inodes.Keys - todo == inodes.Keys;
    CopiedOk(g, used, inodes, files);
    AllRead(inodes, files);
  }

  lemma NothingCopied(g: Geometry, inodes: map<nat, Inode>)
    ensures Copied(g, inodes, {}, map[])
  {}

  lemma AllRead(inodes: map<nat, Inode>, files: Refs)
    requires forall ino :: ino in inodes ==> Reads(files, ino, inodes[ino])
    ensures forall ino, b: nat, d: nat :: ino in inodes ==>
      (At(files, FileBlock(FsTree, ino, b), d) <==> Callback(b, d) in inodes[ino].cbs)
  {}

  /**
    From the ext2 block bitmap and block callbacks to btrfs and back.  A successful
    conversion shows each named block in its place in its file, and the rollback succeeds
    and restores every sector that ext2 used; a conversion that fails has not changed any
    of them.  It does succeed when the sectors it may write outnumber the tree blocks, the
    first 64K with the super block, and ext2's own sectors that have to move.
   */
  method ConvertExt2AndBack(g: Geometry, used: set<nat>, firstDataBlock: nat, disk: seq<Content>,
                            inodes: map<nat, Inode>, trees: map<nat, Content>, budget: nat, superBlock: Content)
    returns (converted: bool, rolledBack: bool, after: seq<Content>, btrfs: seq<Content>, refs: Refs)
    requires g.Valid() && g.total <= U64_MAX && |disk| == g.total
    requires g.groups[0].system && g.stripe < g.groups[0].len
    requires Ext2Ok(g, used, inodes) && forall s :: s in trees ==> Writable(g, used, s)
    ensures |after| == g.total && forall i: nat :: i < g.total && i in used ==> after[i] == disk[i]
    ensures converted ==> rolledBack && g.stripe < |btrfs| && btrfs[g.stripe] == superBlock
    ensures converted ==> forall ino, b: nat, d: nat :: ino in inodes && Callback(b, d) in inodes[ino].cbs ==>
      ReadsAs(refs, btrfs, FileBlock(FsTree, ino, b), disk, d)
    ensures |trees.Keys| + budget + g.stripe + 1 + |OwnReserved(g, used)| < |Room(g, used, firstDataBlock)| ==>
      converted
  {
    hide FilesOk, ReadsAs, Ext2Ok, Writable, Geometry.Valid, OwnReserved, Room;
    var files := CopyInodes(g, used, inodes);
    converted, rolledBack, after, btrfs, refs :=
      ConvertThenRollback(g, used, firstDataBlock, disk, files, trees, budget, superBlock);
  }
}
