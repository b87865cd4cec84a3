/**
  File extent items of the image tree and of the file system tree, seen as a map
  from item keys to disk runs, and the laws of replacing one item by the pieces
  that relocation records for it.
 */
module RefTree {
  import opened Layout
  import opened Tiling

  datatype Root = ImageTree | FsTree

  /** The key of a file extent item. */
  datatype Ref = Ref(root: Root, ino: nat, off: nat)

  /** The disk run an item points at; disk 0 means a hole. */
  datatype Run = Run(disk: nat, len: nat) {
    predicate Holds(s: nat) { 0 < disk && disk <= s < disk + len }
  }

  /** One block of one file. */
  datatype FileBlock = FileBlock(root: Root, ino: nat, blk: nat)

  type Refs = map<Ref, Run>

  /** A sector that no data extent may keep after conversion. */
  ghost predicate Reserved(g: Geometry, s: nat) { g.InSystem(s) || g.InSuper(s) }

  ghost predicate Spans(r: Ref, len: nat, p: FileBlock) {
    r.root == p.root && r.ino == p.ino && r.off <= p.blk < r.off + len
  }

  /** The block `p` is read from sector `d` through item `r`. */
  ghost predicate Through(refs: Refs, r: Ref, p: FileBlock, d: nat) {
    r in refs && 0 < refs[r].disk && Spans(r, refs[r].len, p) && d == refs[r].disk + (p.blk - r.off)
  }

  ghost predicate At(refs: Refs, p: FileBlock, d: nat) {
    exists r :: Through(refs, r, p, d)
  }

  ghost predicate Live(refs: Refs, s: nat) {
    exists r :: r in refs && refs[r].Holds(s)
  }

  ghost predicate FilesApart(refs: Refs) {
    forall r, s :: r in refs && s in refs && r != s && r.root == s.root && r.ino == s.ino ==>
      r.off + refs[r].len <= s.off || s.off + refs[s].len <= r.off
  }

  ghost predicate RunOk(g: Geometry, u: Run) {
    0 < u.len && (0 < u.disk ==> u.disk + u.len <= g.total && g.Recordable(u.disk, u.len))
  }

  ghost predicate RunsOk(g: Geometry, refs: Refs) {
    forall r :: r in refs ==> RunOk(g, refs[r])
  }

  /** Two items that share a reserved sector share the whole extent. */
  ghost predicate ReservedShared(g: Geometry, refs: Refs) {
    forall r, s, x :: r in refs && s in refs && refs[r].Holds(x) && refs[s].Holds(x) && Reserved(g, x) ==>
      refs[r] == refs[s]
  }

  ghost predicate WellFormed(g: Geometry, refs: Refs) {
    FilesApart(refs) && RunsOk(g, refs) && ReservedShared(g, refs)
  }

  lemma AtUnique(refs: Refs, p: FileBlock, d: nat, e: nat)
    requires FilesApart(refs)
    requires At(refs, p, d) && At(refs, p, e)
    ensures d == e
  {
    var r :| Through(refs, r, p, d);
    var s :| Through(refs, s, p, e);
    assert r == s;
  }

  lemma AtLive(refs: Refs, p: FileBlock, d: nat)
    requires At(refs, p, d)
    ensures Live(refs, d)
  {
    var r :| Through(refs, r, p, d);
    assert refs[r].Holds(d);
  }

  lemma LiveAt(refs: Refs, s: nat) returns (p: FileBlock)
    requires Live(refs, s)
    ensures At(refs, p, s)
  {
    var r :| r in refs && refs[r].Holds(s);
    p := FileBlock(r.root, r.ino, r.off + (s - refs[r].disk));
    assert Through(refs, r, p, s);
  }

  /** A recordable run is reserved as a whole or not at all. */
  lemma ReservedWhole(g: Geometry, disk: nat, len: nat, x: nat, y: nat)
    requires g.Valid() && g.Recordable(disk, len)
    requires disk <= x < disk + len && disk <= y < disk + len
    ensures Reserved(g, x) <==> Reserved(g, y)
  {
    var i: nat :| i < |g.groups| && g.groups[i].start <= disk && disk + len <= g.groups[i].End();
    forall z, j: nat | disk <= z < disk + len && j < |g.groups| && g.groups[j].Contains(z) ensures j == i {
      g.GroupUnique(i, j, z);
    }
    assert g.groups[i].Contains(x) && g.groups[i].Contains(y);
    assert g.InSystem(x) == g.groups[i].system == g.InSystem(y);
    if x != y {
      assert !g.TouchesSuper(disk, len);
    }
  }

  lemma RecordablePart(g: Geometry, s: nat, n: nat, t: nat, k: nat)
    requires g.Recordable(s, n)
    requires s <= t && t + k <= s + n
    ensures g.Recordable(t, k)
  {
    if 1 < k && g.TouchesSuper(t, k) {
      var x :| t <= x < t + k && g.InSuper(x);
      assert g.TouchesSuper(s, n);
    }
  }

  ghost predicate DistinctFiles(es: seq<Extent>) {
    forall i, j :: 0 <= i < j < |es| ==> es[i].file != es[j].file
  }

  /** The items that record_file_blocks inserts for the pieces `es` of item `r`. */
  function Pieces(r: Ref, es: seq<Extent>): Refs
    requires DistinctFiles(es)
  {
    map i | 0 <= i < |es| :: Ref(r.root, r.ino, es[i].file) := Run(es[i].disk, es[i].len)
  }

  function Replace(refs: Refs, r: Ref, es: seq<Extent>): Refs
    requires DistinctFiles(es)
  {
    (refs - {r}) + Pieces(r, es)
  }

  lemma TilesDistinct(es: seq<Extent>, from: nat, to: nat)
    requires Tiles(es, from, to)
    ensures DistinctFiles(es)
  {
    forall i, j | 0 <= i < j < |es| ensures es[i].file != es[j].file {
      TilesOrdered(es, from, to, i, j);
    }
  }

  /** Every piece of a finished list, as an item. */
  lemma PieceOf(r: Ref, es: seq<Extent>, from: nat, to: nat, q: Ref) returns (i: nat)
    requires Tiles(es, from, to) && DistinctFiles(es)
    requires q in Pieces(r, es)
    ensures i < |es| && q == Ref(r.root, r.ino, es[i].file) && Pieces(r, es)[q] == Run(es[i].disk, es[i].len)
    ensures 0 < es[i].len && from <= es[i].file && es[i].End() <= to
  {
    i :| 0 <= i < |es| && q == Ref(r.root, r.ino, es[i].file);
    TilesWithin(es, from, to, i);
  }

  /** The item `r` may be replaced by pieces that tile its file range. */
  ghost predicate Replaceable(refs: Refs, r: Ref, es: seq<Extent>) {
    && r in refs
    && FilesApart(refs)
    && Tiles(es, r.off, r.off + refs[r].len)
    && DistinctFiles(es)
  }

  lemma ReplaceFilesApart(refs: Refs, r: Ref, es: seq<Extent>)
    requires Replaceable(refs, r, es)
    ensures FilesApart(Replace(refs, r, es))
    ensures forall q :: q in Pieces(r, es) ==> q !in refs - {r}
  {
    var after := Replace(refs, r, es);
    forall q | q in Pieces(r, es) ensures q !in refs - {r} {
      var i := PieceOf(r, es, r.off, r.off + refs[r].len, q);
    }
    forall q, s | q in after && s in after && q != s && q.root == s.root && q.ino == s.ino
      ensures q.off + after[q].len <= s.off || s.off + after[s].len <= q.off
    {
      PiecesApart(refs, r, es, q, s);
    }
  }

  lemma PiecesApart(refs: Refs, r: Ref, es: seq<Extent>, q: Ref, s: Ref)
    requires Replaceable(refs, r, es)
    requires q in Replace(refs, r, es) && s in Replace(refs, r, es)
    requires q != s && q.root == s.root && q.ino == s.ino
    ensures var a := Replace(refs, r, es);
            q.off + a[q].len <= s.off || s.off + a[s].len <= q.off
  {
    hide Pieces, Tiles;
    var to := r.off + refs[r].len;
    if q in Pieces(r, es) {
      var i := PieceOf(r, es, r.off, to, q);
      if s in Pieces(r, es) {
        var j := PieceOf(r, es, r.off, to, s);
        if i < j { TilesOrdered(es, r.off, to, i, j); } else { TilesOrdered(es, r.off, to, j, i); }
      } else {
        assert s in refs && s != r;
      }
    } else if s in Pieces(r, es) {
      var j := PieceOf(r, es, r.off, to, s);
      assert q in refs && q != r;
    }
  }

  lemma ReplaceAtInside(g: Geometry, refs: Refs, r: Ref, es: seq<Extent>, m: map<nat, nat>, p: FileBlock)
    requires Replaceable(refs, r, es)
    requires AllFaithful(g, m, es)
    requires Spans(r, refs[r].len, p)
    requires p.blk in m && 0 < m[p.blk]
    ensures At(Replace(refs, r, es), p, m[p.blk])
  {
    hide Tiles, FilesApart;
    var i := TilesCover(es, r.off, r.off + refs[r].len, p.blk);
    assert Faithful(g, m, es[i]);
    var q := Ref(r.root, r.ino, es[i].file);
    assert q in Pieces(r, es);
    assert Through(Replace(refs, r, es), q, p, m[p.blk]);
  }

  lemma ReplaceAtOutside(refs: Refs, r: Ref, es: seq<Extent>, p: FileBlock, d: nat)
    requires Replaceable(refs, r, es)
    requires !Spans(r, refs[r].len, p)
    ensures At(Replace(refs, r, es), p, d) <==> At(refs, p, d)
  {
    hide Pieces, Tiles, FilesApart;
    var after := Replace(refs, r, es);
    PiecesInside(refs, r, es);
    if At(refs, p, d) {
      var q :| Through(refs, q, p, d);
      assert q !in Pieces(r, es);
      assert Through(after, q, p, d);
    }
    if At(after, p, d) {
      var q :| Through(after, q, p, d);
      assert q !in Pieces(r, es);
      assert Through(refs, q, p, d);
    }
  }

  /** Pieces span blocks of the replaced item only, and no other item has such blocks. */
  lemma PiecesInside(refs: Refs, r: Ref, es: seq<Extent>)
    requires Replaceable(refs, r, es)
    ensures forall q, p: FileBlock :: q in Pieces(r, es) && Spans(q, Pieces(r, es)[q].len, p) ==>
      Spans(r, refs[r].len, p)
    ensures forall q :: q in refs && q != r && 0 < refs[q].len ==> q !in Pieces(r, es)
  {
    hide Pieces, Tiles;
    forall q | q in Pieces(r, es)
      ensures q.root == r.root && q.ino == r.ino && r.off <= q.off
      ensures q.off + Pieces(r, es)[q].len <= r.off + refs[r].len
      ensures q in refs && q != r ==> refs[q].len == 0
    {
      var i := PieceOf(r, es, r.off, r.off + refs[r].len, q);
    }
  }

  /** Reading through the tree after a replacement: blocks of the replaced item go
      where `m` says, all other blocks are read from where they were. */
  lemma ReplaceAt(g: Geometry, refs: Refs, r: Ref, es: seq<Extent>, m: map<nat, nat>, p: FileBlock, d: nat)
    requires Replaceable(refs, r, es)
    requires AllFaithful(g, m, es)
    requires forall b: nat :: r.off <= b < r.off + refs[r].len ==> b in m && 0 < m[b]
    ensures At(Replace(refs, r, es), p, d) <==>
            if Spans(r, refs[r].len, p) then d == m[p.blk] else At(refs, p, d)
  {
    if Spans(r, refs[r].len, p) {
      ReplaceAtInside(g, refs, r, es, m, p);
      ReplaceFilesApart(refs, r, es);
      if At(Replace(refs, r, es), p, d) { AtUnique(Replace(refs, r, es), p, d, m[p.blk]); }
    } else {
      ReplaceAtOutside(refs, r, es, p, d);
    }
  }

  /** Which sectors are live after a replacement. */
  lemma ReplaceLive(g: Geometry, refs: Refs, r: Ref, es: seq<Extent>, m: map<nat, nat>, s: nat)
    requires Replaceable(refs, r, es)
    requires AllFaithful(g, m, es)
    requires forall b: nat :: r.off <= b < r.off + refs[r].len ==> b in m && 0 < m[b]
    requires Live(Replace(refs, r, es), s)
    ensures (exists b: nat :: r.off <= b < r.off + refs[r].len && m[b] == s) || Live(refs - {r}, s)
  {
    hide Pieces, Tiles, FilesApart;
    var after := Replace(refs, r, es);
    var q :| q in after && after[q].Holds(s);
    if q in Pieces(r, es) {
      var i := PieceOf(r, es, r.off, r.off + refs[r].len, q);
      assert Faithful(g, m, es[i]);
      var b := es[i].file + (s - es[i].disk);
      assert es[i].Covers(b);
      assert m[b] == s;
    } else {
      assert (refs - {r})[q].Holds(s);
    }
  }

  /** Replacing a reserved item by pieces outside the reserved sectors keeps the
      tree well formed. */
  lemma ReplaceWellFormed(g: Geometry, refs: Refs, r: Ref, es: seq<Extent>, m: map<nat, nat>)
    requires g.Valid() && WellFormed(g, refs)
    requires Replaceable(refs, r, es)
    requires AllFaithful(g, m, es)
    requires forall b: nat :: r.off <= b < r.off + refs[r].len ==> b in m && 0 < m[b] < g.total && !Reserved(g, m[b])
    ensures WellFormed(g, Replace(refs, r, es))
  {
    hide FilesApart, RunsOk, ReservedShared, Replace, Replaceable, AllFaithful, Reserved;
    assert FilesApart(refs) && RunsOk(g, refs) && ReservedShared(g, refs);
    ReplaceFilesApart(refs, r, es);
    ReplaceRunsOk(g, refs, r, es, m);
    ReplaceShared(g, refs, r, es, m);
  }

  lemma ReplaceRunsOk(g: Geometry, refs: Refs, r: Ref, es: seq<Extent>, m: map<nat, nat>)
    requires RunsOk(g, refs) && Replaceable(refs, r, es) && AllFaithful(g, m, es)
    requires forall b: nat :: r.off <= b < r.off + refs[r].len ==> b in m && 0 < m[b] < g.total
    ensures RunsOk(g, Replace(refs, r, es))
  {
    hide AllFaithful, Pieces, RunOk, Tiles, FilesApart;
    var after := Replace(refs, r, es);
    forall q | q in after ensures RunOk(g, after[q]) {
      if q in Pieces(r, es) { PieceRunOk(g, refs, r, es, m, q); }
    }
  }

  lemma ReplaceShared(g: Geometry, refs: Refs, r: Ref, es: seq<Extent>, m: map<nat, nat>)
    requires ReservedShared(g, refs) && Replaceable(refs, r, es) && AllFaithful(g, m, es)
    requires forall b: nat :: r.off <= b < r.off + refs[r].len ==> b in m && 0 < m[b] < g.total && !Reserved(g, m[b])
    ensures ReservedShared(g, Replace(refs, r, es))
  {
    hide AllFaithful, Pieces, Reserved, Tiles, FilesApart;
    var after := Replace(refs, r, es);
    forall q, x | q in Pieces(r, es) && Pieces(r, es)[q].Holds(x) ensures !Reserved(g, x) {
      PieceNotReserved(g, refs, r, es, m, q, x);
    }
  }

  lemma PieceRunOk(g: Geometry, refs: Refs, r: Ref, es: seq<Extent>, m: map<nat, nat>, q: Ref)
    requires Replaceable(refs, r, es)
    requires AllFaithful(g, m, es)
    requires forall b: nat :: r.off <= b < r.off + refs[r].len ==> b in m && 0 < m[b] < g.total
    requires q in Pieces(r, es)
    ensures RunOk(g, Pieces(r, es)[q])
  {
    var i := PieceOf(r, es, r.off, r.off + refs[r].len, q);
    assert Faithful(g, m, es[i]);
    assert es[i].Covers(es[i].file) && es[i].Covers(es[i].End() - 1);
    assert es[i].End() - 1 in m;
  }

  lemma PieceNotReserved(g: Geometry, refs: Refs, r: Ref, es: seq<Extent>, m: map<nat, nat>, q: Ref, x: nat)
    requires Replaceable(refs, r, es)
    requires AllFaithful(g, m, es)
    requires forall b: nat :: r.off <= b < r.off + refs[r].len ==> b in m && 0 < m[b] < g.total && !Reserved(g, m[b])
    requires q in Pieces(r, es) && Pieces(r, es)[q].Holds(x)
    ensures !Reserved(g, x)
  {
    var i := PieceOf(r, es, r.off, r.off + refs[r].len, q);
    assert Faithful(g, m, es[i]);
    var b := es[i].file + (x - es[i].disk);
    assert es[i].Covers(b);
    assert m[b] == x;
  }
}
