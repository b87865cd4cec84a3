/**
  The ext2 image file as create_ext2_image lays it out: copies for the first
  sectors, then ext2's own blocks where they are, and holes elsewhere.
 */
module Image {
  import opened Layout
  import opened Tiling
  import opened RefTree
  import opened View
  import opened Relocation

  const IMAGE_INO: nat := 0

  /** One item of the image: a copied sector in front, a hole or a direct mapping
      behind. */
  ghost predicate ImageItem(g: Geometry, used: set<nat>, r: Ref, u: Run) {
    && r.root == ImageTree && r.ino == IMAGE_INO && 0 < u.len
    && if r.off <= g.stripe then u.len == 1 && Writable(g, used, u.disk)
       else if u.disk == 0 then forall b: nat :: r.off <= b < r.off + u.len ==> b !in used
       else u.disk == r.off && g.Recordable(u.disk, u.len) && forall b: nat :: r.off <= b < r.off + u.len ==> b in used
  }

  /** Direct mappings share whole extents with the file system tree. */
  ghost predicate DirectShared(g: Geometry, files: Refs, img: Refs) {
    forall r, s, x :: r in img && s in files && g.stripe < r.off && img[r].Holds(x) && files[s].Holds(x) ==>
      img[r] == files[s]
  }

  ghost predicate CopiesDistinct(g: Geometry, img: Refs) {
    forall r, s :: r in img && s in img && r.off <= g.stripe && s.off <= g.stripe && img[r].disk == img[s].disk ==>
      r == s
  }

  /** The copies hold what ext2 had in those sectors. */
  ghost predicate CopiesHold(g: Geometry, img: Refs, disk0: seq<Content>, disk: seq<Content>) {
    forall r :: r in img && r.off <= g.stripe ==>
      r.off < |disk0| && img[r].disk < |disk| && disk[img[r].disk] == disk0[r.off]
  }

  /** The image file up to sector `last`. */
  ghost predicate ImageUpTo(g: Geometry, used: set<nat>, files: Refs, img: Refs, last: nat) {
    && last <= g.total
    && (forall r :: r in img ==> ImageItem(g, used, r, img[r]) && r.off + img[r].len <= last)
    && FilesApart(img)
    && (forall i: nat :: i < last ==> ImageCovers(img, i))
    && CopiesDistinct(g, img) && DirectShared(g, files, img)
  }

  /** The files as copy_inodes leaves them: each data block belongs to one item and
      is one of ext2's own. */
  ghost predicate FilesOk(g: Geometry, used: set<nat>, files: Refs) {
    && WellFormed(g, files)
    && (forall r :: r in files ==> r.root == FsTree)
    && (forall s: nat :: Live(files, s) ==> s in used)
    && (forall r, s, x :: r in files && s in files && files[r].Holds(x) && files[s].Holds(x) ==> r == s)
  }

  lemma ImageHolds(g: Geometry, used: set<nat>, r: Ref, u: Run, x: nat)
    requires ImageItem(g, used, r, u) && u.Holds(x)
    ensures r.off <= g.stripe ==> x == u.disk && x !in used && !Reserved(g, x) && 0 < x < g.total
    ensures g.stripe < r.off ==> x in used && r.off <= x < r.off + u.len && u.disk == r.off
  {
  }

  /** Both trees together are well formed. */
  lemma ImageWellFormed(g: Geometry, used: set<nat>, files: Refs, img: Refs, last: nat)
    requires g.Valid() && FilesOk(g, used, files) && ImageUpTo(g, used, files, img, last)
    ensures WellFormed(g, files + img)
  {
    hide ImageUpTo, FilesOk;
    ImageRunsOk(g, used, files, img, last);
    ImageReservedShared(g, used, files, img, last);
    ImageApart(g, used, files, img, last);
  }

  lemma ImageRunsOk(g: Geometry, used: set<nat>, files: Refs, img: Refs, last: nat)
    requires g.Valid() && FilesOk(g, used, files) && ImageUpTo(g, used, files, img, last)
    ensures RunsOk(g, files + img)
  {
    hide RunOk, ImageItem;
    forall r | r in img ensures RunOk(g, img[r]) { ImageRunOk(g, used, r, img[r], last); }
  }

  /** The trees have different roots, and each is apart in itself. */
  lemma ImageApart(g: Geometry, used: set<nat>, files: Refs, img: Refs, last: nat)
    requires FilesOk(g, used, files) && ImageUpTo(g, used, files, img, last)
    ensures FilesApart(files + img)
  {
    hide RunOk, Live, CopiesDistinct, DirectShared, ReservedShared, ImageCovers;
    assert forall r :: r in img ==> r.root == ImageTree;
  }

  lemma ImageReservedShared(g: Geometry, used: set<nat>, files: Refs, img: Refs, last: nat)
    requires FilesOk(g, used, files) && ImageUpTo(g, used, files, img, last)
    ensures ReservedShared(g, files + img)
  {
    hide ImageUpTo, FilesApart, RunOk, Reserved;
    var refs := files + img;
    forall r, s, x | r in refs && s in refs && refs[r].Holds(x) && refs[s].Holds(x) && Reserved(g, x)
      ensures refs[r] == refs[s]
    {
      if r in img && s in img {
        ImageImage(g, used, files, img, last, r, s, x);
      } else if r in img {
        ReservedNotFile(g, used, files, img, last, r, s, x);
      } else if s in img {
        ReservedNotFile(g, used, files, img, last, s, r, x);
      }
    }
  }

  /** A reserved sector shared with a file is shared as a whole extent. */
  lemma ReservedNotFile(g: Geometry, used: set<nat>, files: Refs, img: Refs, last: nat, r: Ref, f: Ref, x: nat)
    requires FilesOk(g, used, files) && ImageUpTo(g, used, files, img, last)
    requires r in img && f in files && img[r].Holds(x) && files[f].Holds(x) && Reserved(g, x)
    ensures img[r] == files[f]
  {
    assert ImageItem(g, used, r, img[r]);
    ImageHolds(g, used, r, img[r], x);
    assert Live(files, x);
  }

  lemma ImageRunOk(g: Geometry, used: set<nat>, r: Ref, u: Run, last: nat)
    requires g.Valid() && ImageItem(g, used, r, u) && r.off + u.len <= last <= g.total
    ensures RunOk(g, u)
  {
    if r.off <= g.stripe {
      SingleRecordable(g, u.disk);
    }
  }

  lemma SingleRecordable(g: Geometry, s: nat)
    requires g.Valid() && s < g.total
    ensures g.Recordable(s, 1)
  {
    var i := FindGroup(g, s, |g.groups| - 1);
    assert g.groups[i].start <= s && s + 1 <= g.groups[i].End();
  }

  lemma {:induction false} FindGroup(g: Geometry, s: nat, n: nat) returns (i: nat)
    requires g.Valid() && n < |g.groups| && s < g.groups[n].End()
    ensures i < |g.groups| && g.groups[i].Contains(s)
    decreases n
  {
    if g.groups[n].start <= s {
      i := n;
    } else {
      assert g.Follows(n);
      i := FindGroup(g, s, n - 1);
    }
  }

  lemma ImageImage(g: Geometry, used: set<nat>, files: Refs, img: Refs, last: nat, r: Ref, s: Ref, x: nat)
    requires ImageUpTo(g, used, files, img, last)
    requires r in img && s in img && img[r].Holds(x) && img[s].Holds(x)
    ensures r == s
  {
    ImageHolds(g, used, r, img[r], x);
    ImageHolds(g, used, s, img[s], x);
  }

  /** No spare sector is read through the image. */
  lemma ImageSpace(g: Geometry, used: set<nat>, files: Refs, img: Refs, last: nat, spare: set<nat>, meta: set<nat>)
    requires FilesOk(g, used, files) && ImageUpTo(g, used, files, img, last)
    requires spare !! used && forall s :: s in spare ==> s < g.total && !g.InSuper(s)
    requires forall r :: r in img && r.off <= g.stripe ==> img[r].disk !in spare && img[r].disk !in meta
    requires forall s :: s in meta ==> Writable(g, used, s) && s !in spare
    ensures SpaceOk(g, used, files + img, spare) && MetaOk(g, used, files + img, spare, meta)
  {
    forall s: nat | s in spare || s in meta ensures !Live(files + img, s) {
      if Live(files + img, s) {
        var r :| r in files + img && (files + img)[r].Holds(s);
        if r in img { ImageHolds(g, used, r, img[r], s); }
        assert false;
      }
    }
  }

  function ImageRef(off: nat): Ref { Ref(ImageTree, IMAGE_INO, off) }

  /** The copy of one of the first sectors. */
  lemma AddCopy(g: Geometry, used: set<nat>, files: Refs, img: Refs, i: nat, t: nat)
    requires FilesOk(g, used, files) && ImageUpTo(g, used, files, img, i)
    requires i <= g.stripe && i < g.total && Writable(g, used, t)
    requires forall r :: r in img && r.off <= g.stripe ==> img[r].disk != t
    ensures ImageUpTo(g, used, files, img[ImageRef(i) := Run(t, 1)], i + 1)
  {
    var img' := img[ImageRef(i) := Run(t, 1)];
    CoversStep(img, img', i, i + 1);
  }

  lemma CopyHolds(g: Geometry, img: Refs, disk0: seq<Content>, disk: seq<Content>, i: nat, t: nat)
    requires |disk| == |disk0| && i < |disk0| && t < |disk| && disk[i] == disk0[i]
    requires CopiesHold(g, img, disk0, disk)
    requires forall r :: r in img && r.off <= g.stripe ==> img[r].disk != t
    ensures CopiesHold(g, img[ImageRef(i) := Run(t, 1)], disk0, disk[t := disk[i]])
  {
  }

  /** A write elsewhere leaves the copies as they are. */
  lemma CopiesUndisturbed(g: Geometry, img: Refs, disk0: seq<Content>, disk: seq<Content>, s: nat, content: Content)
    requires CopiesHold(g, img, disk0, disk) && s < |disk|
    requires forall r :: r in img && r.off <= g.stripe ==> img[r].disk != s
    ensures CopiesHold(g, img, disk0, disk[s := content])
  {
  }

  lemma CoversStep(img: Refs, img': Refs, last: nat, to: nat)
    requires forall r :: r in img ==> r in img' && img'[r] == img[r]
    requires forall i: nat :: i < last ==> ImageCovers(img, i)
    requires forall i: nat :: last <= i < to ==> ImageCovers(img', i)
    ensures forall i: nat :: i < to ==> ImageCovers(img', i)
  {
    forall i: nat | i < last ensures ImageCovers(img', i) {
      assert ImageCovers(img, i);
      var r :| r in img && r.root == ImageTree && r.off <= i < r.off + img[r].len;
      assert r in img';
    }
  }

  /** An extent of the file system tree, recorded where it is. */
  lemma AddDirect(g: Geometry, used: set<nat>, files: Refs, img: Refs, f: Ref)
    requires FilesOk(g, used, files) && f in files && g.stripe < files[f].disk
    requires ImageUpTo(g, used, files, img, files[f].disk)
    ensures ImageUpTo(g, used, files, img[ImageRef(files[f].disk) := files[f]], files[f].disk + files[f].len)
  {
    var u := files[f];
    var r := ImageRef(u.disk);
    var img' := img[r := u];
    assert RunOk(g, u);
    forall b: nat | u.disk <= b < u.disk + u.len ensures b in used {
      assert u.Holds(b);
      assert Live(files, b);
    }
    assert ImageItem(g, used, r, u);
    CoversStep(img, img', u.disk, u.disk + u.len);
    forall q, s, x | q in img' && s in files && g.stripe < q.off && img'[q].Holds(x) && files[s].Holds(x)
      ensures img'[q] == files[s]
    {
      if q == r { assert s == f; }
    }
  }

  /** A stretch between two such extents, as create_image_file_range records it. */
  lemma AddRange(g: Geometry, used: set<nat>, files: Refs, img: Refs, last: nat, to: nat, es: seq<Extent>)
    requires FilesOk(g, used, files) && ImageUpTo(g, used, files, img, last)
    requires g.stripe < last <= to <= g.total
    requires Records(g, UsedIdentity(used, last, to), es, last, to)
    requires forall x: nat :: last <= x < to ==> !Live(files, x)
    ensures DistinctFiles(es)
    ensures ImageUpTo(g, used, files, img + Pieces(ImageRef(0), es), to)
  {
    hide Records, UsedIdentity, Pieces, Live;
    assert Tiles(es, last, to) by { RecordsTiles(g, UsedIdentity(used, last, to), es, last, to); }
    TilesDistinct(es, last, to);
    hide Tiles, DistinctFiles, FilesOk;
    var ps := Pieces(ImageRef(0), es);
    forall q | q in ps ensures ImageItem(g, used, q, ps[q]) && last <= q.off && q.off + ps[q].len <= to {
      RangeItem(g, used, last, to, es, q);
    }
    RangeApart(g, used, files, img, last, to, es);
    RangeCovers(g, UsedIdentity(used, last, to), img, last, to, es);
    RangeJoin(g, used, files, img, ps, last, to);
  }

  /** The image so far and the items behind it. */
  lemma RangeJoin(g: Geometry, used: set<nat>, files: Refs, img: Refs, ps: Refs, last: nat, to: nat)
    requires ImageUpTo(g, used, files, img, last) && g.stripe < last <= to <= g.total
    requires forall q :: q in ps ==> ImageItem(g, used, q, ps[q]) && last <= q.off && q.off + ps[q].len <= to
    requires FilesApart(img + ps) && (forall i: nat :: last <= i < to ==> ImageCovers(img + ps, i))
    requires forall x: nat :: last <= x < to ==> !Live(files, x)
    ensures ImageUpTo(g, used, files, img + ps, to)
  {
    hide ImageItem, ImageCovers, Live, FilesApart;
    ApartFromRange(g, used, files, img, ps, last, to);
    CoversStep(img, img + ps, last, to);
    RangeShared(g, used, files, img, ps, last, to);
    RangeDistinct(g, img, ps, last);
  }

  lemma ApartFromRange(g: Geometry, used: set<nat>, files: Refs, img: Refs, ps: Refs, last: nat, to: nat)
    requires ImageUpTo(g, used, files, img, last)
    requires forall q :: q in ps ==> ImageItem(g, used, q, ps[q]) && last <= q.off && q.off + ps[q].len <= to
    ensures forall q :: q in img ==> q !in ps && (img + ps)[q] == img[q]
  {}

  lemma RangeDistinct(g: Geometry, img: Refs, ps: Refs, last: nat)
    requires CopiesDistinct(g, img) && g.stripe < last && forall q :: q in ps ==> last <= q.off
    ensures CopiesDistinct(g, img + ps)
  {}

  lemma RecordsTiles(g: Geometry, m: map<nat, nat>, es: seq<Extent>, from: nat, to: nat)
    requires Records(g, m, es, from, to)
    ensures Tiles(es, from, to)
  {
  }

  lemma PieceIn(r: Ref, es: seq<Extent>, j: nat)
    requires DistinctFiles(es) && j < |es|
    ensures var q := Ref(r.root, r.ino, es[j].file);
      q in Pieces(r, es) && Pieces(r, es)[q] == Run(es[j].disk, es[j].len)
  {}

  lemma RangeCovers(g: Geometry, m: map<nat, nat>, img: Refs, last: nat, to: nat, es: seq<Extent>)
    requires Records(g, m, es, last, to) && DistinctFiles(es)
    ensures forall i: nat :: last <= i < to ==> ImageCovers(img + Pieces(ImageRef(0), es), i)
  {
    hide Tiles, Pieces;
    RecordsTiles(g, m, es, last, to);
    hide Records;
    var ps := Pieces(ImageRef(0), es);
    forall i: nat | last <= i < to ensures ImageCovers(img + ps, i) {
      var j := TilesCover(es, last, to, i);
      PieceIn(ImageRef(0), es, j);
      var q := ImageRef(es[j].file);
      assert q in ps && ps[q] == Run(es[j].disk, es[j].len);
      assert q in img + ps;
    }
  }

  lemma RangeShared(g: Geometry, used: set<nat>, files: Refs, img: Refs, ps: Refs, last: nat, to: nat)
    requires DirectShared(g, files, img) && g.stripe < last
    requires forall q :: q in ps ==> ImageItem(g, used, q, ps[q]) && last <= q.off && q.off + ps[q].len <= to
    requires forall x: nat :: last <= x < to ==> !Live(files, x)
    ensures DirectShared(g, files, img + ps)
  {
    var img' := img + ps;
    forall q, s, x | q in img' && s in files && g.stripe < q.off && img'[q].Holds(x) && files[s].Holds(x)
      ensures img'[q] == files[s]
    {
      if q in ps {
        ImageHolds(g, used, q, ps[q], x);
        assert Live(files, x);
      }
    }
  }

  lemma RangeItem(g: Geometry, used: set<nat>, last: nat, to: nat, es: seq<Extent>, q: Ref)
    requires Records(g, UsedIdentity(used, last, to), es, last, to) && DistinctFiles(es)
    requires g.stripe < last && q in Pieces(ImageRef(0), es)
    ensures ImageItem(g, used, q, Pieces(ImageRef(0), es)[q])
    ensures last <= q.off && q.off + Pieces(ImageRef(0), es)[q].len <= to
  {
    var i := PieceOf(ImageRef(0), es, last, to, q);
    var m := UsedIdentity(used, last, to);
    assert Faithful(g, m, es[i]);
    if es[i].Hole() {
      forall b: nat | es[i].file <= b < es[i].End() ensures b !in used { assert es[i].Covers(b); }
    } else {
      assert es[i].Covers(es[i].file);
      forall b: nat | es[i].file <= b < es[i].End() ensures b in used { assert es[i].Covers(b); }
    }
  }

  lemma RangeApart(g: Geometry, used: set<nat>, files: Refs, img: Refs, last: nat, to: nat, es: seq<Extent>)
    requires ImageUpTo(g, used, files, img, last)
    requires g.stripe < last && Records(g, UsedIdentity(used, last, to), es, last, to) && DistinctFiles(es)
    ensures FilesApart(img + Pieces(ImageRef(0), es))
  {
    var ps := Pieces(ImageRef(0), es);
    var img' := img + ps;
    RecordsTiles(g, UsedIdentity(used, last, to), es, last, to);
    hide Records, UsedIdentity, Pieces, Tiles, CopiesDistinct, DirectShared, ImageCovers;
    forall r, s | r in img' && s in img' && r != s && r.root == s.root && r.ino == s.ino
      ensures r.off + img'[r].len <= s.off || s.off + img'[s].len <= r.off
    {
      if r in ps { RangeItem(g, used, last, to, es, r); }
      if s in ps { RangeItem(g, used, last, to, es, s); }
      if r in ps && s in ps {
        var i := PieceOf(ImageRef(0), es, last, to, r);
        var j := PieceOf(ImageRef(0), es, last, to, s);
        if i < j { TilesOrdered(es, last, to, i, j); } else { TilesOrdered(es, last, to, j, i); }
      }
    }
  }

  /** Sector `i` of the image file is read from sector `d`. */
  ghost predicate ImageAt(refs: Refs, i: nat, d: nat) {
    At(refs, FileBlock(ImageTree, IMAGE_INO, i), d)
  }

  ghost predicate ImageHas(refs: Refs, i: nat) {
    exists d :: ImageAt(refs, i, d)
  }

  /** What the image lets a reader see: every sector of ext2, with its contents, and
      any sector read from elsewhere is one of the first. */
  ghost predicate ImageReads(g: Geometry, used: set<nat>, disk0: seq<Content>, disk: seq<Content>, refs: Refs) {
    && |disk0| == |disk| == g.total
    && (forall i: nat :: i < g.total && (i in used || i <= g.stripe) ==> ImageHas(refs, i))
    && (forall i: nat, d: nat :: ImageAt(refs, i, d) ==>
          i < g.total && 0 < d < g.total && disk[d] == disk0[i] && (d == i || i <= g.stripe))
  }

  lemma ImageComplete(g: Geometry, used: set<nat>, files: Refs, img: Refs, disk0: seq<Content>, disk: seq<Content>)
    requires g.Valid() && FilesOk(g, used, files) && ImageUpTo(g, used, files, img, g.total)
    requires Intact(g, used, disk0, disk) && CopiesHold(g, img, disk0, disk)
    ensures ImageReads(g, used, disk0, disk, files + img)
    ensures ImageShape(g, files + img)
  {
    hide FilesOk, ImageUpTo, CopiesHold, Intact, ImageItem, Through;
    var refs := files + img;
    ItemsOfImage(g, used, files, img);
    IntactSized(g, used, disk0, disk);
    forall r | r in refs && r.root == ImageTree
      ensures r.ino == 0 && r.off + refs[r].len <= g.total && (0 < refs[r].disk ==> g.Recordable(r.off, refs[r].len))
    {
      ItemShape(g, used, r, img[r]);
    }
    forall i: nat | i < g.total ensures ImageCovers(refs, i) && (i in used || i <= g.stripe ==> ImageHas(refs, i)) {
      BlockInImage(g, used, files, img, i);
    }
    forall i: nat, d: nat | ImageAt(refs, i, d)
      ensures i < g.total && 0 < d < g.total && disk[d] == disk0[i] && (d == i || i <= g.stripe)
    {
      BlockRead(g, used, files, img, disk0, disk, i, d);
    }
  }

  lemma IntactSized(g: Geometry, used: set<nat>, disk0: seq<Content>, disk: seq<Content>)
    requires Intact(g, used, disk0, disk)
    ensures |disk0| == |disk| == g.total
  {}

  lemma ItemsOfImage(g: Geometry, used: set<nat>, files: Refs, img: Refs)
    requires FilesOk(g, used, files) && ImageUpTo(g, used, files, img, g.total)
    ensures forall r :: r in files + img && r.root == ImageTree ==>
      r in img && (files + img)[r] == img[r] && ImageItem(g, used, r, img[r]) && r.off + img[r].len <= g.total
    ensures forall i: nat :: i < g.total ==> ImageCovers(img, i)
  {}

  lemma ItemShape(g: Geometry, used: set<nat>, r: Ref, u: Run)
    requires g.Valid() && ImageItem(g, used, r, u) && r.off + u.len <= g.total
    ensures r.ino == 0 && (0 < u.disk ==> g.Recordable(r.off, u.len))
  {
    if r.off <= g.stripe { SingleRecordable(g, r.off); }
  }

  lemma BlockInImage(g: Geometry, used: set<nat>, files: Refs, img: Refs, i: nat)
    requires FilesOk(g, used, files) && ImageUpTo(g, used, files, img, g.total) && i < g.total
    ensures ImageCovers(files + img, i) && (i in used || i <= g.stripe ==> ImageHas(files + img, i))
  {
    hide FilesOk, ImageUpTo;
    var refs := files + img;
    ItemsOfImage(g, used, files, img);
    assert ImageCovers(img, i);
    var r :| r in img && r.root == ImageTree && r.off <= i < r.off + img[r].len;
    assert r in refs && refs[r] == img[r];
    if i in used || i <= g.stripe {
      assert Through(refs, r, FileBlock(ImageTree, IMAGE_INO, i), refs[r].disk + (i - r.off));
      assert ImageAt(refs, i, refs[r].disk + (i - r.off));
    }
  }

  lemma BlockRead(g: Geometry, used: set<nat>, files: Refs, img: Refs, disk0: seq<Content>, disk: seq<Content>, i: nat,
                  d: nat)
    requires FilesOk(g, used, files) && ImageUpTo(g, used, files, img, g.total)
    requires Intact(g, used, disk0, disk) && CopiesHold(g, img, disk0, disk) && ImageAt(files + img, i, d)
    ensures i < g.total && 0 < d < g.total == |disk| == |disk0| && disk[d] == disk0[i] && (d == i || i <= g.stripe)
  {
    hide FilesOk, ImageUpTo;
    ItemsOfImage(g, used, files, img);
    var r :| Through(files + img, r, FileBlock(ImageTree, IMAGE_INO, i), d);
    assert img[r].Holds(d);
    ImageHolds(g, used, r, img[r], d);
  }

  /** Each of the two trees refers to an extent on reserved sectors at most once. */
  lemma ImageOnePerTree(g: Geometry, used: set<nat>, files: Refs, img: Refs)
    requires FilesOk(g, used, files) && ImageUpTo(g, used, files, img, g.total)
    ensures OnePerTree(g, files + img)
  {
    hide ImageUpTo;
    var refs := files + img;
    ItemsOfImage(g, used, files, img);
    forall q, r | q in refs && r in refs && q.root == r.root && refs[q] == refs[r] && 0 < refs[q].disk &&
      Reserved(g, refs[q].disk)
      ensures q == r
    {
      var d := refs[q].disk;
      if q.root == ImageTree {
        assert ImageItem(g, used, q, img[q]) && ImageItem(g, used, r, img[r]);
        ImageHolds(g, used, q, img[q], d);
        ImageHolds(g, used, r, img[r], d);
      } else {
        FileItem(g, used, files, img, q);
        FileItem(g, used, files, img, r);
        assert files[q].Holds(d) && files[r].Holds(d);
      }
    }
  }

  lemma FileItem(g: Geometry, used: set<nat>, files: Refs, img: Refs, q: Ref)
    requires FilesOk(g, used, files) && ImageUpTo(g, used, files, img, g.total) && q in files + img && q.root == FsTree
    ensures q in files && (files + img)[q] == files[q] && 0 < files[q].len
  {
    assert q !in img;
    assert RunOk(g, files[q]);
  }
}
