/**
  do_rollback: rebuild the ext2 file system from the image file, and the
  end-to-end law that rolling back a conversion restores every ext2 block.
 */
module Rollback {
  import opened Basics
  import opened Layout
  import opened Tiling
  import opened RefTree
  import opened View
  import opened Relocation
  import opened Image
  import opened Accounting
  import opened Allocator
  import opened Convert

  /** What a finished conversion leaves for a rollback: every ext2 sector is
      readable through the image, from a sector that rollback will not write, and
      the ones read from elsewhere are reserved. */
  ghost predicate Converted(g: Geometry, used: set<nat>, disk0: seq<Content>, disk: seq<Content>, refs: Refs) {
    && |disk0| == |disk| == g.total
    && ImageShape(g, refs)
    && (forall i: nat :: i < g.total && (i in used || i <= g.stripe) ==> ImageHas(refs, i))
    && (forall i: nat, d: nat :: ImageAt(refs, i, d) ==>
          && i < g.total && 0 < d < g.total
          && disk[d] == disk0[i]
          && !Reserved(g, d) && (d != i ==> Reserved(g, i)))
  }

  lemma ConvertedSized(g: Geometry, used: set<nat>, disk0: seq<Content>, disk: seq<Content>, refs: Refs)
    requires Converted(g, used, disk0, disk, refs)
    ensures |disk0| == |disk| == g.total
  {
  }

  lemma CleanupConverted(g: Geometry, used: set<nat>, disk0: seq<Content>, disk1: seq<Content>, refs1: Refs,
                         disk2: seq<Content>, refs2: Refs)
    requires g.Valid() && g.groups[0].system && g.stripe < g.groups[0].len
    requires ImageReads(g, used, disk0, disk1, refs1) && SameView(g, refs1, disk1, refs2, disk2)
    requires ImageShape(g, refs2) && |disk2| == g.total
    requires forall s :: Live(refs2, s) ==> !Reserved(g, s)
    requires WellFormed(g, refs2)
    ensures Converted(g, used, disk0, disk2, refs2)
  {
    forall i: nat | i < g.total && (i in used || i <= g.stripe) ensures ImageHas(refs2, i) {
      assert ImageHas(refs1, i);
      var d :| ImageAt(refs1, i, d);
      assert Mapped(refs1, FileBlock(ImageTree, IMAGE_INO, i));
      var e :| At(refs2, FileBlock(ImageTree, IMAGE_INO, i), e);
      assert ImageAt(refs2, i, e);
    }
    forall i: nat, e: nat | ImageAt(refs2, i, e)
      ensures i < g.total && 0 < e < g.total && disk2[e] == disk0[i] && !Reserved(g, e) && (e != i ==> Reserved(g, i))
    {
      var p := FileBlock(ImageTree, IMAGE_INO, i);
      assert Mapped(refs2, p);
      var d :| At(refs1, p, d);
      assert ImageAt(refs1, i, d);
      assert SameBlock(g, disk1, disk2, d, e);
      AtLive(refs2, p, e);
      InBounds(g, refs2, p, e);
      if i <= g.stripe { assert g.groups[0].Contains(i); }
    }
  }

  /** io_tree: a block to restore and the sector that holds its backup. */
  ghost predicate Restores(tree: seq<Extent>, b: nat, d: nat) {
    exists i :: 0 <= i < |tree| && tree[i].Covers(b) && d == tree[i].disk + (b - tree[i].file)
  }

  ghost predicate Restored(tree: seq<Extent>, b: nat) { exists d :: Restores(tree, b, d) }

  ghost predicate TreeOk(tree: seq<Extent>, total: nat) {
    && (forall i :: 0 <= i < |tree| ==> tree[i].End() <= total && tree[i].disk + tree[i].len <= total)
    && (forall i, j :: 0 <= i < j < |tree| ==> tree[i].End() <= tree[j].file)
  }

  /** test_range_bit on one sector of io_tree. */
  predicate BackedUp(tree: seq<Extent>, b: nat) {
    exists i | 0 <= i < |tree| :: tree[i].Covers(b)
  }

  /** Copy sources never meet copy destinations. */
  ghost predicate SourcesApart(tree: seq<Extent>) {
    forall b, d, d' :: Restores(tree, b, d) && Restores(tree, d, d') ==> false
  }

  /** The blocks in `done` hold their backups, all others are as before. */
  ghost predicate PutBackOn(stripe: nat, tree: seq<Extent>, before: seq<Content>, after: seq<Content>, done: set<nat>) {
    && |before| == |after|
    && (forall b: nat :: b < |after| && b !in done ==> after[b] == before[b])
    && (forall b :: b in done ==> b < |after| && b != stripe && Restored(tree, b))
    && (SourcesApart(tree) ==>
          forall b: nat, d: nat :: b in done && d < |after| && Restores(tree, b, d) ==> after[b] == before[d])
  }

  class Device {
    const g: Geometry
    const refs: Refs
    var disk: seq<Content>
    /** The sectors written, in order. */
    ghost var log: seq<nat>

    ghost predicate Valid()
      reads this
    {
      && g.Valid() && |disk| == g.total && g.stripe < g.total
      && FilesApart(refs) && RunsOk(g, refs)
    }

    constructor (g: Geometry, refs: Refs, disk: seq<Content>)
      requires g.Valid() && |disk| == g.total && g.stripe < g.total && FilesApart(refs) && RunsOk(g, refs)
      ensures Valid() && this.g == g && this.refs == refs && this.disk == disk && log == []
    {
      this.g, this.refs, this.disk, this.log := g, refs, disk, [];
    }

    method Write(s: nat, c: Content)
      requires Valid() && s < g.total
      modifies this
      ensures Valid() && disk == old(disk)[s := c] && log == old(log) + [s]
    {
      disk := disk[s := c];
      log := log + [s];
    }

    /** The scan of the image file that builds the mapping of relocated blocks. */
    method BuildMapping() returns (ok: bool, tree: seq<Extent>)
      requires Valid()
      ensures TreeOk(tree, g.total)
      ensures forall b: nat, d: nat :: Restores(tree, b, d) ==> ImageAt(refs, b, d) && b != d
      ensures ok ==> forall b: nat, d: nat :: b < g.total && ImageAt(refs, b, d) && b != d ==> Restores(tree, b, d)
      ensures ImageShape(g, refs) && MovedReserved() ==> ok
    {
      hide ImageShape, MovedReserved, ImageAt, Restores, RunOk, Geometry.TouchesSuper, TreeOk;
      assert TreeOk([], g.total) by { NoTree(); }
      tree := [];
      NothingRestored();
      var offset := 0;
      while offset < g.total
        invariant TreeOk(tree, g.total) && (forall i :: 0 <= i < |tree| ==> tree[i].End() <= offset)
        invariant forall b: nat, d: nat :: Restores(tree, b, d) ==> ImageAt(refs, b, d) && b != d
        invariant forall b: nat, d: nat :: b < offset && ImageAt(refs, b, d) && b != d ==> Restores(tree, b, d)
        invariant forall r :: r in refs && r.root == ImageTree && r.ino == IMAGE_INO ==>
          offset <= r.off || r.off + refs[r].len <= offset
        decreases g.total - offset
      {
        var key := ImageRef(offset);
        if ImageShape(g, refs) { NextKey(offset); }
        if key !in refs {
          assert !(ImageShape(g, refs) && MovedReserved());
          break;
        }
        var u := refs[key];
        RunFine(key);
        Scanned(offset, u);
        if u.disk != 0 && u.disk != offset {
          if ImageShape(g, refs) && MovedReserved() { Accepted(offset, u); }
          var f1, c1 := LookupBlockGroup(g, offset);
          var f2, c2 := LookupBlockGroup(g, offset + u.len - 1);
          if !f1 || !f2 || c1 != c2 {
            assert !(ImageShape(g, refs) && MovedReserved());
            break;
          }
          var touches := IntersectWithSuper(g, offset, u.len);
          if !g.groups[c1].system && !touches {
            assert !(ImageShape(g, refs) && MovedReserved());
            break;
          }
          MappingStep(tree, offset, u);
          TreeMore(tree, offset, u);
          tree := tree + [Extent(offset, u.disk, u.len)];
        }
        offset := offset + u.len;
      }
      ok := g.total <= offset;
    }

    /** Image blocks read from elsewhere are reserved ones. */
    ghost predicate MovedReserved() {
      forall i: nat, d: nat :: ImageAt(refs, i, d) && d != i ==> Reserved(g, i)
    }

    lemma NextKey(offset: nat)
      requires Valid() && ImageShape(g, refs) && offset < g.total
      requires forall r :: r in refs && r.root == ImageTree && r.ino == IMAGE_INO ==>
        offset <= r.off || r.off + refs[r].len <= offset
      ensures ImageRef(offset) in refs
    {
      assert ImageCovers(refs, offset);
      var r :| r in refs && r.root == ImageTree && r.off <= offset < r.off + refs[r].len;
      assert r == ImageRef(offset);
    }

    /** The checks on a relocated item succeed. */
    lemma Accepted(offset: nat, u: Run)
      requires Valid() && ImageShape(g, refs) && MovedReserved()
      requires ImageRef(offset) in refs && refs[ImageRef(offset)] == u && u.disk != 0 && u.disk != offset
      ensures g.OneGroup(offset, u.len) && (g.InSystem(offset) || g.TouchesSuper(offset, u.len))
      ensures offset + u.len <= g.total
      ensures forall i: nat, j: nat :: i < |g.groups| && j < |g.groups| ==>
        g.groups[i].Contains(offset) && g.groups[j].Contains(offset + u.len - 1) ==> i == j
    {
      assert RunOk(g, u);
      assert Through(refs, ImageRef(offset), FileBlock(ImageTree, IMAGE_INO, offset), u.disk);
      assert ImageAt(refs, offset, u.disk);
      assert Reserved(g, offset);
      var c: nat :| c < |g.groups| && g.groups[c].start <= offset && offset + u.len <= g.groups[c].End();
      forall i: nat, j: nat | i < |g.groups| && j < |g.groups| && g.groups[i].Contains(offset) &&
        g.groups[j].Contains(offset + u.len - 1)
        ensures i == j
      {
        g.GroupUnique(i, c, offset);
        g.GroupUnique(j, c, offset + u.len - 1);
      }
    }

    /** The blocks of one image item. */
    lemma Scanned(offset: nat, u: Run)
      requires Valid() && ImageRef(offset) in refs && refs[ImageRef(offset)] == u
      ensures forall b: nat, d: nat :: offset <= b < offset + u.len ==>
        (ImageAt(refs, b, d) <==> 0 < u.disk && d == u.disk + (b - offset))
    {
      forall b: nat, d: nat | offset <= b < offset + u.len
        ensures ImageAt(refs, b, d) <==> 0 < u.disk && d == u.disk + (b - offset)
      {
        var p := FileBlock(ImageTree, IMAGE_INO, b);
        if 0 < u.disk {
          assert Through(refs, ImageRef(offset), p, u.disk + (b - offset));
          if ImageAt(refs, b, d) { AtUnique(refs, p, d, u.disk + (b - offset)); }
        }
      }
    }

    lemma RunFine(r: Ref)
      requires Valid() && r in refs
      ensures RunOk(g, refs[r]) && 0 < refs[r].len && (0 < refs[r].disk ==> refs[r].disk + refs[r].len <= g.total)
    {}

    lemma TreeMore(tree: seq<Extent>, offset: nat, u: Run)
      requires TreeOk(tree, g.total) && (forall i :: 0 <= i < |tree| ==> tree[i].End() <= offset)
      requires offset + u.len <= g.total && u.disk + u.len <= g.total
      ensures var tree' := tree + [Extent(offset, u.disk, u.len)];
        TreeOk(tree', g.total) && forall i :: 0 <= i < |tree'| ==> tree'[i].End() <= offset + u.len
    {}

    lemma NoTree()
      ensures TreeOk([], g.total)
    {}

    lemma NothingRestored()
      ensures forall b: nat, d: nat :: !Restores([], b, d)
    {}

    lemma MappingStep(tree: seq<Extent>, offset: nat, u: Run)
      requires forall i :: 0 <= i < |tree| ==> tree[i].End() <= offset
      ensures forall b: nat, d: nat :: Restores(tree + [Extent(offset, u.disk, u.len)], b, d) <==>
        Restores(tree, b, d) || (offset <= b < offset + u.len && d == u.disk + (b - offset))
    {
      var tree' := tree + [Extent(offset, u.disk, u.len)];
      forall b: nat, d: nat | Restores(tree, b, d) || (offset <= b < offset + u.len && d == u.disk + (b - offset))
        ensures Restores(tree', b, d)
      {
        if Restores(tree, b, d) {
          var i :| 0 <= i < |tree| && tree[i].Covers(b) && d == tree[i].disk + (b - tree[i].file);
          assert tree'[i] == tree[i];
        } else {
          assert tree'[|tree|].Covers(b);
        }
      }
    }

    ghost predicate PutBack(tree: seq<Extent>, before: seq<Content>, done: set<nat>)
      reads this
    {
      PutBackOn(g.stripe, tree, before, disk, done)
    }

    lemma RestoresUnique(tree: seq<Extent>, b: nat, d: nat, d': nat)
      requires TreeOk(tree, g.total) && Restores(tree, b, d) && Restores(tree, b, d')
      ensures d == d'
    {
    }

    /** One block copied back from its backup. */
    method CopySector(ghost tree: seq<Extent>, ghost before: seq<Content>, ghost done: set<nat>, b: nat, d: nat)
      requires Valid() && TreeOk(tree, g.total) && PutBack(tree, before, done)
      requires Restores(tree, b, d) && b != g.stripe && b < g.total && d < g.total && b !in done
      modifies this
      ensures Valid() && PutBack(tree, before, done + {b}) && log == old(log) + [b]
    {
      if SourcesApart(tree) {
        assert d !in done;
        forall x: nat | Restores(tree, b, x) ensures x == d { RestoresUnique(tree, b, x, d); }
      }
      Write(b, disk[d]);
    }

    /** One entry of io_tree. */
    method CopyEntry(tree: seq<Extent>, i: nat, ghost before: seq<Content>, ghost done: set<nat>)
      returns (found: bool, sb: nat, ghost done': set<nat>)
      requires Valid() && TreeOk(tree, g.total) && PutBack(tree, before, done) && i < |tree|
      requires forall b :: b in done ==> !tree[i].Covers(b)
      modifies this
      ensures Valid() && PutBack(tree, before, done') && done <= done'
      ensures forall b :: b in done' ==> b in done || tree[i].Covers(b)
      ensures forall b: nat :: tree[i].Covers(b) && b != g.stripe ==> b in done'
      ensures found <==> tree[i].Covers(g.stripe)
      ensures found ==> sb == tree[i].disk + (g.stripe - tree[i].file)
      ensures Appended(old(log), log)
    {
      hide SourcesApart, TreeOk, PutBackOn, Valid;
      found, sb, done' := false, 0, done;
      var start, bytenr := tree[i].file, tree[i].disk;
      while start < tree[i].End()
        invariant tree[i].file <= start <= tree[i].End() && bytenr == tree[i].disk + (start - tree[i].file)
        invariant Valid() && PutBack(tree, before, done') && done <= done'
        invariant forall b :: b in done' ==> b in done || tree[i].file <= b < start
        invariant forall b: nat :: tree[i].file <= b < start && b != g.stripe ==> b in done'
        invariant found <==> tree[i].file <= g.stripe < start
        invariant found ==> sb == tree[i].disk + (g.stripe - tree[i].file)
        invariant Appended(old(log), log)
      {
        if start == g.stripe {
          found, sb := true, bytenr;
        } else {
          EntryRestores(tree, i, start);
          CopySector(tree, before, done', start, bytenr);
          done' := done' + {start};
        }
        start, bytenr := start + 1, bytenr + 1;
      }
    }

    lemma EntryRestores(tree: seq<Extent>, i: nat, b: nat)
      requires TreeOk(tree, g.total) && i < |tree| && tree[i].Covers(b)
      ensures Restores(tree, b, tree[i].disk + (b - tree[i].file)) && b < g.total
      ensures tree[i].disk + (b - tree[i].file) < g.total
    {
    }

    /** The loop over io_tree: every backed-up block but the one at 64K is copied
        back; the place of that one's backup is remembered. */
    method CopyAllBack(tree: seq<Extent>) returns (found: bool, sb: nat, ghost done: set<nat>)
      requires Valid() && TreeOk(tree, g.total)
      modifies this
      ensures Valid() && PutBack(tree, old(disk), done)
      ensures forall b: nat :: Restored(tree, b) && b != g.stripe ==> b in done
      ensures found <==> Restored(tree, g.stripe)
      ensures found ==> Restores(tree, g.stripe, sb) && sb < g.total
      ensures Appended(old(log), log)
    {
      hide PutBackOn, Valid, SourcesApart;
      found, sb, done := false, 0, {};
      assert PutBack(tree, disk, done) by { NothingPutBack(tree); }
      var i := 0;
      while i < |tree|
        invariant i <= |tree| && Valid() && PutBack(tree, old(disk), done)
        invariant forall q, b: nat :: 0 <= q < i && tree[q].Covers(b) && b != g.stripe ==> b in done
        invariant forall b, q :: b in done && i <= q < |tree| ==> b < tree[q].file
        invariant found ==> Restores(tree, g.stripe, sb) && sb < g.total
        invariant !found ==> forall q :: 0 <= q < i ==> !tree[q].Covers(g.stripe)
        invariant Appended(old(log), log)
      {
        var hit: bool, at: nat;
        hit, at, done := CopyEntry(tree, i, old(disk), done);
        if hit {
          EntryRestores(tree, i, g.stripe);
          found, sb := true, at;
        }
        i := i + 1;
      }
    }

    lemma NothingPutBack(tree: seq<Extent>)
      ensures PutBack(tree, disk, {})
    {
    }

    /** Writes that do not touch the super block at 64K. */
    ghost predicate Appended(before: seq<nat>, after: seq<nat>) {
      before <= after && forall i :: |before| <= i < |after| ==> after[i] != g.stripe
    }

    /** Zero the super block mirrors other than the one at 64K. */
    method ZeroMirrors()
      requires Valid()
      modifies this
      ensures Valid() && Appended(old(log), log)
      ensures forall s: nat :: s < g.total && !g.InSuper(s) ==> disk[s] == old(disk)[s]
      ensures disk[g.stripe] == old(disk)[g.stripe]
      ensures forall m: nat :: 1 <= m < SUPER_MIRROR_MAX && g.SuperStripe(m) < g.total ==> disk[g.SuperStripe(m)] == 0
    {
      var m: nat := 1;
      while m < SUPER_MIRROR_MAX
        invariant 1 <= m <= SUPER_MIRROR_MAX && Valid() && Appended(old(log), log)
        invariant forall s: nat :: s < g.total && !g.InSuper(s) ==> disk[s] == old(disk)[s]
        invariant disk[g.stripe] == old(disk)[g.stripe]
        invariant forall k: nat :: 1 <= k < m ==> g.SuperStripe(k) < g.total && disk[g.SuperStripe(k)] == 0
      {
        var s := g.SuperStripe(m);
        if g.total <= s {
          assert forall k: nat :: m <= k < SUPER_MIRROR_MAX ==> g.SuperStripe(m) <= g.SuperStripe(k);
          break;
        }
        assert g.InMirror(m, s);
        Write(s, 0);
        m := m + 1;
      }
    }

    /** do_rollback.  Nothing is written unless every check passes; the super block
        at 64K is written last and once; and a converted device gets all of ext2
        back. */
    method Rollback(ghost used: set<nat>, ghost disk0: seq<Content>) returns (ok: bool)
      requires Valid()
      modifies this
      ensures Valid()
      ensures !ok ==> disk == old(disk) && log == old(log)
      ensures ok ==> |old(log)| < |log| && log[|log| - 1] == g.stripe && Appended(old(log), log[..|log| - 1])
      ensures Converted(g, used, disk0, old(disk), refs) && g.groups[0].system && g.stripe < g.groups[0].len ==>
        ok && forall i: nat :: i < g.total && i in used ==> disk[i] == disk0[i]
    {
      hide Converted, TreeOk;
      var tree;
      ok, tree := BuildMapping();
      if Converted(g, used, disk0, disk, refs) { ConvertedMoved(used, disk0); }
      if !ok {
        return;
      }
      ok := forall i: nat | i <= g.stripe :: BackedUp(tree, i);
      if Converted(g, used, disk0, disk, refs) && g.groups[0].system && g.stripe < g.groups[0].len {
        FrontBackedUp(used, disk0, tree);
      }
      if !ok {
        return;
      }
      StripeRestored(tree);
      Restore(tree, used, disk0);
    }

    /** The writes of a rollback, once the checks have passed. */
    method Restore(tree: seq<Extent>, ghost used: set<nat>, ghost disk0: seq<Content>)
      requires Valid() && TreeOk(tree, g.total) && Restored(tree, g.stripe)
      requires forall b: nat, d: nat :: Restores(tree, b, d) ==> ImageAt(refs, b, d) && b != d
      requires forall b: nat, d: nat :: b < g.total && ImageAt(refs, b, d) && b != d ==> Restores(tree, b, d)
      modifies this
      ensures Valid()
      ensures |old(log)| < |log| && log[|log| - 1] == g.stripe && Appended(old(log), log[..|log| - 1])
      ensures Converted(g, used, disk0, old(disk), refs) ==>
        forall i: nat :: i < g.total && i in used ==> disk[i] == disk0[i]
    {
      hide Converted, TreeOk, PutBackOn, SourcesApart;
      ZeroMirrors();
      ghost var mid := disk;
      var found, sb;
      ghost var done;
      found, sb, done := CopyAllBack(tree);
      ghost var last, log1 := disk, log;
      Write(g.stripe, disk[sb]);
      assert log[..|log| - 1] == log1;
      if Converted(g, used, disk0, old(disk), refs) {
        ConvertedSized(g, used, disk0, old(disk), refs);
        forall i: nat | i < g.total && i in used ensures disk[i] == disk0[i] {
          BlockRestored(used, disk0, old(disk), mid, last, tree, done, sb, i);
        }
      }
    }

    lemma ConvertedMoved(used: set<nat>, disk0: seq<Content>)
      requires Converted(g, used, disk0, disk, refs)
      ensures ImageShape(g, refs) && MovedReserved()
    {
    }

    lemma FrontBackedUp(used: set<nat>, disk0: seq<Content>, tree: seq<Extent>)
      requires Valid() && Converted(g, used, disk0, disk, refs) && g.groups[0].system && g.stripe < g.groups[0].len
      requires forall b: nat, d: nat :: b < g.total && ImageAt(refs, b, d) && b != d ==> Restores(tree, b, d)
      ensures forall i: nat | i <= g.stripe :: BackedUp(tree, i)
    {
      forall i: nat | i <= g.stripe ensures BackedUp(tree, i) {
        assert ImageHas(refs, i);
        var d :| ImageAt(refs, i, d);
        assert g.groups[0].Contains(i);
        assert Reserved(g, i);
        assert Restores(tree, i, d);
      }
    }

    lemma StripeRestored(tree: seq<Extent>)
      requires forall i: nat | i <= g.stripe :: BackedUp(tree, i)
      ensures Restored(tree, g.stripe)
    {
      assert BackedUp(tree, g.stripe);
      var q :| 0 <= q < |tree| && tree[q].Covers(g.stripe);
      assert Restores(tree, g.stripe, tree[q].disk + (g.stripe - tree[q].file));
    }

    lemma ConvertedApart(used: set<nat>, disk0: seq<Content>, before: seq<Content>, tree: seq<Extent>)
      requires Converted(g, used, disk0, before, refs)
      requires forall b: nat, d: nat :: Restores(tree, b, d) ==> ImageAt(refs, b, d) && b != d
      ensures SourcesApart(tree)
    {
    }

    /** One ext2 block, followed through all writes of a rollback. */
    lemma BlockRestored(used: set<nat>, disk0: seq<Content>, before: seq<Content>, mid: seq<Content>,
                        last: seq<Content>, tree: seq<Extent>, done: set<nat>, sb: nat, i: nat)
      requires Valid() && Converted(g, used, disk0, before, refs) && TreeOk(tree, g.total)
      requires forall b: nat, d: nat :: Restores(tree, b, d) ==> ImageAt(refs, b, d) && b != d
      requires forall b: nat, d: nat :: b < g.total && ImageAt(refs, b, d) && b != d ==> Restores(tree, b, d)
      requires |before| == |mid| == |last| == g.total && i < g.total && i in used
      requires forall s: nat :: s < g.total && !g.InSuper(s) ==> mid[s] == before[s]
      requires PutBackOn(g.stripe, tree, mid, last, done)
      requires forall b: nat :: Restored(tree, b) && b != g.stripe ==> b in done
      requires Restores(tree, g.stripe, sb) && sb < g.total && disk == last[g.stripe := last[sb]]
      ensures disk[i] == disk0[i]
    {
      hide TreeOk, Restores, ImageShape, ImageAt;
      ConvertedApart(used, disk0, before, tree);
      assert ImageHas(refs, i);
      var d :| ImageAt(refs, i, d);
      if d == i {
        assert i !in done;
        assert i != g.stripe by { assert g.InMirror(0, g.stripe); }
      } else {
        assert Restores(tree, i, d);
        if i == g.stripe {
          RestoresUnique(tree, i, d, sb);
          assert sb !in done;
        }
      }
    }
  }

  /** What may be written after the conversion: everything but the sectors the image
      is read from. */
  lemma DisturbConverted(g: Geometry, used: set<nat>, disk0: seq<Content>, disk: seq<Content>, disk': seq<Content>,
                         refs: Refs)
    requires Converted(g, used, disk0, disk, refs) && |disk'| == g.total
    requires forall i: nat, d: nat :: ImageAt(refs, i, d) && d < g.total ==> disk'[d] == disk[d]
    ensures Converted(g, used, disk0, disk', refs)
  {
  }

  /** migrate_super_block: the btrfs super block goes to 64K, everything before it
      is zeroed. */
  method MigrateSuper(g: Geometry, disk: seq<Content>, superBlock: Content) returns (disk': seq<Content>)
    requires g.stripe < |disk|
    ensures |disk'| == |disk| && disk'[g.stripe] == superBlock
    ensures forall s: nat :: s < g.stripe ==> disk'[s] == 0
    ensures forall s: nat :: g.stripe < s < |disk| ==> disk'[s] == disk[s]
  {
    disk' := disk[g.stripe := superBlock];
    var s := 0;
    while s < g.stripe
      invariant s <= g.stripe && |disk'| == |disk| && disk'[g.stripe] == superBlock
      invariant forall t: nat :: t < s ==> disk'[t] == 0
      invariant forall t: nat :: g.stripe < t < |disk| ==> disk'[t] == disk[t]
    {
      disk' := disk'[s := 0];
      s := s + 1;
    }
  }

  lemma FrontSystem(g: Geometry, d: nat)
    requires g.groups != [] && g.groups[0].system && g.groups[0].start == 0 && g.stripe < g.groups[0].len
    ensures d <= g.stripe ==> Reserved(g, d)
  {
    if d <= g.stripe { assert g.groups[0].Contains(d); }
  }

  lemma MigrateConverted(g: Geometry, used: set<nat>, disk0: seq<Content>, disk: seq<Content>, disk': seq<Content>,
                         refs: Refs)
    requires g.groups != [] && g.groups[0].system && g.groups[0].start == 0 && g.stripe < g.groups[0].len
    requires Converted(g, used, disk0, disk, refs) && |disk'| == g.total
    requires forall s: nat :: g.stripe < s < |disk| ==> disk'[s] == disk[s]
    ensures Converted(g, used, disk0, disk', refs)
  {
    forall i: nat, d: nat | ImageAt(refs, i, d) && d < g.total ensures disk'[d] == disk[d] {
      FrontSystem(g, d);
      assert Reserved(g, d) ==> !ImageAt(refs, i, d);
    }
  }

  /** fixup_chunk_mapping, and rollback's own tree updates: any number of writes to
      sectors that the image does not use. */
  method LaterWrites(g: Geometry, refs: Refs, disk: seq<Content>) returns (disk': seq<Content>)
    requires |disk| == g.total
    ensures |disk'| == |disk|
    ensures forall i: nat, d: nat :: ImageAt(refs, i, d) && d < g.total ==> disk'[d] == disk[d]
  {
    disk' := disk;
    var n: nat := *;
    while 0 < n
      invariant |disk'| == |disk|
      invariant forall i: nat, d: nat :: ImageAt(refs, i, d) && d < g.total ==> disk'[d] == disk[d]
    {
      var c: Content := *;
      if 0 < g.total {
        var s: nat :| s < g.total;
        if forall r | r in refs :: r.root == ImageTree ==> !refs[r].Holds(s) {
          NotImage(refs, s);
          disk' := disk'[s := c];
        }
      }
      n := n - 1;
    }
  }

  lemma NotImage(refs: Refs, s: nat)
    requires forall r | r in refs :: r.root == ImageTree ==> !refs[r].Holds(s)
    ensures forall i: nat :: !ImageAt(refs, i, s)
  {
    forall i: nat, r | Through(refs, r, FileBlock(ImageTree, IMAGE_INO, i), s) ensures refs[r].Holds(s) {
    }
  }

  /** Every block of every file reads on `disk'`, through `refs'`, what it was on `disk`. */
  ghost predicate FilesRead(files: Refs, disk: seq<Content>, refs': Refs, disk': seq<Content>) {
    forall p, d: nat :: At(files, p, d) ==> ReadsAs(refs', disk', p, disk, d)
  }

  ghost predicate ReadsAs(refs': Refs, disk': seq<Content>, p: FileBlock, disk: seq<Content>, d: nat) {
    exists e: nat :: At(refs', p, e) && e < |disk'| && d < |disk| && disk'[e] == disk[d]
  }

  /** From the files of ext2 to the converted file system, block by block. */
  lemma FilesStillRead(g: Geometry, used: set<nat>, disk: seq<Content>, files: Refs, disk1: seq<Content>, refs1: Refs,
                       disk2: seq<Content>, refs2: Refs, disk3: seq<Content>)
    requires g.Valid() && g.groups[0].system && g.stripe < g.groups[0].len && FilesOk(g, used, files)
    requires Intact(g, used, disk, disk1) && SameView(g, refs1, disk1, refs2, disk2)
    requires forall r: Ref :: r.root == FsTree ==> (r in refs1 <==> r in files) && (r in refs1 ==> refs1[r] == files[r])
    requires forall s :: Live(refs2, s) ==> !Reserved(g, s)
    requires |disk3| == |disk2| == g.total && forall s: nat :: g.stripe < s < |disk2| ==> disk3[s] == disk2[s]
    ensures FilesRead(files, disk, refs2, disk3)
  {
    forall p, d: nat | At(files, p, d) ensures ReadsAs(refs2, disk3, p, disk, d) {
      var r :| Through(files, r, p, d);
      assert Through(refs1, r, p, d) && At(refs1, p, d);
      assert files[r].Holds(d) && Live(files, d);
      assert RunOk(g, files[r]);
      assert Mapped(refs1, p) && Mapped(refs2, p);
      var e: nat :| At(refs2, p, e);
      FrontSystem(g, e);
      AtLive(refs2, p, e);
      assert SameBlock(g, disk1, disk2, d, e);
    }
  }

  /** The rest of a successful conversion, some use of the new file system, and the rollback. */
  method MigrateAndRollBack(g: Geometry, used: set<nat>, disk0: seq<Content>, disk: seq<Content>, refs: Refs,
                            superBlock: Content)
    returns (rolledBack: bool, btrfs: seq<Content>, after: seq<Content>)
    requires g.Valid() && g.total <= U64_MAX && |disk| == |disk0| == g.total && g.stripe < g.total
    requires g.groups[0].system && g.stripe < g.groups[0].len
    requires Converted(g, used, disk0, disk, refs) && WellFormed(g, refs)
    ensures rolledBack && |after| == g.total && forall i: nat :: i < g.total && i in used ==> after[i] == disk0[i]
    ensures |btrfs| == g.total && btrfs[g.stripe] == superBlock
    ensures forall s: nat :: g.stripe < s < |disk| ==> btrfs[s] == disk[s]
  {
    hide Converted, WellFormed, FilesApart, RunsOk;
    btrfs := MigrateSuper(g, disk, superBlock);
    MigrateConverted(g, used, disk0, disk, btrfs, refs);
    var later := LaterWrites(g, refs, btrfs);
    DisturbConverted(g, used, disk0, btrfs, later, refs);
    assert FilesApart(refs) && RunsOk(g, refs) by { WellFormedParts(g, refs); }
    var dev := new Device(g, refs, later);
    rolledBack := dev.Rollback(used, disk0);
    after := dev.disk;
  }

  /** Conversion followed by rollback.  If the conversion succeeds, every file reads
      as before on the new file system, whose super block is in place; the rollback
      succeeds too, and every block that ext2 used holds what it held at the start.
      If the conversion gives up, ext2 was never touched, and the device was too full for
      the copies and `budget` more tree blocks. */
  method ConvertThenRollback(g: Geometry, used: set<nat>, firstDataBlock: nat, disk: seq<Content>, files: Refs,
                             trees: map<nat, Content>, budget: nat, superBlock: Content)
    returns (converted: bool, rolledBack: bool, after: seq<Content>, btrfs: seq<Content>, refs: Refs)
    requires g.Valid() && g.total <= U64_MAX && |disk| == g.total
    requires g.groups[0].system && g.stripe < g.groups[0].len
    requires FilesOk(g, used, files) && forall s :: s in trees ==> Writable(g, used, s)
    ensures |after| == g.total
    ensures forall i: nat :: i < g.total && i in used ==> after[i] == disk[i]
    ensures converted ==> rolledBack
    ensures converted ==> g.stripe < |btrfs| && btrfs[g.stripe] == superBlock && FilesRead(files, disk, refs, btrfs)
    ensures !converted ==> Crowded(g, used, firstDataBlock, |trees.Keys| + budget)
  {
    hide FilesRead, OnePerTree, Converter.Books, Converter.Few, Converter.NoRoom, Crowded, InitialFree;
    hide Converted, ImageReads, ImageShape, SameView, Intact, FilesOk, WellFormed, SpaceOk, MetaOk;
    assert WellFormed(g, files) && (forall r :: r in files ==> r.root == FsTree) &&
      (forall s: nat :: Live(files, s) ==> s in used) by {
      FilesOkParts(g, used, files);
    }
    var c := new Converter(g, used, firstDataBlock, disk, files, trees, budget);
    c.StartBooks();
    rolledBack := false;
    converted := c.CreateExt2Image();
    if converted {
      ghost var refs1, disk1 := c.refs, c.disk;
      converted := c.CleanupSysChunk();
      if converted {
        c.Sized();
        CleanupConverted(g, used, disk, disk1, refs1, c.disk, c.refs);
        assert g.stripe < g.total by { c.FrontReserved(g.stripe); }
        refs := c.refs;
        rolledBack, btrfs, after := MigrateAndRollBack(g, used, disk, c.disk, refs, superBlock);
        FilesStillRead(g, used, disk, files, disk1, refs1, c.disk, c.refs, btrfs);
        return;
      }
    }
    IntactUsed(g, used, disk, c.disk);
    after, btrfs, refs := c.disk, c.disk, c.refs;
  }

  lemma FilesOkParts(g: Geometry, used: set<nat>, files: Refs)
    requires FilesOk(g, used, files)
    ensures WellFormed(g, files) && (forall r :: r in files ==> r.root == FsTree)
    ensures forall s: nat :: Live(files, s) ==> s in used
  {
  }

  lemma WellFormedParts(g: Geometry, refs: Refs)
    requires WellFormed(g, refs)
    ensures FilesApart(refs) && RunsOk(g, refs)
  {
  }

  lemma IntactUsed(g: Geometry, used: set<nat>, disk0: seq<Content>, disk: seq<Content>)
    requires Intact(g, used, disk0, disk)
    ensures |disk| == g.total == |disk0| && forall i: nat :: i < g.total && i in used ==> disk[i] == disk0[i]
  {
  }
}
