/**
  What a reader of the two trees sees, and how relocation relates two states: each
  block keeps its contents, and blocks share a sector exactly when they did before.
 */
module View {
  import opened Layout
  import opened Tiling
  import opened RefTree

  type Content = int

  ghost predicate Mapped(refs: Refs, p: FileBlock) { exists d :: At(refs, p, d) }

  /** One block, before and after: same contents, and it left its sector only if
      that was reserved, for one that is not. */
  ghost predicate SameBlock(g: Geometry, disk: seq<Content>, disk': seq<Content>, d: nat, e: nat) {
    && d < |disk| && e < |disk'|
    && disk'[e] == disk[d]
    && (e == d || (Reserved(g, d) && !Reserved(g, e)))
  }

  /** Both trees read the same through the old and the new state. */
  ghost predicate SameView(g: Geometry, refs: Refs, disk: seq<Content>, refs': Refs, disk': seq<Content>) {
    && (forall p :: Mapped(refs, p) <==> Mapped(refs', p))
    && (forall p, d, e :: At(refs, p, d) && At(refs', p, e) ==> SameBlock(g, disk, disk', d, e))
    && (forall p, q, d, d', e, e' :: At(refs, p, d) && At(refs, q, d') && At(refs', p, e) && At(refs', q, e') ==>
          (d == d' <==> e == e'))
  }

  lemma SameViewRefl(g: Geometry, refs: Refs, disk: seq<Content>)
    requires WellFormed(g, refs) && |disk| == g.total
    ensures SameView(g, refs, disk, refs, disk)
  {
    forall p, d: nat, e: nat | At(refs, p, d) && At(refs, p, e) ensures d == e && d < |disk| {
      AtUnique(refs, p, d, e);
      InBounds(g, refs, p, d);
    }
  }

  lemma InBounds(g: Geometry, refs: Refs, p: FileBlock, d: nat)
    requires RunsOk(g, refs) && At(refs, p, d)
    ensures 0 < d < g.total
  {
    var r :| Through(refs, r, p, d);
    assert RunOk(g, refs[r]);
  }

  lemma SameViewTrans(g: Geometry, r0: Refs, k0: seq<Content>, r1: Refs, k1: seq<Content>, r2: Refs, k2: seq<Content>)
    requires SameView(g, r0, k0, r1, k1) && SameView(g, r1, k1, r2, k2)
    ensures SameView(g, r0, k0, r2, k2)
  {
    forall p, d, f | At(r0, p, d) && At(r2, p, f) ensures SameBlock(g, k0, k2, d, f) {
      assert Mapped(r0, p);
      var e :| At(r1, p, e);
      assert SameBlock(g, k0, k1, d, e) && SameBlock(g, k1, k2, e, f);
    }
    forall p, q, d, d', f, f' | At(r0, p, d) && At(r0, q, d') && At(r2, p, f) && At(r2, q, f')
      ensures d == d' <==> f == f'
    {
      assert Mapped(r0, p) && Mapped(r0, q);
      var e :| At(r1, p, e);
      var e' :| At(r1, q, e');
      assert d == d' <==> e == e';
    }
  }

  /** Mid-way through clearing a range: every block is where it was, or at the copy
      of its old sector. */
  ghost predicate Tracks(refs: Refs, refs': Refs, reloc: map<nat, nat>) {
    && (forall p, d :: At(refs, p, d) ==> At(refs', p, d) || (d in reloc && At(refs', p, reloc[d])))
    && (forall p, e :: At(refs', p, e) ==> Mapped(refs, p))
  }

  lemma TracksRefl(refs: Refs)
    ensures Tracks(refs, refs, map[])
  {
    forall p, e | At(refs, p, e) ensures Mapped(refs, p) {
    }
  }

  /** No block is read from a sector of [start, end). */
  ghost predicate Clean(refs: Refs, start: nat, end: nat) {
    forall s: nat :: start <= s < end ==> !Live(refs, s)
  }

  /** Copies used by relocation: faithful, one-to-one, and never data before. */
  ghost predicate CopiesOk(g: Geometry, refs: Refs, disk: seq<Content>, disk': seq<Content>, reloc: map<nat, nat>) {
    && |disk| == |disk'| == g.total
    && (forall s :: s in reloc ==>
          s < g.total && Reserved(g, s) && reloc[s] < g.total && !Reserved(g, reloc[s]) && !Live(refs, reloc[s]) &&
            disk'[reloc[s]] == disk'[s])
    && (forall s, t :: s in reloc && t in reloc && reloc[s] == reloc[t] ==> s == t)
    && (forall s: nat :: s < g.total && Live(refs, s) ==> disk'[s] == disk[s])
  }

  /** When the old sectors of all copies are no longer read, the view is restored. */
  lemma TracksDone(g: Geometry, refs: Refs, disk: seq<Content>, refs': Refs, disk': seq<Content>, reloc: map<nat, nat>)
    requires WellFormed(g, refs) && FilesApart(refs')
    requires Tracks(refs, refs', reloc) && CopiesOk(g, refs, disk, disk', reloc)
    requires forall s :: s in reloc ==> !Live(refs', s)
    ensures SameView(g, refs, disk, refs', disk')
  {
    hide WellFormed, FilesApart, Tracks, CopiesOk, At, Live;
    forall p, d: nat, e: nat | At(refs, p, d) && At(refs', p, e) ensures SameBlock(g, disk, disk', d, e) {
      TracksBlock(g, refs, disk, refs', disk', reloc, p, d, e);
    }
    forall p, q, d: nat, d': nat, e: nat, e': nat | At(refs, p, d) && At(refs, q, d') && At(refs', p, e) &&
      At(refs', q, e')
      ensures d == d' <==> e == e'
    {
      TracksBlock(g, refs, disk, refs', disk', reloc, p, d, e);
      TracksBlock(g, refs, disk, refs', disk', reloc, q, d', e');
      DestInjective(g, refs, disk, disk', reloc, d, d');
    }
    forall p ensures Mapped(refs, p) <==> Mapped(refs', p) {
      TracksMapped(refs, refs', reloc, p);
    }
  }

  lemma TracksMapped(refs: Refs, refs': Refs, reloc: map<nat, nat>, p: FileBlock)
    requires Tracks(refs, refs', reloc)
    ensures Mapped(refs, p) <==> Mapped(refs', p)
  {
    if Mapped(refs, p) {
      var d :| At(refs, p, d);
      assert At(refs', p, d) || At(refs', p, reloc[d]);
    }
  }

  ghost function Dest(reloc: map<nat, nat>, d: nat): nat { if d in reloc then reloc[d] else d }

  lemma DestInjective(g: Geometry, refs: Refs, disk: seq<Content>, disk': seq<Content>, reloc: map<nat, nat>, d: nat,
                      d': nat)
    requires CopiesOk(g, refs, disk, disk', reloc)
    requires Live(refs, d) && Live(refs, d')
    ensures d == d' <==> Dest(reloc, d) == Dest(reloc, d')
  {
  }

  lemma TracksBlock(g: Geometry, refs: Refs, disk: seq<Content>, refs': Refs, disk': seq<Content>, reloc: map<nat, nat>,
                     p: FileBlock, d: nat, e: nat)
    requires WellFormed(g, refs) && FilesApart(refs')
    requires Tracks(refs, refs', reloc) && CopiesOk(g, refs, disk, disk', reloc)
    requires forall s :: s in reloc ==> !Live(refs', s)
    requires At(refs, p, d) && At(refs', p, e)
    ensures e == Dest(reloc, d) && SameBlock(g, disk, disk', d, e) && Live(refs, d)
  {
    AtLive(refs, p, d);
    InBounds(g, refs, p, d);
    if At(refs', p, d) {
      AtLive(refs', p, d);
      AtUnique(refs', p, d, e);
    } else {
      AtUnique(refs', p, reloc[d], e);
    }
  }

  /** The image file covers the device, in items whose file range is recordable. */
  ghost predicate ImageShape(g: Geometry, refs: Refs) {
    && (forall r :: r in refs && r.root == ImageTree ==>
          r.ino == 0 && r.off + refs[r].len <= g.total && (0 < refs[r].disk ==> g.Recordable(r.off, refs[r].len)))
    && (forall i: nat :: i < g.total ==> ImageCovers(refs, i))
  }

  ghost predicate ImageCovers(refs: Refs, i: nat) {
    exists r :: r in refs && r.root == ImageTree && r.off <= i < r.off + refs[r].len
  }
}
