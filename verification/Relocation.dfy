/**
  What the relocator promises, as predicates and lemmas over plain values: which
  sectors may be written, which copies the relocation map records, and how one
  relocated reference changes what both trees read.
 */
module Relocation {
  import opened Layout
  import opened Tiling
  import opened RefTree
  import opened Allocator
  import opened View

  /** Sectors that the allocator may hand out, now or after a commit, hold no data
      of either tree; they lie outside super block stripes, and outside ext2's own
      blocks unless the SYSTEM rule keeps them from being handed out. */
  ghost predicate SpaceOk(g: Geometry, used: set<nat>, refs: Refs, spare: set<nat>) {
    forall s :: s in spare ==>
      s < g.total && !Live(refs, s) && !g.InSuper(s) && (g.InSystem(s) || s !in used)
  }

  /** A sector the converter may overwrite. */
  ghost predicate Writable(g: Geometry, used: set<nat>, s: nat) {
    0 < s < g.total && !Reserved(g, s) && s !in used
  }

  /** Tree blocks live on writable sectors that are neither data nor spare. */
  ghost predicate MetaOk(g: Geometry, used: set<nat>, refs: Refs, spare: set<nat>, meta: set<nat>) {
    forall s :: s in meta ==> Writable(g, used, s) && !Live(refs, s) && s !in spare
  }

  /** reloc_tree: old sector to new sector.  Each new sector is a faithful copy,
      belongs to one old sector only, and cannot be handed out again. */
  ghost predicate RelocOk(g: Geometry, used: set<nat>, disk: seq<Content>, spare: set<nat>, meta: set<nat>,
                          reloc: map<nat, nat>)
  {
    && |disk| == g.total
    && (forall s :: s in reloc ==>
          && s < g.total && Reserved(g, s)
          && Writable(g, used, reloc[s]) && reloc[s] !in spare && reloc[s] !in meta
          && disk[reloc[s]] == disk[s])
    && (forall s, t :: s in reloc && t in reloc && reloc[s] == reloc[t] ==> s == t)
  }

  /** ext2 is still intact: its blocks, and everything in reserved sectors. */
  ghost predicate Intact(g: Geometry, used: set<nat>, disk0: seq<Content>, disk: seq<Content>) {
    && |disk| == |disk0| == g.total
    && forall s: nat :: s < g.total && (s in used || Reserved(g, s)) ==> disk[s] == disk0[s]
  }

  /** Only writable sectors that were spare have changed. */
  ghost predicate OnlySpareChanged(g: Geometry, used: set<nat>, spare: set<nat>, a: seq<Content>, b: seq<Content>) {
    && |a| == |b| == g.total
    && forall s: nat :: s < g.total && a[s] != b[s] ==> s in spare && Writable(g, used, s)
  }

  lemma ChangeNothing(g: Geometry, used: set<nat>, spare: set<nat>, a: seq<Content>)
    requires |a| == g.total
    ensures OnlySpareChanged(g, used, spare, a, a)
  {
  }

  lemma ChangeMore(g: Geometry, used: set<nat>, spare: set<nat>, spare': set<nat>, a: seq<Content>, b: seq<Content>,
                   c: seq<Content>)
    requires OnlySpareChanged(g, used, spare, a, b) && OnlySpareChanged(g, used, spare', b, c)
    requires spare' <= spare
    ensures OnlySpareChanged(g, used, spare, a, c)
  {
  }

  /** New copies were made into sectors of `spare`. */
  ghost predicate CopiesFrom(reloc: map<nat, nat>, reloc': map<nat, nat>, spare: set<nat>) {
    forall s :: s in reloc' && s !in reloc ==> reloc'[s] in spare
  }

  lemma CopiesReserved(g: Geometry, used: set<nat>, disk: seq<Content>, spare: set<nat>, spare': set<nat>,
                       now: set<nat>, meta: set<nat>, reloc: map<nat, nat>, reloc': map<nat, nat>)
    requires CopiesFrom(reloc, reloc', spare') && SpareGrewReserved(g, spare, spare')
    requires RelocOk(g, used, disk, now, meta, reloc')
    ensures CopiesFrom(reloc, reloc', spare)
  {
  }

  /** Spare sets that differ in reserved sectors only. */
  ghost predicate SpareGrewReserved(g: Geometry, a: set<nat>, b: set<nat>) {
    forall s :: s in b && s !in a ==> Reserved(g, s)
  }

  lemma ChangeReserved(g: Geometry, used: set<nat>, spare: set<nat>, spare': set<nat>, a: seq<Content>, b: seq<Content>)
    requires SpareGrewReserved(g, spare, spare')
    requires OnlySpareChanged(g, used, spare', a, b)
    ensures OnlySpareChanged(g, used, spare, a, b)
  {
  }

  lemma ChangeIntact(g: Geometry, used: set<nat>, spare: set<nat>, disk0: seq<Content>, a: seq<Content>,
                     b: seq<Content>)
    requires Intact(g, used, disk0, a) && OnlySpareChanged(g, used, spare, a, b)
    ensures Intact(g, used, disk0, b)
  {
  }

  lemma RelocReserved(g: Geometry, used: set<nat>, disk: seq<Content>, spare: set<nat>, spare': set<nat>,
                      meta: set<nat>, reloc: map<nat, nat>)
    requires RelocOk(g, used, disk, spare, meta, reloc) && SpareGrewReserved(g, spare, spare')
    ensures RelocOk(g, used, disk, spare', meta, reloc)
  {
  }

  /** Where relocation sends the blocks of an item at file offset `off`. */
  ghost function Target(off: nat, disk: nat, n: nat, reloc: map<nat, nat>): map<nat, nat> {
    map b: nat | off <= b < off + n && Source(off, disk, b) in reloc :: reloc[Source(off, disk, b)]
  }

  /** The sector that block `b` of an item at file offset `off` is read from. */
  ghost function Source(off: nat, disk: nat, b: int): nat {
    if off <= b then disk + (b - off) else 0
  }

  lemma FitsWritable(g: Geometry, used: set<nat>, refs: Refs, free: set<nat>, pinned: set<nat>, s: nat)
    requires g.Valid() && g.groups[0].system
    requires SpaceOk(g, used, refs, free + pinned)
    requires Fits(g, free, pinned, s, 1)
    ensures Writable(g, used, s) && !Live(refs, s) && s in free && s !in pinned
  {
    var i: nat :| i < |g.groups| && !g.groups[i].system && g.groups[i].start <= s && s + 1 <= g.groups[i].End();
    forall j: nat | j < |g.groups| && g.groups[j].Contains(s) ensures j == i {
      g.GroupUnique(i, j, s);
    }
    assert s <= s < s + 1;
    assert s in free + pinned;
    assert g.groups[0].Contains(0);
  }

  /** The extents recorded for a relocated item describe exactly its targets. */
  lemma TargetsFaithful(g: Geometry, refs: Refs, r: Ref, run: Run, reloc: map<nat, nat>, es: seq<Extent>)
    requires r in refs && refs[r] == run && FilesApart(refs)
    requires forall s: nat :: run.disk <= s < run.disk + run.len ==> s in reloc
    requires Records(g, Target(r.off, run.disk, run.len, reloc), es, r.off, r.off + run.len)
    ensures Replaceable(refs, r, es)
    ensures forall b: nat :: r.off <= b < r.off + run.len ==>
      b in Target(r.off, run.disk, run.len, reloc) &&
      Target(r.off, run.disk, run.len, reloc)[b] == reloc[Source(r.off, run.disk, b)]
  {
    TilesDistinct(es, r.off, r.off + run.len);
  }

  lemma TargetStep(off: nat, disk: nat, n: nat, reloc: map<nat, nat>)
    requires disk + n in reloc
    ensures Target(off, disk, n + 1, reloc) == Target(off, disk, n, reloc)[off + n := reloc[disk + n]]
  {
    assert Source(off, disk, off + n) == disk + n;
  }

  lemma TargetInto(off: nat, disk: nat, n: nat, reloc: map<nat, nat>)
    requires forall s: nat :: disk <= s < disk + n ==> s in reloc
    ensures IntoCopies(off, n, Target(off, disk, n, reloc), reloc)
  {
    var m := Target(off, disk, n, reloc);
    forall b: nat | off <= b < off + n ensures b in m && m[b] in reloc.Values {
      assert Source(off, disk, b) in reloc;
    }
  }

  lemma TargetEmpty(off: nat, disk: nat, reloc: map<nat, nat>)
    ensures Target(off, disk, 0, reloc) == map[]
  {
  }

  lemma TargetKeys(off: nat, disk: nat, n: nat, reloc: map<nat, nat>)
    ensures forall b :: b in Target(off, disk, n, reloc) ==> b < off + n
  {
  }

  lemma TargetGrow(off: nat, disk: nat, n: nat, reloc: map<nat, nat>, s: nat, t: nat)
    requires s !in reloc
    requires disk + n <= s
    ensures Target(off, disk, n, reloc[s := t]) == Target(off, disk, n, reloc)
  {
  }

  lemma DropKeeps(g: Geometry, used: set<nat>, refs: Refs, spare: set<nat>, meta: set<nat>, r: Ref)
    requires WellFormed(g, refs) && SpaceOk(g, used, refs, spare) && MetaOk(g, used, refs, spare, meta)
    ensures WellFormed(g, refs - {r}) && SpaceOk(g, used, refs - {r}, spare) && MetaOk(g, used, refs - {r}, spare, meta)
  {
    forall s | Live(refs - {r}, s) ensures Live(refs, s) {
    }
  }

  /** Once no other item holds the extent, its sectors may be pinned. */
  lemma PinKeeps(g: Geometry, used: set<nat>, refs: Refs, spare: set<nat>, meta: set<nat>, r: Ref, run: Run)
    requires g.Valid() && WellFormed(g, refs)
    requires r in refs && refs[r] == run && 0 < run.disk && Reserved(g, run.disk) && !g.TouchesSuper(run.disk, run.len)
    requires forall q :: q in refs && q != r ==> refs[q] != run
    requires SpaceOk(g, used, refs - {r}, spare) && MetaOk(g, used, refs - {r}, spare, meta)
    ensures SpaceOk(g, used, refs - {r}, spare + Range(run.disk, run.len))
    ensures MetaOk(g, used, refs - {r}, spare + Range(run.disk, run.len), meta)
    ensures forall s :: s in Range(run.disk, run.len) ==> Reserved(g, s)
  {
    assert RunOk(g, run);
    forall s | s in Range(run.disk, run.len)
      ensures Reserved(g, s) && s < g.total && !Live(refs - {r}, s) && !g.InSuper(s)
    {
      ReservedWhole(g, run.disk, run.len, run.disk, s);
      if Live(refs - {r}, s) {
        var q :| q in refs - {r} && (refs - {r})[q].Holds(s);
        assert run.Holds(s);
        assert false;
      }
    }
  }

  /** One sector copied for relocation extends the relocation map soundly. */
  lemma RelocGrow(g: Geometry, used: set<nat>, disk: seq<Content>, spare: set<nat>, meta: set<nat>,
                  reloc: map<nat, nat>, s: nat, t: nat)
    requires |disk| == g.total && RelocOk(g, used, disk, spare, meta, reloc)
    requires s < g.total && Reserved(g, s) && s !in reloc
    requires Writable(g, used, t) && t in spare && t !in meta
    ensures RelocOk(g, used, disk[t := disk[s]], spare - {t}, meta, reloc[s := t])
  {
  }

  /** Every block of the item goes to a copy recorded in the relocation map. */
  ghost predicate IntoCopies(off: nat, len: nat, m: map<nat, nat>, reloc: map<nat, nat>) {
    forall b: nat :: off <= b < off + len ==> b in m && m[b] in reloc.Values
  }

  lemma PiecesAvoid(g: Geometry, before: Refs, r: Ref, es: seq<Extent>, m: map<nat, nat>, reloc: map<nat, nat>, s: nat)
    requires Replaceable(before, r, es) && AllFaithful(g, m, es)
    requires IntoCopies(r.off, before[r].len, m, reloc)
    requires forall t :: t in reloc.Values ==> 0 < t
    requires s !in reloc.Values && !Live(before - {r}, s)
    ensures !Live(Replace(before, r, es), s)
  {
    hide AllFaithful, Replace, Live, Tiles;
    if Live(Replace(before, r, es), s) {
      ReplaceLive(g, before, r, es, m, s);
      assert false;
    }
  }

  /** Recording the pieces of a relocated item keeps every promise about space. */
  lemma ReplaceKeeps(g: Geometry, used: set<nat>, disk: seq<Content>, before: Refs, spare: set<nat>, meta: set<nat>,
                     reloc: map<nat, nat>, r: Ref, es: seq<Extent>, m: map<nat, nat>)
    requires g.Valid() && WellFormed(g, before) && |disk| == g.total
    requires Replaceable(before, r, es) && AllFaithful(g, m, es)
    requires SpaceOk(g, used, before - {r}, spare) && MetaOk(g, used, before - {r}, spare, meta)
    requires RelocOk(g, used, disk, spare, meta, reloc)
    requires IntoCopies(r.off, before[r].len, m, reloc)
    ensures var after := Replace(before, r, es);
            WellFormed(g, after) && SpaceOk(g, used, after, spare) && MetaOk(g, used, after, spare, meta)
  {
    var after := Replace(before, r, es);
    assert forall t :: t in reloc.Values ==> Writable(g, used, t) && t !in spare && t !in meta;
    assert WellFormed(g, after) by { ReplaceWellFormed(g, before, r, es, m); }
    forall s | s in spare || s in meta ensures !Live(after, s) {
      PiecesAvoid(g, before, r, es, m, reloc, s);
    }
  }

  /** The relocated item is read through its targets, everything else as before. */
  ghost predicate Moved(before: Refs, after: Refs, r: Ref, run: Run, reloc: map<nat, nat>) {
    forall p, d :: At(after, p, d) <==>
      if Spans(r, run.len, p) then Source(r.off, run.disk, p.blk) in reloc && d == reloc[Source(r.off, run.disk, p.blk)]
      else At(before, p, d)
  }

  /** New items lie inside the file range of the item they replace. */
  ghost predicate PiecesWithin(before: Refs, after: Refs, r: Ref, len: nat) {
    && (forall q :: q in before && q != r ==> q in after && after[q] == before[q])
    && (forall q :: q in after ==>
          || (q in before && q != r && after[q] == before[q])
          || (q.root == r.root && q.ino == r.ino && r.off <= q.off && q.off + after[q].len <= r.off + len &&
              0 < after[q].disk))
  }

  lemma PieceWithin(g: Geometry, before: Refs, r: Ref, es: seq<Extent>, m: map<nat, nat>, q: Ref)
    requires Replaceable(before, r, es) && AllFaithful(g, m, es)
    requires forall b: nat :: r.off <= b < r.off + before[r].len ==> b in m
    requires q in Pieces(r, es)
    ensures q.root == r.root && q.ino == r.ino && r.off <= q.off && 0 < Pieces(r, es)[q].disk
    ensures q.off + Pieces(r, es)[q].len <= r.off + before[r].len
  {
    var i := PieceOf(r, es, r.off, r.off + before[r].len, q);
    assert Faithful(g, m, es[i]);
    assert es[i].Covers(es[i].file);
  }

  lemma PiecesStayWithin(g: Geometry, before: Refs, r: Ref, es: seq<Extent>, m: map<nat, nat>)
    requires Replaceable(before, r, es) && AllFaithful(g, m, es)
    requires forall b: nat :: r.off <= b < r.off + before[r].len ==> b in m
    ensures PiecesWithin(before, Replace(before, r, es), r, before[r].len)
  {
    hide Pieces;
    ReplaceFilesApart(before, r, es);
    forall q | q in Pieces(r, es)
      ensures q.root == r.root && q.ino == r.ino && r.off <= q.off && 0 < Pieces(r, es)[q].disk
      ensures q.off + Pieces(r, es)[q].len <= r.off + before[r].len
    {
      PieceWithin(g, before, r, es, m, q);
    }
  }

  lemma ReplaceMoves(g: Geometry, before: Refs, r: Ref, run: Run, es: seq<Extent>, reloc: map<nat, nat>)
    requires r in before && before[r] == run && FilesApart(before)
    requires forall s: nat :: run.disk <= s < run.disk + run.len ==> s in reloc && 0 < reloc[s]
    requires Records(g, Target(r.off, run.disk, run.len, reloc), es, r.off, r.off + run.len)
    requires Replaceable(before, r, es)
    ensures Moved(before, Replace(before, r, es), r, run, reloc)
    ensures PiecesWithin(before, Replace(before, r, es), r, run.len)
  {
    hide Replace, Replaceable, Tiles, Faithful, FilesApart, Target, Source, At;
    var m := Target(r.off, run.disk, run.len, reloc);
    TargetsFaithful(g, before, r, run, reloc, es);
    PiecesStayWithin(g, before, r, es, m);
    forall b: nat | r.off <= b < r.off + run.len ensures b in m && 0 < m[b] { TargetAt(r, run, reloc, b); }
    forall p, d ensures At(Replace(before, r, es), p, d) <==>
      if Spans(r, run.len, p) then Source(r.off, run.disk, p.blk) in reloc && d == reloc[Source(r.off, run.disk, p.blk)]
      else At(before, p, d)
    {
      ReplaceAt(g, before, r, es, m, p, d);
      if Spans(r, run.len, p) { TargetAt(r, run, reloc, p.blk); }
    }
  }

  lemma TargetAt(r: Ref, run: Run, reloc: map<nat, nat>, b: nat)
    requires forall s: nat :: run.disk <= s < run.disk + run.len ==> s in reloc && 0 < reloc[s]
    requires r.off <= b < r.off + run.len
    ensures var m, s := Target(r.off, run.disk, run.len, reloc), Source(r.off, run.disk, b);
      b in m && s in reloc && m[b] == reloc[s] && 0 < m[b]
  {
    var s := Source(r.off, run.disk, b);
    assert run.disk <= s < run.disk + run.len;
  }

  lemma RecordKeeps(g: Geometry, used: set<nat>, disk: seq<Content>, before: Refs, spare: set<nat>, meta: set<nat>,
                    reloc: map<nat, nat>, r: Ref, run: Run, es: seq<Extent>)
    requires g.Valid() && WellFormed(g, before) && r in before && before[r] == run
    requires SpaceOk(g, used, before - {r}, spare) && MetaOk(g, used, before - {r}, spare, meta)
    requires RelocOk(g, used, disk, spare, meta, reloc)
    requires forall s: nat :: run.disk <= s < run.disk + run.len ==> s in reloc
    requires Records(g, Target(r.off, run.disk, run.len, reloc), es, r.off, r.off + run.len)
    ensures DistinctFiles(es)
    ensures var after := Replace(before, r, es);
            && WellFormed(g, after) && SpaceOk(g, used, after, spare) && MetaOk(g, used, after, spare, meta)
            && Moved(before, after, r, run, reloc) && PiecesWithin(before, after, r, run.len)
  {
    hide SpaceOk, MetaOk, Target, Moved, PiecesWithin, Replace;
    TargetsFaithful(g, before, r, run, reloc, es);
    TargetInto(r.off, run.disk, run.len, reloc);
    ReplaceKeeps(g, used, disk, before, spare, meta, reloc, r, es, Target(r.off, run.disk, run.len, reloc));
    ReplaceMoves(g, before, r, run, es, reloc);
  }

  /** A range that cleanup_sys_chunk clears: a SYSTEM block group or a super block
      stripe. */
  ghost predicate Region(g: Geometry, start: nat, end: nat) {
    || (exists i :: 0 <= i < |g.groups| && g.groups[i].system && start == g.groups[i].start && end == g.groups[i].End())
    || (exists m: nat :: m < SUPER_MIRROR_MAX && start == g.SuperStripe(m) && end == start + g.stripe)
  }

  lemma RegionReserved(g: Geometry, start: nat, end: nat, s: nat)
    requires Region(g, start, end) && start <= s < end
    ensures Reserved(g, s)
  {
    if i :| 0 <= i < |g.groups| && g.groups[i].system && start == g.groups[i].start && end == g.groups[i].End() {
      assert g.groups[i].Contains(s);
    } else {
      var m: nat :| m < SUPER_MIRROR_MAX && start == g.SuperStripe(m) && end == start + g.stripe;
      assert g.InMirror(m, s);
    }
  }

  lemma RegionNonempty(g: Geometry, start: nat, end: nat)
    requires g.Valid() && Region(g, start, end)
    ensures start < end
  {
  }

  /** No data extent straddles the start of such a range. */
  lemma NoStraddle(g: Geometry, start: nat, end: nat, u: Run, s: nat)
    requires g.Valid() && Region(g, start, end)
    requires RunOk(g, u) && u.Holds(s) && start <= s < end
    ensures start <= u.disk
  {
    if i: nat :| i < |g.groups| && g.groups[i].system && start == g.groups[i].start && end == g.groups[i].End() {
      var j: nat :| j < |g.groups| && g.groups[j].start <= u.disk && u.disk + u.len <= g.groups[j].End();
      g.GroupUnique(i, j, s);
    } else {
      var m: nat :| m < SUPER_MIRROR_MAX && start == g.SuperStripe(m) && end == start + g.stripe;
      assert g.InMirror(m, s);
      assert g.InSuper(s);
      assert g.TouchesSuper(u.disk, u.len);
    }
  }

  /** A data extent that starts in such a range ends in it. */
  lemma RunInRegion(g: Geometry, start: nat, end: nat, u: Run)
    requires g.Valid() && Region(g, start, end)
    requires RunOk(g, u) && 0 < u.disk && start <= u.disk < end
    ensures u.disk + u.len <= end
  {
    if i: nat :| i < |g.groups| && g.groups[i].system && start == g.groups[i].start && end == g.groups[i].End() {
      var j: nat :| j < |g.groups| && g.groups[j].start <= u.disk && u.disk + u.len <= g.groups[j].End();
      g.GroupUnique(i, j, u.disk);
    } else {
      var m: nat :| m < SUPER_MIRROR_MAX && start == g.SuperStripe(m) && end == start + g.stripe;
      assert g.InMirror(m, u.disk);
      assert g.InSuper(u.disk);
      assert g.TouchesSuper(u.disk, u.len);
    }
  }

  /** A cleaned range stays clean: later relocations never refill it. */
  lemma StaysClean(g: Geometry, before: Refs, after: Refs, start: nat, end: nat)
    requires Region(g, start, end) && Clean(before, start, end) && LiveShrinks(g, before, after)
    ensures Clean(after, start, end)
  {
    forall s: nat | start <= s < end ensures !Live(after, s) {
      RegionReserved(g, start, end, s);
    }
  }

  lemma AllClean(g: Geometry, refs: Refs)
    requires forall j :: 0 <= j < |g.groups| && g.groups[j].system ==> Clean(refs, g.groups[j].start, g.groups[j].End())
    requires forall q: nat :: q < SUPER_MIRROR_MAX ==> Clean(refs, g.SuperStripe(q), g.SuperStripe(q) + g.stripe)
    ensures forall s :: Live(refs, s) ==> !Reserved(g, s)
  {
    forall s: nat | Live(refs, s) ensures !Reserved(g, s) {
      if i :| 0 <= i < |g.groups| && g.groups[i].Contains(s) && g.groups[i].system {
        assert false;
      }
      if m: nat :| m < SUPER_MIRROR_MAX && g.InMirror(m, s) {
        assert false;
      }
    }
  }

  /** The parts of the relocation state that speak of pools and copies survive one
      relocated reference. */
  lemma PoolStep(g: Geometry, used: set<nat>, pool: set<nat>, spare: set<nat>, spare': set<nat>, meta: set<nat>,
                 a: seq<Content>, b: seq<Content>, c: seq<Content>, reloc: map<nat, nat>, reloc': map<nat, nat>)
    requires OnlySpareChanged(g, used, pool, a, b) && SpareGrewReserved(g, pool, spare + meta)
    requires CopiesFrom(map[], reloc, pool)
    requires OnlySpareChanged(g, used, spare, b, c) && SpareGrewReserved(g, spare, spare')
    requires CopiesFrom(reloc, reloc', spare)
    requires RelocOk(g, used, c, spare', meta, reloc')
    requires forall s :: s in reloc ==> s in reloc' && reloc'[s] == reloc[s]
    ensures OnlySpareChanged(g, used, pool, a, c) && SpareGrewReserved(g, pool, spare' + meta)
    ensures CopiesFrom(map[], reloc', pool)
  {
  }

  /** Copies made into sectors that held no data leave all data readable. */
  lemma PoolCopies(g: Geometry, used: set<nat>, refs0: Refs, a: seq<Content>, b: seq<Content>, spare0: set<nat>,
                   meta0: set<nat>, spare: set<nat>, meta: set<nat>, reloc: map<nat, nat>)
    requires SpaceOk(g, used, refs0, spare0) && MetaOk(g, used, refs0, spare0, meta0)
    requires RelocOk(g, used, b, spare, meta, reloc)
    requires OnlySpareChanged(g, used, spare0 + meta0, a, b) && CopiesFrom(map[], reloc, spare0 + meta0)
    ensures CopiesOk(g, refs0, a, b, reloc)
  {
    assert forall s :: s in spare0 + meta0 ==> !Live(refs0, s);
  }

  /** Reserved sectors are never read anew. */
  ghost predicate LiveShrinks(g: Geometry, before: Refs, after: Refs) {
    forall s :: Live(after, s) && Reserved(g, s) ==> Live(before, s)
  }

  lemma ShrinksTrans(g: Geometry, a: Refs, b: Refs, c: Refs)
    requires LiveShrinks(g, a, b) && LiveShrinks(g, b, c)
    ensures LiveShrinks(g, a, c)
  {
  }

  lemma MovedShrinks(g: Geometry, used: set<nat>, disk: seq<Content>, spare: set<nat>, meta: set<nat>,
                     before: Refs, after: Refs, r: Ref, run: Run, reloc: map<nat, nat>)
    requires Moved(before, after, r, run, reloc) && RelocOk(g, used, disk, spare, meta, reloc)
    ensures LiveShrinks(g, before, after)
  {
    forall s | Live(after, s) && Reserved(g, s) ensures Live(before, s) {
      var p := LiveAt(after, s);
      assert At(before, p, s);
      AtLive(before, p, s);
    }
  }

  /** A block read from a reserved sector is not read from a copy. */
  lemma NotACopy(g: Geometry, used: set<nat>, disk: seq<Content>, spare: set<nat>, meta: set<nat>, refs: Refs,
                 p: FileBlock, src: nat, d: nat, reloc: map<nat, nat>)
    requires FilesApart(refs) && RelocOk(g, used, disk, spare, meta, reloc) && At(refs, p, src) && Reserved(g, src)
    ensures d in reloc ==> !At(refs, p, reloc[d])
  {
    if d in reloc && At(refs, p, reloc[d]) {
      AtUnique(refs, p, src, reloc[d]);
      assert false;
    }
  }

  lemma MovedTracks(g: Geometry, used: set<nat>, disk: seq<Content>, spare: set<nat>, meta: set<nat>,
                     refs0: Refs, before: Refs, after: Refs, r: Ref, run: Run,
                     reloc: map<nat, nat>, reloc': map<nat, nat>)
    requires g.Valid() && Tracks(refs0, before, reloc) && Moved(before, after, r, run, reloc')
    requires WellFormed(g, before) && r in before && before[r] == run && 0 < run.disk && Reserved(g, run.disk)
    requires forall s: nat :: run.disk <= s < run.disk + run.len ==> s in reloc'
    requires RelocOk(g, used, disk, spare, meta, reloc')
    requires forall s :: s in reloc ==> s in reloc' && reloc'[s] == reloc[s]
    ensures Tracks(refs0, after, reloc')
  {
    forall p, d: nat | At(refs0, p, d) ensures At(after, p, d) || (d in reloc' && At(after, p, reloc'[d])) {
      if Spans(r, run.len, p) {
        var src := Source(r.off, run.disk, p.blk);
        assert Through(before, r, p, src);
        assert RunOk(g, run);
        ReservedWhole(g, run.disk, run.len, run.disk, src);
        NotACopy(g, used, disk, spare, meta, before, p, src, d, reloc');
        AtUnique(before, p, src, d);
      }
    }
    forall p, e: nat | At(after, p, e) ensures Mapped(refs0, p) {
      if Spans(r, run.len, p) {
        assert Through(before, r, p, Source(r.off, run.disk, p.blk));
        assert At(before, p, Source(r.off, run.disk, p.blk));
      }
    }
  }

  lemma MovedShape(g: Geometry, before: Refs, after: Refs, r: Ref, run: Run, reloc: map<nat, nat>)
    requires ImageShape(g, before) && r in before && before[r] == run && 0 < run.disk
    requires Moved(before, after, r, run, reloc) && PiecesWithin(before, after, r, run.len)
    requires forall s: nat :: run.disk <= s < run.disk + run.len ==> s in reloc
    ensures ImageShape(g, after)
  {
    forall q | q in after && q.root == ImageTree
      ensures q.ino == 0 && q.off + after[q].len <= g.total && (0 < after[q].disk ==> g.Recordable(q.off, after[q].len))
    {
      if q !in before || q == r || after[q] != before[q] {
        RecordablePart(g, r.off, run.len, q.off, after[q].len);
      }
    }
    forall i: nat | i < g.total ensures ImageCovers(after, i) {
      assert ImageCovers(before, i);
      var q :| q in before && q.root == ImageTree && q.off <= i < q.off + before[q].len;
      if q == r {
        var p := FileBlock(r.root, r.ino, i);
        assert At(after, p, reloc[Source(r.off, run.disk, i)]);
        var t :| Through(after, t, p, reloc[Source(r.off, run.disk, i)]);
        assert t in after;
      } else {
        assert q in after && after[q] == before[q];
      }
    }
  }

  lemma RelocCow(g: Geometry, used: set<nat>, disk: seq<Content>, spare: set<nat>, meta: set<nat>, reloc: map<nat, nat>,
                 s: nat, c: Content)
    requires RelocOk(g, used, disk, spare, meta, reloc) && s in spare && Writable(g, used, s)
    ensures RelocOk(g, used, disk[s := c], spare - {s}, meta + {s}, reloc)
  {
  }

  lemma MetaGrow(g: Geometry, used: set<nat>, refs: Refs, spare: set<nat>, meta: set<nat>, s: nat)
    requires MetaOk(g, used, refs, spare, meta)
    requires Writable(g, used, s) && !Live(refs, s) && s !in spare
    ensures MetaOk(g, used, refs, spare, meta + {s})
  {
  }

  lemma MetaShrink(g: Geometry, used: set<nat>, refs: Refs, spare: set<nat>, meta: set<nat>, s: nat)
    requires MetaOk(g, used, refs, spare, meta) && SpaceOk(g, used, refs, spare) && s in meta
    ensures MetaOk(g, used, refs, spare + {s}, meta - {s}) && SpaceOk(g, used, refs, spare + {s})
  {
  }

  lemma RelocFree(g: Geometry, used: set<nat>, disk: seq<Content>, spare: set<nat>, meta: set<nat>,
                  reloc: map<nat, nat>, s: nat)
    requires RelocOk(g, used, disk, spare, meta, reloc) && s in meta
    ensures RelocOk(g, used, disk, spare + {s}, meta - {s}, reloc)
  {
  }

  lemma ChangeOne(g: Geometry, used: set<nat>, pool: set<nat>, now: set<nat>, a: seq<Content>, b: seq<Content>, s: nat,
                  c: Content)
    requires OnlySpareChanged(g, used, pool, a, b) && SpareGrewReserved(g, pool, now)
    requires s in now && Writable(g, used, s)
    ensures OnlySpareChanged(g, used, pool, a, b[s := c])
  {
  }

  // ---------------------------------------------------------------------------
  // Why the passes come to an end

  /** The items on reserved sectors are some of those before. */
  ghost predicate ReservedKept(g: Geometry, before: Refs, after: Refs) {
    forall q :: q in after && 0 < after[q].disk && Reserved(g, after[q].disk) ==> q in before && before[q] == after[q]
  }

  lemma KeptTrans(g: Geometry, a: Refs, b: Refs, c: Refs)
    requires ReservedKept(g, a, b) && ReservedKept(g, b, c)
    ensures ReservedKept(g, a, c)
  {
  }

  /** A tree refers to an extent on reserved sectors at most once. */
  ghost predicate OnePerTree(g: Geometry, refs: Refs) {
    forall q, r ::
      q in refs && r in refs && q.root == r.root && refs[q] == refs[r] && 0 < refs[q].disk && Reserved(g, refs[q].disk)
      ==> q == r
  }

  lemma KeptOne(g: Geometry, before: Refs, after: Refs)
    requires OnePerTree(g, before) && ReservedKept(g, before, after)
    ensures OnePerTree(g, after)
  {
  }

  /** After a move, no item on reserved sectors is new, and the moved item is not among them. */
  lemma MovedKept(g: Geometry, used: set<nat>, disk: seq<Content>, spare: set<nat>, meta: set<nat>,
                  before: Refs, after: Refs, r: Ref, run: Run, reloc: map<nat, nat>)
    requires Moved(before, after, r, run, reloc) && PiecesWithin(before, after, r, run.len) && RunsOk(g, after)
    requires RelocOk(g, used, disk, spare, meta, reloc)
    ensures ReservedKept(g, before, after)
    ensures r in after ==> after[r].disk == 0 || !Reserved(g, after[r].disk)
  {
    forall q | q in after && 0 < after[q].disk && Reserved(g, after[q].disk)
      ensures q in before && q != r && before[q] == after[q]
    {
      var p := FileBlock(q.root, q.ino, q.off);
      assert RunOk(g, after[q]);
      assert Through(after, q, p, after[q].disk);
      assert At(after, p, after[q].disk);
    }
  }

  /** No item of the tree starts in [start, cur), as far as `end`. */
  ghost predicate NoneOf(refs: Refs, root: Root, start: nat, cur: nat, end: nat) {
    forall q :: q in refs && q.root == root && 0 < refs[q].disk ==> !(start <= refs[q].disk < cur && refs[q].disk < end)
  }

  lemma KeptNone(g: Geometry, before: Refs, after: Refs, root: Root, start: nat, end: nat)
    requires g.Valid() && Region(g, start, end) && NoneOf(before, root, start, end, end)
    requires ReservedKept(g, before, after)
    ensures NoneOf(after, root, start, end, end)
  {
    forall q | q in after && q.root == root && 0 < after[q].disk ensures !(start <= after[q].disk < end) {
      if start <= after[q].disk < end { RegionReserved(g, start, end, after[q].disk); }
    }
  }

  /** `run` is the first extent at or after `cur`. */
  ghost predicate FirstFrom(refs: Refs, cur: nat, run: Run) {
    forall q :: q in refs && 0 < refs[q].disk && cur <= refs[q].disk ==> run.disk <= refs[q].disk
  }

  /** An extent without a reference from the tree is passed over. */
  lemma PassedOver(g: Geometry, refs: Refs, root: Root, run: Run, start: nat, cur: nat, end: nat)
    requires g.Valid() && Region(g, start, end) && WellFormed(g, refs) && NoneOf(refs, root, start, cur, end)
    requires run in refs.Values && 0 < run.disk && FirstFrom(refs, cur, run) && start <= cur <= run.disk < end
    requires forall q :: q in refs && q.root == root ==> refs[q] != run
    ensures NoneOf(refs, root, start, run.disk + 1, end)
  {
    var r :| r in refs && refs[r] == run;
    RegionReserved(g, start, end, run.disk);
    forall q | q in refs && q.root == root && 0 < refs[q].disk
      ensures !(start <= refs[q].disk < run.disk + 1 && refs[q].disk < end)
    {
      assert RunOk(g, refs[q]) && RunOk(g, refs[r]);
      assert refs[q].disk == run.disk ==> refs[q].Holds(run.disk) && refs[r].Holds(run.disk);
    }
  }

  /** The only reference from the tree has been moved away. */
  lemma MovedAway(g: Geometry, before: Refs, after: Refs, r: Ref, start: nat, cur: nat, end: nat)
    requires g.Valid() && Region(g, start, end) && WellFormed(g, before) && NoneOf(before, r.root, start, cur, end)
    requires r in before && 0 < before[r].disk && FirstFrom(before, cur, before[r])
    requires start <= cur <= before[r].disk < end
    requires OnePerTree(g, before) && ReservedKept(g, before, after)
    requires r in after ==> after[r].disk == 0 || !Reserved(g, after[r].disk)
    ensures NoneOf(after, r.root, start, before[r].disk + before[r].len, end)
  {
    var run := before[r];
    forall q | q in after && q.root == r.root && 0 < after[q].disk
      ensures !(start <= after[q].disk < run.disk + run.len && after[q].disk < end)
    {
      var d := after[q].disk;
      if start <= d < run.disk + run.len && d < end {
        RegionReserved(g, start, end, d);
        RegionReserved(g, start, end, run.disk);
        assert RunOk(g, before[q]);
        assert before[q].Holds(d) && before[r].Holds(d);
        assert false;
      }
    }
  }

  lemma PassStart(g: Geometry, refs: Refs, root: Root, start: nat, end: nat)
    ensures ReservedKept(g, refs, refs) && NoneOf(refs, root, start, start, end)
  {
  }

  /** One step of a pass, for all that makes the passes end. */
  lemma PassStep(g: Geometry, refs0: Refs, first: Refs, before: Refs, after: Refs, r: Ref, start: nat, cur: nat,
                 end: nat)
    requires g.Valid() && Region(g, start, end) && WellFormed(g, before)
    requires r in before && 0 < before[r].disk && FirstFrom(before, cur, before[r])
    requires start <= cur <= before[r].disk < end
    requires ReservedKept(g, refs0, before) && ReservedKept(g, first, before) && ReservedKept(g, before, after)
    requires r in after ==> after[r].disk == 0 || !Reserved(g, after[r].disk)
    requires OnePerTree(g, refs0) ==> NoneOf(before, r.root, start, cur, end)
    ensures ReservedKept(g, first, after)
    ensures OnePerTree(g, refs0) ==> NoneOf(after, r.root, start, before[r].disk + before[r].len, end)
  {
    hide WellFormed, NoneOf, Region;
    KeptTrans(g, first, before, after);
    if OnePerTree(g, refs0) {
      KeptOne(g, refs0, before);
      MovedAway(g, before, after, r, start, cur, end);
    }
  }

  /** Two trees that have nothing in the range leave nothing in it. */
  lemma BothGone(refs: Refs, start: nat, end: nat)
    requires NoneOf(refs, ImageTree, start, end, end) && NoneOf(refs, FsTree, start, end, end)
    ensures forall r :: r in refs && 0 < refs[r].disk ==> !(start <= refs[r].disk < end)
  {
    assert forall r :: r in refs ==> r.root == ImageTree || r.root == FsTree;
  }
}
