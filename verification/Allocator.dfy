/**
  cache_free_extents and custom_alloc_extent: the free-space map that the
  converter builds from the ext2 block bitmap, and the wrapping first-fit search
  that serves every allocation during the conversion.
 */
module Allocator {
  import opened Layout

  /** A run the allocator may hand out. */
  ghost predicate Fits(g: Geometry, free: set<nat>, pinned: set<nat>, s: nat, n: nat) {
    && (forall x: nat :: s <= x < s + n ==> x in free && x !in pinned)
    && exists i :: 0 <= i < |g.groups| && !g.groups[i].system && g.groups[i].start <= s && s + n <= g.groups[i].End()
  }

  /** No run of `n` that starts in [from, to) can be handed out. */
  ghost predicate NoFit(g: Geometry, free: set<nat>, pinned: set<nat>, from: nat, to: nat, n: nat) {
    forall s: nat :: from <= s < to ==> !Fits(g, free, pinned, s, n)
  }

  predicate InRun(x: nat, s: nat, n: nat) { s <= x < s + n }

  function Range(s: nat, n: nat): set<nat> {
    set x: nat | x < s + n && InRun(x, s, n)
  }

  /** The search is exact when a rejected run can only be rejected as a whole. */
  ghost predicate Exact(free: set<nat>, pinned: set<nat>, n: nat) {
    n == 1 || pinned !! free
  }

  /** Nothing starts where nothing is free. */
  lemma SkipUsed(g: Geometry, free: set<nat>, pinned: set<nat>, from: nat, n: nat)
    requires 0 < n
    ensures forall t: nat :: from <= t && t !in free ==> !Fits(g, free, pinned, t, n)
  {
    forall t: nat | from <= t && t !in free ensures !Fits(g, free, pinned, t, n) {
      assert t <= t < t + n;
    }
  }

  /** A group that is SYSTEM, or ends too early for a run at `s`, has no room
      anywhere from `s` to its end. */
  lemma SkipGroup(g: Geometry, free: set<nat>, pinned: set<nat>, i: nat, s: nat, n: nat)
    requires g.Valid() && 0 < n
    requires i < |g.groups| && g.groups[i].Contains(s)
    requires g.groups[i].system || g.groups[i].End() < s + n
    ensures NoFit(g, free, pinned, s, g.groups[i].End(), n)
  {
    forall t: nat | s <= t < g.groups[i].End() ensures !Fits(g, free, pinned, t, n) {
      if Fits(g, free, pinned, t, n) {
        var j: nat :| j < |g.groups| && !g.groups[j].system && g.groups[j].start <= t && t + n <= g.groups[j].End();
        g.GroupUnique(i, j, t);
        assert false;
      }
    }
  }

  /** A free run shorter than `n` has no room. */
  lemma SkipShort(g: Geometry, free: set<nat>, pinned: set<nat>, s: nat, end: nat, n: nat)
    requires end + 1 < s + n
    requires end + 1 !in free
    ensures NoFit(g, free, pinned, s, end + 1, n)
  {
    forall t: nat | s <= t < end + 1 ensures !Fits(g, free, pinned, t, n) {
      assert t <= end + 1 < t + n;
    }
  }

  /** Every block that ext2 does not use, without the super block stripes and the first 64K. */
  ghost function InitialFree(g: Geometry, used: set<nat>, firstDataBlock: nat): set<nat> {
    set s: nat | firstDataBlock <= s < g.total && s !in used && !g.InSuper(s) && g.stripe <= s
  }

  class Space {
    const g: Geometry
    /** free_space_cache and pinned_extents, as sets of sectors. */
    var free: set<nat>
    var pinned: set<nat>

    ghost predicate Valid()
      reads this
    {
      g.Valid() && forall s :: s in free ==> s < g.total
    }

    /** cache_free_extents: every block that ext2 does not use, except the super
        block stripes and the first 64K. */
    constructor (g: Geometry, used: set<nat>, firstDataBlock: nat)
      requires g.Valid()
      ensures Valid() && this.g == g && pinned == {}
      ensures free == InitialFree(g, used, firstDataBlock)
    {
      this.g := g;
      pinned := {};
      var f := UnusedBlocks(g, used, firstDataBlock);
      var m := 0;
      while m < SUPER_MIRROR_MAX && g.SuperStripe(m) < g.total
        invariant m <= SUPER_MIRROR_MAX
        invariant f == set s: nat | firstDataBlock <= s < g.total && s !in used &&
          forall q: nat | q < m :: !g.InMirror(q, s)
      {
        f := set s | s in f && !g.InMirror(m, s);
        m := m + 1;
      }
      forall s: nat | s < g.total ensures g.InSuper(s) <==> exists q: nat :: q < m && g.InMirror(q, s) {
        MirrorsBelow(g, m, s);
      }
      free := set s | s in f && g.stripe <= s;
    }

    /** The first loop of cache_free_extents, over the ext2 bitmap. */
    static method UnusedBlocks(g: Geometry, used: set<nat>, firstDataBlock: nat) returns (f: set<nat>)
      ensures f == set s: nat | firstDataBlock <= s < g.total && s !in used
    {
      f := {};
      var block := firstDataBlock;
      while block < g.total
        invariant f == set s: nat | firstDataBlock <= s < block && s < g.total && s !in used
      {
        if block !in used {
          f := f + {block};
        }
        block := block + 1;
      }
    }

    /** A mirror at or beyond the end of the device has no sector on it. */
    static lemma MirrorsBelow(g: Geometry, m: nat, s: nat)
      requires g.Valid() && m <= SUPER_MIRROR_MAX && s < g.total
      requires m < SUPER_MIRROR_MAX ==> g.total <= g.SuperStripe(m)
      ensures g.InSuper(s) <==> exists q: nat :: q < m && g.InMirror(q, s)
    {
      assert forall q: nat :: m <= q < SUPER_MIRROR_MAX ==> g.SuperStripe(m) <= g.SuperStripe(q) && !g.InMirror(q, s);
    }

    /** find_first_extent_bit: the first maximal free run that ends at or after
        `from`. */
    method FindFirstDirty(from: nat) returns (found: bool, start: nat, end: nat)
      requires Valid()
      ensures found <==> exists s :: s in free && from <= s
      ensures found ==> start <= end && from <= end && end in free && end + 1 !in free
      ensures found ==> forall s: nat :: start <= s <= end ==> s in free
      ensures found ==> forall s: nat :: from <= s < start ==> s !in free
    {
      start := from;
      while start < g.total && start !in free
        invariant from <= start
        invariant forall s: nat :: from <= s < start ==> s !in free
      {
        start := start + 1;
      }
      found := start < g.total;
      end := start;
      if found {
        while end + 1 in free
          invariant start <= end < g.total
          invariant forall s: nat :: start <= s <= end ==> s in free
          decreases g.total - end
        {
          end := end + 1;
        }
        while 0 < start && start - 1 in free && start <= from
          invariant start <= end && forall s: nat :: start <= s <= end ==> s in free
          invariant forall s: nat :: from <= s < start ==> s !in free
        {
          start := start - 1;
        }
      }
    }

    /** test_range_bit with filled = 0: does the pinned map touch the run? */
    predicate AnyPinned(s: nat, n: nat)
      reads this
    {
      exists x: nat | s <= x < s + n :: x in pinned
    }

    /** custom_alloc_extent. */
    method AllocExtent(n: nat, hint: nat) returns (ok: bool, s: nat)
      requires Valid() && 0 < n
      modifies this`free
      ensures Valid()
      ensures ok ==> Fits(g, old(free), pinned, s, n) && free == old(free) - Range(s, n)
      ensures !ok ==> free == old(free)
      ensures !ok && Exact(free, pinned, n) ==> forall t: nat :: !Fits(g, free, pinned, t, n)
    {
      var last, wrapped := hint, false;
      ghost var passStart := hint;
      while true
        invariant free == old(free) && passStart == if wrapped then 0 else hint
        invariant passStart <= last
        invariant Exact(free, pinned, n) ==> NoFit(g, free, pinned, passStart, last, n)
        decreases !wrapped, g.total - last
      {
        var found, start, end := FindFirstDirty(last);
        SkipUsed(g, free, pinned, last, n);
        if !found {
          if !wrapped {
            wrapped, last, passStart := true, 0, 0;
            continue;
          }
          return false, 0;
        }
        start := if last > start then last else start;
        assert NoFit(g, free, pinned, last, start, n);
        last := end + 1;
        if last - start < n {
          SkipShort(g, free, pinned, start, end, n);
          continue;
        }
        last := start + n;
        if AnyPinned(start, n) {
          assert Exact(free, pinned, n) ==> n == 1;
          continue;
        }
        var known, i := LookupBlockGroup(g, start);
        if g.groups[i].system || last > g.groups[i].End() {
          SkipGroup(g, free, pinned, i, start, n);
          last := g.groups[i].End();
          continue;
        }
        free := free - Range(start, n);
        return true, start;
      }
    }
  }
}
