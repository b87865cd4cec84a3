/**
  The geometry shared by the conversion and rollback engines: block groups that
  partition the device, and the three 64K stripes that hold super block mirrors.
  Positions are sector numbers; `stripe` is the number of sectors in 64K.
 */
module Layout {

  const SUPER_MIRROR_MAX: nat := 3

  datatype BlockGroup = BlockGroup(start: nat, len: nat, system: bool) {
    function End(): nat { start + len }
    predicate Contains(s: nat) { start <= s < start + len }
  }

  function Power(base: nat, n: nat): nat { if n == 0 then 1 else base * Power(base, n - 1) }

  /** Where mirror `m` of the super block lives, in bytes: the first at 64K, the others at 16K
      shifted left by 12 bits for each mirror. */
  function SuperOffsetBytes(m: nat): (bytes: nat)
    requires m < SUPER_MIRROR_MAX
    ensures bytes == if m == 0 then 0x1_0000 else 0x4000 * Power(Power(2, 12), m)
  {
    assert Power(2, 12) == 4096 by { PowersOfTwo(); }
    assert Power(4096, 1) == 4096 && Power(4096, 2) == 4096 * 4096;
    if m == 0 then 64 * 1024
    else if m == 1 then 16 * 1024 * 4096
    else 16 * 1024 * 4096 * 4096
  }

  lemma PowersOfTwo()
    ensures Power(2, 12) == 4096
  {
    assert Power(2, 4) == 16;
    assert Power(2, 8) == 16 * Power(2, 4);
    assert Power(2, 12) == 16 * Power(2, 8);
  }

  datatype Geometry = Geometry(total: nat, stripe: nat, groups: seq<BlockGroup>) {

    ghost predicate Valid() {
      && 0 < stripe
      && 0 < |groups|
      && groups[0].start == 0
      && groups[|groups| - 1].End() == total
      && (forall i :: 0 <= i < |groups| ==> 0 < groups[i].len)
      && (forall i :: 0 < i < |groups| ==> Follows(i))
    }

    ghost predicate Follows(i: int)
      requires 0 < i < |groups|
    {
      groups[i].start == groups[i - 1].End()
    }

    /** First sector of the stripe that holds super block mirror `m`. */
    function SuperStripe(m: nat): nat
      requires m < SUPER_MIRROR_MAX
    {
      (SuperOffsetBytes(m) / (64 * 1024)) * stripe
    }

    predicate InMirror(m: nat, s: nat)
      requires m < SUPER_MIRROR_MAX
    {
      SuperStripe(m) <= s < SuperStripe(m) + stripe
    }

    /** The sector lies in a 64K stripe that holds a super block mirror. */
    predicate InSuper(s: nat) {
      exists m: nat | m < SUPER_MIRROR_MAX :: InMirror(m, s)
    }

    ghost predicate TouchesSuper(s: nat, n: nat) {
      exists x :: s <= x < s + n && InSuper(x)
    }

    /** The sector lies in a SYSTEM block group. */
    ghost predicate InSystem(s: nat) {
      exists i :: 0 <= i < |groups| && groups[i].Contains(s) && groups[i].system
    }

    /** Both ends of the run lie in one block group. */
    ghost predicate OneGroup(s: nat, n: nat) {
      exists i :: 0 <= i < |groups| && groups[i].start <= s && s + n <= groups[i].End()
    }

    /** A data extent as the converter may record it: inside one block group,
        and single when it touches a super block stripe. */
    ghost predicate Recordable(s: nat, n: nat) {
      && OneGroup(s, n)
      && (1 < n ==> !TouchesSuper(s, n))
    }

    lemma GroupsOrdered(i: nat, j: nat)
      requires Valid()
      requires i < j < |groups|
      ensures groups[i].End() <= groups[j].start
      decreases j - i
    {
      assert Follows(j);
      if i + 1 < j {
        GroupsOrdered(i, j - 1);
      }
    }

    lemma GroupUnique(i: nat, j: nat, s: nat)
      requires Valid()
      requires i < |groups| && j < |groups|
      requires groups[i].Contains(s) && groups[j].Contains(s)
      ensures i == j
    {
      if i < j { GroupsOrdered(i, j); }
      if j < i { GroupsOrdered(j, i); }
    }
  }

  /** btrfs_lookup_block_group: the group that holds a sector, found by scanning
      the groups in address order. */
  method LookupBlockGroup(g: Geometry, s: nat) returns (found: bool, i: nat)
    requires g.Valid()
    ensures found <==> s < g.total
    ensures found ==> i < |g.groups| && g.groups[i].Contains(s)
    ensures found ==> (g.groups[i].system <==> g.InSystem(s))
  {
    i := 0;
    while i < |g.groups| && g.groups[i].End() <= s
      invariant i <= |g.groups|
      invariant 0 < i ==> g.groups[i - 1].End() <= s
    {
      i := i + 1;
    }
    found := i < |g.groups|;
    if found {
      if 0 < i { assert g.Follows(i); }
      if i + 1 < |g.groups| { g.GroupsOrdered(i, |g.groups| - 1); }
      forall j: nat | j < |g.groups| && g.groups[j].Contains(s) ensures j == i {
        g.GroupUnique(j, i, s);
      }
    }
  }

  /** intersect_with_sb: does the run touch a super block stripe? */
  method IntersectWithSuper(g: Geometry, s: nat, n: nat) returns (hit: bool)
    requires 0 < n && 0 < g.stripe
    ensures hit <==> g.TouchesSuper(s, n)
  {
    hit := false;
    var m := 0;
    while m < SUPER_MIRROR_MAX
      invariant m <= SUPER_MIRROR_MAX
      invariant forall q: nat, x :: q < m && s <= x < s + n ==> !g.InMirror(q, x)
    {
      var off := g.SuperStripe(m);
      if s < off + g.stripe && s + n > off {
        var x := if s < off then off else s;
        assert g.InMirror(m, x);
        assert g.InSuper(x);
        return true;
      }
      m := m + 1;
    }
  }
}
