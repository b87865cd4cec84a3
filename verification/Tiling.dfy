/**
  block_iterate_proc and its callers: a stream of (file block, disk block)
  callbacks is merged into file extents.  The extents must tile the file range,
  send every file block to its own disk block (holes to 0), stay inside one block
  group and keep blocks of super block stripes apart.
 */
module Tiling {
  import opened Basics
  import opened Layout

  /** A file extent; disk 0 means a hole. */
  datatype Extent = Extent(file: nat, disk: nat, len: nat) {
    function End(): nat { file + len }
    predicate Covers(b: nat) { file <= b < file + len }
    predicate Hole() { disk == 0 }
  }

  /** Extents laid end to end over [from, to). */
  ghost predicate Tiles(es: seq<Extent>, from: nat, to: nat) {
    && (forall i :: 0 <= i < |es| ==> 0 < es[i].len)
    && (forall i :: 0 < i < |es| ==> Follows(es, i))
    && (if |es| == 0 then from == to else es[0].file == from && es[|es| - 1].End() == to)
  }

  ghost predicate Follows(es: seq<Extent>, i: int)
    requires 0 < i < |es|
  {
    es[i].file == es[i - 1].End()
  }

  /** One extent agrees with the callbacks in `m` and obeys the layout rules. */
  ghost predicate Faithful(g: Geometry, m: map<nat, nat>, e: Extent) {
    && (e.Hole() ==> forall b: nat :: e.Covers(b) ==> b !in m)
    && (!e.Hole() ==>
          && (forall b: nat :: e.Covers(b) ==> b in m && m[b] == e.disk + (b - e.file))
          && g.Recordable(e.disk, e.len))
  }

  ghost predicate AllFaithful(g: Geometry, m: map<nat, nat>, es: seq<Extent>) {
    forall i :: 0 <= i < |es| ==> Faithful(g, m, es[i])
  }

  /** The whole promise about a finished extent list. */
  ghost predicate Records(g: Geometry, m: map<nat, nat>, es: seq<Extent>, from: nat, to: nat) {
    Tiles(es, from, to) && AllFaithful(g, m, es)
  }

  /** What a reader of the extent list finds for file block `b`. */
  ghost predicate MapsTo(es: seq<Extent>, b: nat, d: nat) {
    exists i :: 0 <= i < |es| && es[i].Covers(b) &&
      d == if es[i].Hole() then 0 else es[i].disk + (b - es[i].file)
  }

  lemma TilesOrdered(es: seq<Extent>, from: nat, to: nat, i: nat, j: nat)
    requires Tiles(es, from, to)
    requires i < j < |es|
    ensures es[i].End() <= es[j].file
    decreases j - i
  {
    assert Follows(es, j);
    if i + 1 < j {
      TilesOrdered(es, from, to, i, j - 1);
    }
  }

  lemma TilesCover(es: seq<Extent>, from: nat, to: nat, b: nat) returns (i: nat)
    requires Tiles(es, from, to)
    requires from <= b < to
    ensures i < |es| && es[i].Covers(b)
  {
    i := |es| - 1;
    while b < es[i].file
      invariant i < |es| && b < es[i].End()
    {
      if 0 < i { assert Follows(es, i); }
      i := i - 1;
    }
  }

  lemma TilesWithin(es: seq<Extent>, from: nat, to: nat, i: nat)
    requires Tiles(es, from, to)
    requires i < |es|
    ensures from <= es[i].file && es[i].End() <= to
  {
    if 0 < i { TilesOrdered(es, from, to, 0, i); }
    if i < |es| - 1 { TilesOrdered(es, from, to, i, |es| - 1); }
  }

  /** Reading a finished extent list gives back the callbacks and nothing else:
      each file block has exactly one target, its callback's disk block, or 0. */
  lemma RecordsReadBack(g: Geometry, m: map<nat, nat>, es: seq<Extent>, from: nat, to: nat, b: nat, d: nat)
    requires Records(g, m, es, from, to)
    requires from <= b < to
    ensures MapsTo(es, b, d) <==> d == (if b in m then m[b] else 0)
  {
    var i := TilesCover(es, from, to, b);
    forall j | 0 <= j < |es| && es[j].Covers(b) ensures j == i {
      if i < j { TilesOrdered(es, from, to, i, j); }
      if j < i { TilesOrdered(es, from, to, j, i); }
    }
  }

  lemma TilesAppend(es: seq<Extent>, from: nat, to: nat, e: Extent)
    requires Tiles(es, from, to)
    requires e.file == to && 0 < e.len
    ensures Tiles(es + [e], from, e.End())
  {
    var fs := es + [e];
    forall i | 0 < i < |fs| ensures Follows(fs, i) {
      if i < |es| { assert Follows(es, i); }
    }
  }

  /** Smallest multiple of `k` that is at least `d`. */
  function RoundUp(d: nat, k: nat): (r: nat)
    requires 0 < k
  {
    (d + k - 1) / k * k
  }

  lemma RoundUpBelow(d: nat, k: nat, c: nat)
    requires 0 < k
    requires d <= c * k
    ensures RoundUp(d, k) <= c * k
  {
    var q := (d + k - 1) / k;
    assert q <= c by {
      assert q * k <= d + k - 1;
      if c + 1 <= q {
        MulMono(c + 1, q, k);
        assert false;
      }
    }
    MulMono(q, c, k);
  }

  lemma MulMono(a: nat, b: nat, k: nat)
    requires a <= b
    ensures a * k <= b * k
  {
  }

  /** The block after a super block sector is either still in the stripe, or at
      or past the boundary that block_iterate_proc computed for that sector. */
  lemma SuperBoundary(g: Geometry, d: nat)
    requires g.Valid()
    requires g.InSuper(d)
    ensures g.InSuper(d + 1) || RoundUp(d, g.stripe) <= d + 1
  {
    var m: nat :| m < SUPER_MIRROR_MAX && g.InMirror(m, d);
    var c := SuperOffsetBytes(m) / (64 * 1024);
    StripeEnd(c, g.stripe, d);
    if d + 1 < g.SuperStripe(m) + g.stripe {
      assert g.InMirror(m, d + 1);
    }
  }

  lemma StripeEnd(c: nat, k: nat, d: nat)
    requires 0 < k
    requires c * k <= d < c * k + k
    ensures d + 1 < c * k + k || RoundUp(d, k) <= d + 1
  {
    assert (c + 1) * k == c * k + k;
    RoundUpBelow(d, k, c + 1);
  }

  /** A callback past the recorded range leaves the recorded extents faithful. */
  lemma RecordsExtend(g: Geometry, m: map<nat, nat>, es: seq<Extent>, from: nat, to: nat, b: nat, d: nat)
    requires Records(g, m, es, from, to)
    requires to <= b
    ensures Records(g, m[b := d], es, from, to)
  {
    forall i | 0 <= i < |es| ensures Faithful(g, m[b := d], es[i]) {
      TilesWithin(es, from, to, i);
      assert Faithful(g, m, es[i]);
    }
  }

  /** `boundary` is the end of the block group that holds the run. */
  ghost predicate EndsGroup(g: Geometry, disk: nat, num: nat, boundary: nat) {
    exists i :: 0 <= i < |g.groups| && g.groups[i].start <= disk && disk + num <= boundary == g.groups[i].End()
  }

  /** The run not yet recorded is already recordable, and the boundary will stop
      it before it leaves its block group or its super block sector. */
  ghost predicate PendingOk(g: Geometry, disk: nat, num: nat, boundary: nat)
    requires g.Valid()
  {
    && 0 < disk
    && g.Recordable(disk, num)
    && if g.InSuper(disk) then num == 1 && boundary == RoundUp(disk, g.stripe)
       else !g.TouchesSuper(disk, num) && EndsGroup(g, disk, num, boundary)
  }

  lemma PendingStart(g: Geometry, d: nat, i: nat)
    requires g.Valid() && 0 < d && i < |g.groups| && g.groups[i].Contains(d)
    ensures PendingOk(g, d, 1, if g.InSuper(d) then RoundUp(d, g.stripe) else g.groups[i].End())
  {
    assert g.groups[i].start <= d && d + 1 <= g.groups[i].End();
    assert g.OneGroup(d, 1);
    if !g.InSuper(d) {
      assert EndsGroup(g, d, 1, g.groups[i].End());
    }
  }

  lemma PendingGrow(g: Geometry, disk: nat, num: nat, boundary: nat)
    requires g.Valid() && PendingOk(g, disk, num, boundary)
    requires !g.InSuper(disk + num) && disk + num < boundary
    ensures PendingOk(g, disk, num + 1, boundary)
  {
    if g.InSuper(disk) {
      SuperBoundary(g, disk);
      assert false;
    }
    var i :| 0 <= i < |g.groups| && g.groups[i].start <= disk && disk + num <= boundary == g.groups[i].End();
    assert g.groups[i].start <= disk && disk + (num + 1) <= boundary == g.groups[i].End();
    assert g.OneGroup(disk, num + 1);
  }

  /** The pending run holds the callbacks from `first` on, in order. */
  ghost predicate SeenOk(seen: map<nat, nat>, start: nat, first: nat, disk: nat, num: nat) {
    && (forall b :: b in seen ==> start <= b < first + num)
    && (forall b: nat :: first <= b < first + num ==> b in seen && seen[b] == disk + (b - first))
  }

  /** struct blk_iterate_data, with the extents it has recorded so far. */
  class BlkIterate {
    const g: Geometry
    ghost const start: nat
    var first: nat
    var disk: nat
    var num: nat
    var boundary: nat
    var extents: seq<Extent>
    /** The callbacks delivered so far. */
    ghost var seen: map<nat, nat>

    ghost predicate Valid()
      reads this
    {
      && g.Valid() && g.total <= U64_MAX
      && Records(g, seen, extents, start, first)
      && SeenOk(seen, start, first, disk, num)
      && (num == 0 ==> disk == 0 && first == start && extents == [])
      && (0 < num ==> PendingOk(g, disk, num, boundary))
    }

    constructor (g: Geometry, firstBlock: nat)
      requires g.Valid() && g.total <= U64_MAX
      ensures Valid() && this.g == g && start == firstBlock && seen == map[]
      ensures first == firstBlock && num == 0
    {
      this.g := g;
      start := firstBlock;
      first := firstBlock;
      disk := 0;
      num := 0;
      boundary := U64_MAX;
      extents := [];
      seen := map[];
    }

    /** record_file_blocks for the pending run, if there is one. */
    method RecordPending()
      requires Valid()
      modifies this`extents, this`first, this`num
      ensures first == old(first + num) && num == 0
      ensures Records(g, seen, extents, start, first)
    {
      if 0 < num {
        var e := Extent(first, disk, num);
        TilesAppend(extents, start, first, e);
        assert Faithful(g, seen, e);
        extents := extents + [e];
        first := first + num;
        num := 0;
      }
    }

    /** record_file_blocks for the gap before `end`, if there is one. */
    method RecordHole(end: nat)
      requires Records(g, seen, extents, start, first)
      requires forall b :: b in seen ==> b < first
      modifies this`extents
      ensures Records(g, seen, extents, start, if end > first then end else first)
    {
      if end > first {
        var hole := Extent(first, 0, end - first);
        TilesAppend(extents, start, first, hole);
        assert Faithful(g, seen, hole);
        extents := extents + [hole];
      }
    }

    /** block_iterate_proc: one callback. */
    method Proc(diskBlock: nat, fileBlock: nat)
      requires Valid()
      requires 0 < diskBlock < g.total
      requires start <= fileBlock
      requires forall b :: b in seen ==> b < fileBlock
      modifies this
      ensures Valid()
      ensures seen == old(seen)[fileBlock := diskBlock]
      ensures first + num == fileBlock + 1
    {
      hide Records, PendingOk;
      var superRegion := IntersectWithSuper(g, diskBlock, 1);
      assert superRegion == g.InSuper(diskBlock);
      var barrier := superRegion || diskBlock >= boundary;
      assert first + num <= fileBlock by {
        if 0 < num { assert first + num - 1 in seen; }
      }
      if (0 < num && barrier) || fileBlock > first + num || diskBlock != disk + num {
        Restart(diskBlock, fileBlock, superRegion);
      } else {
        Extend(diskBlock, fileBlock);
      }
    }

    /** The branch that only counts one block more. */
    method Extend(diskBlock: nat, fileBlock: nat)
      requires Valid() && 0 < num && start <= fileBlock == first + num && diskBlock == disk + num
      requires !g.InSuper(diskBlock) && diskBlock < boundary
      modifies this`seen, this`num
      ensures Valid() && seen == old(seen)[fileBlock := diskBlock] && first + num == fileBlock + 1
    {
      hide Records, PendingOk;
      PendingGrow(g, disk, num, boundary);
      RecordsExtend(g, seen, extents, start, first, fileBlock, diskBlock);
      seen := seen[fileBlock := diskBlock];
      num := num + 1;
    }

    /** The branch of block_iterate_proc that records what is pending and opens a
        new run at the callback. */
    method Restart(diskBlock: nat, fileBlock: nat, superRegion: bool)
      requires Valid()
      requires 0 < diskBlock < g.total
      requires start <= fileBlock && first + num <= fileBlock
      requires superRegion == g.InSuper(diskBlock)
      modifies this
      ensures Valid()
      ensures seen == old(seen)[fileBlock := diskBlock]
      ensures first + num == fileBlock + 1
    {
      hide Records, PendingOk;
      RecordPending();
      RecordHole(fileBlock);
      RecordsExtend(g, seen, extents, start, fileBlock, fileBlock, diskBlock);
      var found, i := LookupBlockGroup(g, diskBlock);
      PendingStart(g, diskBlock, i);
      boundary := if superRegion then RoundUp(diskBlock, g.stripe) else g.groups[i].End();
      first, disk, num := fileBlock, diskBlock, 1;
      seen := seen[fileBlock := diskBlock];
    }

    /** Close the stream at `end`: the pending run, then a hole up to the end of
        the range. */
    method Finish(end: nat) returns (es: seq<Extent>)
      requires Valid()
      modifies this`extents, this`first, this`num
      ensures es == extents && seen == old(seen)
      ensures first == if end > old(first + num) then end else old(first + num)
      ensures Records(g, seen, es, start, first)
    {
      RecordPending();
      RecordHole(end);
      if end > first { first := end; }
      es := extents;
    }
  }

  datatype Callback = Callback(file: nat, disk: nat)

  ghost predicate Increasing(cbs: seq<Callback>) {
    forall i, j :: 0 <= i < j < |cbs| ==> cbs[i].file < cbs[j].file
  }

  /** The first `n` callbacks as a map from file block to disk block. */
  ghost function CallbackMap(cbs: seq<Callback>, n: nat): map<nat, nat>
    requires Increasing(cbs) && n <= |cbs|
  {
    map i | 0 <= i < n :: cbs[i].file := cbs[i].disk
  }

  lemma NoCallbacks(cbs: seq<Callback>)
    requires Increasing(cbs)
    ensures CallbackMap(cbs, 0) == map[]
  {
  }

  lemma CallbackMapStep(cbs: seq<Callback>, n: nat)
    requires Increasing(cbs) && n < |cbs|
    ensures forall b :: b in CallbackMap(cbs, n) ==> b < cbs[n].file
    ensures CallbackMap(cbs, n + 1) == CallbackMap(cbs, n)[cbs[n].file := cbs[n].disk]
  {
  }

  /** create_file_extents: the callbacks of one ext2 inode, then the closing flush
      up to the last block of the file. */
  method CreateFileExtents(g: Geometry, cbs: seq<Callback>, lastBlock: nat) returns (es: seq<Extent>)
    requires g.Valid() && g.total <= U64_MAX
    requires Increasing(cbs)
    requires forall i :: 0 <= i < |cbs| ==> 0 < cbs[i].disk < g.total
    ensures Records(g, CallbackMap(cbs, |cbs|), es, 0,
                    if cbs != [] && lastBlock <= cbs[|cbs| - 1].file then cbs[|cbs| - 1].file + 1 else lastBlock)
  {
    hide BlkIterate.Valid, Records, CallbackMap;
    var data := new BlkIterate(g, 0);
    var i: nat := 0;
    NoCallbacks(cbs);
    while i < |cbs|
      invariant i <= |cbs| && data.Valid() && fresh(data) && data.g == g && data.start == 0
      invariant data.seen == CallbackMap(cbs, i)
      invariant data.first + data.num == if i == 0 then 0 else cbs[i - 1].file + 1
    {
      CallbackMapStep(cbs, i);
      data.Proc(cbs[i].disk, cbs[i].file);
      i := i + 1;
    }
    es := data.Finish(lastBlock);
  }

  /** The ext2-used blocks of a range, each mapped to itself. */
  ghost function UsedIdentity(used: set<nat>, from: nat, to: nat): map<nat, nat> {
    map b | from <= b < to && b in used :: b
  }

  /** create_image_file_range: one stretch of the ext2 image file, read off the
      ext2 block bitmap. */
  method CreateImageFileRange(g: Geometry, used: set<nat>, from: nat, to: nat) returns (es: seq<Extent>)
    requires g.Valid() && g.total <= U64_MAX
    requires 0 < from <= to <= g.total
    ensures Records(g, UsedIdentity(used, from, to), es, from, to)
  {
    hide BlkIterate.Valid, Records;
    var data := new BlkIterate(g, from);
    var block := from;
    while block < to
      invariant from <= block <= to && data.Valid() && fresh(data) && data.g == g && data.start == from
      invariant data.seen == UsedIdentity(used, from, block)
      invariant data.first + data.num <= block
    {
      if block in used {
        data.Proc(block, block);
      }
      assert UsedIdentity(used, from, block + 1) ==
        if block in used then UsedIdentity(used, from, block)[block := block] else UsedIdentity(used, from, block);
      block := block + 1;
    }
    es := data.Finish(to);
  }
}
