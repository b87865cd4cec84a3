/**
  The data side of an in-place conversion: the device, the free-space map, the
  extent items of both trees, and the relocator that clears SYSTEM block groups
  and super block stripes.
 */
module Convert {
  import opened Basics
  import opened Layout
  import opened Tiling
  import opened RefTree
  import opened Allocator
  import opened View
  import opened Relocation
  import opened Image
  import opened Accounting

  /** The device with the tree blocks on it. */
  function Overlay(disk: seq<Content>, trees: map<nat, Content>): (r: seq<Content>)
    ensures |r| == |disk|
  {
    seq(|disk|, i requires 0 <= i < |disk| => if i in trees then trees[i] else disk[i])
  }

  /** The state that a conversion starts from. */
  lemma StartOk(g: Geometry, used: set<nat>, first: nat, disk: seq<Content>, files: Refs, trees: map<nat, Content>)
    requires |disk| == g.total && (forall s: nat :: Live(files, s) ==> s in used)
    requires forall s :: s in trees ==> Writable(g, used, s)
    ensures Intact(g, used, disk, Overlay(disk, trees))
    ensures var spare := InitialFree(g, used, first) - trees.Keys;
      SpaceOk(g, used, files, spare) && MetaOk(g, used, files, spare, trees.Keys) && spare !! used
  {}

  class Converter {
    const g: Geometry
    const used: set<nat>
    const space: Space
    ghost const disk0: seq<Content>
    var disk: seq<Content>
    var refs: Refs
    var meta: set<nat>
    /** How many more tree blocks may be written. */
    var budget: nat
    ghost const firstDataBlock: nat
    ghost const allowance: nat
    /** Sectors that hold copies. */
    ghost var made: set<nat>

    ghost function Spare(): set<nat>
      reads this, space
    {
      space.free + space.pinned
    }

    ghost predicate GeometryOk()
      reads this, space
    {
      && g.Valid() && g.total <= U64_MAX
      && g.groups[0].system && g.stripe < g.groups[0].len
      && space.g == g && space.Valid() && space.free !! space.pinned
      && Intact(g, used, disk0, disk)
    }

    ghost predicate Valid()
      reads this, space
    {
      && GeometryOk()
      && WellFormed(g, refs)
      && SpaceOk(g, used, refs, Spare())
      && MetaOk(g, used, refs, Spare(), meta)
    }

    /** No writable sector is lost. */
    ghost predicate Books()
      reads this, space
    {
      Booked(Room(g, used, firstDataBlock), space.free, space.pinned, meta, made, budget, allowance)
    }

    /** With `left` sectors still to be copied, the copies stay few. */
    ghost predicate Few(left: set<nat>)
      reads this`made
    {
      |made| + |left| <= MostCopies(g, used)
    }

    /** Both, while a range is relocated. */
    ghost predicate Booking(reloc: map<nat, nat>)
      reads this, space
    {
      Books() && Few(LiveReserved(g, refs) - reloc.Keys)
    }

    /** The device was too small: see `Crowded`. */
    ghost predicate Full() {
      Crowded(g, used, firstDataBlock, allowance)
    }

    /** The state after copy_inodes: the file system tree points straight at ext2's
        own data blocks, the tree blocks written so far are in `trees`, and the rest of
        the free map comes from ext2's bitmap. */
    constructor (g: Geometry, used: set<nat>, firstDataBlock: nat, disk: seq<Content>, files: Refs,
                 trees: map<nat, Content>, budget: nat)
      requires g.Valid() && g.total <= U64_MAX && |disk| == g.total
      requires g.groups[0].system && g.stripe < g.groups[0].len
      requires WellFormed(g, files)
      requires forall r :: r in files ==> r.root == FsTree
      requires forall s: nat :: Live(files, s) ==> s in used
      requires forall s :: s in trees ==> Writable(g, used, s)
      ensures Valid() && fresh(space)
      ensures this.g == g && this.used == used && this.disk == Overlay(disk, trees) && this.disk0 == disk
      ensures refs == files && meta == trees.Keys && Spare() !! used
      ensures made == {} && this.firstDataBlock == firstDataBlock && allowance == |trees.Keys| + budget
      ensures space.free == InitialFree(g, used, firstDataBlock) - meta && space.pinned == {} && this.budget == budget
    {
      hide Booked, Room, Intact, SpaceOk, MetaOk, WellFormed, Live, Overlay, InitialFree, Writable;
      this.g, this.used, this.disk, this.disk0 := g, used, Overlay(disk, trees), disk;
      refs, meta, made := files, trees.Keys, {};
      this.budget, this.firstDataBlock, this.allowance := budget, firstDataBlock, |trees.Keys| + budget;
      space := new Space(g, used, firstDataBlock);
      new;
      StartOk(g, used, firstDataBlock, disk, files, trees);
      space.free := space.free - trees.Keys;
      assert Spare() == space.free;
    }

    lemma StartBooks()
      requires Valid() && space.free == InitialFree(g, used, firstDataBlock) - meta && space.pinned == {} && made == {}
      requires allowance == |meta| + budget
      ensures Books()
    {
      BookStart(g, used, firstDataBlock, meta, budget);
    }

    /** Not a single sector is left that could be handed out. */
    ghost predicate NoRoom()
      reads this, space
    {
      forall t: nat :: !Fits(g, space.free, space.pinned, t, 1)
    }

    /** Allocation of one sector through custom_alloc_extent, followed by a write. */
    method AllocAndWrite(content: Content) returns (ok: bool, s: nat)
      requires Valid() && Books() && Few({})
      modifies this`disk, space`free
      ensures Valid()
      ensures !ok ==> disk == old(disk) && space.free == old(space.free) && NoRoom() && Full()
      ensures ok ==> s in old(Spare()) && Writable(g, used, s) && !Live(refs, s) && s !in meta && s !in Spare()
      ensures ok ==> disk == old(disk)[s := content] && space.free == old(space.free) - {s}
    {
      hide Booked, Crowded;
      ok, s := space.AllocExtent(1, 0);
      if !ok {
        FullMeansCrowded(g, used, firstDataBlock, space.free, space.pinned, meta, made, budget, allowance);
      } else {
        FitsWritable(g, used, refs, old(space.free), space.pinned, s);
        assert Range(s, 1) == {s};
        assert space.free == old(space.free) - {s};
        disk := disk[s := content];
      }
    }

    /** The copy of a sector that is in `left`. */
    method AllocCopy(content: Content, ghost left: set<nat>, ghost x: nat) returns (ok: bool, s: nat)
      requires Valid() && Books() && Few(left) && x in left
      modifies this`disk, this`made, space`free
      ensures Valid() && Books()
      ensures !ok ==> disk == old(disk) && space.free == old(space.free) && NoRoom() && Full() && Few(left)
      ensures ok ==> s in old(Spare()) && Writable(g, used, s) && !Live(refs, s) && s !in meta && s !in Spare()
      ensures ok ==> disk == old(disk)[s := content] && space.free == old(space.free) - {s} && Few(left - {x})
    {
      hide SpaceOk, MetaOk, WellFormed, Intact, Booked, Full, NoRoom, Writable, Live;
      ok, s := AllocAndWrite(content);
      if ok {
        BookCopy(Room(g, used, firstDataBlock), old(space.free), space.pinned, meta, made, budget, allowance, s);
        CopyCounted(made, left, x, s, MostCopies(g, used));
        made := made + {s};
      }
    }

    /** The copy of one of the first sectors. */
    method AllocFront(content: Content, ghost last: nat) returns (ok: bool, s: nat)
      requires Valid() && Books() && |made| <= last <= g.stripe
      modifies this`disk, this`made, space`free
      ensures Valid() && Books() && |made| <= last + 1
      ensures !ok ==> disk == old(disk) && space.free == old(space.free) && NoRoom() && Full()
      ensures ok ==> s in old(Spare()) && Writable(g, used, s) && !Live(refs, s) && s !in meta && s !in Spare()
      ensures ok ==> disk == old(disk)[s := content] && space.free == old(space.free) - {s}
    {
      hide SpaceOk, MetaOk, WellFormed, Intact, Booked, Full, NoRoom, Writable, Live;
      ok, s := AllocAndWrite(content);
      if ok {
        BookCopy(Room(g, used, firstDataBlock), old(space.free), space.pinned, meta, made, budget, allowance, s);
        OneMore(made, s);
        made := made + {s};
      }
    }

    /** A new tree block. */
    method AllocTree(content: Content) returns (ok: bool, s: nat)
      requires Valid() && Books() && Few({}) && 0 < budget
      modifies this`disk, this`meta, this`budget, space`free
      ensures Valid() && Books()
      ensures !ok ==> disk == old(disk) && space.free == old(space.free) && meta == old(meta) && NoRoom() && Full()
      ensures ok ==> s in old(Spare()) && Writable(g, used, s) && !Live(refs, s) && s !in old(meta) && s !in Spare()
      ensures ok ==> disk == old(disk)[s := content] && space.free == old(space.free) - {s} && meta == old(meta) + {s}
    {
      hide SpaceOk, MetaOk, WellFormed, Booked, Full, NoRoom, Writable, Live, Intact;
      ok, s := AllocAndWrite(content);
      if ok {
        BookTree(Room(g, used, firstDataBlock), old(space.free), space.pinned, meta, made, budget, allowance, s);
        MetaGrow(g, used, refs, Spare(), meta, s);
        meta, budget := meta + {s}, budget - 1;
      }
    }

    lemma LiveNotSpare(r: Ref)
      requires Valid() && r in refs && 0 < refs[r].disk
      ensures Range(refs[r].disk, refs[r].len) !! Spare()
    {
      forall s | s in Range(refs[r].disk, refs[r].len) ensures s !in Spare() {
        assert refs[r].Holds(s) && Live(refs, s);
      }
    }

    lemma MetaNotSpare(s: nat)
      requires Valid() && s in meta
      ensures s !in Spare()
    {
    }

    /** Is an extent referenced by an item other than `r`? */
    ghost predicate Shared(r: Ref, run: Run)
      reads this
    {
      exists q :: q in refs && q != r && refs[q] == run
    }

    /** btrfs_free_extent for the reference that `r` held: the last reference pins
        the run, except that custom_free_extent withholds super block stripes. */
    method DropReference(r: Ref)
      requires Valid() && r in refs && 0 < refs[r].disk && Reserved(g, refs[r].disk)
      modifies this`refs, space`pinned
      ensures Valid() && refs == old(refs) - {r}
      ensures old(Books()) ==> Books()
      ensures SpareGrewReserved(g, old(Spare()), Spare())
      ensures var run := old(refs)[r];
        space.pinned == old(space.pinned) +
          if old(Shared(r, refs[r])) || g.TouchesSuper(run.disk, run.len) then {} else Range(run.disk, run.len)
    {
      hide WellFormed, SpaceOk, MetaOk, Intact, Booked;
      var run := refs[r];
      assert RunOk(g, run) by { Ok(r); }
      var shared := exists q | q in refs :: q != r && refs[q] == run;
      var touches := IntersectWithSuper(g, run.disk, run.len);
      DropKeeps(g, used, refs, Spare(), meta, r);
      if !shared && !touches {
        PinKeeps(g, used, refs, Spare(), meta, r, run);
        LiveNotSpare(r);
        ghost var spare := Spare();
        if Books() { DropBooked(run); }
        space.pinned := space.pinned + Range(run.disk, run.len);
        assert Spare() == spare + Range(run.disk, run.len);
      }
      refs := refs - {r};
    }

    lemma DropBooked(run: Run)
      requires g.Valid() && Books() && RunOk(g, run) && 0 < run.disk && Reserved(g, run.disk)
      ensures Booked(Room(g, used, firstDataBlock), space.free, space.pinned + Range(run.disk, run.len), meta, made,
                     budget, allowance)
    {
      hide Booked;
      forall s | s in Range(run.disk, run.len) ensures s !in Room(g, used, firstDataBlock) { RunReserved(g, run, s); }
      BookPin(Room(g, used, firstDataBlock), space.free, space.pinned, meta, made, budget, allowance,
              Range(run.disk, run.len));
    }

    lemma Sized()
      requires Valid()
      ensures |disk| == g.total
    {
    }

    lemma Ok(r: Ref)
      requires Valid() && r in refs
      ensures RunOk(g, refs[r])
    {
    }

    /** One sector of a relocated extent: reuse the copy made for the other tree, or
        allocate a sector and copy into it. */
    method RelocateSector(s: nat, reloc: map<nat, nat>, ghost live: set<nat>) returns (ok: bool, reloc': map<nat, nat>)
      requires Valid() && RelocOk(g, used, disk, Spare(), meta, reloc)
      requires s < g.total && Reserved(g, s)
      requires Books() && Few(live - reloc.Keys) && s in live
      modifies this`disk, this`made, space`free
      ensures Books() && Few(live - reloc'.Keys)
      ensures Valid() && RelocOk(g, used, disk, Spare(), meta, reloc')
      ensures OnlySpareChanged(g, used, old(Spare()), old(disk), disk) && Spare() <= old(Spare())
      ensures s in reloc ==> ok && reloc' == reloc
      ensures ok ==> s in reloc' && reloc' == reloc[s := reloc'[s]] && 0 < reloc'[s] < g.total
      ensures !ok ==> reloc' == reloc && NoRoom() && Full()
      ensures CopiesFrom(reloc, reloc', old(Spare()))
    {
      hide WellFormed, SpaceOk, MetaOk, Books, Few, Full, NoRoom;
      if s in reloc {
        return true, reloc;
      }
      var t: nat;
      ok, t := AllocCopy(disk[s], live - reloc.Keys, s);
      reloc' := reloc;
      if ok {
        RelocGrow(g, used, old(disk), old(Spare()), meta, reloc, s, t);
        assert Spare() == old(Spare()) - {t};
        reloc' := reloc[s := t];
        assert live - reloc'.Keys == live - reloc.Keys - {s};
      }
    }

    /** The copying loop of relocate_one_reference, over the sectors of `run` that
        item `r` used to reference. */
    method CopyRun(r: Ref, run: Run, reloc: map<nat, nat>, ghost live: set<nat>)
      returns (ok: bool, es: seq<Extent>, reloc': map<nat, nat>)
      requires Valid() && RelocOk(g, used, disk, Spare(), meta, reloc)
      requires RunOk(g, run) && 0 < run.disk && Reserved(g, run.disk)
      requires Books() && Few(live - reloc.Keys) && Range(run.disk, run.len) <= live
      modifies this`disk, this`made, space`free
      ensures Valid() && RelocOk(g, used, disk, Spare(), meta, reloc')
      ensures Books() && Few(live - reloc'.Keys)
      ensures OnlySpareChanged(g, used, old(Spare()), old(disk), disk) && Spare() <= old(Spare())
      ensures reloc'.Keys <= reloc.Keys + Range(run.disk, run.len)
      ensures forall s :: s in reloc ==> s in reloc' && reloc'[s] == reloc[s]
      ensures CopiesFrom(reloc, reloc', old(Spare()))
      ensures ok ==> forall s: nat :: run.disk <= s < run.disk + run.len ==> s in reloc'
      ensures ok ==> Records(g, Target(r.off, run.disk, run.len, reloc'), es, r.off, r.off + run.len)
      ensures !ok ==> NoRoom() && Full()
    {
      hide Valid, NoRoom, Spare, RunOk, Reserved, CopiedUpTo, BlkIterate.Valid, Records, RelocOk, OnlySpareChanged,
           Target, Books, Few, Full;
      assert g.Valid() && g.total <= U64_MAX && |disk| == g.total by { Sound(); Sized(); RunsFine(); }
      hide Geometry.Valid;
      var data := new BlkIterate(g, r.off);
      reloc' := reloc;
      var j: nat := 0;
      ChangeNothing(g, used, Spare(), disk);
      TargetEmpty(r.off, run.disk, reloc');
      CopyStart(reloc, run, old(Spare()));
      while j < run.len
        invariant j <= run.len && Valid() && RelocOk(g, used, disk, Spare(), meta, reloc')
        invariant Books() && Few(live - reloc'.Keys)
        invariant OnlySpareChanged(g, used, old(Spare()), old(disk), disk) && Spare() <= old(Spare())
        invariant CopiedUpTo(reloc, reloc', run, j, old(Spare()))
        invariant fresh(data) && data.Valid() && data.g == g && data.start == r.off
        invariant data.seen == Target(r.off, run.disk, j, reloc') && data.first + data.num == r.off + j
      {
        var s := run.disk + j;
        assert s < g.total && Reserved(g, s) by { RunReserved(g, run, s); }
        var prior := reloc';
        ghost var disk1, spare1 := disk, Spare();
        ok, reloc' := RelocateSector(s, prior, live);
        ChangeMore(g, used, old(Spare()), spare1, old(disk), disk1, disk);
        CopyStep(reloc, prior, reloc', run, j, old(Spare()), spare1, ok);
        if !ok {
          CopyEnd(reloc, reloc', run, j, old(Spare()));
          return false, [], reloc';
        }
        if s !in prior { TargetGrow(r.off, run.disk, j, prior, s, reloc'[s]); }
        TargetStep(r.off, run.disk, j, reloc');
        TargetKeys(r.off, run.disk, j, reloc');
        data.Proc(reloc'[s], r.off + j);
        j := j + 1;
      }
      CopyEnd(reloc, reloc', run, j, old(Spare()));
      ok := true;
      es := data.Finish(0);
    }

    /** The relocation map after the first `j` sectors of a run. */
    static ghost predicate CopiedUpTo(reloc: map<nat, nat>, reloc': map<nat, nat>, run: Run, j: nat, spare: set<nat>) {
      && j <= run.len && reloc'.Keys <= reloc.Keys + Range(run.disk, run.len) && CopiesFrom(reloc, reloc', spare)
      && (forall s :: s in reloc ==> s in reloc' && reloc'[s] == reloc[s])
      && forall s: nat :: run.disk <= s < run.disk + j ==> s in reloc'
    }

    static lemma CopyStart(reloc: map<nat, nat>, run: Run, spare: set<nat>)
      ensures CopiedUpTo(reloc, reloc, run, 0, spare)
    {}

    static lemma CopyStep(reloc: map<nat, nat>, prior: map<nat, nat>, reloc': map<nat, nat>, run: Run, j: nat,
                          spare: set<nat>, now: set<nat>, ok: bool)
      requires CopiedUpTo(reloc, prior, run, j, spare) && j < run.len && now <= spare && CopiesFrom(prior, reloc', now)
      requires run.disk + j in prior ==> reloc' == prior
      requires ok ==> run.disk + j in reloc' && reloc' == prior[run.disk + j := reloc'[run.disk + j]]
      requires !ok ==> reloc' == prior
      ensures CopiedUpTo(reloc, reloc', run, if ok then j + 1 else j, spare)
    {}

    static lemma CopyEnd(reloc: map<nat, nat>, reloc': map<nat, nat>, run: Run, j: nat, spare: set<nat>)
      requires CopiedUpTo(reloc, reloc', run, j, spare)
      ensures reloc'.Keys <= reloc.Keys + Range(run.disk, run.len) && CopiesFrom(reloc, reloc', spare)
      ensures forall s :: s in reloc ==> s in reloc' && reloc'[s] == reloc[s]
      ensures j == run.len ==> forall s: nat :: run.disk <= s < run.disk + run.len ==> s in reloc'
    {}

    static lemma RunReserved(g: Geometry, run: Run, s: nat)
      requires g.Valid() && RunOk(g, run) && 0 < run.disk && Reserved(g, run.disk) && run.disk <= s < run.disk + run.len
      ensures s < g.total && Reserved(g, s)
    {
      ReservedWhole(g, run.disk, run.len, run.disk, s);
    }

    /** relocate_one_reference: give item `r`, which references `run`, new sectors.
        Returns 0 when done, 1 when the item references something else, -1 when
        space ran out. */
    method RelocateOneReference(r: Ref, run: Run, reloc: map<nat, nat>) returns (ret: int, reloc': map<nat, nat>)
      requires Valid() && RelocOk(g, used, disk, Spare(), meta, reloc)
      requires r in refs && 0 < run.disk && Reserved(g, run.disk) && Booking(reloc)
      modifies this`refs, this`disk, this`made, space
      ensures ret == 0 || ret == 1 || ret == -1
      ensures Intact(g, used, disk0, disk)
      ensures ret == 1 <==> old(refs[r]) != run
      ensures ret == 1 ==> refs == old(refs) && reloc' == reloc
      ensures 0 <= ret ==> Valid() && RelocOk(g, used, disk, Spare(), meta, reloc')
      ensures OnlySpareChanged(g, used, old(Spare()), old(disk), disk)
      ensures SpareGrewReserved(g, old(Spare()), Spare())
      ensures reloc'.Keys <= reloc.Keys + Range(run.disk, run.len)
      ensures forall s :: s in reloc ==> s in reloc' && reloc'[s] == reloc[s]
      ensures CopiesFrom(reloc, reloc', old(Spare()))
      ensures ret == 0 ==> forall s: nat :: run.disk <= s < run.disk + run.len ==> s in reloc'
      ensures ret == 0 ==> Moved(old(refs), refs, r, run, reloc')
      ensures ret == 0 ==> PiecesWithin(old(refs), refs, r, run.len)
      ensures Books() && (0 <= ret ==> Few(LiveReserved(g, old(refs)) - reloc'.Keys))
      ensures ret == -1 ==> NoRoom() && Full()
    {
      hide WellFormed, SpaceOk, MetaOk, Records, RelocOk, Intact, OnlySpareChanged, Target, Moved, PiecesWithin,
           Replace, Books, Few, Full, LiveReserved;
      reloc' := reloc;
      ChangeNothing(g, used, Spare(), disk) by { Sized(); }
      if refs[r] != run {
        return 1, reloc;
      }
      assert RunOk(g, run) by { Ok(r); }
      var before := refs;
      ghost var live := LiveReserved(g, refs);
      assert Range(run.disk, run.len) <= live by { RunLive(r); }
      DropReference(r);
      RelocReserved(g, used, disk, old(Spare()), Spare(), meta, reloc);
      ghost var spare1 := Spare();
      var ok: bool, es: seq<Extent>;
      ok, es, reloc' := CopyRun(r, run, reloc, live);
      ChangeReserved(g, used, old(Spare()), spare1, old(disk), disk);
      ChangeIntact(g, used, old(Spare()), disk0, old(disk), disk);
      CopiesReserved(g, used, disk, old(Spare()), spare1, Spare(), meta, reloc, reloc');
      if !ok {
        return -1, reloc';
      }
      RecordPieces(before, r, run, es, reloc');
      ret := 0;
    }

    lemma RunLive(r: Ref)
      requires Valid() && r in refs && 0 < refs[r].disk && Reserved(g, refs[r].disk)
      ensures Range(refs[r].disk, refs[r].len) <= LiveReserved(g, refs)
    {
      var run := refs[r];
      assert RunOk(g, run);
      forall s | s in Range(run.disk, run.len) ensures s in LiveReserved(g, refs) {
        RunReserved(g, run, s);
        assert run.Holds(s);
      }
    }

    /** Inserting the items for the pieces of a relocated extent. */
    method RecordPieces(before: Refs, r: Ref, run: Run, es: seq<Extent>, ghost reloc: map<nat, nat>)
      requires Valid() && RelocOk(g, used, disk, Spare(), meta, reloc)
      requires r in before && before[r] == run && refs == before - {r} && WellFormed(g, before)
      requires forall s: nat :: run.disk <= s < run.disk + run.len ==> s in reloc
      requires Records(g, Target(r.off, run.disk, run.len, reloc), es, r.off, r.off + run.len)
      modifies this`refs
      ensures Valid() && (old(Books()) ==> Books())
      ensures Moved(before, refs, r, run, reloc)
      ensures PiecesWithin(before, refs, r, run.len)
    {
      hide WellFormed, SpaceOk, MetaOk, Intact, Target, Moved, PiecesWithin, Records, RelocOk;
      RecordKeeps(g, used, disk, before, Spare(), meta, reloc, r, run, es);
      refs := Replace(before, r, es);
    }

    ghost function Pool(): set<nat>
      reads this, space
    {
      Spare() + meta
    }

    /** The state of relocate_extents_range between two steps, relative to the
        state it started from. */
    ghost predicate Underway(refs0: Refs, disk1: seq<Content>, pool: set<nat>, start: nat, end: nat,
                             reloc: map<nat, nat>)
      reads this, space
    {
      && Valid() && RelocOk(g, used, disk, Spare(), meta, reloc)
      && Tracks(refs0, refs, reloc)
      && OnlySpareChanged(g, used, pool, disk1, disk) && SpareGrewReserved(g, pool, Pool())
      && CopiesFrom(map[], reloc, pool)
      && (forall s :: s in reloc ==> start <= s < end)
      && LiveShrinks(g, refs0, refs) && ReservedKept(g, refs0, refs)
      && (ImageShape(g, refs0) ==> ImageShape(g, refs))
    }

    /** btrfs_commit_transaction, as far as space goes: pinned sectors become free. */
    method Commit(ghost refs0: Refs, ghost disk1: seq<Content>, ghost pool: set<nat>, ghost start: nat, ghost end: nat,
                  ghost reloc: map<nat, nat>)
      requires Underway(refs0, disk1, pool, start, end, reloc) && Booking(reloc)
      modifies space
      ensures Underway(refs0, disk1, pool, start, end, reloc) && Booking(reloc)
      ensures space.pinned == {} && space.free == old(space.free) + old(space.pinned)
    {
      hide WellFormed, MetaOk, RelocOk, Tracks, OnlySpareChanged, SpareGrewReserved, CopiesFrom, LiveShrinks,
           ImageShape, Booked, Few, LiveReserved;
      BookCommit(Room(g, used, firstDataBlock), space.free, space.pinned, meta, made, budget, allowance);
      ghost var spare := Spare();
      space.free := space.free + space.pinned;
      space.pinned := {};
      assert Spare() == spare;
    }

    /** A tree block copied on write while data is being moved. */
    method CowTreeBlock(content: Content, ghost refs0: Refs, ghost disk1: seq<Content>, ghost pool: set<nat>,
                        ghost start: nat, ghost end: nat, ghost reloc: map<nat, nat>) returns (ok: bool)
      requires Underway(refs0, disk1, pool, start, end, reloc) && Booking(reloc) && 0 < budget
      modifies this`disk, this`meta, this`budget, space
      ensures Underway(refs0, disk1, pool, start, end, reloc) && Booking(reloc)
      ensures !ok ==> NoRoom() && Full()
    {
      hide WellFormed, SpaceOk, MetaOk, RelocOk, Tracks, OnlySpareChanged, SpareGrewReserved, CopiesFrom, LiveShrinks,
           ImageShape, Intact, Books, Few, Full, NoRoom;
      ghost var spare, before, meta1 := Spare(), disk, meta;
      FewEnough(reloc);
      var s;
      ok, s := AllocTree(content);
      if ok {
        RelocCow(g, used, before, spare, meta1, reloc, s, content);
        ChangeOne(g, used, pool, spare + meta1, disk1, before, s, content);
        assert Spare() == spare - {s};
        assert Pool() == spare + old(meta);
      }
    }

    lemma FewEnough(reloc: map<nat, nat>)
      requires Booking(reloc)
      ensures Few({})
    {
    }

    /** A tree block freed while data is being moved. */
    method FreeTreeBlock(s: nat, ghost refs0: Refs, ghost disk1: seq<Content>, ghost pool: set<nat>, ghost start: nat,
                         ghost end: nat, ghost reloc: map<nat, nat>)
      requires Underway(refs0, disk1, pool, start, end, reloc) && Booking(reloc)
      requires s in meta
      modifies this`meta, space
      ensures Underway(refs0, disk1, pool, start, end, reloc) && Booking(reloc)
    {
      hide WellFormed, SpaceOk, MetaOk, RelocOk, Tracks, OnlySpareChanged, SpareGrewReserved, CopiesFrom, LiveShrinks,
           ImageShape, Intact, Booked, Few, LiveReserved;
      BookFree(Room(g, used, firstDataBlock), space.free, space.pinned, meta, made, budget, allowance, s);
      ghost var spare := Spare();
      MetaShrink(g, used, refs, spare, meta, s);
      RelocFree(g, used, disk, spare, meta, reloc, s);
      assert s !in space.free by { MetaNotSpare(s); }
      meta := meta - {s};
      space.pinned := space.pinned + {s};
      assert Spare() == spare + {s};
      assert Pool() == spare + old(meta);
    }

    /** The extent item at or after `from` with the smallest start. */
    method NextItem(from: nat) returns (found: bool, run: Run)
      requires Valid()
      ensures found ==> run in refs.Values && 0 < run.disk && from <= run.disk
      ensures found ==> forall r :: r in refs && 0 < refs[r].disk && from <= refs[r].disk ==> run.disk <= refs[r].disk
      ensures !found ==> forall r :: r in refs && 0 < refs[r].disk ==> refs[r].disk < from
    {
      var d := if from == 0 then 1 else from;
      while d < g.total && !exists r | r in refs :: refs[r].disk == d
        invariant 0 < d && from <= d
        invariant forall r :: r in refs && from <= refs[r].disk < d ==> refs[r].disk == 0
      {
        d := d + 1;
      }
      found := d < g.total;
      run := Run(0, 0);
      if found {
        var r :| r in refs && refs[r].disk == d;
        run := refs[r];
      } else {
        forall r | r in refs && 0 < refs[r].disk ensures refs[r].disk < from {
          Ok(r);
        }
      }
    }

    /** The inline reference of an extent item that belongs to tree `root`. */
    method FindReference(root: Root, run: Run) returns (found: bool, r: Ref)
      ensures found ==> r in refs && r.root == root && refs[r] == run
      ensures !found ==> forall q :: q in refs && q.root == root ==> refs[q] != run
    {
      found := exists q | q in refs :: q.root == root && refs[q] == run;
      r := Ref(root, 0, 0);
      if found {
        r :| r in refs && r.root == root && refs[r] == run;
      }
    }

    /** One call of relocate_one_reference inside relocate_extents_range. */
    method Step(r: Ref, run: Run, reloc: map<nat, nat>, ghost refs0: Refs, ghost disk1: seq<Content>,
                ghost pool: set<nat>, ghost start: nat, ghost end: nat) returns (ok: bool, reloc': map<nat, nat>)
      requires Underway(refs0, disk1, pool, start, end, reloc) && Region(g, start, end)
      requires r in refs && refs[r] == run && 0 < run.disk && start <= run.disk < end && Booking(reloc)
      modifies this`refs, this`disk, this`made, space
      ensures Intact(g, used, disk0, disk) && Books()
      ensures ok ==> Underway(refs0, disk1, pool, start, end, reloc') && Booking(reloc')
      ensures ok ==> ReservedKept(g, old(refs), refs) && (r in refs ==> refs[r].disk == 0 || !Reserved(g, refs[r].disk))
      ensures !ok ==> NoRoom() && Full()
    {
      hide ReservedKept, Reserved;
      hide WellFormed, SpaceOk, MetaOk, RelocOk, Tracks, OnlySpareChanged, SpareGrewReserved, CopiesFrom, LiveShrinks,
           ImageShape, Intact, Moved, PiecesWithin, Region, Booking, Books, Few, Full, NoRoom;
      assert RunOk(g, run) by { Ok(r); }
      RegionReserved(g, start, end, run.disk);
      RunInRegion(g, start, end, run);
      ghost var before, spare, disk2 := refs, Spare(), disk;
      var ret;
      ret, reloc' := RelocateOneReference(r, run, reloc);
      ok := 0 <= ret;
      if ok {
        PoolStep(g, used, pool, spare, Spare(), meta, disk1, disk2, disk, reloc, reloc');
        MovedTracks(g, used, disk, Spare(), meta, refs0, before, refs, r, run, reloc, reloc');
        MovedShrinks(g, used, disk, Spare(), meta, before, refs, r, run, reloc');
        BookingShrinks(before, reloc');
        ShrinksTrans(g, refs0, before, refs);
        assert RunsOk(g, refs) by { RunsFine(); }
        MovedKept(g, used, disk, Spare(), meta, before, refs, r, run, reloc');
        KeptTrans(g, refs0, before, refs);
        if ImageShape(g, before) { MovedShape(g, before, refs, r, run, reloc'); }
      }
    }

    lemma BookingShrinks(before: Refs, reloc: map<nat, nat>)
      requires Books() && Few(LiveReserved(g, before) - reloc.Keys) && LiveShrinks(g, before, refs)
      ensures Booking(reloc)
    {
      hide Books;
      LeftShrinks(g, before, refs, reloc.Keys);
    }

    /** What the trees do between two references, in any order and any number of times:
        copy a block, free one, commit. */
    method WriteTrees(ghost refs0: Refs, ghost disk1: seq<Content>, ghost pool: set<nat>, ghost start: nat,
                      ghost end: nat, ghost reloc: map<nat, nat>) returns (ok: bool)
      requires Underway(refs0, disk1, pool, start, end, reloc) && Booking(reloc)
      modifies this`disk, this`meta, this`budget, space
      ensures Underway(refs0, disk1, pool, start, end, reloc) && Booking(reloc) && Intact(g, used, disk0, disk)
      ensures !ok ==> NoRoom() && Full()
    {
      hide Valid, RelocOk, Tracks, OnlySpareChanged, SpareGrewReserved, CopiesFrom, LiveShrinks, ImageShape, Intact,
           ReservedKept, Booking, Full, NoRoom;
      ok := true;
      var n: nat :| n >= 0;
      while 0 < n && ok
        invariant Underway(refs0, disk1, pool, start, end, reloc) && Booking(reloc)
        invariant !ok ==> NoRoom() && Full()
        decreases n, ok
      {
        var write: bool := *;
        if write && 0 < budget {
          var content: Content := *;
          ok := CowTreeBlock(content, refs0, disk1, pool, start, end, reloc);
        } else if * {
          Commit(refs0, disk1, pool, start, end, reloc);
        } else if meta != {} {
          var s :| s in meta;
          FreeTreeBlock(s, refs0, disk1, pool, start, end, reloc);
        }
        n := n - 1;
      }
      assert Intact(g, used, disk0, disk) by { Sound(); }
    }

    /** No extent item starts in [start, end). */
    ghost predicate NoItems(start: nat, end: nat)
      reads this
    {
      forall r :: r in refs && 0 < refs[r].disk ==> !(start <= refs[r].disk < end)
    }

    /** One extent item of a pass: move the reference that the tree has to it, if any. */
    method PassItem(root: Root, run: Run, cur: nat, start: nat, end: nat, reloc: map<nat, nat>, ghost refs0: Refs,
                    ghost disk1: seq<Content>, ghost pool: set<nat>, ghost first: Refs)
      returns (ok: bool, next: nat, reloc': map<nat, nat>)
      requires Underway(refs0, disk1, pool, start, end, reloc) && Region(g, start, end)
      requires run in refs.Values && 0 < run.disk && FirstFrom(refs, cur, run) && start <= cur <= run.disk < end
      requires ReservedKept(g, first, refs) && (OnePerTree(g, refs0) ==> NoneOf(refs, root, start, cur, end))
      requires Booking(reloc)
      modifies this`refs, this`disk, this`meta, this`made, this`budget, space
      ensures Intact(g, used, disk0, disk) && Books()
      ensures ok ==> Underway(refs0, disk1, pool, start, end, reloc') && run.disk < next && Booking(reloc')
      ensures ok ==> ReservedKept(g, first, refs) && (OnePerTree(g, refs0) ==> NoneOf(refs, root, start, next, end))
      ensures !ok ==> NoRoom() && Full()
    {
      hide Books, Few, Full, NoRoom;
      hide ReservedKept, OnePerTree, NoneOf, FirstFrom, Reserved, WellFormed;
      hide Valid, RelocOk, Tracks, OnlySpareChanged, SpareGrewReserved, CopiesFrom, LiveShrinks, ImageShape, Intact,
           Region;
      assert Intact(g, used, disk0, disk) by { Sound(); }
      assert WellFormed(g, refs) && g.Valid() by { RunsFine(); }
      var has, r := FindReference(root, run);
      if !has {
        if OnePerTree(g, refs0) { PassedOver(g, refs, root, run, start, cur, end); }
        return true, run.disk + 1, reloc;
      }
      ghost var before := refs;
      next := run.disk + run.len;
      assert 0 < run.len by { Sound(); Ok(r); }
      ok, reloc' := Step(r, run, reloc, refs0, disk1, pool, start, end);
      if ok {
        PassStep(g, refs0, first, before, refs, r, start, cur, end);
        ok := WriteTrees(refs0, disk1, pool, start, end, reloc');
      }
    }

    /** One pass of relocate_extents_range over the extent items of a range, for the
        references of one tree.  Tree blocks are written and transactions commit at
        arbitrary points between two references. */
    method RelocatePass(root: Root, start: nat, end: nat, reloc: map<nat, nat>, ghost refs0: Refs,
                        ghost disk1: seq<Content>, ghost pool: set<nat>)
      returns (ok: bool, numExtents: nat, reloc': map<nat, nat>)
      requires Underway(refs0, disk1, pool, start, end, reloc) && Region(g, start, end) && Booking(reloc)
      modifies this`refs, this`disk, this`meta, this`made, this`budget, space
      ensures Intact(g, used, disk0, disk) && Books()
      ensures ok ==> Underway(refs0, disk1, pool, start, end, reloc') && Booking(reloc')
      ensures ok && numExtents == 0 ==> NoItems(start, end)
      ensures ok ==> ReservedKept(g, old(refs), refs) && (OnePerTree(g, refs0) ==> NoneOf(refs, root, start, end, end))
      ensures old(NoItems(start, end)) ==> ok && numExtents == 0
      ensures !ok ==> NoRoom() && Full()
    {
      hide Books, Few, Full, NoRoom;
      hide ReservedKept, OnePerTree, NoneOf, FirstFrom, Reserved, WellFormed;
      hide Valid, RelocOk, Tracks, OnlySpareChanged, SpareGrewReserved, CopiesFrom, LiveShrinks, ImageShape, Intact,
           Region;
      numExtents := 0;
      reloc' := reloc;
      assert Intact(g, used, disk0, disk) by { Sound(); }
      PassStart(g, refs, root, start, end);
      var cur := start;
      while true
        invariant start <= cur && Underway(refs0, disk1, pool, start, end, reloc') && Booking(reloc')
        invariant Intact(g, used, disk0, disk)
        invariant numExtents == 0 ==> cur == start
        invariant old(NoItems(start, end)) ==> numExtents == 0 && refs == old(refs)
        invariant ReservedKept(g, old(refs), refs) && (OnePerTree(g, refs0) ==> NoneOf(refs, root, start, cur, end))
        decreases end - cur
      {
        var found, run := NextItem(cur);
        if !found || end <= run.disk {
          if OnePerTree(g, refs0) { PassDone(root, start, cur, end, found, run); }
          break;
        }
        numExtents := numExtents + 1;
        assert FirstFrom(refs, cur, run) by { FirstItem(cur, run); }
        ok, cur, reloc' := PassItem(root, run, cur, start, end, reloc', refs0, disk1, pool, old(refs));
        if !ok {
          return;
        }
      }
      ok := true;
      Commit(refs0, disk1, pool, start, end, reloc');
      assert Intact(g, used, disk0, disk) by { Sound(); }
    }

    lemma FirstItem(cur: nat, run: Run)
      requires forall r :: r in refs && 0 < refs[r].disk && cur <= refs[r].disk ==> run.disk <= refs[r].disk
      ensures FirstFrom(refs, cur, run)
    {
    }

    /** The last extent of the range has been passed. */
    lemma PassDone(root: Root, start: nat, cur: nat, end: nat, found: bool, run: Run)
      requires NoneOf(refs, root, start, cur, end)
      requires found ==> end <= run.disk
      requires found ==> forall r :: r in refs && 0 < refs[r].disk && cur <= refs[r].disk ==> run.disk <= refs[r].disk
      requires !found ==> forall r :: r in refs && 0 < refs[r].disk ==> refs[r].disk < cur
      ensures NoneOf(refs, root, start, end, end)
    {
    }

    lemma RunsFine()
      requires Valid()
      ensures RunsOk(g, refs) && WellFormed(g, refs) && g.Valid() && g.total <= U64_MAX
    {
    }

    lemma Sound()
      requires Valid()
      ensures Intact(g, used, disk0, disk)
    {
    }

    /** The extent item that starts last before `from`. */
    method PreviousItem(from: nat) returns (found: bool, run: Run)
      requires Valid()
      ensures found ==> run in refs.Values && 0 < run.disk < from
      ensures found ==> forall r :: r in refs && 0 < refs[r].disk < from ==> refs[r].disk <= run.disk
      ensures !found ==> forall r :: r in refs && 0 < refs[r].disk ==> from <= refs[r].disk
    {
      var d := from;
      while 1 < d && !exists r | r in refs :: refs[r].disk == d - 1
        invariant 0 <= d <= from
        invariant forall r :: r in refs && d <= refs[r].disk ==> from <= refs[r].disk
      {
        d := d - 1;
      }
      found := 1 < d;
      run := Run(0, 0);
      if found {
        var r :| r in refs && refs[r].disk == d - 1;
        run := refs[r];
      }
    }

    /** relocate_extents_range: at most 17 passes, alternating between the image tree
        and the file system tree.  Success means that a pass met no extent item.  When
        each tree refers to an extent once, the third pass meets none, so failure
        means that no sector was left. */
    method RelocateExtentsRange(startByte: nat, endByte: nat) returns (ok: bool)
      requires Valid() && Region(g, startByte, endByte) && Booking(map[])
      modifies this`refs, this`disk, this`meta, this`made, this`budget, space
      ensures Intact(g, used, disk0, disk) && Books() && (ok ==> Booking(map[]))
      ensures ok ==> Valid() && SameView(g, old(refs), old(disk), refs, disk)
      ensures ok ==> Clean(refs, startByte, endByte) && LiveShrinks(g, old(refs), refs)
      ensures ok ==> (ImageShape(g, old(refs)) ==> ImageShape(g, refs))
      ensures ok ==> ReservedKept(g, old(refs), refs)
      ensures !ok && old(OnePerTree(g, refs)) ==> NoRoom() && Full()
    {
      hide Valid, RelocOk, Tracks, OnlySpareChanged, SpareGrewReserved, CopiesFrom, LiveShrinks, ImageShape, Intact,
           Region, SameView, CopiesOk, WellFormed, SpaceOk, MetaOk, Books, Few, Full, NoRoom;
      hide ReservedKept, OnePerTree, NoneOf, NoItems;
      ghost var refs0, disk1, pool, spare0, meta0 := refs, disk, Pool(), Spare(), meta;
      var start := startByte;
      var has, prev := PreviousItem(startByte);
      if has && prev.disk + prev.len > startByte {
        NotStraddling(startByte, endByte, prev);
        start := prev.disk;
      }
      StartUnderway(startByte, endByte);
      var reloc: map<nat, nat> := map[];
      var pass := 0;
      var num := 1;
      ok := true;
      while 0 < num && pass <= 16
        invariant pass <= 17 && start == startByte && (0 < pass || 0 < num)
        invariant Underway(refs0, disk1, pool, start, endByte, reloc) && Booking(reloc)
        invariant num == 0 ==> NoItems(start, endByte)
        invariant OnePerTree(g, refs0) && 1 <= pass ==> NoneOf(refs, ImageTree, start, endByte, endByte)
        invariant OnePerTree(g, refs0) && 2 <= pass ==> NoneOf(refs, FsTree, start, endByte, endByte)
        invariant OnePerTree(g, refs0) && 3 <= pass ==> num == 0
        decreases 17 - pass
      {
        ghost var before := refs;
        if OnePerTree(g, refs0) && 2 <= pass { NothingLeft(start, endByte); }
        ok, num, reloc := RelocatePass(if pass % 2 == 0 then ImageTree else FsTree, start, endByte, reloc, refs0, disk1,
                                       pool);
        if !ok {
          return;
        }
        if OnePerTree(g, refs0) && 1 <= pass {
          assert g.Valid() by { RunsFine(); }
          KeptNone(g, before, refs, ImageTree, start, endByte);
          if 2 <= pass { KeptNone(g, before, refs, FsTree, start, endByte); }
        }
        pass := pass + 1;
      }
      ok := num == 0;
      Settle(refs0, disk1, spare0, meta0, startByte, endByte, reloc, ok);
      if ok {
        LeftForgets(g, refs, startByte, endByte, reloc.Keys);
        NothingMoved();
      }
    }

    lemma NothingLeft(start: nat, end: nat)
      requires NoneOf(refs, ImageTree, start, end, end) && NoneOf(refs, FsTree, start, end, end)
      ensures NoItems(start, end)
    {
      BothGone(refs, start, end);
    }

    lemma NotStraddling(start: nat, end: nat, u: Run)
      requires Valid() && Region(g, start, end) && u in refs.Values
      ensures !(0 < u.disk < start < u.disk + u.len)
    {
      var r :| r in refs && refs[r] == u;
      assert RunOk(g, u);
      if 0 < u.disk < start < u.disk + u.len {
        RegionNonempty(g, start, end);
        NoStraddle(g, start, end, u, start);
        assert false;
      }
    }

    lemma StartUnderway(start: nat, end: nat)
      requires Valid()
      ensures Underway(refs, disk, Pool(), start, end, map[])
      ensures WellFormed(g, refs) && SpaceOk(g, used, refs, Spare()) && MetaOk(g, used, refs, Spare(), meta)
    {
      TracksRefl(refs);
    }

    /** From the last state of the loop to the promises of the whole call. */
    lemma Settle(refs0: Refs, disk1: seq<Content>, spare0: set<nat>, meta0: set<nat>, start: nat, end: nat,
                 reloc: map<nat, nat>, done: bool)
      requires Underway(refs0, disk1, spare0 + meta0, start, end, reloc) && Region(g, start, end)
      requires WellFormed(g, refs0) && SpaceOk(g, used, refs0, spare0) && MetaOk(g, used, refs0, spare0, meta0)
      requires done ==> NoItems(start, end)
      ensures Valid() && Intact(g, used, disk0, disk) && LiveShrinks(g, refs0, refs)
      ensures ImageShape(g, refs0) ==> ImageShape(g, refs)
      ensures done ==> Clean(refs, start, end) && SameView(g, refs0, disk1, refs, disk)
    {
      hide SpaceOk, MetaOk, Tracks, ImageShape, SameView, OnlySpareChanged, CopiesFrom, RelocOk, CopiesOk, Region,
           LiveShrinks;
      if done {
        forall s: nat | start <= s < end ensures !Live(refs, s) {
          if Live(refs, s) {
            var r :| r in refs && refs[r].Holds(s);
            NoStraddle(g, start, end, refs[r], s);
            assert false;
          }
        }
        PoolCopies(g, used, refs0, disk1, disk, spare0, meta0, Spare(), meta, reloc);
        TracksDone(g, refs0, disk1, refs, disk, reloc);
      }
    }

    /** cleanup_sys_chunk: clear every SYSTEM block group, then the super block
        stripes. */
    method CleanupSysChunk() returns (ok: bool)
      requires Valid() && Booking(map[])
      modifies this`refs, this`disk, this`meta, this`made, this`budget, space
      ensures Intact(g, used, disk0, disk) && Books()
      ensures ok ==> Valid() && SameView(g, old(refs), old(disk), refs, disk)
      ensures ok ==> forall s :: Live(refs, s) ==> !Reserved(g, s)
      ensures ok ==> (ImageShape(g, old(refs)) ==> ImageShape(g, refs))
      ensures !ok && old(OnePerTree(g, refs)) ==> NoRoom() && Full()
    {
      hide Books, Few, Full, NoRoom;
      hide LiveShrinks, ImageShape, Intact, SameView, Clean, WellFormed, SpaceOk, MetaOk, ReservedKept, OnePerTree;
      ghost var refs0, disk1 := refs, disk;
      assert SameView(g, refs0, disk1, refs, disk) by { Sized(); SameViewRefl(g, refs, disk); }
      ok := true;
      var i := 0;
      while i < |g.groups|
        invariant Booking(map[])
        invariant i <= |g.groups| && Valid() && SameView(g, refs0, disk1, refs, disk)
        invariant OnePerTree(g, refs0) ==> OnePerTree(g, refs)
        invariant ImageShape(g, refs0) ==> ImageShape(g, refs)
        invariant forall j :: 0 <= j < i && g.groups[j].system ==> Clean(refs, g.groups[j].start, g.groups[j].End())
      {
        if g.groups[i].system {
          ghost var refs1, disk2 := refs, disk;
          ok := RelocateExtentsRange(g.groups[i].start, g.groups[i].End());
          if !ok { return; }
          SameViewTrans(g, refs0, disk1, refs1, disk2, refs, disk);
          if OnePerTree(g, refs0) { KeptOne(g, refs1, refs); }
          forall j | 0 <= j < i && g.groups[j].system ensures Clean(refs, g.groups[j].start, g.groups[j].End()) {
            StaysClean(g, refs1, refs, g.groups[j].start, g.groups[j].End());
          }
        }
        i := i + 1;
      }
      var m := 0;
      while m < SUPER_MIRROR_MAX
        invariant Booking(map[])
        invariant m <= SUPER_MIRROR_MAX && Valid() && SameView(g, refs0, disk1, refs, disk)
        invariant OnePerTree(g, refs0) ==> OnePerTree(g, refs)
        invariant ImageShape(g, refs0) ==> ImageShape(g, refs)
        invariant forall j :: 0 <= j < |g.groups| && g.groups[j].system ==>
          Clean(refs, g.groups[j].start, g.groups[j].End())
        invariant forall q: nat :: q < m ==> Clean(refs, g.SuperStripe(q), g.SuperStripe(q) + g.stripe)
      {
        ghost var refs1, disk2 := refs, disk;
        ok := RelocateExtentsRange(g.SuperStripe(m), g.SuperStripe(m) + g.stripe);
        if !ok { return; }
        SameViewTrans(g, refs0, disk1, refs1, disk2, refs, disk);
        if OnePerTree(g, refs0) { KeptOne(g, refs1, refs); }
        forall j | 0 <= j < |g.groups| && g.groups[j].system ensures Clean(refs, g.groups[j].start, g.groups[j].End()) {
          StaysClean(g, refs1, refs, g.groups[j].start, g.groups[j].End());
        }
        forall q: nat | q < m ensures Clean(refs, g.SuperStripe(q), g.SuperStripe(q) + g.stripe) {
          StaysClean(g, refs1, refs, g.SuperStripe(q), g.SuperStripe(q) + g.stripe);
        }
        m := m + 1;
      }
      AllClean(g, refs);
    }

    /** The image under construction: the converter's state is sound, and the image
        is finished up to `last`. */
    ghost predicate Building(files: Refs, img: Refs, last: nat)
      reads this, space
    {
      && GeometryOk() && (forall s :: s in meta ==> Writable(g, used, s) && s !in Spare())
      && FilesOk(g, used, files) && refs == files + img
      && ImageUpTo(g, used, files, img, last) && CopiesHold(g, img, disk0, disk)
      && Spare() !! used && (forall s :: s in Spare() ==> s < g.total && !g.InSuper(s))
      && (forall r :: r in img && r.off <= g.stripe ==> img[r].disk !in Spare() && img[r].disk !in meta)
    }

    /** A tree block written while the image is being made. */
    method WriteTreeBlock(content: Content, ghost files: Refs, ghost img: Refs, ghost last: nat) returns (ok: bool)
      requires Building(files, img, last) && Books() && Few({}) && 0 < budget
      modifies this`disk, this`meta, this`budget, space`free
      ensures Building(files, img, last) && Books()
      ensures !ok ==> NoRoom() && Full()
    {
      hide Booked, Few, Full;
      hide ImageUpTo, FilesOk, CopiesHold, Intact, WellFormed, SpaceOk, MetaOk;
      BuildingValid(files, img, last);
      assert |disk| == g.total by { Sized(); }
      var s;
      ok, s := AllocTree(content);
      if ok {
        CopiesUndisturbed(g, img, disk0, old(disk), s, content);
        assert Spare() <= old(Spare());
      }
    }

    method CommitBuilding(ghost files: Refs, ghost img: Refs, ghost last: nat)
      requires Building(files, img, last) && Books()
      modifies space
      ensures Building(files, img, last) && Books()
    {
      hide ImageUpTo, FilesOk, CopiesHold, Intact, Booked;
      BookCommit(Room(g, used, firstDataBlock), space.free, space.pinned, meta, made, budget, allowance);
      ghost var spare := Spare();
      space.free := space.free + space.pinned;
      space.pinned := {};
      assert Spare() == spare;
    }

    method FreeBuilding(s: nat, ghost files: Refs, ghost img: Refs, ghost last: nat)
      requires Building(files, img, last) && Books() && s in meta
      modifies this`meta, space
      ensures Building(files, img, last) && Books()
    {
      hide ImageUpTo, FilesOk, CopiesHold, Intact, Booked;
      BookFree(Room(g, used, firstDataBlock), space.free, space.pinned, meta, made, budget, allowance, s);
      ghost var spare := Spare();
      meta := meta - {s};
      space.pinned := space.pinned + {s};
      assert Spare() == spare + {s};
    }

    /** What the trees do between two steps of image creation. */
    method GrowTrees(ghost files: Refs, ghost img: Refs, ghost last: nat) returns (ok: bool)
      requires Building(files, img, last) && Books() && Few({})
      modifies this`disk, this`meta, this`budget, space
      ensures Building(files, img, last) && Books()
      ensures !ok ==> NoRoom() && Full()
    {
      hide Building, Books, Few, Full, NoRoom;
      ok := true;
      var n: nat :| n >= 0;
      while 0 < n && ok
        invariant Building(files, img, last) && Books() && Few({})
        invariant !ok ==> NoRoom() && Full()
        decreases n, ok
      {
        var write: bool := *;
        if write && 0 < budget {
          var content: Content := *;
          ok := WriteTreeBlock(content, files, img, last);
        } else if * {
          CommitBuilding(files, img, last);
        } else if meta != {} {
          var s :| s in meta;
          FreeBuilding(s, files, img, last);
        }
        n := n - 1;
      }
    }

    lemma BuildingValid(files: Refs, img: Refs, last: nat)
      requires Building(files, img, last)
      ensures Valid()
    {
      hide ImageUpTo, CopiesHold, FilesOk, Intact;
      ImageWellFormed(g, used, files, img, last);
      ImageSpace(g, used, files, img, last, Spare(), meta);
    }

    /** One of the first sectors, copied out of the way. */
    method CopyFront(files: Refs, img: Refs, last: nat) returns (ok: bool, img': Refs)
      requires Building(files, img, last) && last <= g.stripe && Books() && |made| <= last
      modifies this`disk, this`refs, this`made, space`free
      ensures Intact(g, used, disk0, disk) && Books() && |made| <= last + 1
      ensures ok ==> Building(files, img', last + 1)
      ensures !ok ==> NoRoom() && Full()
    {
      hide Booked, Full;
      hide ImageUpTo, FilesOk, CopiesHold, Intact, WellFormed, SpaceOk, MetaOk, Geometry.Valid, NoRoom, Live, Reserved;
      BuildingValid(files, img, last);
      FrontReserved(last);
      img' := img;
      var t: nat;
      ok, t := AllocFront(disk[last], last);
      if ok {
        assert forall r :: r in img && r.off <= g.stripe ==> img[r].disk != t;
        AddCopy(g, used, files, img, last, t);
        CopyHolds(g, img, disk0, old(disk), last, t);
        img' := img[ImageRef(last) := Run(t, 1)];
        refs := refs[ImageRef(last) := Run(t, 1)];
        assert refs == files + img';
        assert Spare() <= old(Spare());
      }
    }

    lemma FrontReserved(i: nat)
      requires GeometryOk() && i <= g.stripe
      ensures Reserved(g, i) && i < g.total == |disk| == |disk0| && disk[i] == disk0[i]
    {
      assert g.groups[0].Contains(i);
      if 1 < |g.groups| { g.GroupsOrdered(0, |g.groups| - 1); }
    }

    /** The extent of the file system tree at or after `from` with the smallest
        start. */
    method NextFileExtent(files: Refs, from: nat) returns (found: bool, f: Ref)
      requires FilesOk(g, used, files) && 0 < from
      ensures found ==> f in files && from <= files[f].disk
      ensures forall r :: r in files && from <= files[r].disk ==> found && files[f].disk <= files[r].disk
    {
      var d := from;
      while d < g.total && !exists r | r in files :: files[r].disk == d
        invariant from <= d
        invariant forall r :: r in files && from <= files[r].disk ==> d <= files[r].disk
      {
        d := d + 1;
      }
      found := d < g.total;
      f := Ref(FsTree, 0, 0);
      if found {
        f :| f in files && files[f].disk == d;
      } else {
        forall r | r in files ensures files[r].disk < from { assert RunOk(g, files[r]); }
      }
    }

    /** No file extent reaches past `last` from below. */
    ghost predicate FilesBefore(files: Refs, last: nat) {
      forall r :: r in files && 0 < files[r].disk < last ==> files[r].disk + files[r].len <= last
    }

    lemma GapUnused(files: Refs, last: nat, to: nat)
      requires FilesBefore(files, last)
      requires forall r :: r in files && last <= files[r].disk ==> to <= files[r].disk
      ensures forall x: nat :: last <= x < to ==> !Live(files, x)
    {
    }

    lemma StartBuilding()
      requires Valid() && FilesOk(g, used, refs) && Spare() !! used
      ensures Building(refs, map[], 0)
    {
      assert refs + map[] == refs;
    }

    static lemma EndsAtSuper(g: Geometry, disk: nat, len: nat)
      requires g.Valid() && g.Recordable(disk, len) && 0 < disk <= g.stripe
      ensures disk + len <= g.stripe + 1
    {
      assert g.InMirror(0, g.stripe);
      assert g.InSuper(g.stripe);
      assert g.stripe < disk + len ==> g.TouchesSuper(disk, len);
    }

    /** An extent that starts in the first 64K or at the super block ends there. */
    lemma FrontApart(files: Refs, last: nat)
      requires g.Valid() && FilesOk(g, used, files) && last == g.stripe + 1
      ensures FilesBefore(files, last)
    {
      forall r | r in files && 0 < files[r].disk < last ensures files[r].disk + files[r].len <= last {
        assert RunOk(g, files[r]);
        EndsAtSuper(g, files[r].disk, files[r].len);
      }
    }

    lemma FileRun(files: Refs, f: Ref)
      requires FilesOk(g, used, files) && f in files && 0 < files[f].disk
      ensures RunOk(g, files[f])
    {
    }

    lemma FilesBeforeStep(files: Refs, last: nat, f: Ref)
      requires FilesOk(g, used, files) && FilesBefore(files, last)
      requires f in files && 0 < last <= files[f].disk
      requires forall r :: r in files && last <= files[r].disk ==> files[f].disk <= files[r].disk
      ensures FilesBefore(files, files[f].disk + files[f].len)
    {
      var to := files[f].disk + files[f].len;
      forall r | r in files && 0 < files[r].disk < to ensures files[r].disk + files[r].len <= to {
        assert RunOk(g, files[r]);
        if last <= files[r].disk {
          assert files[r].Holds(files[r].disk) && files[f].Holds(files[r].disk);
        }
      }
    }

    /** The stretch between two file extents. */
    method FillRange(files: Refs, img: Refs, last: nat, to: nat) returns (img': Refs)
      requires Building(files, img, last) && FilesBefore(files, last) && g.stripe < last <= to <= g.total
      requires forall r :: r in files && last <= files[r].disk ==> to <= files[r].disk
      modifies this`refs
      ensures Building(files, img', to) && (old(Books()) ==> Books())
    {
      hide ImageUpTo, FilesOk, Intact, Records, CopiesHold, Pieces, UsedIdentity, Geometry.Valid;
      img' := img;
      if last < to {
        var es := CreateImageFileRange(g, used, last, to);
        GapUnused(files, last, to);
        AddRange(g, used, files, img, last, to, es);
        ghost var ps := Pieces(ImageRef(0), es);
        forall q | q in ps ensures g.stripe < q.off { RangeItem(g, used, last, to, es, q); }
        CopiesKept(img, ps);
        img' := img + Pieces(ImageRef(0), es);
        refs := files + img';
      }
    }

    lemma CopiesKept(img: Refs, ps: Refs)
      requires CopiesHold(g, img, disk0, disk) && forall q :: q in ps ==> g.stripe < q.off
      ensures CopiesHold(g, img + ps, disk0, disk)
      ensures forall r :: r in img + ps && r.off <= g.stripe ==> r in img && (img + ps)[r] == img[r]
    {
    }

    /** A file extent, recorded in the image where it is. */
    method AddFile(files: Refs, img: Refs, f: Ref) returns (img': Refs)
      requires f in files && g.stripe < files[f].disk
      requires Building(files, img, files[f].disk)
      modifies this`refs
      ensures Building(files, img', files[f].disk + files[f].len) && (old(Books()) ==> Books())
    {
      hide ImageUpTo, FilesOk, Intact;
      AddDirect(g, used, files, img, f);
      img' := img[ImageRef(files[f].disk) := files[f]];
      refs := files + img';
    }

    lemma Complete(files: Refs, img: Refs)
      requires Building(files, img, g.total)
      ensures Valid() && Intact(g, used, disk0, disk)
      ensures ImageShape(g, refs) && ImageReads(g, used, disk0, disk, refs) && OnePerTree(g, refs)
      ensures forall r: Ref :: r.root == FsTree ==> (r in refs <==> r in files) && (r in refs ==> refs[r] == files[r])
    {
      assert OnePerTree(g, refs) by { ImageOnePerTree(g, used, files, img); }
      BuildingValid(files, img, g.total);
      ImageComplete(g, used, files, img, disk0, disk);
    }

    /** The stretch before a file extent, the extent, and the tree blocks for both. */
    method AddUpTo(files: Refs, img: Refs, last: nat, f: Ref) returns (ok: bool, img': Refs)
      requires Building(files, img, last) && FilesBefore(files, last) && g.stripe < last <= g.total
      requires f in files && last <= files[f].disk && RunOk(g, files[f])
      requires forall r :: r in files && last <= files[r].disk ==> files[f].disk <= files[r].disk
      requires Books() && |made| <= g.stripe + 1
      modifies this`disk, this`refs, this`meta, this`budget, space
      ensures Building(files, img', files[f].disk + files[f].len) && FilesBefore(files, files[f].disk + files[f].len)
      ensures Books() && (!ok ==> NoRoom() && Full())
    {
      hide Books, Few, Full, NoRoom, ImageUpTo, FilesOk, Intact, CopiesHold;
      img' := FillRange(files, img, last, files[f].disk);
      img' := AddFile(files, img', f);
      FilesBeforeStep(files, last, f);
      FewFront();
      ok := GrowTrees(files, img', files[f].disk + files[f].len);
    }

    /** The first 64K and the super block. */
    method CopyFronts(files: Refs) returns (ok: bool, img: Refs)
      requires Building(files, map[], 0) && Books() && made == {}
      modifies this`disk, this`refs, this`meta, this`made, this`budget, space
      ensures Intact(g, used, disk0, disk) && Books() && |made| <= g.stripe + 1
      ensures ok ==> Building(files, img, g.stripe + 1)
      ensures !ok ==> NoRoom() && Full()
    {
      hide Books, Few, Full, NoRoom, ImageUpTo, FilesOk, Intact, CopiesHold;
      img, ok := map[], true;
      var last := 0;
      while last <= g.stripe
        invariant last <= g.stripe + 1 && Building(files, img, last) && Books() && |made| <= last
      {
        ok, img := CopyFront(files, img, last);
        if !ok { return; }
        last := last + 1;
        FewFront();
        ok := GrowTrees(files, img, last);
        if !ok { return; }
      }
    }

    /** create_ext2_image. */
    method CreateExt2Image() returns (ok: bool)
      requires Valid() && FilesOk(g, used, refs) && Spare() !! used && Books() && made == {}
      modifies this`disk, this`refs, this`meta, this`made, this`budget, space
      ensures Intact(g, used, disk0, disk) && Books() && (ok ==> Booking(map[]))
      ensures ok ==> Valid() && ImageShape(g, refs) && ImageReads(g, used, disk0, disk, refs) && OnePerTree(g, refs)
      ensures !ok ==> NoRoom() && Full()
      ensures ok ==> forall r: Ref :: r.root == FsTree ==>
        (r in refs <==> r in old(refs)) && (r in refs ==> refs[r] == old(refs)[r])
    {
      hide Books, Few, Booking, Full, NoRoom;
      hide ImageUpTo, FilesOk, Intact, Records, CopiesHold, ImageShape, ImageReads, WellFormed, SpaceOk, MetaOk;
      var files := refs;
      var img: Refs := map[];
      StartBuilding();
      ok, img := CopyFronts(files);
      if !ok { return; }
      var last := g.stripe + 1;
      FrontApart(files, last);
      assert last <= g.total by { FrontReserved(g.stripe); }
      while true
        invariant g.stripe < last <= g.total && Building(files, img, last) && FilesBefore(files, last)
        invariant Books() && |made| <= g.stripe + 1
        decreases g.total - last
      {
        var found, f := NextFileExtent(files, last);
        if !found {
          break;
        }
        FileRun(files, f);
        ok, img := AddUpTo(files, img, last, f);
        if !ok { return; }
        last := files[f].disk + files[f].len;
      }
      img := FillRange(files, img, last, g.total);
      ok := true;
      Complete(files, img);
      ImageBooked(files, img, g.total);
    }

    lemma FewFront()
      requires |made| <= g.stripe + 1
      ensures Few({})
    {
    }

    lemma ImageBooked(files: Refs, img: Refs, last: nat)
      requires Building(files, img, last) && Books() && |made| <= g.stripe + 1
      ensures Booking(map[])
    {
      hide Books, ImageUpTo, FilesOk, CopiesHold;
      ImageLeft(g, used, files, img, last);
      NothingMoved();
    }

    lemma NothingMoved()
      ensures var none: map<nat, nat> := map[]; LiveReserved(g, refs) - none.Keys == LiveReserved(g, refs)
    {
    }
  }
}
