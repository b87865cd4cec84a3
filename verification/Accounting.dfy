/**
  Where the sectors of a conversion are.  Every sector that the converter may ever write is
  free, holds a tree block (or held one that was freed since the last commit), or holds the
  copy of another sector; and the copies are few.  So running out of sectors means that the
  device is full.
 */
module Accounting {
  import opened Layout
  import opened RefTree
  import opened Allocator
  import opened View
  import opened Relocation
  import opened Image

  /** Every sector that the converter may ever write. */
  ghost function Room(g: Geometry, used: set<nat>, first: nat): set<nat> {
    set s: nat | s < g.total && first <= s && Writable(g, used, s)
  }

  /** ext2's own sectors that have to move: in SYSTEM groups and super block stripes. */
  ghost function OwnReserved(g: Geometry, used: set<nat>): set<nat> {
    set s | s in used && s < g.total && Reserved(g, s)
  }

  /** The greatest number of copies: the first 64K, the super block, and what has to move. */
  ghost function MostCopies(g: Geometry, used: set<nat>): nat { g.stripe + 1 + |OwnReserved(g, used)| }

  /** Tree blocks and copies, `allowance` tree blocks at most, may fill the device. */
  ghost predicate Crowded(g: Geometry, used: set<nat>, first: nat, allowance: nat) {
    |Room(g, used, first)| <= allowance + MostCopies(g, used)
  }

  /** Sectors with a tree block, or with one that was freed and is pinned. */
  ghost function Held(room: set<nat>, meta: set<nat>, pinned: set<nat>): set<nat> { meta + pinned * room }

  /** No sector is lost, and tree blocks and those still to be written keep to the allowance. */
  ghost predicate Booked(room: set<nat>, free: set<nat>, pinned: set<nat>, meta: set<nat>, made: set<nat>, budget: nat,
                         allowance: nat)
  {
    room <= free + Held(room, meta, pinned) + made && |Held(room, meta, pinned)| + budget <= allowance
  }

  /** Reserved sectors that some item refers to. */
  ghost function LiveReserved(g: Geometry, refs: Refs): set<nat> {
    set s: nat | s < g.total && Reserved(g, s) && Live(refs, s)
  }

  lemma {:induction false} Smaller(a: set<nat>, b: set<nat>)
    requires a <= b
    ensures |a| <= |b|
  {
    if a != {} {
      var x :| x in a;
      Smaller(a - {x}, b - {x});
    }
  }

  lemma OneMore(a: set<nat>, s: nat)
    ensures |a + {s}| <= |a| + 1
  {
    if s in a { assert a + {s} == a; }
  }

  // ---------------------------------------------------------------------------
  // What each step does to the books

  /** A free sector takes a copy. */
  lemma BookCopy(room: set<nat>, free: set<nat>, pinned: set<nat>, meta: set<nat>, made: set<nat>, budget: nat,
                 allowance: nat, s: nat)
    requires Booked(room, free, pinned, meta, made, budget, allowance)
    ensures Booked(room, free - {s}, pinned, meta, made + {s}, budget, allowance)
  {}

  /** A free sector takes a tree block. */
  lemma BookTree(room: set<nat>, free: set<nat>, pinned: set<nat>, meta: set<nat>, made: set<nat>, budget: nat,
                 allowance: nat, s: nat)
    requires Booked(room, free, pinned, meta, made, budget, allowance) && 0 < budget
    ensures Booked(room, free - {s}, pinned, meta + {s}, made, budget - 1, allowance)
  {
    assert Held(room, meta + {s}, pinned) == Held(room, meta, pinned) + {s};
    OneMore(Held(room, meta, pinned), s);
  }

  /** A tree block is freed. */
  lemma BookFree(room: set<nat>, free: set<nat>, pinned: set<nat>, meta: set<nat>, made: set<nat>, budget: nat,
                 allowance: nat, s: nat)
    requires Booked(room, free, pinned, meta, made, budget, allowance) && s in meta
    ensures Booked(room, free, pinned + {s}, meta - {s}, made, budget, allowance)
  {
    Smaller(Held(room, meta - {s}, pinned + {s}), Held(room, meta, pinned));
  }

  /** A commit. */
  lemma BookCommit(room: set<nat>, free: set<nat>, pinned: set<nat>, meta: set<nat>, made: set<nat>, budget: nat,
                   allowance: nat)
    requires Booked(room, free, pinned, meta, made, budget, allowance)
    ensures Booked(room, free + pinned, {}, meta, made, budget, allowance)
  {
    Smaller(Held(room, meta, {}), Held(room, meta, pinned));
  }

  /** Data that moved away was on reserved sectors, and pins nothing else. */
  lemma BookPin(room: set<nat>, free: set<nat>, pinned: set<nat>, meta: set<nat>, made: set<nat>, budget: nat,
                allowance: nat, gone: set<nat>)
    requires Booked(room, free, pinned, meta, made, budget, allowance) && gone !! room
    ensures Booked(room, free, pinned + gone, meta, made, budget, allowance)
  {
    assert Held(room, meta, pinned + gone) == Held(room, meta, pinned);
  }

  /** The books when a conversion starts. */
  lemma BookStart(g: Geometry, used: set<nat>, first: nat, meta: set<nat>, budget: nat)
    requires g.Valid() && g.groups[0].system && g.stripe < g.groups[0].len
    ensures Booked(Room(g, used, first), InitialFree(g, used, first) - meta, {}, meta, {}, budget, |meta| + budget)
  {
    assert Held(Room(g, used, first), meta, {}) == meta;
    assert forall s: nat :: s < g.stripe ==> g.groups[0].Contains(s);
  }

  // ---------------------------------------------------------------------------
  // Out of sectors

  /** When nothing can be handed out, every sector that could be written has been. */
  lemma NothingFree(g: Geometry, used: set<nat>, first: nat, free: set<nat>, pinned: set<nat>, meta: set<nat>,
                    made: set<nat>, budget: nat, allowance: nat)
    requires g.Valid() && free !! pinned && Booked(Room(g, used, first), free, pinned, meta, made, budget, allowance)
    requires forall t: nat :: !Fits(g, free, pinned, t, 1)
    ensures Room(g, used, first) <= Held(Room(g, used, first), meta, pinned) + made
  {
    forall s | s in Room(g, used, first) && s in free ensures Fits(g, free, pinned, s, 1) {
      OutsideSystem(g, used, s);
    }
  }

  /** A writable sector lies in a group that the allocator looks at. */
  lemma OutsideSystem(g: Geometry, used: set<nat>, s: nat)
    requires g.Valid() && Writable(g, used, s)
    ensures exists i ::
      0 <= i < |g.groups| && !g.groups[i].system && g.groups[i].start <= s && s + 1 <= g.groups[i].End()
  {
    var i := FindGroup(g, s, |g.groups| - 1);
  }

  /** Then the device was too small. */
  lemma FullMeansCrowded(g: Geometry, used: set<nat>, first: nat, free: set<nat>, pinned: set<nat>, meta: set<nat>,
                         made: set<nat>, budget: nat, allowance: nat)
    requires g.Valid() && free !! pinned && Booked(Room(g, used, first), free, pinned, meta, made, budget, allowance)
    requires |made| <= MostCopies(g, used) && forall t: nat :: !Fits(g, free, pinned, t, 1)
    ensures Crowded(g, used, first, allowance)
  {
    var room := Room(g, used, first);
    NothingFree(g, used, first, free, pinned, meta, made, budget, allowance);
    Smaller(room, Held(room, meta, pinned) + made);
  }

  // ---------------------------------------------------------------------------
  // How many copies

  /** A copy is made for a sector that had none. */
  lemma CopyCounted(made: set<nat>, left: set<nat>, s: nat, t: nat, most: nat)
    requires |made| + |left| <= most && s in left
    ensures |made + {t}| + |left - {s}| <= most
  {
    OneMore(made, t);
  }

  /** Moving references leaves fewer sectors to move. */
  lemma LeftShrinks(g: Geometry, before: Refs, after: Refs, keys: set<nat>)
    requires LiveShrinks(g, before, after)
    ensures |LiveReserved(g, after) - keys| <= |LiveReserved(g, before) - keys|
  {
    Smaller(LiveReserved(g, after) - keys, LiveReserved(g, before) - keys);
  }

  /** Once a range is clean its copies need not be remembered. */
  lemma LeftForgets(g: Geometry, refs: Refs, start: nat, end: nat, keys: set<nat>)
    requires Clean(refs, start, end) && forall s :: s in keys ==> start <= s < end
    ensures LiveReserved(g, refs) - keys == LiveReserved(g, refs)
  {}

  /** While the image is built, what has to move is ext2's own. */
  lemma ImageLeft(g: Geometry, used: set<nat>, files: Refs, img: Refs, last: nat)
    requires FilesOk(g, used, files) && ImageUpTo(g, used, files, img, last)
    ensures |LiveReserved(g, files + img)| <= |OwnReserved(g, used)|
  {
    hide RunOk, FilesApart, CopiesDistinct, DirectShared, ImageCovers, Reserved, WellFormed;
    forall s | s in LiveReserved(g, files + img) ensures s in used {
      var r :| r in files + img && (files + img)[r].Holds(s);
      if r in img {
        ImageHolds(g, used, r, img[r], s);
      } else {
        assert Live(files, s);
      }
    }
    Smaller(LiveReserved(g, files + img), OwnReserved(g, used));
  }
}
