/**
  Rebuilding the stripes of a metadata chunk during chunk-tree recovery.  The order of
  the stripes of a RAID0/10/5/6 chunk is recovered from the tree blocks that were found
  on the devices; each device extent must end up as exactly one stripe.
 */
module StripeOrder {

  datatype Raid = Raid0 | Raid10 | Raid5 | Raid6

  /** calc_sub_nstripes. */
  function SubStripes(raid: Raid): nat { if raid.Raid10? then 2 else 1 }

  datatype Chunk = Chunk(offset: nat, length: nat, stripeLen: nat, numStripes: nat, raid: Raid) {
    /** What the stripe arithmetic divides by is not zero. */
    predicate Valid() {
      && 0 < stripeLen
      && match raid
         case Raid0 => 1 <= numStripes
         case Raid10 => 2 <= numStripes
         case Raid5 => 2 <= numStripes
         case Raid6 => 3 <= numStripes
    }

    function End(): nat { offset + length }
  }

  datatype DevExt = DevExt(devid: nat, offset: nat, length: nat)

  datatype Mirror = Mirror(devid: nat, offset: nat)

  /** A tree block found by the scan, with the places it was found at. */
  datatype Block = Block(start: nat, size: nat, mirrors: seq<Mirror>)

  datatype Slot = Unset | Placed(ext: DevExt)

  function Wrap(x: nat, n: nat): (r: nat)
    requires 0 < n
    ensures r < n
  {
    x % n
  }

  function Over(x: nat, n: nat): (r: nat)
    requires 0 < n
    ensures r * n <= x < r * n + n
  {
    x / n
  }

  // ---------------------------------------------------------------------------
  // Which slot a stripe is in

  /** How many stripes with data, mirrors aside, make a row. */
  function RowWidth(c: Chunk): (n: nat)
    requires c.Valid()
    ensures 0 < n
  {
    match c.raid
    case Raid0 => c.numStripes
    case Raid10 => c.numStripes / 2
    case Raid5 => c.numStripes - 1
    case Raid6 => c.numStripes - 2
  }

  /** By how many slots a row is turned against the one before: parity takes turns. */
  function Turn(raid: Raid): nat { if raid.Raid5? || raid.Raid6? then 1 else 0 }

  /** The first slot of stripe `r` in row `q`: a stripe lies next to the one before it in its row, and a
      row begins where the row before began, turned. */
  ghost function SlotAt(c: Chunk, q: nat, r: nat): nat
    requires c.Valid()
    decreases q, r
  {
    if 0 < r then Wrap(SlotAt(c, q, r - 1) + SubStripes(c.raid), c.numStripes)
    else if 0 < q then Wrap(SlotAt(c, q - 1, 0) + Turn(c.raid), c.numStripes)
    else 0
  }

  /** The same for stripe `nr`, counted through the chunk row by row. */
  ghost function SlotOf(c: Chunk, nr: nat): nat
    requires c.Valid()
  {
    SlotAt(c, Over(nr, RowWidth(c)), Wrap(nr, RowWidth(c)))
  }

  lemma Parts(x: nat, n: nat)
    requires 0 < n
    ensures x == Over(x, n) * n + Wrap(x, n)
  {}

  /** Quotient and remainder are what they must be. */
  lemma PartsAre(x: nat, q: nat, r: nat, n: nat)
    requires r < n && x == q * n + r
    ensures Over(x, n) == q && Wrap(x, n) == r
  {
    hide Over, Wrap;
    Parts(x, n);
    Larger(q, Over(x, n), n);
    Larger(Over(x, n), q, n);
  }

  lemma Larger(a: nat, b: nat, n: nat)
    ensures a < b ==> a * n + n <= b * n
  {
    if a < b { assert (a + 1) * n <= b * n; }
  }

  lemma Sum(a: nat, b: nat, n: nat)
    ensures (a + b) * n == a * n + b * n
  {}

  lemma WrapTwice(x: nat, y: nat, n: nat)
    requires 0 < n
    ensures Wrap(Wrap(x, n) + y, n) == Wrap(x + y, n)
  {
    hide Over, Wrap;
    var w := Wrap(x, n) + y;
    Parts(x, n);
    Parts(w, n);
    Sum(Over(x, n), Over(w, n), n);
    PartsAre(x + y, Over(x, n) + Over(w, n), Wrap(w, n), n);
  }

  lemma {:induction false} SlotIs(c: Chunk, q: nat, r: nat)
    requires c.Valid()
    ensures SlotAt(c, q, r) == Wrap(q * Turn(c.raid) + r * SubStripes(c.raid), c.numStripes)
    decreases q, r
  {
    hide Wrap;
    var n, turn, m := c.numStripes, Turn(c.raid), SubStripes(c.raid);
    if r > 0 {
      SlotIs(c, q, r - 1);
      WrapTwice(q * turn + (r - 1) * m, m, n);
    } else if q > 0 {
      SlotIs(c, q - 1, 0);
      WrapTwice((q - 1) * turn, turn, n);
    } else {
      PartsAre(0, 0, 0, n);
    }
  }

  /** A row of RAID5 or RAID6 leaves out the slots in front of its first one, and no other. */
  lemma RowLeavesOut(c: Chunk, row: nat, s: nat)
    requires c.Valid() && (c.raid.Raid5? || c.raid.Raid6?) && s < c.numStripes
    ensures (exists k: nat :: k < RowWidth(c) && SlotAt(c, row, k) == s) <==>
      !exists t: nat :: RowWidth(c) <= t < c.numStripes && TurnedSlot(c, row, t) == s
  {
    var d, n := RowWidth(c), c.numStripes;
    hide Wrap, RowWidth, SlotAt;
    var t := TurnedBy(row, s, n);
    forall k: nat | k < n ensures TurnedSlot(c, row, k) == s <==> k == t { OneTurn(row, k, t, n); }
    forall k: nat | k < d ensures SlotAt(c, row, k) == TurnedSlot(c, row, k) { SlotIs(c, row, k); }
    if t < d { assert SlotAt(c, row, t) == s; } else { assert TurnedSlot(c, row, t) == s; }
  }

  /** The slot `t` places behind the first one of the row. */
  ghost function TurnedSlot(c: Chunk, row: nat, t: nat): nat
    requires c.Valid()
  {
    Wrap(row + t, c.numStripes)
  }

  lemma TurnedBy(row: nat, s: nat, n: nat) returns (t: nat)
    requires s < n
    ensures t < n && Wrap(row + t, n) == s
  {
    hide Wrap, Over;
    Parts(row, n);
    var k, r := Over(row, n), Wrap(row, n);
    t := if r <= s then s - r else s + n - r;
    Sum(k, 1, n);
    PartsAre(row + t, if r <= s then k else k + 1, s, n);
  }

  lemma OneTurn(row: nat, a: nat, b: nat, n: nat)
    requires a < n && b < n
    ensures Wrap(row + a, n) == Wrap(row + b, n) <==> a == b
  {
    hide Wrap, Over;
    Parts(row + a, n);
    Parts(row + b, n);
    Larger(Over(row + a, n), Over(row + b, n), n);
    Larger(Over(row + b, n), Over(row + a, n), n);
  }

  /** The number of the stripe that holds a logical address. */
  function StripeNr(c: Chunk, logical: nat): nat
    requires c.Valid() && c.offset <= logical
  {
    Over(logical - c.offset, c.stripeLen)
  }

  /** btrfs_calc_stripe_index.  All mirrors of a block fit behind the index. */
  function StripeIndex(c: Chunk, logical: nat): (index: nat)
    requires c.Valid() && c.offset <= logical
    ensures index + SubStripes(c.raid) <= c.numStripes
    ensures c.raid.Raid10? ==> index % 2 == 0
    ensures index == SlotOf(c, StripeNr(c, logical))
  {
    var nr := Over(logical - c.offset, c.stripeLen);
    IndexFits(c, nr);
    match c.raid
    case Raid0 => Wrap(nr, c.numStripes)
    case Raid10 => Wrap(nr, c.numStripes / 2) * 2
    case Raid5 => Wrap(Wrap(nr, c.numStripes - 1) + Over(nr, c.numStripes - 1), c.numStripes)
    case Raid6 => Wrap(Wrap(nr, c.numStripes - 2) + Over(nr, c.numStripes - 2), c.numStripes)
  }

  /** The index is that slot, and leaves room for the mirrors. */
  lemma IndexFits(c: Chunk, nr: nat)
    requires c.Valid()
    ensures var n := c.numStripes;
      var index := match c.raid
                   case Raid0 => Wrap(nr, n)
                   case Raid10 => Wrap(nr, n / 2) * 2
                   case Raid5 => Wrap(Wrap(nr, n - 1) + Over(nr, n - 1), n)
                   case Raid6 => Wrap(Wrap(nr, n - 2) + Over(nr, n - 2), n);
      index == SlotOf(c, nr) && index + SubStripes(c.raid) <= n && (c.raid.Raid10? ==> index % 2 == 0)
  {
    hide SlotOf, Wrap, Over;
    SlotHere(c, nr);
  }

  /** The slot of a stripe, profile by profile. */
  lemma SlotHere(c: Chunk, nr: nat)
    requires c.Valid()
    ensures var n := c.numStripes;
      SlotOf(c, nr) == match c.raid
                       case Raid0 => Wrap(nr, n)
                       case Raid10 => Wrap(nr, n / 2) * 2
                       case Raid5 => Wrap(Wrap(nr, n - 1) + Over(nr, n - 1), n)
                       case Raid6 => Wrap(Wrap(nr, n - 2) + Over(nr, n - 2), n)
  {
    hide SlotAt, Wrap, Over;
    var d, n := RowWidth(c), c.numStripes;
    var q, r := Over(nr, d), Wrap(nr, d);
    SlotIs(c, q, r);
    if c.raid.Raid0? { PartsAre(r, 0, r, n); }
    if c.raid.Raid10? { PartsAre(r * 2, 0, r * 2, n); }
  }

  /** The `q`-th stripe boundary of the chunk. */
  function Boundary(c: Chunk, q: nat): nat { c.offset + q * c.stripeLen }

  /** btrfs_next_stripe_logical_offset: the first stripe boundary after `logical`. */
  function NextStripe(c: Chunk, logical: nat): (next: nat)
    requires c.Valid() && c.offset <= logical
    ensures logical < next <= logical + c.stripeLen
    ensures exists q :: next == Boundary(c, q)
  {
    var q := Over(logical - c.offset, c.stripeLen);
    var next := q * c.stripeLen + c.stripeLen + c.offset;
    assert next == Boundary(c, q + 1) by { NextMultiple(q, c.stripeLen); }
    next
  }

  lemma NextMultiple(q: nat, k: nat)
    ensures (q + 1) * k == q * k + k
  {
  }

  /** The block lies inside one stripe. */
  ghost predicate WithinStripe(c: Chunk, e: Block) {
    forall q :: !(e.start < Boundary(c, q) < e.start + e.size)
  }

  predicate Inside(m: Mirror, d: DevExt) {
    m.devid == d.devid && d.offset <= m.offset < d.offset + d.length
  }

  /** Device extents with a device id, no two of them sharing a byte. */
  ghost predicate ExtsOk(ds: seq<DevExt>) {
    && (forall i :: 0 <= i < |ds| ==> 0 < ds[i].devid)
    && (forall i, j :: 0 <= i < j < |ds| ==> Apart(ds[i], ds[j]))
  }

  ghost predicate Apart(a: DevExt, b: DevExt) { forall m :: Inside(m, a) ==> !Inside(m, b) }

  // ---------------------------------------------------------------------------
  // The slots of a chunk

  ghost function PlacedExts(slots: seq<Slot>): multiset<DevExt> {
    if slots == [] then multiset{}
    else
      var last := slots[|slots| - 1];
      PlacedExts(slots[..|slots| - 1]) + if last.Unset? then multiset{} else multiset{last.ext}
  }

  ghost function UnsetCount(slots: seq<Slot>): nat {
    if slots == [] then 0 else UnsetCount(slots[..|slots| - 1]) + if slots[|slots| - 1].Unset? then 1 else 0
  }

  lemma {:induction false} SlotsConcat(a: seq<Slot>, b: seq<Slot>)
    ensures PlacedExts(a + b) == PlacedExts(a) + PlacedExts(b)
    ensures UnsetCount(a + b) == UnsetCount(a) + UnsetCount(b)
  {
    if b == [] {
      assert a + b == a;
    } else {
      SlotsConcat(a, b[..|b| - 1]);
      assert (a + b)[..|a + b| - 1] == a + b[..|b| - 1];
    }
  }

  lemma FillSlot(slots: seq<Slot>, i: nat, d: DevExt)
    requires i < |slots| && slots[i].Unset?
    ensures PlacedExts(slots[i := Placed(d)]) == PlacedExts(slots) + multiset{d}
    ensures UnsetCount(slots[i := Placed(d)]) + 1 == UnsetCount(slots)
  {
    assert slots == slots[..i] + [slots[i]] + slots[i + 1..];
    assert slots[i := Placed(d)] == slots[..i] + [Placed(d)] + slots[i + 1..];
    SlotsConcat(slots[..i] + [slots[i]], slots[i + 1..]);
    SlotsConcat(slots[..i] + [Placed(d)], slots[i + 1..]);
    assert (slots[..i] + [slots[i]])[..i] == slots[..i] && (slots[..i] + [Placed(d)])[..i] == slots[..i];
  }

  lemma {:induction false} AllPlaced(slots: seq<Slot>)
    ensures UnsetCount(slots) == 0 <==> forall i :: 0 <= i < |slots| ==> slots[i].Placed?
  {
    if slots != [] {
      AllPlaced(slots[..|slots| - 1]);
      assert slots == slots[..|slots| - 1] + [slots[|slots| - 1]];
    }
  }

  lemma {:induction false} AllUnset(n: nat)
    ensures PlacedExts(seq(n, _ => Unset)) == multiset{} && UnsetCount(seq(n, _ => Unset)) == n
  {
    if n != 0 {
      AllUnset(n - 1);
      assert seq(n, _ => Unset)[..n - 1] == seq(n - 1, _ => Unset);
    }
  }

  /** Every device extent is in exactly one place: a slot or the pending list; and
      there are as many unset slots as pending extents. */
  ghost predicate Shared(slots: seq<Slot>, pending: seq<DevExt>, exts: seq<DevExt>) {
    && PlacedExts(slots) + multiset(pending) == multiset(exts)
    && UnsetCount(slots) == |pending|
  }

  /** In RAID10 the second slot of a pair is not taken before the first. */
  ghost predicate PairsInOrder(raid: Raid, slots: seq<Slot>) {
    raid.Raid10? ==> forall b :: 0 <= b && b + 1 < |slots| && b % 2 == 0 && slots[b].Unset? ==> slots[b + 1].Unset?
  }

  predicate Touches(e: Block, start: nat, end: nat) { e.start < end && start < e.start + e.size }

  /** A block of the chunk that the scan of the devices has found. */
  ghost predicate Found(c: Chunk, blocks: set<Block>, e: Block) {
    e in blocks && c.offset <= e.start && Touches(e, c.offset, c.End())
  }

  /** Slot `i` is one of those that hold the block. */
  ghost predicate InRow(c: Chunk, e: Block, i: nat)
    requires c.Valid()
  {
    c.offset <= e.start &&
    var first := SlotOf(c, StripeNr(c, e.start)); first <= i < first + SubStripes(c.raid)
  }

  /** The slots of a block, by the index that the code computes. */
  lemma RowByIndex(c: Chunk, e: Block, i: nat)
    requires c.Valid() && c.offset <= e.start
    ensures InRow(c, e, i) <==> StripeIndex(c, e.start) <= i < StripeIndex(c, e.start) + SubStripes(c.raid)
  {
    hide StripeIndex, SlotOf;
  }

  /** A copy of the block lies in the device extent. */
  ghost predicate Mirrored(e: Block, d: DevExt) { exists k :: 0 <= k < |e.mirrors| && Inside(e.mirrors[k], d) }

  /** The slot was given to an extent that holds a block whose stripe it is. */
  ghost predicate Evidence(c: Chunk, blocks: set<Block>, i: nat, d: DevExt)
    requires c.Valid()
  {
    exists e :: Found(c, blocks, e) && InRow(c, e, i) && Mirrored(e, d)
  }

  ghost predicate AllEvidence(c: Chunk, blocks: set<Block>, slots: seq<Slot>)
    requires c.Valid()
  {
    forall i :: 0 <= i < |slots| && slots[i].Placed? ==> Evidence(c, blocks, i, slots[i].ext)
  }

  lemma SubsetSize(s: set<nat>, n: nat)
    requires forall x :: x in s ==> x < n
    ensures |s| <= n
  {
    if n == 0 {
      assert s == {};
    } else {
      SubsetSize(s - {n - 1}, n - 1);
    }
  }

  // ---------------------------------------------------------------------------
  // One block, and a whole scan, as functions

  /** The extents that hold a copy of the block, and those that do not. */
  ghost function Holding(e: Block, ds: seq<DevExt>): seq<DevExt> {
    if ds == [] then []
    else
      var n := |ds| - 1;
      Holding(e, ds[..n]) + if Mirrored(e, ds[n]) then [ds[n]] else []
  }

  ghost function Lacking(e: Block, ds: seq<DevExt>): seq<DevExt> {
    if ds == [] then []
    else
      var n := |ds| - 1;
      Lacking(e, ds[..n]) + if Mirrored(e, ds[n]) then [] else [ds[n]]
  }

  /** The slots from `at` on take the extents `ds`. */
  ghost function Put(slots: seq<Slot>, at: nat, ds: seq<DevExt>): (r: seq<Slot>)
    ensures |r| == |slots|
  {
    seq(|slots|, i requires 0 <= i < |slots| => if at <= i < at + |ds| then Placed(ds[i - at]) else slots[i])
  }

  /** The slots so far, and the extents still to be assigned. */
  datatype Books = Books(slots: seq<Slot>, pending: seq<DevExt>)

  /** One round: a block whose first slot is unset brings in the extents that hold it. */
  ghost function Round(c: Chunk, e: Block, b: Books): (r: Books)
    requires c.Valid() && c.offset <= e.start && |b.slots| == c.numStripes
    ensures |r.slots| == c.numStripes
  {
    var base := StripeIndex(c, e.start);
    if b.slots[base].Unset? then Books(Put(b.slots, base, Holding(e, b.pending)), Lacking(e, b.pending)) else b
  }

  ghost predicate Behind(c: Chunk, visited: seq<Block>) {
    forall k :: 0 <= k < |visited| ==> c.offset <= visited[k].start
  }

  ghost function Rounds(c: Chunk, visited: seq<Block>, b: Books): (r: Books)
    requires c.Valid() && Behind(c, visited) && |b.slots| == c.numStripes
    ensures |r.slots| == c.numStripes
  {
    if visited == [] then b else Round(c, visited[|visited| - 1], Rounds(c, visited[..|visited| - 1], b))
  }

  /** Where the lookup after the first `k` blocks begins. */
  ghost function StartAt(c: Chunk, visited: seq<Block>, k: nat): nat
    requires c.Valid() && Behind(c, visited) && k <= |visited|
  {
    if k == 0 then c.offset else NextStripe(c, visited[k - 1].start)
  }

  ghost predicate Looked(c: Chunk, blocks: set<Block>, visited: seq<Block>, k: nat)
    requires c.Valid() && Behind(c, visited) && k < |visited|
  {
    visited[k] in blocks && StartAt(c, visited, k) < c.End() && Touches(visited[k], StartAt(c, visited, k), c.End())
  }

  /** The blocks that the lookups of one scan may return, in order: each lookup may return
      any block that touches the rest of the chunk, and the last one finds nothing. */
  ghost predicate Lookups(c: Chunk, blocks: set<Block>, visited: seq<Block>)
    requires c.Valid()
  {
    && Behind(c, visited) && (forall k :: 0 <= k < |visited| ==> Looked(c, blocks, visited, k))
    && forall e :: e in blocks ==> !Touches(e, StartAt(c, visited, |visited|), c.End())
  }

  /** Everything the scan keeps between two blocks. */
  ghost predicate Scanning(c: Chunk, blocks: set<Block>, b: Books, exts: seq<DevExt>) {
    && c.Valid() && |b.slots| == c.numStripes
    && Shared(b.slots, b.pending, exts) && ExtsOk(b.pending)
    && PairsInOrder(c.raid, b.slots) && AllEvidence(c, blocks, b.slots)
  }

  lemma Parted(e: Block, ds: seq<DevExt>)
    ensures multiset(ds) == multiset(Holding(e, ds)) + multiset(Lacking(e, ds))
    ensures |ds| == |Holding(e, ds)| + |Lacking(e, ds)|
    ensures forall d :: d in Holding(e, ds) <==> d in ds && Mirrored(e, d)
    ensures forall d :: d in Lacking(e, ds) <==> d in ds && !Mirrored(e, d)
  {
    hide Holding, Lacking, Mirrored;
    PartedCount(e, ds);
    forall d ensures d in Holding(e, ds) <==> d in ds && Mirrored(e, d) { PartedMember(e, ds, d); }
    forall d ensures d in Lacking(e, ds) <==> d in ds && !Mirrored(e, d) { PartedMember(e, ds, d); }
  }

  lemma {:induction false} PartedCount(e: Block, ds: seq<DevExt>)
    ensures multiset(ds) == multiset(Holding(e, ds)) + multiset(Lacking(e, ds))
    ensures |ds| == |Holding(e, ds)| + |Lacking(e, ds)|
  {
    hide Mirrored, Holding, Lacking;
    if ds == [] {
      PartedNone(e);
    } else {
      var n := |ds| - 1;
      PartedCount(e, ds[..n]);
      assert ds == ds[..n] + [ds[n]];
      PartedLast(e, ds);
      OneMore(ds[..n], ds[n]);
      OneMore(Holding(e, ds[..n]), ds[n]);
      OneMore(Lacking(e, ds[..n]), ds[n]);
    }
  }

  lemma PartedNone(e: Block)
    ensures Holding(e, []) == [] && Lacking(e, []) == []
  {}

  lemma PartedLast(e: Block, ds: seq<DevExt>)
    requires ds != []
    ensures var n := |ds| - 1;
      && Holding(e, ds) == (if Mirrored(e, ds[n]) then Holding(e, ds[..n]) + [ds[n]] else Holding(e, ds[..n]))
      && Lacking(e, ds) == if Mirrored(e, ds[n]) then Lacking(e, ds[..n]) else Lacking(e, ds[..n]) + [ds[n]]
  {}

  lemma OneMore(ds: seq<DevExt>, d: DevExt)
    ensures multiset(ds + [d]) == multiset(ds) + multiset{d}
  {}

  lemma {:induction false} PartedMember(e: Block, ds: seq<DevExt>, d: DevExt)
    ensures d in Holding(e, ds) <==> d in ds && Mirrored(e, d)
    ensures d in Lacking(e, ds) <==> d in ds && !Mirrored(e, d)
  {
    if ds != [] {
      hide Mirrored;
      var n := |ds| - 1;
      PartedMember(e, ds[..n], d);
      assert d in ds <==> d in ds[..n] || d == ds[n];
    }
  }

  lemma {:induction false} LackingOk(e: Block, ds: seq<DevExt>)
    requires ExtsOk(ds)
    ensures ExtsOk(Lacking(e, ds))
  {
    if ds != [] {
      hide Mirrored, Apart;
      var n := |ds| - 1;
      var less := Lacking(e, ds[..n]);
      assert forall i :: 0 <= i < n ==> ds[..n][i] == ds[i];
      LackingOk(e, ds[..n]);
      forall i | 0 <= i < |less| ensures Apart(less[i], ds[n]) {
        PartedMember(e, ds[..n], less[i]);
        var k :| 0 <= k < n && ds[k] == less[i];
      }
    }
  }

  ghost predicate Somewhere(m: Mirror, ds: seq<DevExt>) { exists i :: 0 <= i < |ds| && Inside(m, ds[i]) }

  lemma SomewhereLast(m: Mirror, ds: seq<DevExt>)
    requires ds != [] && ExtsOk(ds)
    ensures var n := |ds| - 1;
      (Somewhere(m, ds) <==> Somewhere(m, ds[..n]) || Inside(m, ds[n])) && !(Somewhere(m, ds[..n]) && Inside(m, ds[n]))
  {
    var n := |ds| - 1;
    assert forall i :: 0 <= i < n ==> ds[..n][i] == ds[i] && Apart(ds[i], ds[n]);
    if Somewhere(m, ds[..n]) {
      var i :| 0 <= i < n && Inside(m, ds[..n][i]);
      assert Inside(m, ds[i]);
    }
  }

  /** No two extents hold the same copy, so there are no more of them than copies. */
  lemma {:induction false} HoldingFew(e: Block, ds: seq<DevExt>) returns (taken: set<nat>)
    requires ExtsOk(ds)
    ensures |taken| == |Holding(e, ds)| <= |e.mirrors|
    ensures forall k :: k in taken ==> k < |e.mirrors| && Somewhere(e.mirrors[k], ds)
  {
    taken := {};
    if ds != [] {
      var n := |ds| - 1;
      taken := HoldingFew(e, ds[..n]);
      hide ExtsOk, Somewhere;
      forall k | 0 <= k < |e.mirrors| ensures Somewhere(e.mirrors[k], ds[..n]) ==> Somewhere(e.mirrors[k], ds) {
        SomewhereLast(e.mirrors[k], ds);
      }
      if Mirrored(e, ds[n]) {
        var k :| 0 <= k < |e.mirrors| && Inside(e.mirrors[k], ds[n]);
        SomewhereLast(e.mirrors[k], ds);
        assert k !in taken;
        taken := taken + {k};
      }
    }
    SubsetSize(taken, |e.mirrors|);
  }

  lemma {:induction false} PutBooks(slots: seq<Slot>, at: nat, ds: seq<DevExt>)
    requires at + |ds| <= |slots| && forall i :: at <= i < at + |ds| ==> slots[i].Unset?
    ensures PlacedExts(Put(slots, at, ds)) == PlacedExts(slots) + multiset(ds)
    ensures UnsetCount(Put(slots, at, ds)) + |ds| == UnsetCount(slots)
  {
    hide PlacedExts, UnsetCount;
    if ds == [] {
      assert Put(slots, at, ds) == slots;
    } else {
      var n := |ds| - 1;
      PutBooks(slots, at, ds[..n]);
      var less := Put(slots, at, ds[..n]);
      assert Put(slots, at, ds) == less[at + n := Placed(ds[n])];
      hide Put;
      FillSlot(less, at + n, ds[n]);
      assert ds == ds[..n] + [ds[n]];
      OneMore(ds[..n], ds[n]);
    }
  }

  /** The slots of an unset block are unset. */
  lemma RowUnset(c: Chunk, blocks: set<Block>, e: Block, b: Books, exts: seq<DevExt>)
    requires Scanning(c, blocks, b, exts) && c.offset <= e.start && b.slots[StripeIndex(c, e.start)].Unset?
    ensures forall i :: 0 <= i < |b.slots| && InRow(c, e, i) ==> b.slots[i].Unset?
  {
    hide StripeIndex, SlotOf, Shared, AllEvidence;
    var base := StripeIndex(c, e.start);
    if c.raid.Raid10? { assert b.slots[base + 1].Unset?; }
  }

  /** One round keeps the books, the pairs and the evidence. */
  lemma RoundKeeps(c: Chunk, blocks: set<Block>, e: Block, b: Books, exts: seq<DevExt>)
    requires Scanning(c, blocks, b, exts) && Found(c, blocks, e) && |e.mirrors| <= SubStripes(c.raid)
    ensures Scanning(c, blocks, Round(c, e, b), exts)
  {
    var base := StripeIndex(c, e.start);
    if b.slots[base].Unset? {
      hide StripeIndex, SlotOf, Found;
      var ds := Holding(e, b.pending);
      var taken := HoldingFew(e, b.pending);
      RowUnset(c, blocks, e, b, exts);
      assert forall i :: base <= i < base + |ds| ==> InRow(c, e, i) && b.slots[i].Unset?;
      RoundShared(c, e, b, exts, base);
      LackingOk(e, b.pending);
      RoundPairs(c, b, base, ds);
      RoundEvidence(c, blocks, e, b, base);
    }
  }

  lemma RoundShared(c: Chunk, e: Block, b: Books, exts: seq<DevExt>, base: nat)
    requires Shared(b.slots, b.pending, exts) && base + |Holding(e, b.pending)| <= |b.slots|
    requires forall i :: base <= i < base + |Holding(e, b.pending)| ==> b.slots[i].Unset?
    ensures Shared(Put(b.slots, base, Holding(e, b.pending)), Lacking(e, b.pending), exts)
  {
    hide Put, Holding, Lacking;
    PutBooks(b.slots, base, Holding(e, b.pending));
    Parted(e, b.pending);
  }

  lemma RoundPairs(c: Chunk, b: Books, base: nat, ds: seq<DevExt>)
    requires PairsInOrder(c.raid, b.slots) && (c.raid.Raid10? ==> base % 2 == 0) && |ds| <= SubStripes(c.raid)
    ensures PairsInOrder(c.raid, Put(b.slots, base, ds))
  {
    if c.raid.Raid10? {
      var slots := Put(b.slots, base, ds);
      forall p | 0 <= p && p + 1 < |slots| && p % 2 == 0 && slots[p].Unset? ensures slots[p + 1].Unset? {
        assert p != base + 1;
      }
    }
  }

  lemma RoundEvidence(c: Chunk, blocks: set<Block>, e: Block, b: Books, base: nat)
    requires c.Valid() && AllEvidence(c, blocks, b.slots) && Found(c, blocks, e)
    requires forall i :: base <= i < base + |Holding(e, b.pending)| ==> InRow(c, e, i)
    ensures AllEvidence(c, blocks, Put(b.slots, base, Holding(e, b.pending)))
  {
    hide InRow, Mirrored, Found, Holding;
    var ds := Holding(e, b.pending);
    var slots := Put(b.slots, base, ds);
    Parted(e, b.pending);
    forall i | 0 <= i < |slots| && slots[i].Placed? ensures Evidence(c, blocks, i, slots[i].ext) {
      if base <= i < base + |ds| {
        assert ds[i - base] in ds;
        assert Mirrored(e, slots[i].ext);
      } else {
        assert Evidence(c, blocks, i, b.slots[i].ext);
      }
    }
  }

  // ---------------------------------------------------------------------------
  // The code

  /** is_extent_record_in_device_extent. */
  method FindMirror(e: Block, d: DevExt) returns (found: bool)
    ensures found <==> Mirrored(e, d)
  {
    var k := 0;
    while k < |e.mirrors|
      invariant k <= |e.mirrors|
      invariant forall i :: 0 <= i < k ==> !Inside(e.mirrors[i], d)
    {
      if Inside(e.mirrors[k], d) {
        return true;
      }
      k := k + 1;
    }
    found := false;
  }

  /** One block whose first slot is unset: every pending extent that holds a copy of the
      block takes the next slot. */
  method PlaceBlock(c: Chunk, e: Block, slots: seq<Slot>, pending: seq<DevExt>)
    returns (slots': seq<Slot>, pending': seq<DevExt>)
    requires c.Valid() && c.offset <= e.start && |slots| == c.numStripes && |e.mirrors| <= SubStripes(c.raid)
    requires ExtsOk(pending)
    requires slots[StripeIndex(c, e.start)].Unset?
    ensures Books(slots', pending') == Round(c, e, Books(slots, pending))
  {
    hide StripeIndex, SlotOf, Mirrored;
    var base := StripeIndex(c, e.start);
    slots', pending' := slots, [];
    var next: nat := base;
    var j: nat := 0;
    assert Put(slots, base, []) == slots;
    while j < |pending|
      invariant j <= |pending| && pending' == Lacking(e, pending[..j])
      invariant slots' == Put(slots, base, Holding(e, pending[..j])) && next == base + |Holding(e, pending[..j])|
    {
      var d := pending[j];
      var found := FindMirror(e, d);
      assert pending[..j + 1][..j] == pending[..j];
      if found {
        assert next < |slots| by { RoomFor(e, pending, j, d); }
        slots' := slots'[next := Placed(d)];
        next := next + 1;
      } else {
        pending' := pending' + [d];
      }
      j := j + 1;
    }
    assert pending[..j] == pending;
  }

  lemma RoomFor(e: Block, pending: seq<DevExt>, j: nat, d: DevExt)
    requires ExtsOk(pending) && j < |pending| && d == pending[j] && Mirrored(e, d)
    ensures |Holding(e, pending[..j])| < |e.mirrors|
  {
    assert pending[..j + 1][..j] == pending[..j];
    var taken := HoldingFew(e, pending[..j + 1]);
  }

  /** The blocks as the scan of the devices leaves them for the chunk. */
  ghost predicate BlocksOk(c: Chunk, blocks: set<Block>) {
    forall e :: e in blocks && Touches(e, c.offset, c.End()) ==>
      c.offset <= e.start && |e.mirrors| <= SubStripes(c.raid) && WithinStripe(c, e)
  }

  /** The loop over the tree blocks.  `lookup_cache_extent` may return any block that
      touches the rest of the chunk; since no block crosses a stripe boundary, every
      round starts at a later stripe. */
  method ScanBlocks(c: Chunk, blocks: set<Block>, slots: seq<Slot>, pending: seq<DevExt>, ghost exts: seq<DevExt>)
    returns (slots': seq<Slot>, pending': seq<DevExt>, ghost visited: seq<Block>)
    requires Scanning(c, blocks, Books(slots, pending), exts) && BlocksOk(c, blocks)
    ensures Scanning(c, blocks, Books(slots', pending'), exts) && Lookups(c, blocks, visited)
    ensures Books(slots', pending') == Rounds(c, visited, Books(slots, pending))
  {
    hide Scanning, Round;
    slots', pending', visited := slots, pending, [];
    var start: nat := c.offset;
    assert c.Valid() && |slots| == c.numStripes by { ScanningParts(c, blocks, Books(slots, pending), exts); }
    assert start == Boundary(c, 0);
    while start < c.End() && exists e | e in blocks :: Touches(e, start, c.End())
      invariant Scanning(c, blocks, Books(slots', pending'), exts) && |slots'| == c.numStripes
      invariant c.offset <= start && exists q :: start == Boundary(c, q)
      invariant Behind(c, visited) && start == StartAt(c, visited, |visited|)
      invariant forall k :: 0 <= k < |visited| ==> Looked(c, blocks, visited, k)
      invariant Books(slots', pending') == Rounds(c, visited, Books(slots, pending))
      decreases c.End() - start
    {
      var e :| e in blocks && Touches(e, start, c.End());
      assert Touches(e, c.offset, c.End());
      assert start <= e.start by { NotBefore(c, e, start); }
      RoundKeeps(c, blocks, e, Books(slots', pending'), exts);
      var index := StripeIndex(c, e.start);
      ghost var before := Books(slots', pending');
      if slots'[index].Unset? {
        assert ExtsOk(pending') by { ScanningParts(c, blocks, before, exts); }
        slots', pending' := PlaceBlock(c, e, slots', pending');
      } else {
        assert Round(c, e, before) == before by { RoundSkips(c, e, before); }
      }
      LookedMore(c, blocks, visited, e, start);
      assert (visited + [e])[..|visited|] == visited;
      visited := visited + [e];
      start := NextStripe(c, e.start);
    }
  }

  lemma RoundSkips(c: Chunk, e: Block, b: Books)
    requires c.Valid() && c.offset <= e.start && |b.slots| == c.numStripes && b.slots[StripeIndex(c, e.start)].Placed?
    ensures Round(c, e, b) == b
  {}

  /** A block that touches the rest of the chunk begins in it. */
  lemma NotBefore(c: Chunk, e: Block, start: nat)
    requires WithinStripe(c, e) && Touches(e, start, c.End()) && exists q :: start == Boundary(c, q)
    ensures start <= e.start
  {
    var q :| start == Boundary(c, q);
    assert !(e.start < Boundary(c, q) < e.start + e.size);
  }

  lemma LookedMore(c: Chunk, blocks: set<Block>, visited: seq<Block>, e: Block, start: nat)
    requires c.Valid() && Behind(c, visited) && c.offset <= e.start && start == StartAt(c, visited, |visited|)
    requires forall k :: 0 <= k < |visited| ==> Looked(c, blocks, visited, k)
    requires e in blocks && start < c.End() && Touches(e, start, c.End())
    ensures Behind(c, visited + [e]) && forall k :: 0 <= k <= |visited| ==> Looked(c, blocks, visited + [e], k)
  {
    var more := visited + [e];
    assert forall k :: 0 <= k < |visited| ==> more[k] == visited[k];
    forall k | 0 <= k <= |visited| ensures Looked(c, blocks, more, k) {
      assert StartAt(c, more, k) == StartAt(c, visited, k);
      if k < |visited| { assert Looked(c, blocks, visited, k); }
    }
  }

  lemma ScanningParts(c: Chunk, blocks: set<Block>, b: Books, exts: seq<DevExt>)
    requires Scanning(c, blocks, b, exts)
    ensures c.Valid() && |b.slots| == c.numStripes && Shared(b.slots, b.pending, exts) && ExtsOk(b.pending)
    ensures AllEvidence(c, blocks, b.slots)
  {
  }

  /** The slots are a rearrangement of the device extents. */
  ghost predicate Bijection(slots: seq<Slot>, exts: seq<DevExt>) {
    && |slots| == |exts|
    && (forall i :: 0 <= i < |slots| ==> slots[i].Placed?)
    && PlacedExts(slots) == multiset(exts)
  }

  /** The unset slots from `i` on take the extents in their order. */
  ghost function Filled(slots: seq<Slot>, pending: seq<DevExt>, i: nat): (r: seq<Slot>)
    requires i <= |slots|
    ensures |r| == |slots|
    decreases |slots| - i
  {
    if i == |slots| then slots
    else if slots[i].Unset? && pending != [] then Filled(slots[i := Placed(pending[0])], pending[1..], i + 1)
    else Filled(slots, pending, i + 1)
  }

  /** The last loop: slots without data take the remaining extents in any order. */
  method FillRest(slots: seq<Slot>, pending: seq<DevExt>, exts: seq<DevExt>, devices: set<nat>)
    returns (ok: bool, slots': seq<Slot>)
    requires Shared(slots, pending, exts) && |slots| == |exts|
    ensures ok ==> Bijection(slots', exts) && slots' == Filled(slots, pending, 0)
    ensures ok || exists d :: d in pending && d.devid !in devices
  {
    hide PlacedExts, UnsetCount;
    slots' := slots;
    var rest := pending;
    var i: nat := 0;
    while i < |slots'|
      invariant i <= |slots'| == |slots| && Shared(slots', rest, exts)
      invariant forall j :: 0 <= j < i ==> slots'[j].Placed?
      invariant forall d :: d in rest ==> d in pending
      invariant Filled(slots, pending, 0) == Filled(slots', rest, i)
    {
      if slots'[i].Unset? {
        AllPlaced(slots');
        assert rest != [];
        var d := rest[0];
        FillSlot(slots', i, d);
        assert rest == [d] + rest[1..];
        slots' := slots'[i := Placed(d)];
        rest := rest[1..];
        if d.devid !in devices {
          return false, slots';
        }
      }
      i := i + 1;
    }
    AllPlaced(slots');
    ok := true;
  }

  function Blank(c: Chunk, exts: seq<DevExt>): Books { Books(seq(c.numStripes, _ => Unset), exts) }

  lemma BlankScanning(c: Chunk, blocks: set<Block>, exts: seq<DevExt>)
    requires c.Valid() && |exts| == c.numStripes && ExtsOk(exts)
    ensures Scanning(c, blocks, Blank(c, exts), exts)
  {
    hide ExtsOk;
    AllUnset(c.numStripes);
  }

  /** The stripes that a scan with these lookups rebuilds from the list `exts`. */
  ghost function Rebuilt(c: Chunk, visited: seq<Block>, exts: seq<DevExt>): seq<Slot>
    requires c.Valid() && Behind(c, visited)
  {
    var b := Rounds(c, visited, Blank(c, exts));
    Filled(b.slots, b.pending, 0)
  }

  /** btrfs_rebuild_ordered_meta_chunk_stripes.  Success gives a bijection between stripes
      and device extents: the blocks that the lookups returned decide the slots of their
      stripes, and the rest is filled in the order of the list.  For RAID5 and RAID6 each
      stripe is then backed by a block that was found on it. */
  method RebuildOrderedStripes(c: Chunk, blocks: set<Block>, exts: seq<DevExt>, devices: set<nat>)
    returns (ok: bool, slots: seq<Slot>, ghost visited: seq<Block>)
    requires c.Valid() && |exts| == c.numStripes && ExtsOk(exts) && BlocksOk(c, blocks)
    ensures Lookups(c, blocks, visited)
    ensures ok ==> Bijection(slots, exts) && slots == Rebuilt(c, visited, exts)
    ensures ok && (c.raid.Raid5? || c.raid.Raid6?) && (exists e :: e in blocks && Touches(e, c.offset, c.End())) ==>
      AllEvidence(c, blocks, slots)
    ensures !ok && !((c.raid.Raid5? || c.raid.Raid6?) && exists e :: e in blocks && Touches(e, c.offset, c.End())) ==>
      exists d :: d in exts && d.devid !in devices
    ensures !ok && (c.raid.Raid5? || c.raid.Raid6?) && (exists e :: e in blocks && Touches(e, c.offset, c.End())) ==>
      Rounds(c, visited, Blank(c, exts)).pending != []
  {
    hide PlacedExts, UnsetCount, AllEvidence, ExtsOk, BlocksOk, Scanning, Rounds, Filled;
    slots, visited := seq(c.numStripes, _ => Unset), [];
    assert Blank(c, exts) == Books(slots, exts);
    BlankScanning(c, blocks, exts);
    if !exists e | e in blocks :: Touches(e, c.offset, c.End()) {
      NoRounds(c, exts);
      ScanningParts(c, blocks, Books(slots, exts), exts);
      ok, slots := FillRest(slots, exts, exts, devices);
      return;
    }
    var pending: seq<DevExt>;
    slots, pending, visited := ScanBlocks(c, blocks, slots, exts, exts);
    ScanningParts(c, blocks, Books(slots, pending), exts);
    if pending == [] {
      AllPlaced(slots);
      FilledAlready(slots, 0);
      return true, slots, visited;
    }
    if c.raid.Raid5? || c.raid.Raid6? {
      return false, slots, visited;
    }
    PendingOfExts(slots, pending, exts);
    ok, slots := FillRest(slots, pending, exts, devices);
  }

  lemma NoRounds(c: Chunk, exts: seq<DevExt>)
    requires c.Valid()
    ensures Rounds(c, [], Blank(c, exts)) == Blank(c, exts)
  {}

  lemma {:induction false} FilledAlready(slots: seq<Slot>, i: nat)
    requires i <= |slots|
    ensures Filled(slots, [], i) == slots
    decreases |slots| - i
  {
    if i < |slots| { FilledAlready(slots, i + 1); }
  }

  lemma PendingOfExts(slots: seq<Slot>, pending: seq<DevExt>, exts: seq<DevExt>)
    requires Shared(slots, pending, exts)
    ensures forall d :: d in pending ==> d in exts
  {
    forall d | d in pending ensures d in exts {
      assert d in multiset(pending);
      assert d in multiset(exts);
    }
  }

  /** A bijection on the list level: every device extent is the extent of some stripe. */
  lemma {:induction false} BijectionCovers(slots: seq<Slot>, exts: seq<DevExt>, d: DevExt)
    requires Bijection(slots, exts)
    ensures d in exts <==> exists i :: 0 <= i < |slots| && slots[i] == Placed(d)
  {
    PlacedMember(slots, d);
  }

  lemma {:induction false} PlacedMember(slots: seq<Slot>, d: DevExt)
    ensures d in PlacedExts(slots) <==> exists i :: 0 <= i < |slots| && slots[i] == Placed(d)
  {
    if slots != [] {
      var n := |slots| - 1;
      PlacedMember(slots[..n], d);
      if i :| 0 <= i < |slots| && slots[i] == Placed(d) {
        if i < n { assert slots[..n][i] == Placed(d); }
      }
    }
  }
}
