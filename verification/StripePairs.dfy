/**
  RAID10 chunks: two slots hold the same data, and a block may have been found on one or
  both of them.  The theorem says for which found blocks every scan and every order of the
  list rebuild the chunk without putting a found copy into a wrong pair.
 */
module StripePairs {
  import opened StripeOrder
  import opened StripeTruth

  /** The blocks have been found somewhere, in the pairs that they belong to. */
  ghost predicate Paired(c: Chunk, blocks: set<Block>, layout: seq<DevExt>) {
    && TrueLayout(c, blocks, layout) && BlocksOk(c, blocks) && c.raid.Raid10?
    && forall e :: Found(c, blocks, e) ==> e.mirrors != [] && 0 < e.size
  }

  /** All found blocks were found on the same extents. */
  ghost predicate SameHolders(c: Chunk, blocks: set<Block>, layout: seq<DevExt>) {
    forall e, f, q :: Found(c, blocks, e) && Found(c, blocks, f) && q in layout && Mirrored(f, q) ==> Mirrored(e, q)
  }

  /** No found block begins after `f`. */
  ghost predicate Latest(c: Chunk, blocks: set<Block>, f: Block) {
    Found(c, blocks, f) && forall e :: Found(c, blocks, e) ==> e.start <= f.start
  }

  /** The block was found on both extents of its pair. */
  ghost predicate Whole(c: Chunk, layout: seq<DevExt>, e: Block)
    requires c.Valid() && |layout| == c.numStripes && c.raid.Raid10? && c.offset <= e.start
  {
    Mirrored(e, layout[StripeIndex(c, e.start)]) && Mirrored(e, layout[StripeIndex(c, e.start) + 1])
  }

  /** Every block in the pair of the last found block was found on both extents. */
  ghost predicate LastWhole(c: Chunk, blocks: set<Block>, layout: seq<DevExt>)
    requires c.Valid() && |layout| == c.numStripes && c.raid.Raid10?
  {
    forall e, f :: Latest(c, blocks, f) && Found(c, blocks, e) && StripeIndex(c, e.start) == StripeIndex(c, f.start) ==>
      Whole(c, layout, e)
  }

  /** The condition. */
  ghost predicate Harmless(c: Chunk, blocks: set<Block>, layout: seq<DevExt>)
    requires c.Valid() && |layout| == c.numStripes && c.raid.Raid10?
  {
    c.numStripes == 2 || SameHolders(c, blocks, layout) || (c.numStripes == 4 && LastWhole(c, blocks, layout))
  }

  // ---------------------------------------------------------------------------
  // The condition suffices

  /** With two slots every slot is in every row. */
  lemma TwoSlots(c: Chunk, blocks: set<Block>, b: Books)
    requires c.Valid() && c.raid.Raid10? && c.numStripes == 2 && |b.slots| == 2
    ensures Forced(c, blocks, b)
  {
    hide StripeIndex, InRow, SlotOf;
    forall e, s: nat | Found(c, blocks, e) && s < 2 ensures InRow(c, e, s) { RowByIndex(c, e, s); }
  }

  lemma {:induction false} PendingShrinks(c: Chunk, visited: seq<Block>, b: Books, q: DevExt, k: nat)
    requires c.Valid() && Behind(c, visited) && |b.slots| == c.numStripes && k <= |visited|
    requires q in Rounds(c, visited, b).pending
    ensures q in Rounds(c, visited[..k], b).pending
  {
    hide Round;
    if k == |visited| {
      assert visited[..k] == visited;
    } else {
      var n := |visited| - 1;
      RoundPending(c, visited[n], Rounds(c, visited[..n], b), q);
      PendingShrinks(c, visited[..n], b, q, k);
      assert visited[..n][..k] == visited[..k];
    }
  }

  /** When all blocks have the same holders, the first one visited brings in all of them. */
  lemma SameForced(c: Chunk, blocks: set<Block>, layout: seq<DevExt>, exts: seq<DevExt>, visited: seq<Block>)
    requires Paired(c, blocks, layout) && multiset(exts) == multiset(layout) && Lookups(c, blocks, visited)
    requires SameHolders(c, blocks, layout)
    ensures Forced(c, blocks, Rounds(c, visited, Blank(c, exts)))
  {
    hide ExtsOk, Found, Rounds, Scanning, Mirrored, HeldInRow, BlocksOk, InRow;
    LookupsFound(c, blocks, visited);
    SameMembers(exts, layout);
    var b := Rounds(c, visited, Blank(c, exts));
    forall q, e | q in b.pending && Found(c, blocks, e) ensures !Mirrored(e, q) {
      assert visited != [] by { SomeVisited(c, blocks, e, visited); }
      assert Found(c, blocks, visited[0]);
      PendingShrinks(c, visited, Blank(c, exts), q, 1);
      assert visited[..1] == [visited[0]];
      FirstLacks(c, visited[0], exts, q);
    }
  }

  lemma FirstLacks(c: Chunk, e: Block, exts: seq<DevExt>, q: DevExt)
    requires c.Valid() && c.offset <= e.start && q in Rounds(c, [e], Blank(c, exts)).pending
    ensures q in exts && !Mirrored(e, q)
  {
    hide Mirrored, StripeIndex, SlotOf, Round;
    OneRound(c, e, exts);
    RoundPending(c, e, Blank(c, exts), q);
  }

  lemma OneRound(c: Chunk, e: Block, exts: seq<DevExt>)
    requires c.Valid() && c.offset <= e.start
    ensures Rounds(c, [e], Blank(c, exts)) == Round(c, e, Blank(c, exts))
  {
    assert [e][..0] == [] && [e][0] == e;
    NoRounds(c, exts);
  }

  /** A visited block of a pair in which all blocks are whole decides both slots. */
  ghost predicate PairDecided(slots: seq<Slot>, base: nat) {
    base + 1 < |slots| && slots[base].Placed? && slots[base + 1].Placed?
  }

  ghost predicate RowWhole(c: Chunk, blocks: set<Block>, layout: seq<DevExt>, base: nat)
    requires c.Valid() && |layout| == c.numStripes && c.raid.Raid10?
  {
    forall e :: Found(c, blocks, e) && StripeIndex(c, e.start) == base ==> Whole(c, layout, e)
  }

  lemma {:induction false} RowsDecided(c: Chunk, blocks: set<Block>, layout: seq<DevExt>, exts: seq<DevExt>,
                                       visited: seq<Block>, k: nat)
    requires Paired(c, blocks, layout) && multiset(exts) == multiset(layout) && Behind(c, visited)
    requires AllFound(c, blocks, visited) && k < |visited|
    requires RowWhole(c, blocks, layout, StripeIndex(c, visited[k].start))
    ensures PairDecided(Rounds(c, visited, Blank(c, exts)).slots, StripeIndex(c, visited[k].start))
  {
    hide ExtsOk, Found, StripeIndex, SlotOf, Round, Scanning, HeldInRow, BlocksOk, RowWhole, PairDecided, InRow;
    PermOk(layout, exts);
    var n := |visited| - 1;
    var front, e := visited[..n], visited[n];
    assert forall i :: 0 <= i < n ==> front[i] == visited[i];
    var b := Rounds(c, front, Blank(c, exts));
    assert Found(c, blocks, e) && c.offset <= visited[k].start && c.offset <= e.start;
    RoundsKeep(c, blocks, front, exts);
    if k < n {
      RowsDecided(c, blocks, layout, exts, front, k);
      StaysDecided(c, e, b, StripeIndex(c, visited[k].start));
    } else {
      BecomesDecided(c, blocks, layout, exts, front, e);
    }
  }

  lemma StaysDecided(c: Chunk, e: Block, b: Books, base: nat)
    requires c.Valid() && c.offset <= e.start && |b.slots| == c.numStripes && PairDecided(b.slots, base)
    ensures PairDecided(Round(c, e, b).slots, base)
  {
    hide StripeIndex, SlotOf, Holding, Lacking;
  }

  /** The last block visited: its pair was decided by an earlier block of the pair, or is now. */
  lemma BecomesDecided(c: Chunk, blocks: set<Block>, layout: seq<DevExt>, exts: seq<DevExt>, front: seq<Block>,
                       e: Block)
    requires Paired(c, blocks, layout) && multiset(exts) == multiset(layout) && Behind(c, front)
    requires AllFound(c, blocks, front) && Found(c, blocks, e) && RowWhole(c, blocks, layout, StripeIndex(c, e.start))
    ensures PairDecided(Round(c, e, Rounds(c, front, Blank(c, exts))).slots, StripeIndex(c, e.start))
    decreases |front|
  {
    hide ExtsOk, StripeIndex, SlotOf, Round, Scanning, HeldInRow, BlocksOk, RowWhole, PairDecided, InRow, Rounds;
    PermOk(layout, exts);
    var b := Rounds(c, front, Blank(c, exts));
    RoundsKeep(c, blocks, front, exts);
    var base := StripeIndex(c, e.start);
    if b.slots[base].Placed? {
      PlacedByVisited(c, blocks, layout, exts, front, base);
      StaysDecided(c, e, b, base);
    } else {
      NowDecided(c, blocks, layout, b, exts, e);
    }
  }

  /** A slot that is taken was taken in a round of its own pair. */
  lemma {:induction false} PlacedByVisited(c: Chunk, blocks: set<Block>, layout: seq<DevExt>, exts: seq<DevExt>,
                                           visited: seq<Block>, base: nat)
    requires Paired(c, blocks, layout) && multiset(exts) == multiset(layout) && Behind(c, visited)
    requires AllFound(c, blocks, visited) && RowWhole(c, blocks, layout, base)
    requires base % 2 == 0 && base + 1 < c.numStripes
    requires Rounds(c, visited, Blank(c, exts)).slots[base].Placed?
    ensures PairDecided(Rounds(c, visited, Blank(c, exts)).slots, base)
    decreases |visited|
  {
    hide ExtsOk, Found, StripeIndex, SlotOf, Round, Scanning, HeldInRow, BlocksOk, PairDecided, InRow;
    var n := |visited| - 1;
    assert visited != [];
    var front, e := visited[..n], visited[n];
    assert forall i :: 0 <= i < n ==> front[i] == visited[i];
    var b := Rounds(c, front, Blank(c, exts));
    assert Found(c, blocks, e);
    if b.slots[base].Placed? {
      PlacedByVisited(c, blocks, layout, exts, front, base);
      StaysDecided(c, e, b, base);
    } else {
      PermOk(layout, exts);
      RoundsKeep(c, blocks, front, exts);
      assert |e.mirrors| <= 2 by { FewMirrors(c, blocks, e); }
      RoundInRow(c, blocks, e, b, exts, base);
      NowDecided(c, blocks, layout, b, exts, e);
    }
  }

  lemma FewMirrors(c: Chunk, blocks: set<Block>, e: Block)
    requires BlocksOk(c, blocks) && Found(c, blocks, e)
    ensures |e.mirrors| <= SubStripes(c.raid)
  {}

  lemma RoundInRow(c: Chunk, blocks: set<Block>, e: Block, b: Books, exts: seq<DevExt>, base: nat)
    requires Scanning(c, blocks, b, exts) && c.raid.Raid10? && Found(c, blocks, e) && |e.mirrors| <= 2
    requires base % 2 == 0 && base < c.numStripes && b.slots[base].Unset? && Round(c, e, b).slots[base].Placed?
    ensures StripeIndex(c, e.start) == base
  {
    hide StripeIndex, SlotOf, Holding, Lacking, Shared, AllEvidence;
    var taken := HoldingFew(e, b.pending);
    assert StripeIndex(c, e.start) % 2 == 0;
  }

  /** An undecided pair takes both extents of a whole block. */
  lemma NowDecided(c: Chunk, blocks: set<Block>, layout: seq<DevExt>, b: Books, exts: seq<DevExt>, e: Block)
    requires Paired(c, blocks, layout) && multiset(exts) == multiset(layout) && Scanning(c, blocks, b, exts)
    requires Found(c, blocks, e) && RowWhole(c, blocks, layout, StripeIndex(c, e.start))
    requires b.slots[StripeIndex(c, e.start)].Unset?
    ensures PairDecided(Round(c, e, b).slots, StripeIndex(c, e.start))
  {
    hide ExtsOk, StripeIndex, SlotOf, Scanning, HeldInRow, BlocksOk, Mirrored, Holding, Lacking;
    var base := StripeIndex(c, e.start);
    assert Whole(c, layout, e);
    RowPending(c, blocks, layout, b, exts, e, base);
    RowPending(c, blocks, layout, b, exts, e, base + 1);
    Parted(e, b.pending);
    assert layout[base] != layout[base + 1] by { Different(e, layout, base); }
    TwoMembers(Holding(e, b.pending), layout[base], layout[base + 1]);
    assert |b.slots| == c.numStripes by { ScanningParts(c, blocks, b, exts); }
  }

  lemma Different(e: Block, layout: seq<DevExt>, base: nat)
    requires ExtsOk(layout) && base + 1 < |layout| && Mirrored(e, layout[base])
    ensures layout[base] != layout[base + 1]
  {
    var k :| 0 <= k < |e.mirrors| && Inside(e.mirrors[k], layout[base]);
    assert Apart(layout[base], layout[base + 1]);
  }

  lemma TwoMembers(ds: seq<DevExt>, p: DevExt, q: DevExt)
    requires p in ds && q in ds && p != q
    ensures 2 <= |ds|
  {
    var i :| 0 <= i < |ds| && ds[i] == p;
    var j :| 0 <= j < |ds| && ds[j] == q;
  }

  /** The extents of an undecided pair are still to be assigned. */
  lemma RowPending(c: Chunk, blocks: set<Block>, layout: seq<DevExt>, b: Books, exts: seq<DevExt>, e: Block, j: nat)
    requires Paired(c, blocks, layout) && multiset(exts) == multiset(layout) && Scanning(c, blocks, b, exts)
    requires Found(c, blocks, e) && b.slots[StripeIndex(c, e.start)].Unset?
    requires j < |layout| && InRow(c, e, j) && Mirrored(e, layout[j])
    ensures layout[j] in b.pending
  {
    hide ExtsOk, StripeIndex, SlotOf, PlacedExts, UnsetCount, Evidence, BlocksOk, HeldInRow, InRow;
    var q := layout[j];
    assert q in multiset(exts);
    if q !in b.pending {
      assert q in PlacedExts(b.slots);
      PlacedMember(b.slots, q);
      var s :| 0 <= s < |b.slots| && b.slots[s] == Placed(q);
      var k :| 0 <= k < |e.mirrors| && Inside(e.mirrors[k], q);
      DecidedInRow(c, blocks, layout, e, k, s, q);
      RowUnset(c, blocks, e, b, exts);
      assert false;
    }
  }

  /** The scan ends in the stripe of the last found block. */
  lemma EndsWithLatest(c: Chunk, blocks: set<Block>, visited: seq<Block>, f: Block)
    requires c.Valid() && BlocksOk(c, blocks) && Lookups(c, blocks, visited) && Latest(c, blocks, f) && 0 < f.size
    ensures visited != [] && Found(c, blocks, visited[|visited| - 1])
    ensures StripeIndex(c, visited[|visited| - 1].start) == StripeIndex(c, f.start)
  {
    hide StripeIndex, SlotOf;
    LookupsFound(c, blocks, visited);
    SomeVisited(c, blocks, f, visited);
    var e := visited[|visited| - 1];
    assert Found(c, blocks, e) && e.start <= f.start;
    assert !Touches(f, NextStripe(c, e.start), c.End());
    assert f.start < NextStripe(c, e.start);
    SameStripe(c, e.start, f.start);
  }

  lemma SameStripe(c: Chunk, a: nat, b: nat)
    requires c.Valid() && c.offset <= a <= b < NextStripe(c, a)
    ensures StripeIndex(c, a) == StripeIndex(c, b)
  {
    hide StripeIndex, SlotOf;
    var q, p := Over(a - c.offset, c.stripeLen), Over(b - c.offset, c.stripeLen);
    assert q == p by { SameQuotient(a - c.offset, b - c.offset, c.stripeLen, q, p); }
    SameIndex(c, a, b);
  }

  lemma SameIndex(c: Chunk, a: nat, b: nat)
    requires c.Valid() && c.offset <= a && c.offset <= b
    requires Over(a - c.offset, c.stripeLen) == Over(b - c.offset, c.stripeLen)
    ensures StripeIndex(c, a) == StripeIndex(c, b)
  {
    hide Over, Wrap;
  }

  lemma SameQuotient(a: nat, b: nat, n: nat, q: nat, p: nat)
    requires 0 < n && q * n <= a <= b < q * n + n && p * n <= b < p * n + n
    ensures q == p
  {
    Multiples(q + 1, p, n);
    Multiples(p + 1, q, n);
  }

  lemma Multiples(a: nat, b: nat, n: nat)
    ensures a <= b ==> a * n <= b * n
  {}

  /** Four slots, and the pair of the last block decided: the rest is the other pair. */
  lemma FourForced(c: Chunk, blocks: set<Block>, layout: seq<DevExt>, exts: seq<DevExt>, visited: seq<Block>)
    requires Paired(c, blocks, layout) && multiset(exts) == multiset(layout) && Lookups(c, blocks, visited)
    requires c.numStripes == 4 && LastWhole(c, blocks, layout)
    ensures Forced(c, blocks, Rounds(c, visited, Blank(c, exts)))
  {
    hide ExtsOk, Found, StripeIndex, SlotOf, Rounds, Scanning, Mirrored, HeldInRow, Evidence, BlocksOk, InRow,
         LastWhole;
    PermOk(layout, exts);
    LookupsFound(c, blocks, visited);
    RoundsKeep(c, blocks, visited, exts);
    var b := Rounds(c, visited, Blank(c, exts));
    ScanningParts(c, blocks, b, exts);
    forall q, e, s | q in b.pending && Found(c, blocks, e) && Mirrored(e, q) && 0 <= s < |b.slots| && b.slots[s].Unset?
      ensures InRow(c, e, s)
    {
      var base := LastDecided(c, blocks, layout, exts, visited, e);
      OtherPair(c, blocks, layout, b, exts, base, q, e, s);
    }
  }

  lemma LastDecided(c: Chunk, blocks: set<Block>, layout: seq<DevExt>, exts: seq<DevExt>, visited: seq<Block>, e: Block)
    returns (base: nat)
    requires Paired(c, blocks, layout) && multiset(exts) == multiset(layout) && Lookups(c, blocks, visited)
    requires LastWhole(c, blocks, layout) && Found(c, blocks, e)
    ensures base % 2 == 0 && PairDecided(Rounds(c, visited, Blank(c, exts)).slots, base)
  {
    hide ExtsOk, StripeIndex, SlotOf, Rounds, Mirrored, HeldInRow, BlocksOk, Whole, PairDecided, Looked;
    var f := LastFound(c, blocks, e);
    assert Latest(c, blocks, f);
    EndsWithLatest(c, blocks, visited, f);
    LookupsFound(c, blocks, visited);
    var k := |visited| - 1;
    base := StripeIndex(c, visited[k].start);
    assert RowWhole(c, blocks, layout, base);
    RowsDecided(c, blocks, layout, exts, visited, k);
  }

  lemma OtherPair(c: Chunk, blocks: set<Block>, layout: seq<DevExt>, b: Books, exts: seq<DevExt>, base: nat, q: DevExt,
                  e: Block, s: nat)
    requires Paired(c, blocks, layout) && multiset(exts) == multiset(layout) && Scanning(c, blocks, b, exts)
    requires ExtsOk(exts) && c.numStripes == 4 && base % 2 == 0 && PairDecided(b.slots, base)
    requires q in b.pending && Found(c, blocks, e) && Mirrored(e, q) && s < |b.slots| && b.slots[s].Unset?
    ensures InRow(c, e, s)
  {
    hide ExtsOk, StripeIndex, SlotOf, PlacedExts, UnsetCount, Evidence, BlocksOk, HeldInRow;
    var at := StripeIndex(c, e.start);
    assert at % 2 == 0 && at + 2 <= 4;
    PendingOfExts(b.slots, b.pending, exts);
    if at == base { PairTaken(c, blocks, layout, b, exts, base, q, e); }
  }

  /** The extents of a decided pair are the true ones of the pair, so none of them is pending. */
  lemma PairTaken(c: Chunk, blocks: set<Block>, layout: seq<DevExt>, b: Books, exts: seq<DevExt>, base: nat, q: DevExt,
                  e: Block)
    requires Paired(c, blocks, layout) && multiset(exts) == multiset(layout) && Scanning(c, blocks, b, exts)
    requires ExtsOk(exts) && PairDecided(b.slots, base) && Found(c, blocks, e) && StripeIndex(c, e.start) == base
    requires Mirrored(e, q) && q in exts
    ensures q !in b.pending
  {
    hide ExtsOk, StripeIndex, SlotOf, PlacedExts, UnsetCount, Evidence, BlocksOk, HeldInRow;
    assert base % 2 == 0;
    var k :| 0 <= k < |e.mirrors| && Inside(e.mirrors[k], q);
    SameMembers(exts, layout);
    var j :| 0 <= j < |layout| && layout[j] == q;
    assert InRow(c, e, j) by { TruePlace(c, blocks, layout, e, k, j); }
    var j0 := SlotPlace(c, blocks, layout, b, exts, base);
    var j1 := SlotPlace(c, blocks, layout, b, exts, base + 1);
    PlacedOnce(c, blocks, b, exts, base);
    if j == j0 {
      NotBoth(b.slots, b.pending, exts, base, q, e.mirrors[k]);
    } else {
      NotBoth(b.slots, b.pending, exts, base + 1, q, e.mirrors[k]);
    }
  }

  lemma TruePlace(c: Chunk, blocks: set<Block>, layout: seq<DevExt>, e: Block, k: nat, j: nat)
    requires TrueLayout(c, blocks, layout) && Found(c, blocks, e) && k < |e.mirrors| && j < |layout|
    requires Inside(e.mirrors[k], layout[j])
    ensures InRow(c, e, j)
  {
    hide ExtsOk, InRow;
    assert HeldInRow(c, e, e.mirrors[k], layout);
    var t :| 0 <= t < |layout| && InRow(c, e, t) && Inside(e.mirrors[k], layout[t]);
    OnePlace(layout, j, t, e.mirrors[k]);
  }

  /** The extent in a decided slot is a true one of the pair. */
  lemma SlotPlace(c: Chunk, blocks: set<Block>, layout: seq<DevExt>, b: Books, exts: seq<DevExt>, s: nat)
    returns (j: nat)
    requires TrueLayout(c, blocks, layout) && multiset(exts) == multiset(layout) && Scanning(c, blocks, b, exts)
    requires c.raid.Raid10? && s < |b.slots| && b.slots[s].Placed?
    ensures j < |layout| && layout[j] == b.slots[s].ext && j / 2 == s / 2
  {
    hide ExtsOk, PlacedExts, UnsetCount, Evidence, HeldInRow;
    var d := b.slots[s].ext;
    PlacedMember(b.slots, d);
    assert d in multiset(layout);
    EvidenceRight(c, blocks, layout, s, d);
    j :| 0 <= j < |layout| && layout[j] == d && SameRow(c, s, j);
  }

  /** No extent is in both slots of a pair. */
  lemma PlacedOnce(c: Chunk, blocks: set<Block>, b: Books, exts: seq<DevExt>, base: nat)
    requires Scanning(c, blocks, b, exts) && ExtsOk(exts) && PairDecided(b.slots, base)
    ensures b.slots[base] != b.slots[base + 1]
  {
    hide ExtsOk, PlacedExts, UnsetCount, InRow;
    var d := b.slots[base].ext;
    assert Evidence(c, blocks, base, d);
    var e :| Found(c, blocks, e) && InRow(c, e, base) && Mirrored(e, d);
    var k :| 0 <= k < |e.mirrors| && Inside(e.mirrors[k], d);
    if b.slots[base] == b.slots[base + 1] {
      PlacedTwice(b.slots, base, base + 1);
      var i, j := TwoPlaces(exts, d);
      OnePlace(exts, i, j, e.mirrors[k]);
      assert false;
    }
  }

  lemma PlacedTwice(slots: seq<Slot>, s: nat, t: nat)
    requires s < t < |slots| && slots[s] == slots[t] && slots[s].Placed?
    ensures PlacedExts(slots)[slots[s].ext] >= 2
  {
    hide PlacedExts, UnsetCount;
    assert slots == slots[..t] + slots[t..];
    SlotsConcat(slots[..t], slots[t..]);
    assert slots[..t][s] == slots[s] && slots[t..][0] == slots[t];
    PlacedMember(slots[..t], slots[s].ext);
    PlacedMember(slots[t..], slots[s].ext);
  }

  // ---------------------------------------------------------------------------
  // The condition is necessary

  /** A scan that begins with block `e` and sees no other pair. */
  lemma ScanFrom(c: Chunk, blocks: set<Block>, e: Block, last: Block) returns (visited: seq<Block>)
    requires c.Valid() && BlocksOk(c, blocks) && Found(c, blocks, e) && Latest(c, blocks, last) && 0 < last.size
    ensures Lookups(c, blocks, visited) && (visited == [e] || visited == [e, last])
  {
    hide StripeIndex, SlotOf;
    var next := NextStripe(c, e.start);
    visited := [e];
    assert StartAt(c, visited, 0) == c.offset && StartAt(c, visited, 1) == next;
    assert Looked(c, blocks, visited, 0);
    forall f | f in blocks ensures Touches(f, next, c.End()) ==> next <= f.start <= last.start {
      BeginsBehind(c, blocks, f, next);
    }
    if Touches(last, next, c.End()) {
      LookedMore(c, blocks, visited, last, next);
      visited := [e, last];
      assert [e] + [last] == visited;
      var after := NextStripe(c, last.start);
      assert StartAt(c, visited, 2) == after;
      forall f | f in blocks ensures !Touches(f, after, c.End()) { BeginsBehind(c, blocks, f, after); }
    }
  }

  /** The list with the extents that hold the block in front. */
  lemma {:induction false} HoldingAll(e: Block, hs: seq<DevExt>)
    requires forall q :: q in hs ==> Mirrored(e, q)
    ensures Holding(e, hs) == hs && Lacking(e, hs) == []
  {
    hide Mirrored, Holding, Lacking;
    if hs == [] {
      HoldingNone(e);
    } else {
      var n := |hs| - 1;
      assert forall q :: q in hs[..n] ==> q in hs;
      assert hs[n] in hs;
      HoldingAll(e, hs[..n]);
      HoldingLast(e, hs[..n], hs[n]);
      assert hs == hs[..n] + [hs[n]];
    }
  }

  lemma HoldingNone(e: Block)
    ensures Holding(e, []) == [] && Lacking(e, []) == []
  {}

  lemma HoldingLast(e: Block, ds: seq<DevExt>, q: DevExt)
    requires Mirrored(e, q)
    ensures Holding(e, ds + [q]) == Holding(e, ds) + [q] && Lacking(e, ds + [q]) == Lacking(e, ds)
  {
    assert (ds + [q])[..|ds|] == ds;
  }

  lemma {:induction false} HoldingFront(e: Block, hs: seq<DevExt>, order: seq<DevExt>)
    requires (forall q :: q in hs ==> Mirrored(e, q)) && forall q :: q in order ==> !Mirrored(e, q)
    ensures Holding(e, hs + order) == hs && Lacking(e, hs + order) == order
  {
    hide Mirrored, Holding, Lacking;
    if order == [] {
      assert hs + order == hs;
      HoldingAll(e, hs);
    } else {
      var n := |order| - 1;
      assert order[n] in order;
      assert forall q :: q in order[..n] ==> q in order;
      HoldingFront(e, hs, order[..n]);
      assert hs + order == (hs + order[..n]) + [order[n]];
      LackingLast(e, hs + order[..n], order[n]);
      assert order == order[..n] + [order[n]];
    }
  }

  /** The books when only the pair of `e` has been seen. */
  lemma OnlyPair(c: Chunk, blocks: set<Block>, e: Block, last: Block, visited: seq<Block>, hs: seq<DevExt>,
                 order: seq<DevExt>)
    requires c.Valid() && c.offset <= e.start && c.offset <= last.start
    requires StripeIndex(c, e.start) == StripeIndex(c, last.start) && (visited == [e] || visited == [e, last])
    requires hs != [] && (forall q :: q in hs ==> Mirrored(e, q)) && forall q :: q in order ==> !Mirrored(e, q)
    ensures Rounds(c, visited, Blank(c, hs + order)) ==
      Books(Put(seq(c.numStripes, _ => Unset), StripeIndex(c, e.start), hs), order)
  {
    hide StripeIndex, SlotOf, Mirrored, Holding, Lacking, Put;
    HoldingFront(e, hs, order);
    OneRound(c, e, hs + order);
    var b := Rounds(c, [e], Blank(c, hs + order));
    assert b == Books(Put(seq(c.numStripes, _ => Unset), StripeIndex(c, e.start), hs), order);
    if visited == [e, last] {
      assert visited[..1] == [e];
      FrontPlaced(c.numStripes, StripeIndex(c, e.start), hs);
      RoundSkips(c, last, b);
    }
  }

  lemma FrontPlaced(n: nat, base: nat, hs: seq<DevExt>)
    requires hs != [] && base < n
    ensures Put(seq(n, _ => Unset), base, hs)[base].Placed?
  {}

  /** An extent with a found copy is pending, and a slot outside its row is unset: something goes wrong. */
  lemma WrongPlace(c: Chunk, blocks: set<Block>, layout: seq<DevExt>, e: Block, last: Block, x: Block, q: DevExt,
                   s: nat)
    returns (exts: seq<DevExt>, visited: seq<Block>)
    requires Paired(c, blocks, layout) && Found(c, blocks, e) && Latest(c, blocks, last)
    requires StripeIndex(c, e.start) == StripeIndex(c, last.start)
    requires Found(c, blocks, x) && q in layout && Mirrored(x, q) && !Mirrored(e, q)
    requires s < c.numStripes && !InRow(c, x, s)
    requires s < StripeIndex(c, e.start) || StripeIndex(c, e.start) + |Holding(e, layout)| <= s
    ensures multiset(exts) == multiset(layout) && Lookups(c, blocks, visited)
    ensures !Good(c, blocks, Rebuilt(c, visited, exts))
  {
    hide Good, ExtsOk, StripeIndex, SlotOf, Mirrored, HeldInRow, BlocksOk, Rounds, Filled, InRow, Holding, Lacking,
         Lookups, Put;
    visited := ScanFrom(c, blocks, e, last);
    LookupsBehind(c, blocks, visited);
    LookupsFound(c, blocks, visited);
    var hs, rest := Holding(e, layout), Lacking(e, layout);
    Parted(e, layout);
    assert hs != [] by { SomeHolder(c, blocks, layout, e); }
    OnlyPair(c, blocks, e, last, visited, hs, rest);
    Joined(hs, rest, layout);
    PermOk(layout, hs + rest);
    RoundsKeep(c, blocks, visited, hs + rest);
    var b := Rounds(c, visited, Blank(c, hs + rest));
    assert b.slots[s].Unset? by { OutsideUnset(c.numStripes, StripeIndex(c, e.start), hs, s); }
    var order := RestBad(c, blocks, b, hs + rest, q, x, s);
    exts := hs + order;
    SameMembers(order, rest);
    OnlyPair(c, blocks, e, last, visited, hs, order);
    Joined(hs, order, layout);
  }

  lemma Joined(hs: seq<DevExt>, order: seq<DevExt>, layout: seq<DevExt>)
    requires multiset(hs) + multiset(order) == multiset(layout)
    ensures multiset(hs + order) == multiset(layout)
  {}

  lemma OutsideUnset(n: nat, base: nat, hs: seq<DevExt>, s: nat)
    requires s < n && (s < base || base + |hs| <= s)
    ensures Put(seq(n, _ => Unset), base, hs)[s].Unset?
  {}

  /** A found block has a holder. */
  lemma SomeHolder(c: Chunk, blocks: set<Block>, layout: seq<DevExt>, e: Block)
    requires Paired(c, blocks, layout) && Found(c, blocks, e)
    ensures Holding(e, layout) != [] && exists j :: 0 <= j < |layout| && InRow(c, e, j) && Mirrored(e, layout[j])
  {
    hide ExtsOk, StripeIndex, SlotOf, Holding, BlocksOk;
    assert HeldInRow(c, e, e.mirrors[0], layout);
    var j :| 0 <= j < |layout| && InRow(c, e, j) && Inside(e.mirrors[0], layout[j]);
    HeldIn(e, 0, layout[j]);
    PartedMember(e, layout, layout[j]);
  }

  /** Two holders at most, and one when the block is not whole. */
  lemma HoldersAtMost(c: Chunk, blocks: set<Block>, layout: seq<DevExt>, e: Block)
    requires Paired(c, blocks, layout) && Found(c, blocks, e)
    ensures |Holding(e, layout)| <= 2 && (!Whole(c, layout, e) ==> |Holding(e, layout)| <= 1)
  {
    hide ExtsOk, StripeIndex, SlotOf, Holding, HeldInRow;
    var taken := HoldingFew(e, layout);
    FewMirrors(c, blocks, e);
    assert layout[..|layout|] == layout;
    if !Whole(c, layout, e) { OneHolder(c, blocks, layout, e, |layout|); }
  }

  lemma {:induction false} OneHolder(c: Chunk, blocks: set<Block>, layout: seq<DevExt>, e: Block, n: nat)
    requires Paired(c, blocks, layout) && Found(c, blocks, e) && !Whole(c, layout, e) && n <= |layout|
    ensures |Holding(e, layout[..n])| <= 1
    ensures (exists j :: n <= j < |layout| && Mirrored(e, layout[j])) ==> Holding(e, layout[..n]) == []
  {
    hide ExtsOk, StripeIndex, SlotOf, HeldInRow, Mirrored;
    if n > 0 {
      OneHolder(c, blocks, layout, e, n - 1);
      assert layout[..n][..n - 1] == layout[..n - 1];
      forall j | n <= j < |layout| && Mirrored(e, layout[j]) ensures !Mirrored(e, layout[n - 1]) {
        NotBothHold(c, blocks, layout, e, n - 1, j);
      }
    }
  }

  lemma NotBothHold(c: Chunk, blocks: set<Block>, layout: seq<DevExt>, e: Block, i: nat, j: nat)
    requires Paired(c, blocks, layout) && Found(c, blocks, e) && !Whole(c, layout, e) && i < j < |layout|
    requires Mirrored(e, layout[j])
    ensures !Mirrored(e, layout[i])
  {
    hide ExtsOk, StripeIndex, SlotOf, HeldInRow, Mirrored, InRow;
    HolderInRow(c, blocks, layout, e, j);
    if Mirrored(e, layout[i]) { HolderInRow(c, blocks, layout, e, i); InRowTwo(c, e, i, j); }
  }

  lemma InRowTwo(c: Chunk, e: Block, i: nat, j: nat)
    requires c.Valid() && c.raid.Raid10? && InRow(c, e, i) && InRow(c, e, j) && i < j
    ensures i == StripeIndex(c, e.start) && j == i + 1
  {
    hide StripeIndex, SlotOf;
  }

  lemma HolderInRow(c: Chunk, blocks: set<Block>, layout: seq<DevExt>, e: Block, j: nat)
    requires TrueLayout(c, blocks, layout) && Found(c, blocks, e) && j < |layout| && Mirrored(e, layout[j])
    ensures InRow(c, e, j)
  {
    hide ExtsOk, InRow;
    var k :| 0 <= k < |e.mirrors| && Inside(e.mirrors[k], layout[j]);
    TruePlace(c, blocks, layout, e, k, j);
  }

  /** Found blocks in two pairs. */
  lemma WrongTwoRows(c: Chunk, blocks: set<Block>, layout: seq<DevExt>, last: Block, x: Block)
    returns (exts: seq<DevExt>, visited: seq<Block>)
    requires Paired(c, blocks, layout) && Latest(c, blocks, last) && Found(c, blocks, x)
    requires StripeIndex(c, x.start) != StripeIndex(c, last.start)
    requires c.numStripes != 4 || !LastWhole(c, blocks, layout)
    ensures multiset(exts) == multiset(layout) && Lookups(c, blocks, visited)
    ensures !Good(c, blocks, Rebuilt(c, visited, exts))
  {
    hide Good, ExtsOk, StripeIndex, SlotOf, Mirrored, HeldInRow, BlocksOk, Rounds, Filled, Holding, Lookups, Whole,
         TrueLayout;
    assert c.Valid() && |layout| == c.numStripes by { LayoutOk(c, blocks, layout); }
    SomeHolder(c, blocks, layout, x);
    var j :| 0 <= j < |layout| && InRow(c, x, j) && Mirrored(x, layout[j]);
    var base, at := StripeIndex(c, last.start), StripeIndex(c, x.start);
    assert base % 2 == 0 && at % 2 == 0 && base + 2 <= c.numStripes && at + 2 <= c.numStripes;
    if c.numStripes == 4 {
      var e, f :| Latest(c, blocks, f) && Found(c, blocks, e) && StripeIndex(c, e.start) == StripeIndex(c, f.start) &&
        !Whole(c, layout, e);
      assert f.start == last.start;
      HoldersAtMost(c, blocks, layout, e);
      OtherRow(c, blocks, layout, e, x, layout[j], j);
      exts, visited := WrongPlace(c, blocks, layout, e, last, x, layout[j], base + 1);
    } else {
      HoldersAtMost(c, blocks, layout, last);
      OtherRow(c, blocks, layout, last, x, layout[j], j);
      var s: nat := if base != 0 && at != 0 then 0 else if base != 2 && at != 2 then 2 else 4;
      exts, visited := WrongPlace(c, blocks, layout, last, last, x, layout[j], s);
    }
  }

  /** The extents of another pair do not hold the block. */
  lemma OtherRow(c: Chunk, blocks: set<Block>, layout: seq<DevExt>, e: Block, x: Block, q: DevExt, j: nat)
    requires Paired(c, blocks, layout) && Found(c, blocks, e) && c.offset <= x.start
    requires StripeIndex(c, x.start) != StripeIndex(c, e.start) && j < |layout| && layout[j] == q && InRow(c, x, j)
    ensures !Mirrored(e, q)
  {
    hide ExtsOk, StripeIndex, SlotOf, HeldInRow, Mirrored;
    assert StripeIndex(c, x.start) % 2 == 0 && StripeIndex(c, e.start) % 2 == 0;
    if Mirrored(e, q) { HolderInRow(c, blocks, layout, e, j); }
  }

  /** Found blocks in one pair, but not on the same extents. */
  lemma WrongOneRow(c: Chunk, blocks: set<Block>, layout: seq<DevExt>, last: Block, e: Block, x: Block, q: DevExt)
    returns (exts: seq<DevExt>, visited: seq<Block>)
    requires Paired(c, blocks, layout) && Latest(c, blocks, last) && c.numStripes >= 3
    requires Found(c, blocks, e) && StripeIndex(c, e.start) == StripeIndex(c, last.start)
    requires Found(c, blocks, x) && StripeIndex(c, x.start) == StripeIndex(c, last.start)
    requires q in layout && Mirrored(x, q) && !Mirrored(e, q)
    ensures multiset(exts) == multiset(layout) && Lookups(c, blocks, visited)
    ensures !Good(c, blocks, Rebuilt(c, visited, exts))
  {
    hide Good, ExtsOk, StripeIndex, SlotOf, Mirrored, HeldInRow, BlocksOk, Rounds, Filled, Holding, Lookups;
    HoldersAtMost(c, blocks, layout, e);
    var s: nat := if StripeIndex(c, last.start) == 0 then 2 else 0;
    exts, visited := WrongPlace(c, blocks, layout, e, last, x, q, s);
  }

  lemma WrongPairs(c: Chunk, blocks: set<Block>, layout: seq<DevExt>) returns (exts: seq<DevExt>, visited: seq<Block>)
    requires Paired(c, blocks, layout) && !Harmless(c, blocks, layout)
    ensures multiset(exts) == multiset(layout) && Lookups(c, blocks, visited)
    ensures !Good(c, blocks, Rebuilt(c, visited, exts))
  {
    hide Good, ExtsOk, StripeIndex, SlotOf, Mirrored, HeldInRow, BlocksOk, Rounds, Filled, Holding, Lookups, LastWhole;
    var e, f, q :| Found(c, blocks, e) && Found(c, blocks, f) && q in layout && Mirrored(f, q) && !Mirrored(e, q);
    var last := LastFound(c, blocks, e);
    assert Latest(c, blocks, last);
    if StripeIndex(c, e.start) != StripeIndex(c, last.start) {
      exts, visited := WrongTwoRows(c, blocks, layout, last, e);
    } else if StripeIndex(c, f.start) != StripeIndex(c, last.start) {
      exts, visited := WrongTwoRows(c, blocks, layout, last, f);
    } else {
      exts, visited := WrongOneRow(c, blocks, layout, last, e, f, q);
    }
  }

  /**
    RAID10, whatever the lookups return and however the list of extents is ordered: every
    found copy ends up in its pair if and only if there is one pair and no other slot, or all
    found blocks were found on the same extents, or there are two pairs and every block in
    the pair of the last one was found on both its extents.
   */
  lemma Raid10Exact(c: Chunk, blocks: set<Block>, layout: seq<DevExt>)
    requires Paired(c, blocks, layout)
    ensures (forall exts, visited :: multiset(exts) == multiset(layout) && Lookups(c, blocks, visited) ==>
             Good(c, blocks, Rebuilt(c, visited, exts)))
      <==> Harmless(c, blocks, layout)
  {
    hide Good, ExtsOk, Found, BlocksOk, Rounds, Filled, Scanning, Looked, SameHolders, LastWhole;
    if Harmless(c, blocks, layout) {
      forall exts, visited | multiset(exts) == multiset(layout) && Lookups(c, blocks, visited)
        ensures Good(c, blocks, Rebuilt(c, visited, exts))
      {
        LookupsBehind(c, blocks, visited);
        var b := Rounds(c, visited, Blank(c, exts));
        if c.numStripes == 2 {
          TwoSlots(c, blocks, b);
        } else if SameHolders(c, blocks, layout) {
          SameForced(c, blocks, layout, exts, visited);
        } else {
          FourForced(c, blocks, layout, exts, visited);
        }
        PermOk(layout, exts);
        LookupsFound(c, blocks, visited);
        RoundsKeep(c, blocks, visited, exts);
        RestGood(c, blocks, layout, b, exts, b.pending);
      }
    } else {
      var exts, visited := WrongPairs(c, blocks, layout);
    }
  }

  const FOUR_STRIPES: Chunk := Chunk(0, 8, 4, 4, Raid10)
  const ONE_COPY: Block := Block(0, 4, [Mirror(1, 0)])
  const OTHER_COPY: Block := Block(4, 4, [Mirror(3, 0)])
  const FOUR_EXTENTS: seq<DevExt> := [DevExt(1, 0, 4), DevExt(2, 0, 4), DevExt(3, 0, 4), DevExt(4, 0, 4)]

  /** Two pairs, and in each a block that was found on one extent only. */
  lemma WrongPair() returns (exts: seq<DevExt>, visited: seq<Block>)
    ensures var blocks := {ONE_COPY, OTHER_COPY};
      && Paired(FOUR_STRIPES, blocks, FOUR_EXTENTS) && multiset(exts) == multiset(FOUR_EXTENTS)
      && Lookups(FOUR_STRIPES, blocks, visited) && !Good(FOUR_STRIPES, blocks, Rebuilt(FOUR_STRIPES, visited, exts))
  {
    var blocks := {ONE_COPY, OTHER_COPY};
    ExamplePaired();
    ExampleHarmful();
    hide Good, Rounds, Filled, Lookups, Paired, Harmless;
    exts, visited := WrongPairs(FOUR_STRIPES, blocks, FOUR_EXTENTS);
  }

  lemma PairRows()
    ensures forall i :: InRow(FOUR_STRIPES, ONE_COPY, i) <==> i == 0 || i == 1
    ensures forall i :: InRow(FOUR_STRIPES, OTHER_COPY, i) <==> i == 2 || i == 3
    ensures StripeIndex(FOUR_STRIPES, 0) == 0 && StripeIndex(FOUR_STRIPES, 4) == 2
  {
    hide SlotOf, InRow;
    assert StripeIndex(FOUR_STRIPES, 0) == 0 && StripeIndex(FOUR_STRIPES, 4) == 2;
    hide StripeIndex, SlotOf;
    forall i: nat ensures InRow(FOUR_STRIPES, ONE_COPY, i) <==> i == 0 || i == 1 {
      RowByIndex(FOUR_STRIPES, ONE_COPY, i);
    }
    forall i: nat ensures InRow(FOUR_STRIPES, OTHER_COPY, i) <==> i == 2 || i == 3 {
      RowByIndex(FOUR_STRIPES, OTHER_COPY, i);
    }
  }

  lemma ExamplePaired()
    ensures Paired(FOUR_STRIPES, {ONE_COPY, OTHER_COPY}, FOUR_EXTENTS)
  {
    hide StripeIndex, SlotOf, InRow;
    PairRows();
    assert Inside(Mirror(1, 0), FOUR_EXTENTS[0]) && Inside(Mirror(3, 0), FOUR_EXTENTS[2]);
    assert HeldInRow(FOUR_STRIPES, ONE_COPY, Mirror(1, 0), FOUR_EXTENTS);
    assert HeldInRow(FOUR_STRIPES, OTHER_COPY, Mirror(3, 0), FOUR_EXTENTS);
    Aligned(FOUR_STRIPES, ONE_COPY, 0);
    Aligned(FOUR_STRIPES, OTHER_COPY, 1);
  }

  lemma ExampleHarmful()
    ensures !Harmless(FOUR_STRIPES, {ONE_COPY, OTHER_COPY}, FOUR_EXTENTS)
  {
    hide StripeIndex, SlotOf;
    PairRows();
    var blocks := {ONE_COPY, OTHER_COPY};
    HeldIn(ONE_COPY, 0, FOUR_EXTENTS[0]);
    assert !Mirrored(OTHER_COPY, FOUR_EXTENTS[0]) && !Mirrored(OTHER_COPY, FOUR_EXTENTS[3]);
    assert Found(FOUR_STRIPES, blocks, ONE_COPY) && Found(FOUR_STRIPES, blocks, OTHER_COPY);
    assert Latest(FOUR_STRIPES, blocks, OTHER_COPY) && !Whole(FOUR_STRIPES, FOUR_EXTENTS, OTHER_COPY);
  }
}
