/**
  What a rebuilt chunk has to do with the chunk as it was.  The true layout gives each
  stripe its device extent, and every copy of a block that was found lies in an extent of
  the block's stripe.  A lookup in the cache of blocks may return any block, so a scan can
  pass over blocks; the stripes that it did decide are right, and the theorems say exactly
  when the stripes that were filled freely are right too.
 */
module StripeTruth {
  import opened StripeOrder

  ghost predicate HeldInRow(c: Chunk, e: Block, m: Mirror, layout: seq<DevExt>)
    requires c.Valid()
  {
    exists j :: 0 <= j < |layout| && InRow(c, e, j) && Inside(m, layout[j])
  }

  /** Each found copy of a block lies in an extent of the block's stripe. */
  ghost predicate TrueLayout(c: Chunk, blocks: set<Block>, layout: seq<DevExt>) {
    && c.Valid() && |layout| == c.numStripes && ExtsOk(layout)
    && forall e, k :: Found(c, blocks, e) && 0 <= k < |e.mirrors| ==> HeldInRow(c, e, e.mirrors[k], layout)
  }

  /** Two slots hold the same data: the same slot, or in RAID10 the same pair. */
  predicate SameRow(c: Chunk, i: nat, j: nat) { i / SubStripes(c.raid) == j / SubStripes(c.raid) }

  /** The extent belongs where it was put. */
  ghost predicate Right(c: Chunk, layout: seq<DevExt>, i: nat, d: DevExt) {
    exists j :: 0 <= j < |layout| && layout[j] == d && SameRow(c, i, j)
  }

  lemma RowsAlign(c: Chunk, e: Block, i: nat, j: nat)
    requires c.Valid() && InRow(c, e, i)
    ensures InRow(c, e, j) <==> SameRow(c, i, j)
  {
    hide StripeIndex, SlotOf;
    var base := StripeIndex(c, e.start);
    if c.raid.Raid10? { assert base % 2 == 0; }
  }

  /** In disjoint extents a byte has one place. */
  lemma OnePlace(ds: seq<DevExt>, i: nat, j: nat, m: Mirror)
    requires ExtsOk(ds) && i < |ds| && j < |ds| && Inside(m, ds[i]) && Inside(m, ds[j])
    ensures i == j
  {}

  /** A slot with evidence has an extent of its stripe. */
  lemma EvidenceRight(c: Chunk, blocks: set<Block>, layout: seq<DevExt>, i: nat, d: DevExt)
    requires TrueLayout(c, blocks, layout) && Evidence(c, blocks, i, d) && d in layout
    ensures Right(c, layout, i, d)
  {
    hide InRow, Found, ExtsOk;
    var e :| Found(c, blocks, e) && InRow(c, e, i) && Mirrored(e, d);
    var k :| 0 <= k < |e.mirrors| && Inside(e.mirrors[k], d);
    var j :| 0 <= j < |layout| && layout[j] == d;
    assert HeldInRow(c, e, e.mirrors[k], layout);
    var t :| 0 <= t < |layout| && InRow(c, e, t) && Inside(e.mirrors[k], layout[t]);
    OnePlace(layout, j, t, e.mirrors[k]);
    RowsAlign(c, e, i, t);
  }

  // ---------------------------------------------------------------------------
  // Lists with the same members

  lemma {:induction false} TwoPlaces(ds: seq<DevExt>, d: DevExt) returns (i: nat, j: nat)
    requires multiset(ds)[d] >= 2
    ensures i < j < |ds| && ds[i] == ds[j] == d
  {
    var n := |ds| - 1;
    assert ds == ds[..n] + [ds[n]];
    OneMore(ds[..n], ds[n]);
    if ds[n] == d {
      assert d in multiset(ds[..n]);
      i :| 0 <= i < n && ds[..n][i] == d;
      j := n;
    } else {
      i, j := TwoPlaces(ds[..n], d);
    }
  }

  lemma {:induction false} TwiceIn(ds: seq<DevExt>, i: nat, j: nat)
    requires i < j < |ds| && ds[i] == ds[j]
    ensures multiset(ds)[ds[i]] >= 2
  {
    var a, b := ds[..j], ds[j..];
    assert ds == a + b;
    assert ds[i] in a && ds[i] in b by { assert a[i] == ds[i] && b[0] == ds[j]; }
    assert multiset(ds) == multiset(a) + multiset(b);
  }

  /** Disjointness does not depend on the order of the list. */
  lemma PermOk(a: seq<DevExt>, b: seq<DevExt>)
    requires ExtsOk(a) && multiset(a) == multiset(b)
    ensures ExtsOk(b) && |a| == |b|
  {
    forall i | 0 <= i < |b| ensures 0 < b[i].devid {
      assert b[i] in multiset(b);
      assert b[i] in a;
    }
    forall i, j, m | 0 <= i < j < |b| && Inside(m, b[i]) ensures !Inside(m, b[j]) {
      NotTwice(a, b, i, j, m);
    }
    SameLength(a, b);
  }

  lemma SameLength(a: seq<DevExt>, b: seq<DevExt>)
    requires multiset(a) == multiset(b)
    ensures |a| == |b|
  {
    assert |multiset(a)| == |a| && |multiset(b)| == |b|;
  }

  lemma NotTwice(a: seq<DevExt>, b: seq<DevExt>, i: nat, j: nat, m: Mirror)
    requires ExtsOk(a) && multiset(a) == multiset(b) && i < j < |b|
    ensures !(Inside(m, b[i]) && Inside(m, b[j]))
  {
    hide ExtsOk;
    if b[i] == b[j] {
      TwiceIn(b, i, j);
      var p, q := TwoPlaces(a, b[i]);
      if Inside(m, a[p]) { OnePlace(a, p, q, m); }
    } else {
      assert b[i] in multiset(a) && b[j] in multiset(a);
      var p :| 0 <= p < |a| && a[p] == b[i];
      var q :| 0 <= q < |a| && a[q] == b[j];
      if Inside(m, a[p]) && Inside(m, a[q]) { OnePlace(a, p, q, m); }
    }
  }

  // ---------------------------------------------------------------------------
  // What the scan decided is right

  lemma VisitedFound(c: Chunk, blocks: set<Block>, visited: seq<Block>, k: nat)
    requires c.Valid() && Behind(c, visited) && k < |visited| && Looked(c, blocks, visited, k)
    ensures Found(c, blocks, visited[k])
  {
    assert c.offset <= StartAt(c, visited, k);
  }

  ghost predicate AllFound(c: Chunk, blocks: set<Block>, visited: seq<Block>) {
    forall k :: 0 <= k < |visited| ==> Found(c, blocks, visited[k])
  }

  lemma {:induction false} RoundsKeep(c: Chunk, blocks: set<Block>, visited: seq<Block>, exts: seq<DevExt>)
    requires c.Valid() && BlocksOk(c, blocks) && ExtsOk(exts) && |exts| == c.numStripes && Behind(c, visited)
    requires AllFound(c, blocks, visited)
    ensures Scanning(c, blocks, Rounds(c, visited, Blank(c, exts)), exts)
  {
    hide Scanning, ExtsOk, Round;
    if visited == [] {
      BlankScanning(c, blocks, exts);
    } else {
      var n := |visited| - 1;
      assert forall k :: 0 <= k < n ==> visited[..n][k] == visited[k];
      RoundsKeep(c, blocks, visited[..n], exts);
      assert Found(c, blocks, visited[n]);
      RoundKeeps(c, blocks, visited[n], Rounds(c, visited[..n], Blank(c, exts)), exts);
    }
  }

  lemma LookupsFound(c: Chunk, blocks: set<Block>, visited: seq<Block>)
    requires c.Valid() && Lookups(c, blocks, visited)
    ensures AllFound(c, blocks, visited)
  {
    hide Looked, Found;
    forall k | 0 <= k < |visited| ensures Found(c, blocks, visited[k]) { VisitedFound(c, blocks, visited, k); }
  }

  lemma {:induction false} FilledKeeps(slots: seq<Slot>, pending: seq<DevExt>, i: nat, j: nat)
    requires i <= |slots| && j < |slots| && (slots[j].Placed? || j < i)
    ensures Filled(slots, pending, i)[j] == slots[j]
    decreases |slots| - i
  {
    if i < |slots| {
      if slots[i].Unset? && pending != [] {
        FilledKeeps(slots[i := Placed(pending[0])], pending[1..], i + 1, j);
      } else {
        FilledKeeps(slots, pending, i + 1, j);
      }
    }
  }

  /** The slots that the scan decided are kept, and they are true ones. */
  lemma ScannedRight(c: Chunk, blocks: set<Block>, layout: seq<DevExt>, exts: seq<DevExt>, visited: seq<Block>, i: nat)
    requires TrueLayout(c, blocks, layout) && BlocksOk(c, blocks) && multiset(exts) == multiset(layout)
    requires Lookups(c, blocks, visited) && i < c.numStripes
    ensures var decided := Rounds(c, visited, Blank(c, exts)).slots;
      decided[i].Placed? ==> Rebuilt(c, visited, exts)[i] == decided[i] && Right(c, layout, i, decided[i].ext)
  {
    hide ExtsOk, Filled, Rounds, Lookups, HeldInRow, Evidence, Found;
    PermOk(layout, exts);
    LookupsFound(c, blocks, visited);
    LookupsBehind(c, blocks, visited);
    RoundsKeep(c, blocks, visited, exts);
    var b := Rounds(c, visited, Blank(c, exts));
    if b.slots[i].Placed? {
      FilledKeeps(b.slots, b.pending, 0, i);
      PlacedMember(b.slots, b.slots[i].ext);
      assert b.slots[i].ext in multiset(layout);
      EvidenceRight(c, blocks, layout, i, b.slots[i].ext);
    }
  }

  lemma LookupsBehind(c: Chunk, blocks: set<Block>, visited: seq<Block>)
    requires c.Valid() && Lookups(c, blocks, visited)
    ensures Behind(c, visited)
  {}

  /** A rebuilt RAID5 or RAID6 chunk is the true one. */
  lemma ParityTrue(c: Chunk, blocks: set<Block>, layout: seq<DevExt>, exts: seq<DevExt>, slots: seq<Slot>)
    requires TrueLayout(c, blocks, layout) && multiset(exts) == multiset(layout) && (c.raid.Raid5? || c.raid.Raid6?)
    requires Bijection(slots, exts) && AllEvidence(c, blocks, slots)
    ensures |slots| == |layout| && forall i :: 0 <= i < |slots| ==> slots[i] == Placed(layout[i])
  {
    hide ExtsOk, HeldInRow, Evidence, Found;
    SameLength(exts, layout);
    forall i | 0 <= i < |slots| ensures slots[i] == Placed(layout[i]) {
      PlacedMember(slots, slots[i].ext);
      assert slots[i].ext in multiset(layout);
      EvidenceRight(c, blocks, layout, i, slots[i].ext);
    }
  }

  /** A refused RAID5 or RAID6 chunk: an extent that is still unassigned holds none of the blocks
      that the lookups returned. */
  lemma {:induction false} ParityMissing(c: Chunk, blocks: set<Block>, layout: seq<DevExt>, exts: seq<DevExt>,
                                         visited: seq<Block>, q: DevExt, k: nat)
    requires TrueLayout(c, blocks, layout) && BlocksOk(c, blocks) && multiset(exts) == multiset(layout)
    requires !c.raid.Raid10? && Behind(c, visited) && AllFound(c, blocks, visited) && k < |visited|
    requires q in Rounds(c, visited, Blank(c, exts)).pending
    ensures !Mirrored(visited[k], q)
  {
    hide ExtsOk, Found, StripeIndex, SlotOf, Scanning, HeldInRow, BlocksOk, Mirrored, Round;
    PermOk(layout, exts);
    var n := |visited| - 1;
    var front, e := visited[..n], visited[n];
    assert forall i :: 0 <= i < n ==> front[i] == visited[i];
    var b := Rounds(c, front, Blank(c, exts));
    RoundPending(c, e, b, q);
    if k < n {
      ParityMissing(c, blocks, layout, exts, front, q, k);
    } else if b.slots[StripeIndex(c, e.start)].Placed? {
      RoundsKeep(c, blocks, front, exts);
      assert Found(c, blocks, e);
      OwnExtent(c, blocks, layout, b, exts, e, q);
    }
  }

  lemma RoundPending(c: Chunk, e: Block, b: Books, q: DevExt)
    requires c.Valid() && c.offset <= e.start && |b.slots| == c.numStripes && q in Round(c, e, b).pending
    ensures q in b.pending && (b.slots[StripeIndex(c, e.start)].Unset? ==> !Mirrored(e, q))
  {
    hide StripeIndex, SlotOf, Mirrored, Holding, Lacking;
    Parted(e, b.pending);
  }

  /** Where a stripe is one slot, only the extent in its slot holds its blocks. */
  lemma OwnExtent(c: Chunk, blocks: set<Block>, layout: seq<DevExt>, b: Books, exts: seq<DevExt>, e: Block, q: DevExt)
    requires TrueLayout(c, blocks, layout) && Scanning(c, blocks, b, exts) && multiset(exts) == multiset(layout)
    requires ExtsOk(exts) && !c.raid.Raid10? && Found(c, blocks, e) && b.slots[StripeIndex(c, e.start)].Placed?
    requires q in b.pending
    ensures !Mirrored(e, q)
  {
    hide ExtsOk, StripeIndex, SlotOf, PlacedExts, UnsetCount, Evidence;
    var base := StripeIndex(c, e.start);
    var p := b.slots[base].ext;
    PlacedMember(b.slots, p);
    assert p in multiset(layout);
    EvidenceRight(c, blocks, layout, base, p);
    assert p == layout[base];
    PendingOfExts(b.slots, b.pending, exts);
    assert q in multiset(layout);
    var j :| 0 <= j < |layout| && layout[j] == q;
    forall k | 0 <= k < |e.mirrors| ensures !Inside(e.mirrors[k], q) {
      assert HeldInRow(c, e, e.mirrors[k], layout);
      if Inside(e.mirrors[k], q) {
        OnePlace(layout, j, base, e.mirrors[k]);
        NotBoth(b.slots, b.pending, exts, base, q, e.mirrors[k]);
        assert false;
      }
    }
  }

  // ---------------------------------------------------------------------------
  // What is filled freely

  /** Every found copy of a block ends up in an extent of the block's stripe. */
  ghost predicate Good(c: Chunk, blocks: set<Block>, slots: seq<Slot>)
    requires c.Valid()
  {
    forall e, k :: Found(c, blocks, e) && 0 <= k < |e.mirrors| ==> ShownInRow(c, e, e.mirrors[k], slots)
  }

  ghost predicate ShownInRow(c: Chunk, e: Block, m: Mirror, slots: seq<Slot>)
    requires c.Valid()
  {
    exists s :: 0 <= s < |slots| && InRow(c, e, s) && slots[s].Placed? && Inside(m, slots[s].ext)
  }

  /** An extent that holds a found block and is still to be assigned has no wrong slot left. */
  ghost predicate Forced(c: Chunk, blocks: set<Block>, b: Books)
    requires c.Valid()
  {
    forall q, e, s ::
      q in b.pending && Found(c, blocks, e) && Mirrored(e, q) && 0 <= s < |b.slots| && b.slots[s].Unset?
      ==> InRow(c, e, s)
  }

  /** Every pending extent lands on a slot that was unset. */
  lemma {:induction false} Lands(slots: seq<Slot>, pending: seq<DevExt>, i: nat, q: DevExt) returns (s: nat)
    requires i <= |slots| && UnsetCount(slots) == |pending| && (forall j :: 0 <= j < i ==> slots[j].Placed?)
    requires q in pending
    ensures s < |slots| && slots[s].Unset? && Filled(slots, pending, i)[s] == Placed(q)
    decreases |slots| - i
  {
    hide UnsetCount;
    AllPlaced(slots);
    if slots[i].Unset? {
      var next := slots[i := Placed(pending[0])];
      FillSlot(slots, i, pending[0]);
      if pending[0] == q {
        s := i;
        FilledKeeps(next, pending[1..], i + 1, i);
      } else {
        s := Lands(next, pending[1..], i + 1, q);
      }
    } else {
      s := Lands(slots, pending, i + 1, q);
    }
  }

  lemma Without(ds: seq<DevExt>, k: nat)
    requires k < |ds|
    ensures multiset(ds[..k] + ds[k + 1..]) + multiset{ds[k]} == multiset(ds)
  {
    assert ds == ds[..k] + [ds[k]] + ds[k + 1..];
  }

  /** Some order of the pending extents puts `pending[k]` on a given unset slot. */
  lemma {:induction false} LandAt(slots: seq<Slot>, pending: seq<DevExt>, i: nat, k: nat, s: nat)
    returns (order: seq<DevExt>)
    requires i <= s < |slots| && slots[s].Unset? && k < |pending| && UnsetCount(slots) == |pending|
    requires forall j :: 0 <= j < i ==> slots[j].Placed?
    ensures multiset(order) == multiset(pending) && Filled(slots, order, i)[s] == Placed(pending[k])
    decreases |slots| - i
  {
    if slots[i].Placed? {
      order := LandAt(slots, pending, i + 1, k, s);
    } else if i == s {
      var rest := pending[..k] + pending[k + 1..];
      order := [pending[k]] + rest;
      Without(pending, k);
      assert order[1..] == rest;
      FilledKeeps(slots[i := Placed(pending[k])], rest, i + 1, i);
    } else {
      order := LandLater(slots, pending, i, k, s);
    }
  }

  lemma {:induction false} LandLater(slots: seq<Slot>, pending: seq<DevExt>, i: nat, k: nat, s: nat)
    returns (order: seq<DevExt>)
    requires i < s < |slots| && slots[i].Unset? && slots[s].Unset? && k < |pending| && UnsetCount(slots) == |pending|
    requires forall j :: 0 <= j < i ==> slots[j].Placed?
    ensures multiset(order) == multiset(pending) && Filled(slots, order, i)[s] == Placed(pending[k])
    decreases |slots| - i, 0
  {
    hide UnsetCount;
    TwoUnset(slots, i, s);
    var p := if k == 0 then 1 else 0;
    var rest, k' := pending[..p] + pending[p + 1..], if k == 0 then 0 else k - 1;
    assert rest[k'] == pending[k];
    FillSlot(slots, i, pending[p]);
    var next := slots[i := Placed(pending[p])];
    var later := LandAt(next, rest, i + 1, k', s);
    order := [pending[p]] + later;
    assert order[1..] == later;
    Without(pending, p);
  }

  lemma TwoUnset(slots: seq<Slot>, i: nat, s: nat)
    requires i < s < |slots| && slots[i].Unset? && slots[s].Unset?
    ensures UnsetCount(slots) >= 2
  {
    var d := DevExt(1, 0, 0);
    FillSlot(slots, i, d);
    AllPlaced(slots[i := Placed(d)]);
    assert slots[i := Placed(d)][s].Unset?;
  }

  lemma {:induction false} FilledShared(slots: seq<Slot>, pending: seq<DevExt>, i: nat, exts: seq<DevExt>)
    requires i <= |slots| && Shared(slots, pending, exts) && forall j :: 0 <= j < i ==> slots[j].Placed?
    ensures var r := Filled(slots, pending, i);
      PlacedExts(r) == multiset(exts) && forall j :: 0 <= j < |r| ==> r[j].Placed?
    decreases |slots| - i
  {
    hide PlacedExts, UnsetCount;
    AllPlaced(slots);
    if i < |slots| {
      if slots[i].Unset? {
        assert pending != [];
        FillSlot(slots, i, pending[0]);
        assert pending == [pending[0]] + pending[1..];
        FilledShared(slots[i := Placed(pending[0])], pending[1..], i + 1, exts);
      } else {
        FilledShared(slots, pending, i + 1, exts);
      }
    }
  }

  ghost function ExtsIn(slots: seq<Slot>): seq<DevExt>
    requires forall j :: 0 <= j < |slots| ==> slots[j].Placed?
  {
    seq(|slots|, j requires 0 <= j < |slots| => slots[j].ext)
  }

  lemma {:induction false} ExtsInAre(slots: seq<Slot>)
    requires forall j :: 0 <= j < |slots| ==> slots[j].Placed?
    ensures multiset(ExtsIn(slots)) == PlacedExts(slots)
  {
    if slots != [] {
      var n := |slots| - 1;
      ExtsInAre(slots[..n]);
      assert ExtsIn(slots) == ExtsIn(slots[..n]) + [slots[n].ext];
      OneMore(ExtsIn(slots[..n]), slots[n].ext);
    }
  }

  /** In a filled chunk a byte is in one slot. */
  lemma FilledOnePlace(slots: seq<Slot>, exts: seq<DevExt>, s: nat, t: nat, m: Mirror)
    requires ExtsOk(exts) && PlacedExts(slots) == multiset(exts) && (forall j :: 0 <= j < |slots| ==> slots[j].Placed?)
    requires s < |slots| && t < |slots| && Inside(m, slots[s].ext) && Inside(m, slots[t].ext)
    ensures s == t
  {
    hide ExtsOk, PlacedExts;
    ExtsInAre(slots);
    PermOk(exts, ExtsIn(slots));
    OnePlace(ExtsIn(slots), s, t, m);
  }

  /** A slot decided with evidence lies in the row of every block found on its extent. */
  lemma DecidedInRow(c: Chunk, blocks: set<Block>, layout: seq<DevExt>, e: Block, k: nat, s: nat, q: DevExt)
    requires TrueLayout(c, blocks, layout) && Found(c, blocks, e) && k < |e.mirrors|
    requires Inside(e.mirrors[k], q) && q in layout
    requires Evidence(c, blocks, s, q)
    ensures InRow(c, e, s)
  {
    hide InRow, Found, ExtsOk, Evidence;
    EvidenceRight(c, blocks, layout, s, q);
    var j :| 0 <= j < |layout| && layout[j] == q && SameRow(c, s, j);
    assert HeldInRow(c, e, e.mirrors[k], layout);
    var t :| 0 <= t < |layout| && InRow(c, e, t) && Inside(e.mirrors[k], layout[t]);
    OnePlace(layout, j, t, e.mirrors[k]);
    RowsAlign(c, e, t, s);
  }

  /** Where the extent of a found copy is after the scan. */
  lemma RestGood(c: Chunk, blocks: set<Block>, layout: seq<DevExt>, b: Books, exts: seq<DevExt>, order: seq<DevExt>)
    requires TrueLayout(c, blocks, layout) && Scanning(c, blocks, b, exts) && multiset(exts) == multiset(layout)
    requires Forced(c, blocks, b) && multiset(order) == multiset(b.pending)
    ensures Good(c, blocks, Filled(b.slots, order, 0))
  {
    hide ExtsOk, InRow, Found, Filled, PlacedExts, UnsetCount, Evidence, Mirrored;
    SameLength(order, b.pending);
    forall e, k | Found(c, blocks, e) && 0 <= k < |e.mirrors|
      ensures ShownInRow(c, e, e.mirrors[k], Filled(b.slots, order, 0))
    {
      assert HeldInRow(c, e, e.mirrors[k], layout);
      var j :| 0 <= j < |layout| && InRow(c, e, j) && Inside(e.mirrors[k], layout[j]);
      var q := layout[j];
      assert q in multiset(exts);
      if q in b.pending {
        assert q in multiset(order);
        var s := Lands(b.slots, order, 0, q);
        assert Mirrored(e, q) by { HeldIn(e, k, q); }
      } else {
        assert q in PlacedExts(b.slots);
        PlacedMember(b.slots, q);
        var s :| 0 <= s < |b.slots| && b.slots[s] == Placed(q);
        DecidedInRow(c, blocks, layout, e, k, s, q);
        FilledKeeps(b.slots, order, 0, s);
      }
    }
  }

  lemma HeldIn(e: Block, k: nat, q: DevExt)
    requires k < |e.mirrors| && Inside(e.mirrors[k], q)
    ensures Mirrored(e, q)
  {}

  /** A pending extent with a found copy and a slot outside its row: some order goes wrong. */
  lemma RestBad(c: Chunk, blocks: set<Block>, b: Books, exts: seq<DevExt>, q: DevExt, e: Block, s: nat)
    returns (order: seq<DevExt>)
    requires Scanning(c, blocks, b, exts) && ExtsOk(exts) && q in b.pending && Found(c, blocks, e) && Mirrored(e, q)
    requires s < |b.slots| && b.slots[s].Unset? && !InRow(c, e, s)
    ensures multiset(order) == multiset(b.pending) && !Good(c, blocks, Filled(b.slots, order, 0))
  {
    hide ExtsOk, InRow, Found, Filled, PlacedExts, UnsetCount, Evidence;
    var p :| 0 <= p < |b.pending| && b.pending[p] == q;
    order := LandAt(b.slots, b.pending, 0, p, s);
    SameLength(order, b.pending);
    var r := Filled(b.slots, order, 0);
    FilledShared(b.slots, order, 0, exts);
    var k :| 0 <= k < |e.mirrors| && Inside(e.mirrors[k], q);
    if ShownInRow(c, e, e.mirrors[k], r) {
      var t :| 0 <= t < |r| && InRow(c, e, t) && r[t].Placed? && Inside(e.mirrors[k], r[t].ext);
      FilledOnePlace(r, exts, s, t, e.mirrors[k]);
      assert false;
    }
  }

  /**
    Given where the scan stopped: filling the rest in any order leaves every found copy in
    its stripe if and only if no pending extent with a found copy has a wrong slot left.
   */
  lemma RestExact(c: Chunk, blocks: set<Block>, layout: seq<DevExt>, b: Books, exts: seq<DevExt>)
    requires TrueLayout(c, blocks, layout) && Scanning(c, blocks, b, exts) && multiset(exts) == multiset(layout)
    ensures (forall order :: multiset(order) == multiset(b.pending) ==> Good(c, blocks, Filled(b.slots, order, 0))) <==>
      Forced(c, blocks, b)
  {
    LayoutOk(c, blocks, layout);
    hide Good, Filled, Scanning, TrueLayout, InRow, Found, Mirrored;
    if Forced(c, blocks, b) {
      forall order | multiset(order) == multiset(b.pending) ensures Good(c, blocks, Filled(b.slots, order, 0)) {
        RestGood(c, blocks, layout, b, exts, order);
      }
    } else {
      var q, e, s :| q in b.pending && Found(c, blocks, e) && Mirrored(e, q) && 0 <= s < |b.slots| &&
        b.slots[s].Unset? && !InRow(c, e, s);
      assert ExtsOk(exts) by { PermOk(layout, exts); }
      var order := RestBad(c, blocks, b, exts, q, e, s);
    }
  }

  lemma LayoutOk(c: Chunk, blocks: set<Block>, layout: seq<DevExt>)
    requires TrueLayout(c, blocks, layout)
    ensures ExtsOk(layout) && c.Valid() && |layout| == c.numStripes
  {}

  // ---------------------------------------------------------------------------
  // RAID0, over all lookups and all orders of the list

  /** The blocks have been found somewhere, and each stripe is one slot. */
  ghost predicate Striped(c: Chunk, blocks: set<Block>, layout: seq<DevExt>) {
    && TrueLayout(c, blocks, layout) && BlocksOk(c, blocks) && c.raid.Raid0?
    && forall e :: Found(c, blocks, e) ==> e.mirrors != []
  }

  /** All found blocks of the chunk lie in one stripe. */
  ghost predicate OneStripe(c: Chunk, blocks: set<Block>)
    requires c.Valid()
  {
    forall e, f :: Found(c, blocks, e) && Found(c, blocks, f) ==> StripeIndex(c, e.start) == StripeIndex(c, f.start)
  }

  /** The extents that hold a found RAID0 block: the true one of its stripe, and no other. */
  lemma HoldsBlock(c: Chunk, blocks: set<Block>, layout: seq<DevExt>, e: Block, q: DevExt)
    requires Striped(c, blocks, layout) && Found(c, blocks, e) && q in layout
    ensures StripeIndex(c, e.start) < |layout|
    ensures Mirrored(e, q) <==> q == layout[StripeIndex(c, e.start)]
  {
    hide ExtsOk, StripeIndex, SlotOf;
    var base := StripeIndex(c, e.start);
    assert HeldInRow(c, e, e.mirrors[0], layout);
    if Mirrored(e, q) {
      var k :| 0 <= k < |e.mirrors| && Inside(e.mirrors[k], q);
      assert HeldInRow(c, e, e.mirrors[k], layout);
      var j :| 0 <= j < |layout| && layout[j] == q;
      OnePlace(layout, j, base, e.mirrors[k]);
    }
  }

  /** An extent with a byte in it is not both placed and pending. */
  lemma NotBoth(slots: seq<Slot>, pending: seq<DevExt>, exts: seq<DevExt>, s: nat, q: DevExt, m: Mirror)
    requires Shared(slots, pending, exts) && ExtsOk(exts) && s < |slots| && slots[s] == Placed(q) && Inside(m, q)
    ensures q !in pending
  {
    hide ExtsOk, PlacedExts, UnsetCount;
    PlacedMember(slots, q);
    if q in pending {
      var i, j := TwoPlaces(exts, q);
      OnePlace(exts, i, j, m);
      assert false;
    }
  }

  lemma RoundPlaced(c: Chunk, e: Block, b: Books, s: nat)
    requires c.Valid() && c.offset <= e.start && |b.slots| == c.numStripes && s < c.numStripes
    requires b.slots[s].Placed? || (s == StripeIndex(c, e.start) && Holding(e, b.pending) != [])
    ensures Round(c, e, b).slots[s].Placed?
  {}

  /** The slot of every block that a lookup returned has been decided. */
  lemma {:induction false} VisitedPlaced(c: Chunk, blocks: set<Block>, layout: seq<DevExt>, visited: seq<Block>,
                                         exts: seq<DevExt>, k: nat)
    requires Striped(c, blocks, layout) && multiset(exts) == multiset(layout) && Behind(c, visited)
    requires AllFound(c, blocks, visited) && k < |visited|
    ensures Rounds(c, visited, Blank(c, exts)).slots[StripeIndex(c, visited[k].start)].Placed?
  {
    hide ExtsOk, Found, StripeIndex, SlotOf, Round, Scanning, HeldInRow, BlocksOk;
    PermOk(layout, exts);
    var n := |visited| - 1;
    var front, e := visited[..n], visited[n];
    assert forall i :: 0 <= i < n ==> front[i] == visited[i];
    var b := Rounds(c, front, Blank(c, exts));
    if k < n {
      VisitedPlaced(c, blocks, layout, front, exts, k);
    } else {
      RoundsKeep(c, blocks, front, exts);
      assert Found(c, blocks, e);
      PendingHolds(c, blocks, layout, b, exts, e);
    }
    assert c.offset <= e.start && c.offset <= visited[k].start;
    RoundPlaced(c, e, b, StripeIndex(c, visited[k].start));
  }

  lemma PendingHolds(c: Chunk, blocks: set<Block>, layout: seq<DevExt>, b: Books, exts: seq<DevExt>, e: Block)
    requires Striped(c, blocks, layout) && Scanning(c, blocks, b, exts) && multiset(exts) == multiset(layout)
    requires Found(c, blocks, e)
    ensures b.slots[StripeIndex(c, e.start)].Placed? || Holding(e, b.pending) != []
  {
    hide ExtsOk, StripeIndex, SlotOf, Holding, PlacedExts, UnsetCount, Evidence, BlocksOk;
    var base := StripeIndex(c, e.start);
    assert HeldInRow(c, e, e.mirrors[0], layout);
    var q := layout[base];
    assert q in multiset(exts);
    if q in b.pending {
      assert Mirrored(e, q);
      PartedMember(e, b.pending, q);
    } else {
      PlacedMember(b.slots, q);
      var s :| 0 <= s < |b.slots| && b.slots[s] == Placed(q);
      DecidedInRow(c, blocks, layout, e, 0, s, q);
    }
  }

  /** At most two stripes, or one occupied stripe: nothing can go wrong. */
  lemma ForcedSmall(c: Chunk, blocks: set<Block>, layout: seq<DevExt>, exts: seq<DevExt>, visited: seq<Block>)
    requires Striped(c, blocks, layout) && multiset(exts) == multiset(layout) && Lookups(c, blocks, visited)
    requires c.numStripes <= 2 || OneStripe(c, blocks)
    ensures Forced(c, blocks, Rounds(c, visited, Blank(c, exts)))
  {
    hide ExtsOk, Found, StripeIndex, SlotOf, Rounds, Scanning, Mirrored, HeldInRow, Evidence, BlocksOk;
    PermOk(layout, exts);
    LookupsFound(c, blocks, visited);
    RoundsKeep(c, blocks, visited, exts);
    var b := Rounds(c, visited, Blank(c, exts));
    ScanningParts(c, blocks, b, exts);
    forall q, e, s | q in b.pending && Found(c, blocks, e) && Mirrored(e, q) && 0 <= s < |b.slots| && b.slots[s].Unset?
      ensures InRow(c, e, s)
    {
      assert visited != [] by { SomeVisited(c, blocks, e, visited); }
      assert Found(c, blocks, visited[0]);
      VisitedPlaced(c, blocks, layout, visited, exts, 0);
      FirstSlot(c, blocks, layout, b, exts, visited[0], q, e);
      assert s != StripeIndex(c, visited[0].start);
    }
  }

  lemma SomeVisited(c: Chunk, blocks: set<Block>, e: Block, visited: seq<Block>)
    requires c.Valid() && Lookups(c, blocks, visited) && Found(c, blocks, e)
    ensures visited != []
  {
    assert visited == [] ==> StartAt(c, visited, |visited|) == c.offset;
  }

  /** A pending extent does not hold blocks of a decided slot. */
  lemma FirstSlot(c: Chunk, blocks: set<Block>, layout: seq<DevExt>, b: Books, exts: seq<DevExt>, f: Block, q: DevExt,
                  e: Block)
    requires Striped(c, blocks, layout) && Scanning(c, blocks, b, exts) && multiset(exts) == multiset(layout)
    requires ExtsOk(exts)
    requires Found(c, blocks, f) && b.slots[StripeIndex(c, f.start)].Placed?
    requires q in b.pending && Found(c, blocks, e) && Mirrored(e, q)
    ensures StripeIndex(c, e.start) != StripeIndex(c, f.start) && InRow(c, e, StripeIndex(c, e.start))
    ensures StripeIndex(c, e.start) < c.numStripes && forall s :: InRow(c, e, s) <==> s == StripeIndex(c, e.start)
  {
    hide ExtsOk, StripeIndex, SlotOf, PlacedExts, UnsetCount, Evidence, BlocksOk;
    var base, at := StripeIndex(c, f.start), StripeIndex(c, e.start);
    PendingOfExts(b.slots, b.pending, exts);
    assert q in multiset(layout);
    HoldsBlock(c, blocks, layout, e, q);
    var d := b.slots[base].ext;
    PlacedMember(b.slots, d);
    assert d in multiset(layout);
    EvidenceRight(c, blocks, layout, base, d);
    assert d == layout[base];
    var k :| 0 <= k < |e.mirrors| && Inside(e.mirrors[k], q);
    if base == at { NotBoth(b.slots, b.pending, exts, base, q, e.mirrors[k]); }
  }

  /** The found block that begins last. */
  lemma LastFound(c: Chunk, blocks: set<Block>, e: Block) returns (last: Block)
    requires Found(c, blocks, e)
    ensures Found(c, blocks, last) && forall f :: Found(c, blocks, f) ==> f.start <= last.start
  {
    var rest: set<Block> := blocks;
    last := e;
    while rest != {}
      invariant rest <= blocks && Found(c, blocks, last)
      invariant forall f :: Found(c, blocks, f) && f !in rest ==> f.start <= last.start
    {
      var f :| f in rest;
      rest := rest - {f};
      if Found(c, blocks, f) && last.start < f.start { last := f; }
    }
  }

  /** The first lookup may return that block, and then the scan is over. */
  lemma OneLookup(c: Chunk, blocks: set<Block>, last: Block)
    requires c.Valid() && BlocksOk(c, blocks) && Found(c, blocks, last)
    requires forall f :: Found(c, blocks, f) ==> f.start <= last.start
    ensures Lookups(c, blocks, [last])
  {
    var visited := [last];
    assert StartAt(c, visited, 0) == c.offset && StartAt(c, visited, 1) == NextStripe(c, last.start);
    assert Looked(c, blocks, visited, 0);
    var next := NextStripe(c, last.start);
    forall e | e in blocks ensures !Touches(e, next, c.End()) { BeginsBehind(c, blocks, e, next); }
  }

  lemma BeginsBehind(c: Chunk, blocks: set<Block>, e: Block, next: nat)
    requires c.Valid() && BlocksOk(c, blocks) && e in blocks && c.offset <= next && exists q :: next == Boundary(c, q)
    ensures Touches(e, next, c.End()) ==> next <= e.start && Found(c, blocks, e)
  {
    if Touches(e, next, c.End()) {
      assert Touches(e, c.offset, c.End());
      NotBefore(c, e, next);
    }
  }

  /** A list that begins with the one extent that holds the block. */
  lemma {:induction false} HoldingFirst(e: Block, d: DevExt, order: seq<DevExt>)
    requires Mirrored(e, d) && forall q :: q in order ==> !Mirrored(e, q)
    ensures Holding(e, [d] + order) == [d] && Lacking(e, [d] + order) == order
  {
    hide Mirrored;
    var all := [d] + order;
    if order == [] {
      assert all == [d] && all[..0] == [];
      assert Holding(e, []) == [] && Lacking(e, []) == [];
    } else {
      var n := |order| - 1;
      assert order[n] in order;
      assert forall q :: q in order[..n] ==> q in order;
      HoldingFirst(e, d, order[..n]);
      assert all == ([d] + order[..n]) + [order[n]];
      LackingLast(e, [d] + order[..n], order[n]);
      assert order == order[..n] + [order[n]];
    }
  }

  lemma LackingLast(e: Block, ds: seq<DevExt>, q: DevExt)
    requires !Mirrored(e, q)
    ensures Holding(e, ds + [q]) == Holding(e, ds) && Lacking(e, ds + [q]) == Lacking(e, ds) + [q]
  {
    assert (ds + [q])[..|ds|] == ds;
  }

  /** The books after the one round, for a list that begins with the block's extent. */
  lemma FirstRound(c: Chunk, e: Block, d: DevExt, order: seq<DevExt>)
    requires c.Valid() && c.offset <= e.start && Mirrored(e, d) && forall q :: q in order ==> !Mirrored(e, q)
    ensures var blank := seq(c.numStripes, _ => Unset);
      Rounds(c, [e], Blank(c, [d] + order)) == Books(blank[StripeIndex(c, e.start) := Placed(d)], order)
  {
    hide Mirrored, StripeIndex, SlotOf, Holding, Lacking;
    HoldingFirst(e, d, order);
    var base, blank := StripeIndex(c, e.start), Blank(c, [d] + order);
    assert [e][..0] == [] && [e][0] == e;
    assert Rounds(c, [], blank) == blank;
    assert Rounds(c, [e], blank) == Round(c, e, blank);
    assert Put(blank.slots, base, [d]) == blank.slots[base := Placed(d)];
  }

  /** With three stripes and blocks in two, some lookup and some list put a block wrong. */
  lemma WrongBig(c: Chunk, blocks: set<Block>, layout: seq<DevExt>) returns (exts: seq<DevExt>, visited: seq<Block>)
    requires Striped(c, blocks, layout) && c.numStripes >= 3 && !OneStripe(c, blocks)
    ensures multiset(exts) == multiset(layout) && Lookups(c, blocks, visited)
    ensures !Good(c, blocks, Rebuilt(c, visited, exts))
  {
    hide Good, ExtsOk, StripeIndex, SlotOf, Mirrored, HeldInRow, BlocksOk, Rounds, Filled;
    var e, f :| Found(c, blocks, e) && Found(c, blocks, f) && StripeIndex(c, e.start) != StripeIndex(c, f.start);
    var last := LastFound(c, blocks, e);
    visited := [last];
    OneLookup(c, blocks, last);
    var x := if StripeIndex(c, e.start) != StripeIndex(c, last.start) then e else f;
    exts := WrongAfter(c, blocks, layout, last, x);
  }

  lemma WrongAfter(c: Chunk, blocks: set<Block>, layout: seq<DevExt>, last: Block, x: Block) returns (exts: seq<DevExt>)
    requires Striped(c, blocks, layout) && c.numStripes >= 3 && Found(c, blocks, last) && Found(c, blocks, x)
    requires StripeIndex(c, x.start) != StripeIndex(c, last.start)
    ensures multiset(exts) == multiset(layout) && !Good(c, blocks, Rebuilt(c, [last], exts))
  {
    RestList(c, blocks, layout, last);
    assert c.Valid() && c.offset <= last.start;
    hide Good, Striped, StripeIndex, SlotOf, Mirrored, Rounds, Filled, Found;
    var base := StripeIndex(c, last.start);
    var d, rest := layout[base], layout[..base] + layout[base + 1..];
    FirstRound(c, last, d, rest);
    var order := WrongOrder(c, blocks, layout, last, x, Rounds(c, [last], Blank(c, [d] + rest)));
    exts := [d] + order;
    ListOf(d, order);
    ListOf(d, rest);
    SameMembers(order, rest);
    FirstRound(c, last, d, order);
  }

  lemma WrongOrder(c: Chunk, blocks: set<Block>, layout: seq<DevExt>, last: Block, x: Block, b: Books)
    returns (order: seq<DevExt>)
    requires Striped(c, blocks, layout) && c.numStripes >= 3 && Found(c, blocks, last) && Found(c, blocks, x)
    requires StripeIndex(c, x.start) != StripeIndex(c, last.start)
    requires var base := StripeIndex(c, last.start);
      && base < |layout| && b == Rounds(c, [last], Blank(c, [layout[base]] + (layout[..base] + layout[base + 1..])))
      && b == Books(seq(c.numStripes, _ => Unset)[base := Placed(layout[base])], layout[..base] + layout[base + 1..])
    ensures multiset(order) == multiset(b.pending) && !Good(c, blocks, Filled(b.slots, order, 0))
  {
    hide Good, ExtsOk, StripeIndex, SlotOf, Mirrored, HeldInRow, BlocksOk, Rounds, Filled, Scanning, InRow;
    var base, at := StripeIndex(c, last.start), StripeIndex(c, x.start);
    var exts := [layout[base]] + (layout[..base] + layout[base + 1..]);
    RestList(c, blocks, layout, last);
    PermOk(layout, exts);
    RoundsKeep(c, blocks, [last], exts);
    var s: nat := if base != 0 && at != 0 then 0 else if base != 1 && at != 1 then 1 else 2;
    assert !InRow(c, x, s) by { OtherSlot(c, x, s); }
    HoldsBlock(c, blocks, layout, x, layout[at]);
    RestHas(layout, base, at);
    order := RestBad(c, blocks, b, exts, layout[at], x, s);
  }

  lemma OtherSlot(c: Chunk, e: Block, s: nat)
    requires c.Valid() && c.raid.Raid0? && c.offset <= e.start && s != StripeIndex(c, e.start)
    ensures !InRow(c, e, s)
  {}

  /** The true extents with the one that holds the block in front. */
  lemma RestList(c: Chunk, blocks: set<Block>, layout: seq<DevExt>, e: Block)
    requires Striped(c, blocks, layout) && Found(c, blocks, e)
    ensures var base := StripeIndex(c, e.start);
      && base < |layout| && Mirrored(e, layout[base])
      && var rest := layout[..base] + layout[base + 1..];
      multiset([layout[base]] + rest) == multiset(layout) && forall q :: q in rest ==> !Mirrored(e, q)
  {
    hide ExtsOk, StripeIndex, SlotOf, Mirrored, HeldInRow, BlocksOk;
    var base := StripeIndex(c, e.start);
    StripeHolders(c, blocks, layout, e);
    Without(layout, base);
    ListOf(layout[base], layout[..base] + layout[base + 1..]);
    RestLacks(c, blocks, layout, e);
  }

  lemma ListOf(d: DevExt, rest: seq<DevExt>)
    ensures multiset([d] + rest) == multiset{d} + multiset(rest)
  {}

  lemma SameMembers(a: seq<DevExt>, b: seq<DevExt>)
    requires multiset(a) == multiset(b)
    ensures forall q :: q in a <==> q in b
  {
    assert forall q :: q in a <==> q in multiset(a);
    assert forall q :: q in b <==> q in multiset(b);
  }

  lemma RestHas(layout: seq<DevExt>, base: nat, at: nat)
    requires base < |layout| && at < |layout| && at != base
    ensures layout[at] in layout[..base] + layout[base + 1..]
  {
    var rest := layout[..base] + layout[base + 1..];
    assert rest[if at < base then at else at - 1] == layout[at];
  }

  lemma StripeHolders(c: Chunk, blocks: set<Block>, layout: seq<DevExt>, e: Block)
    requires Striped(c, blocks, layout) && Found(c, blocks, e)
    ensures StripeIndex(c, e.start) < |layout| && Mirrored(e, layout[StripeIndex(c, e.start)])
  {
    hide ExtsOk, BlocksOk, StripeIndex, SlotOf;
    HoldsBlock(c, blocks, layout, e, layout[StripeIndex(c, e.start)]);
  }

  /** No other extent holds the block. */
  lemma RestLacks(c: Chunk, blocks: set<Block>, layout: seq<DevExt>, e: Block)
    requires Striped(c, blocks, layout) && Found(c, blocks, e) && StripeIndex(c, e.start) < |layout|
    ensures var base := StripeIndex(c, e.start);
      forall q :: q in layout[..base] + layout[base + 1..] ==> !Mirrored(e, q)
  {
    hide ExtsOk, BlocksOk, StripeIndex, SlotOf, Mirrored;
    var base := StripeIndex(c, e.start);
    var rest := layout[..base] + layout[base + 1..];
    forall q | q in rest ensures !Mirrored(e, q) {
      var i :| 0 <= i < |rest| && rest[i] == q;
      var j := if i < base then i else i + 1;
      assert layout[j] == q && j != base;
      NotTheSame(c, blocks, layout, e, j);
    }
  }

  lemma NotTheSame(c: Chunk, blocks: set<Block>, layout: seq<DevExt>, e: Block, j: nat)
    requires Striped(c, blocks, layout) && Found(c, blocks, e) && j < |layout| && j != StripeIndex(c, e.start)
    ensures !Mirrored(e, layout[j])
  {
    hide ExtsOk, BlocksOk, StripeIndex, SlotOf;
    if Mirrored(e, layout[j]) {
      var k :| 0 <= k < |e.mirrors| && Inside(e.mirrors[k], layout[j]);
      assert HeldInRow(c, e, e.mirrors[k], layout);
      OnePlace(layout, j, StripeIndex(c, e.start), e.mirrors[k]);
      assert false;
    }
  }

  /**
    RAID0, whatever the lookups return and however the list of extents is ordered: every
    found block ends up in the extent that holds it if and only if the chunk has at most
    two stripes or all its found blocks lie in one.
   */
  lemma Raid0Exact(c: Chunk, blocks: set<Block>, layout: seq<DevExt>)
    requires Striped(c, blocks, layout)
    ensures (forall exts, visited :: multiset(exts) == multiset(layout) && Lookups(c, blocks, visited) ==>
             Good(c, blocks, Rebuilt(c, visited, exts)))
      <==> c.numStripes <= 2 || OneStripe(c, blocks)
  {
    hide Good, ExtsOk, Found, BlocksOk, Rounds, Filled, Scanning, Looked, OneStripe;
    if c.numStripes <= 2 || OneStripe(c, blocks) {
      forall exts, visited | multiset(exts) == multiset(layout) && Lookups(c, blocks, visited)
        ensures Good(c, blocks, Rebuilt(c, visited, exts))
      {
        LookupsBehind(c, blocks, visited);
        ForcedSmall(c, blocks, layout, exts, visited);
        PermOk(layout, exts);
        LookupsFound(c, blocks, visited);
        RoundsKeep(c, blocks, visited, exts);
        var b := Rounds(c, visited, Blank(c, exts));
        RestGood(c, blocks, layout, b, exts, b.pending);
      }
    } else {
      var exts, visited := WrongBig(c, blocks, layout);
    }
  }

  const THREE_STRIPES: Chunk := Chunk(0, 12, 4, 3, Raid0)
  const FIRST_BLOCK: Block := Block(0, 4, [Mirror(1, 0)])
  const LAST_BLOCK: Block := Block(8, 4, [Mirror(3, 0)])
  const THREE_EXTENTS: seq<DevExt> := [DevExt(1, 0, 4), DevExt(2, 0, 4), DevExt(3, 0, 4)]

  /**
    A RAID0 chunk of three stripes with a block found in the first and one in the last.  The
    first lookup returns the last block, the second extent comes before the first in the
    list, and the first stripe is given it, although its block was found on another.
   */
  lemma WrongStripe() returns (exts: seq<DevExt>, visited: seq<Block>)
    ensures var blocks := {FIRST_BLOCK, LAST_BLOCK};
      && Striped(THREE_STRIPES, blocks, THREE_EXTENTS) && Found(THREE_STRIPES, blocks, FIRST_BLOCK)
      && InRow(THREE_STRIPES, FIRST_BLOCK, 0)
      && multiset(exts) == multiset(THREE_EXTENTS) && Lookups(THREE_STRIPES, blocks, visited)
      && Rebuilt(THREE_STRIPES, visited, exts)[0] == Placed(THREE_EXTENTS[1]) && Mirrored(FIRST_BLOCK, THREE_EXTENTS[0])
  {
    hide Striped, Lookups, Rounds, Filled, SlotOf, StripeIndex, InRow;
    var d1, d2, d3 := THREE_EXTENTS[0], THREE_EXTENTS[1], THREE_EXTENTS[2];
    exts, visited := [d3, d2, d1], [LAST_BLOCK];
    ExampleStriped();
    ExampleLookup();
    ExampleCopies();
    assert multiset([d3, d2, d1]) == multiset{d1, d2, d3} && THREE_EXTENTS == [d1, d2, d3];
    FirstRound(THREE_STRIPES, LAST_BLOCK, d3, [d2, d1]);
    assert [d3] + [d2, d1] == exts;
    FilledTwo(d1, d2, d3);
  }

  lemma ExampleRows()
    ensures forall i :: InRow(THREE_STRIPES, FIRST_BLOCK, i) <==> i == 0
    ensures forall i :: InRow(THREE_STRIPES, LAST_BLOCK, i) <==> i == 2
    ensures StripeIndex(THREE_STRIPES, 8) == 2
  {
    hide SlotOf, InRow;
    assert StripeIndex(THREE_STRIPES, 0) == 0 && StripeIndex(THREE_STRIPES, 8) == 2;
    hide StripeIndex, SlotOf;
    forall i: nat ensures InRow(THREE_STRIPES, FIRST_BLOCK, i) <==> i == 0 {
      RowByIndex(THREE_STRIPES, FIRST_BLOCK, i);
    }
    forall i: nat ensures InRow(THREE_STRIPES, LAST_BLOCK, i) <==> i == 2 { RowByIndex(THREE_STRIPES, LAST_BLOCK, i); }
  }

  lemma ExampleCopies()
    ensures Mirrored(FIRST_BLOCK, THREE_EXTENTS[0]) && Mirrored(LAST_BLOCK, THREE_EXTENTS[2])
    ensures !Mirrored(LAST_BLOCK, THREE_EXTENTS[0]) && !Mirrored(LAST_BLOCK, THREE_EXTENTS[1])
    ensures InRow(THREE_STRIPES, FIRST_BLOCK, 0) && StripeIndex(THREE_STRIPES, 8) == 2
  {
    ExampleRows();
    HeldIn(FIRST_BLOCK, 0, THREE_EXTENTS[0]);
    HeldIn(LAST_BLOCK, 0, THREE_EXTENTS[2]);
  }

  lemma ExampleStriped()
    ensures Striped(THREE_STRIPES, {FIRST_BLOCK, LAST_BLOCK}, THREE_EXTENTS)
    ensures Found(THREE_STRIPES, {FIRST_BLOCK, LAST_BLOCK}, FIRST_BLOCK)
  {
    hide StripeIndex, SlotOf, InRow;
    ExampleRows();
    assert Inside(Mirror(1, 0), THREE_EXTENTS[0]) && Inside(Mirror(3, 0), THREE_EXTENTS[2]);
    assert HeldInRow(THREE_STRIPES, FIRST_BLOCK, Mirror(1, 0), THREE_EXTENTS) &&
      HeldInRow(THREE_STRIPES, LAST_BLOCK, Mirror(3, 0), THREE_EXTENTS);
    Aligned(THREE_STRIPES, FIRST_BLOCK, 0);
    Aligned(THREE_STRIPES, LAST_BLOCK, 2);
  }

  lemma ExampleLookup()
    ensures Lookups(THREE_STRIPES, {FIRST_BLOCK, LAST_BLOCK}, [LAST_BLOCK])
  {
    hide Lookups, StripeIndex, SlotOf;
    Aligned(THREE_STRIPES, FIRST_BLOCK, 0);
    Aligned(THREE_STRIPES, LAST_BLOCK, 2);
    OneLookup(THREE_STRIPES, {FIRST_BLOCK, LAST_BLOCK}, LAST_BLOCK);
  }

  lemma Aligned(c: Chunk, e: Block, q: nat)
    requires c.stripeLen == 4 && c.offset == 0 && e.size == 4 && e.start == 4 * q
    ensures WithinStripe(c, e)
  {}

  lemma FilledTwo(d1: DevExt, d2: DevExt, d3: DevExt)
    ensures Filled(seq(3, _ => Unset)[2 := Placed(d3)], [d2, d1], 0)[0] == Placed(d2)
  {
    var slots := seq(3, _ => Unset)[2 := Placed(d3)];
    FilledKeeps(slots[0 := Placed(d2)], [d1], 1, 0);
    assert [d2, d1][1..] == [d1];
  }
}
