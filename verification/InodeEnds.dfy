/**
  When exactly do the end of the extents and the first gap of an inode survive the
  splicing of shared subtrees?  A plain walk knows only where its last extent ends; a
  splice keeps the greater of two ends.  The two theorems say for which items every
  history of processing and splicing agrees with the plain walk.
 */
module InodeEnds {
  import opened Basics
  import opened InodeMerge

  ghost predicate HasData(items: seq<Item>) { exists i :: 0 <= i < |items| && items[i].Data? }

  /** Every extent ends at or before `bound`. */
  ghost predicate EndsBy(items: seq<Item>, bound: nat) {
    forall i :: 0 <= i < |items| && items[i].Data? ==> items[i].extent.End() <= bound
  }

  /** What a walk in key order knows about its items. */
  ghost predicate Facts(t: Totals, items: seq<Item>) {
    && t.gap <= U64_MAX && (t.start == U64_MAX <==> !HasData(items))
    && (t.start == U64_MAX ==> t.end == 0 && t.gap == U64_MAX) && (t.start != U64_MAX ==> BeginsAt(items, t.start))
    && (forall i :: 0 <= i < |items| && items[i].Data? ==> t.start <= items[i].extent.off <= t.end)
    && (t.gap != U64_MAX ==> t.start <= t.gap && BeginsAfter(items, t.gap))
  }

  /** Some extent begins behind `x`. */
  ghost predicate BeginsAfter(items: seq<Item>, x: nat) {
    exists i :: 0 <= i < |items| && items[i].Data? && x < items[i].extent.off
  }

  ghost predicate BeginsAt(items: seq<Item>, x: nat) {
    exists i :: 0 <= i < |items| && items[i].Data? && x == items[i].extent.off
  }

  /** The quantified facts, for one more item. */
  lemma ItemsNext(items: seq<Item>, i: Item, start: nat, gap: nat)
    ensures HasData(items + [i]) <==> HasData(items) || i.Data?
    ensures BeginsAt(items + [i], start) <==> BeginsAt(items, start) || (i.Data? && start == i.extent.off)
    ensures BeginsAfter(items + [i], gap) <==> BeginsAfter(items, gap) || (i.Data? && gap < i.extent.off)
  {
    var more := items + [i];
    assert more[|items|] == i && forall k :: 0 <= k < |items| ==> more[k] == items[k];
    if HasData(items) {
      var k :| 0 <= k < |items| && items[k].Data?;
      assert more[k].Data?;
    }
    if BeginsAt(items, start) {
      var k :| 0 <= k < |items| && items[k].Data? && start == items[k].extent.off;
      assert more[k] == items[k];
    }
    if BeginsAfter(items, gap) {
      var k :| 0 <= k < |items| && items[k].Data? && gap < items[k].extent.off;
      assert more[k] == items[k];
    }
  }

  lemma FactsNext(t: Totals, items: seq<Item>, i: Item)
    requires Facts(t, items) && (i.Data? ==> Below(items, i.extent.off) && i.extent.off < U64_MAX)
    ensures Facts(Add(t, i), items + [i])
  {
    StartFirst(t, items);
    assert i.Data? && t.start != U64_MAX ==> t.start < i.extent.off;
    hide HasData, BeginsAt, BeginsAfter;
    var t', more := Add(t, i), items + [i];
    assert more[|items|] == i;
    ItemsNext(items, i, t'.start, t'.gap);
    assert t'.start == t.start || !HasData(items);
    forall k | 0 <= k < |more| && more[k].Data? ensures t'.start <= more[k].extent.off <= t'.end {
      if k < |items| { assert more[k] == items[k] && HasData(items) by { DataAt(items, k); } }
    }
  }

  lemma StartFirst(t: Totals, items: seq<Item>)
    requires Facts(t, items)
    ensures t.start != U64_MAX ==> t.start <= t.end
    ensures t.start != U64_MAX ==> exists k :: 0 <= k < |items| && items[k].Data? && items[k].extent.off == t.start
  {}

  lemma DataAt(items: seq<Item>, k: nat)
    requires k < |items| && items[k].Data?
    ensures HasData(items)
  {}

  lemma {:induction false} WalkFacts(items: seq<Item>)
    requires KeyOrder(items)
    ensures Facts(Walk(items), items)
  {
    if items != [] {
      var n := |items| - 1;
      assert items == items[..n] + [items[n]];
      KeyOrderParts(items[..n], [items[n]]);
      WalkFacts(items[..n]);
      assert items[n].Data? ==> Below(items[..n], items[n].extent.off);
      FactsNext(Walk(items[..n]), items[..n], items[n]);
    }
  }

  // ---------------------------------------------------------------------------
  // A walk over two stretches

  /** How the totals of a walk over two stretches follow from those of each. */
  ghost predicate Split(ta: Totals, tb: Totals, tab: Totals) {
    && tab.end == (if tb.start == U64_MAX then ta.end else tb.end)
    && tab.start == (if ta.start == U64_MAX then tb.start else ta.start)
    && tab.gap == Merge(ta, tb).gap
  }

  lemma SplitNext(ta: Totals, tb: Totals, tab: Totals, i: Item)
    requires Split(ta, tb, tab) && (i.Data? ==> i.extent.off < U64_MAX)
    requires ta.gap <= U64_MAX && tb.gap <= U64_MAX
    requires (tb.start == U64_MAX ==> tb.gap == U64_MAX) && (ta.start == U64_MAX ==> ta.gap == U64_MAX)
    ensures Split(ta, Add(tb, i), Add(tab, i))
  {
    if i.Data? && tb.start != U64_MAX {
      if ta.start != U64_MAX {
        assert tab.end == tb.end;
      }
    }
  }

  lemma {:induction false} WalkSplit(a: seq<Item>, b: seq<Item>)
    requires KeyOrder(a + b)
    ensures Split(Walk(a), Walk(b), Walk(a + b))
  {
    KeyOrderParts(a, b);
    WalkFacts(a);
    if b == [] {
      assert a + b == a;
    } else {
      var n := |b| - 1;
      assert a + b == (a + b[..n]) + [b[n]] && b == b[..n] + [b[n]];
      assert (a + b)[..|a| + n] == a + b[..n];
      KeyOrderParts(a + b[..n], [b[n]]);
      KeyOrderParts(b[..n], [b[n]]);
      WalkSplit(a, b[..n]);
      WalkFacts(b[..n]);
      SplitNext(Walk(a), Walk(b[..n]), Walk(a + b[..n]), b[n]);
    }
  }

  // ---------------------------------------------------------------------------
  // The end

  /** A record never ends before the walk does, nor after the last byte of any extent. */
  lemma {:induction false} EndBounds(h: History, bound: nat)
    requires KeyOrder(Items(h)) && EndsBy(Items(h), bound)
    ensures Walk(Items(h)).end <= Result(h).end <= bound
    decreases h
  {
    hide Walk, Merge, Add, Facts, Agree;
    SharedWalkAgrees(h);
    match h
    case New => WalkNothing();
    case Process(b, i) =>
      KeyOrderParts(Items(b), [i]);
      PartEnds(Items(b), [i], bound);
      EndBounds(b, bound);
      WalkAppend(Items(b), i);
      assert (Items(b) + [i])[|Items(b)|] == i;
      AddEnd(Walk(Items(b)), i);
      AddEnd(Result(b), i);
    case Splice(a, b) =>
      KeyOrderParts(Items(a), Items(b));
      PartEnds(Items(a), Items(b), bound);
      EndBounds(a, bound);
      EndBounds(b, bound);
      SharedWalkAgrees(a);
      SharedWalkAgrees(b);
      WalkSplit(Items(a), Items(b));
      MergeEnd(Walk(Items(a)), Walk(Items(b)), Walk(Items(h)), Result(a), Result(b));
  }

  lemma AddEnd(t: Totals, i: Item)
    ensures Add(t, i).end == if i.Data? then i.extent.End() else t.end
  {}

  lemma MergeEnd(wa: Totals, wb: Totals, wab: Totals, ra: Totals, rb: Totals)
    requires Split(wa, wb, wab) && Agree(ra, wa) && Agree(rb, wb) && wa.end <= ra.end && wb.end <= rb.end
    ensures wab.end <= Merge(ra, rb).end
    ensures Merge(ra, rb).end <= ra.end || Merge(ra, rb).end <= rb.end
  {}

  lemma PartEnds(a: seq<Item>, b: seq<Item>, bound: nat)
    requires EndsBy(a + b, bound)
    ensures EndsBy(a, bound) && EndsBy(b, bound)
  {
    assert forall i :: 0 <= i < |a| ==> (a + b)[i] == a[i];
    assert forall i :: 0 <= i < |b| ==> (a + b)[|a| + i] == b[i];
  }

  /** Processing items one by one, without any splice. */
  function Plain(items: seq<Item>): History {
    if items == [] then New else Process(Plain(items[..|items| - 1]), items[|items| - 1])
  }

  lemma {:induction false} PlainWalks(items: seq<Item>)
    ensures Items(Plain(items)) == items && Result(Plain(items)) == Walk(items)
  {
    if items != [] { PlainWalks(items[..|items| - 1]); }
  }

  /**
    The end of the extents is that of a plain walk, whatever the history, if and only if
    no extent reaches beyond the end of the last one.
   */
  lemma EndExact(items: seq<Item>)
    requires KeyOrder(items)
    ensures (forall h :: Items(h) == items ==> Result(h).end == Walk(items).end) <==> EndsBy(items, Walk(items).end)
  {
    hide Walk, Items, Result;
    var end := Walk(items).end;
    if EndsBy(items, end) {
      forall h | Items(h) == items ensures Result(h).end == end { EndBounds(h, end); }
    } else {
      var k :| 0 <= k < |items| && items[k].Data? && items[k].extent.End() > end;
      var h := LongExtent(items, k);
      assert Items(h) == items;
    }
  }

  /** A splice behind an extent remembers where it ends. */
  lemma LongExtent(items: seq<Item>, k: nat) returns (h: History)
    requires KeyOrder(items) && k < |items| && items[k].Data? && items[k].extent.End() > Walk(items).end
    ensures Items(h) == items && Result(h).end != Walk(items).end
  {
    hide Walk, Merge, Facts, Add;
    var a, b := items[..k + 1], items[k + 1..];
    assert items == a + b && a == items[..k] + [items[k]];
    h := Splice(Plain(a), Plain(b));
    assert Items(h) == items && Result(h) == Merge(Walk(a), Walk(b)) by { PlainWalks(a); PlainWalks(b); }
    WalkSplit(a, b);
    EndOfLast(items[..k], items[k]) by { KeyOrderParts(a, b); }
    GreaterEnd(Walk(a), Walk(b));
  }

  lemma EndOfLast(items: seq<Item>, i: Item)
    requires KeyOrder(items + [i]) && i.Data?
    ensures Walk(items + [i]).end == i.extent.End() && Walk(items + [i]).start < U64_MAX
  {
    hide Walk;
    WalkAppend(items, i);
    WalkFacts(items + [i]);
    assert (items + [i])[|items|] == i;
  }

  lemma GreaterEnd(ta: Totals, tb: Totals)
    requires ta.start != U64_MAX
    ensures Merge(ta, tb).end >= ta.end
  {}

  // ---------------------------------------------------------------------------
  // The first gap

  /** No extent that begins at or before the first gap of the walk reaches beyond it. */
  ghost predicate GapClear(items: seq<Item>) {
    var gap := Walk(items).gap;
    gap == U64_MAX || forall i :: 0 <= i < |items| && items[i].Data? && items[i].extent.off <= gap ==>
      items[i].extent.End() <= gap
  }

  /** Up to the gap, a clear list is bounded by it. */
  lemma ClearPrefix(a: seq<Item>, b: seq<Item>, gap: nat)
    requires GapClear(a + b) && Walk(a + b).gap == gap != U64_MAX
    requires forall i :: 0 <= i < |a| && a[i].Data? ==> a[i].extent.off <= gap
    ensures EndsBy(a, gap)
  {
    hide Walk;
    assert forall i :: 0 <= i < |a| ==> (a + b)[i] == a[i];
  }

  lemma ClearPart(a: seq<Item>, b: seq<Item>)
    requires GapClear(a + b)
    ensures Walk(a).gap == Walk(a + b).gap ==> GapClear(a)
    ensures Walk(b).gap == Walk(a + b).gap ==> GapClear(b)
  {
    hide Walk;
    assert forall i :: 0 <= i < |a| ==> (a + b)[i] == a[i];
    assert forall i :: 0 <= i < |b| ==> (a + b)[|a| + i] == b[i];
  }

  /** What is known of a record `r` against the walk `w` over the same items. */
  ghost predicate GapOk(w: Totals, r: Totals, clear: bool) {
    w.gap <= r.gap <= U64_MAX && w.end <= r.end && w.start == r.start && (clear ==> r.gap == w.gap)
  }

  /** A record never reports a gap before the walk does, and the same one if the list is clear. */
  lemma {:induction false} GapBounds(h: History)
    requires KeyOrder(Items(h))
    ensures GapOk(Walk(Items(h)), Result(h), GapClear(Items(h)))
    decreases h
  {
    hide Walk, Merge, Add, Facts, GapClear, Agree;
    match h
    case New => WalkNothing();
    case Process(b, i) =>
      KeyOrderParts(Items(b), [i]);
      GapBounds(b);
      GapProcess(b, i);
    case Splice(a, b) =>
      KeyOrderParts(Items(a), Items(b));
      GapBounds(a);
      GapBounds(b);
      GapSplice(a, b);
  }

  lemma GapProcess(b: History, i: Item)
    requires KeyOrder(Items(b) + [i]) && KeyOrder(Items(b)) && GapOk(Walk(Items(b)), Result(b), GapClear(Items(b)))
    ensures GapOk(Walk(Items(b) + [i]), Add(Result(b), i), GapClear(Items(b) + [i]))
  {
    hide Walk, GapClear, Items, Result;
    var items := Items(b);
    WalkAppend(items, i);
    WalkFacts(items);
    assert (items + [i])[|items|] == i && forall k :: 0 <= k < |items| ==> (items + [i])[k] == items[k];
    if GapClear(items + [i]) {
      ClearPart(items, [i]);
      var w := Walk(items);
      if i.Data? && w.start != U64_MAX && w.gap == U64_MAX && w.end < i.extent.off {
        ClearPrefix(items, [i], w.end);
        EndBounds(b, w.end);
      }
    }
  }

  lemma GapSplice(a: History, b: History)
    requires KeyOrder(Items(a) + Items(b)) && KeyOrder(Items(a)) && KeyOrder(Items(b))
    requires GapOk(Walk(Items(a)), Result(a), GapClear(Items(a)))
    requires GapOk(Walk(Items(b)), Result(b), GapClear(Items(b)))
    ensures GapOk(Walk(Items(a) + Items(b)), Merge(Result(a), Result(b)), GapClear(Items(a) + Items(b)))
  {
    hide Walk, GapClear, Items, Result, Merge;
    hide KeyOrder, Split;
    var ia, ib := Items(a), Items(b);
    var wa, wb, wab := Walk(ia), Walk(ib), Walk(ia + ib);
    WalkSplit(ia, ib);
    WalkSane(ia);
    WalkSane(ib);
    BehindAll(ia, ib);
    MergeLater(wa, wb, wab, Result(a), Result(b));
    if GapClear(ia + ib) {
      ClearPart(ia, ib);
      if wa.gap == U64_MAX && wa.start != U64_MAX && wb.start != U64_MAX && wa.end < wb.start {
        MergeBetween(wa, wb, wab);
        ClearPrefix(ia, ib, wa.end);
        EndBounds(a, wa.end);
      }
      MergeSame(wa, wb, wab, Result(a), Result(b), GapClear(ia), GapClear(ib));
    }
  }

  /** What a walk knows of itself, without its items. */
  ghost predicate Sane(t: Totals) {
    && t.gap <= U64_MAX && (t.start == U64_MAX ==> t.end == 0 && t.gap == U64_MAX)
    && (t.gap != U64_MAX ==> t.start <= t.gap) && t.start <= U64_MAX
  }

  lemma MergeLater(wa: Totals, wb: Totals, wab: Totals, ra: Totals, rb: Totals)
    requires Split(wa, wb, wab) && GapOk(wa, ra, false) && GapOk(wb, rb, false)
    ensures GapOk(wab, Merge(ra, rb), false)
  {}

  /** The gap between the two stretches comes first. */
  lemma MergeBetween(wa: Totals, wb: Totals, wab: Totals)
    requires Split(wa, wb, wab) && Sane(wb) && wa.gap == U64_MAX && wa.start != U64_MAX && wb.start != U64_MAX
    requires wa.end < wb.start
    ensures wab.gap == wa.end
  {}

  lemma MergeSame(wa: Totals, wb: Totals, wab: Totals, ra: Totals, rb: Totals, ca: bool, cb: bool)
    requires Split(wa, wb, wab) && GapOk(wa, ra, ca) && GapOk(wb, rb, cb) && Sane(wa) && Sane(wb)
    requires wb.start != U64_MAX && wa.gap != U64_MAX ==> wa.gap < wb.start && wa.gap < wa.end
    requires (wa.gap == wab.gap ==> ca) && (wb.gap == wab.gap ==> cb)
    requires wa.gap == U64_MAX && wa.start != U64_MAX && wb.start != U64_MAX && wa.end < wb.start ==> ra.end == wa.end
    ensures wab.gap == Merge(ra, rb).gap
  {}

  /** What comes later begins behind every gap and every extent before. */
  lemma BehindAll(a: seq<Item>, b: seq<Item>)
    requires KeyOrder(a + b)
    ensures Walk(b).start != U64_MAX && Walk(a).gap != U64_MAX ==>
      Walk(a).gap < Walk(b).start && Walk(a).gap < Walk(a).end
  {
    hide Walk;
    KeyOrderParts(a, b);
    WalkFacts(a);
    WalkFacts(b);
    if Walk(b).start != U64_MAX && Walk(a).gap != U64_MAX {
      var i :| 0 <= i < |a| && a[i].Data? && Walk(a).gap < a[i].extent.off;
      var k :| 0 <= k < |b| && b[k].Data? && Walk(b).start == b[k].extent.off;
      assert a[i].extent.off < Walk(b).start;
    }
  }

  lemma WalkSane(items: seq<Item>)
    requires KeyOrder(items)
    ensures Sane(Walk(items))
    ensures forall i :: 0 <= i < |items| && items[i].Data? ==> items[i].extent.off <= Walk(items).end
  {
    hide Walk;
    WalkFacts(items);
    if Walk(items).start != U64_MAX {
      var k :| 0 <= k < |items| && items[k].Data? && Walk(items).start == items[k].extent.off;
    }
  }

  /** In terms of the gap that the walk finds. */
  lemma GapAgrees(items: seq<Item>)
    requires KeyOrder(items)
    ensures (forall h :: Items(h) == items ==> Result(h).gap == Walk(items).gap) <==> GapClear(items)
  {
    hide Walk, Items, Result;
    if GapClear(items) {
      forall h | Items(h) == items ensures Result(h).gap == Walk(items).gap { GapBounds(h); }
    } else {
      var gap := Walk(items).gap;
      var k :| 0 <= k < |items| && items[k].Data? && items[k].extent.off <= gap && items[k].extent.End() > gap;
      WalkFacts(items);
      var j := FirstBehind(items, gap);
      var h := CoveredGap(items, k, j);
      assert Items(h) == items;
    }
  }

  lemma FirstBehind(items: seq<Item>, gap: nat) returns (j: nat)
    requires BeginsAfter(items, gap)
    ensures j < |items| && items[j].Data? && gap < items[j].extent.off
    ensures forall i :: 0 <= i < j && items[i].Data? ==> items[i].extent.off <= gap
  {
    j := 0;
    while !(items[j].Data? && gap < items[j].extent.off)
      invariant j < |items| && forall i :: 0 <= i < j && items[i].Data? ==> items[i].extent.off <= gap
      invariant exists i :: j <= i < |items| && items[i].Data? && gap < items[i].extent.off
      decreases |items| - j
    {
      j := j + 1;
    }
  }

  /** Splices behind the long extent and before the gap hide the gap. */
  lemma CoveredGap(items: seq<Item>, k: nat, j: nat) returns (h: History)
    requires KeyOrder(items) && k < |items| && j < |items| && items[k].Data? && items[j].Data?
    requires var gap := Walk(items).gap;
      && gap != U64_MAX && items[k].extent.off <= gap < items[k].extent.End() && gap < items[j].extent.off
      && forall i :: 0 <= i < j && items[i].Data? ==> items[i].extent.off <= gap
    ensures Items(h) == items && Result(h).gap != Walk(items).gap
  {
    hide Walk, Merge, Facts, Add, GapClear;
    var gap := Walk(items).gap;
    assert k < j;
    var front, mid, post := items[..k + 1], items[k + 1..j], items[j..];
    var pre := items[..j];
    assert pre == front + mid && items == pre + post && front == items[..k] + [items[k]];
    var before := Splice(Plain(front), Plain(mid));
    h := Splice(before, Plain(post));
    PlainWalks(front);
    PlainWalks(mid);
    PlainWalks(post);
    KeyOrderParts(pre, post);
    KeyOrderParts(front, mid);
    EndOfLast(items[..k], items[k]);
    GreaterEnd(Walk(front), Walk(mid));
    GapBounds(before);
    WalkSplit(front, mid);
    NoGapYet(pre, post, gap);
    FirstStart(post);
    LateGap(Result(before), Walk(post), gap);
  }

  /** Before the first extent behind the gap, no gap has been seen. */
  lemma NoGapYet(pre: seq<Item>, post: seq<Item>, gap: nat)
    requires KeyOrder(pre + post) && Walk(pre + post).gap == gap
    requires forall i :: 0 <= i < |pre| && pre[i].Data? ==> pre[i].extent.off <= gap
    ensures Walk(pre).gap == U64_MAX
  {
    hide Walk;
    KeyOrderParts(pre, post);
    WalkFacts(pre);
    FirstGapStays(pre, post);
  }

  lemma FirstGapStays(a: seq<Item>, b: seq<Item>)
    requires KeyOrder(a + b)
    ensures Walk(a).gap != U64_MAX ==> Walk(a + b).gap == Walk(a).gap
  {
    hide Walk;
    KeyOrderParts(a, b);
    WalkSane(a);
    WalkSane(b);
    WalkSplit(a, b);
    BehindAll(a, b);
  }

  lemma FirstStart(post: seq<Item>)
    requires KeyOrder(post) && post != [] && post[0].Data?
    ensures Walk(post).start == post[0].extent.off && (Walk(post).gap == U64_MAX || Walk(post).start <= Walk(post).gap)
  {
    hide Walk;
    WalkFacts(post);
    var k :| 0 <= k < |post| && post[k].Data? && Walk(post).start == post[k].extent.off;
  }

  lemma LateGap(r: Totals, w: Totals, gap: nat)
    requires r.gap == U64_MAX && r.start != U64_MAX && gap < r.end && gap < w.start < U64_MAX && gap < w.gap
    ensures Merge(r, w).gap != gap
  {}

  // ---------------------------------------------------------------------------
  // Overlaps

  /** Extent `i` is followed by extent `j`, with no extent between them. */
  ghost predicate NextExtent(items: seq<Item>, i: nat, j: nat) {
    i < j < |items| && items[i].Data? && items[j].Data? && forall k :: i < k < j ==> !items[k].Data?
  }

  /** An extent ends after the next one starts. */
  ghost predicate RunsInto(items: seq<Item>, i: nat, j: nat) {
    NextExtent(items, i, j) && items[i].extent.End() > items[j].extent.off
  }

  /** The extent that a walk met last. */
  lemma {:induction false} LastExtent(items: seq<Item>) returns (i: nat)
    requires KeyOrder(items) && HasData(items)
    ensures i < |items| && items[i].Data? && Walk(items).end == items[i].extent.End()
    ensures forall k :: i < k < |items| ==> !items[k].Data?
  {
    var n := |items| - 1;
    assert items == items[..n] + [items[n]];
    KeyOrderParts(items[..n], [items[n]]);
    if items[n].Data? {
      i := n;
    } else {
      assert HasData(items[..n]) by {
        var k :| 0 <= k < |items| && items[k].Data?;
        assert items[..n][k].Data?;
      }
      i := LastExtent(items[..n]);
    }
  }

  /** The overlap bit, over the items: some extent ends after the next one starts. */
  lemma {:induction false} OverlapExact(items: seq<Item>)
    requires KeyOrder(items)
    ensures Walk(items).overlap <==> exists i, j :: RunsInto(items, i, j)
  {
    hide Walk, RunsInto;
    if items == [] {
      WalkNothing();
      NothingRuns();
    } else {
      var n := |items| - 1;
      var less := items[..n];
      assert items == less + [items[n]];
      KeyOrderParts(less, [items[n]]);
      OverlapExact(less);
      WalkAppend(less, items[n]);
      OverlapLast(items);
      forall i, j ensures RunsInto(items, i, j) <==> RunsInto(less, i, j) || (j == n && RunsInto(items, i, n)) {
        RunsBefore(items, i, j);
      }
    }
  }

  lemma NothingRuns()
    ensures forall i, j :: !RunsInto([], i, j)
  {}

  lemma RunsBefore(items: seq<Item>, i: nat, j: nat)
    requires items != []
    ensures var n := |items| - 1;
      RunsInto(items, i, j) <==> RunsInto(items[..n], i, j) || (j == n && RunsInto(items, i, n))
  {
    var less := items[..|items| - 1];
    assert forall k :: 0 <= k < |less| ==> less[k] == items[k];
  }

  /** The last item sets the bit exactly when the extent before it runs into it. */
  lemma OverlapLast(items: seq<Item>)
    requires items != [] && KeyOrder(items)
    ensures var n := |items| - 1;
      Add(Walk(items[..n]), items[n]).overlap <==> Walk(items[..n]).overlap || exists i :: RunsInto(items, i, n)
  {
    hide Walk;
    var n := |items| - 1;
    var less := items[..n];
    assert items == less + [items[n]];
    KeyOrderParts(less, [items[n]]);
    WalkFacts(less);
    if items[n].Data? && HasData(less) {
      var i := LastExtent(less);
      assert NextExtent(items, i, n);
      assert forall k :: NextExtent(items, k, n) ==> k == i;
      assert RunsInto(items, i, n) <==> Walk(less).end > items[n].extent.off;
    } else {
      assert forall k :: !NextExtent(items, k, n);
    }
  }

  /** When no extent ends after the next one starts, a record is the plain walk in every field. */
  lemma NoOverlapSame(h: History)
    requires KeyOrder(Items(h)) && !exists i, j :: RunsInto(Items(h), i, j)
    ensures Result(h) == Walk(Items(h))
  {
    hide Walk, Items, Result;
    OverlapExact(Items(h));
    SharedWalkAgrees(h);
  }

  // ---------------------------------------------------------------------------
  // The first hole

  /** Neighbouring extents with a hole between them. */
  ghost predicate Hole(items: seq<Item>, i: nat, j: nat) {
    NextExtent(items, i, j) && items[i].extent.End() < items[j].extent.off
  }

  ghost predicate FirstHole(items: seq<Item>, i: nat, j: nat) {
    Hole(items, i, j) && forall a, b :: Hole(items, a, b) ==> i <= a
  }

  /** No extent before the first hole reaches into it. */
  ghost predicate Uncovered(items: seq<Item>) {
    forall i: nat, j: nat, k: nat :: FirstHole(items, i, j) && k < i && items[k].Data? ==>
      items[k].extent.End() <= items[i].extent.End()
  }

  lemma HolesBefore(items: seq<Item>, i: nat, j: nat)
    requires items != []
    ensures var n := |items| - 1; Hole(items, i, j) <==> Hole(items[..n], i, j) || (j == n && Hole(items, i, n))
  {
    var less := items[..|items| - 1];
    assert forall k :: 0 <= k < |less| ==> less[k] == items[k];
  }

  /** The gap that a walk finds is the first hole. */
  lemma {:induction false} WalkHole(items: seq<Item>) returns (i: nat, j: nat)
    requires KeyOrder(items)
    ensures Walk(items).gap == U64_MAX ==> forall a, b :: !Hole(items, a, b)
    ensures Walk(items).gap != U64_MAX ==> FirstHole(items, i, j) && Walk(items).gap == items[i].extent.End()
  {
    hide Walk, Hole;
    i, j := 0, 0;
    if items == [] {
      WalkNothing();
      NoHoles();
    } else {
      var n := |items| - 1;
      var less := items[..n];
      assert items == less + [items[n]];
      KeyOrderParts(less, [items[n]]);
      i, j := WalkHole(less);
      WalkAppend(less, items[n]);
      forall a, b ensures Hole(items, a, b) <==> Hole(less, a, b) || (b == n && Hole(items, a, n)) {
        HolesBefore(items, a, b);
      }
      if Walk(less).gap == U64_MAX {
        var k := HoleLast(items);
        i, j := k, n;
      } else {
        HoleInside(less, i, j);
        assert less[i] == items[i];
        HoleKept(items, i, j);
      }
    }
  }

  lemma HoleInside(items: seq<Item>, i: nat, j: nat)
    requires Hole(items, i, j)
    ensures i < j < |items|
  {}

  lemma NoHoles()
    ensures forall a, b :: !Hole([], a, b)
  {}

  /** The last item finds a gap exactly when there is a hole before it. */
  lemma HoleLast(items: seq<Item>) returns (k: nat)
    requires items != [] && KeyOrder(items) && Walk(items[..|items| - 1]).gap == U64_MAX
    ensures var n, t := |items| - 1, Add(Walk(items[..|items| - 1]), items[|items| - 1]);
      && (t.gap == U64_MAX ==> forall a :: !Hole(items, a, n))
      && (t.gap != U64_MAX ==> Hole(items, k, n) && t.gap == items[k].extent.End())
      && (t.gap != U64_MAX ==> forall a :: Hole(items, a, n) ==> a == k)
  {
    hide Walk;
    var n := |items| - 1;
    var less := items[..n];
    assert items == less + [items[n]];
    KeyOrderParts(less, [items[n]]);
    WalkFacts(less);
    k := 0;
    if items[n].Data? && HasData(less) {
      k := LastExtent(less);
      assert NextExtent(items, k, n);
      assert forall a :: NextExtent(items, a, n) ==> a == k;
    } else {
      assert forall a :: !NextExtent(items, a, n);
    }
  }

  /** A gap once found stays, and a hole before the last item is a later one. */
  lemma HoleKept(items: seq<Item>, i: nat, j: nat)
    requires items != [] && KeyOrder(items) && FirstHole(items[..|items| - 1], i, j)
    requires Walk(items[..|items| - 1]).gap == items[i].extent.End() != U64_MAX
    ensures var n := |items| - 1;
      Add(Walk(items[..n]), items[n]).gap == items[i].extent.End() && forall a :: Hole(items, a, n) ==> i <= a
  {
    hide Walk;
    var n := |items| - 1;
    var less := items[..n];
    assert items == less + [items[n]];
    KeyOrderParts(less, [items[n]]);
    WalkFacts(less);
    assert less[i] == items[i] && less[j] == items[j];
    assert Walk(less).end >= less[j].extent.off;
    assert forall a :: NextExtent(items, a, n) ==> j <= a;
  }

  /** Nothing reaches beyond the gap exactly when nothing reaches into the first hole. */
  lemma UncoveredClear(items: seq<Item>)
    requires KeyOrder(items)
    ensures Uncovered(items) <==> GapClear(items)
  {
    hide Walk;
    var i, j := WalkHole(items);
    if Walk(items).gap != U64_MAX {
      assert forall k :: 0 <= k < |items| && items[k].Data? ==>
        (items[k].extent.off <= items[i].extent.End() <==> k <= i);
      assert forall a, b :: FirstHole(items, a, b) ==> a == i;
    }
  }

  /**
    The first gap is that of a plain walk, whatever the history, if and only if no extent
    before the first hole reaches into it.
   */
  lemma GapExact(items: seq<Item>)
    requires KeyOrder(items)
    ensures (forall h :: Items(h) == items ==> Result(h).gap == Walk(items).gap) <==> Uncovered(items)
  {
    hide Walk, Items, Result, Uncovered, GapClear;
    UncoveredClear(items);
    GapAgrees(items);
  }

  /** [0, 100), [10, 15), [50, 60): a walk finds a gap at 15, and merged records find none. */
  lemma GapHidden() returns (h: History)
    ensures Items(h) == [Data(FileExtent(0, 100, 0)), Data(FileExtent(10, 5, 0)), Data(FileExtent(50, 10, 0))]
    ensures KeyOrder(Items(h)) && Walk(Items(h)).gap == 15 && Result(h).gap == U64_MAX
  {
    hide Walk, Items, Result;
    var x, y, z := Data(FileExtent(0, 100, 0)), Data(FileExtent(10, 5, 0)), Data(FileExtent(50, 10, 0));
    h := Splice(Splice(Process(New, x), Process(New, y)), Process(New, z));
    SpliceOfThree(x, y, z);
    WalkOfThree(x, y, z);
    ThreeOrdered(x, y, z);
  }

  lemma SpliceOfThree(x: Item, y: Item, z: Item)
    ensures var h := Splice(Splice(Process(New, x), Process(New, y)), Process(New, z));
      && Items(h) == [x, y, z]
      && Result(h) == Merge(Merge(Add(Fresh(), x), Add(Fresh(), y)), Add(Fresh(), z))
  {
    hide Merge, Add;
    var a, b, c := Process(New, x), Process(New, y), Process(New, z);
    assert Items(a) == [x] && Items(b) == [y] && Items(c) == [z];
    assert Result(a) == Add(Fresh(), x) && Result(b) == Add(Fresh(), y) && Result(c) == Add(Fresh(), z);
    var ab := Splice(a, b);
    assert Items(ab) == [x, y] && Result(ab) == Merge(Result(a), Result(b));
    assert Items(Splice(ab, c)) == [x, y] + [z] && Result(Splice(ab, c)) == Merge(Result(ab), Result(c));
  }

  lemma WalkOfThree(x: Item, y: Item, z: Item)
    ensures Walk([x, y, z]) == Add(Add(Add(Fresh(), x), y), z)
  {
    hide Walk, Add;
    assert [] + [x] == [x] && [x] + [y] == [x, y] && [x, y] + [z] == [x, y, z];
    WalkNothing();
    WalkAppend([], x);
    WalkAppend([x], y);
    WalkAppend([x, y], z);
  }

  lemma ThreeOrdered(x: Item, y: Item, z: Item)
    requires x.Data? && y.Data? && z.Data? && x.extent.off < y.extent.off < z.extent.off < U64_MAX
    ensures KeyOrder([x, y, z])
  {
    var s := [x, y, z];
    assert s[0] == x && s[1] == y && s[2] == z;
  }
}
