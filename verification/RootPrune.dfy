/**
  The pruning loop of check_root_refs on values: one visit of a root record drops the
  backrefs whose own root counts no reference any more.  FS_TREE enters the loop with its
  count set to 1, whatever refers to it, and the counter is 32 bits wide.
 */
module RootPrune {
  import opened RootRecs

  const TWO_32: nat := 0x1_0000_0000

  /** Roots that still count a reference. */
  ghost function Alive(recs: map<nat, Rec>): set<nat> { set r | r in recs && 0 < recs[r].foundRef }

  // ---------------------------------------------------------------------------
  // One visit

  /** found_ref--. */
  function Less(count: nat): nat { if count == 0 then TWO_32 - 1 else count - 1 }

  function Drop(rec: Rec, i: nat): Rec
    requires i < |rec.backrefs|
  {
    Rec(rec.backrefs[i := rec.backrefs[i].(reachable := false)], Less(rec.foundRef))
  }

  /** Does root `q` count a reference while root `r`, at `count` now, is visited? */
  predicate Counting(r: nat, count: nat, alive: set<nat>, q: nat) { if q == r then 0 < count else q in alive }

  /** What a visit leaves, and whether the counter stood at zero in between. */
  datatype Outcome = Outcome(rec: Rec, hit: bool)

  /** The inner loop for root `r` from backref `i` on; `alive` are the roots that count. */
  ghost function Visit(r: nat, rec: Rec, i: nat, alive: set<nat>): Outcome
    requires i <= |rec.backrefs|
    decreases |rec.backrefs| - i
  {
    if i == |rec.backrefs| then Outcome(rec, false)
    else if rec.backrefs[i].reachable && !Counting(r, rec.foundRef, alive, rec.backrefs[i].refRoot) then
      var o := Visit(r, Drop(rec, i), i + 1, alive);
      o.(hit := o.hit || Drop(rec, i).foundRef == 0)
    else Visit(r, rec, i + 1, alive)
  }

  /** The same backrefs, some of them no longer reachable. */
  ghost predicate Weakened(bs: seq<Backref>, bs': seq<Backref>) {
    |bs| == |bs'| && forall i :: 0 <= i < |bs| ==> bs'[i] == bs[i] || bs'[i] == bs[i].(reachable := false)
  }

  /** A visit only clears backrefs, and a counter at zero means that one was cleared. */
  lemma {:induction false} VisitShape(r: nat, rec: Rec, i: nat, alive: set<nat>)
    requires i <= |rec.backrefs|
    ensures var o := Visit(r, rec, i, alive);
      && Weakened(rec.backrefs, o.rec.backrefs) && o.rec.backrefs[..i] == rec.backrefs[..i]
      && Reachable(o.rec.backrefs) <= Reachable(rec.backrefs)
      && (o.rec != rec ==> Reachable(o.rec.backrefs) < Reachable(rec.backrefs)) && (o.hit ==> o.rec != rec)
    decreases |rec.backrefs| - i
  {
    hide Counting, Reachable, Less;
    if i < |rec.backrefs| {
      var b := rec.backrefs[i];
      if b.reachable && !Counting(r, rec.foundRef, alive, b.refRoot) {
        ReachableUpdate(rec.backrefs, i, b.(reachable := false));
        VisitShape(r, Drop(rec, i), i + 1, alive);
        PrefixLess(Visit(r, Drop(rec, i), i + 1, alive).rec.backrefs, Drop(rec, i).backrefs, i);
      } else {
        VisitShape(r, rec, i + 1, alive);
        PrefixLess(Visit(r, rec, i + 1, alive).rec.backrefs, rec.backrefs, i);
      }
    }
  }

  lemma PrefixLess(a: seq<Backref>, b: seq<Backref>, i: nat)
    requires i < |a| && i < |b| && a[..i + 1] == b[..i + 1]
    ensures a[..i] == b[..i] && a[i] == b[i]
  {
    assert a[..i] == a[..i + 1][..i] && b[..i] == b[..i + 1][..i] && a[i] == a[..i + 1][i] && b[i] == b[..i + 1][i];
  }

  /** Every reachable backref comes from a root that is alive. */
  ghost predicate Settled(bs: seq<Backref>, alive: set<nat>) {
    forall i :: 0 <= i < |bs| && bs[i].reachable ==> bs[i].refRoot in alive
  }

  /** Backrefs that a visit cleared come from roots that are gone, and from `i` on those left do not. */
  ghost predicate Swept(bs: seq<Backref>, bs': seq<Backref>, i: nat, alive: set<nat>) {
    && |bs| == |bs'| && (forall j :: 0 <= j < i && j < |bs| ==> bs'[j] == bs[j])
    && forall j :: i <= j < |bs| ==> bs'[j] == if bs[j].refRoot in alive then bs[j] else bs[j].(reachable := false)
  }

  lemma SweptFirst(bs: seq<Backref>, mid: seq<Backref>, bs': seq<Backref>, i: nat, alive: set<nat>)
    requires i < |bs| && Swept(mid, bs', i + 1, alive)
    requires mid == bs[i := if bs[i].refRoot in alive then bs[i] else bs[i].(reachable := false)]
    ensures Swept(bs, bs', i, alive)
  {}

  /** As many reachable backrefs from `i` on as the count says, or fewer: nothing underflows. */
  lemma {:induction false} VisitCounted(r: nat, rec: Rec, i: nat, alive: set<nat>)
    requires i <= |rec.backrefs| && r in alive && Reachable(rec.backrefs[i..]) <= rec.foundRef
    ensures var o := Visit(r, rec, i, alive);
      && Swept(rec.backrefs, o.rec.backrefs, i, alive)
      && o.rec.foundRef + Reachable(rec.backrefs) == rec.foundRef + Reachable(o.rec.backrefs)
      && (0 < rec.foundRef ==> (o.hit <==> o.rec.foundRef == 0)) && (rec.foundRef == 0 ==> !o.hit)
    decreases |rec.backrefs| - i
  {
    hide Reachable;
    if i < |rec.backrefs| {
      var b := rec.backrefs[i];
      assert rec.backrefs[i..] == [b] + rec.backrefs[i + 1..];
      ReachableFirst(b, rec.backrefs[i + 1..]);
      if b.reachable && b.refRoot !in alive {
        var next := Drop(rec, i);
        ReachableUpdate(rec.backrefs, i, b.(reachable := false));
        assert next.backrefs[i + 1..] == rec.backrefs[i + 1..];
        VisitCounted(r, next, i + 1, alive);
        VisitShape(r, next, i + 1, alive);
        SweptFirst(rec.backrefs, next.backrefs, Visit(r, next, i + 1, alive).rec.backrefs, i, alive);
      } else {
        VisitCounted(r, rec, i + 1, alive);
        assert rec.backrefs[i := b] == rec.backrefs;
        assert b.refRoot !in alive ==> b == b.(reachable := false);
        SweptFirst(rec.backrefs, rec.backrefs, Visit(r, rec, i + 1, alive).rec.backrefs, i, alive);
      }
    }
  }

  lemma ReachableFirst(b: Backref, bs: seq<Backref>)
    ensures Reachable([b] + bs) == Reachable(bs) + if b.reachable then 1 else 0
  {
    ReachableConcat([b], bs);
    assert [b][..0] == [];
  }

  /** As long as the counter does not reach zero, exactly the backrefs from dead roots go. */
  lemma {:induction false} VisitQuiet(r: nat, rec: Rec, i: nat, alive: set<nat>)
    requires i <= |rec.backrefs| && r in alive && 0 < rec.foundRef && !Visit(r, rec, i, alive).hit
    ensures var o := Visit(r, rec, i, alive); Swept(rec.backrefs, o.rec.backrefs, i, alive) && 0 < o.rec.foundRef
    decreases |rec.backrefs| - i
  {
    if i < |rec.backrefs| {
      var b := rec.backrefs[i];
      var next := if b.reachable && b.refRoot !in alive then Drop(rec, i) else rec;
      VisitQuiet(r, next, i + 1, alive);
      assert rec.backrefs[i := b] == rec.backrefs;
      SweptFirst(rec.backrefs, next.backrefs, Visit(r, next, i + 1, alive).rec.backrefs, i, alive);
    }
  }

  /** Nothing happens to a root that all its references keep. */
  lemma {:induction false} VisitNone(r: nat, rec: Rec, i: nat, alive: set<nat>)
    requires i <= |rec.backrefs| && (forall j :: i <= j < |rec.backrefs| && rec.backrefs[j].reachable ==>
      rec.backrefs[j].refRoot in alive && (rec.backrefs[j].refRoot == r ==> 0 < rec.foundRef))
    ensures Visit(r, rec, i, alive) == Outcome(rec, false)
    decreases |rec.backrefs| - i
  {
    if i < |rec.backrefs| { VisitNone(r, rec, i + 1, alive); }
  }

  /** A backref from a dead root is dropped. */
  lemma {:induction false} DeadGoes(r: nat, rec: Rec, i: nat, alive: set<nat>, d: nat)
    requires i <= d < |rec.backrefs| && rec.backrefs[d].reachable
    requires rec.backrefs[d].refRoot !in alive && rec.backrefs[d].refRoot != r
    ensures Reachable(Visit(r, rec, i, alive).rec.backrefs) < Reachable(rec.backrefs)
    decreases d - i
  {
    hide Reachable;
    VisitShape(r, rec, i, alive);
    var b := rec.backrefs[i];
    if b.reachable && !Counting(r, rec.foundRef, alive, b.refRoot) {
      ReachableUpdate(rec.backrefs, i, b.(reachable := false));
      VisitShape(r, Drop(rec, i), i + 1, alive);
    } else {
      DeadGoes(r, rec, i + 1, alive, d);
    }
  }

  /** So is a backref from the visited root itself, once its counter stands at zero. */
  lemma {:induction false} SelfGoes(r: nat, rec: Rec, i: nat, alive: set<nat>, d: nat)
    requires i <= d < |rec.backrefs| && rec.backrefs[d].reachable && rec.backrefs[d].refRoot == r && rec.foundRef == 0
    ensures Reachable(Visit(r, rec, i, alive).rec.backrefs) < Reachable(rec.backrefs)
    decreases d - i
  {
    hide Reachable;
    var b := rec.backrefs[i];
    if b.reachable && !Counting(r, rec.foundRef, alive, b.refRoot) {
      ReachableUpdate(rec.backrefs, i, b.(reachable := false));
      VisitShape(r, Drop(rec, i), i + 1, alive);
    } else {
      SelfGoes(r, rec, i + 1, alive, d);
    }
  }

  /** One dead reference, and none from the root itself behind it: the count of 1 is gone. */
  lemma {:induction false} VisitLoses(r: nat, rec: Rec, i: nat, alive: set<nat>, d: nat)
    requires i <= d < |rec.backrefs| && rec.foundRef == 1 && r in alive
    requires rec.backrefs[d].reachable && rec.backrefs[d].refRoot !in alive
    requires forall j :: i <= j < |rec.backrefs| && j != d && rec.backrefs[j].reachable ==>
      rec.backrefs[j].refRoot in alive
    requires forall j :: d < j < |rec.backrefs| && rec.backrefs[j].reachable ==> rec.backrefs[j].refRoot != r
    ensures Visit(r, rec, i, alive).rec.foundRef == 0
    decreases d - i
  {
    if i < d {
      VisitLoses(r, rec, i + 1, alive, d);
    } else {
      VisitNone(r, Drop(rec, d), d + 1, alive);
    }
  }

  /** Two references that go: a dead one, and behind it another dead one or one from the root itself. */
  lemma {:induction false} VisitLosesTwo(r: nat, rec: Rec, i: nat, alive: set<nat>, d: nat, e: nat)
    requires i <= d < e < |rec.backrefs| && rec.foundRef == 1 && r in alive
    requires rec.backrefs[d].reachable && rec.backrefs[d].refRoot !in alive
    requires rec.backrefs[e].reachable && (rec.backrefs[e].refRoot !in alive || rec.backrefs[e].refRoot == r)
    ensures Reachable(Visit(r, rec, i, alive).rec.backrefs) + 2 <= Reachable(rec.backrefs)
    decreases d - i
  {
    hide Reachable;
    var b := rec.backrefs[i];
    if b.reachable && !Counting(r, rec.foundRef, alive, b.refRoot) {
      var next := Drop(rec, i);
      ReachableUpdate(rec.backrefs, i, b.(reachable := false));
      if i < d {
        DeadGoes(r, next, i + 1, alive, d);
      } else if rec.backrefs[e].refRoot == r {
        SelfGoes(r, next, i + 1, alive, e);
      } else {
        DeadGoes(r, next, i + 1, alive, e);
      }
    } else {
      VisitLosesTwo(r, rec, i + 1, alive, d, e);
    }
  }

  // ---------------------------------------------------------------------------
  // The counter of FS_TREE

  /** FS_TREE's counter after `n` backrefs were dropped: 1, 0, 2^32 - 1, 2^32 - 2, ... */
  function FsCount(n: nat): nat { (1 - n) % TWO_32 }

  lemma FsCountNext(n: nat)
    ensures Less(FsCount(n)) == FsCount(n + 1)
  {}

  lemma FsCountStart()
    ensures FsCount(0) == 1
  {}

  lemma FsCountAlive(n: nat)
    ensures n == 0 || 2 <= n <= TWO_32 ==> 0 < FsCount(n)
  {}

  lemma {:induction false} VisitFsCount(rec: Rec, i: nat, alive: set<nat>, n: nat)
    requires i <= |rec.backrefs| && rec.foundRef == FsCount(n)
    ensures var o := Visit(FS_TREE, rec, i, alive).rec;
      Reachable(o.backrefs) <= Reachable(rec.backrefs) &&
        o.foundRef == FsCount(n + (Reachable(rec.backrefs) - Reachable(o.backrefs)))
    decreases |rec.backrefs| - i
  {
    hide Reachable, FsCount;
    VisitShape(FS_TREE, rec, i, alive);
    if i < |rec.backrefs| {
      var b := rec.backrefs[i];
      if b.reachable && !Counting(FS_TREE, rec.foundRef, alive, b.refRoot) {
        ReachableUpdate(rec.backrefs, i, b.(reachable := false));
        FsCountNext(n);
        VisitFsCount(Drop(rec, i), i + 1, alive, n + 1);
      } else {
        VisitFsCount(rec, i + 1, alive, n);
      }
    }
  }

  // ---------------------------------------------------------------------------
  // Closed sets

  /** Backrefs that were cleared come from roots that are gone. */
  ghost predicate ClearedDead(bs: seq<Backref>, bs': seq<Backref>, alive: set<nat>) {
    forall i :: 0 <= i < |bs| && i < |bs'| && bs[i].reachable && !bs'[i].reachable ==> bs[i].refRoot !in alive
  }

  ghost predicate ReferredFrom(bs: seq<Backref>, t: set<nat>) {
    exists i :: 0 <= i < |bs| && bs[i].reachable && bs[i].refRoot in t
  }

  /** Each root of `t` is a base root or is referred to from a root of `t`. */
  ghost predicate Closed(orig: map<nat, Rec>, base: set<nat>, t: set<nat>) {
    forall r :: r in t ==> r in base || (r in orig && ReferredFrom(orig[r].backrefs, t))
  }

  ghost predicate InClosed(orig: map<nat, Rec>, base: set<nat>, q: nat) {
    exists t: set<nat> :: Closed(orig, base, t) && q in t
  }

  /** The places that refer to FS_TREE. */
  ghost function FsBackrefs(recs: map<nat, Rec>): seq<Backref> { RecOf(recs, FS_TREE).backrefs }

  /** Every root that refers to FS_TREE belongs to some closed set. */
  ghost predicate FsKept(orig: map<nat, Rec>, base: set<nat>) {
    forall i :: 0 <= i < |FsBackrefs(orig)| && FsBackrefs(orig)[i].reachable ==>
      InClosed(orig, base, FsBackrefs(orig)[i].refRoot)
  }

  /** Place `d` alone refers to FS_TREE from outside every closed set. */
  ghost predicate Doomed(orig: map<nat, Rec>, base: set<nat>, d: nat) {
    var bs := FsBackrefs(orig);
    && d < |bs| && bs[d].reachable && !InClosed(orig, base, bs[d].refRoot)
    && forall i :: 0 <= i < |bs| && i != d && bs[i].reachable ==> InClosed(orig, base, bs[i].refRoot)
  }

  /** A place in FS_TREE itself refers to FS_TREE, behind place `d`. */
  ghost predicate SelfBehind(orig: map<nat, Rec>, d: nat) {
    exists j :: d < j < |FsBackrefs(orig)| && FsBackrefs(orig)[j].reachable && FsBackrefs(orig)[j].refRoot == FS_TREE
  }

  /** Place `i` refers to FS_TREE from a root that nothing refers to. */
  ghost predicate Unfounded(orig: map<nat, Rec>, i: nat) {
    var bs := FsBackrefs(orig);
    i < |bs| && bs[i].reachable && bs[i].refRoot != FS_TREE && RecOf(orig, bs[i].refRoot).foundRef == 0
  }

  /** When FS_TREE loses a place, it loses two at least, and its counter runs round. */
  ghost predicate Twofold(orig: map<nat, Rec>, base: set<nat>) {
    && Reachable(FsBackrefs(orig)) <= TWO_32
    && ((exists d: nat :: Doomed(orig, base, d) && SelfBehind(orig, d)) ||
        exists d: nat, e: nat :: d < e && Unfounded(orig, d) && Unfounded(orig, e))
  }

  // ---------------------------------------------------------------------------
  // The loop

  /** found_ref counts the reachable backrefs and the late DIR_ITEMs of every root but FS_TREE. */
  ghost predicate PruneCounts(recs: map<nat, Rec>, base: set<nat>, es: seq<Event>) {
    && FS_TREE in recs && FS_TREE in base && (forall r: nat :: r != FS_TREE ==> (r in base <==> 0 < Repeats(es, r)))
    && (forall r: nat :: r !in recs ==> Repeats(es, r) == 0)
    && (forall r :: r in recs && r != FS_TREE ==> recs[r].foundRef == Reachable(recs[r].backrefs) + Repeats(es, r))
  }

  /** Backrefs are only ever cleared, and but for FS_TREE's only for roots that are gone. */
  ghost predicate PruneShape(orig: map<nat, Rec>, recs: map<nat, Rec>) {
    && (forall r :: r in orig ==> r in recs && Weakened(orig[r].backrefs, recs[r].backrefs))
    && (forall r :: r in orig && r in recs && r != FS_TREE ==>
          ClearedDead(orig[r].backrefs, recs[r].backrefs, Alive(recs)))
    && (forall r :: r in recs && r !in orig ==> recs[r].backrefs == [])
    && (forall r :: r in recs && r != FS_TREE ==> recs[r].foundRef <= RecOf(orig, r).foundRef)
  }

  /** No closed set has lost a root, unless FS_TREE is lost and belongs to it. */
  ghost predicate PruneGreatest(orig: map<nat, Rec>, base: set<nat>, recs: map<nat, Rec>) {
    forall t: set<nat> :: Closed(orig, base, t) && (FS_TREE in t ==> FS_TREE in Alive(recs)) ==> t <= Alive(recs)
  }

  /** How many places FS_TREE has lost. */
  ghost function Lost(orig: map<nat, Rec>, recs: map<nat, Rec>): int {
    Reachable(FsBackrefs(orig)) - Reachable(FsBackrefs(recs))
  }

  ghost predicate PruneFs(orig: map<nat, Rec>, base: set<nat>, recs: map<nat, Rec>) {
    && 0 <= Lost(orig, recs) && RecOf(recs, FS_TREE).foundRef == FsCount(Lost(orig, recs))
    && |FsBackrefs(orig)| == |FsBackrefs(recs)| && (Lost(orig, recs) == 0 ==> FsBackrefs(recs) == FsBackrefs(orig))
    && (FsKept(orig, base) ==> Lost(orig, recs) == 0)
    && (forall d: nat :: Doomed(orig, base, d) && !SelfBehind(orig, d) && FS_TREE in Alive(recs) ==>
          Lost(orig, recs) == 0)
    && (Twofold(orig, base) ==> Lost(orig, recs) == 0 || 2 <= Lost(orig, recs))
  }

  ghost predicate Pruning(orig: map<nat, Rec>, base: set<nat>, es: seq<Event>, recs: map<nat, Rec>) {
    && PruneCounts(recs, base, es) && PruneShape(orig, recs) && PruneGreatest(orig, base, recs)
    && PruneFs(orig, base, recs)
  }

  /** The state in which pruning begins. */
  lemma StartPruning(orig: map<nat, Rec>, recs: map<nat, Rec>, es: seq<Event>, base: set<nat>)
    requires forall r: nat :: RootOk(es, r, RecOf(orig, r))
    requires forall r: nat :: r in base <==> r == FS_TREE || 0 < Repeats(es, r)
    requires recs == orig[FS_TREE := RecOf(orig, FS_TREE).(foundRef := 1)]
    ensures Pruning(orig, base, es, recs)
  {
    hide AllTold, Repeats, Closed, FsKept, Doomed, Twofold, FsCount;
    FsCountStart();
    StartCounts(orig, recs, es, base);
    forall t: set<nat> | Closed(orig, base, t) ensures t <= Alive(recs) { StartsAlive(orig, base, es, recs, t); }
  }

  lemma StartCounts(orig: map<nat, Rec>, recs: map<nat, Rec>, es: seq<Event>, base: set<nat>)
    requires forall r: nat :: RootOk(es, r, RecOf(orig, r))
    requires forall r: nat :: r in base <==> r == FS_TREE || 0 < Repeats(es, r)
    requires recs == orig[FS_TREE := RecOf(orig, FS_TREE).(foundRef := 1)]
    ensures PruneCounts(recs, base, es)
  {
    hide AllTold, Repeats;
    forall r: nat | r !in recs ensures Repeats(es, r) == 0 { assert RootOk(es, r, RecOf(orig, r)); }
    forall r | r in recs && r != FS_TREE ensures recs[r].foundRef == Reachable(recs[r].backrefs) + Repeats(es, r) {
      assert RootOk(es, r, RecOf(orig, r));
    }
  }

  /** At the start every root of a closed set counts a reference. */
  lemma StartsAlive(orig: map<nat, Rec>, base: set<nat>, es: seq<Event>, recs: map<nat, Rec>, t: set<nat>)
    requires Closed(orig, base, t) && PruneCounts(recs, base, es) && recs[FS_TREE].foundRef == 1
    requires forall r :: r in orig ==> r in recs && recs[r].backrefs == orig[r].backrefs
    ensures t <= Alive(recs)
  {
    forall r | r in t ensures r in Alive(recs) {
      if r !in base { ReachableSome(recs[r].backrefs); }
    }
  }

  /** Root `r` was visited; looking up roots without a record made empty ones. */
  ghost predicate Visited(recs: map<nat, Rec>, recs': map<nat, Rec>, r: nat) {
    && r in recs && r in recs' && recs'[r] == Visit(r, recs[r], 0, Alive(recs)).rec
    && (forall q :: q in recs && q != r ==> q in recs' && recs'[q] == recs[q])
    && (forall q :: q in recs' && q !in recs ==> recs'[q] == Rec([], 0))
  }

  lemma VisitedAlive(recs: map<nat, Rec>, recs': map<nat, Rec>, r: nat)
    requires Visited(recs, recs', r) && r in Alive(recs)
    ensures Alive(recs') == if recs'[r].foundRef == 0 then Alive(recs) - {r} else Alive(recs)
  {
    hide Visit;
  }

  // Roots other than FS_TREE

  lemma OtherCounts(base: set<nat>, es: seq<Event>, recs: map<nat, Rec>, recs': map<nat, Rec>, r: nat)
    requires PruneCounts(recs, base, es) && Visited(recs, recs', r) && r in Alive(recs) && r != FS_TREE
    ensures PruneCounts(recs', base, es) && Swept(recs[r].backrefs, recs'[r].backrefs, 0, Alive(recs))
    ensures recs'[r].foundRef <= recs[r].foundRef
    ensures Visit(r, recs[r], 0, Alive(recs)).hit <==> recs'[r].foundRef == 0
  {
    hide Visit, Repeats, Swept;
    assert recs[r].backrefs[0..] == recs[r].backrefs;
    VisitCounted(r, recs[r], 0, Alive(recs));
    VisitShape(r, recs[r], 0, Alive(recs));
    assert Reachable([]) == 0;
  }

  lemma OtherShape(orig: map<nat, Rec>, recs: map<nat, Rec>, recs': map<nat, Rec>, r: nat)
    requires PruneShape(orig, recs) && Visited(recs, recs', r) && r in Alive(recs) && r != FS_TREE
    requires Swept(recs[r].backrefs, recs'[r].backrefs, 0, Alive(recs)) && recs'[r].foundRef <= recs[r].foundRef
    ensures PruneShape(orig, recs')
  {
    hide Visit, Alive;
    VisitedAlive(recs, recs', r);
    if r in orig { SweptWeakened(orig[r].backrefs, recs[r].backrefs, recs'[r].backrefs, Alive(recs)); }
    forall q | q in orig && q != FS_TREE ensures ClearedDead(orig[q].backrefs, recs'[q].backrefs, Alive(recs')) {
      assert ClearedDead(orig[q].backrefs, recs[q].backrefs, Alive(recs));
    }
  }

  lemma SweptWeakened(bs: seq<Backref>, mid: seq<Backref>, bs': seq<Backref>, alive: set<nat>)
    requires Weakened(bs, mid) && Swept(mid, bs', 0, alive)
    ensures Weakened(bs, bs') && (ClearedDead(bs, mid, alive) ==> ClearedDead(bs, bs', alive))
  {}

  lemma OtherGreatest(orig: map<nat, Rec>, base: set<nat>, es: seq<Event>, recs: map<nat, Rec>, recs': map<nat, Rec>,
                      r: nat)
    requires PruneGreatest(orig, base, recs) && PruneCounts(recs', base, es) && PruneShape(orig, recs')
    requires PruneShape(orig, recs) && Visited(recs, recs', r) && r in Alive(recs) && r != FS_TREE
    requires Swept(recs[r].backrefs, recs'[r].backrefs, 0, Alive(recs))
    ensures PruneGreatest(orig, base, recs')
  {
    hide Visit, Alive, Repeats;
    VisitedAlive(recs, recs', r);
    forall t: set<nat> | Closed(orig, base, t) && (FS_TREE in t ==> FS_TREE in Alive(recs')) ensures t <= Alive(recs') {
      assert t <= Alive(recs);
      if r in t && recs'[r].foundRef == 0 { StaysReferred(orig, base, recs, recs', r, t); }
    }
  }

  /** A root of a closed set keeps a reachable backref. */
  lemma StaysReferred(orig: map<nat, Rec>, base: set<nat>, recs: map<nat, Rec>, recs': map<nat, Rec>, r: nat,
                      t: set<nat>)
    requires Closed(orig, base, t) && t <= Alive(recs) && r in t && r in recs && r in recs'
    requires r in orig ==> Weakened(orig[r].backrefs, recs[r].backrefs)
    requires r in orig ==> ClearedDead(orig[r].backrefs, recs[r].backrefs, Alive(recs))
    requires Swept(recs[r].backrefs, recs'[r].backrefs, 0, Alive(recs))
    ensures r in base || 0 < Reachable(recs'[r].backrefs)
  {
    if r !in base {
      var j :| 0 <= j < |orig[r].backrefs| && orig[r].backrefs[j].reachable && orig[r].backrefs[j].refRoot in t;
      assert recs[r].backrefs[j].reachable && recs'[r].backrefs[j].reachable;
      ReachableSome(recs'[r].backrefs);
    }
  }

  lemma OtherFs(orig: map<nat, Rec>, base: set<nat>, recs: map<nat, Rec>, recs': map<nat, Rec>, r: nat)
    requires PruneFs(orig, base, recs) && FS_TREE in recs && Visited(recs, recs', r) && r in Alive(recs) && r != FS_TREE
    ensures PruneFs(orig, base, recs')
  {
    hide Visit, Alive, Doomed, SelfBehind, FsKept, Twofold;
    VisitedAlive(recs, recs', r);
  }

  // FS_TREE itself

  lemma FsShape(orig: map<nat, Rec>, recs: map<nat, Rec>, recs': map<nat, Rec>)
    requires PruneShape(orig, recs) && Visited(recs, recs', FS_TREE) && FS_TREE in Alive(recs)
    ensures PruneShape(orig, recs')
  {
    hide Visit, Alive, Weakened;
    VisitedAlive(recs, recs', FS_TREE);
    VisitShape(FS_TREE, recs[FS_TREE], 0, Alive(recs));
    if FS_TREE in orig {
      WeakenedTwice(orig[FS_TREE].backrefs, recs[FS_TREE].backrefs, recs'[FS_TREE].backrefs);
    } else {
      NothingWeakened(recs'[FS_TREE].backrefs);
    }
    forall q | q in orig && q != FS_TREE ensures ClearedDead(orig[q].backrefs, recs'[q].backrefs, Alive(recs')) {
      assert ClearedDead(orig[q].backrefs, recs[q].backrefs, Alive(recs));
    }
  }

  lemma FsCounts(orig: map<nat, Rec>, base: set<nat>, es: seq<Event>, recs: map<nat, Rec>, recs': map<nat, Rec>)
    requires PruneCounts(recs, base, es) && PruneGreatest(orig, base, recs)
    requires Visited(recs, recs', FS_TREE) && FS_TREE in Alive(recs)
    ensures PruneCounts(recs', base, es) && PruneGreatest(orig, base, recs')
  {
    hide Visit, Alive, Repeats, Closed;
    VisitedAlive(recs, recs', FS_TREE);
    assert Reachable([]) == 0;
  }

  lemma NothingWeakened(bs: seq<Backref>)
    requires Weakened([], bs)
    ensures bs == []
  {}

  lemma WeakenedTwice(a: seq<Backref>, b: seq<Backref>, c: seq<Backref>)
    requires Weakened(a, b) && Weakened(b, c)
    ensures Weakened(a, c)
  {}

  lemma FsStep(orig: map<nat, Rec>, base: set<nat>, recs: map<nat, Rec>, recs': map<nat, Rec>)
    requires PruneShape(orig, recs) && PruneGreatest(orig, base, recs) && PruneFs(orig, base, recs)
    requires Visited(recs, recs', FS_TREE) && FS_TREE in Alive(recs)
    ensures PruneFs(orig, base, recs')
  {
    hide Visit, FsCount, Doomed, SelfBehind, FsKept, Twofold, PruneShape, PruneGreatest;
    var rec, alive := recs[FS_TREE], Alive(recs);
    VisitFsCount(rec, 0, alive, Lost(orig, recs));
    VisitShape(FS_TREE, rec, 0, alive);
    if Lost(orig, recs) == 0 {
      FsCountStart();
      if FsKept(orig, base) { FsNone(orig, base, recs); }
      forall d: nat | Doomed(orig, base, d) && !SelfBehind(orig, d)
        ensures Lost(orig, recs') == 0 || recs'[FS_TREE].foundRef == 0
      {
        FsLoses(orig, base, recs, d);
      }
      if Twofold(orig, base) { FsLosesTwo(orig, base, recs); }
    }
  }

  /** The first visit of FS_TREE at which something happens. */
  ghost predicate FsFresh(orig: map<nat, Rec>, recs: map<nat, Rec>) {
    FS_TREE in recs && recs[FS_TREE] == Rec(FsBackrefs(orig), 1)
  }

  lemma ClosedAlive(orig: map<nat, Rec>, base: set<nat>, recs: map<nat, Rec>)
    requires PruneGreatest(orig, base, recs) && FS_TREE in Alive(recs)
    ensures forall q :: InClosed(orig, base, q) ==> q in Alive(recs)
  {}

  lemma FsNone(orig: map<nat, Rec>, base: set<nat>, recs: map<nat, Rec>)
    requires FsFresh(orig, recs) && PruneGreatest(orig, base, recs) && FsKept(orig, base)
    ensures Visit(FS_TREE, recs[FS_TREE], 0, Alive(recs)).rec == recs[FS_TREE]
  {
    hide InClosed, PruneGreatest;
    ClosedAlive(orig, base, recs);
    VisitNone(FS_TREE, recs[FS_TREE], 0, Alive(recs));
  }

  lemma FsLoses(orig: map<nat, Rec>, base: set<nat>, recs: map<nat, Rec>, d: nat)
    requires FsFresh(orig, recs) && PruneGreatest(orig, base, recs) && Doomed(orig, base, d) && !SelfBehind(orig, d)
    ensures var o := Visit(FS_TREE, recs[FS_TREE], 0, Alive(recs)).rec; o == recs[FS_TREE] || o.foundRef == 0
  {
    hide InClosed, PruneGreatest;
    ClosedAlive(orig, base, recs);
    if FsBackrefs(orig)[d].refRoot in Alive(recs) {
      VisitNone(FS_TREE, recs[FS_TREE], 0, Alive(recs));
    } else {
      VisitLoses(FS_TREE, recs[FS_TREE], 0, Alive(recs), d);
    }
  }

  lemma FsLosesTwo(orig: map<nat, Rec>, base: set<nat>, recs: map<nat, Rec>)
    requires FsFresh(orig, recs) && PruneGreatest(orig, base, recs) && PruneShape(orig, recs) && Twofold(orig, base)
    ensures var o := Visit(FS_TREE, recs[FS_TREE], 0, Alive(recs)).rec;
      o == recs[FS_TREE] || Reachable(o.backrefs) + 2 <= Reachable(recs[FS_TREE].backrefs)
  {
    hide InClosed, PruneGreatest, Reachable, Visit;
    ClosedAlive(orig, base, recs);
    if d: nat :| Doomed(orig, base, d) && SelfBehind(orig, d) {
      if FsBackrefs(orig)[d].refRoot in Alive(recs) {
        VisitNone(FS_TREE, recs[FS_TREE], 0, Alive(recs));
      } else {
        var j :| d < j < |FsBackrefs(orig)| && FsBackrefs(orig)[j].reachable && FsBackrefs(orig)[j].refRoot == FS_TREE;
        VisitLosesTwo(FS_TREE, recs[FS_TREE], 0, Alive(recs), d, j);
      }
    } else {
      var d: nat, e: nat :| d < e && Unfounded(orig, d) && Unfounded(orig, e);
      assert forall i: nat :: Unfounded(orig, i) ==> FsBackrefs(orig)[i].refRoot !in Alive(recs);
      VisitLosesTwo(FS_TREE, recs[FS_TREE], 0, Alive(recs), d, e);
    }
  }

  /** One visit keeps everything. */
  lemma VisitKeeps(orig: map<nat, Rec>, base: set<nat>, es: seq<Event>, recs: map<nat, Rec>, recs': map<nat, Rec>,
                   r: nat)
    requires Pruning(orig, base, es, recs) && Visited(recs, recs', r) && r in Alive(recs)
    ensures Pruning(orig, base, es, recs') && Alive(recs') <= Alive(recs)
  {
    hide PruneShape, PruneGreatest, PruneFs, Visit, Visited;
    assert FS_TREE in recs;
    hide PruneCounts;
    VisitedAlive(recs, recs', r);
    if r == FS_TREE {
      FsShape(orig, recs, recs');
      FsCounts(orig, base, es, recs, recs');
      FsStep(orig, base, recs, recs');
    } else {
      OtherCounts(base, es, recs, recs', r);
      OtherShape(orig, recs, recs', r);
      OtherGreatest(orig, base, es, recs, recs', r);
      OtherFs(orig, base, recs, recs', r);
    }
  }

  /** A visit in which the counter does not reach zero settles the root and keeps it. */
  lemma QuietSettles(recs: map<nat, Rec>, recs': map<nat, Rec>, r: nat)
    requires Visited(recs, recs', r) && r in Alive(recs) && !Visit(r, recs[r], 0, Alive(recs)).hit
    ensures Alive(recs') == Alive(recs) && Settled(recs'[r].backrefs, Alive(recs'))
  {
    hide Visit;
    VisitedAlive(recs, recs', r);
    VisitQuiet(r, recs[r], 0, Alive(recs));
  }

  /** One in which it does makes progress. */
  lemma HitShrinks(base: set<nat>, es: seq<Event>, recs: map<nat, Rec>, recs': map<nat, Rec>, r: nat)
    requires PruneCounts(recs, base, es) && Visited(recs, recs', r) && r in Alive(recs)
    requires Visit(r, recs[r], 0, Alive(recs)).hit
    ensures r == FS_TREE ==> Reachable(FsBackrefs(recs')) < Reachable(FsBackrefs(recs))
    ensures r != FS_TREE ==> Alive(recs') == Alive(recs) - {r}
  {
    hide Visit, PruneCounts, Reachable;
    VisitedAlive(recs, recs', r);
    VisitShape(r, recs[r], 0, Alive(recs));
    if r != FS_TREE { OtherCounts(base, es, recs, recs', r); }
  }

  /** Fewer roots, or fewer places that refer to FS_TREE. */
  ghost predicate Shrunk(a: map<nat, Rec>, b: map<nat, Rec>) {
    Alive(b) != Alive(a) || Reachable(FsBackrefs(b)) < Reachable(FsBackrefs(a))
  }

  ghost predicate NoMore(a: map<nat, Rec>, b: map<nat, Rec>) {
    Alive(b) <= Alive(a) && Reachable(FsBackrefs(b)) <= Reachable(FsBackrefs(a))
  }

  lemma ShrunkStays(a: map<nat, Rec>, b: map<nat, Rec>, c: map<nat, Rec>)
    requires NoMore(a, b) && NoMore(b, c)
    ensures NoMore(a, c) && (Shrunk(a, b) || Shrunk(b, c) ==> Shrunk(a, c))
  {
    hide Alive, Reachable;
  }

  /** One visit of a pass. */
  lemma PassStep(orig: map<nat, Rec>, base: set<nat>, es: seq<Event>, recs: map<nat, Rec>, recs': map<nat, Rec>, r: nat,
                 hit: bool)
    requires Pruning(orig, base, es, recs) && Visited(recs, recs', r) && r in Alive(recs)
    requires hit == Visit(r, recs[r], 0, Alive(recs)).hit
    ensures Pruning(orig, base, es, recs') && NoMore(recs, recs') && (hit ==> Shrunk(recs, recs'))
    ensures !hit ==> Alive(recs') == Alive(recs) && Settled(recs'[r].backrefs, Alive(recs'))
  {
    hide PruneShape, PruneGreatest, PruneFs, PruneCounts, Visit, Settled, Reachable;
    VisitKeeps(orig, base, es, recs, recs', r);
    VisitShape(r, recs[r], 0, Alive(recs));
    assert FS_TREE in recs by { FsThere(base, es, recs); }
    if hit { HitShrinks(base, es, recs, recs', r); } else { QuietSettles(recs, recs', r); }
  }

  lemma FsThere(base: set<nat>, es: seq<Event>, recs: map<nat, Rec>)
    requires PruneCounts(recs, base, es)
    ensures FS_TREE in recs
  {}

  // ---------------------------------------------------------------------------
  // The end of the loop

  /** The backrefs are those of before, but reachable only where both roots are left. */
  ghost predicate Faded(bs: seq<Backref>, bs': seq<Backref>, alive: set<nat>) {
    |bs'| == |bs| && forall i :: 0 <= i < |bs| ==>
      bs'[i] == bs[i].(reachable := bs[i].reachable && bs[i].refRoot in alive)
  }

  lemma OtherFaded(orig: map<nat, Rec>, base: set<nat>, es: seq<Event>, recs: map<nat, Rec>, r: nat)
    requires PruneCounts(recs, base, es) && PruneShape(orig, recs) && r in recs && r != FS_TREE
    requires r in Alive(recs) ==> Settled(recs[r].backrefs, Alive(recs))
    ensures Faded(RecOf(orig, r).backrefs, recs[r].backrefs, Alive(recs))
  {
    hide Reachable, Repeats;
    if r in orig && r !in Alive(recs) { ReachableSome(recs[r].backrefs); }
  }

  lemma FsFaded(orig: map<nat, Rec>, base: set<nat>, recs: map<nat, Rec>)
    requires PruneFs(orig, base, recs) && FsKept(orig, base) && FS_TREE in Alive(recs)
    requires Settled(recs[FS_TREE].backrefs, Alive(recs))
    ensures Faded(FsBackrefs(orig), FsBackrefs(recs), Alive(recs))
  {
    hide Doomed, SelfBehind, Twofold, Reachable;
  }

  lemma AllFaded(orig: map<nat, Rec>, base: set<nat>, es: seq<Event>, recs: map<nat, Rec>)
    requires Pruning(orig, base, es, recs) && (FsKept(orig, base) ==> FS_TREE in Alive(recs))
    requires forall r :: r in Alive(recs) ==> Settled(recs[r].backrefs, Alive(recs))
    ensures forall r :: r in recs && (r != FS_TREE || FsKept(orig, base)) ==>
      Faded(RecOf(orig, r).backrefs, recs[r].backrefs, Alive(recs))
    ensures forall r :: r in orig ==> r in recs
  {
    assert forall r :: r in orig ==> r in recs;
    hide PruneFs, PruneCounts, PruneShape, Settled, Faded, FsKept;
    forall r | r in recs && (r != FS_TREE || FsKept(orig, base))
      ensures Faded(RecOf(orig, r).backrefs, recs[r].backrefs, Alive(recs))
    {
      if r == FS_TREE { FsFaded(orig, base, recs); } else { OtherFaded(orig, base, es, recs, r); }
    }
  }

  lemma SurvivorsClosed(orig: map<nat, Rec>, base: set<nat>, recs: map<nat, Rec>, es: seq<Event>)
    requires PruneCounts(recs, base, es) && PruneShape(orig, recs)
    requires forall r :: r in Alive(recs) ==> Settled(recs[r].backrefs, Alive(recs))
    ensures Closed(orig, base, Alive(recs))
  {
    forall r | r in Alive(recs) && r !in base ensures r in orig && ReferredFrom(orig[r].backrefs, Alive(recs)) {
      ReachableSome(recs[r].backrefs);
      var i :| 0 <= i < |recs[r].backrefs| && recs[r].backrefs[i].reachable;
      assert Settled(recs[r].backrefs, Alive(recs));
      assert r in orig;
      assert orig[r].backrefs[i].reachable && orig[r].backrefs[i].refRoot in Alive(recs);
    }
  }

  /** FS_TREE is kept when all that refer to it are; when one place fails, it is lost unless a place
      of its own behind that one brings the counter round; and two unfounded places always do. */
  lemma FsVerdict(orig: map<nat, Rec>, base: set<nat>, es: seq<Event>, recs: map<nat, Rec>)
    requires Pruning(orig, base, es, recs)
    requires forall r :: r in Alive(recs) ==> Settled(recs[r].backrefs, Alive(recs))
    ensures FsKept(orig, base) || Twofold(orig, base) ==> FS_TREE in Alive(recs)
    ensures forall d: nat :: Doomed(orig, base, d) && !SelfBehind(orig, d) ==> FS_TREE !in Alive(recs)
  {
    hide PruneGreatest, FsKept, SelfBehind, FsCount;
    if 0 <= Lost(orig, recs) { FsCountAlive(Lost(orig, recs)); }
    SurvivorsClosed(orig, base, recs, es);
    forall d: nat | Doomed(orig, base, d) && !SelfBehind(orig, d) ensures FS_TREE !in Alive(recs) {
      assert FS_TREE in Alive(recs) ==> Settled(FsBackrefs(orig), Alive(recs));
    }
  }
}
