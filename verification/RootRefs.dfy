/**
  check_root_refs over whole event lists: roots are recorded event by event, and those that
  nothing reachable refers to are pruned.
 */
module RootRefs {
  import opened Basics
  import opened RootRecs
  import opened RootPrune

  /** Roots that need no reference: FS_TREE, and those with a late DIR_ITEM. */
  ghost function Base(es: seq<Event>): set<nat> {
    {FS_TREE} + set i | 0 <= i < |es| && Late(es[..i], es[i]) :: es[i].root
  }

  class RootCache {
    var recs: map<nat, Rec>
    /** Everything delivered so far. */
    ghost var events: seq<Event>

    /** The records tell what was delivered, and found_ref is the number of reachable
        backrefs plus the DIR_ITEMs that came when a backref had both sides already. */
    ghost predicate Valid()
      reads this
    {
      forall r: nat :: RootOk(events, r, RecOf(recs, r))
    }

    constructor ()
      ensures Valid() && recs == map[] && events == []
    {
      recs, events := map[], [];
    }

    /** get_root_backref. */
    method GetRootBackref(bs: seq<Backref>, e: Event) returns (bs': seq<Backref>, k: nat)
      ensures bs' == WithBackref(bs, e) && k == Located(bs, e.refRoot, e.dir, e.name, 0)
    {
      k, bs' := 0, bs;
      while k < |bs|
        invariant k <= |bs| && Located(bs, e.refRoot, e.dir, e.name, 0) == Located(bs, e.refRoot, e.dir, e.name, k)
      {
        if Same(bs[k], e.refRoot, e.dir, e.name) { return; }
        k := k + 1;
      }
      bs' := bs + [NewBackref(e)];
    }

    /** add_root_backref. */
    method AddRootBackref(e: Event)
      requires Valid()
      modifies this
      ensures Valid() && events == old(events) + [e]
      ensures recs == old(recs)[e.root := NotedRec(RecOf(old(recs), e.root), e)]
    {
      hide RootOk;
      var rec := RecOf(recs, e.root);
      var bs, k := GetRootBackref(rec.backrefs, e);
      var count := if Counts(bs[k], e.key) then rec.foundRef + 1 else rec.foundRef;
      forall r: nat ensures RootOk(events + [e], r, if r == e.root then NotedRec(rec, e) else RecOf(recs, r)) {
        RootStep(events, e, r, RecOf(recs, r));
      }
      recs := recs[e.root := Rec(bs[k := Note(bs[k], e.index, e.key, e.errors)], count)];
      events := events + [e];
      assert forall r: nat :: RecOf(recs, r) == if r == e.root then NotedRec(rec, e) else RecOf(old(recs), r);
    }

    /** The records of the trees that were read, and all events. */
    method Load(es: seq<Event>, trees: set<nat>)
      requires Valid() && events == []
      modifies this
      ensures Valid() && events == es && trees <= recs.Keys
    {
      hide RootOk;
      var todo := trees;
      while todo != {}
        invariant Valid() && events == [] && todo <= trees && trees - todo <= recs.Keys
        decreases todo
      {
        var r :| r in todo;
        todo := todo - {r};
        ghost var before := recs;
        GetRootRec(r);
        assert forall q: nat :: RecOf(recs, q) == RecOf(before, q);
      }
      var i: nat := 0;
      while i < |es|
        invariant i <= |es| && Valid() && events == es[..i] && trees <= recs.Keys
      {
        AddRootBackref(es[i]);
        assert es[..i + 1] == es[..i] + [es[i]];
        i := i + 1;
      }
      assert es[..i] == es;
    }

    /** get_root_rec. */
    method GetRootRec(r: nat)
      modifies this`recs
      ensures r in recs && recs == if r in old(recs) then old(recs) else old(recs)[r := Rec([], 0)]
    {
      if r !in recs {
        recs := recs[r := Rec([], 0)];
      }
    }

    /** The inner loop of check_root_refs for one root.  `hit`: the counter reached zero. */
    method PruneRecord(r: nat) returns (hit: bool)
      requires r in recs
      modifies this`recs
      ensures Visited(old(recs), recs, r) && hit == Visit(r, old(recs)[r], 0, Alive(old(recs))).hit
    {
      ghost var rec, alive := recs[r], Alive(recs);
      hit := false;
      var i := 0;
      while i < |recs[r].backrefs|
        invariant r in recs && i <= |recs[r].backrefs|
        invariant Visit(r, rec, 0, alive).rec == Visit(r, recs[r], i, alive).rec
        invariant Visit(r, rec, 0, alive).hit == (hit || Visit(r, recs[r], i, alive).hit)
        invariant forall q :: q in old(recs) && q != r ==> q in recs && recs[q] == old(recs)[q]
        invariant forall q :: q in recs && q !in old(recs) ==> recs[q] == Rec([], 0)
        decreases |recs[r].backrefs| - i
      {
        var b := recs[r].backrefs[i];
        if b.reachable {
          GetRootRec(b.refRoot);
          if recs[b.refRoot].foundRef == 0 {
            recs := recs[r := Drop(recs[r], i)];
            hit := hit || recs[r].foundRef == 0;
          }
        }
        i := i + 1;
      }
    }

    /** One pass over all roots, in any order. */
    method PrunePass(ghost orig: map<nat, Rec>, ghost base: set<nat>) returns (again: bool)
      requires Pruning(orig, base, events, recs)
      modifies this`recs
      ensures Pruning(orig, base, events, recs) && NoMore(old(recs), recs) && (again ==> Shrunk(old(recs), recs))
      ensures !again ==> forall r :: r in Alive(recs) ==> Settled(recs[r].backrefs, Alive(recs))
    {
      hide Pruning, NoMore, Shrunk, Settled;
      again := false;
      var todo := recs.Keys;
      Unchanged(recs);
      while todo != {}
        invariant todo <= recs.Keys && Pruning(orig, base, events, recs) && NoMore(old(recs), recs)
        invariant again ==> Shrunk(old(recs), recs)
        invariant !again ==> forall r :: r in Alive(recs) && r !in todo ==> Settled(recs[r].backrefs, Alive(recs))
        decreases todo
      {
        var r :| r in todo;
        todo := todo - {r};
        if 0 < recs[r].foundRef {
          ghost var before := recs;
          var hit := PruneRecord(r);
          PassStep(orig, base, events, before, recs, r, hit);
          ShrunkStays(old(recs), before, recs);
          again := again || hit;
        }
      }
    }

    lemma Descends(a: map<nat, Rec>, b: map<nat, Rec>, again: bool)
      requires NoMore(a, b) && (again ==> Shrunk(a, b))
      ensures Alive(b) < Alive(a) || (Alive(b) == Alive(a) && Reachable(FsBackrefs(b)) <= Reachable(FsBackrefs(a)))
      ensures again ==> Alive(b) < Alive(a) || Reachable(FsBackrefs(b)) < Reachable(FsBackrefs(a))
    {
    }

    lemma Unchanged(recs: map<nat, Rec>)
      ensures NoMore(recs, recs)
    {
    }

    /** The pruning loop of check_root_refs, in any visiting order.  The roots left are the
        greatest closed set, or without FS_TREE the greatest closed set that lacks it; and
        FS_TREE is left or lost as the places that refer to it decide. */
    method PruneRoots()
      requires Valid()
      modifies this`recs
      ensures Closed(old(recs), Base(events), Alive(recs))
      ensures forall t: set<nat> :: Closed(old(recs), Base(events), t) && (FS_TREE in t ==> FS_TREE in Alive(recs)) ==>
        t <= Alive(recs)
      ensures FsKept(old(recs), Base(events)) || Twofold(old(recs), Base(events)) ==> FS_TREE in Alive(recs)
      ensures forall d: nat :: Doomed(old(recs), Base(events), d) && !SelfBehind(old(recs), d) ==>
        FS_TREE !in Alive(recs)
      ensures forall r :: r in recs && r != FS_TREE ==>
        recs[r].foundRef == Reachable(recs[r].backrefs) + Repeats(events, r)
      ensures forall r :: r in old(recs) ==> r in recs
      ensures forall r :: r in recs && (r != FS_TREE || FsKept(old(recs), Base(events))) ==>
        Faded(RecOf(old(recs), r).backrefs, recs[r].backrefs, Alive(recs))
    {
      ghost var orig, base := recs, Base(events);
      forall r: nat ensures r in base <==> r == FS_TREE || 0 < Repeats(events, r) { RepeatsSome(events, r); }
      assert forall r: nat :: RootOk(events, r, RecOf(orig, r));
      hide Valid, Pruning, Base, Repeats, Closed, FsKept, Twofold, Doomed, SelfBehind, RootOk, Settled, NoMore, Shrunk;
      hide Faded;
      GetRootRec(FS_TREE);
      recs := recs[FS_TREE := recs[FS_TREE].(foundRef := 1)];
      StartPruning(orig, recs, events, base);
      var again := true;
      while again
        invariant Pruning(orig, base, events, recs)
        invariant !again ==> forall r :: r in Alive(recs) ==> Settled(recs[r].backrefs, Alive(recs))
        decreases Alive(recs), Reachable(FsBackrefs(recs)), again
      {
        ghost var before := recs;
        again := PrunePass(orig, base);
        Descends(before, recs, again);
      }
      AllPruned(orig, base, events, recs);
      FsVerdict(orig, base, events, recs);
      AllFaded(orig, base, events, recs);
    }
  }

  lemma AllPruned(orig: map<nat, Rec>, base: set<nat>, es: seq<Event>, recs: map<nat, Rec>)
    requires Pruning(orig, base, es, recs)
    requires forall r :: r in Alive(recs) ==> Settled(recs[r].backrefs, Alive(recs))
    ensures Closed(orig, base, Alive(recs))
    ensures forall t: set<nat> :: Closed(orig, base, t) && (FS_TREE in t ==> FS_TREE in Alive(recs)) ==>
      t <= Alive(recs)
    ensures forall r :: r in recs && r != FS_TREE ==> recs[r].foundRef == Reachable(recs[r].backrefs) + Repeats(es, r)
  {
    hide Closed, Settled, PruneFs;
    SurvivorsClosed(orig, base, recs, es);
  }

  // ---------------------------------------------------------------------------
  // A whole check

  /** Some name in `q` refers to the root `r`, from both sides. */
  ghost predicate Refers(es: seq<Event>, q: nat, r: nat) {
    exists i :: 0 <= i < |es| && es[i].root == r && es[i].refRoot == q && Both(es, es[i].Of())
  }

  /** Closure over what was delivered. */
  ghost predicate ClosedOver(es: seq<Event>, t: set<nat>) {
    forall r :: r in t ==> r in Base(es) || exists q :: q in t && Refers(es, q, r)
  }

  lemma ReferredOver(es: seq<Event>, root: nat, bs: seq<Backref>, t: set<nat>)
    requires AllTold(es, root, bs)
    ensures ReferredFrom(bs, t) <==> exists q :: q in t && Refers(es, q, root)
  {
    hide AllTold;
    ReachableBoth(es, root, bs);
    if ReferredFrom(bs, t) {
      var i :| 0 <= i < |bs| && bs[i].reachable && bs[i].refRoot in t;
      assert IdOf(root, bs[i]) in ReachableIds(root, bs);
      assert IdOf(root, bs[i]) in BothIds(es, root);
      assert Refers(es, bs[i].refRoot, root);
    }
    if q :| q in t && Refers(es, q, root) {
      var k :| 0 <= k < |es| && es[k].root == root && es[k].refRoot == q && Both(es, es[k].Of());
      assert es[k].Of() in BothIds(es, root);
      assert es[k].Of() in ReachableIds(root, bs);
    }
  }

  lemma ClosedSame(es: seq<Event>, recs: map<nat, Rec>, t: set<nat>)
    requires forall r: nat :: RootOk(es, r, RecOf(recs, r))
    ensures Closed(recs, Base(es), t) <==> ClosedOver(es, t)
  {
    hide AllTold, Base, ReferredFrom, Refers;
    forall r: nat ensures (r in recs && ReferredFrom(recs[r].backrefs, t)) <==> exists q :: q in t && Refers(es, q, r) {
      assert RootOk(es, r, RecOf(recs, r));
      ReferredOver(es, r, RecOf(recs, r).backrefs, t);
      if r !in recs { NobodyRefers(t); }
    }
  }

  lemma NobodyRefers(t: set<nat>)
    ensures !ReferredFrom([], t)
  {}

  /** Root `q` belongs to some closed set. */
  ghost predicate Supported(es: seq<Event>, q: nat) { exists t: set<nat> :: ClosedOver(es, t) && q in t }

  /** The places that refer to FS_TREE from outside every closed set. */
  ghost function DoomedIds(es: seq<Event>): set<Id> {
    set id | id in BothIds(es, FS_TREE) && !Supported(es, id.refRoot)
  }

  /** No place in FS_TREE itself refers to FS_TREE. */
  ghost predicate NoSelf(es: seq<Event>) { forall id :: id in BothIds(es, FS_TREE) ==> id.refRoot != FS_TREE }

  /** A place that refers to FS_TREE from a root that nothing refers to. */
  ghost predicate UnfoundedId(es: seq<Event>, id: Id) {
    id in BothIds(es, FS_TREE) && id.refRoot != FS_TREE && BothIds(es, id.refRoot) == {}
  }

  /** Two such places, and fewer places than the counter can tell apart. */
  ghost predicate TwoUnfounded(es: seq<Event>) {
    |BothIds(es, FS_TREE)| <= TWO_32 && exists a, b :: a != b && UnfoundedId(es, a) && UnfoundedId(es, b)
  }

  /** The records of FS_TREE tell these events. */
  ghost predicate Recorded(es: seq<Event>, recs: map<nat, Rec>) { forall r: nat :: RootOk(es, r, RecOf(recs, r)) }

  lemma SupportedSame(es: seq<Event>, recs: map<nat, Rec>, q: nat)
    requires Recorded(es, recs)
    ensures InClosed(recs, Base(es), q) <==> Supported(es, q)
  {
    hide RootOk, Closed, ClosedOver, Base;
    forall t: set<nat> ensures Closed(recs, Base(es), t) <==> ClosedOver(es, t) { ClosedSame(es, recs, t); }
  }

  /** The reachable backrefs of FS_TREE are the places that refer to it, one each. */
  lemma FsPlaces(es: seq<Event>, recs: map<nat, Rec>)
    requires Recorded(es, recs)
    ensures ReachableIds(FS_TREE, FsBackrefs(recs)) == BothIds(es, FS_TREE)
    ensures Reachable(FsBackrefs(recs)) == |BothIds(es, FS_TREE)|
    ensures forall i, j :: 0 <= i < j < |FsBackrefs(recs)| ==>
      IdOf(FS_TREE, FsBackrefs(recs)[i]) != IdOf(FS_TREE, FsBackrefs(recs)[j])
  {
    assert RootOk(es, FS_TREE, RecOf(recs, FS_TREE));
    ReachableBoth(es, FS_TREE, FsBackrefs(recs));
  }

  lemma NoneDoomed(es: seq<Event>, recs: map<nat, Rec>)
    requires Recorded(es, recs) && DoomedIds(es) == {}
    ensures FsKept(recs, Base(es))
  {
    hide Recorded, Supported, InClosed, BothIds;
    FsPlaces(es, recs);
    var bs := FsBackrefs(recs);
    forall i | 0 <= i < |bs| && bs[i].reachable ensures InClosed(recs, Base(es), bs[i].refRoot) {
      assert IdOf(FS_TREE, bs[i]) in BothIds(es, FS_TREE);
      assert IdOf(FS_TREE, bs[i]) !in DoomedIds(es);
      SupportedSame(es, recs, bs[i].refRoot);
    }
  }

  lemma OneDoomed(es: seq<Event>, recs: map<nat, Rec>) returns (d: nat)
    requires Recorded(es, recs) && |DoomedIds(es)| == 1 && NoSelf(es)
    ensures Doomed(recs, Base(es), d) && !SelfBehind(recs, d)
  {
    hide Recorded, Supported, InClosed, BothIds;
    FsPlaces(es, recs);
    var bs := FsBackrefs(recs);
    var id :| id in DoomedIds(es);
    assert forall x :: x in DoomedIds(es) ==> x == id by { OnlyMember(DoomedIds(es), id); }
    assert id in ReachableIds(FS_TREE, bs);
    d :| 0 <= d < |bs| && bs[d].reachable && IdOf(FS_TREE, bs[d]) == id;
    SupportedSame(es, recs, bs[d].refRoot);
    forall i | 0 <= i < |bs| && i != d && bs[i].reachable ensures InClosed(recs, Base(es), bs[i].refRoot) {
      assert IdOf(FS_TREE, bs[i]) in ReachableIds(FS_TREE, bs);
      assert IdOf(FS_TREE, bs[i]) != id && IdOf(FS_TREE, bs[i]) !in DoomedIds(es);
      SupportedSame(es, recs, bs[i].refRoot);
    }
    assert forall j :: 0 <= j < |bs| && bs[j].reachable ==> IdOf(FS_TREE, bs[j]) in ReachableIds(FS_TREE, bs);
  }

  lemma OnlyMember(ids: set<Id>, id: Id)
    requires |ids| == 1 && id in ids
    ensures forall x :: x in ids ==> x == id
  {
    assert |ids - {id}| == 0;
  }

  lemma BothTwofold(es: seq<Event>, recs: map<nat, Rec>)
    requires Recorded(es, recs) && TwoUnfounded(es)
    ensures Twofold(recs, Base(es))
  {
    hide Recorded, BothIds, Doomed, SelfBehind;
    FsPlaces(es, recs);
    var bs := FsBackrefs(recs);
    var a, b :| a != b && UnfoundedId(es, a) && UnfoundedId(es, b);
    var i :| 0 <= i < |bs| && bs[i].reachable && IdOf(FS_TREE, bs[i]) == a;
    var j :| 0 <= j < |bs| && bs[j].reachable && IdOf(FS_TREE, bs[j]) == b;
    NothingRefers(es, recs, bs[i].refRoot);
    NothingRefers(es, recs, bs[j].refRoot);
    assert Unfounded(recs, i) && Unfounded(recs, j);
  }

  /** A root that no place refers to counts nothing. */
  lemma NothingRefers(es: seq<Event>, recs: map<nat, Rec>, q: nat)
    requires Recorded(es, recs) && BothIds(es, q) == {}
    ensures RecOf(recs, q).foundRef == 0
  {
    hide RootOk;
    assert RootOk(es, q, RecOf(recs, q));
    CountIs(es, q, RecOf(recs, q));
    LateIsBoth(es, q);
  }

  lemma LateIsBoth(es: seq<Event>, q: nat)
    ensures 0 < Repeats(es, q) ==> BothIds(es, q) != {}
  {
    RepeatsSome(es, q);
    if 0 < Repeats(es, q) {
      var i :| 0 <= i < |es| && Late(es[..i], es[i]) && es[i].root == q;
      DeliveredIn(es, i, es[i].Of(), DirItemKey);
      DeliveredIn(es, i, es[i].Of(), RootRefKey);
      assert es[i].Of() in BothIds(es, q);
    }
  }

  lemma DeliveredIn(es: seq<Event>, n: nat, id: Id, key: KeyType)
    requires n <= |es| && Delivered(es[..n], id, key)
    ensures Delivered(es, id, key)
  {
    var i :| 0 <= i < n && es[..n][i].Of() == id && es[..n][i].key == key;
    assert es[i] == es[..n][i];
  }

  /** No DIR_ITEM arrives for a backref that has both sides already. */
  ghost predicate NoneLate(es: seq<Event>) { forall i :: 0 <= i < |es| ==> !Late(es[..i], es[i]) }

  /**
    All events in any order, then the pruning.  Before it, found_ref of every root is the
    number of places that refer to it from both sides plus its late DIR_ITEMs, so the two
    agree for all roots if and only if no DIR_ITEM is late.  After it, the roots left are
    the greatest set closed under "FS_TREE, or one with a late DIR_ITEM, or referred to
    from the set", or, without FS_TREE, the greatest such set that lacks it.  When at most
    one place refers to FS_TREE from outside every closed set, and none from FS_TREE itself,
    FS_TREE is left if and only if there is no such place.  Two places from roots that
    nothing refers to take its counter round, and it is left as well.
   */
  method Run(es: seq<Event>) returns (found: map<nat, nat>, alive: set<nat>)
    ensures forall r: nat :: Get(found, r) == |BothIds(es, r)| + Repeats(es, r)
    ensures (forall r: nat :: Get(found, r) == |BothIds(es, r)|) <==> NoneLate(es)
    ensures NoneLate(es) ==> Base(es) == {FS_TREE}
    ensures ClosedOver(es, alive)
    ensures forall t: set<nat> :: ClosedOver(es, t) && (FS_TREE in t ==> FS_TREE in alive) ==> t <= alive
    ensures DoomedIds(es) == {} ==> FS_TREE in alive
    ensures |DoomedIds(es)| <= 1 && NoSelf(es) ==> (FS_TREE in alive <==> DoomedIds(es) == {})
    ensures TwoUnfounded(es) ==> FS_TREE in alive
  {
    hide RootOk, ClosedOver, Closed, Base, NoneLate, Repeats, BothIds, Reachable, DoomedIds, NoSelf, TwoUnfounded;
    hide FsKept, Twofold, Doomed, SelfBehind;
    var cache := new RootCache();
    cache.Load(es, {});
    assert Recorded(es, cache.recs);
    found := map r | r in cache.recs :: cache.recs[r].foundRef;
    forall r: nat ensures Get(found, r) == |BothIds(es, r)| + Repeats(es, r) {
      assert RootOk(es, r, RecOf(cache.recs, r));
      CountIs(es, r, RecOf(cache.recs, r));
    }
    LateShows(es);
    forall t: set<nat> ensures Closed(cache.recs, Base(es), t) <==> ClosedOver(es, t) { ClosedSame(es, cache.recs, t); }
    ghost var recs := cache.recs;
    FsOutcome(es, recs);
    cache.PruneRoots();
    alive := set r | r in cache.recs && 0 < cache.recs[r].foundRef;
    assert alive == Alive(cache.recs);
  }

  /** What the events say about FS_TREE, in terms of the records. */
  lemma FsOutcome(es: seq<Event>, recs: map<nat, Rec>)
    requires Recorded(es, recs)
    ensures DoomedIds(es) == {} ==> FsKept(recs, Base(es))
    ensures |DoomedIds(es)| == 1 && NoSelf(es) ==> exists d: nat :: Doomed(recs, Base(es), d) && !SelfBehind(recs, d)
    ensures TwoUnfounded(es) ==> Twofold(recs, Base(es))
  {
    hide Recorded, DoomedIds, NoSelf, TwoUnfounded, FsKept, Doomed, SelfBehind, Twofold;
    if DoomedIds(es) == {} { NoneDoomed(es, recs); }
    if |DoomedIds(es)| == 1 && NoSelf(es) { var d := OneDoomed(es, recs); }
    if TwoUnfounded(es) { BothTwofold(es, recs); }
  }

  lemma LateShows(es: seq<Event>)
    ensures NoneLate(es) <==> forall r: nat :: Repeats(es, r) == 0
    ensures NoneLate(es) ==> Base(es) == {FS_TREE}
  {
    forall r: nat ensures 0 < Repeats(es, r) <==> exists i :: 0 <= i < |es| && Late(es[..i], es[i]) && es[i].root == r {
      RepeatsSome(es, r);
    }
    if !NoneLate(es) {
      var i :| 0 <= i < |es| && Late(es[..i], es[i]);
      assert 0 < Repeats(es, es[i].root);
    }
  }

  /**
    ROOT_REF and DIR_ITEM for FS_TREE in root 299, which nothing refers to: the check ends
    without FS_TREE.
   */
  method FsTreeLost() returns (es: seq<Event>, alive: set<nat>)
    ensures es == [FsReference(299, RootRefKey), FsReference(299, DirItemKey)] && alive == {}
  {
    es := [FsReference(299, RootRefKey), FsReference(299, DirItemKey)];
    var found;
    found, alive := Run(es);
    FsOnly(es);
    ghost var id := FsReference(299, RootRefKey).Of();
    assert es[0].Of() == id && es[1].Of() == id && es[0].key == RootRefKey && es[1].key == DirItemKey;
    OnePlace(es, id);
    assert DoomedIds(es) == {id};
  }

  /** The same from two such roots: the counter goes from 1 over 0 to 2^32 - 1, and FS_TREE stays. */
  method FsTreeRevived() returns (es: seq<Event>, alive: set<nat>)
    ensures es == [FsReference(298, RootRefKey), FsReference(298, DirItemKey), FsReference(299, RootRefKey),
                   FsReference(299, DirItemKey)]
    ensures alive == {FS_TREE}
  {
    hide TwoUnfounded, DoomedIds, NoSelf, ClosedOver, Base, BothIds, Repeats, NoneLate, Supported, Refers;
    es := [FsReference(298, RootRefKey), FsReference(298, DirItemKey), FsReference(299, RootRefKey),
           FsReference(299, DirItemKey)];
    var found;
    found, alive := Run(es);
    FsOnly(es);
    TwoPlaces(es, FsReference(298, RootRefKey), FsReference(299, RootRefKey));
  }

  /** All events are about FS_TREE: nothing refers to another root. */
  lemma FsOnly(es: seq<Event>)
    requires forall i :: 0 <= i < |es| ==> es[i].root == FS_TREE
    ensures Base(es) == {FS_TREE} && forall q, r :: Refers(es, q, r) ==> r == FS_TREE
    ensures forall q: nat :: q != FS_TREE ==> BothIds(es, q) == {} && !Supported(es, q)
    ensures forall t: set<nat> :: ClosedOver(es, t) ==> t <= {FS_TREE}
  {
    hide Late, Both;
  }

  lemma TwoPlaces(es: seq<Event>, a: Event, b: Event)
    requires a.root == b.root == FS_TREE && a.refRoot != b.refRoot && FS_TREE !in {a.refRoot, b.refRoot}
    requires a.key == b.key == RootRefKey
    requires es == [a, a.(key := DirItemKey), b, b.(key := DirItemKey)]
    ensures TwoUnfounded(es)
  {
    hide UnfoundedId;
    assert es[0] == a && es[2] == b && es[1].Of() == a.Of() && es[3].Of() == b.Of();
    assert forall id :: id in BothIds(es, FS_TREE) ==> id in {a.Of(), b.Of()};
    AtMostTwo(BothIds(es, FS_TREE), a.Of(), b.Of());
    FoundOnce(es, 0, 1);
    FoundOnce(es, 2, 3);
  }

  lemma FoundOnce(es: seq<Event>, i: nat, j: nat)
    requires i < |es| && j < |es| && es[i].key == RootRefKey && es[j].key == DirItemKey && es[i].Of() == es[j].Of()
    requires es[i].refRoot != FS_TREE && forall k :: 0 <= k < |es| ==> es[k].root == FS_TREE
    ensures UnfoundedId(es, es[i].Of())
  {
    assert Delivered(es, es[i].Of(), RootRefKey) && Delivered(es, es[i].Of(), DirItemKey);
    assert es[i].Of() in BothIds(es, FS_TREE);
  }

  lemma AtMostTwo(ids: set<Id>, a: Id, b: Id)
    requires forall id :: id in ids ==> id in {a, b}
    ensures |ids| <= 2
  {
    assert ids == {} || ids == {a} || ids == {b} || ids == {a, b};
  }

  function FsReference(q: nat, key: KeyType): Event { Event(FS_TREE, q, 256, 2, "snap", key, {}) }

  /**
    ROOT_REF, DIR_ITEM and DIR_ITEM again for one place: one place refers to root 300, and
    it is counted twice, so that 300 survives although the root 299 that refers to it does not.
    DIR_ITEM, DIR_ITEM, ROOT_REF repeats the DIR_ITEM as well and is counted once.
   */
  lemma LateDirItem() returns (es: seq<Event>, fine: seq<Event>)
    ensures |es| == 3 && fine == [es[1], es[2], es[0]] && es[1] == es[2]
    ensures es[0].root == 300 && es[0].key == RootRefKey && es[1] == es[0].(key := DirItemKey)
    ensures |BothIds(es, 300)| == 1 && Repeats(es, 300) == 1 && ClosedOver(es, {FS_TREE, 300})
    ensures |BothIds(fine, 300)| == 1 && Repeats(fine, 300) == 0 && !ClosedOver(fine, {FS_TREE, 300})
  {
    var a := Event(300, 299, 256, 2, "snap", RootRefKey, {});
    es, fine := [a, a.(key := DirItemKey), a.(key := DirItemKey)], [a.(key := DirItemKey), a.(key := DirItemKey), a];
    LateCounted(a);
    EarlyCounted(a);
  }

  lemma LateCounted(a: Event)
    requires a.key == RootRefKey
    ensures var b := a.(key := DirItemKey); var es := [a, b, b];
      |BothIds(es, a.root)| == 1 && Repeats(es, a.root) == 1 && ClosedOver(es, {FS_TREE, a.root})
  {
    hide Repeats, Refers, Late, BothIds;
    var b := a.(key := DirItemKey);
    var es := [a, b, b];
    OnePlace(es, a.Of());
    assert es[0].key == RootRefKey && es[1].key == DirItemKey && es[..2] == [a, b];
    LateThird(a, b);
    assert es[2].root in Base(es);
  }

  lemma EarlyCounted(a: Event)
    requires a.key == RootRefKey && a.root != FS_TREE && a.refRoot !in {FS_TREE, a.root}
    ensures var b := a.(key := DirItemKey); var es := [b, b, a];
      |BothIds(es, a.root)| == 1 && Repeats(es, a.root) == 0 && !ClosedOver(es, {FS_TREE, a.root})
  {
    hide Repeats, Late, BothIds;
    var b := a.(key := DirItemKey);
    var es := [b, b, a];
    OnePlace(es, a.Of());
    assert es[0].key == DirItemKey && es[2].key == RootRefKey;
    NotLate(b, a);
    RepeatsSome(es, a.root);
    assert forall q :: Refers(es, q, a.root) ==> q == a.refRoot;
  }

  /** All events are for one place. */
  lemma OnePlace(es: seq<Event>, id: Id)
    requires es != [] && forall i :: 0 <= i < |es| ==> es[i].Of() == id
    ensures BothIds(es, id.root) == if Both(es, id) then {id} else {}
  {
    assert es[0].Of() == id && es[0].root == id.root;
  }

  /** The late DIR_ITEMs among three events for one root. */
  lemma RepeatsOfThree(a: Event, b: Event, c: Event)
    requires a.root == b.root == c.root
    ensures Repeats([a, b, c], a.root) ==
      (if Late([], a) then 1 else 0) + (if Late([a], b) then 1 else 0) + if Late([a, b], c) then 1 else 0
  {
    hide Late, Repeats;
    assert [] + [a] == [a] && [a] + [b] == [a, b] && [a, b] + [c] == [a, b, c];
    RepeatsNone(a.root);
    RepeatsMore([], a, a.root);
    RepeatsMore([a], b, a.root);
    RepeatsMore([a, b], c, a.root);
  }

  lemma RepeatsNone(root: nat)
    ensures Repeats([], root) == 0
  {}

  /** No event is late as the first or the second. */
  lemma EarlyNotLate(a: Event, b: Event)
    ensures !Late([], a) && !Late([a], b)
  {}

  lemma LateThird(a: Event, b: Event)
    requires a.key == RootRefKey && b == a.(key := DirItemKey)
    ensures Repeats([a, b, b], a.root) == 1 && Late([a, b], b)
  {
    hide Repeats;
    RepeatsOfThree(a, b, b);
    EarlyNotLate(a, b);
    assert [a, b][0] == a && [a, b][1] == b;
    assert Delivered([a, b], b.Of(), RootRefKey) && Delivered([a, b], b.Of(), DirItemKey);
  }

  lemma NotLate(b: Event, a: Event)
    requires a.key == RootRefKey && b == a.(key := DirItemKey)
    ensures Repeats([b, b, a], a.root) == 0
  {
    hide Repeats, Delivered;
    RepeatsOfThree(b, b, a);
    EarlyNotLate(b, b);
  }
}
