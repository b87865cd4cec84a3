/**
  The verdict of check_root_refs: which roots it reports, over everything that was delivered.
 */
module RootReport {
  import opened RootRecs
  import opened RootPrune
  import opened RootRefs

  const FIRST_FREE: nat := 256
  const LAST_FREE: nat := 0x1_0000_0000_0000_0000 - 256

  predicate InFree(r: nat) { FIRST_FREE <= r <= LAST_FREE }

  /** Does the root item of `r` count references?  `trees` are the root items by their number of references. */
  predicate HasItem(trees: map<nat, nat>, r: nat) { r in trees && 0 < trees[r] }

  // ---------------------------------------------------------------------------
  // Over the events

  /** The place was delivered from all four sides, and they agree. */
  ghost predicate Complete(es: seq<Event>, id: Id) {
    && Delivered(es, id, DirItemKey) && Delivered(es, id, DirIndexKey) && Delivered(es, id, RootRefKey)
    && Delivered(es, id, RootBackrefKey) && Fits(es, id)
  }

  /** A place in a root that is left refers to `r` from both sides, but not completely. */
  ghost predicate Broken(es: seq<Event>, alive: set<nat>, r: nat) {
    exists id :: id in BothIds(es, r) && id.refRoot in alive && !Complete(es, id)
  }

  /** What is wrong with a root: not referenced and no orphan, referenced without a root item, or
      referenced from an incomplete place. */
  ghost predicate Fault(es: seq<Event>, alive: set<nat>, r: nat, item: bool, orphan: bool) {
    || (r !in alive && InFree(r) && item && !orphan) || (r in alive && !item) || Broken(es, alive, r)
  }

  // ---------------------------------------------------------------------------
  // Over the records

  /** No mark of the backref is missing and it has no error. */
  predicate Whole(b: Backref) {
    b.foundDirItem && b.foundDirIndex && b.foundBackRef && b.foundForwardRef && b.errors == {}
  }

  ghost predicate Unresolved(bs: seq<Backref>) { exists i :: 0 <= i < |bs| && bs[i].reachable && !Whole(bs[i]) }

  ghost predicate RootBad(r: nat, rec: Rec, item: bool, orphan: bool) {
    if rec.foundRef == 0 && InFree(r) && (orphan || !item) then false
    else (rec.foundRef == 0 && InFree(r)) || (0 < rec.foundRef && !item) || Unresolved(rec.backrefs)
  }

  /** The body of the last loop: how many errors one root adds. */
  method ReportRoot(r: nat, rec: Rec, item: bool, orphan: bool) returns (errors: nat)
    ensures 0 < errors <==> RootBad(r, rec, item, orphan)
  {
    errors := 0;
    if rec.foundRef == 0 && InFree(r) {
      if orphan || !item { return; }
      errors := 1;
    }
    var error := 0 < rec.foundRef && !item;
    var i := 0;
    while i < |rec.backrefs|
      invariant i <= |rec.backrefs| && (error <==> (0 < rec.foundRef && !item) || Unresolved(rec.backrefs[..i]))
    {
      assert rec.backrefs[..i + 1] == rec.backrefs[..i] + [rec.backrefs[i]];
      UnresolvedMore(rec.backrefs[..i], rec.backrefs[i]);
      if rec.backrefs[i].reachable && !Whole(rec.backrefs[i]) { error := true; }
      i := i + 1;
    }
    assert rec.backrefs[..i] == rec.backrefs;
    if error { errors := errors + 1; }
  }

  lemma UnresolvedMore(bs: seq<Backref>, b: Backref)
    ensures Unresolved(bs + [b]) <==> Unresolved(bs) || (b.reachable && !Whole(b))
  {
    var more := bs + [b];
    assert more[|bs|] == b && forall i :: 0 <= i < |bs| ==> more[i] == bs[i];
  }

  /** The marks of a backref tell whether its place is complete. */
  lemma WholeComplete(es: seq<Event>, r: nat, b: Backref)
    requires Told(es, r, b)
    ensures Whole(b) <==> Complete(es, IdOf(r, b))
  {
    hide Delivered, Fits;
  }

  /** The unresolved backrefs at the end are the broken places. */
  lemma UnresolvedBroken(es: seq<Event>, r: nat, bs: seq<Backref>, bs': seq<Backref>, alive: set<nat>)
    requires AllTold(es, r, bs) && Faded(bs, bs', alive)
    ensures Unresolved(bs') <==> Broken(es, alive, r)
  {
    ReachableBoth(es, r, bs);
    hide BothIds, Complete;
    if Unresolved(bs') {
      var i :| 0 <= i < |bs'| && bs'[i].reachable && !Whole(bs'[i]);
      assert Told(es, r, bs[i]);
      WholeComplete(es, r, bs[i]);
      assert IdOf(r, bs[i]) in ReachableIds(r, bs);
    }
    if Broken(es, alive, r) {
      var id :| id in BothIds(es, r) && id.refRoot in alive && !Complete(es, id);
      assert id in ReachableIds(r, bs);
      var i :| 0 <= i < |bs| && bs[i].reachable && IdOf(r, bs[i]) == id;
      assert Told(es, r, bs[i]);
      WholeComplete(es, r, bs[i]);
      assert bs'[i].reachable && !Whole(bs'[i]);
    }
  }

  /** A root that a place in `alive` refers to counts a reference itself. */
  lemma BadIsFault(es: seq<Event>, r: nat, orig: Rec, rec: Rec, alive: set<nat>, item: bool, orphan: bool)
    requires AllTold(es, r, orig.backrefs) && Faded(orig.backrefs, rec.backrefs, alive)
    requires r in alive <==> 0 < rec.foundRef
    requires rec.foundRef == 0 ==> Reachable(rec.backrefs) == 0
    ensures RootBad(r, rec, item, orphan) <==> Fault(es, alive, r, item, orphan)
  {
    hide Reachable, Unresolved, Broken, Faded, AllTold;
    UnresolvedBroken(es, r, orig.backrefs, rec.backrefs, alive);
    if rec.foundRef == 0 { NoneUnresolved(rec.backrefs); }
  }

  lemma NoneUnresolved(bs: seq<Backref>)
    requires Reachable(bs) == 0
    ensures !Unresolved(bs)
  {
    hide Reachable;
    ReachableSome(bs);
  }

  /**
    The whole of check_root_refs: all events, the records of the trees, the pruning and the
    report.  A root is reported if and only if it has a fault in terms of the events and of the
    roots that are left; for FS_TREE, if no place refers to it from outside every closed set.
   */
  method CheckRootRefs(es: seq<Event>, trees: map<nat, nat>, orphans: set<nat>)
    returns (ret: int, bad: set<nat>, alive: set<nat>)
    ensures ret == if bad == {} then 0 else 1
    ensures forall r: nat :: r != FS_TREE || DoomedIds(es) == {} ==>
      (r in bad <==> Fault(es, alive, r, HasItem(trees, r), r in orphans))
    ensures ClosedOver(es, alive)
    ensures forall t: set<nat> :: ClosedOver(es, t) && (FS_TREE in t ==> FS_TREE in alive) ==> t <= alive
    ensures DoomedIds(es) == {} ==> FS_TREE in alive
  {
    hide RootOk, ClosedOver, Closed, Base, Repeats, BothIds, Reachable, DoomedIds, FsKept, Fault, RootBad, Faded;
    var cache := new RootCache();
    cache.Load(es, trees.Keys);
    ghost var orig := cache.recs;
    assert Recorded(es, orig);
    forall t: set<nat> ensures Closed(orig, Base(es), t) <==> ClosedOver(es, t) { ClosedSame(es, orig, t); }
    FsOutcome(es, orig);
    cache.PruneRoots();
    var recs := cache.recs;
    alive := set r | r in recs && 0 < recs[r].foundRef;
    assert alive == Alive(recs);
    bad := {};
    var todo := recs.Keys;
    while todo != {}
      invariant todo <= recs.Keys
      invariant forall r :: r in bad <==>
        r in recs && r !in todo && RootBad(r, recs[r], HasItem(trees, r), r in orphans)
      decreases todo
    {
      var r :| r in todo;
      todo := todo - {r};
      var errors := ReportRoot(r, recs[r], HasItem(trees, r), r in orphans);
      if 0 < errors { bad := bad + {r}; }
    }
    ret := if bad == {} then 0 else 1;
    forall r: nat | r != FS_TREE || DoomedIds(es) == {}
      ensures r in bad <==> Fault(es, alive, r, HasItem(trees, r), r in orphans)
    {
      assert RootOk(es, r, RecOf(orig, r));
      Verdict(es, orig, recs, r, HasItem(trees, r), r in orphans);
    }
  }

  lemma Verdict(es: seq<Event>, orig: map<nat, Rec>, recs: map<nat, Rec>, r: nat, item: bool, orphan: bool)
    requires RootOk(es, r, RecOf(orig, r)) && (r in orig ==> r in recs) && (item ==> r in recs)
    requires r in recs ==> Faded(RecOf(orig, r).backrefs, recs[r].backrefs, Alive(recs))
    requires r in recs && r != FS_TREE ==> recs[r].foundRef == Reachable(recs[r].backrefs) + Repeats(es, r)
    requires r == FS_TREE ==> FS_TREE in Alive(recs)
    ensures r in recs && RootBad(r, recs[r], item, orphan) <==> Fault(es, Alive(recs), r, item, orphan)
  {
    hide AllTold, Reachable, Repeats, Faded, RootBad, Broken;
    if r in recs {
      BadIsFault(es, r, RecOf(orig, r), recs[r], Alive(recs), item, orphan);
    } else {
      Nowhere(es, r, Alive(recs));
    }
  }

  lemma Nowhere(es: seq<Event>, r: nat, alive: set<nat>)
    requires AllTold(es, r, [])
    ensures !Broken(es, alive, r)
  {
    ReachableBoth(es, r, []);
  }
}
