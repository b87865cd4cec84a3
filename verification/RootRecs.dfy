/**
  Root records of the checker: directory items, forward and backward root references
  are matched up, event by event.
 */
module RootRecs {
  import opened Basics

  const FS_TREE: nat := 5

  datatype KeyType = DirItemKey | DirIndexKey | RootRefKey | RootBackrefKey

  datatype RefError = IndexUnmatch | DupRootRef | DupRootBackref | NameTooLong

  /** struct root_backref */
  datatype Backref = Backref(refRoot: nat, dir: nat, name: string, index: nat, foundDirItem: bool, foundDirIndex: bool,
                             foundBackRef: bool, foundForwardRef: bool, reachable: bool, errors: set<RefError>)

  /** struct root_record */
  datatype Rec = Rec(backrefs: seq<Backref>, foundRef: nat)

  function Reachable(bs: seq<Backref>): nat {
    if bs == [] then 0 else Reachable(bs[..|bs| - 1]) + if bs[|bs| - 1].reachable then 1 else 0
  }

  lemma {:induction false} ReachableConcat(a: seq<Backref>, b: seq<Backref>)
    ensures Reachable(a + b) == Reachable(a) + Reachable(b)
  {
    if b == [] {
      assert a + b == a;
    } else {
      ReachableConcat(a, b[..|b| - 1]);
      assert (a + b)[..|a + b| - 1] == a + b[..|b| - 1];
    }
  }

  lemma ReachableUpdate(bs: seq<Backref>, i: nat, b: Backref)
    requires i < |bs|
    ensures Reachable(bs[i := b]) + (if bs[i].reachable then 1 else 0) == Reachable(bs) + (if b.reachable then 1 else 0)
  {
    ReachableConcat(bs[..i] + [bs[i]], bs[i + 1..]);
    ReachableConcat(bs[..i] + [b], bs[i + 1..]);
    assert (bs[..i] + [bs[i]])[..i] == bs[..i] && (bs[..i] + [b])[..i] == bs[..i];
    assert bs == bs[..i] + [bs[i]] + bs[i + 1..];
    assert bs[i := b] == bs[..i] + [b] + bs[i + 1..];
  }

  lemma {:induction false} ReachableSome(bs: seq<Backref>)
    ensures 0 < Reachable(bs) <==> exists i :: 0 <= i < |bs| && bs[i].reachable
  {
    if bs != [] {
      ReachableSome(bs[..|bs| - 1]);
      if i :| 0 <= i < |bs| && bs[i].reachable {
        if i < |bs| - 1 { assert bs[..|bs| - 1][i].reachable; }
      }
    }
  }

  /** A backref counts as reachable once it has both a DIR_ITEM and a ROOT_REF. */
  ghost predicate Consistent(b: Backref) { b.reachable <==> b.foundForwardRef && b.foundDirItem }

  /** add_root_backref on the backref: the index is compared or adopted first. */
  function Note(b: Backref, index: nat, key: KeyType, errors: set<RefError>): (r: Backref)
    ensures Consistent(b) ==> Consistent(r)
    ensures r.refRoot == b.refRoot && r.dir == b.dir && r.name == b.name
    ensures r.foundDirItem == (b.foundDirItem || key.DirItemKey?)
    ensures r.foundForwardRef == (b.foundForwardRef || key.RootRefKey?)
  {
    var b1 := b.(errors := b.errors + errors);
    var b2 := if key.DirItemKey? then b1
              else if b1.foundDirIndex || b1.foundBackRef || b1.foundForwardRef
              then if b1.index != index then b1.(errors := b1.errors + {IndexUnmatch}) else b1
              else b1.(index := index);
    var b3 := match key
      case DirItemKey => b2.(foundDirItem := true)
      case DirIndexKey => b2.(foundDirIndex := true)
      case RootRefKey =>
        b2.(errors := if b2.foundForwardRef then b2.errors + {DupRootRef} else b2.errors, foundForwardRef := true)
      case RootBackrefKey =>
        b2.(errors := if b2.foundBackRef then b2.errors + {DupRootBackref} else b2.errors, foundBackRef := true);
    if b3.foundForwardRef && b3.foundDirItem then b3.(reachable := true) else b3
  }

  /** A DIR_ITEM event for a backref that had been counted already. */
  predicate CountedTwice(b: Backref, key: KeyType) { key.DirItemKey? && b.foundDirItem && b.foundForwardRef }

  /** Does add_root_backref count a reference for this event? */
  predicate Counts(b: Backref, key: KeyType) {
    match key
    case DirItemKey => b.foundForwardRef
    case RootRefKey => !b.foundForwardRef && b.foundDirItem
    case _ => false
  }

  lemma CountsReachable(b: Backref, index: nat, key: KeyType, errors: set<RefError>)
    requires Consistent(b)
    ensures (if Counts(b, key) then 1 else 0) + (if b.reachable then 1 else 0) ==
            (if Note(b, index, key, errors).reachable then 1 else 0) + (if CountedTwice(b, key) then 1 else 0)
  {
  }

  // ---------------------------------------------------------------------------
  // Events

  /** What identifies a backref: the root, and where it is referred to. */
  datatype Id = Id(root: nat, refRoot: nat, dir: nat, name: string)

  /** One call of add_root_backref. */
  datatype Event = Event(root: nat, refRoot: nat, dir: nat, index: nat, name: string, key: KeyType,
                         errors: set<RefError>) {
    function Of(): Id { Id(root, refRoot, dir, name) }
  }

  function IdOf(root: nat, b: Backref): Id { Id(root, b.refRoot, b.dir, b.name) }

  ghost predicate Delivered(es: seq<Event>, id: Id, key: KeyType) {
    exists i :: 0 <= i < |es| && es[i].Of() == id && es[i].key == key
  }

  /** Referred to from both sides: the directory has the name, and so has the root tree. */
  ghost predicate Both(es: seq<Event>, id: Id) { Delivered(es, id, DirItemKey) && Delivered(es, id, RootRefKey) }

  /** Two events for one place that do not go together: a second ROOT_REF or ROOT_BACKREF, or
      different sequence numbers, which a DIR_ITEM does not have. */
  predicate Clash(a: Event, b: Event) {
    || (a.key.RootRefKey? && b.key.RootRefKey?) || (a.key.RootBackrefKey? && b.key.RootBackrefKey?)
    || (!a.key.DirItemKey? && !b.key.DirItemKey? && a.index != b.index)
  }

  /** No event for the place came with an error, and no two of them clash. */
  ghost predicate Fits(es: seq<Event>, id: Id) {
    && (forall i :: 0 <= i < |es| && es[i].Of() == id ==> es[i].errors == {})
    && forall i, j :: 0 <= i < j < |es| && es[i].Of() == id && es[j].Of() == id ==> !Clash(es[i], es[j])
  }

  /** What the marks of a backref tell about the events for its place. */
  ghost predicate Marked(es: seq<Event>, id: Id, b: Backref) {
    && (b.foundDirIndex <==> Delivered(es, id, DirIndexKey)) && (b.foundBackRef <==> Delivered(es, id, RootBackrefKey))
    && (b.errors == {} <==> Fits(es, id)) && (b.errors == {} ==> OneIndex(es, id, b.index))
  }

  ghost predicate OneIndex(es: seq<Event>, id: Id, index: nat) {
    forall i :: 0 <= i < |es| && es[i].Of() == id && !es[i].key.DirItemKey? ==> es[i].index == index
  }

  /** The last event is a DIR_ITEM for a backref that had both already. */
  ghost predicate Late(es: seq<Event>, e: Event) { e.key.DirItemKey? && Both(es, e.Of()) }

  /** How many such events there were for a root. */
  ghost function Repeats(es: seq<Event>, root: nat): nat {
    if es == [] then 0
    else
      var n := |es| - 1;
      Repeats(es[..n], root) + if es[n].root == root && Late(es[..n], es[n]) then 1 else 0
  }

  /** The backrefs of a root that were delivered from both sides. */
  ghost function BothIds(es: seq<Event>, root: nat): set<Id> {
    set i | 0 <= i < |es| && es[i].root == root && Both(es, es[i].Of()) :: es[i].Of()
  }

  lemma DeliveredMore(es: seq<Event>, e: Event, id: Id, key: KeyType)
    ensures Delivered(es + [e], id, key) <==> Delivered(es, id, key) || (e.Of() == id && e.key == key)
  {
    var more := es + [e];
    assert more[|es|] == e;
    if Delivered(es, id, key) {
      var i :| 0 <= i < |es| && es[i].Of() == id && es[i].key == key;
      assert more[i] == es[i];
    }
  }

  lemma FitsMore(es: seq<Event>, e: Event, id: Id)
    ensures Fits(es + [e], id) <==> Fits(es, id) && (e.Of() == id ==> e.errors == {} && GoesWith(es, e))
    ensures forall x: nat :: OneIndex(es + [e], id, x) <==>
      OneIndex(es, id, x) && (e.Of() == id && !e.key.DirItemKey? ==> e.index == x)
  {
    hide Clash;
    var more, n := es + [e], |es|;
    assert more[n] == e && forall i :: 0 <= i < n ==> more[i] == es[i];
    forall x: nat
      ensures OneIndex(more, id, x) <==> OneIndex(es, id, x) && (e.Of() == id && !e.key.DirItemKey? ==> e.index == x)
    {
      if OneIndex(more, id, x) { assert more[n].Of() == e.Of(); }
    }
  }

  /** The event clashes with none before it. */
  ghost predicate GoesWith(es: seq<Event>, e: Event) {
    forall i :: 0 <= i < |es| && es[i].Of() == e.Of() ==> !Clash(es[i], e)
  }

  lemma RepeatsMore(es: seq<Event>, e: Event, root: nat)
    ensures Repeats(es + [e], root) == Repeats(es, root) + if e.root == root && Late(es, e) then 1 else 0
  {
    assert (es + [e])[..|es|] == es;
  }

  // ---------------------------------------------------------------------------
  // One event on the records

  predicate Same(b: Backref, refRoot: nat, dir: nat, name: string) {
    b.refRoot == refRoot && b.dir == dir && b.name == name
  }

  /** get_root_backref: the first backref of that place and name from `i` on, or the end. */
  function Located(bs: seq<Backref>, refRoot: nat, dir: nat, name: string, i: nat): (k: nat)
    requires i <= |bs|
    ensures i <= k <= |bs| && (k < |bs| ==> Same(bs[k], refRoot, dir, name))
    ensures forall j :: i <= j < k ==> !Same(bs[j], refRoot, dir, name)
    decreases |bs| - i
  {
    if i < |bs| && !Same(bs[i], refRoot, dir, name) then Located(bs, refRoot, dir, name, i + 1) else i
  }

  function NewBackref(e: Event): Backref {
    Backref(e.refRoot, e.dir, e.name, e.index, false, false, false, false, false, {})
  }

  function WithBackref(bs: seq<Backref>, e: Event): (r: seq<Backref>)
    ensures var k := Located(bs, e.refRoot, e.dir, e.name, 0); k < |r| && Same(r[k], e.refRoot, e.dir, e.name)
  {
    if Located(bs, e.refRoot, e.dir, e.name, 0) < |bs| then bs else bs + [NewBackref(e)]
  }

  function RecOf(recs: map<nat, Rec>, root: nat): Rec { if root in recs then recs[root] else Rec([], 0) }

  /** add_root_backref: the located backref takes note, and the count grows when it should. */
  function NotedRec(rec: Rec, e: Event): Rec {
    var bs, k := WithBackref(rec.backrefs, e), Located(rec.backrefs, e.refRoot, e.dir, e.name, 0);
    Rec(bs[k := Note(bs[k], e.index, e.key, e.errors)], if Counts(bs[k], e.key) then rec.foundRef + 1 else rec.foundRef)
  }

  /** The backref says of itself what was delivered for it. */
  ghost predicate Told(es: seq<Event>, root: nat, b: Backref) {
    && Consistent(b) && (b.foundDirItem <==> Delivered(es, IdOf(root, b), DirItemKey))
    && (b.foundForwardRef <==> Delivered(es, IdOf(root, b), RootRefKey)) && Marked(es, IdOf(root, b), b)
  }

  /** The backrefs of a root are those delivered, each once. */
  ghost predicate AllTold(es: seq<Event>, root: nat, bs: seq<Backref>) {
    && (forall i :: 0 <= i < |bs| ==> Told(es, root, bs[i]))
    && (forall i, j :: 0 <= i < j < |bs| ==> IdOf(root, bs[i]) != IdOf(root, bs[j]))
    && (forall i :: 0 <= i < |es| && es[i].root == root ==> Has(bs, root, es[i].Of()))
  }

  ghost predicate Has(bs: seq<Backref>, root: nat, id: Id) { exists k :: 0 <= k < |bs| && IdOf(root, bs[k]) == id }

  lemma MarkedOther(es: seq<Event>, e: Event, id: Id, b: Backref)
    requires Marked(es, id, b) && id != e.Of()
    ensures Marked(es + [e], id, b)
  {
    hide Delivered, Fits, OneIndex;
    DeliveredMore(es, e, id, DirIndexKey);
    DeliveredMore(es, e, id, RootBackrefKey);
    FitsMore(es, e, id);
  }

  /** Any event with a sequence number so far? */
  predicate Numbered(b: Backref) { b.foundDirIndex || b.foundBackRef || b.foundForwardRef }

  /** What add_root_backref leaves of the marks. */
  lemma NoteMarks(b: Backref, index: nat, key: KeyType, errors: set<RefError>)
    ensures var r := Note(b, index, key, errors);
      && r.foundDirIndex == (b.foundDirIndex || key.DirIndexKey?)
      && r.foundBackRef == (b.foundBackRef || key.RootBackrefKey?)
      && r.index == (if key.DirItemKey? || Numbered(b) then b.index else index)
      && (r.errors == {} <==>
            && b.errors == {} && errors == {} && (key.RootRefKey? ==> !b.foundForwardRef)
            && (key.RootBackrefKey? ==> !b.foundBackRef) && (!key.DirItemKey? && Numbered(b) ==> b.index == index))
  {}

  ghost predicate NumberedIn(es: seq<Event>, id: Id) {
    exists i :: 0 <= i < |es| && es[i].Of() == id && !es[i].key.DirItemKey?
  }

  lemma NumberedSame(es: seq<Event>, id: Id, b: Backref)
    requires b.foundDirIndex <==> Delivered(es, id, DirIndexKey)
    requires b.foundBackRef <==> Delivered(es, id, RootBackrefKey)
    requires b.foundForwardRef <==> Delivered(es, id, RootRefKey)
    ensures Numbered(b) <==> NumberedIn(es, id)
  {}

  /** A backref without error shows whether the next event goes with those before. */
  lemma GoesExact(es: seq<Event>, e: Event, index: nat)
    requires OneIndex(es, e.Of(), index)
    ensures GoesWith(es, e) <==>
      && (e.key.RootRefKey? ==> !Delivered(es, e.Of(), RootRefKey))
      && (e.key.RootBackrefKey? ==> !Delivered(es, e.Of(), RootBackrefKey))
      && (!e.key.DirItemKey? && NumberedIn(es, e.Of()) ==> e.index == index)
  {}

  lemma NoteMarked(es: seq<Event>, e: Event, b: Backref)
    requires Marked(es, e.Of(), b) && (b.foundForwardRef <==> Delivered(es, e.Of(), RootRefKey))
    ensures Marked(es + [e], e.Of(), Note(b, e.index, e.key, e.errors))
  {
    var id := e.Of();
    NumberedSame(es, id, b);
    if b.errors == {} { GoesExact(es, e, b.index); }
    assert !NumberedIn(es, id) ==> OneIndex(es, id, e.index);
    hide Fits, GoesWith, OneIndex, Note, Delivered, NumberedIn, Numbered;
    DeliveredMore(es, e, id, DirIndexKey);
    DeliveredMore(es, e, id, RootBackrefKey);
    FitsMore(es, e, id);
    NoteMarks(b, e.index, e.key, e.errors);
  }

  lemma ToldOther(es: seq<Event>, e: Event, root: nat, b: Backref)
    requires Told(es, root, b) && IdOf(root, b) != e.Of()
    ensures Told(es + [e], root, b)
  {
    hide Marked;
    MarkedOther(es, e, IdOf(root, b), b);
    DeliveredMore(es, e, IdOf(root, b), DirItemKey);
    DeliveredMore(es, e, IdOf(root, b), RootRefKey);
  }

  lemma ToldNote(es: seq<Event>, e: Event, b: Backref)
    requires Told(es, e.root, b) && IdOf(e.root, b) == e.Of()
    ensures Told(es + [e], e.root, Note(b, e.index, e.key, e.errors))
    ensures CountedTwice(b, e.key) <==> Late(es, e)
  {
    hide Marked;
    NoteMarked(es, e, b);
    DeliveredMore(es, e, e.Of(), DirItemKey);
    DeliveredMore(es, e, e.Of(), RootRefKey);
  }

  lemma NewTold(es: seq<Event>, e: Event, bs: seq<Backref>)
    requires AllTold(es, e.root, bs) && Located(bs, e.refRoot, e.dir, e.name, 0) == |bs|
    ensures Told(es, e.root, NewBackref(e))
  {
    forall i | 0 <= i < |es| && es[i].root == e.root ensures es[i].Of() != e.Of() {
      assert Has(bs, e.root, es[i].Of());
    }
  }

  /** A backref that is looked for and not there: nothing was delivered for it. */
  lemma ToldNew(es: seq<Event>, e: Event, bs: seq<Backref>)
    requires AllTold(es, e.root, bs) && Located(bs, e.refRoot, e.dir, e.name, 0) == |bs|
    ensures AllTold(es, e.root, bs + [NewBackref(e)])
  {
    hide Told;
    var more := bs + [NewBackref(e)];
    NewTold(es, e, bs);
    assert forall i :: 0 <= i < |bs| ==> more[i] == bs[i] && IdOf(e.root, bs[i]) != e.Of();
    forall i | 0 <= i < |es| && es[i].root == e.root ensures es[i].Of() != e.Of() && Has(more, e.root, es[i].Of()) {
      assert Has(bs, e.root, es[i].Of());
      var k :| 0 <= k < |bs| && IdOf(e.root, bs[k]) == es[i].Of();
      assert more[k] == bs[k];
    }
  }

  /** The whole list after one event. */
  lemma NotedTold(es: seq<Event>, e: Event, rec: Rec)
    requires AllTold(es, e.root, rec.backrefs)
    ensures AllTold(es + [e], e.root, NotedRec(rec, e).backrefs)
    ensures NotedRec(rec, e).foundRef + Reachable(rec.backrefs) ==
      rec.foundRef + Reachable(NotedRec(rec, e).backrefs) + if Late(es, e) then 1 else 0
  {
    hide Note, Counts, CountedTwice;
    var bs, k := WithBackref(rec.backrefs, e), Located(rec.backrefs, e.refRoot, e.dir, e.name, 0);
    if k == |rec.backrefs| {
      ToldNew(es, e, rec.backrefs);
      NewUnreachable(rec.backrefs, e);
    }
    ToldNote(es, e, bs[k]);
    ToldUpdate(es, e, bs, k);
    CountsReachable(bs[k], e.index, e.key, e.errors);
    ReachableUpdate(bs, k, Note(bs[k], e.index, e.key, e.errors));
  }

  lemma NewUnreachable(bs: seq<Backref>, e: Event)
    ensures Reachable(bs + [NewBackref(e)]) == Reachable(bs)
  {
    assert (bs + [NewBackref(e)])[..|bs|] == bs;
  }

  lemma ToldUpdate(es: seq<Event>, e: Event, bs: seq<Backref>, k: nat)
    requires AllTold(es, e.root, bs) && k < |bs| && IdOf(e.root, bs[k]) == e.Of()
    ensures AllTold(es + [e], e.root, bs[k := Note(bs[k], e.index, e.key, e.errors)])
  {
    hide Note;
    var now, more := bs[k := Note(bs[k], e.index, e.key, e.errors)], es + [e];
    assert forall i :: 0 <= i < |bs| ==> IdOf(e.root, now[i]) == IdOf(e.root, bs[i]);
    forall i | 0 <= i < |now| ensures Told(more, e.root, now[i]) {
      if i == k { ToldNote(es, e, bs[k]); } else { ToldOther(es, e, e.root, bs[i]); }
    }
    forall i | 0 <= i < |more| && more[i].root == e.root ensures Has(now, e.root, more[i].Of()) {
      if i == |es| {
        assert IdOf(e.root, now[k]) == more[i].Of();
      } else {
        assert more[i] == es[i] && Has(bs, e.root, es[i].Of());
        var j :| 0 <= j < |bs| && IdOf(e.root, bs[j]) == es[i].Of();
        assert IdOf(e.root, now[j]) == more[i].Of();
      }
    }
  }

  /** Events for one root leave the others' backrefs told. */
  lemma OthersTold(es: seq<Event>, e: Event, root: nat, bs: seq<Backref>)
    requires AllTold(es, root, bs) && root != e.root
    ensures AllTold(es + [e], root, bs)
  {
    var more := es + [e];
    forall i | 0 <= i < |bs| ensures Told(more, root, bs[i]) { ToldOther(es, e, root, bs[i]); }
    forall i | 0 <= i < |more| && more[i].root == root ensures Has(bs, root, more[i].Of()) {
      assert more[i] == es[i];
    }
  }

  // ---------------------------------------------------------------------------
  // Counting backrefs is counting what was delivered

  ghost function ReachableIds(root: nat, bs: seq<Backref>): set<Id> {
    set i | 0 <= i < |bs| && bs[i].reachable :: IdOf(root, bs[i])
  }

  lemma {:induction false} ReachableSize(root: nat, bs: seq<Backref>)
    requires forall i, j :: 0 <= i < j < |bs| ==> IdOf(root, bs[i]) != IdOf(root, bs[j])
    ensures |ReachableIds(root, bs)| == Reachable(bs)
  {
    if bs != [] {
      var n := |bs| - 1;
      ReachableSize(root, bs[..n]);
      ReachableIdsLast(root, bs);
    }
  }

  lemma ReachableIdsLast(root: nat, bs: seq<Backref>)
    requires bs != [] && forall i, j :: 0 <= i < j < |bs| ==> IdOf(root, bs[i]) != IdOf(root, bs[j])
    ensures var n := |bs| - 1;
      var less := ReachableIds(root, bs[..n]);
      IdOf(root, bs[n]) !in less && ReachableIds(root, bs) == less + if bs[n].reachable then {IdOf(root, bs[n])} else {}
  {
    hide IdOf;
    var n, front := |bs| - 1, bs[..|bs| - 1];
    assert forall i :: 0 <= i < n ==> front[i] == bs[i];
    forall id
      ensures id in ReachableIds(root, bs) <==>
        id in ReachableIds(root, front) || (bs[n].reachable && id == IdOf(root, bs[n]))
    {
      if id in ReachableIds(root, bs) {
        var i :| 0 <= i < |bs| && bs[i].reachable && IdOf(root, bs[i]) == id;
        if i < n { assert front[i].reachable; }
      }
      if id in ReachableIds(root, front) {
        var i :| 0 <= i < n && front[i].reachable && IdOf(root, front[i]) == id;
        assert bs[i].reachable;
      }
    }
  }

  lemma ReachableBoth(es: seq<Event>, root: nat, bs: seq<Backref>)
    requires AllTold(es, root, bs)
    ensures ReachableIds(root, bs) == BothIds(es, root) && Reachable(bs) == |BothIds(es, root)|
  {
    forall id ensures id in ReachableIds(root, bs) <==> id in BothIds(es, root) {
      if id in ReachableIds(root, bs) {
        var i :| 0 <= i < |bs| && bs[i].reachable && IdOf(root, bs[i]) == id;
        assert Told(es, root, bs[i]) && Both(es, id);
        var k :| 0 <= k < |es| && es[k].Of() == id && es[k].key == DirItemKey;
        assert es[k].root == root && es[k].Of() in BothIds(es, root);
      }
      if id in BothIds(es, root) {
        var k :| 0 <= k < |es| && es[k].root == root && Both(es, es[k].Of()) && es[k].Of() == id;
        assert Has(bs, root, id);
        var i :| 0 <= i < |bs| && IdOf(root, bs[i]) == id;
        assert Told(es, root, bs[i]) && bs[i].reachable;
      }
    }
    ReachableSize(root, bs);
  }

  lemma {:induction false} RepeatsSome(es: seq<Event>, root: nat)
    ensures 0 < Repeats(es, root) <==> exists i :: 0 <= i < |es| && Late(es[..i], es[i]) && es[i].root == root
  {
    hide Late;
    if es != [] {
      var n := |es| - 1;
      var less := es[..n];
      RepeatsSome(less, root);
      assert forall i :: 0 <= i < n ==> less[..i] == es[..i] && less[i] == es[i];
      if i :| 0 <= i < n && Late(less[..i], less[i]) && less[i].root == root {
        assert Late(es[..i], es[i]);
      }
    }
  }

  /** What the record of a root says after the events `es`. */
  ghost predicate RootOk(es: seq<Event>, root: nat, rec: Rec) {
    AllTold(es, root, rec.backrefs) && rec.foundRef == Reachable(rec.backrefs) + Repeats(es, root)
  }

  lemma RootStep(es: seq<Event>, e: Event, root: nat, rec: Rec)
    requires RootOk(es, root, rec)
    ensures RootOk(es + [e], root, if root == e.root then NotedRec(rec, e) else rec)
  {
    hide NotedRec, AllTold;
    RepeatsMore(es, e, root);
    if root == e.root { NotedTold(es, e, rec); } else { OthersTold(es, e, root, rec.backrefs); }
  }

  lemma CountIs(es: seq<Event>, root: nat, rec: Rec)
    requires RootOk(es, root, rec)
    ensures rec.foundRef == |BothIds(es, root)| + Repeats(es, root)
  {
    ReachableBoth(es, root, rec.backrefs);
  }
}
