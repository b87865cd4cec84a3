/**
  The other direction of the extent check: events that fit together are accepted in any
  order.  Dropping a record early does no harm, because a record can be finished only when
  everything about its extent has been delivered.
 */
module ExtentHistory {
  import opened Basics
  import opened ExtentRefs

  datatype TreeKey = TreeKey(full: bool, id: nat)

  /** What an event is about, within its extent. */
  datatype Kind =
    | Item
    | Pointer(tree: TreeKey)
    | TreeRef(tree: TreeKey)
    | DataRef(data: DataKey)
    | FileRef(data: DataKey)
    | Checked

  function TreeOf(parent: nat, root: nat): TreeKey { TreeKey(0 < parent, if 0 < parent then parent else root) }

  function KindOf(e: Event): Kind {
    match e
    case ExtentItem(_, _, _) => Item
    case TreePointer(_, _, parent, root) => Pointer(TreeOf(parent, root))
    case TreeRefItem(_, parent, root) => TreeRef(TreeOf(parent, root))
    case DataRefItem(_, parent, root, owner, offset, _, _) => DataRef(KeyOf(parent, root, owner, offset))
    case FileReference(_, parent, root, owner, offset, _) => FileRef(KeyOf(parent, root, owner, offset))
    case BlockChecked(_, _, _) => Checked
  }

  /** How often that was delivered for extent `s`. */
  function Times(es: seq<Event>, s: nat, k: Kind): nat {
    if es == [] then 0
    else
      var e := es[|es| - 1];
      Times(es[..|es| - 1], s, k) + if e.start == s && KindOf(e) == k then 1 else 0
  }

  ghost predicate Mentions(es: seq<Event>, s: nat) { exists i :: 0 <= i < |es| && es[i].start == s }

  /** The events of an extent agree with one extent item of the given size. */
  ghost predicate Fits(es: seq<Event>, s: nat, size: nat) {
    && Times(es, s, Item) == 1 && 0 < RefTotal(es, s)
    && (forall t :: Times(es, s, Pointer(t)) == Times(es, s, TreeRef(t)) <= 1)
    && (forall d :: Times(es, s, DataRef(d)) == (if 0 < Times(es, s, FileRef(d)) then 1 else 0))
    && (forall i :: 0 <= i < |es| && es[i].start == s ==> EventFits(es, s, size, i))
  }

  /** One event of the extent, against all of them. */
  ghost predicate EventFits(es: seq<Event>, s: nat, size: nat, i: nat)
    requires i < |es|
  {
    match es[i]
    case ExtentItem(_, n, count) => n == size && count == RefTotal(es, s)
    case TreePointer(_, n, _, _) => n == size && Times(es, s, Checked) == 1 && NoData(es, s)
    case TreeRefItem(_, _, _) => true
    case DataRefItem(_, parent, root, owner, offset, count, n) =>
      n == size && count == Times(es, s, FileRef(KeyOf(parent, root, owner, offset)))
    case FileReference(_, _, _, _, _, n) => n == size && Times(es, s, Checked) == 0
    case BlockChecked(_, contentOk, ownerOk) => contentOk && ownerOk && Mentions(es[..i], s)
  }

  ghost predicate NoData(es: seq<Event>, s: nat) { forall d :: Times(es, s, FileRef(d)) == 0 }

  /** Every extent that is mentioned fits together. */
  ghost predicate Consistent(es: seq<Event>) { forall s: nat :: Mentions(es, s) ==> exists size :: Fits(es, s, size) }

  // ---------------------------------------------------------------------------
  // Counting

  lemma TimesNext(es: seq<Event>, n: nat, s: nat, k: Kind)
    requires n < |es|
    ensures Times(es[..n + 1], s, k) == Times(es[..n], s, k) + if es[n].start == s && KindOf(es[n]) == k then 1 else 0
  {
    assert es[..n + 1][..n] == es[..n];
  }

  lemma {:induction false} TimesUpTo(es: seq<Event>, n: nat, m: nat, s: nat, k: Kind)
    requires n <= m <= |es|
    ensures Times(es[..n], s, k) <= Times(es[..m], s, k)
    ensures (exists i :: n <= i < m && es[i].start == s && KindOf(es[i]) == k) ==>
      Times(es[..n], s, k) < Times(es[..m], s, k)
    decreases m
  {
    if n < m {
      TimesUpTo(es, n, m - 1, s, k);
      TimesNext(es, m - 1, s, k);
    }
  }

  lemma TimesAll(es: seq<Event>, n: nat, s: nat, k: Kind)
    requires n <= |es|
    ensures Times(es[..n], s, k) <= Times(es, s, k)
    ensures (exists i :: n <= i < |es| && es[i].start == s && KindOf(es[i]) == k) ==>
      Times(es[..n], s, k) < Times(es, s, k)
  {
    TimesUpTo(es, n, |es|, s, k);
    assert es[..|es|] == es;
  }

  lemma {:induction false} TimesSome(es: seq<Event>, s: nat, k: Kind)
    ensures 0 < Times(es, s, k) <==> exists i :: 0 <= i < |es| && es[i].start == s && KindOf(es[i]) == k
  {
    if es != [] {
      var n := |es| - 1;
      TimesSome(es[..n], s, k);
      assert forall i :: 0 <= i < n ==> es[..n][i] == es[i];
    }
  }

  lemma {:induction false} RefsUpTo(es: seq<Event>, n: nat, m: nat, s: nat)
    requires n <= m <= |es|
    ensures RefTotal(es[..n], s) <= RefTotal(es[..m], s)
    ensures (exists i :: n <= i < m && RefCount(es[i], s) == 1) ==> RefTotal(es[..n], s) < RefTotal(es[..m], s)
    decreases m
  {
    if n < m {
      RefsUpTo(es, n, m - 1, s);
      assert es[..m][..m - 1] == es[..m - 1];
    }
  }

  // ---------------------------------------------------------------------------
  // What a record knows

  function TreeKeyOf(t: TreeBack): TreeKey { TreeKey(t.full, t.id) }

  function DataKeyOf(d: DataBack): DataKey { DataKey(d.full, d.id, d.owner, d.offset) }

  function FoundTrees(ts: seq<TreeBack>): nat {
    if ts == [] then 0 else FoundTrees(ts[..|ts| - 1]) + if ts[|ts| - 1].found then 1 else 0
  }

  ghost predicate TreeTold(p: seq<Event>, s: nat, t: TreeBack) {
    && (t.inExtentTree <==> 0 < Times(p, s, TreeRef(TreeKeyOf(t))))
    && (t.found <==> 0 < Times(p, s, Pointer(TreeKeyOf(t))))
    && (t.inExtentTree || t.found)
  }

  ghost predicate HasTree(ts: seq<TreeBack>, t: TreeKey) { exists i :: 0 <= i < |ts| && TreeKeyOf(ts[i]) == t }

  ghost predicate TreesTold(p: seq<Event>, s: nat, ts: seq<TreeBack>) {
    && (forall i :: 0 <= i < |ts| ==> TreeTold(p, s, ts[i]))
    && (forall i, j :: 0 <= i < j < |ts| ==> TreeKeyOf(ts[i]) != TreeKeyOf(ts[j]))
    && (forall t :: 0 < Times(p, s, Pointer(t)) || 0 < Times(p, s, TreeRef(t)) ==> HasTree(ts, t))
  }

  ghost predicate DataTold(all: seq<Event>, p: seq<Event>, s: nat, size: nat, d: DataBack) {
    && (d.full ==> d.owner == 0 && d.offset == 0) && (d.inExtentTree || d.found)
    && (d.inExtentTree <==> 0 < Times(p, s, DataRef(DataKeyOf(d))))
    && (d.inExtentTree ==> d.numRefs == Times(all, s, FileRef(DataKeyOf(d))))
    && d.foundRef == Times(p, s, FileRef(DataKeyOf(d))) && (d.found <==> 0 < d.foundRef)
    && (d.found ==> d.bytes == size && d.diskBytenr == s)
  }

  ghost predicate HasData(ds: seq<DataBack>, d: DataKey) { exists i :: 0 <= i < |ds| && DataKeyOf(ds[i]) == d }

  ghost predicate DatasTold(all: seq<Event>, p: seq<Event>, s: nat, size: nat, ds: seq<DataBack>) {
    && (forall i :: 0 <= i < |ds| ==> DataTold(all, p, s, size, ds[i]))
    && (forall i, j :: 0 <= i < j < |ds| ==> DataKeyOf(ds[i]) != DataKeyOf(ds[j]))
    && (forall d :: 0 < Times(p, s, FileRef(d)) || 0 < Times(p, s, DataRef(d)) ==> HasData(ds, d))
  }

  /** The counters of the record. */
  ghost predicate NumbersTold(p: seq<Event>, s: nat, size: nat, r: Rec) {
    && r.dups == 0 && (r.foundRec <==> 0 < Times(p, s, Item)) && (r.foundRec ==> r.nr == size)
    && r.itemRefs == ItemTotal(p, s) && r.refs == RefTotal(p, s)
    && FoundTrees(r.trees) + FoundSum(r.datas) == RefTotal(p, s)
  }

  ghost predicate SomeFile(p: seq<Event>, s: nat) { exists d :: 0 < Times(p, s, FileRef(d)) }

  ghost predicate ChecksTold(p: seq<Event>, s: nat, r: Rec) {
    && (0 < Times(p, s, Checked) || SomeFile(p, s) ==> r.ownerChecked)
    && (r.contentChecked ==> 0 < Times(p, s, Checked) || SomeFile(p, s))
  }

  ghost predicate Told(all: seq<Event>, p: seq<Event>, s: nat, size: nat, r: Rec) {
    && NumbersTold(p, s, size, r) && TreesTold(p, s, r.trees) && DatasTold(all, p, s, size, r.datas)
    && ChecksTold(p, s, r)
  }

  // ---------------------------------------------------------------------------
  // A finished record has heard everything

  /** With all trees seen from both sides, the found ones are all of them. */
  lemma {:induction false} AllFound(ts: seq<TreeBack>)
    requires forall i :: 0 <= i < |ts| ==> ts[i].found
    ensures FoundTrees(ts) == |ts|
  {
    if ts != [] { AllFound(ts[..|ts| - 1]); }
  }

  /** What is still to come for the extent after the first `n` events. */
  ghost predicate Comes(es: seq<Event>, n: nat, s: nat, k: Kind) {
    exists i :: n <= i < |es| && es[i].start == s && KindOf(es[i]) == k
  }

  lemma NoMoreRefs(es: seq<Event>, n: nat, s: nat)
    requires n <= |es| && RefTotal(es[..n], s) == RefTotal(es, s)
    ensures forall t :: !Comes(es, n, s, Pointer(t))
    ensures forall d :: !Comes(es, n, s, FileRef(d))
  {
    RefsUpTo(es, n, |es|, s);
    assert es[..|es|] == es;
    assert forall i :: 0 <= i < |es| && es[i].start == s && (KindOf(es[i]).Pointer? || KindOf(es[i]).FileRef?) ==>
      RefCount(es[i], s) == 1;
  }

  lemma {:induction false} TimesRest(es: seq<Event>, n: nat, m: nat, s: nat, k: Kind)
    requires n <= m <= |es| && !Comes(es, n, s, k)
    ensures Times(es[..n], s, k) == Times(es[..m], s, k)
    decreases m
  {
    if n < m {
      TimesRest(es, n, m - 1, s, k);
      TimesNext(es, m - 1, s, k);
    }
  }

  lemma AllHeard(es: seq<Event>, n: nat, s: nat, k: Kind)
    requires n <= |es| && !Comes(es, n, s, k)
    ensures Times(es[..n], s, k) == Times(es, s, k)
  {
    TimesRest(es, n, |es|, s, k);
    assert es[..|es|] == es;
  }

  /** The one extent item says how many references there are. */
  lemma {:induction false} ItemSays(all: seq<Event>, n: nat, s: nat, size: nat)
    requires n <= |all| && Fits(all, s, size)
    ensures ItemTotal(all[..n], s) == if 0 < Times(all[..n], s, Item) then RefTotal(all, s) else 0
    ensures Times(all[..n], s, Item) <= 1
    decreases n
  {
    TimesAll(all, n, s, Item);
    if n > 0 {
      ItemSays(all, n - 1, s, size);
      TimesNext(all, n - 1, s, Item);
      assert all[..n][..n - 1] == all[..n - 1];
      if all[n - 1].start == s { assert EventFits(all, s, size, n - 1); }
    }
  }

  /** A tree block is checked once, and a data extent never. */
  lemma CheckedOnce(all: seq<Event>, s: nat, size: nat)
    requires Fits(all, s, size)
    ensures Times(all, s, Checked) <= 1 && (SomeFile(all, s) ==> Times(all, s, Checked) == 0)
  {
    if SomeFile(all, s) {
      var d :| 0 < Times(all, s, FileRef(d));
      TimesSome(all, s, FileRef(d));
      var i :| 0 <= i < |all| && all[i].start == s && KindOf(all[i]) == FileRef(d);
      assert EventFits(all, s, size, i);
    } else {
      var i := SomeRef(all, s);
      assert EventFits(all, s, size, i);
    }
  }

  lemma {:induction false} SomeRef(es: seq<Event>, s: nat) returns (i: nat)
    requires 0 < RefTotal(es, s)
    ensures i < |es| && RefCount(es[i], s) == 1
  {
    var n := |es| - 1;
    if RefCount(es[n], s) == 1 {
      i := n;
    } else {
      i := SomeRef(es[..n], s);
    }
  }

  /** A finished record: nothing about the extent is still to come. */
  lemma FinishedAll(all: seq<Event>, n: nat, s: nat, size: nat, r: Rec, k: Kind)
    requires n <= |all| && Fits(all, s, size) && Told(all, all[..n], s, size, r) && Finished(s, r)
    ensures !Comes(all, n, s, k)
  {
    hide Fits, TreesTold, DatasTold;
    ItemSays(all, n, s, size);
    assert RefTotal(all[..n], s) == RefTotal(all, s);
    NoMoreRefs(all, n, s);
    match k
    case Item => TimesAll(all, n, s, Item); FitsParts(all, s, size);
    case Pointer(t) =>
    case FileRef(d) =>
    case TreeRef(t) => NoMoreTreeRefs(all, n, s, size, r, t);
    case DataRef(d) => NoMoreDataRefs(all, n, s, size, r, d);
    case Checked =>
      CheckedOnce(all, s, size);
      TimesAll(all, n, s, Checked);
      if SomeFile(all[..n], s) {
        var d :| 0 < Times(all[..n], s, FileRef(d));
        TimesAll(all, n, s, FileRef(d));
      }
  }

  lemma FitsParts(all: seq<Event>, s: nat, size: nat)
    requires Fits(all, s, size)
    ensures Times(all, s, Item) == 1 && 0 < RefTotal(all, s)
  {}

  lemma NoMoreTreeRefs(all: seq<Event>, n: nat, s: nat, size: nat, r: Rec, t: TreeKey)
    requires n <= |all| && Fits(all, s, size) && TreesTold(all[..n], s, r.trees) && BackpointersOk(s, r)
    requires !Comes(all, n, s, Pointer(t))
    ensures !Comes(all, n, s, TreeRef(t))
  {
    AllHeard(all, n, s, Pointer(t));
    TimesAll(all, n, s, TreeRef(t));
    if 0 < Times(all[..n], s, Pointer(t)) {
      assert HasTree(r.trees, t);
      var i :| 0 <= i < |r.trees| && TreeKeyOf(r.trees[i]) == t;
      assert TreeBackOk(r.trees[i]) && TreeTold(all[..n], s, r.trees[i]);
    }
  }

  lemma NoMoreDataRefs(all: seq<Event>, n: nat, s: nat, size: nat, r: Rec, d: DataKey)
    requires n <= |all| && Fits(all, s, size) && DatasTold(all, all[..n], s, size, r.datas) && BackpointersOk(s, r)
    requires !Comes(all, n, s, FileRef(d))
    ensures !Comes(all, n, s, DataRef(d))
  {
    AllHeard(all, n, s, FileRef(d));
    TimesAll(all, n, s, DataRef(d));
    if 0 < Times(all[..n], s, FileRef(d)) {
      assert HasData(r.datas, d);
      var i :| 0 <= i < |r.datas| && DataKeyOf(r.datas[i]) == d;
      assert DataBackOk(s, r.nr, r.datas[i]) && DataTold(all, all[..n], s, size, r.datas[i]);
    }
  }

  /** At the end, a record that is still there is clean. */
  lemma AllClean(all: seq<Event>, s: nat, size: nat, r: Rec)
    requires Fits(all, s, size) && Told(all, all, s, size, r)
    ensures Clean(s, r)
  {
    assert all[..|all|] == all;
    ItemSays(all, |all|, s, size);
    forall i | 0 <= i < |r.trees| ensures TreeBackOk(r.trees[i]) { TreeFull(all, s, size, r, i); }
    AllFound(r.trees);
    forall i | 0 <= i < |r.datas| ensures DataBackOk(s, r.nr, r.datas[i]) { DataFull(all, s, size, r, i); }
    var i := SomeRef(all, s);
    assert EventFits(all, s, size, i);
    if all[i].FileReference? {
      var d := KindOf(all[i]).data;
      TimesSome(all, s, FileRef(d));
    }
  }

  /** Every tree back reference came from one of the two sides, and then from both. */
  lemma TreeFull(all: seq<Event>, s: nat, size: nat, r: Rec, i: nat)
    requires Fits(all, s, size) && Told(all, all, s, size, r) && i < |r.trees|
    ensures TreeBackOk(r.trees[i])
  {
    hide NumbersTold, DatasTold, ChecksTold;
    var t := TreeKeyOf(r.trees[i]);
    assert TreeTold(all, s, r.trees[i]);
    assert Times(all, s, Pointer(t)) == Times(all, s, TreeRef(t));
  }

  lemma DataFull(all: seq<Event>, s: nat, size: nat, r: Rec, i: nat)
    requires Fits(all, s, size) && Told(all, all, s, size, r) && i < |r.datas|
    ensures DataBackOk(s, r.nr, r.datas[i])
  {
    hide TreesTold, ChecksTold;
    var d := DataKeyOf(r.datas[i]);
    assert DataTold(all, all, s, size, r.datas[i]);
    assert Times(all, s, DataRef(d)) == if 0 < Times(all, s, FileRef(d)) then 1 else 0;
  }

  // ---------------------------------------------------------------------------
  // One event more

  /** The last event of the first `n + 1`. */
  ghost predicate Next(all: seq<Event>, n: nat, s: nat) { n < |all| && all[n].start == s }

  lemma TotalsNext(all: seq<Event>, n: nat, s: nat)
    requires Next(all, n, s)
    ensures RefTotal(all[..n + 1], s) == RefTotal(all[..n], s) + RefCount(all[n], s)
    ensures ItemTotal(all[..n + 1], s) == ItemTotal(all[..n], s) + ItemCount(all[n], s)
  {
    assert all[..n + 1][..n] == all[..n];
  }

  /** Events of other kinds do not change what is known of the trees. */
  lemma TreesSame(all: seq<Event>, n: nat, s: nat, ts: seq<TreeBack>)
    requires Next(all, n, s) && TreesTold(all[..n], s, ts) && !KindOf(all[n]).Pointer? && !KindOf(all[n]).TreeRef?
    ensures TreesTold(all[..n + 1], s, ts)
  {
    hide Times;
    forall t ensures Times(all[..n + 1], s, Pointer(t)) == Times(all[..n], s, Pointer(t)) {
      TimesNext(all, n, s, Pointer(t));
    }
    forall t ensures Times(all[..n + 1], s, TreeRef(t)) == Times(all[..n], s, TreeRef(t)) {
      TimesNext(all, n, s, TreeRef(t));
    }
    forall i | 0 <= i < |ts| ensures TreeTold(all[..n + 1], s, ts[i]) { assert TreeTold(all[..n], s, ts[i]); }
  }

  lemma DatasSame(all: seq<Event>, n: nat, s: nat, size: nat, ds: seq<DataBack>)
    requires Next(all, n, s) && DatasTold(all, all[..n], s, size, ds) && !KindOf(all[n]).DataRef?
    requires !KindOf(all[n]).FileRef?
    ensures DatasTold(all, all[..n + 1], s, size, ds)
  {
    hide Times;
    forall d ensures Times(all[..n + 1], s, DataRef(d)) == Times(all[..n], s, DataRef(d)) {
      TimesNext(all, n, s, DataRef(d));
    }
    forall d ensures Times(all[..n + 1], s, FileRef(d)) == Times(all[..n], s, FileRef(d)) {
      TimesNext(all, n, s, FileRef(d));
    }
    forall i | 0 <= i < |ds| ensures DataTold(all, all[..n + 1], s, size, ds[i]) {
      assert DataTold(all, all[..n], s, size, ds[i]);
    }
  }

  lemma FilesNext(all: seq<Event>, n: nat, s: nat)
    requires Next(all, n, s)
    ensures SomeFile(all[..n + 1], s) <==> SomeFile(all[..n], s) || KindOf(all[n]).FileRef?
    ensures Times(all[..n + 1], s, Checked) == Times(all[..n], s, Checked) + if KindOf(all[n]).Checked? then 1 else 0
  {
    hide Times;
    TimesNext(all, n, s, Checked);
    forall d
      ensures Times(all[..n + 1], s, FileRef(d)) == Times(all[..n], s, FileRef(d)) +
        if KindOf(all[n]) == FileRef(d) then 1 else 0
    {
      TimesNext(all, n, s, FileRef(d));
    }
    if KindOf(all[n]).FileRef? { assert 0 < Times(all[..n + 1], s, FileRef(KindOf(all[n]).data)); }
  }

  lemma {:induction false} FoundTreesUpdate(ts: seq<TreeBack>, k: nat, t: TreeBack)
    requires k < |ts|
    ensures FoundTrees(ts[k := t]) + (if ts[k].found then 1 else 0) == FoundTrees(ts) + if t.found then 1 else 0
  {
    var n := |ts| - 1;
    if k < n {
      FoundTreesUpdate(ts[..n], k, t);
      assert ts[k := t][..n] == ts[..n][k := t];
    } else {
      assert ts[k := t][..n] == ts[..n];
    }
  }

  /** The list of trees with the key in it. */
  ghost function TreesWith(ts: seq<TreeBack>, t: TreeKey): (r: seq<TreeBack>)
    ensures TreeAt(ts, t.full, t.id, 0) < |r|
  {
    if TreeAt(ts, t.full, t.id, 0) < |ts| then ts else ts + [TreeBack(t.full, t.id, false, false)]
  }

  /** A tree event marks the one entry of its key, which is made if necessary. */
  lemma TreesNoted(all: seq<Event>, n: nat, s: nat, r: Rec, t: TreeKey, foundRef: bool)
    requires Next(all, n, s) && TreesTold(all[..n], s, r.trees)
    requires KindOf(all[n]) == (if foundRef then Pointer(t) else TreeRef(t))
    ensures TreesTold(all[..n + 1], s, TreeNoted(r, t.full, t.id, foundRef).trees)
  {
    hide Times, TreeNoted, TreeTold, TreeKeyOf;
    var p, p' := all[..n], all[..n + 1];
    var ts, k := TreesWith(r.trees, t), TreeAt(r.trees, t.full, t.id, 0);
    TreeList(r, t, foundRef);
    OthersDiffer(r.trees, t);
    var now := TreeNoted(r, t.full, t.id, foundRef).trees;
    forall i | 0 <= i < |now| ensures TreeTold(p', s, now[i]) {
      if i == k {
        if k == |r.trees| { NotThere(all, n, s, r.trees, t); }
        MarkedTold(all, n, s, ts[k], t, foundRef);
      } else {
        OtherTree(all, n, s, r.trees[i], t, foundRef);
      }
    }
    TreesListed(all, n, s, r.trees, now, t, k);
    TreesDistinct(ts, now, r.trees, t, k);
  }

  ghost function Marked(b: TreeBack, foundRef: bool): TreeBack {
    if foundRef then b.(found := true) else b.(inExtentTree := true)
  }

  /** What became of the list. */
  lemma TreeList(r: Rec, t: TreeKey, foundRef: bool)
    ensures var ts, k := TreesWith(r.trees, t), TreeAt(r.trees, t.full, t.id, 0);
      var now := TreeNoted(r, t.full, t.id, foundRef).trees;
      && now == ts[k := Marked(ts[k], foundRef)] && TreeKeyOf(ts[k]) == t
      && forall i :: 0 <= i < |ts| ==> TreeKeyOf(now[i]) == TreeKeyOf(ts[i])
  {}

  lemma MarkedTold(all: seq<Event>, n: nat, s: nat, b: TreeBack, t: TreeKey, foundRef: bool)
    requires Next(all, n, s) && TreeKeyOf(b) == t && KindOf(all[n]) == (if foundRef then Pointer(t) else TreeRef(t))
    requires TreeTold(all[..n], s, b) ||
      (!b.found && !b.inExtentTree && Times(all[..n], s, Pointer(t)) == 0 && Times(all[..n], s, TreeRef(t)) == 0)
    ensures TreeTold(all[..n + 1], s, Marked(b, foundRef))
  {
    hide Times;
    TimesNext(all, n, s, Pointer(t));
    TimesNext(all, n, s, TreeRef(t));
  }

  lemma OtherTree(all: seq<Event>, n: nat, s: nat, b: TreeBack, t: TreeKey, foundRef: bool)
    requires Next(all, n, s) && TreeKeyOf(b) != t && TreeTold(all[..n], s, b)
    requires KindOf(all[n]) == if foundRef then Pointer(t) else TreeRef(t)
    ensures TreeTold(all[..n + 1], s, b)
  {
    hide Times;
    TimesNext(all, n, s, Pointer(TreeKeyOf(b)));
    TimesNext(all, n, s, TreeRef(TreeKeyOf(b)));
  }

  lemma TreesDistinct(ts: seq<TreeBack>, now: seq<TreeBack>, was: seq<TreeBack>, t: TreeKey, k: nat)
    requires |was| <= |ts| <= |was| + 1 && was <= ts && |now| == |ts| && k < |ts|
    requires (|was| < |ts| ==> k == |was|) && TreeKeyOf(ts[k]) == t
    requires forall i :: 0 <= i < |ts| ==> TreeKeyOf(now[i]) == TreeKeyOf(ts[i])
    requires forall i, j :: 0 <= i < j < |was| ==> TreeKeyOf(was[i]) != TreeKeyOf(was[j])
    requires forall i :: 0 <= i < |was| && i != k ==> TreeKeyOf(was[i]) != t
    ensures forall i, j :: 0 <= i < j < |now| ==> TreeKeyOf(now[i]) != TreeKeyOf(now[j])
  {
    hide TreeKeyOf;
    forall i, j | 0 <= i < j < |now| ensures TreeKeyOf(now[i]) != TreeKeyOf(now[j]) {
      assert ts[i] == was[i] && (j < |was| ==> ts[j] == was[j]);
    }
  }

  /** Every key delivered so far has its entry. */
  lemma TreesListed(all: seq<Event>, n: nat, s: nat, was: seq<TreeBack>, now: seq<TreeBack>, t: TreeKey, k: nat)
    requires Next(all, n, s) && TreesTold(all[..n], s, was) && |was| <= |now| && k < |now|
    requires KindOf(all[n]) == Pointer(t) || KindOf(all[n]) == TreeRef(t)
    requires TreeKeyOf(now[k]) == t && forall i :: 0 <= i < |was| ==> TreeKeyOf(now[i]) == TreeKeyOf(was[i])
    ensures forall x :: 0 < Times(all[..n + 1], s, Pointer(x)) || 0 < Times(all[..n + 1], s, TreeRef(x)) ==>
      HasTree(now, x)
  {
    hide Times, TreeTold, TreeKeyOf;
    var p' := all[..n + 1];
    forall x | 0 < Times(p', s, Pointer(x)) || 0 < Times(p', s, TreeRef(x)) ensures HasTree(now, x) {
      TimesNext(all, n, s, Pointer(x));
      TimesNext(all, n, s, TreeRef(x));
      if x != t {
        assert HasTree(was, x);
        var i :| 0 <= i < |was| && TreeKeyOf(was[i]) == x;
        assert TreeKeyOf(now[i]) == x;
      }
    }
  }

  lemma OthersDiffer(ts: seq<TreeBack>, t: TreeKey)
    requires forall i, j :: 0 <= i < j < |ts| ==> TreeKeyOf(ts[i]) != TreeKeyOf(ts[j])
    ensures var k := TreeAt(ts, t.full, t.id, 0); forall i :: 0 <= i < |ts| && i != k ==> TreeKeyOf(ts[i]) != t
  {
    var k := TreeAt(ts, t.full, t.id, 0);
    forall i | 0 <= i < |ts| && i != k ensures TreeKeyOf(ts[i]) != t {
      if i < k { assert !SameTree(ts[i], t.full, t.id); } else { assert TreeKeyOf(ts[k]) != TreeKeyOf(ts[i]); }
    }
  }

  /** Nothing was delivered for a key without an entry. */
  lemma NotThere(all: seq<Event>, n: nat, s: nat, ts: seq<TreeBack>, t: TreeKey)
    requires n <= |all| && TreesTold(all[..n], s, ts) && TreeAt(ts, t.full, t.id, 0) == |ts|
    ensures Times(all[..n], s, Pointer(t)) == 0 && Times(all[..n], s, TreeRef(t)) == 0
  {
    hide Times;
    assert forall i :: 0 <= i < |ts| ==> !SameTree(ts[i], t.full, t.id);
  }

  /** A pointer that was not met before finds one tree more; a reference item none. */
  lemma TreesFound(r: Rec, t: TreeKey, foundRef: bool)
    ensures var k := TreeAt(r.trees, t.full, t.id, 0);
      FoundTrees(TreeNoted(r, t.full, t.id, foundRef).trees) ==
      FoundTrees(r.trees) + if foundRef && !(k < |r.trees| && r.trees[k].found) then 1 else 0
  {
    var k, ts := TreeAt(r.trees, t.full, t.id, 0), TreesWith(r.trees, t);
    if k == |r.trees| { assert ts[..k] == r.trees; }
    FoundTreesUpdate(ts, k, if foundRef then ts[k].(found := true) else ts[k].(inExtentTree := true));
  }

  // ---------------------------------------------------------------------------
  // The same for data

  ghost predicate Normal(d: DataKey) { d.full ==> d.owner == 0 && d.offset == 0 }

  /** When all sizes agree, a data back reference is found by its key. */
  lemma FoundByKey(all: seq<Event>, p: seq<Event>, s: nat, size: nat, b: DataBack, d: DataKey, foundRef: bool)
    requires DataTold(all, p, s, size, b) && Normal(d)
    ensures SameData(b, d, foundRef, s, size) <==> DataKeyOf(b) == d
  {
    hide Times;
  }

  /** Entries other than the one found have other keys. */
  lemma OtherData(all: seq<Event>, p: seq<Event>, s: nat, size: nat, ds: seq<DataBack>, d: DataKey, foundRef: bool)
    requires DatasTold(all, p, s, size, ds) && Normal(d)
    ensures var k := DataAt(ds, d, foundRef, s, size, 0);
      (k < |ds| ==> DataKeyOf(ds[k]) == d) && forall i :: 0 <= i < |ds| && i != k ==> DataKeyOf(ds[i]) != d
  {
    hide Times, SameData;
    var k := DataAt(ds, d, foundRef, s, size, 0);
    if k < |ds| { FoundByKey(all, p, s, size, ds[k], d, foundRef); }
    forall i | 0 <= i < |ds| && i != k ensures DataKeyOf(ds[i]) != d {
      FoundByKey(all, p, s, size, ds[i], d, foundRef);
      if k < i { assert DataKeyOf(ds[k]) != DataKeyOf(ds[i]); }
    }
  }

  ghost function DatasWith(ds: seq<DataBack>, s: nat, size: nat, d: DataKey, foundRef: bool): (r: seq<DataBack>)
    ensures DataAt(ds, d, foundRef, s, size, 0) < |r|
  {
    if DataAt(ds, d, foundRef, s, size, 0) < |ds| then ds else ds + [NewData(d, size)]
  }

  /** What became of the list. */
  lemma DataList(r: Rec, s: nat, size: nat, d: DataKey, count: nat, foundRef: bool)
    ensures var ds, k := DatasWith(r.datas, s, size, d, foundRef), DataAt(r.datas, d, foundRef, s, size, 0);
      var now := DataNoted(r, s, d, count, foundRef, size);
      && now.datas == ds[k := Noted(ds[k], s, count, foundRef, size)]
      && now.refs == r.refs + (if foundRef then 1 else 0) && now.trees == r.trees && now.dups == r.dups
      && now.foundRec == r.foundRec
      && now.itemRefs == r.itemRefs && now.nr == r.nr
      && now.ownerChecked == (r.ownerChecked || foundRef) && now.contentChecked == (r.contentChecked || foundRef)
  {}

  /** A data event is noted in the one entry of its key, which is made if necessary. */
  lemma DatasNoted(all: seq<Event>, n: nat, s: nat, size: nat, r: Rec, d: DataKey, count: nat, foundRef: bool)
    requires Next(all, n, s) && DatasTold(all, all[..n], s, size, r.datas) && Normal(d)
    requires KindOf(all[n]) == (if foundRef then FileRef(d) else DataRef(d))
    requires !foundRef ==> count == Times(all, s, FileRef(d))
    ensures DatasTold(all, all[..n + 1], s, size, DataNoted(r, s, d, count, foundRef, size).datas)
  {
    hide Times, DataNoted, SameData;
    var p, p' := all[..n], all[..n + 1];
    var ds, k := DatasWith(r.datas, s, size, d, foundRef), DataAt(r.datas, d, foundRef, s, size, 0);
    DataList(r, s, size, d, count, foundRef);
    var now := DataNoted(r, s, d, count, foundRef, size).datas;
    OtherData(all, p, s, size, r.datas, d, foundRef);
    DataKeys(ds, k, Noted(ds[k], s, count, foundRef, size), d);
    hide DataTold, DataKeyOf, Noted;
    forall i | 0 <= i < |now| ensures DataTold(all, p', s, size, now[i]) {
      if i == k {
        if k == |r.datas| { NothingFor(all, n, s, size, r.datas, d, foundRef); }
        EntryTold(all, n, s, size, ds[k], d, count, foundRef);
      } else {
        OtherTold(all, n, s, size, r.datas[i], d, foundRef);
      }
    }
    DatasListed(all, n, s, size, r.datas, now, d, k);
    assert forall i, j :: 0 <= i < j < |now| ==> DataKeyOf(now[i]) != DataKeyOf(now[j]) by {
      DatasDistinct(ds, now, r.datas, d, k);
    }
  }

  lemma DatasDistinct(ds: seq<DataBack>, now: seq<DataBack>, was: seq<DataBack>, d: DataKey, k: nat)
    requires |was| <= |ds| <= |was| + 1 && was <= ds && |now| == |ds| && k < |ds|
    requires (|was| < |ds| ==> k == |was|) && DataKeyOf(ds[k]) == d
    requires forall i :: 0 <= i < |ds| ==> DataKeyOf(now[i]) == DataKeyOf(ds[i])
    requires forall i, j :: 0 <= i < j < |was| ==> DataKeyOf(was[i]) != DataKeyOf(was[j])
    requires forall i :: 0 <= i < |was| && i != k ==> DataKeyOf(was[i]) != d
    ensures forall i, j :: 0 <= i < j < |now| ==> DataKeyOf(now[i]) != DataKeyOf(now[j])
  {
    hide DataKeyOf;
    forall i, j | 0 <= i < j < |now| ensures DataKeyOf(now[i]) != DataKeyOf(now[j]) {
      assert ds[i] == was[i] && (j < |was| ==> ds[j] == was[j]);
    }
  }

  /** Every key delivered so far has its entry. */
  lemma DatasListed(all: seq<Event>, n: nat, s: nat, size: nat, was: seq<DataBack>, now: seq<DataBack>, d: DataKey,
                    k: nat)
    requires Next(all, n, s) && DatasTold(all, all[..n], s, size, was) && |was| <= |now| && k < |now|
    requires KindOf(all[n]) == FileRef(d) || KindOf(all[n]) == DataRef(d)
    requires DataKeyOf(now[k]) == d && forall i :: 0 <= i < |was| ==> DataKeyOf(now[i]) == DataKeyOf(was[i])
    ensures forall x :: 0 < Times(all[..n + 1], s, FileRef(x)) || 0 < Times(all[..n + 1], s, DataRef(x)) ==>
      HasData(now, x)
  {
    hide Times, DataTold, DataKeyOf;
    var p' := all[..n + 1];
    forall x | 0 < Times(p', s, FileRef(x)) || 0 < Times(p', s, DataRef(x)) ensures HasData(now, x) {
      TimesNext(all, n, s, FileRef(x));
      TimesNext(all, n, s, DataRef(x));
      if x != d {
        assert HasData(was, x);
        var i :| 0 <= i < |was| && DataKeyOf(was[i]) == x;
        assert DataKeyOf(now[i]) == x;
      }
    }
  }

  lemma EntryTold(all: seq<Event>, n: nat, s: nat, size: nat, b: DataBack, d: DataKey, count: nat, foundRef: bool)
    requires Next(all, n, s) && Normal(d) && DataKeyOf(b) == d
    requires KindOf(all[n]) == (if foundRef then FileRef(d) else DataRef(d))
    requires !foundRef ==> count == Times(all, s, FileRef(d))
    requires DataTold(all, all[..n], s, size, b) ||
      (b == NewData(d, size) && Times(all[..n], s, FileRef(d)) == 0 && Times(all[..n], s, DataRef(d)) == 0)
    ensures DataTold(all, all[..n + 1], s, size, Noted(b, s, count, foundRef, size))
  {
    hide Times;
    TimesNext(all, n, s, FileRef(d));
    TimesNext(all, n, s, DataRef(d));
  }

  lemma OtherTold(all: seq<Event>, n: nat, s: nat, size: nat, b: DataBack, d: DataKey, foundRef: bool)
    requires Next(all, n, s) && DataKeyOf(b) != d && DataTold(all, all[..n], s, size, b)
    requires KindOf(all[n]) == if foundRef then FileRef(d) else DataRef(d)
    ensures DataTold(all, all[..n + 1], s, size, b)
  {
    hide Times;
    TimesNext(all, n, s, FileRef(DataKeyOf(b)));
    TimesNext(all, n, s, DataRef(DataKeyOf(b)));
  }

  lemma DataKeys(ds: seq<DataBack>, k: nat, b: DataBack, d: DataKey)
    requires k < |ds| && DataKeyOf(b) == DataKeyOf(ds[k])
    ensures forall i :: 0 <= i < |ds| ==> DataKeyOf(ds[k := b][i]) == DataKeyOf(ds[i])
  {}

  lemma NothingFor(all: seq<Event>, n: nat, s: nat, size: nat, ds: seq<DataBack>, d: DataKey, foundRef: bool)
    requires n <= |all| && DatasTold(all, all[..n], s, size, ds) && Normal(d)
    requires DataAt(ds, d, foundRef, s, size, 0) == |ds|
    ensures Times(all[..n], s, FileRef(d)) == 0 && Times(all[..n], s, DataRef(d)) == 0
  {
    hide Times, SameData;
    OtherData(all, all[..n], s, size, ds, d, foundRef);
  }

  lemma DatasFound(r: Rec, s: nat, size: nat, d: DataKey, count: nat, foundRef: bool)
    ensures FoundSum(DataNoted(r, s, d, count, foundRef, size).datas) == FoundSum(r.datas) + if foundRef then 1 else 0
  {
    hide FoundSum, DataNoted;
    DataList(r, s, size, d, count, foundRef);
    var ds, k := DatasWith(r.datas, s, size, d, foundRef), DataAt(r.datas, d, foundRef, s, size, 0);
    if k == |r.datas| { FoundAppend(r.datas, NewData(d, size)); }
    FoundUpdate(ds, k, Noted(ds[k], s, count, foundRef, size));
  }

  // ---------------------------------------------------------------------------
  // Each event

  /** Before the extent is mentioned a blank record tells all there is. */
  lemma {:induction false} NothingYet(p: seq<Event>, s: nat, k: Kind)
    requires !Mentions(p, s)
    ensures Times(p, s, k) == 0 && RefTotal(p, s) == 0 && ItemTotal(p, s) == 0
  {
    if p != [] {
      var n := |p| - 1;
      assert p[n].start != s;
      assert !Mentions(p[..n], s) by { assert forall i :: 0 <= i < n ==> p[..n][i] == p[i]; }
      NothingYet(p[..n], s, k);
    }
  }

  /** How an extent stands after the first `n` events: its record tells what was delivered,
      or nothing was delivered yet, or nothing more will be. */
  ghost predicate Stands(all: seq<Event>, n: nat, s: nat, size: nat, o: Option<Rec>)
    requires n <= |all|
  {
    if o.Some? then Told(all, all[..n], s, size, o.value)
    else !Mentions(all[..n], s) || forall k :: !Comes(all, n, s, k)
  }

  lemma BlankTold(all: seq<Event>, n: nat, s: nat, size: nat, maxSize: nat)
    requires n <= |all| && !Mentions(all[..n], s)
    ensures Told(all, all[..n], s, size, NewRec(1, 0, false, false, false, maxSize))
  {
    hide Times;
    forall k ensures Times(all[..n], s, k) == 0 && RefTotal(all[..n], s) == 0 && ItemTotal(all[..n], s) == 0 {
      NothingYet(all[..n], s, k);
    }
    assert Times(all[..n], s, Item) == 0;
  }

  /** The record that a reference is attached to. */
  lemma TouchedTold(all: seq<Event>, n: nat, s: nat, size: nat, o: Option<Rec>, maxSize: nat)
    requires Next(all, n, s) && Stands(all, n, s, size, o)
    ensures Told(all, all[..n], s, size, Touched(o, maxSize))
    ensures o.None? ==> !Mentions(all[..n], s)
  {
    hide Told;
    if o.None? {
      assert Comes(all, n, s, KindOf(all[n]));
      BlankTold(all, n, s, size, maxSize);
    }
  }

  lemma TreeRefStep(all: seq<Event>, n: nat, s: nat, size: nat, o: Option<Rec>)
    requires Next(all, n, s) && Fits(all, s, size) && Stands(all, n, s, size, o) && all[n].TreeRefItem?
    ensures Stands(all, n + 1, s, size, StepRec(o, all[n]))
  {
    hide Times, TreesTold, DatasTold, Fits, TreeNoted;
    var e := all[n];
    var r, t := Touched(o, 0), TreeOf(e.parent, e.root);
    TouchedTold(all, n, s, size, o, 0);
    TreesNoted(all, n, s, r, t, false);
    TreesFound(r, t, false);
    DatasSame(all, n, s, size, r.datas);
    TotalsNext(all, n, s);
    FilesNext(all, n, s);
    TimesNext(all, n, s, Item);
    TreeKeeps(r, t, false);
  }

  /** A tree event touches nothing else in the record. */
  lemma TreeKeeps(r: Rec, t: TreeKey, foundRef: bool)
    ensures var now := TreeNoted(r, t.full, t.id, foundRef); now == r.(trees := now.trees)
  {}

  lemma DataStep(all: seq<Event>, n: nat, s: nat, size: nat, o: Option<Rec>)
    requires Next(all, n, s) && Fits(all, s, size) && Stands(all, n, s, size, o)
    requires all[n].DataRefItem? || all[n].FileReference?
    ensures Stands(all, n + 1, s, size, StepRec(o, all[n]))
  {
    hide Times, TreesTold, DatasTold, DataNoted;
    var e := all[n];
    assert EventFits(all, s, size, n);
    hide Fits;
    var r, d, found := Touched(o, size), KeyOf(e.parent, e.root, e.owner, e.offset), e.FileReference?;
    TouchedTold(all, n, s, size, o, size);
    assert StepRec(o, e) == Some(DataNoted(r, s, d, if found then 1 else e.count, found, size));
    hide Told;
    DataNotedTold(all, n, s, size, r, d, if found then 1 else e.count, found);
  }

  lemma DataNotedTold(all: seq<Event>, n: nat, s: nat, size: nat, r: Rec, d: DataKey, count: nat, found: bool)
    requires Next(all, n, s) && Told(all, all[..n], s, size, r) && Normal(d)
    requires KindOf(all[n]) == (if found then FileRef(d) else DataRef(d))
    requires !found ==> count == Times(all, s, FileRef(d))
    ensures Told(all, all[..n + 1], s, size, DataNoted(r, s, d, count, found, size))
  {
    hide Times, TreesTold, DatasTold, DataNoted, RefTotal, ItemTotal, FoundTrees, FoundSum;
    DatasNoted(all, n, s, size, r, d, count, found);
    DatasFound(r, s, size, d, count, found);
    DataList(r, s, size, d, count, found);
    TreesSame(all, n, s, r.trees);
    TotalsNext(all, n, s);
    FilesNext(all, n, s);
    TimesNext(all, n, s, Item);
  }

  lemma CheckedStep(all: seq<Event>, n: nat, s: nat, size: nat, o: Option<Rec>)
    requires Next(all, n, s) && Fits(all, s, size) && Stands(all, n, s, size, o) && all[n].BlockChecked?
    ensures Stands(all, n + 1, s, size, StepRec(o, all[n]))
  {
    hide Times, TreesTold, DatasTold, Finished;
    assert EventFits(all, s, size, n);
    hide Fits;
    TouchedTold(all, n, s, size, o, 0);
    assert o.Some?;
    var r := o.value.(contentChecked := true, ownerChecked := true);
    TreesSame(all, n, s, r.trees);
    DatasSame(all, n, s, size, r.datas);
    TotalsNext(all, n, s);
    FilesNext(all, n, s);
    TimesNext(all, n, s, Item);
    KeptStands(all, n + 1, s, size, r);
  }

  /** Dropping a finished record is safe. */
  lemma KeptStands(all: seq<Event>, n: nat, s: nat, size: nat, r: Rec)
    requires n <= |all| && Fits(all, s, size) && Told(all, all[..n], s, size, r)
    ensures Stands(all, n, s, size, Kept(s, r))
  {
    hide Told, Fits, Finished;
    if Finished(s, r) {
      forall k ensures !Comes(all, n, s, k) { FinishedAll(all, n, s, size, r, k); }
    }
  }

  /** add_extent_rec before the record may be dropped. */
  ghost function Raw(o: Option<Rec>, nr: nat, itemRefs: nat, incRef: bool, extentRec: bool, maxSize: nat): Rec {
    if o.None? then NewRec(nr, itemRefs, incRef, false, extentRec, maxSize)
    else Absorb(o.value, nr, itemRefs, incRef, false, extentRec, maxSize)
  }

  lemma ItemStep(all: seq<Event>, n: nat, s: nat, size: nat, o: Option<Rec>)
    requires Next(all, n, s) && Fits(all, s, size) && Stands(all, n, s, size, o) && all[n].ExtentItem?
    ensures Stands(all, n + 1, s, size, StepRec(o, all[n]))
  {
    hide Times, TreesTold, DatasTold, Finished;
    var e := all[n];
    assert EventFits(all, s, size, n);
    hide Fits;
    TouchedTold(all, n, s, size, o, size);
    ItemFirst(all, n, s, size);
    var r := Raw(o, e.size, e.count, false, true, e.size);
    var was := Touched(o, size);
    TreesSame(all, n, s, was.trees);
    DatasSame(all, n, s, size, was.datas);
    TotalsNext(all, n, s);
    FilesNext(all, n, s);
    TimesNext(all, n, s, Item);
    assert Told(all, all[..n + 1], s, size, r);
    KeptStands(all, n + 1, s, size, r);
  }

  /** The extent item has not been met before. */
  lemma ItemFirst(all: seq<Event>, n: nat, s: nat, size: nat)
    requires Next(all, n, s) && Fits(all, s, size) && all[n].ExtentItem?
    ensures Times(all[..n], s, Item) == 0 && ItemTotal(all[..n], s) == 0 && 0 < all[n].count
  {
    TimesAll(all, n, s, Item);
    ItemSays(all, n, s, size);
    assert EventFits(all, s, size, n);
  }

  lemma PointerStep(all: seq<Event>, n: nat, s: nat, size: nat, o: Option<Rec>)
    requires Next(all, n, s) && Fits(all, s, size) && Stands(all, n, s, size, o) && all[n].TreePointer?
    ensures Stands(all, n + 1, s, size, StepRec(o, all[n]))
  {
    hide Times, TreesTold, DatasTold, TreeNoted, Finished, Told, Raw, ExtentNoted;
    var e := all[n];
    assert EventFits(all, s, size, n);
    hide Fits, NoData;
    var t, was := TreeOf(e.parent, e.root), Touched(o, size);
    TouchedTold(all, n, s, size, o, size);
    var r := Raw(o, size, 0, true, false, size);
    RawPointer(all, n, s, size, o);
    NotYet(all, n, s, size, was, r);
    assert StepRec(o, e) == Some(TreeNoted(r, t.full, t.id, true)) by { RawKept(s, o, size); }
    PointerTold(all, n, s, size, was, r, t);
  }

  /** A pointer counts a reference and leaves the rest of the record alone. */
  lemma RawPointer(all: seq<Event>, n: nat, s: nat, size: nat, o: Option<Rec>)
    requires n <= |all| && Told(all, all[..n], s, size, Touched(o, size))
    ensures Counted(Touched(o, size), Raw(o, size, 0, true, false, size), size)
  {
    hide Times, TreesTold, DatasTold, ChecksTold, RefTotal, ItemTotal, FoundTrees, FoundSum;
  }

  ghost predicate Counted(was: Rec, r: Rec, size: nat) {
    && r.trees == was.trees && r.datas == was.datas && r.refs == was.refs + 1 && r.dups == was.dups
    && r.itemRefs == was.itemRefs
    && r.foundRec == was.foundRec && (was.nr == size ==> r.nr == size)
    && r.contentChecked == was.contentChecked && r.ownerChecked == was.ownerChecked
  }

  lemma RawKept(s: nat, o: Option<Rec>, size: nat)
    requires !Finished(s, Raw(o, size, 0, true, false, size))
    ensures ExtentNoted(s, o, size, 0, true, false, false, size) == Some(Raw(o, size, 0, true, false, size))
  {
    hide Finished;
  }

  lemma PointerTold(all: seq<Event>, n: nat, s: nat, size: nat, was: Rec, r: Rec, t: TreeKey)
    requires Next(all, n, s) && Fits(all, s, size) && Told(all, all[..n], s, size, was) && KindOf(all[n]) == Pointer(t)
    requires Counted(was, r, size)
    ensures Told(all, all[..n + 1], s, size, TreeNoted(r, t.full, t.id, true))
  {
    hide Times, TreesTold, DatasTold, TreeNoted, Fits, TreeAt, FoundTrees, FoundSum, RefTotal, ItemTotal;
    PointerFirst(all, n, s, size, was, t);
    TreesNoted(all, n, s, r, t, true);
    TreesFound(r, t, true);
    DatasSame(all, n, s, size, r.datas);
    TotalsNext(all, n, s);
    FilesNext(all, n, s);
    TimesNext(all, n, s, Item);
    TreeKeeps(r, t, true);
  }

  /** With the reference counted and its back reference not yet noted, a record is not finished. */
  lemma NotYet(all: seq<Event>, n: nat, s: nat, size: nat, was: Rec, r: Rec)
    requires n <= |all| && Told(all, all[..n], s, size, was)
    requires r.trees == was.trees && r.datas == was.datas && r.refs == was.refs + 1
    ensures !Finished(s, r)
  {
    hide Times, TreesTold, DatasTold, ChecksTold;
    if forall i :: 0 <= i < |r.trees| ==> TreeBackOk(r.trees[i]) { AllFound(r.trees); }
  }

  /** No pointer of that key has been met before. */
  lemma PointerFirst(all: seq<Event>, n: nat, s: nat, size: nat, r: Rec, t: TreeKey)
    requires Next(all, n, s) && Fits(all, s, size) && TreesTold(all[..n], s, r.trees) && KindOf(all[n]) == Pointer(t)
    ensures var k := TreeAt(r.trees, t.full, t.id, 0); !(k < |r.trees| && r.trees[k].found)
  {
    TimesAll(all, n, s, Pointer(t));
    var k := TreeAt(r.trees, t.full, t.id, 0);
    if k < |r.trees| { assert TreeTold(all[..n], s, r.trees[k]); }
  }

  /** Events of other extents change nothing. */
  lemma OtherExtent(all: seq<Event>, n: nat, s: nat, size: nat, o: Option<Rec>)
    requires n < |all| && all[n].start != s && Stands(all, n, s, size, o)
    ensures Stands(all, n + 1, s, size, o)
  {
    hide Times;
    assert all[..n + 1][..n] == all[..n];
    if o.Some? {
      forall k ensures Times(all[..n + 1], s, k) == Times(all[..n], s, k) { TimesNext(all, n, s, k); }
      SameTold(all, all[..n], all[..n + 1], s, size, o.value);
    } else if Mentions(all[..n], s) {
      var m := n + 1;
      forall k ensures !Comes(all, m, s, k) { assert !Comes(all, n, s, k); }
    } else {
      assert forall i :: 0 <= i < n ==> all[..n + 1][i] == all[..n][i];
    }
  }

  lemma SameTold(all: seq<Event>, p: seq<Event>, q: seq<Event>, s: nat, size: nat, r: Rec)
    requires Told(all, p, s, size, r) && RefTotal(p, s) == RefTotal(q, s) && ItemTotal(p, s) == ItemTotal(q, s)
    requires forall k :: Times(q, s, k) == Times(p, s, k)
    ensures Told(all, q, s, size, r)
  {
    hide Times, RefTotal, ItemTotal;
    assert TreesTold(q, s, r.trees) by {
      assert forall i :: 0 <= i < |r.trees| ==> TreeTold(p, s, r.trees[i]);
    }
    assert DatasTold(all, q, s, size, r.datas) by {
      assert forall i :: 0 <= i < |r.datas| ==> DataTold(all, p, s, size, r.datas[i]);
    }
    assert SomeFile(q, s) <==> SomeFile(p, s) by {
      if SomeFile(p, s) { var d :| 0 < Times(p, s, FileRef(d)); assert 0 < Times(q, s, FileRef(d)); }
      if SomeFile(q, s) { var d :| 0 < Times(q, s, FileRef(d)); assert 0 < Times(p, s, FileRef(d)); }
    }
  }

  lemma {:induction false} FoldStands(all: seq<Event>, n: nat, s: nat, size: nat)
    requires n <= |all| && Fits(all, s, size)
    ensures Stands(all, n, s, size, Fold(all[..n], s))
    decreases n
  {
    hide Fits, Told, StepRec;
    if n > 0 {
      FoldStands(all, n - 1, s, size);
      assert all[..n][..n - 1] == all[..n - 1];
      var o, e := Fold(all[..n - 1], s), all[n - 1];
      if e.start == s {
        match e
        case ExtentItem(_, _, _) => ItemStep(all, n - 1, s, size, o);
        case TreePointer(_, _, _, _) => PointerStep(all, n - 1, s, size, o);
        case TreeRefItem(_, _, _) => TreeRefStep(all, n - 1, s, size, o);
        case DataRefItem(_, _, _, _, _, _, _) => DataStep(all, n - 1, s, size, o);
        case FileReference(_, _, _, _, _, _) => DataStep(all, n - 1, s, size, o);
        case BlockChecked(_, _, _) => CheckedStep(all, n - 1, s, size, o);
      } else {
        OtherExtent(all, n - 1, s, size, o);
      }
    }
  }

  lemma {:induction false} Unmentioned(es: seq<Event>, s: nat)
    requires !Mentions(es, s)
    ensures Fold(es, s).None?
  {
    if es != [] {
      var n := |es| - 1;
      assert es[n].start != s;
      assert !Mentions(es[..n], s) by { assert forall i :: 0 <= i < n ==> es[..n][i] == es[i]; }
      Unmentioned(es[..n], s);
    }
  }

  /** Events that fit together leave nothing to report, in whatever order they come. */
  lemma ConsistentSettled(es: seq<Event>)
    requires Consistent(es)
    ensures forall s: nat :: Settled(es, s)
  {
    hide Fits, Fold, Clean, Told;
    assert es[..|es|] == es;
    forall s: nat ensures Settled(es, s) {
      if Mentions(es, s) {
        var size :| Fits(es, s, size);
        FoldStands(es, |es|, s, size);
        if Fold(es, s).Some? { AllClean(es, s, size, Fold(es, s).value); }
      } else {
        Unmentioned(es, s);
      }
    }
  }
}
