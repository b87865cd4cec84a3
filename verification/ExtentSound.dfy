/**
  What the extent check cannot let through.  For an extent with one extent item, a run
  without error means that every pointer has its back reference and the other way round,
  that every data back reference counts the file references to it, and that file references
  agree with the item on the size; for an extent without an item, that nothing refers to it.
 */
module ExtentSound {
  import opened Basics
  import opened ExtentRefs
  import opened ExtentHistory

  /** The count in the last reference item of a data key. */
  function LastCount(p: seq<Event>, s: nat, d: DataKey): nat {
    if p == [] then 0
    else
      var e := p[|p| - 1];
      if e.start == s && KindOf(e) == DataRef(d) then e.count else LastCount(p[..|p| - 1], s, d)
  }

  /** How many pointers to the extent there are. */
  function PointerTotal(p: seq<Event>, s: nat): nat {
    if p == [] then 0
    else
      var e := p[|p| - 1];
      PointerTotal(p[..|p| - 1], s) + if e.start == s && e.TreePointer? then 1 else 0
  }

  /** All file references of the key have that size. */
  ghost predicate SizesAre(p: seq<Event>, s: nat, d: DataKey, size: nat) {
    forall k :: 0 <= k < |p| && p[k].FileReference? && p[k].start == s && KindOf(p[k]) == FileRef(d) ==>
      p[k].size == size
  }

  /** The owner was looked at: a file refers to the extent, or its block was found good. */
  ghost predicate Looked(p: seq<Event>, s: nat) {
    SomeFile(p, s) || exists k :: 0 <= k < |p| && p[k] == BlockChecked(s, true, true)
  }

  ghost predicate TreesAgree(p: seq<Event>, s: nat) {
    forall t :: (0 < Times(p, s, Pointer(t)) <==> 0 < Times(p, s, TreeRef(t))) && Times(p, s, Pointer(t)) <= 1
  }

  ghost predicate DataAgrees(p: seq<Event>, s: nat, size: nat, d: DataKey) {
    && (0 < Times(p, s, FileRef(d)) <==> 0 < Times(p, s, DataRef(d)))
    && (0 < Times(p, s, DataRef(d)) ==> LastCount(p, s, d) == Times(p, s, FileRef(d)))
    && (!d.full ==> SizesAre(p, s, d, size))
  }

  /** The events of an extent agree, seen from both sides. */
  ghost predicate Agrees(p: seq<Event>, s: nat, size: nat) {
    TreesAgree(p, s) && (forall d :: DataAgrees(p, s, size, d)) && Looked(p, s)
  }

  /** Nothing refers to the extent, and nothing is said about it. */
  ghost predicate Silent(p: seq<Event>, s: nat) { forall k :: k != Checked ==> Times(p, s, k) == 0 }

  /** One extent item, of that size; a size of 1 stands for "not known yet" in the code. */
  ghost predicate OneItem(es: seq<Event>, s: nat, size: nat) {
    && 1 < size && Times(es, s, Item) == 1
    && forall k :: 0 <= k < |es| && es[k].start == s && es[k].ExtentItem? ==> es[k].size == size
  }

  // ---------------------------------------------------------------------------
  // What a record knows, whatever the events

  ghost predicate IsFirst(ds: seq<DataBack>, i: nat)
    requires i < |ds|
  {
    forall j :: 0 <= j < i ==> DataKeyOf(ds[j]) != DataKeyOf(ds[i])
  }

  ghost predicate Sole(ds: seq<DataBack>, i: nat)
    requires i < |ds|
  {
    forall j :: 0 <= j < |ds| && j != i ==> DataKeyOf(ds[j]) != DataKeyOf(ds[i])
  }

  /** One data back reference: only the first of its key is marked by reference items, and one
      that is alone with its key has counted all its file references, all of one size. */
  ghost predicate EntryKnown(p: seq<Event>, s: nat, ds: seq<DataBack>, i: nat)
    requires i < |ds|
  {
    var b, d := ds[i], DataKeyOf(ds[i]);
    && Normal(d) && (b.found <==> 0 < b.foundRef) && b.diskBytenr == (if b.found then s else 0)
    && (b.inExtentTree ==> IsFirst(ds, i) && b.numRefs == LastCount(p, s, d) && 0 < Times(p, s, DataRef(d)))
    && (Sole(ds, i) ==> b.foundRef == Times(p, s, FileRef(d)) && (b.found && !d.full ==> SizesAre(p, s, d, b.bytes)))
  }

  ghost predicate DatasKnown(p: seq<Event>, s: nat, ds: seq<DataBack>) {
    && (forall i :: 0 <= i < |ds| ==> EntryKnown(p, s, ds, i))
    && (forall d :: 0 < Times(p, s, FileRef(d)) || 0 < Times(p, s, DataRef(d)) ==> HasData(ds, d))
  }

  ghost predicate Repeated(p: seq<Event>, s: nat) { exists t :: 1 < Times(p, s, Pointer(t)) }

  ghost predicate CountsKnown(p: seq<Event>, s: nat, size: nat, r: Rec) {
    && r.dups == 0 && (r.foundRec <==> 0 < Times(p, s, Item)) && (r.foundRec ==> r.nr == size)
    && r.itemRefs == ItemTotal(p, s) && r.refs == PointerTotal(p, s) + FoundSum(r.datas)
    && FoundTrees(r.trees) <= PointerTotal(p, s) && (Repeated(p, s) ==> FoundTrees(r.trees) < PointerTotal(p, s))
    && (r.ownerChecked ==> Looked(p, s))
  }

  ghost predicate RecKnown(p: seq<Event>, s: nat, size: nat, r: Rec) {
    CountsKnown(p, s, size, r) && TreesTold(p, s, r.trees) && DatasKnown(p, s, r.datas)
  }

  /** A clean record with an item: the events agree. */
  lemma CleanAgrees(p: seq<Event>, s: nat, size: nat, r: Rec)
    requires 0 < s && RecKnown(p, s, size, r) && Clean(s, r) && 0 < Times(p, s, Item)
    ensures Agrees(p, s, size)
  {
    hide Times, LastCount, FoundTrees, FoundSum, PointerTotal, SizesAre, Looked, ItemTotal;
    AllFound(r.trees);
    forall t ensures (0 < Times(p, s, Pointer(t)) <==> 0 < Times(p, s, TreeRef(t))) && Times(p, s, Pointer(t)) <= 1 {
      CleanTree(p, s, size, r, t);
    }
    forall d ensures DataAgrees(p, s, size, d) { CleanData(p, s, size, r, d); }
  }

  lemma CleanTree(p: seq<Event>, s: nat, size: nat, r: Rec, t: TreeKey)
    requires RecKnown(p, s, size, r) && Clean(s, r) && FoundTrees(r.trees) == |r.trees|
    ensures (0 < Times(p, s, Pointer(t)) <==> 0 < Times(p, s, TreeRef(t))) && Times(p, s, Pointer(t)) <= 1
  {
    hide Times, FoundTrees, FoundSum, PointerTotal, DatasKnown, ItemTotal;
    assert !Repeated(p, s);
    if 0 < Times(p, s, Pointer(t)) || 0 < Times(p, s, TreeRef(t)) {
      assert HasTree(r.trees, t);
      var i :| 0 <= i < |r.trees| && TreeKeyOf(r.trees[i]) == t;
      assert TreeBackOk(r.trees[i]) && TreeTold(p, s, r.trees[i]);
    }
  }

  lemma CleanData(p: seq<Event>, s: nat, size: nat, r: Rec, d: DataKey)
    requires 0 < s && RecKnown(p, s, size, r) && Clean(s, r) && 0 < Times(p, s, Item)
    ensures DataAgrees(p, s, size, d)
  {
    hide Times, LastCount, FoundTrees, FoundSum, PointerTotal, TreesTold, ItemTotal;
    if HasData(r.datas, d) {
      var i :| 0 <= i < |r.datas| && DataKeyOf(r.datas[i]) == d;
      assert EntryKnown(p, s, r.datas, i) && DataBackOk(s, r.nr, r.datas[i]);
      assert Sole(r.datas, i) by { CleanSole(p, s, r, i); }
    } else {
      NoFiles(p, s, d);
    }
  }

  /** Every back reference of a clean record is marked, so no two have one key. */
  lemma CleanSole(p: seq<Event>, s: nat, r: Rec, i: nat)
    requires DatasKnown(p, s, r.datas) && BackpointersOk(s, r) && i < |r.datas|
    ensures Sole(r.datas, i)
  {
    hide Times, LastCount, FoundSum, SizesAre;
    forall j | 0 <= j < |r.datas| && j != i ensures DataKeyOf(r.datas[j]) != DataKeyOf(r.datas[i]) {
      assert EntryKnown(p, s, r.datas, i) && DataBackOk(s, r.nr, r.datas[i]);
      assert EntryKnown(p, s, r.datas, j) && DataBackOk(s, r.nr, r.datas[j]);
    }
  }

  lemma NoFiles(p: seq<Event>, s: nat, d: DataKey)
    requires Times(p, s, FileRef(d)) == 0
    ensures forall size: nat :: SizesAre(p, s, d, size)
  {
    TimesSome(p, s, FileRef(d));
  }

  // ---------------------------------------------------------------------------
  // One more event and the data back references

  lemma LastCountNext(all: seq<Event>, n: nat, s: nat, d: DataKey)
    requires n < |all|
    ensures LastCount(all[..n + 1], s, d) ==
      if all[n].start == s && KindOf(all[n]) == DataRef(d) then all[n].count else LastCount(all[..n], s, d)
  {
    assert all[..n + 1][..n] == all[..n];
  }

  lemma SizesNext(all: seq<Event>, n: nat, s: nat, d: DataKey, size: nat)
    requires n < |all| && SizesAre(all[..n], s, d, size)
    requires all[n].start == s && KindOf(all[n]) == FileRef(d) ==> all[n].size == size
    ensures SizesAre(all[..n + 1], s, d, size)
  {
    var p, p' := all[..n], all[..n + 1];
    forall k | 0 <= k < |p'| && p'[k].FileReference? && p'[k].start == s && KindOf(p'[k]) == FileRef(d)
      ensures p'[k].size == size
    {
      if k < n { assert p[k] == p'[k]; }
    }
  }

  /** The entry that an event of key `d` finds or makes has that key, and for an item it is the first. */
  lemma ChosenKey(p: seq<Event>, s: nat, size: nat, ds: seq<DataBack>, d: DataKey, foundRef: bool)
    requires DatasKnown(p, s, ds) && Normal(d)
    ensures var k, all := DataAt(ds, d, foundRef, s, size, 0), DatasWith(ds, s, size, d, foundRef);
      && k < |all| && DataKeyOf(all[k]) == d && (forall i :: 0 <= i < |ds| ==> all[i] == ds[i])
      && (!foundRef ==> forall i :: 0 <= i < k ==> DataKeyOf(all[i]) != d)
  {
    hide Times, LastCount, SizesAre;
    var k := DataAt(ds, d, foundRef, s, size, 0);
    if k < |ds| {
      assert EntryKnown(p, s, ds, k);
      assert SameData(ds[k], d, foundRef, s, size);
    }
    if !foundRef {
      forall i | 0 <= i < k ensures DataKeyOf(ds[i]) != d {
        assert !SameData(ds[i], d, foundRef, s, size);
      }
    }
  }

  /** The entry that takes note. */
  lemma NotedKnown(all: seq<Event>, n: nat, s: nat, size: nat, was: seq<DataBack>, ds: seq<DataBack>, k: nat,
                   d: DataKey, count: nat, foundRef: bool)
    requires Next(all, n, s) && DatasKnown(all[..n], s, was) && Normal(d) && k < |ds| && DataKeyOf(ds[k]) == d
    requires KindOf(all[n]) == (if foundRef then FileRef(d) else DataRef(d))
    requires if foundRef then all[n].size == size else all[n].count == count
    requires |was| <= |ds| && (forall i :: 0 <= i < |was| ==> ds[i] == was[i])
    requires k < |was| || ds[k] == NewData(d, size)
    requires k < |was| ==> SameData(ds[k], d, foundRef, s, size)
    requires !foundRef ==> forall i :: 0 <= i < k ==> DataKeyOf(ds[i]) != d
    requires k < |was| ==> |ds| == |was|
    ensures EntryKnown(all[..n + 1], s, ds[k := Noted(ds[k], s, count, foundRef, size)], k)
  {
    hide Times, LastCount, SizesAre;
    var p, p', now := all[..n], all[..n + 1], ds[k := Noted(ds[k], s, count, foundRef, size)];
    TimesNext(all, n, s, FileRef(d));
    TimesNext(all, n, s, DataRef(d));
    LastCountNext(all, n, s, d);
    assert forall j :: 0 <= j < |ds| ==> DataKeyOf(now[j]) == DataKeyOf(ds[j]);
    if k < |was| {
      assert EntryKnown(p, s, was, k);
      assert Sole(now, k) ==> Sole(was, k);
      assert IsFirst(was, k) ==> IsFirst(now, k);
    } else {
      assert Sole(now, k) ==> !HasData(was, d) by { NotThereBefore(now, was, k, d); }
    }
    if Sole(now, k) && foundRef && !d.full {
      if Times(p, s, FileRef(d)) == 0 { NoFiles(p, s, d); }
      SizesNext(all, n, s, d, size);
    }
    if Sole(now, k) && !foundRef && !d.full && now[k].found { SizesNext(all, n, s, d, now[k].bytes); }
  }

  lemma NotThereBefore(now: seq<DataBack>, was: seq<DataBack>, k: nat, d: DataKey)
    requires k < |now| && DataKeyOf(now[k]) == d && |was| <= k
    requires forall i :: 0 <= i < |was| ==> DataKeyOf(now[i]) == DataKeyOf(was[i])
    ensures Sole(now, k) ==> !HasData(was, d)
  {}

  /** Any other entry. */
  lemma OtherKnown(all: seq<Event>, n: nat, s: nat, was: seq<DataBack>, now: seq<DataBack>, k: nat, d: DataKey, i: nat,
                   foundRef: bool)
    requires Next(all, n, s) && DatasKnown(all[..n], s, was) && k < |now| && DataKeyOf(now[k]) == d
    requires KindOf(all[n]) == if foundRef then FileRef(d) else DataRef(d)
    requires |was| <= |now| && (forall j :: 0 <= j < |was| ==> DataKeyOf(now[j]) == DataKeyOf(was[j]))
    requires i < |was| && i != k && now[i] == was[i]
    requires !foundRef ==> forall j :: 0 <= j < k ==> DataKeyOf(now[j]) != d
    ensures EntryKnown(all[..n + 1], s, now, i)
  {
    hide Times, LastCount, SizesAre;
    var x := DataKeyOf(now[i]);
    assert EntryKnown(all[..n], s, was, i);
    TimesNext(all, n, s, FileRef(x));
    TimesNext(all, n, s, DataRef(x));
    LastCountNext(all, n, s, x);
    assert IsFirst(was, i) ==> IsFirst(now, i);
    assert Sole(now, i) ==> Sole(was, i) && x != d;
    if Sole(now, i) && now[i].found && !x.full { SizesNext(all, n, s, x, now[i].bytes); }
  }

  lemma DatasKnownNoted(all: seq<Event>, n: nat, s: nat, size: nat, r: Rec, d: DataKey, count: nat, foundRef: bool)
    requires Next(all, n, s) && DatasKnown(all[..n], s, r.datas) && Normal(d)
    requires KindOf(all[n]) == (if foundRef then FileRef(d) else DataRef(d))
    requires if foundRef then all[n].size == size else all[n].count == count
    ensures DatasKnown(all[..n + 1], s, DataNoted(r, s, d, count, foundRef, size).datas)
  {
    hide Times, LastCount, SizesAre, DataNoted, EntryKnown, SameData, Noted, NewData;
    var was, k := r.datas, DataAt(r.datas, d, foundRef, s, size, 0);
    var ds := DatasWith(was, s, size, d, foundRef);
    ChosenKey(all[..n], s, size, was, d, foundRef);
    DataList(r, s, size, d, count, foundRef);
    var now := DataNoted(r, s, d, count, foundRef, size).datas;
    KeptKeys(ds, k, s, count, foundRef, size);
    var p' := all[..n + 1];
    forall i | 0 <= i < |now| ensures EntryKnown(p', s, now, i) {
      if i == k {
        NotedKnown(all, n, s, size, was, ds, k, d, count, foundRef);
      } else {
        OtherKnown(all, n, s, was, now, k, d, i, foundRef);
      }
    }
    forall x | 0 < Times(p', s, FileRef(x)) || 0 < Times(p', s, DataRef(x)) ensures HasData(now, x) {
      TimesNext(all, n, s, FileRef(x));
      TimesNext(all, n, s, DataRef(x));
      if x == d { assert DataKeyOf(now[k]) == x; } else { StillThere(was, now, x); }
    }
  }

  lemma KeptKeys(ds: seq<DataBack>, k: nat, s: nat, count: nat, foundRef: bool, size: nat)
    requires k < |ds|
    ensures var now := ds[k := Noted(ds[k], s, count, foundRef, size)];
      forall i :: 0 <= i < |ds| ==> DataKeyOf(now[i]) == DataKeyOf(ds[i])
  {}

  lemma StillThere(was: seq<DataBack>, now: seq<DataBack>, x: DataKey)
    requires HasData(was, x) && |was| <= |now| && forall i :: 0 <= i < |was| ==> DataKeyOf(now[i]) == DataKeyOf(was[i])
    ensures HasData(now, x)
  {
    var i :| 0 <= i < |was| && DataKeyOf(was[i]) == x;
    assert DataKeyOf(now[i]) == x;
  }

  /** Events of other kinds change nothing for data. */
  lemma DatasKnownSame(all: seq<Event>, n: nat, s: nat, ds: seq<DataBack>)
    requires n < |all| && DatasKnown(all[..n], s, ds)
    requires all[n].start == s ==> !KindOf(all[n]).DataRef? && !KindOf(all[n]).FileRef?
    ensures DatasKnown(all[..n + 1], s, ds)
  {
    hide Times, LastCount, SizesAre;
    var p, p' := all[..n], all[..n + 1];
    forall x
      ensures Times(p', s, FileRef(x)) == Times(p, s, FileRef(x))
      ensures Times(p', s, DataRef(x)) == Times(p, s, DataRef(x))
    {
      TimesNext(all, n, s, FileRef(x));
      TimesNext(all, n, s, DataRef(x));
    }
    forall i | 0 <= i < |ds| ensures EntryKnown(p', s, ds, i) {
      var d := DataKeyOf(ds[i]);
      assert EntryKnown(all[..n], s, ds, i);
      LastCountNext(all, n, s, d);
      if Sole(ds, i) && ds[i].found && !d.full { SizesNext(all, n, s, d, ds[i].bytes); }
    }
  }

  // ---------------------------------------------------------------------------
  // One more event and the counts

  lemma PointersNext(all: seq<Event>, n: nat, s: nat)
    requires n < |all|
    ensures PointerTotal(all[..n + 1], s) ==
      PointerTotal(all[..n], s) + if all[n].start == s && all[n].TreePointer? then 1 else 0
    ensures ItemTotal(all[..n + 1], s) == ItemTotal(all[..n], s) + ItemCount(all[n], s)
  {
    assert all[..n + 1][..n] == all[..n];
  }

  lemma RepeatedNext(all: seq<Event>, n: nat, s: nat)
    requires n < |all|
    ensures Repeated(all[..n + 1], s) <==>
      Repeated(all[..n], s) || (all[n].start == s && KindOf(all[n]).Pointer? && 0 < Times(all[..n], s, KindOf(all[n])))
  {
    hide Times;
    var p, p' := all[..n], all[..n + 1];
    forall t
      ensures Times(p', s, Pointer(t)) ==
        Times(p, s, Pointer(t)) + if all[n].start == s && KindOf(all[n]) == Pointer(t) then 1 else 0
    {
      TimesNext(all, n, s, Pointer(t));
    }
    if all[n].start == s && KindOf(all[n]).Pointer? && 0 < Times(p, s, KindOf(all[n])) {
      assert 1 < Times(p', s, Pointer(KindOf(all[n]).tree));
    }
    if Repeated(p, s) {
      var t :| 1 < Times(p, s, Pointer(t));
      assert 1 < Times(p', s, Pointer(t));
    }
  }

  lemma LookedNext(all: seq<Event>, n: nat, s: nat)
    requires n < |all|
    ensures Looked(all[..n], s) ==> Looked(all[..n + 1], s)
    ensures all[n] == BlockChecked(s, true, true) || (all[n].start == s && KindOf(all[n]).FileRef?) ==>
      Looked(all[..n + 1], s)
  {
    hide Times;
    var p, p' := all[..n], all[..n + 1];
    assert p'[n] == all[n];
    if k :| 0 <= k < |p| && p[k] == BlockChecked(s, true, true) { assert p'[k] == p[k]; }
    if SomeFile(p, s) {
      var d :| 0 < Times(p, s, FileRef(d));
      TimesNext(all, n, s, FileRef(d));
    }
    if all[n].start == s && KindOf(all[n]).FileRef? { TimesNext(all, n, s, FileRef(KindOf(all[n]).data)); }
  }

  /** Counts that an event neither of an item nor of a pointer leaves alone. */
  lemma CountsSame(all: seq<Event>, n: nat, s: nat, size: nat, r: Rec, r': Rec)
    requires n < |all| && CountsKnown(all[..n], s, size, r)
    requires all[n].start == s ==> !KindOf(all[n]).Item? && !KindOf(all[n]).Pointer?
    requires r'.dups == r.dups && r'.foundRec == r.foundRec && r'.nr == r.nr && r'.itemRefs == r.itemRefs
    requires r'.refs + FoundSum(r.datas) == r.refs + FoundSum(r'.datas) && FoundTrees(r'.trees) == FoundTrees(r.trees)
    requires r'.ownerChecked ==> r.ownerChecked || Looked(all[..n + 1], s)
    ensures CountsKnown(all[..n + 1], s, size, r')
  {
    hide Times, FoundSum, FoundTrees, PointerTotal, ItemTotal, Looked, Repeated;
    PointersNext(all, n, s);
    RepeatedNext(all, n, s);
    LookedNext(all, n, s);
    TimesNext(all, n, s, Item);
  }

  lemma TreeRefKnown(all: seq<Event>, n: nat, s: nat, size: nat, r: Rec, t: TreeKey)
    requires Next(all, n, s) && RecKnown(all[..n], s, size, r) && KindOf(all[n]) == TreeRef(t)
    ensures RecKnown(all[..n + 1], s, size, TreeNoted(r, t.full, t.id, false))
  {
    hide CountsKnown, TreesTold, DatasKnown, TreeNoted, FoundTrees, FoundSum;
    TreesNoted(all, n, s, r, t, false);
    TreesFound(r, t, false);
    TreeKeeps(r, t, false);
    DatasKnownSame(all, n, s, r.datas);
    CountsSame(all, n, s, size, r, TreeNoted(r, t.full, t.id, false));
  }

  lemma DataKnown(all: seq<Event>, n: nat, s: nat, size: nat, r: Rec, d: DataKey, count: nat, found: bool, maxSize: nat)
    requires Next(all, n, s) && RecKnown(all[..n], s, size, r) && Normal(d)
    requires KindOf(all[n]) == (if found then FileRef(d) else DataRef(d))
    requires if found then all[n].size == maxSize else all[n].count == count
    ensures RecKnown(all[..n + 1], s, size, DataNoted(r, s, d, count, found, maxSize))
  {
    hide CountsKnown, TreesTold, DatasKnown, DataNoted, FoundTrees, FoundSum, Looked;
    DatasKnownNoted(all, n, s, maxSize, r, d, count, found);
    DatasFound(r, s, maxSize, d, count, found);
    DataList(r, s, maxSize, d, count, found);
    TreesSame(all, n, s, r.trees);
    LookedNext(all, n, s);
    CountsSame(all, n, s, size, r, DataNoted(r, s, d, count, found, maxSize));
  }

  lemma CheckedKnown(all: seq<Event>, n: nat, s: nat, size: nat, r: Rec, r': Rec)
    requires Next(all, n, s) && RecKnown(all[..n], s, size, r) && all[n].BlockChecked?
    requires r' == r.(contentChecked := r'.contentChecked, ownerChecked := r'.ownerChecked)
    requires r'.ownerChecked ==> r.ownerChecked || (all[n].contentOk && all[n].ownerOk)
    ensures RecKnown(all[..n + 1], s, size, r')
  {
    hide CountsKnown, TreesTold, DatasKnown, FoundTrees, FoundSum, Looked;
    TreesSame(all, n, s, r.trees);
    DatasKnownSame(all, n, s, r.datas);
    LookedNext(all, n, s);
    CountsSame(all, n, s, size, r, r');
  }

  /** The one extent item. */
  lemma ItemKnown(all: seq<Event>, n: nat, s: nat, size: nat, o: Option<Rec>)
    requires Next(all, n, s) && RecKnown(all[..n], s, size, Touched(o, size))
    requires all[n].ExtentItem? && all[n].size == size
    requires Times(all[..n], s, Item) == 0 && 1 < size && ItemTotal(all[..n], s) == 0
    ensures RecKnown(all[..n + 1], s, size, Raw(o, size, all[n].count, false, true, size))
  {
    hide Times, TreesTold, DatasKnown, FoundTrees, FoundSum, PointerTotal, ItemTotal, Looked, Repeated;
    var was := Touched(o, size);
    TreesSame(all, n, s, was.trees);
    DatasKnownSame(all, n, s, was.datas);
    PointersNext(all, n, s);
    RepeatedNext(all, n, s);
    LookedNext(all, n, s);
    TimesNext(all, n, s, Item);
  }

  /** A pointer: the reference is counted, and then its back reference noted. */
  lemma PointerKnown(all: seq<Event>, n: nat, s: nat, size: nat, was: Rec, r: Rec, t: TreeKey)
    requires Next(all, n, s) && RecKnown(all[..n], s, size, was) && KindOf(all[n]) == Pointer(t)
    requires Counted(was, r, size)
    ensures RecKnown(all[..n + 1], s, size, TreeNoted(r, t.full, t.id, true))
  {
    hide Times, TreesTold, DatasKnown, TreeNoted, FoundTrees, FoundSum, PointerTotal, ItemTotal, Looked, Repeated,
         TreeAt;
    TreesNoted(all, n, s, r, t, true);
    TreesFound(r, t, true);
    TreeKeeps(r, t, true);
    DatasKnownSame(all, n, s, r.datas);
    PointersNext(all, n, s);
    RepeatedNext(all, n, s);
    LookedNext(all, n, s);
    TimesNext(all, n, s, Item);
    MetBefore(all[..n], s, was.trees, t);
  }

  /** The entry of a key was found exactly if a pointer was met. */
  lemma MetBefore(p: seq<Event>, s: nat, ts: seq<TreeBack>, t: TreeKey)
    requires TreesTold(p, s, ts)
    ensures var k := TreeAt(ts, t.full, t.id, 0); (k < |ts| && ts[k].found) <==> 0 < Times(p, s, Pointer(t))
  {
    hide Times;
    var k := TreeAt(ts, t.full, t.id, 0);
    if k < |ts| {
      assert TreeTold(p, s, ts[k]) && SameTree(ts[k], t.full, t.id);
    }
  }

  /** Between counting a reference and noting it a record is not finished. */
  lemma NotFinished(p: seq<Event>, s: nat, size: nat, was: Rec, r: Rec)
    requires RecKnown(p, s, size, was) && Counted(was, r, size)
    ensures !Finished(s, r)
  {
    hide Times, TreesTold, DatasKnown, Looked, Repeated, ItemTotal, PointerTotal, FoundSum, FoundTrees;
    if forall i :: 0 <= i < |r.trees| ==> TreeBackOk(r.trees[i]) { AllFound(r.trees); }
  }

  // ---------------------------------------------------------------------------
  // Records that come too late

  /** A record without its item that has counted a reference, or waits for one: it will never be clean. */
  ghost predicate Spoiled(r: Rec) {
    && r.itemRefs == 0
    && (0 < r.refs || (exists i :: 0 <= i < |r.trees| && !r.trees[i].found) ||
        exists i :: 0 <= i < |r.datas| && r.datas[i].diskBytenr == 0)
  }

  lemma SpoiledUnclean(s: nat, r: Rec)
    requires 0 < s && Spoiled(r)
    ensures !Clean(s, r) && !Finished(s, r)
  {
    hide FoundSum;
    if i :| 0 <= i < |r.trees| && !r.trees[i].found { assert !TreeBackOk(r.trees[i]); }
    if i :| 0 <= i < |r.datas| && r.datas[i].diskBytenr == 0 { assert !DataBackOk(s, r.nr, r.datas[i]); }
  }

  /** A tree reference item leaves a tree that waits for its pointer. */
  lemma TreeSpoils(r: Rec, t: TreeKey)
    requires r.itemRefs == 0
    ensures var now := TreeNoted(r, t.full, t.id, false);
      (Spoiled(r) || TreeAt(r.trees, t.full, t.id, 0) == |r.trees|) ==> Spoiled(now)
  {
    var k, now := TreeAt(r.trees, t.full, t.id, 0), TreeNoted(r, t.full, t.id, false);
    if k == |r.trees| { assert !now.trees[k].found; }
    if i :| 0 <= i < |r.trees| && !r.trees[i].found { assert !now.trees[i].found; }
  }

  lemma DataSpoils(r: Rec, s: nat, size: nat, d: DataKey, count: nat)
    requires r.itemRefs == 0
    ensures var now := DataNoted(r, s, d, count, false, size);
      (Spoiled(r) || DataAt(r.datas, d, false, s, size, 0) == |r.datas|) ==> Spoiled(now)
  {
    hide DataNoted, SameData;
    DataList(r, s, size, d, count, false);
    var k, now := DataAt(r.datas, d, false, s, size, 0), DataNoted(r, s, d, count, false, size);
    if k == |r.datas| { assert now.datas[k].diskBytenr == 0; }
    if i :| 0 <= i < |r.datas| && r.datas[i].diskBytenr == 0 { assert now.datas[i].diskBytenr == 0; }
  }

  lemma FileSpoils(r: Rec, s: nat, size: nat, d: DataKey)
    requires r.itemRefs == 0
    ensures Spoiled(DataNoted(r, s, d, 1, true, size))
  {
    hide DataNoted, SameData;
    DataList(r, s, size, d, 1, true);
  }

  /** What any event but an extent item makes of a spoiled record. */
  lemma SpoiledStays(r: Rec, e: Event)
    requires 0 < e.start && Spoiled(r) && !e.ExtentItem?
    ensures StepRec(Some(r), e).Some? && Spoiled(StepRec(Some(r), e).value)
  {
    hide Spoiled, TreeNoted, DataNoted, Finished;
    assert r.itemRefs == 0 by { NoItemRefs(r); }
    match e {
      case TreePointer(s, size, parent, root) => SpoiledPointer(r, s, size, TreeOf(parent, root));
      case TreeRefItem(s, parent, root) => TreeSpoils(r, TreeOf(parent, root));
      case DataRefItem(s, parent, root, owner, offset, count, size) =>
        DataSpoils(r, s, size, KeyOf(parent, root, owner, offset), count);
      case FileReference(s, parent, root, owner, offset, size) =>
        FileSpoils(r, s, size, KeyOf(parent, root, owner, offset));
      case BlockChecked(s, contentOk, ownerOk) => SpoiledChecked(r, s, contentOk, ownerOk);
    }
  }

  lemma NoItemRefs(r: Rec)
    requires Spoiled(r)
    ensures r.itemRefs == 0
  {}

  lemma SpoiledPointer(r: Rec, s: nat, size: nat, t: TreeKey)
    requires 0 < s && r.itemRefs == 0
    ensures var o := ExtentNoted(s, Some(r), size, 0, true, false, false, size);
      Spoiled(TreeNoted(Touched(o, 0), t.full, t.id, true))
  {
    hide TreeNoted;
    var a := Absorb(r, size, 0, true, false, false, size);
    assert Spoiled(a);
    SpoiledUnclean(s, a);
    TreeKeeps(a, t, true);
  }

  lemma SpoiledChecked(r: Rec, s: nat, contentOk: bool, ownerOk: bool)
    requires 0 < s && Spoiled(r)
    ensures var o := BlockNoted(s, Some(r), contentOk, ownerOk); o.Some? && Spoiled(o.value)
  {
    var a := r.(contentChecked := true, ownerChecked := true);
    assert Spoiled(a) && Spoiled(r.(contentChecked := true));
    SpoiledUnclean(s, a);
  }

  /** The first event for an extent without record, other than its item, spoils the record. */
  lemma FirstSpoils(e: Event)
    requires 0 < e.start && !e.ExtentItem? && !e.BlockChecked?
    ensures StepRec(None, e).Some? && Spoiled(StepRec(None, e).value)
  {
    hide Spoiled, TreeNoted, DataNoted;
    match e {
      case TreePointer(s, size, parent, root) => FirstPointer(s, size, TreeOf(parent, root));
      case TreeRefItem(s, parent, root) => TreeSpoils(Touched(None, 0), TreeOf(parent, root));
      case DataRefItem(s, parent, root, owner, offset, count, size) =>
        DataSpoils(Touched(None, size), s, size, KeyOf(parent, root, owner, offset), count);
      case FileReference(s, parent, root, owner, offset, size) =>
        FileSpoils(Touched(None, size), s, size, KeyOf(parent, root, owner, offset));
    }
  }

  lemma FirstPointer(s: nat, size: nat, t: TreeKey)
    ensures Spoiled(TreeNoted(NewRec(size, 0, true, false, false, size), t.full, t.id, true))
  {
    hide TreeNoted;
    TreeKeeps(NewRec(size, 0, true, false, false, size), t, true);
  }

  // ---------------------------------------------------------------------------
  // Whole lists of events

  /** Only checks of blocks so far. */
  ghost predicate OnlyChecks(p: seq<Event>, s: nat) {
    forall k :: 0 <= k < |p| && p[k].start == s ==> p[k].BlockChecked?
  }

  lemma {:induction false} NothingCounted(p: seq<Event>, s: nat, k: Kind)
    requires OnlyChecks(p, s)
    ensures PointerTotal(p, s) == 0 && ItemTotal(p, s) == 0 && (k != Checked ==> Times(p, s, k) == 0)
  {
    if p != [] {
      var n := |p| - 1;
      assert p[n].start == s ==> p[n].BlockChecked?;
      assert forall i :: 0 <= i < n ==> p[..n][i] == p[i];
      NothingCounted(p[..n], s, k);
    }
  }

  lemma BlankKnown(p: seq<Event>, s: nat, size: nat, maxSize: nat)
    requires OnlyChecks(p, s)
    ensures RecKnown(p, s, size, NewRec(1, 0, false, false, false, maxSize)) && Silent(p, s)
  {
    hide Times, PointerTotal, ItemTotal;
    forall k
      ensures PointerTotal(p, s) == 0 && ItemTotal(p, s) == 0 && (k != Checked ==> Times(p, s, k) == 0)
    {
      NothingCounted(p, s, k);
    }
    assert Times(p, s, Item) == 0;
  }

  /** How an extent stands after the first `n` events: its record knows what was delivered; or only
      blocks were checked; or the record was dropped and the events agreed; or what came after that
      has spoiled a new record. */
  ghost predicate Standing(all: seq<Event>, n: nat, s: nat, size: nat, o: Option<Rec>)
    requires n <= |all|
  {
    || (o.Some? && RecKnown(all[..n], s, size, o.value))
    || (o.None? && OnlyChecks(all[..n], s))
    || (0 < Times(all[..n], s, Item) && if o.None? then Agrees(all[..n], s, size) else Spoiled(o.value))
  }

  /** A record that is dropped had nothing left to disagree about. */
  lemma KeptStanding(all: seq<Event>, n: nat, s: nat, size: nat, r: Rec)
    requires n <= |all| && 0 < s && RecKnown(all[..n], s, size, r)
    ensures Standing(all, n, s, size, Kept(s, r))
  {
    hide Agrees, BackpointersOk;
    if Finished(s, r) {
      hide TreesTold, DatasKnown, FoundTrees, FoundSum, PointerTotal, Looked;
      ItemSeen(all[..n], s);
      CleanAgrees(all[..n], s, size, r);
    }
  }

  lemma {:induction false} ItemSeen(p: seq<Event>, s: nat)
    ensures 0 < ItemTotal(p, s) ==> 0 < Times(p, s, Item)
    ensures Times(p, s, Item) == 0 ==> ItemTotal(p, s) == 0
  {
    if p != [] { ItemSeen(p[..|p| - 1], s); }
  }

  /** Events that leave an agreement alone. */
  lemma AgreesNext(all: seq<Event>, n: nat, s: nat, size: nat)
    requires n < |all| && Agrees(all[..n], s, size) && (all[n].start == s ==> all[n].BlockChecked?)
    ensures Agrees(all[..n + 1], s, size)
  {
    hide Times, LastCount, SizesAre, Looked;
    var p, p' := all[..n], all[..n + 1];
    LookedNext(all, n, s);
    forall k | k != Checked ensures Times(p', s, k) == Times(p, s, k) { TimesNext(all, n, s, k); }
    forall d ensures DataAgrees(p', s, size, d) {
      assert DataAgrees(p, s, size, d);
      LastCountNext(all, n, s, d);
      if !d.full { SizesNext(all, n, s, d, size); }
    }
  }

  lemma ChecksNext(all: seq<Event>, n: nat, s: nat)
    requires n < |all| && OnlyChecks(all[..n], s) && (all[n].start == s ==> all[n].BlockChecked?)
    ensures OnlyChecks(all[..n + 1], s)
  {
    var p, p' := all[..n], all[..n + 1];
    assert forall k :: 0 <= k < n ==> p'[k] == p[k];
  }

  /** An event of another extent. */
  lemma OtherStanding(all: seq<Event>, n: nat, s: nat, size: nat, o: Option<Rec>)
    requires n < |all| && all[n].start != s && Standing(all, n, s, size, o)
    ensures Standing(all, n + 1, s, size, o)
  {
    hide RecKnown, OnlyChecks, Agrees, Spoiled, Times;
    TimesNext(all, n, s, Item);
    if o.Some? && RecKnown(all[..n], s, size, o.value) {
      OtherKnownRec(all, n, s, size, o.value);
    } else if o.None? && OnlyChecks(all[..n], s) {
      ChecksNext(all, n, s);
    } else if o.None? {
      AgreesNext(all, n, s, size);
    }
  }

  lemma OtherKnownRec(all: seq<Event>, n: nat, s: nat, size: nat, r: Rec)
    requires n < |all| && all[n].start != s && RecKnown(all[..n], s, size, r)
    ensures RecKnown(all[..n + 1], s, size, r)
  {
    hide CountsKnown, DatasKnown, Times, Looked;
    CountsSame(all, n, s, size, r, r);
    DatasKnownSame(all, n, s, r.datas);
    var p, p' := all[..n], all[..n + 1];
    forall k ensures Times(p', s, k) == Times(p, s, k) { TimesNext(all, n, s, k); }
    assert forall i :: 0 <= i < |r.trees| ==> TreeTold(p, s, r.trees[i]);
  }

  /** A record that is known, or still to be made, takes the next event. */
  lemma KnownStep(all: seq<Event>, n: nat, s: nat, size: nat, o: Option<Rec>)
    requires Next(all, n, s) && 0 < s && 1 < size && !all[n].BlockChecked?
    requires forall maxSize: nat :: RecKnown(all[..n], s, size, Touched(o, maxSize))
    requires all[n].ExtentItem? ==> all[n].size == size && Times(all[..n], s, Item) == 0
    ensures Standing(all, n + 1, s, size, StepRec(o, all[n]))
  {
    hide RecKnown, Times, TreeNoted, DataNoted, Finished, Touched, Absorb, NewRec;
    match all[n] {
      case ExtentItem(_, _, count) =>
        ItemSeen(all[..n], s);
        ItemKnown(all, n, s, size, o);
        RawStanding(all, n, s, size, o, count);
      case TreePointer(_, z, parent, root) => PointerStanding(all, n, s, size, o, z, TreeOf(parent, root));
      case TreeRefItem(_, parent, root) => TreeRefKnown(all, n, s, size, Touched(o, 0), TreeOf(parent, root));
      case DataRefItem(_, parent, root, owner, offset, count, z) =>
        DataKnown(all, n, s, size, Touched(o, z), KeyOf(parent, root, owner, offset), count, false, z);
      case FileReference(_, parent, root, owner, offset, z) =>
        DataKnown(all, n, s, size, Touched(o, z), KeyOf(parent, root, owner, offset), 1, true, z);
    }
  }

  lemma RawStanding(all: seq<Event>, n: nat, s: nat, size: nat, o: Option<Rec>, count: nat)
    requires n < |all| && 0 < s && RecKnown(all[..n + 1], s, size, Raw(o, size, count, false, true, size))
    ensures Standing(all, n + 1, s, size, ExtentNoted(s, o, size, count, false, false, true, size))
  {
    hide RecKnown, Standing, Finished;
    KeptStanding(all, n + 1, s, size, Raw(o, size, count, false, true, size));
    if o.None? { KnownStands(all, n + 1, s, size, Raw(o, size, count, false, true, size)); }
  }

  lemma KnownStands(all: seq<Event>, n: nat, s: nat, size: nat, r: Rec)
    requires n <= |all| && RecKnown(all[..n], s, size, r)
    ensures Standing(all, n, s, size, Some(r))
  {
    hide RecKnown;
  }

  lemma PointerStanding(all: seq<Event>, n: nat, s: nat, size: nat, o: Option<Rec>, z: nat, t: TreeKey)
    requires Next(all, n, s) && 1 < size && KindOf(all[n]) == Pointer(t) && RecKnown(all[..n], s, size, Touched(o, z))
    ensures var o' := ExtentNoted(s, o, z, 0, true, false, false, z);
      RecKnown(all[..n + 1], s, size, TreeNoted(Touched(o', 0), t.full, t.id, true))
  {
    hide RecKnown, TreeNoted, Finished;
    var was, r := Touched(o, z), Raw(o, z, 0, true, false, z);
    assert Counted(was, r, size);
    NotFinished(all[..n], s, size, was, r);
    PointerKnown(all, n, s, size, was, r, t);
  }

  /** A block of the extent is checked. */
  lemma CheckedStanding(all: seq<Event>, n: nat, s: nat, size: nat, o: Option<Rec>)
    requires Next(all, n, s) && 0 < s && all[n].BlockChecked? && Standing(all, n, s, size, o)
    ensures Standing(all, n + 1, s, size, StepRec(o, all[n]))
  {
    hide RecKnown, OnlyChecks, Agrees, Spoiled, Times, Finished;
    TimesNext(all, n, s, Item);
    if o.Some? && RecKnown(all[..n], s, size, o.value) {
      var r := o.value;
      CheckedKnown(all, n, s, size, r, r);
      CheckedKnown(all, n, s, size, r, r.(contentChecked := true));
      if all[n].contentOk && all[n].ownerOk {
        var r' := r.(contentChecked := true, ownerChecked := true);
        CheckedKnown(all, n, s, size, r, r');
        KeptStanding(all, n + 1, s, size, r');
      }
    } else if o.None? && OnlyChecks(all[..n], s) {
      ChecksNext(all, n, s);
    } else if o.None? {
      AgreesNext(all, n, s, size);
    } else {
      SpoiledStays(o.value, all[n]);
    }
  }

  lemma {:induction false} FoldStanding(all: seq<Event>, n: nat, s: nat, size: nat)
    requires n <= |all| && 0 < s && OneItem(all, s, size)
    ensures Standing(all, n, s, size, Fold(all[..n], s))
    decreases n
  {
    hide RecKnown, OnlyChecks, Agrees, Spoiled, Times, StepRec, OneItem;
    if n == 0 {
      assert OnlyChecks(all[..0], s) by { assert all[..0] == []; NothingToCheck(s); }
    } else {
      var k := n - 1;
      FoldStanding(all, k, s, size);
      assert all[..n][..k] == all[..k];
      var o, e := Fold(all[..k], s), all[k];
      if e.start != s {
        OtherStanding(all, k, s, size, o);
      } else if e.BlockChecked? {
        CheckedStanding(all, k, s, size, o);
      } else {
        EventStanding(all, k, s, size, o);
      }
    }
  }

  lemma NothingToCheck(s: nat)
    ensures OnlyChecks([], s)
  {}

  lemma EventStanding(all: seq<Event>, n: nat, s: nat, size: nat, o: Option<Rec>)
    requires Next(all, n, s) && 0 < s && OneItem(all, s, size) && !all[n].BlockChecked? && Standing(all, n, s, size, o)
    ensures Standing(all, n + 1, s, size, StepRec(o, all[n]))
  {
    hide RecKnown, OnlyChecks, Agrees, Spoiled, Times, StepRec;
    TimesNext(all, n, s, Item);
    TimesAll(all, n, s, Item);
    if o.Some? && RecKnown(all[..n], s, size, o.value) {
      KnownStep(all, n, s, size, o);
    } else if o.None? && OnlyChecks(all[..n], s) {
      forall maxSize: nat ensures RecKnown(all[..n], s, size, Touched(o, maxSize)) {
        BlankKnown(all[..n], s, size, maxSize);
      }
      KnownStep(all, n, s, size, o);
    } else if o.None? {
      FirstSpoils(all[n]);
    } else {
      SpoiledStays(o.value, all[n]);
    }
  }

  /** One extent item: nothing to report means that the events agree. */
  lemma SettledAgrees(es: seq<Event>, s: nat, size: nat)
    requires 0 < s && OneItem(es, s, size) && Settled(es, s)
    ensures Agrees(es, s, size)
  {
    hide RecKnown, Agrees, Spoiled, Times, Fold, Clean;
    FoldStanding(es, |es|, s, size);
    assert es[..|es|] == es;
    var o := Fold(es, s);
    if o.Some? && RecKnown(es, s, size, o.value) {
      CleanAgrees(es, s, size, o.value);
    } else if o.Some? {
      SpoiledUnclean(s, o.value);
    } else if OnlyChecks(es, s) {
      NothingCounted(es, s, Item);
    }
  }

  /** No extent item: nothing to report means that nothing is said about the extent. */
  lemma {:induction false} NoItemFold(es: seq<Event>, s: nat)
    requires 0 < s && forall k :: 0 <= k < |es| && es[k].start == s ==> !es[k].ExtentItem?
    ensures var o := Fold(es, s); if o.None? then OnlyChecks(es, s) else Spoiled(o.value)
  {
    hide Spoiled, StepRec;
    if es != [] {
      var n := |es| - 1;
      assert forall i :: 0 <= i < n ==> es[..n][i] == es[i];
      NoItemFold(es[..n], s);
      var o, e := Fold(es[..n], s), es[n];
      if e.start == s {
        if o.Some? {
          SpoiledStays(o.value, e);
        } else if e.BlockChecked? {
          NoRecord(e);
        } else {
          FirstSpoils(e);
        }
      }
    }
  }

  lemma NoRecord(e: Event)
    requires e.BlockChecked?
    ensures StepRec(None, e) == None
  {}

  lemma SettledSilent(es: seq<Event>, s: nat)
    requires 0 < s && Settled(es, s) && Times(es, s, Item) == 0
    ensures Silent(es, s)
  {
    hide Spoiled, Fold, Clean;
    TimesSome(es, s, Item);
    NoItemFold(es, s);
    if Fold(es, s).Some? { SpoiledUnclean(s, Fold(es, s).value); }
    forall k | k != Checked ensures Times(es, s, k) == 0 { NothingCounted(es, s, k); }
  }

  /**
    A whole check, both ways.  Events that fit together are accepted in any order.  And a run
    without error means, for every extent but one at 0: with one extent item, that its count is
    the number of references, that both sides agree on every pointer and every data reference,
    that file references have the item's size, and that the owner was looked at; without an item,
    that nothing refers to the extent.
   */
  method CheckEvents(es: seq<Event>) returns (err: bool)
    ensures Consistent(es) ==> !err
    ensures !err ==> forall s: nat :: ItemTotal(es, s) == RefTotal(es, s)
    ensures !err ==> forall s: nat, size: nat :: 0 < s && OneItem(es, s, size) ==> Agrees(es, s, size)
    ensures !err ==> forall s: nat :: 0 < s && Times(es, s, Item) == 0 ==> Silent(es, s)
  {
    hide Consistent, OneItem, Agrees, Silent, Settled, Times;
    if Consistent(es) { ConsistentSettled(es); }
    err := Run(es);
    if !err {
      forall s: nat, size: nat | 0 < s && OneItem(es, s, size) ensures Agrees(es, s, size) {
        SettledAgrees(es, s, size);
      }
      forall s: nat | 0 < s && Times(es, s, Item) == 0 ensures Silent(es, s) { SettledSilent(es, s); }
    }
  }
}
