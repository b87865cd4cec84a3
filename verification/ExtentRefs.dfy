/**
  Extent records of the checker: extent items, back references listed in the extent
  tree, and references met while walking the trees, delivered in any order.  A
  record that is found balanced is dropped at once and may be created again later.
 */
module ExtentRefs {
  import opened Basics

  datatype TreeBack = TreeBack(full: bool, id: nat, inExtentTree: bool, found: bool)

  datatype DataBack = DataBack(full: bool, id: nat, owner: nat, offset: nat, diskBytenr: nat, bytes: nat,
                               numRefs: nat, foundRef: nat, inExtentTree: bool, found: bool)

  /** struct extent_record; its start is the key under which it is cached. */
  datatype Rec = Rec(nr: nat, maxSize: nat, refs: nat, itemRefs: nat, foundRec: bool, contentChecked: bool,
                     ownerChecked: bool, dups: nat, trees: seq<TreeBack>, datas: seq<DataBack>)

  function FoundSum(ds: seq<DataBack>): nat {
    if ds == [] then 0 else FoundSum(ds[..|ds| - 1]) + ds[|ds| - 1].foundRef
  }

  lemma {:induction false} FoundConcat(a: seq<DataBack>, b: seq<DataBack>)
    ensures FoundSum(a + b) == FoundSum(a) + FoundSum(b)
  {
    if b == [] {
      assert a + b == a;
    } else {
      FoundConcat(a, b[..|b| - 1]);
      assert (a + b)[..|a + b| - 1] == a + b[..|b| - 1];
    }
  }

  lemma FoundAppend(a: seq<DataBack>, d: DataBack)
    ensures FoundSum(a + [d]) == FoundSum(a) + d.foundRef
  {
    assert (a + [d])[..|a|] == a;
  }

  lemma FoundUpTo(ds: seq<DataBack>, i: nat)
    requires i < |ds|
    ensures FoundSum(ds[..i + 1]) == FoundSum(ds[..i]) + ds[i].foundRef
  {
    assert ds[..i + 1] == ds[..i] + [ds[i]];
    FoundAppend(ds[..i], ds[i]);
  }

  lemma FoundNone(ds: seq<DataBack>)
    ensures FoundSum(ds[..0]) == 0
  {}

  lemma FoundUpdate(ds: seq<DataBack>, i: nat, d: DataBack)
    requires i < |ds|
    ensures FoundSum(ds[i := d]) + ds[i].foundRef == FoundSum(ds) + d.foundRef
  {
    FoundConcat(ds[..i] + [ds[i]], ds[i + 1..]);
    FoundConcat(ds[..i] + [d], ds[i + 1..]);
    FoundAppend(ds[..i], ds[i]);
    FoundAppend(ds[..i], d);
    assert ds == ds[..i] + [ds[i]] + ds[i + 1..];
    assert ds[i := d] == ds[..i] + [d] + ds[i + 1..];
  }

  ghost predicate TreeBackOk(t: TreeBack) { t.inExtentTree && t.found }

  ghost predicate DataBackOk(start: nat, nr: nat, d: DataBack) {
    d.inExtentTree && d.foundRef == d.numRefs && d.diskBytenr == start && d.bytes == nr
  }

  /** Every back reference was seen from both sides, with the right counts. */
  ghost predicate BackpointersOk(start: nat, r: Rec) {
    && (forall i :: 0 <= i < |r.trees| ==> TreeBackOk(r.trees[i]))
    && (forall i :: 0 <= i < |r.datas| ==> DataBackOk(start, r.nr, r.datas[i]))
    && |r.trees| + FoundSum(r.datas) == r.refs
  }

  /** A record that nothing more is expected of. */
  ghost predicate Finished(start: nat, r: Rec) {
    r.contentChecked && r.ownerChecked && r.itemRefs == r.refs && r.refs > 0 && r.dups == 0 && BackpointersOk(start, r)
  }

  /** all_backpointers_checked: false when something is wrong. */
  method AllBackpointersChecked(start: nat, r: Rec) returns (ok: bool)
    ensures ok <==> BackpointersOk(start, r)
  {
    hide FoundSum;
    FoundNone(r.datas);
    var found := 0;
    var i := 0;
    while i < |r.trees|
      invariant i <= |r.trees| && found == i
      invariant forall j :: 0 <= j < i ==> TreeBackOk(r.trees[j])
    {
      if !r.trees[i].inExtentTree || !r.trees[i].found {
        assert !TreeBackOk(r.trees[i]);
        return false;
      }
      found := found + 1;
      i := i + 1;
    }
    i := 0;
    while i < |r.datas|
      invariant i <= |r.datas| && found == |r.trees| + FoundSum(r.datas[..i])
      invariant forall j :: 0 <= j < i ==> DataBackOk(start, r.nr, r.datas[j])
    {
      var d := r.datas[i];
      if !d.inExtentTree || d.foundRef != d.numRefs || d.diskBytenr != start || d.bytes != r.nr {
        assert !DataBackOk(start, r.nr, r.datas[i]);
        return false;
      }
      FoundUpTo(r.datas, i);
      found := found + d.foundRef;
      i := i + 1;
    }
    assert r.datas[..i] == r.datas;
    ok := found == r.refs;
  }

  ghost function Bump(m: map<nat, nat>, s: nat, n: nat): map<nat, nat> { m[s := Get(m, s) + n] }

  /** The ledger entry of one extent: what its record holds, against everything that
      was delivered for the extent so far. */
  ghost predicate Balanced(r: Rec, incs: nat, items: nat, events: nat) {
    && r.refs == incs + FoundSum(r.datas)
    && (!r.foundRec ==> r.itemRefs == 0)
    && (r.dups == 0 ==> items + r.refs == events + r.itemRefs)
  }

  lemma SameBalance(r: Rec, r': Rec, incs: nat, items: nat, events: nat)
    requires Balanced(r, incs, items, events) && FoundSum(r'.datas) == FoundSum(r.datas)
    requires r'.refs == r.refs && r'.foundRec == r.foundRec && r'.itemRefs == r.itemRefs && r'.dups == r.dups
    ensures Balanced(r', incs, items, events)
  {}

  /** The back reference after one more event. */
  function Noted(b: DataBack, start: nat, numRefs: nat, foundRef: bool, maxSize: nat): (r: DataBack)
    ensures r.full == b.full && r.id == b.id && r.foundRef == b.foundRef + if foundRef then 1 else 0
    ensures if foundRef then r.found && r.bytes == maxSize && r.diskBytenr == start
      else r.inExtentTree && r.numRefs == numRefs
  {
    if foundRef then b.(found := true, foundRef := b.foundRef + 1, bytes := maxSize, diskBytenr := start)
    else b.(numRefs := numRefs, inExtentTree := true)
  }

  function NotedRec(r: Rec, i: nat, start: nat, numRefs: nat, foundRef: bool, maxSize: nat): Rec
    requires i < |r.datas|
  {
    var r1 := r.(datas := r.datas[i := Noted(r.datas[i], start, numRefs, foundRef, maxSize)]);
    if foundRef then r1.(refs := r.refs + 1, contentChecked := true, ownerChecked := true) else r1
  }

  lemma NotedBalanced(r: Rec, i: nat, start: nat, numRefs: nat, foundRef: bool, maxSize: nat, incs: nat, items: nat,
                      events: nat)
    requires i < |r.datas| && Balanced(r, incs, items, events)
    ensures Balanced(NotedRec(r, i, start, numRefs, foundRef, maxSize), incs, items, events + if foundRef then 1 else 0)
  {
    hide FoundSum, Noted;
    FoundUpdate(r.datas, i, Noted(r.datas[i], start, numRefs, foundRef, maxSize));
  }

  lemma BumpTwice(m: map<nat, nat>, s: nat, n: nat)
    ensures Bump(Bump(m, s, 0), s, n) == Bump(m, s, n)
  {}

  /** add_extent_rec on a record that exists already. */
  function Absorb(r: Rec, nr: nat, itemRefs: nat, incRef: bool, setChecked: bool, extentRec: bool, maxSize: nat): Rec {
    var r1 := if incRef then r.(refs := r.refs + 1) else r;
    var r2 := if r1.nr == 1 then r1.(nr := Max(nr, maxSize)) else r1;
    var dup := extentRec && r2.foundRec;
    var r3 := if dup then r2.(dups := r2.dups + 1) else if extentRec then r2.(nr := nr, foundRec := true) else r2;
    var r4 := if 0 < itemRefs && !dup then r3.(itemRefs := itemRefs) else r3;
    var r5 := if setChecked then r4.(contentChecked := true, ownerChecked := true) else r4;
    if r5.maxSize < maxSize then r5.(maxSize := maxSize) else r5
  }

  /** add_extent_rec when the extent has no record. */
  function NewRec(nr: nat, itemRefs: nat, incRef: bool, setChecked: bool, extentRec: bool, maxSize: nat): Rec {
    Rec(Max(nr, maxSize), maxSize, if incRef then 1 else 0, itemRefs, extentRec, setChecked, setChecked, 0, [], [])
  }

  lemma AbsorbBalanced(r: Rec, nr: nat, itemRefs: nat, incRef: bool, setChecked: bool, extentRec: bool, maxSize: nat,
                       incs: nat, items: nat, events: nat)
    requires Balanced(r, incs, items, events) && (0 < itemRefs ==> extentRec)
    ensures var n := if incRef then 1 else 0;
            Balanced(Absorb(r, nr, itemRefs, incRef, setChecked, extentRec, maxSize), incs + n, items + itemRefs,
                     events + n)
  {
    hide FoundSum;
  }

  lemma NewBalanced(nr: nat, itemRefs: nat, incRef: bool, setChecked: bool, extentRec: bool, maxSize: nat, before: nat)
    requires 0 < itemRefs ==> extentRec
    ensures var n := if incRef then 1 else 0;
      Balanced(NewRec(nr, itemRefs, incRef, setChecked, extentRec, maxSize), n, before + itemRefs, before + n)
  {}

  // ---------------------------------------------------------------------------
  // One event on the record of its extent

  ghost function Entry(recs: map<nat, Rec>, s: nat): Option<Rec> { if s in recs then Some(recs[s]) else None }

  ghost function With(recs: map<nat, Rec>, s: nat, o: Option<Rec>): map<nat, Rec> {
    if o.Some? then recs[s := o.value] else recs - {s}
  }

  /** maybe_free_extent_rec: a finished record is gone. */
  ghost function Kept(s: nat, r: Rec): Option<Rec> { if Finished(s, r) then None else Some(r) }

  /** add_extent_rec. */
  ghost function ExtentNoted(s: nat, o: Option<Rec>, nr: nat, itemRefs: nat, incRef: bool, setChecked: bool,
                             extentRec: bool, maxSize: nat): Option<Rec>
  {
    if o.None? then Some(NewRec(nr, itemRefs, incRef, setChecked, extentRec, maxSize))
    else Kept(s, Absorb(o.value, nr, itemRefs, incRef, setChecked, extentRec, maxSize))
  }

  /** The record that a back reference is attached to. */
  function Touched(o: Option<Rec>, maxSize: nat): Rec {
    if o.Some? then o.value else NewRec(1, 0, false, false, false, maxSize)
  }

  predicate SameTree(t: TreeBack, full: bool, id: nat) { t.full == full && t.id == id }

  /** find_tree_backref from `i` on, or the end. */
  function TreeAt(ts: seq<TreeBack>, full: bool, id: nat, i: nat): (k: nat)
    requires i <= |ts|
    ensures i <= k <= |ts| && (k < |ts| ==> SameTree(ts[k], full, id))
    ensures forall j :: i <= j < k ==> !SameTree(ts[j], full, id)
    decreases |ts| - i
  {
    if i < |ts| && !SameTree(ts[i], full, id) then TreeAt(ts, full, id, i + 1) else i
  }

  /** add_tree_backref. */
  function TreeNoted(r: Rec, full: bool, id: nat, foundRef: bool): Rec {
    var k := TreeAt(r.trees, full, id, 0);
    var ts := if k < |r.trees| then r.trees else r.trees + [TreeBack(full, id, false, false)];
    r.(trees := ts[k := if foundRef then ts[k].(found := true) else ts[k].(inExtentTree := true)])
  }

  /** What identifies a data back reference; owner and offset do not matter for a full one. */
  datatype DataKey = DataKey(full: bool, id: nat, owner: nat, offset: nat)

  function KeyOf(parent: nat, root: nat, owner: nat, offset: nat): DataKey {
    if 0 < parent then DataKey(true, parent, 0, 0) else DataKey(false, root, owner, offset)
  }

  /** The test of find_data_backref. */
  predicate SameData(b: DataBack, key: DataKey, foundRef: bool, start: nat, maxSize: nat) {
    b.full == key.full && b.id == key.id &&
    (key.full || (b.owner == key.owner && b.offset == key.offset &&
                  !(foundRef && b.found && (b.bytes != maxSize || b.diskBytenr != start))))
  }

  function DataAt(ds: seq<DataBack>, key: DataKey, foundRef: bool, start: nat, maxSize: nat, i: nat): (k: nat)
    requires i <= |ds|
    ensures i <= k <= |ds| && (k < |ds| ==> SameData(ds[k], key, foundRef, start, maxSize))
    ensures forall j :: i <= j < k ==> !SameData(ds[j], key, foundRef, start, maxSize)
    decreases |ds| - i
  {
    if i < |ds| && !SameData(ds[i], key, foundRef, start, maxSize) then
      DataAt(ds, key, foundRef, start, maxSize, i + 1) else i
  }

  function NewData(key: DataKey, maxSize: nat): DataBack {
    DataBack(key.full, key.id, key.owner, key.offset, 0, maxSize, 0, 0, false, false)
  }

  /** The record with the back reference found or appended. */
  function Chosen(r: Rec, key: DataKey, foundRef: bool, start: nat, maxSize: nat): Rec {
    var r1 := r.(maxSize := Max(r.maxSize, maxSize));
    if DataAt(r.datas, key, foundRef, start, maxSize, 0) < |r.datas| then r1
    else r1.(datas := r.datas + [NewData(key, maxSize)])
  }

  /** add_data_backref. */
  function DataNoted(r: Rec, start: nat, key: DataKey, numRefs: nat, foundRef: bool, maxSize: nat): Rec {
    NotedRec(Chosen(r, key, foundRef, start, maxSize), DataAt(r.datas, key, foundRef, start, maxSize, 0), start,
             numRefs, foundRef, maxSize)
  }

  /** check_block. */
  ghost function BlockNoted(s: nat, o: Option<Rec>, contentOk: bool, ownerOk: bool): Option<Rec> {
    if o.None? || !contentOk then o
    else if ownerOk then Kept(s, o.value.(contentChecked := true, ownerChecked := true))
    else Some(o.value.(contentChecked := true))
  }

  /** Every extent balances: live ones through their record, others exactly. */
  ghost predicate Ledger(recs: map<nat, Rec>, incs: map<nat, nat>, items: map<nat, nat>, events: map<nat, nat>) {
    && (forall s :: s in recs ==> Balanced(recs[s], Get(incs, s), Get(items, s), Get(events, s)))
    && (forall s: nat :: s !in recs ==> Get(items, s) == Get(events, s) && Get(incs, s) == 0)
  }

  lemma LedgerSet(recs: map<nat, Rec>, incs: map<nat, nat>, items: map<nat, nat>, events: map<nat, nat>, s: nat, r: Rec,
                  dIncs: nat, dItems: nat, dEvents: nat)
    requires Ledger(recs, incs, items, events)
    requires Balanced(r, Get(incs, s) + dIncs, Get(items, s) + dItems, Get(events, s) + dEvents)
    ensures Ledger(recs[s := r], Bump(incs, s, dIncs), Bump(items, s, dItems), Bump(events, s, dEvents))
  {
    hide Balanced, FoundSum;
  }

  lemma SameLedger(recs: map<nat, Rec>, incs: map<nat, nat>, items: map<nat, nat>, events: map<nat, nat>,
                   items': map<nat, nat>, events': map<nat, nat>)
    requires Ledger(recs, incs, items, events)
    requires forall s: nat :: Get(items, s) == Get(items', s) && Get(events, s) == Get(events', s)
    ensures Ledger(recs, incs, items', events')
  {
  }

  lemma LedgerDrop(recs: map<nat, Rec>, incs: map<nat, nat>, items: map<nat, nat>, events: map<nat, nat>, s: nat)
    requires Ledger(recs, incs, items, events) && s in recs && recs[s].dups == 0 && recs[s].refs == recs[s].itemRefs
    ensures Ledger(recs - {s}, incs - {s}, items, events)
  {
  }

  /** A live record about which check_extent_refs has nothing to report. */
  ghost predicate Clean(s: nat, r: Rec) {
    r.dups == 0 && r.refs == r.itemRefs && BackpointersOk(s, r) && r.ownerChecked
  }

  class Checker {
    var recs: map<nat, Rec>
    /** Sum of the counts in the extent items delivered for each extent. */
    ghost var items: map<nat, nat>
    /** References to each extent met so far. */
    ghost var events: map<nat, nat>
    /** Tree references counted in the live record of each extent. */
    ghost var incs: map<nat, nat>

    ghost predicate Valid()
      reads this
    {
      Ledger(recs, incs, items, events)
    }

    constructor ()
      ensures Valid() && recs == map[] && items == map[] && events == map[]
    {
      recs, items, events, incs := map[], map[], map[], map[];
    }

    /** maybe_free_extent_rec. */
    method MaybeFree(start: nat)
      requires Valid() && start in recs
      modifies this`recs, this`incs
      ensures Valid()
      ensures recs == With(old(recs), start, Kept(start, old(recs)[start]))
    {
      hide Ledger;
      var r := recs[start];
      if r.contentChecked && r.ownerChecked && r.itemRefs == r.refs && r.refs > 0 && r.dups == 0 {
        var ok := AllBackpointersChecked(start, r);
        if ok {
          LedgerDrop(recs, incs, items, events, start);
          recs := recs - {start};
          incs := incs - {start};
        }
      }
    }

    /** add_extent_rec.  Only extent items carry a reference count. */
    method AddExtentRec(start: nat, nr: nat, itemRefs: nat, incRef: bool, setChecked: bool, extentRec: bool,
                        maxSize: nat)
      requires Valid() && (0 < itemRefs ==> extentRec)
      modifies this
      ensures Valid()
      ensures items == Bump(old(items), start, itemRefs)
      ensures events == Bump(old(events), start, if incRef then 1 else 0)
      ensures recs == With(old(recs), start,
                           ExtentNoted(start, Entry(old(recs), start), nr, itemRefs, incRef, setChecked, extentRec,
                                       maxSize))
    {
      hide Ledger, Absorb, Finished, Balanced, Bump, NewRec;
      var n := if incRef then 1 else 0;
      var had := start in recs;
      var r := if had then Absorb(recs[start], nr, itemRefs, incRef, setChecked, extentRec, maxSize)
               else NewRec(nr, itemRefs, incRef, setChecked, extentRec, maxSize);
      if had {
        LedgerAt(start);
        AbsorbBalanced(recs[start], nr, itemRefs, incRef, setChecked, extentRec, maxSize,
                       Get(incs, start), Get(items, start), Get(events, start));
      } else {
        LedgerAt(start);
        NewBalanced(nr, itemRefs, incRef, setChecked, extentRec, maxSize, Get(items, start));
      }
      LedgerSet(recs, incs, items, events, start, r, n, itemRefs, n);
      recs := recs[start := r];
      items, events, incs := Bump(items, start, itemRefs), Bump(events, start, n), Bump(incs, start, n);
      if had {
        MaybeFree(start);
      }
    }

    lemma LedgerAt(s: nat)
      requires Valid()
      ensures s in recs ==> Balanced(recs[s], Get(incs, s), Get(items, s), Get(events, s))
      ensures s !in recs ==> Get(items, s) == Get(events, s) && Get(incs, s) == 0
    {
    }

    /** add_tree_backref: a reference item of the extent tree, or a pointer met in
        the walk.  The reference itself is counted by add_extent_rec. */
    method AddTreeBackref(start: nat, parent: nat, root: nat, foundRef: bool)
      requires Valid()
      modifies this
      ensures Valid() && items == Bump(old(items), start, 0) && events == Bump(old(events), start, 0)
      ensures recs == old(recs)[start := TreeNoted(Touched(Entry(old(recs), start), 0), 0 < parent,
                                                   if 0 < parent then parent else root, foundRef)]
    {
      hide Ledger, Balanced, FoundSum, Bump;
      Touch(start, 1, 0);
      LedgerAt(start);
      var r := NoteTree(recs[start], 0 < parent, if 0 < parent then parent else root, foundRef);
      SameBalance(recs[start], r, Get(incs, start), Get(items, start), Get(events, start));
      Keep(start, r);
    }

    /** Find the back reference, or append one, and mark it. */
    method NoteTree(was: Rec, full: bool, id: nat, foundRef: bool) returns (r: Rec)
      ensures r == TreeNoted(was, full, id, foundRef)
    {
      r := was;
      var i: nat := 0;
      while i < |r.trees| && !SameTree(r.trees[i], full, id)
        invariant i <= |r.trees| && TreeAt(r.trees, full, id, 0) == TreeAt(r.trees, full, id, i)
      {
        i := i + 1;
      }
      if i == |r.trees| {
        r := r.(trees := r.trees + [TreeBack(full, id, false, false)]);
      }
      var b := if foundRef then r.trees[i].(found := true) else r.trees[i].(inExtentTree := true);
      r := r.(trees := r.trees[i := b]);
    }

    /** The record that a back reference is attached to, created if necessary. */
    method Touch(start: nat, nr: nat, maxSize: nat)
      requires Valid() && nr == 1
      modifies this
      ensures Valid() && recs == old(recs)[start := Touched(Entry(old(recs), start), maxSize)]
      ensures items == Bump(old(items), start, 0) && events == Bump(old(events), start, 0)
    {
      hide Ledger;
      if start !in recs {
        AddExtentRec(start, nr, 0, false, false, false, maxSize);
      } else {
        LedgerAt(start);
        LedgerSet(recs, incs, items, events, start, recs[start], 0, 0, 0);
        assert recs[start := recs[start]] == recs;
        items, events, incs := Bump(items, start, 0), Bump(events, start, 0), Bump(incs, start, 0);
      }
    }

    /** A record changed in fields that the ledger does not look at. */
    method Keep(start: nat, r: Rec)
      requires Valid() && start in recs && Balanced(r, Get(incs, start), Get(items, start), Get(events, start))
      modifies this`recs, this`incs
      ensures Valid() && recs == old(recs)[start := r] && incs == Bump(old(incs), start, 0)
    {
      hide Ledger, Balanced;
      LedgerSet(recs, incs, items, events, start, r, 0, 0, 0);
      SameLedger(recs[start := r], Bump(incs, start, 0), Bump(items, start, 0), Bump(events, start, 0), items, events);
      recs := recs[start := r];
      incs := Bump(incs, start, 0);
    }

    /** find_data_backref. */
    method FindDataBackref(r: Rec, key: DataKey, foundRef: bool, start: nat, maxSize: nat) returns (i: nat)
      ensures i == DataAt(r.datas, key, foundRef, start, maxSize, 0)
    {
      i := 0;
      while i < |r.datas|
        invariant i <= |r.datas|
        invariant DataAt(r.datas, key, foundRef, start, maxSize, 0) == DataAt(r.datas, key, foundRef, start, maxSize, i)
      {
        if SameData(r.datas[i], key, foundRef, start, maxSize) { return; }
        i := i + 1;
      }
    }

    /** add_data_backref: a reference item with its count, or one file extent that
        references the extent. */
    method AddDataBackref(start: nat, parent: nat, root: nat, owner: nat, offset: nat, numRefs: nat, foundRef: bool,
                          maxSize: nat)
      requires Valid() && (foundRef ==> numRefs == 1)
      modifies this
      ensures Valid() && items == Bump(old(items), start, 0)
      ensures events == Bump(old(events), start, if foundRef then 1 else 0)
      ensures recs == old(recs)[start :=
        DataNoted(Touched(Entry(old(recs), start), maxSize), start, KeyOf(parent, root, owner, offset), numRefs,
                  foundRef, maxSize)]
    {
      hide Ledger, Balanced, Bump, NotedRec, FoundSum;
      Touch(start, 1, maxSize);
      LedgerAt(start);
      var r, i := ChooseData(recs[start], KeyOf(parent, root, owner, offset), foundRef, start, maxSize);
      SameBalance(recs[start], r, Get(incs, start), Get(items, start), Get(events, start));
      NoteData(start, r, i, numRefs, foundRef, maxSize);
      BumpTwice(old(items), start, 0);
      BumpTwice(old(events), start, if foundRef then 1 else 0);
    }

    /** Find the back reference, or append an empty one. */
    method ChooseData(was: Rec, key: DataKey, foundRef: bool, start: nat, maxSize: nat) returns (r: Rec, i: nat)
      ensures r == Chosen(was, key, foundRef, start, maxSize)
      ensures i == DataAt(was.datas, key, foundRef, start, maxSize, 0) < |r.datas|
      ensures r.refs == was.refs && r.foundRec == was.foundRec && r.itemRefs == was.itemRefs && r.dups == was.dups
      ensures FoundSum(r.datas) == FoundSum(was.datas)
    {
      hide FoundSum, SameData;
      r := if was.maxSize < maxSize then was.(maxSize := maxSize) else was;
      i := FindDataBackref(r, key, foundRef, start, maxSize);
      if i == |r.datas| {
        FoundAppend(r.datas, NewData(key, maxSize));
        r := r.(datas := r.datas + [NewData(key, maxSize)]);
      }
    }

    /** The last step of add_data_backref, on the back reference it chose. */
    method NoteData(start: nat, r: Rec, i: nat, numRefs: nat, foundRef: bool, maxSize: nat)
      requires Valid() && start in recs && i < |r.datas|
      requires Balanced(r, Get(incs, start), Get(items, start), Get(events, start))
      modifies this
      ensures Valid() && items == Bump(old(items), start, 0)
      ensures events == Bump(old(events), start, if foundRef then 1 else 0)
      ensures recs == old(recs)[start := NotedRec(r, i, start, numRefs, foundRef, maxSize)]
    {
      hide Ledger, Balanced, FoundSum, Noted;
      var r' := NotedRec(r, i, start, numRefs, foundRef, maxSize);
      NotedBalanced(r, i, start, numRefs, foundRef, maxSize, Get(incs, start), Get(items, start), Get(events, start));
      var n := if foundRef then 1 else 0;
      LedgerSet(recs, incs, items, events, start, r', 0, 0, n);
      recs := recs[start := r'];
      items, events, incs := Bump(items, start, 0), Bump(events, start, n), Bump(incs, start, 0);
    }

    /** check_block: the contents of a tree block, and possibly its owner, are fine. */
    method CheckBlock(start: nat, contentOk: bool, ownerOk: bool)
      requires Valid()
      modifies this
      ensures Valid() && items == old(items) && events == old(events)
      ensures recs == With(old(recs), start, BlockNoted(start, Entry(old(recs), start), contentOk, ownerOk))
    {
      hide Ledger, Finished;
      if start in recs {
        var r := recs[start];
        if contentOk {
          r := r.(contentChecked := true);
          if ownerOk {
            r := r.(ownerChecked := true);
          }
        }
        LedgerAt(start);
        Keep(start, r);
        if contentOk && ownerOk {
          MaybeFree(start);
        }
      }
    }

    /** check_extent_refs without repair: the verdict over all records still live.
        A run without error accounts for every extent exactly: the counts of its
        extent items add up to the references delivered for it. */
    method CheckExtentRefs() returns (err: bool)
      requires Valid()
      modifies this`recs, this`incs
      ensures !err <==> forall s :: s in old(recs) ==> Clean(s, old(recs)[s])
      ensures !err ==> forall s: nat :: Get(items, s) == Get(events, s)
      ensures recs == map[]
    {
      err := false;
      ghost var before, incs0 := recs, incs;
      while recs != map[]
        invariant forall s :: s in recs ==> s in before && recs[s] == before[s]
        invariant !err <==> forall s :: s in before && s !in recs ==> Clean(s, before[s])
        decreases |recs|
      {
        var s :| s in recs;
        var r := recs[s];
        var ok := AllBackpointersChecked(s, r);
        if r.dups != 0 || r.refs != r.itemRefs || !ok || !r.ownerChecked {
          assert !Clean(s, before[s]);
          err := true;
        }
        recs := recs - {s};
      }
      if !err {
        forall s: nat ensures Get(items, s) == Get(events, s) {
          if s in before {
            assert Clean(s, before[s]);
            assert Balanced(before[s], Get(incs0, s), Get(items, s), Get(events, s));
          }
        }
      }
      incs := map[];
    }
  }

  // ---------------------------------------------------------------------------
  // Whole runs

  /** What the scan of the trees can deliver. */
  datatype Event =
    | ExtentItem(start: nat, size: nat, count: nat)
    | TreePointer(start: nat, size: nat, parent: nat, root: nat)
    | TreeRefItem(start: nat, parent: nat, root: nat)
    | DataRefItem(start: nat, parent: nat, root: nat, owner: nat, offset: nat, count: nat, size: nat)
    | FileReference(start: nat, parent: nat, root: nat, owner: nat, offset: nat, size: nat)
    | BlockChecked(start: nat, contentOk: bool, ownerOk: bool)

  function ItemCount(e: Event, s: nat): nat { if e.ExtentItem? && e.start == s then e.count else 0 }
  function RefCount(e: Event, s: nat): nat { if (e.TreePointer? || e.FileReference?) && e.start == s then 1 else 0 }

  /** Sum of the counts in the extent items for `s`. */
  function ItemTotal(es: seq<Event>, s: nat): nat {
    if es == [] then 0 else ItemTotal(es[..|es| - 1], s) + ItemCount(es[|es| - 1], s)
  }

  /** Number of references to `s`. */
  function RefTotal(es: seq<Event>, s: nat): nat {
    if es == [] then 0 else RefTotal(es[..|es| - 1], s) + RefCount(es[|es| - 1], s)
  }

  /** What an event makes of the record of its extent. */
  ghost function StepRec(o: Option<Rec>, e: Event): Option<Rec> {
    match e
    case ExtentItem(s, size, count) => ExtentNoted(s, o, size, count, false, false, true, size)
    case TreePointer(s, size, parent, root) =>
      Some(TreeNoted(Touched(ExtentNoted(s, o, size, 0, true, false, false, size), 0), 0 < parent,
                     if 0 < parent then parent else root, true))
    case TreeRefItem(s, parent, root) =>
      Some(TreeNoted(Touched(o, 0), 0 < parent, if 0 < parent then parent else root, false))
    case DataRefItem(s, parent, root, owner, offset, count, size) =>
      Some(DataNoted(Touched(o, size), s, KeyOf(parent, root, owner, offset), count, false, size))
    case FileReference(s, parent, root, owner, offset, size) =>
      Some(DataNoted(Touched(o, size), s, KeyOf(parent, root, owner, offset), 1, true, size))
    case BlockChecked(s, contentOk, ownerOk) => BlockNoted(s, o, contentOk, ownerOk)
  }

  /** The record of extent `s` after all events. */
  ghost function Fold(es: seq<Event>, s: nat): Option<Rec> {
    if es == [] then None
    else
      var n := |es| - 1;
      var o := Fold(es[..n], s);
      if es[n].start == s then StepRec(o, es[n]) else o
  }

  method Deliver(c: Checker, e: Event)
    requires c.Valid()
    modifies c
    ensures c.Valid()
    ensures forall s: nat ::
      Entry(c.recs, s) == if s == e.start then StepRec(Entry(old(c.recs), s), e) else Entry(old(c.recs), s)
    ensures forall s: nat :: Get(c.items, s) == Get(old(c.items), s) + ItemCount(e, s)
    ensures forall s: nat :: Get(c.events, s) == Get(old(c.events), s) + RefCount(e, s)
  {
    hide Ledger, NewRec, Absorb, TreeNoted, DataNoted, ExtentNoted, BlockNoted, Touched;
    match e
    case ExtentItem(start, size, count) => c.AddExtentRec(start, size, count, false, false, true, size);
    case TreePointer(start, size, parent, root) =>
      c.AddExtentRec(start, size, 0, true, false, false, size);
      c.AddTreeBackref(start, parent, root, true);
    case TreeRefItem(start, parent, root) => c.AddTreeBackref(start, parent, root, false);
    case DataRefItem(start, parent, root, owner, offset, count, size) =>
      c.AddDataBackref(start, parent, root, owner, offset, count, false, size);
    case FileReference(start, parent, root, owner, offset, size) =>
      c.AddDataBackref(start, parent, root, owner, offset, 1, true, size);
    case BlockChecked(start, contentOk, ownerOk) => c.CheckBlock(start, contentOk, ownerOk);
  }

  /** Nothing is left to report about an extent. */
  ghost predicate Settled(es: seq<Event>, s: nat) { Fold(es, s).None? || Clean(s, Fold(es, s).value) }

  /** A whole check.  Whatever the order of the events, and however often records
      were dropped early and created again, a run that reports no error has for
      every extent as many references as its extent items say.  It reports no error
      exactly when every record still there is clean. */
  method Run(es: seq<Event>) returns (err: bool)
    ensures !err ==> forall s: nat :: ItemTotal(es, s) == RefTotal(es, s)
    ensures !err <==> forall s: nat :: Settled(es, s)
  {
    hide Ledger, StepRec, Clean;
    var c := new Checker();
    var i := 0;
    while i < |es|
      invariant i <= |es| && fresh(c) && c.Valid()
      invariant forall s: nat :: Get(c.items, s) == ItemTotal(es[..i], s) && Get(c.events, s) == RefTotal(es[..i], s)
      invariant forall s: nat :: Entry(c.recs, s) == Fold(es[..i], s)
    {
      assert es[..i + 1][..i] == es[..i];
      Deliver(c, es[i]);
      i := i + 1;
    }
    assert es[..i] == es;
    ghost var recs := c.recs;
    err := c.CheckExtentRefs();
    assert (forall s :: s in recs ==> Clean(s, recs[s])) <==> forall s: nat :: Settled(es, s) by {
      assert forall s: nat :: Settled(es, s) <==> (s in recs ==> Clean(s, recs[s]));
    }
    if !err {
      forall s: nat ensures ItemTotal(es, s) == RefTotal(es, s) {
        assert Get(c.items, s) == Get(c.events, s);
      }
    }
  }

  /** The counts of an extent with a single extent item. */
  lemma {:induction false} SingleItem(es: seq<Event>, s: nat, i: nat)
    requires i < |es| && es[i].ExtentItem? && es[i].start == s
    requires forall j :: 0 <= j < |es| && j != i && es[j].ExtentItem? ==> es[j].start != s
    ensures ItemTotal(es, s) == es[i].count
  {
    var n := |es| - 1;
    if i == n {
      NoItem(es[..n], s);
    } else {
      SingleItem(es[..n], s, i);
    }
  }

  lemma {:induction false} NoItem(es: seq<Event>, s: nat)
    requires forall j :: 0 <= j < |es| && es[j].ExtentItem? ==> es[j].start != s
    ensures ItemTotal(es, s) == 0
  {
    if es != [] { NoItem(es[..|es| - 1], s); }
  }
}
