/**
  Inode records of the checker.  A subtree shared between roots is walked once; its
  records are spliced into every other walk that meets it.  The counters and the
  extent bookkeeping of a spliced record must agree with a plain walk over all the
  items of the inode, however the items were split into subtrees.
 */
module InodeMerge {
  import opened Basics

  /** A file extent item: key offset, length rounded to sectors, bytes charged. */
  datatype FileExtent = FileExtent(off: nat, len: nat, charged: nat) {
    function End(): nat { off + len }
  }

  /** One item, as it affects the record of the inode. */
  datatype Item =
    | Link                      // a DIR_ITEM in some directory names the inode
    | Name(len: nat)            // a directory item of the inode itself
    | Data(extent: FileExtent)

  /** The accumulators of struct inode_record. */
  datatype Totals = Totals(link: nat, size: nat, start: nat, end: nat, gap: nat, overlap: bool)

  function Fresh(): Totals { Totals(0, 0, U64_MAX, 0, U64_MAX, false) }

  /** process_file_extent on the accumulators. */
  function AddExtent(t: Totals, e: FileExtent): Totals {
    var t1 := if t.start == U64_MAX then t.(start := e.off, end := e.off) else t;
    var t2 := if t1.end > e.off then t1.(overlap := true)
              else if t1.end < e.off && t1.end < t1.gap then t1.(gap := t1.end)
              else t1;
    t2.(size := t2.size + e.charged, end := e.End())
  }

  function Add(t: Totals, i: Item): Totals {
    match i
    case Link => t.(link := t.link + 1)
    case Name(n) => t.(size := t.size + n)
    case Data(e) => AddExtent(t, e)
  }

  /** merge_inode_recs on the accumulators. */
  function Merge(dst: Totals, src: Totals): Totals {
    var t := dst.(gap := Min(dst.gap, src.gap), link := dst.link + src.link, size := dst.size + src.size,
                  overlap := dst.overlap || src.overlap);
    if src.start == U64_MAX then t
    else if dst.start == U64_MAX then t.(start := src.start, end := src.end)
    else
      var t1 := if t.end > src.start then t.(overlap := true)
                else if t.end < src.start && t.end < t.gap then t.(gap := t.end)
                else t;
      t1.(end := Max(t1.end, src.end))
  }

  /** A plain walk over the items of the inode. */
  function Walk(items: seq<Item>): Totals {
    if items == [] then Fresh() else Add(Walk(items[..|items| - 1]), items[|items| - 1])
  }

  /** How a record came about: items processed on it, and records spliced into it. */
  datatype History =
    | New
    | Process(before: History, item: Item)
    | Splice(into: History, from: History)

  function Items(h: History): seq<Item> {
    match h
    case New => []
    case Process(b, i) => Items(b) + [i]
    case Splice(a, b) => Items(a) + Items(b)
  }

  function Result(h: History): Totals {
    match h
    case New => Fresh()
    case Process(b, i) => Add(Result(b), i)
    case Splice(a, b) => Merge(Result(a), Result(b))
  }

  /** File extents come in key order. */
  ghost predicate KeyOrder(items: seq<Item>) {
    && (forall i :: 0 <= i < |items| && items[i].Data? ==> items[i].extent.off < U64_MAX)
    && (forall i, j :: 0 <= i < j < |items| && items[i].Data? && items[j].Data? ==>
        items[i].extent.off < items[j].extent.off)
  }

  /** Two results that a reader of the check cannot tell apart: extent end and first
      gap matter only when no overlap was reported. */
  ghost predicate Agree(a: Totals, b: Totals) {
    && a.link == b.link && a.size == b.size && a.start == b.start && a.overlap == b.overlap
    && (!a.overlap ==> a.end == b.end && a.gap == b.gap)
  }

  /** What a walk in key order keeps: the start is the smallest offset seen, and
      without overlap the extents end after every recorded gap. */
  ghost predicate Plausible(t: Totals, bound: nat) {
    && t.gap <= U64_MAX
    && (t.start == U64_MAX ==> !t.overlap && t.gap == U64_MAX && t.end == 0)
    && (t.start != U64_MAX ==> t.start < bound)
    && (t.start != U64_MAX && !t.overlap ==> t.start <= t.end && (t.gap == U64_MAX || t.gap < t.end))
  }

  /** Every extent offset lies below `bound`. */
  ghost predicate Below(items: seq<Item>, bound: nat) {
    forall i :: 0 <= i < |items| && items[i].Data? ==> items[i].extent.off < bound
  }

  lemma {:induction false} WalkPlausible(items: seq<Item>, bound: nat)
    requires KeyOrder(items) && Below(items, bound)
    ensures Plausible(Walk(items), bound)
    ensures Walk(items).start == U64_MAX <==> forall i :: 0 <= i < |items| ==> !items[i].Data?
    ensures forall i :: 0 <= i < |items| && items[i].Data? ==> Walk(items).start <= items[i].extent.off
  {
    if items != [] {
      var n := |items| - 1;
      WalkPlausible(items[..n], if items[n].Data? then items[n].extent.off else bound);
    }
  }

  /** After the first extent, the end of a walk is the end of its last extent. */
  lemma {:induction false} WalkEnd(a: seq<Item>, b: seq<Item>)
    requires KeyOrder(a + b)
    requires exists i :: 0 <= i < |b| && b[i].Data?
    ensures Walk(a + b).end == Walk(b).end
    ensures Walk(b).start != U64_MAX && Walk(a + b).start != U64_MAX
  {
    hide Walk, Plausible;
    var n := |b| - 1;
    assert a + b == (a + b[..n]) + [b[n]] && b == b[..n] + [b[n]];
    KeyOrderParts(a, b);
    assert (a + b)[|a| + n] == b[n];
    WalkPlausible(a + b, U64_MAX);
    WalkPlausible(b, U64_MAX);
    WalkAppend(a + b[..n], b[n]);
    WalkAppend(b[..n], b[n]);
    if !b[n].Data? {
      KeyOrderParts(a + b[..n], [b[n]]);
      WalkEnd(a, b[..n]);
    }
  }

  lemma KeyOrderParts(a: seq<Item>, b: seq<Item>)
    requires KeyOrder(a + b)
    ensures KeyOrder(a) && KeyOrder(b)
    ensures forall i, j :: 0 <= i < |a| && 0 <= j < |b| && a[i].Data? && b[j].Data? ==>
      a[i].extent.off < b[j].extent.off
  {
    assert forall i :: 0 <= i < |a| ==> (a + b)[i] == a[i];
    forall i | 0 <= i < |b| ensures b[i] == (a + b)[|a| + i] { }
    forall i, j | 0 <= i < j < |b| && b[i].Data? && b[j].Data? ensures b[i].extent.off < b[j].extent.off {
      assert (a + b)[|a| + i] == b[i] && (a + b)[|a| + j] == b[j];
    }
    forall i, j | 0 <= i < |a| && 0 <= j < |b| && a[i].Data? && b[j].Data? ensures a[i].extent.off < b[j].extent.off {
      assert (a + b)[|a| + j] == b[j];
    }
  }

  /** One more item at the end of the spliced part, on the totals alone. */
  lemma TotalsStep(ta: Totals, tb: Totals, tab: Totals, i: Item, bound: nat)
    requires Plausible(ta, bound) && Plausible(tb, bound) && Plausible(tab, bound)
    requires Agree(Merge(ta, tb), tab)
    requires tb.start != U64_MAX ==> tab.end == tb.end
    requires i.Data? ==> bound == i.extent.off < U64_MAX
    ensures Agree(Merge(ta, Add(tb, i)), Add(tab, i))
  {
    if i.Data? { ExtentStep(ta, tb, tab, i.extent); }
  }

  lemma ExtentStep(ta: Totals, tb: Totals, tab: Totals, e: FileExtent)
    requires Plausible(ta, e.off) && Plausible(tb, e.off) && Plausible(tab, e.off) && e.off < U64_MAX
    requires Agree(Merge(ta, tb), tab)
    requires tb.start != U64_MAX ==> tab.end == tb.end
    ensures Agree(Merge(ta, AddExtent(tb, e)), AddExtent(tab, e))
  {
    if tb.start == U64_MAX {
      FirstStep(ta, tb, tab, e);
    } else if ta.start == U64_MAX {
      assert tab.start == tb.start;
    } else {
      LaterStep(ta, tb, tab, e);
    }
  }

  /** The first extent of the spliced part. */
  lemma FirstStep(ta: Totals, tb: Totals, tab: Totals, e: FileExtent)
    requires Plausible(ta, e.off) && Plausible(tb, e.off) && Plausible(tab, e.off) && e.off < U64_MAX
    requires Agree(Merge(ta, tb), tab) && tb.start == U64_MAX
    ensures Agree(Merge(ta, AddExtent(tb, e)), AddExtent(tab, e))
  {
    if ta.start == U64_MAX {
      assert tab.start == U64_MAX;
    } else if !ta.overlap {
      assert tab.end == ta.end;
    }
  }

  lemma LaterStep(ta: Totals, tb: Totals, tab: Totals, e: FileExtent)
    requires Plausible(ta, e.off) && Plausible(tb, e.off) && Plausible(tab, e.off) && e.off < U64_MAX
    requires Agree(Merge(ta, tb), tab) && tb.start != U64_MAX && ta.start != U64_MAX && tab.end == tb.end
    ensures Agree(Merge(ta, AddExtent(tb, e)), AddExtent(tab, e))
  {}

  /** One more item at the end of the spliced part. */
  lemma SpliceStep(a: seq<Item>, b: seq<Item>, i: Item)
    requires KeyOrder((a + b) + [i]) && Agree(Merge(Walk(a), Walk(b)), Walk(a + b))
    ensures Agree(Merge(Walk(a), Add(Walk(b), i)), Add(Walk(a + b), i))
  {
    hide Walk, Merge, Add, Agree, Plausible;
    KeyOrderParts(a + b, [i]);
    KeyOrderParts(a, b);
    var bound := if i.Data? then i.extent.off else U64_MAX;
    assert [i][0] == i;
    assert Below(a + b, bound);
    assert forall k :: 0 <= k < |a| ==> a[k] == (a + b)[k];
    assert forall k :: 0 <= k < |b| ==> b[k] == (a + b)[|a| + k];
    WalkPlausible(a + b, bound);
    WalkPlausible(a, bound);
    WalkPlausible(b, bound);
    if Walk(b).start != U64_MAX {
      WalkEnd(a, b);
    }
    TotalsStep(Walk(a), Walk(b), Walk(a + b), i, bound);
  }

  /** Splicing the record of a later stretch of items gives what walking on over
      those items would have given. */
  lemma {:induction false} SpliceAgrees(a: seq<Item>, b: seq<Item>)
    requires KeyOrder(a + b)
    ensures Agree(Merge(Walk(a), Walk(b)), Walk(a + b))
  {
    if b == [] {
      assert a + b == a;
      WalkPlausible(a, U64_MAX) by { KeyOrderParts(a, b); }
    } else {
      var n := |b| - 1;
      assert a + b == (a + b[..n]) + [b[n]];
      assert (a + b)[..|a| + n] == a + b[..n];
      KeyOrderParts(a + b[..n], [b[n]]);
      SpliceAgrees(a, b[..n]);
      SpliceStep(a, b[..n], b[n]);
    }
  }

  lemma AgreeAdd(x: Totals, y: Totals, i: Item)
    requires Agree(x, y)
    ensures Agree(Add(x, i), Add(y, i))
  {
  }

  lemma AgreeMerge(x: Totals, x': Totals, y: Totals, y': Totals)
    requires Agree(x, x') && Agree(y, y')
    ensures Agree(Merge(x, y), Merge(x', y'))
  {
  }

  lemma AgreeTrans(x: Totals, y: Totals, z: Totals)
    requires Agree(x, y) && Agree(y, z)
    ensures Agree(x, z)
  {
  }

  /** Whatever the split into shared subtrees and whatever the bracketing of the
      splices, the record agrees with a plain walk over all items. */
  lemma {:induction false} SharedWalkAgrees(h: History)
    requires KeyOrder(Items(h))
    ensures Agree(Result(h), Walk(Items(h)))
    decreases h
  {
    match h
    case New =>
    case Process(b, i) =>
      assert Items(h)[..|Items(h)| - 1] == Items(b);
      KeyOrderParts(Items(b), [i]);
      SharedWalkAgrees(b);
      AgreeAdd(Result(b), Walk(Items(b)), i);
    case Splice(a, b) =>
      KeyOrderParts(Items(a), Items(b));
      SharedWalkAgrees(a);
      SharedWalkAgrees(b);
      AgreeMerge(Result(a), Walk(Items(a)), Result(b), Walk(Items(b)));
      SpliceAgrees(Items(a), Items(b));
      AgreeTrans(Merge(Result(a), Result(b)), Merge(Walk(Items(a)), Walk(Items(b))), Walk(Items(a) + Items(b)));
  }

  /** A record moved or shared into a cache that had none is the splice of that
      record into a new one. */
  lemma SpliceIntoNew(h: History)
    requires KeyOrder(Items(h))
    ensures Agree(Merge(Fresh(), Result(h)), Result(h))
  {
    hide Walk, Merge, Items, Result;
    assert Walk([]) == Fresh() by { WalkNothing(); }
    SharedWalkAgrees(h);
    WalkPlausible(Items(h), U64_MAX);
    AgreeMerge(Fresh(), Fresh(), Result(h), Walk(Items(h)));
    SpliceAgrees([], Items(h));
    assert [] + Items(h) == Items(h);
  }

  lemma WalkNothing()
    ensures Walk([]) == Fresh()
  {}

  /** With overlapping extents the end of the last extent is not preserved: a plain
      walk forgets the longer, earlier extent, a splice remembers it. */
  lemma OverlapForgetsEnd() returns (h: History)
    ensures KeyOrder(Items(h)) && Walk(Items(h)).overlap && Result(h).end == 100 && Walk(Items(h)).end == 15
  {
    hide Items, Result, Walk;
    var x, y := Data(FileExtent(0, 100, 0)), Data(FileExtent(10, 5, 0));
    h := Splice(Process(New, x), Process(New, y));
    SpliceOfTwo(x, y);
    TwoOrdered(x, y);
  }

  lemma TwoOrdered(x: Item, y: Item)
    requires x.Data? && y.Data? && x.extent.off < y.extent.off < U64_MAX
    ensures KeyOrder([x, y])
  {
    var s := [x, y];
    assert |s| == 2 && s[0] == x && s[1] == y;
    forall i, j | 0 <= i < j < |s| ensures s[i].extent.off < s[j].extent.off {
      assert i == 0 && j == 1;
    }
  }

  lemma SpliceOfTwo(x: Item, y: Item)
    ensures var h := Splice(Process(New, x), Process(New, y));
      Items(h) == [x, y] && Result(h) == Merge(Add(Fresh(), x), Add(Fresh(), y)) &&
        Walk([x, y]) == Add(Add(Fresh(), x), y)
  {
    hide Add, Merge;
    assert Items(New) == [] && Result(New) == Fresh() && Walk([]) == Fresh();
    assert Items(Process(New, x)) == [x] && Items(Process(New, y)) == [y];
    WalkAppend([], x);
    WalkAppend([x], y);
    assert [] + [x] == [x] && [x] + [y] == [x, y];
  }

  lemma WalkAppend(items: seq<Item>, i: Item)
    ensures Walk(items + [i]) == Add(Walk(items), i)
  {
    assert (items + [i])[..|items|] == items;
  }

  /** What an item adds to the size. */
  function Charged(i: Item): nat {
    match i
    case Link => 0
    case Name(n) => n
    case Data(e) => e.charged
  }

  function ChargedSum(items: seq<Item>): nat {
    if items == [] then 0 else Charged(items[0]) + ChargedSum(items[1..])
  }

  function Links(items: seq<Item>): nat {
    if items == [] then 0 else Links(items[1..]) + if items[0].Link? then 1 else 0
  }

  /** Size and links of a walk: the names and the charged bytes, and the DIR_ITEMs. */
  lemma {:induction false} WalkSums(items: seq<Item>)
    ensures Walk(items).size == ChargedSum(items) && Walk(items).link == Links(items)
  {
    if items != [] {
      var n := |items| - 1;
      WalkSums(items[..n]);
      SumsLast(items);
    }
  }

  lemma {:induction false} SumsLast(items: seq<Item>)
    requires items != []
    ensures var n := |items| - 1;
      && ChargedSum(items) == ChargedSum(items[..n]) + Charged(items[n])
      && Links(items) == Links(items[..n]) + if items[n].Link? then 1 else 0
  {
    var n := |items| - 1;
    if n > 0 {
      SumsLast(items[1..]);
      assert items[1..][..n - 1] == items[..n][1..];
    }
  }

  // ---------------------------------------------------------------------------
  // The records themselves

  datatype RefError = DupDirItem | DupDirIndex | DupInodeRef | IndexUnmatch | FiletypeUnmatch | NameTooLong
  datatype KeyType = DirItemKey | DirIndexKey | InodeRefKey | InodeExtrefKey

  /** struct inode_backref */
  datatype Backref = Backref(dir: nat, name: string, index: nat, filetype: nat, refType: KeyType,
                             foundDirItem: bool, foundDirIndex: bool, foundInodeRef: bool, errors: set<RefError>)

  /** How many backrefs stand for a DIR_ITEM. */
  function DirItems(bs: seq<Backref>): nat {
    if bs == [] then 0 else DirItems(bs[..|bs| - 1]) + if bs[|bs| - 1].foundDirItem then 1 else 0
  }

  lemma {:induction false} DirItemsConcat(a: seq<Backref>, b: seq<Backref>)
    ensures DirItems(a + b) == DirItems(a) + DirItems(b)
  {
    if b == [] {
      assert a + b == a;
    } else {
      DirItemsConcat(a, b[..|b| - 1]);
      assert (a + b)[..|a + b| - 1] == a + b[..|b| - 1];
    }
  }

  lemma DirItemsUpdate(bs: seq<Backref>, i: nat, b: Backref)
    requires i < |bs|
    ensures DirItems(bs[i := b]) + (if bs[i].foundDirItem then 1 else 0) ==
      DirItems(bs) + (if b.foundDirItem then 1 else 0)
  {
    assert bs == bs[..i] + [bs[i]] + bs[i + 1..];
    assert bs[i := b] == bs[..i] + [b] + bs[i + 1..];
    DirItemsConcat(bs[..i] + [bs[i]], bs[i + 1..]);
    DirItemsConcat(bs[..i] + [b], bs[i + 1..]);
    assert (bs[..i] + [bs[i]])[..i] == bs[..i] && (bs[..i] + [b])[..i] == bs[..i];
  }

  /** add_inode_backref on the backref it found or created. */
  function Note(b: Backref, index: nat, filetype: nat, key: KeyType, errors: set<RefError>): (r: Backref)
    ensures r.foundDirItem == (b.foundDirItem || key.DirItemKey?)
    ensures r.dir == b.dir && r.name == b.name && b.errors <= r.errors && errors <= r.errors
  {
    var b := b.(errors := b.errors + errors);
    match key
    case DirIndexKey =>
      var e1 := if b.foundDirIndex then {DupDirIndex} else {};
      var e2 := if b.foundInodeRef && b.index != index then {IndexUnmatch} else {};
      var e3 := if b.foundDirItem && b.filetype != filetype then {FiletypeUnmatch} else {};
      b.(errors := b.errors + e1 + e2 + e3, index := index, filetype := filetype, foundDirIndex := true)
    case DirItemKey =>
      var e1 := if b.foundDirItem then {DupDirItem} else {};
      var e2 := if b.foundDirIndex && b.filetype != filetype then {FiletypeUnmatch} else {};
      b.(errors := b.errors + e1 + e2, filetype := filetype, foundDirItem := true)
    case _ =>
      var e1 := if b.foundInodeRef then {DupInodeRef} else {};
      var e2 := if b.foundDirIndex && b.index != index then {IndexUnmatch} else {};
      b.(errors := b.errors + e1 + e2, refType := key, index := index, foundInodeRef := true)
  }

  /** One item about a name of the inode. */
  datatype Naming = Naming(index: nat, filetype: nat, key: KeyType, errors: set<RefError>) {
    predicate Inside() { key.InodeRefKey? || key.InodeExtrefKey? }
  }

  /** Two items about one name that do not go together: of one kind, or with different
      sequence numbers or file types. */
  predicate Clash(a: Naming, b: Naming) {
    || (a.key.DirItemKey? && b.key.DirItemKey?) || (a.key.DirIndexKey? && b.key.DirIndexKey?)
    || (a.Inside() && b.Inside())
    || (((a.key.DirIndexKey? && b.Inside()) || (a.Inside() && b.key.DirIndexKey?)) && a.index != b.index)
    || (((a.key.DirIndexKey? && b.key.DirItemKey?) || (a.key.DirItemKey? && b.key.DirIndexKey?)) &&
        a.filetype != b.filetype)
  }

  ghost predicate NoClash(es: seq<Naming>) {
    && (forall i :: 0 <= i < |es| ==> es[i].errors == {})
    && forall i, j :: 0 <= i < j < |es| ==> !Clash(es[i], es[j])
  }

  /** The back reference after all items about its name. */
  function NotedAll(dir: nat, name: string, es: seq<Naming>): Backref {
    if es == [] then Backref(dir, name, 0, 0, InodeRefKey, false, false, false, {})
    else
      var e := es[|es| - 1];
      Note(NotedAll(dir, name, es[..|es| - 1]), e.index, e.filetype, e.key, e.errors)
  }

  ghost predicate HasItem(es: seq<Naming>) { exists i :: 0 <= i < |es| && es[i].key.DirItemKey? }
  ghost predicate HasIndex(es: seq<Naming>) { exists i :: 0 <= i < |es| && es[i].key.DirIndexKey? }
  ghost predicate HasRef(es: seq<Naming>) { exists i :: 0 <= i < |es| && es[i].Inside() }

  /** What a back reference without error remembers. */
  ghost predicate Remembers(b: Backref, es: seq<Naming>) {
    && (b.foundDirItem <==> HasItem(es)) && (b.foundDirIndex <==> HasIndex(es)) && (b.foundInodeRef <==> HasRef(es))
    && (b.errors == {} ==> forall i :: 0 <= i < |es| ==>
          && (es[i].key.DirIndexKey? || es[i].Inside() ==> es[i].index == b.index)
          && (es[i].key.DirIndexKey? || es[i].key.DirItemKey? ==> es[i].filetype == b.filetype))
  }

  /** A name ends without error if and only if no two of its items clash and none came with one. */
  lemma {:induction false} NotedExact(dir: nat, name: string, es: seq<Naming>)
    ensures NotedAll(dir, name, es).errors == {} <==> NoClash(es)
    ensures Remembers(NotedAll(dir, name, es), es)
  {
    if es != [] {
      var n := |es| - 1;
      NotedExact(dir, name, es[..n]);
      hide NotedAll;
      NoteExact(NotedAll(dir, name, es[..n]), es);
    }
  }

  lemma NoteExact(b: Backref, es: seq<Naming>)
    requires es != [] && Remembers(b, es[..|es| - 1]) && (b.errors == {} <==> NoClash(es[..|es| - 1]))
    ensures var e := es[|es| - 1];
      var r := Note(b, e.index, e.filetype, e.key, e.errors);
      Remembers(r, es) && (r.errors == {} <==> NoClash(es))
  {
    hide Note, Remembers, Clash;
    var n := |es| - 1;
    var less, e := es[..n], es[n];
    assert forall i :: 0 <= i < n ==> less[i] == es[i];
    if b.errors == {} && e.errors == {} { NoteClash(b, less, e); }
    NoteRemembers(b, es);
    assert NoClash(es) <==> NoClash(less) && e.errors == {} && forall i :: 0 <= i < n ==> !Clash(es[i], e);
  }

  /** The last item brings an error exactly if it clashes with an earlier one. */
  lemma NoteClash(b: Backref, less: seq<Naming>, e: Naming)
    requires Remembers(b, less) && b.errors == {} && e.errors == {}
    ensures Note(b, e.index, e.filetype, e.key, e.errors).errors == {} <==>
      forall i :: 0 <= i < |less| ==> !Clash(less[i], e)
  {}

  lemma NoteRemembers(b: Backref, es: seq<Naming>)
    requires es != [] && Remembers(b, es[..|es| - 1])
    ensures var e := es[|es| - 1]; Remembers(Note(b, e.index, e.filetype, e.key, e.errors), es)
  {
    var n := |es| - 1;
    assert forall i :: 0 <= i < n ==> es[..n][i] == es[i];
  }

  /** get_inode_backref: the first backref of that name from `i` on, or the end. */
  function Located(bs: seq<Backref>, dir: nat, name: string, i: nat): (k: nat)
    requires i <= |bs|
    ensures k <= |bs|
    decreases |bs| - i
  {
    if i < |bs| && !(bs[i].dir == dir && bs[i].name == name) then Located(bs, dir, name, i + 1) else i
  }

  function WithBackref(bs: seq<Backref>, dir: nat, name: string): (r: seq<Backref>)
    ensures Located(bs, dir, name, 0) < |r|
  {
    if Located(bs, dir, name, 0) < |bs| then bs
    else bs + [Backref(dir, name, 0, 0, InodeRefKey, false, false, false, {})]
  }

  /** A backref whose two directory entries are known is compared with the inode's type. */
  function Judged(b: Backref, t: nat): Backref {
    if b.foundDirItem && b.foundDirIndex && b.filetype != t then b.(errors := b.errors + {FiletypeUnmatch}) else b
  }

  /** Seen from all three sides, and nothing wrong. */
  predicate Resolved(b: Backref) { b.foundDirItem && b.foundDirIndex && b.foundInodeRef && b.errors == {} }

  function Pruned(bs: seq<Backref>, t: nat): seq<Backref> {
    if bs == [] then []
    else
      var n := |bs| - 1;
      Pruned(bs[..n], t) + if Resolved(Judged(bs[n], t)) then [] else [Judged(bs[n], t)]
  }

  lemma PrunedNext(bs: seq<Backref>, i: nat, t: nat)
    requires i < |bs|
    ensures Pruned(bs[..i + 1], t) == Pruned(bs[..i], t) + if Resolved(Judged(bs[i], t)) then [] else [Judged(bs[i], t)]
  {
    assert bs[..i + 1][..i] == bs[..i];
  }

  /** Pruning does not add DIR_ITEMs. */
  lemma {:induction false} PrunedFewer(bs: seq<Backref>, t: nat)
    ensures DirItems(Pruned(bs, t)) <= DirItems(bs)
  {
    if bs != [] {
      var n := |bs| - 1;
      PrunedFewer(bs[..n], t);
      var b := Judged(bs[n], t);
      if !Resolved(b) {
        DirItemsConcat(Pruned(bs[..n], t), [b]);
        assert DirItems([b]) == if bs[n].foundDirItem then 1 else 0 by { assert [b][..0] == []; }
      } else {
        assert Pruned(bs, t) == Pruned(bs[..n], t);
      }
    }
  }

  /** Pruning loses exactly the resolved names. */
  lemma {:induction false} PrunedMember(bs: seq<Backref>, t: nat, b: Backref)
    ensures b in Pruned(bs, t) <==> !Resolved(b) && exists a :: a in bs && b == Judged(a, t)
  {
    if bs != [] {
      var n := |bs| - 1;
      PrunedMember(bs[..n], t, b);
      assert bs == bs[..n] + [bs[n]];
      assert forall a :: a in bs <==> a in bs[..n] || a == bs[n];
    }
  }

  /** add_inode_backref on the list, for a record with (`item`) or without its inode item. */
  function Added(bs: seq<Backref>, dir: nat, index: nat, name: string, filetype: nat, key: KeyType,
                 errors: set<RefError>, item: bool, t: nat): seq<Backref> {
    var i, all := Located(bs, dir, name, 0), WithBackref(bs, dir, name);
    var noted := all[i := Note(all[i], index, filetype, key, errors)];
    if item then Pruned(noted, t) else noted
  }

  /** merge_inode_recs on the lists. */
  function Replayed(into: seq<Backref>, bs: seq<Backref>, item: bool, t: nat): seq<Backref> {
    if bs == [] then into
    else
      var n := |bs| - 1;
      ReplayedOne(Replayed(into, bs[..n], item, t), bs[n], item, t)
  }

  function ReplayedOne(into: seq<Backref>, b: Backref, item: bool, t: nat): seq<Backref> {
    var a := if b.foundDirIndex then Added(into, b.dir, b.index, b.name, b.filetype, DirIndexKey, b.errors, item, t)
      else into;
    var a := if b.foundDirItem then Added(a, b.dir, 0, b.name, b.filetype, DirItemKey, b.errors, item, t) else a;
    if b.foundInodeRef then Added(a, b.dir, b.index, b.name, 0,
                                  if b.refType.DirItemKey? then InodeRefKey else b.refType, b.errors, item, t) else a
  }

  /** What an inode item says. */
  datatype InodeItem = InodeItem(nlink: nat, isize: nat, nbytes: nat, imodeType: nat, nodatasum: bool)

  /** What else was met for an inode, and the error of a second inode item. */
  datatype Marks = Marks(dirItem: bool, fileExtent: bool, csumItem: bool, csumMissing: bool, dupInodeItem: bool)

  /** Everything marked on either side; two inode items are a duplicate. */
  ghost function BothMarks(a: Marks, b: Marks, twoItems: bool): Marks {
    Marks(a.dirItem || b.dirItem, a.fileExtent || b.fileExtent, a.csumItem || b.csumItem,
          a.csumMissing || b.csumMissing, a.dupInodeItem || b.dupInodeItem || twoItems)
  }

  /** The part of struct inode_record that splicing works on. */
  class InodeRecord {
    var foundLink: nat
    var foundSize: nat
    var extentStart: nat
    var extentEnd: nat
    var firstGap: nat
    var overlap: bool
    var backrefs: seq<Backref>
    var foundInodeItem: bool
    /** Meaningful once the inode item was found. */
    var item: InodeItem
    var marks: Marks

    ghost function Item(): Option<InodeItem>
      reads this
    {
      if foundInodeItem then Some(item) else None
    }

    ghost function Sum(): Totals
      reads this
    {
      Totals(foundLink, foundSize, extentStart, extentEnd, firstGap, overlap)
    }

    /** Every backref that stands for a DIR_ITEM was counted as a link. */
    ghost predicate Valid()
      reads this
    {
      DirItems(backrefs) <= foundLink
    }

    constructor ()
      ensures Valid() && Sum() == Fresh() && backrefs == [] && Item() == None
      ensures marks == Marks(false, false, false, false, false)
    {
      foundLink, foundSize, extentStart, extentEnd, firstGap := 0, 0, U64_MAX, 0, U64_MAX;
      overlap, backrefs, foundInodeItem := false, [], false;
      item, marks := InodeItem(0, 0, 0, 0, false), Marks(false, false, false, false, false);
    }

    /** get_inode_backref. */
    method GetBackref(dir: nat, name: string) returns (i: nat)
      requires Valid()
      modifies this`backrefs
      ensures Valid() && i < |backrefs| && backrefs[i].dir == dir && backrefs[i].name == name
      ensures i == Located(old(backrefs), dir, name, 0) && backrefs == WithBackref(old(backrefs), dir, name)
      ensures backrefs == old(backrefs) ||
              (|backrefs| == |old(backrefs)| + 1 && backrefs[..|old(backrefs)|] == old(backrefs) &&
               !backrefs[i].foundDirItem)
    {
      i := 0;
      while i < |backrefs|
        invariant i <= |backrefs| && Located(backrefs, dir, name, 0) == Located(backrefs, dir, name, i)
      {
        if backrefs[i].dir == dir && backrefs[i].name == name {
          return;
        }
        i := i + 1;
      }
      var b := Backref(dir, name, 0, 0, InodeRefKey, false, false, false, {});
      DirItemsConcat(backrefs, [b]);
      assert DirItems([b]) == 0 by { assert [b][..0] == []; }
      backrefs := backrefs + [b];
    }

    /** The first loop of maybe_free_inode_rec: drop backrefs that are resolved. */
    method PruneBackrefs()
      requires Valid()
      modifies this`backrefs
      ensures Valid() && backrefs == if foundInodeItem then Pruned(old(backrefs), item.imodeType) else old(backrefs)
    {
      if !foundInodeItem {
        return;
      }
      var kept: seq<Backref> := [];
      var i: nat := 0;
      assert backrefs[..0] == [];
      while i < |backrefs|
        invariant backrefs == old(backrefs) && i <= |backrefs| && kept == Pruned(backrefs[..i], item.imodeType)
      {
        var b := backrefs[i];
        PrunedNext(backrefs, i, item.imodeType);
        var drop := false;
        if b.foundDirItem && b.foundDirIndex {
          if b.filetype != item.imodeType {
            b := b.(errors := b.errors + {FiletypeUnmatch});
          }
          drop := b.errors == {} && b.foundInodeRef;
        }
        if !drop { kept := kept + [b]; }
        i := i + 1;
      }
      assert backrefs[..i] == backrefs;
      PrunedFewer(backrefs, item.imodeType);
      backrefs := kept;
    }

    /** add_inode_backref, for a record that is not checked yet. */
    method AddBackref(dir: nat, index: nat, name: string, filetype: nat, key: KeyType, errors: set<RefError>)
      requires Valid()
      modifies this`backrefs, this`foundLink
      ensures Valid()
      ensures Sum() == if key.DirItemKey? then Add(old(Sum()), Link) else old(Sum())
      ensures backrefs == Added(old(backrefs), dir, index, name, filetype, key, errors, foundInodeItem, item.imodeType)
    {
      var i := GetBackref(dir, name);
      if key.DirItemKey? {
        foundLink := foundLink + 1;
      }
      DirItemsUpdate(backrefs, i, Note(backrefs[i], index, filetype, key, errors));
      backrefs := backrefs[i := Note(backrefs[i], index, filetype, key, errors)];
      PruneBackrefs();
    }

    /** process_dir_item on the directory's own record. */
    method ProcessName(nameLen: nat)
      requires Valid()
      modifies this`foundSize
      ensures Valid() && Sum() == Add(old(Sum()), Name(nameLen))
    {
      foundSize := foundSize + nameLen;
    }

    /** process_file_extent. */
    method ProcessFileExtent(e: FileExtent)
      requires Valid()
      modifies this`extentStart, this`extentEnd, this`firstGap, this`overlap, this`foundSize
      ensures Valid() && Sum() == Add(old(Sum()), Data(e))
    {
      if extentStart == U64_MAX {
        extentStart := e.off;
        extentEnd := e.off;
      }
      if extentEnd > e.off {
        overlap := true;
      } else if extentEnd < e.off && extentEnd < firstGap {
        firstGap := extentEnd;
      }
      foundSize := foundSize + e.charged;
      extentEnd := e.End();
    }

    /** One backref of the source is added to this record, item by item. */
    method ReplayBackref(b: Backref)
      requires Valid()
      modifies this`backrefs, this`foundLink
      ensures Valid() && backrefs == ReplayedOne(old(backrefs), b, foundInodeItem, item.imodeType)
      ensures Sum() == if b.foundDirItem then Add(old(Sum()), Link) else old(Sum())
    {
      hide Added, DirItems;
      if b.foundDirIndex {
        AddBackref(b.dir, b.index, b.name, b.filetype, DirIndexKey, b.errors);
      }
      if b.foundDirItem {
        AddBackref(b.dir, 0, b.name, b.filetype, DirItemKey, b.errors);
      }
      if b.foundInodeRef {
        AddBackref(b.dir, b.index, b.name, 0, if b.refType.DirItemKey? then InodeRefKey else b.refType, b.errors);
      }
    }

    /** The loop of merge_inode_recs that replays the backrefs of `src`. */
    method ReplayBackrefs(bs: seq<Backref>) returns (dirCount: nat)
      requires Valid()
      modifies this`backrefs, this`foundLink
      ensures Valid() && dirCount == DirItems(bs)
      ensures backrefs == Replayed(old(backrefs), bs, foundInodeItem, item.imodeType)
      ensures Sum() == old(Sum()).(link := old(foundLink) + dirCount)
    {
      hide ReplayedOne;
      dirCount := 0;
      var i := 0;
      while i < |bs|
        invariant i <= |bs| && Valid() && dirCount == DirItems(bs[..i])
        invariant backrefs == Replayed(old(backrefs), bs[..i], foundInodeItem, item.imodeType)
        invariant Sum() == old(Sum()).(link := old(foundLink) + dirCount)
      {
        assert bs[..i + 1][..i] == bs[..i];
        ReplayBackref(bs[i]);
        if bs[i].foundDirItem { dirCount := dirCount + 1; }
        i := i + 1;
      }
      assert bs[..i] == bs;
    }

    /** The extent part of merge_inode_recs. */
    method MergeExtents(src: InodeRecord)
      requires src != this
      modifies this`extentStart, this`extentEnd, this`firstGap, this`overlap
      ensures var m := Merge(old(Sum()), src.Sum());
              extentStart == m.start && extentEnd == m.end && firstGap == m.gap && overlap == m.overlap
    {
      if firstGap > src.firstGap {
        firstGap := src.firstGap;
      }
      if src.extentStart != U64_MAX {
        if extentStart == U64_MAX {
          extentStart := src.extentStart;
          extentEnd := src.extentEnd;
        } else {
          if extentEnd > src.extentStart {
            overlap := true;
          } else if extentEnd < src.extentStart && extentEnd < firstGap {
            firstGap := extentEnd;
          }
          if extentEnd < src.extentEnd {
            extentEnd := src.extentEnd;
          }
        }
      }
      overlap := overlap || src.overlap;
    }

    /** The flags and the inode item, of which the first one met stays. */
    method MergeItem(src: InodeRecord)
      requires src != this
      modifies this`foundInodeItem, this`item, this`marks
      ensures Item() == if old(Item()).Some? then old(Item()) else src.Item()
      ensures marks == BothMarks(old(marks), src.marks, old(Item()).Some? && src.Item().Some?)
    {
      marks := Marks(marks.dirItem || src.marks.dirItem, marks.fileExtent || src.marks.fileExtent,
                     marks.csumItem || src.marks.csumItem, marks.csumMissing || src.marks.csumMissing,
                     marks.dupInodeItem || src.marks.dupInodeItem);
      if src.foundInodeItem {
        if !foundInodeItem {
          item, foundInodeItem := src.item, true;
        } else {
          marks := marks.(dupInodeItem := true);
        }
      }
    }

    /** merge_inode_recs: `this` is the destination.  The subtraction of links that
        the replay already counted cannot underflow. */
    method MergeFrom(src: InodeRecord)
      requires Valid() && src.Valid() && src != this
      modifies this
      ensures Valid()
      ensures Sum() == Merge(old(Sum()), src.Sum())
      ensures backrefs == Replayed(old(backrefs), src.backrefs, old(foundInodeItem), old(item.imodeType))
      ensures Item() == if old(Item()).Some? then old(Item()) else src.Item()
      ensures marks == BothMarks(old(marks), src.marks, old(Item()).Some? && src.Item().Some?)
    {
      hide Replayed, DirItems;
      var dirCount := ReplayBackrefs(src.backrefs);
      MergeExtents(src);
      assert dirCount <= src.foundLink;
      foundLink := foundLink + (src.foundLink - dirCount);
      foundSize := foundSize + src.foundSize;
      MergeItem(src);
    }
  }
}
