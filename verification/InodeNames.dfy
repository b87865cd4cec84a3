/**
  Splicing the items about one name.  merge_inode_recs replays, for each back reference of
  the source, at most one item of each kind; that is enough to end as one walk over all
  items would.
 */
module InodeNames {
  import opened InodeMerge

  /** What merge_inode_recs replays for one back reference. */
  function ReplayItems(b: Backref): seq<Naming> {
    (if b.foundDirIndex then [IndexOf(b)] else []) + (if b.foundDirItem then [ItemOf(b)] else []) +
    (if b.foundInodeRef then [RefOf(b)] else [])
  }

  function IndexOf(b: Backref): Naming { Naming(b.index, b.filetype, DirIndexKey, b.errors) }

  function ItemOf(b: Backref): Naming { Naming(0, b.filetype, DirItemKey, b.errors) }

  function RefOf(b: Backref): Naming {
    Naming(b.index, 0, if b.refType.DirItemKey? then InodeRefKey else b.refType, b.errors)
  }

  function Noting(b: Backref, e: Naming): (r: Backref)
    ensures r.dir == b.dir && r.name == b.name
  {
    Note(b, e.index, e.filetype, e.key, e.errors)
  }

  function NotedFrom(b: Backref, es: seq<Naming>): (r: Backref)
    ensures r.dir == b.dir && r.name == b.name
    decreases |es|
  {
    if es == [] then b else NotedFrom(Noting(b, es[0]), es[1..])
  }

  lemma {:induction false} NotedParts(dir: nat, name: string, a: seq<Naming>, b: seq<Naming>)
    ensures NotedAll(dir, name, a + b) == NotedFrom(NotedAll(dir, name, a), b)
    decreases |b|
  {
    hide Note;
    if b == [] {
      assert a + b == a;
    } else {
      NotedParts(dir, name, a + [b[0]], b[1..]);
      assert (a + [b[0]]) + b[1..] == a + b && (a + [b[0]])[..|a|] == a;
    }
  }

  // ---------------------------------------------------------------------------
  // The replay in the list of back references

  lemma {:induction false} FoundThere(bs: seq<Backref>, dir: nat, name: string, i: nat)
    requires i <= |bs|
    ensures var k := Located(bs, dir, name, i);
      && i <= k && (k < |bs| ==> bs[k].dir == dir && bs[k].name == name)
      && forall j :: i <= j < k ==> !(bs[j].dir == dir && bs[j].name == name)
    decreases |bs| - i
  {
    if i < |bs| && !(bs[i].dir == dir && bs[i].name == name) { FoundThere(bs, dir, name, i + 1); }
  }

  /** The list with the back reference of a name, found or made, replaced. */
  function Put(bs: seq<Backref>, dir: nat, name: string, x: Backref): seq<Backref> {
    WithBackref(bs, dir, name)[Located(bs, dir, name, 0) := x]
  }

  function Held(bs: seq<Backref>, dir: nat, name: string): Backref {
    WithBackref(bs, dir, name)[Located(bs, dir, name, 0)]
  }

  /** It is found again, whatever was noted in it. */
  lemma PutAgain(bs: seq<Backref>, dir: nat, name: string, x: Backref, y: Backref)
    requires x.dir == dir && x.name == name
    ensures Held(Put(bs, dir, name, x), dir, name) == x
    ensures Put(Put(bs, dir, name, x), dir, name, y) == Put(bs, dir, name, y)
  {
    var p, k := Put(bs, dir, name, x), Located(bs, dir, name, 0);
    FoundThere(bs, dir, name, 0);
    FoundThere(p, dir, name, 0);
    assert p[k] == x && forall j :: 0 <= j < k ==> p[j] == bs[j];
    assert Located(p, dir, name, 0) == k;
    assert WithBackref(p, dir, name) == p;
  }

  lemma HeldNamed(bs: seq<Backref>, dir: nat, name: string)
    ensures Held(bs, dir, name).dir == dir && Held(bs, dir, name).name == name
  {
    FoundThere(bs, dir, name, 0);
  }

  /** As long as no inode item was met, nothing is pruned, and an item changes the one back reference. */
  lemma AddedOne(bs: seq<Backref>, dir: nat, name: string, e: Naming, t: nat)
    ensures Added(bs, dir, e.index, name, e.filetype, e.key, e.errors, false, t) ==
      Put(bs, dir, name, Noting(Held(bs, dir, name), e))
  {}

  /** The replay of a back reference notes its items in the back reference of the same name. */
  lemma ReplayedItems(into: seq<Backref>, b: Backref, t: nat)
    requires ReplayItems(b) != []
    ensures ReplayedOne(into, b, false, t) ==
      Put(into, b.dir, b.name, NotedFrom(Held(into, b.dir, b.name), ReplayItems(b)))
  {
    hide Added, Put, Held, Noting;
    var dir, name, x := b.dir, b.name, Held(into, b.dir, b.name);
    HeldNamed(into, dir, name);
    forall bs: seq<Backref>, e: Naming
      ensures Added(bs, dir, e.index, name, e.filetype, e.key, e.errors, false, t) ==
        Put(bs, dir, name, Noting(Held(bs, dir, name), e))
    {
      AddedOne(bs, dir, name, e, t);
    }
    forall x: Backref, y: Backref | x.dir == dir && x.name == name
      ensures Held(Put(into, dir, name, x), dir, name) == x
      ensures Put(Put(into, dir, name, x), dir, name, y) == Put(into, dir, name, y)
    {
      PutAgain(into, dir, name, x, y);
    }
    NotedFew(x, IndexOf(b), ItemOf(b), RefOf(b));
  }

  lemma NotedFew(b: Backref, x: Naming, y: Naming, z: Naming)
    ensures NotedFrom(b, [x]) == Noting(b, x) && NotedFrom(b, [y]) == Noting(b, y) && NotedFrom(b, [z]) == Noting(b, z)
    ensures NotedFrom(b, [x, y]) == Noting(Noting(b, x), y) && NotedFrom(b, [x, z]) == Noting(Noting(b, x), z)
    ensures NotedFrom(b, [y, z]) == Noting(Noting(b, y), z)
    ensures NotedFrom(b, [x, y, z]) == Noting(Noting(Noting(b, x), y), z)
  {
    hide Noting;
    NotedPair(b, x, y);
    NotedPair(b, x, z);
    NotedPair(b, y, z);
    NotedPair(Noting(b, x), y, z);
    assert [x, y, z][1..] == [y, z];
  }

  lemma NotedPair(b: Backref, x: Naming, y: Naming)
    ensures NotedFrom(b, [x]) == Noting(b, x) && NotedFrom(b, [y]) == Noting(b, y)
    ensures NotedFrom(b, [x, y]) == Noting(Noting(b, x), y)
  {
    hide Noting;
    var bx := Noting(b, x);
    assert [x][1..] == [] && [y][1..] == [] && [x, y][1..] == [y];
    assert NotedFrom(bx, []) == bx && NotedFrom(bx, [y]) == NotedFrom(Noting(bx, y), []);
  }

  // ---------------------------------------------------------------------------
  // One walk

  ghost predicate Apart(a: seq<Naming>, b: seq<Naming>) {
    forall i, j :: 0 <= i < |a| && 0 <= j < |b| ==> !Clash(a[i], b[j])
  }

  lemma NoClashParts(a: seq<Naming>, b: seq<Naming>)
    ensures NoClash(a + b) <==> NoClash(a) && NoClash(b) && Apart(a, b)
  {
    hide Clash;
    var all, n := a + b, |a|;
    assert forall i :: 0 <= i < n ==> all[i] == a[i];
    assert forall i :: n <= i < |all| ==> all[i] == b[i - n];
    if NoClash(all) {
      forall i | 0 <= i < |b| ensures b[i].errors == {} { assert all[n + i] == b[i]; }
      forall i, j | 0 <= i < j < |b| ensures !Clash(b[i], b[j]) { assert !Clash(all[n + i], all[n + j]); }
      forall i, j | 0 <= i < n && 0 <= j < |b| ensures !Clash(a[i], b[j]) { assert !Clash(all[i], all[n + j]); }
    }
  }

  lemma HasParts(a: seq<Naming>, b: seq<Naming>)
    ensures HasItem(a + b) <==> HasItem(a) || HasItem(b)
    ensures HasIndex(a + b) <==> HasIndex(a) || HasIndex(b)
    ensures HasRef(a + b) <==> HasRef(a) || HasRef(b)
  {
    var all, n := a + b, |a|;
    assert forall i :: 0 <= i < n ==> all[i] == a[i];
    assert forall i :: n <= i < |all| ==> all[i] == b[i - n];
    forall i | 0 <= i < |b|
      ensures b[i].key.DirItemKey? ==> HasItem(all)
      ensures b[i].key.DirIndexKey? ==> HasIndex(all)
      ensures b[i].Inside() ==> HasRef(all)
    {
      assert all[n + i] == b[i];
    }
  }

  /** The reference is an INODE_REF or an INODE_EXTREF. */
  predicate RefKept(b: Backref) { b.refType.InodeRefKey? || b.refType.InodeExtrefKey? }

  lemma {:induction false} NotedRef(dir: nat, name: string, es: seq<Naming>)
    ensures RefKept(NotedAll(dir, name, es))
  {
    if es != [] { NotedRef(dir, name, es[..|es| - 1]); }
  }

  /** The replayed items, one by one. */
  lemma ItemsAre(b: Backref)
    requires RefKept(b)
    ensures var items := ReplayItems(b);
      && (HasItem(items) <==> b.foundDirItem) && (HasIndex(items) <==> b.foundDirIndex)
      && (HasRef(items) <==> b.foundInodeRef)
      && (forall i :: 0 <= i < |items| ==> items[i] == IndexOf(b) || items[i] == ItemOf(b) || items[i] == RefOf(b))
      && (b.foundDirIndex ==> IndexOf(b) in items) && (b.foundDirItem ==> ItemOf(b) in items)
      && (b.foundInodeRef ==> RefOf(b) in items)
  {
    var items := ReplayItems(b);
    if b.foundDirIndex { assert items[0] == IndexOf(b); }
    if b.foundDirItem { assert items[if b.foundDirIndex then 1 else 0] == ItemOf(b); }
    if b.foundInodeRef { assert items[|items| - 1] == RefOf(b); }
  }

  lemma ItemsClash(b: Backref)
    requires RefKept(b)
    ensures b.errors == {} ==> NoClash(ReplayItems(b))
    ensures ReplayItems(b) != [] && b.errors != {} ==> !NoClash(ReplayItems(b))
  {
    var items := ReplayItems(b);
    if items != [] { assert items[0].errors == b.errors; }
  }

  /** Without error the replayed items clash with others exactly as the items did. */
  lemma SameClashes(src: Backref, a: seq<Naming>, b: seq<Naming>)
    requires RefKept(src) && Remembers(src, b) && src.errors == {}
    ensures Apart(a, ReplayItems(src)) <==> Apart(a, b)
  {
    ItemsAre(src);
    hide ReplayItems;
    var items := ReplayItems(src);
    forall i, j | 0 <= i < |a| && 0 <= j < |b| ensures Apart(a, items) ==> !Clash(a[i], b[j]) {
      var rep :=
        if b[j].key.DirIndexKey? then IndexOf(src) else if b[j].key.DirItemKey? then ItemOf(src) else RefOf(src);
      assert rep in items;
      assert Clash(a[i], b[j]) <==> Clash(a[i], rep);
    }
    forall i, j | 0 <= i < |a| && 0 <= j < |items| ensures Apart(a, b) ==> !Clash(a[i], items[j]) {
      if items[j].key.DirIndexKey? {
        var k :| 0 <= k < |b| && b[k].key.DirIndexKey?;
      } else if items[j].key.DirItemKey? {
        var k :| 0 <= k < |b| && b[k].key.DirItemKey?;
      } else {
        var k :| 0 <= k < |b| && b[k].Inside();
      }
    }
  }

  /** Splicing agrees with one walk: the name ends without error if and only if no two items of both
      parts clash, and it has been seen from the sides that either part saw. */
  lemma SplicedName(dir: nat, name: string, a: seq<Naming>, b: seq<Naming>)
    ensures var r := NotedFrom(NotedAll(dir, name, a), ReplayItems(NotedAll(dir, name, b)));
      && (r.errors == {} <==> NoClash(a + b)) && (r.foundDirItem <==> HasItem(a + b))
      && (r.foundDirIndex <==> HasIndex(a + b)) && (r.foundInodeRef <==> HasRef(a + b))
  {
    hide Note, Clash, NotedAll, NotedFrom, ReplayItems, NoClash, HasItem, HasIndex, HasRef, Apart;
    var src := NotedAll(dir, name, b);
    var items := ReplayItems(src);
    NotedParts(dir, name, a, items);
    NotedExact(dir, name, a + items);
    NotedExact(dir, name, b);
    NoClashParts(a, b);
    NoClashParts(a, items);
    HasParts(a, b);
    HasParts(a, items);
    NotedRef(dir, name, b);
    ItemsAre(src);
    ItemsClash(src);
    if src.errors == {} { SameClashes(src, a, b); } else { SomeItems(src, b); }
  }

  lemma SomeItems(src: Backref, b: seq<Naming>)
    requires Remembers(src, b) && !NoClash(b)
    ensures ReplayItems(src) != []
  {
    if b != [] { assert b[0].key.DirItemKey? || b[0].key.DirIndexKey? || b[0].Inside(); }
  }
}
