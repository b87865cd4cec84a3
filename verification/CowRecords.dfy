/**
  Copy-on-write sharing of inode records between the caches of shared subtrees.  Memory
  is explicit: a cache holds pointers into `heap`, so that sharing, freeing and dangling
  pointers can be spoken about.  `V` is everything in a record beside its counter,
  inode number and checked mark.
 */
module CowRecords {
  import opened Basics

  datatype Rec<V> = Rec(refs: nat, ino: nat, checked: bool, facts: V)

  /** A shared node has a cache for inodes and one for child roots. */
  datatype Tree = Tree(node: nat, roots: bool)

  /** What a reader of a cache sees. */
  datatype View<V> = View(checked: bool, facts: V)

  type Heap<V> = map<nat, Rec<V>>
  type Caches = map<Tree, map<nat, nat>>

  /** The cache entry of `ino` is a pointer to `p`. */
  predicate Holds(caches: Caches, t: Tree, ino: nat, p: nat) { t in caches && ino in caches[t] && caches[t][ino] == p }

  /** Every pointer in a cache leads to a live record of that inode. */
  ghost predicate Linked<V(!new)>(heap: Heap<V>, caches: Caches) {
    forall t, ino, p :: Holds(caches, t, ino, p) ==> p in heap && heap[p].ino == ino
  }

  /** The caches that point to a record. */
  ghost function Users(caches: Caches, ino: nat, p: nat): set<Tree> { set t | t in caches && Holds(caches, t, ino, p) }

  /** The reference held by a node that is on its way from one cache to another. */
  ghost function Extra(inTransit: Option<nat>, p: nat): nat { if inTransit == Some(p) then 1 else 0 }

  /** Every record counts its users, and a record without users is gone. */
  ghost predicate CountedAt<V(!new)>(heap: Heap<V>, caches: Caches, inTransit: Option<nat>, p: nat)
    requires p in heap
  {
    heap[p].refs == |Users(caches, heap[p].ino, p)| + Extra(inTransit, p) && 0 < heap[p].refs
  }

  ghost predicate Counted<V(!new)>(heap: Heap<V>, caches: Caches, inTransit: Option<nat>) {
    && (forall p :: p in heap ==> CountedAt(heap, caches, inTransit, p))
    && (inTransit.Some? ==> inTransit.value in heap)
  }

  ghost predicate Ok<V(!new)>(heap: Heap<V>, caches: Caches, inTransit: Option<nat>) {
    Linked(heap, caches) && Counted(heap, caches, inTransit)
  }

  ghost function See<V(!new)>(heap: Heap<V>, caches: Caches, t: Tree, ino: nat): Option<View<V>> {
    if t in caches && ino in caches[t] && caches[t][ino] in heap then
      var r := heap[caches[t][ino]];
      Some(View(r.checked, r.facts))
    else None
  }

  /** The entry of `ino` in cache `t` becomes a pointer to `p`. */
  function SetPtr(caches: Caches, t: Tree, ino: nat, p: nat): Caches
    requires t in caches
  {
    var entries: map<nat, nat> := caches[t];
    caches[t := entries[ino := p]]
  }

  function DropPtr(caches: Caches, t: Tree, ino: nat): Caches
    requires t in caches
  {
    var entries: map<nat, nat> := caches[t];
    caches[t := entries - {ino}]
  }

  // ---------------------------------------------------------------- what a change of one pointer does

  lemma UsersSet(caches: Caches, t: Tree, ino: nat, p: nat, k: nat, q: nat)
    requires t in caches
    ensures var next := SetPtr(caches, t, ino, p);
      Users(next, k, q) ==
        if k != ino then Users(caches, k, q)
        else if q == p then Users(caches, k, q) + {t}
        else Users(caches, k, q) - {t}
  {
    var next := SetPtr(caches, t, ino, p);
    forall u ensures Holds(next, u, k, q) <==> if u == t && k == ino then q == p else Holds(caches, u, k, q) {}
  }

  lemma SamePtr(caches: Caches, t: Tree, ino: nat)
    requires t in caches && ino in caches[t]
    ensures SetPtr(caches, t, ino, caches[t][ino]) == caches
  {
    var entries: map<nat, nat> := caches[t];
    assert entries[ino := entries[ino]] == entries;
  }

  lemma UsersDrop(caches: Caches, t: Tree, ino: nat, k: nat, q: nat)
    requires t in caches
    ensures var next := DropPtr(caches, t, ino);
      Users(next, k, q) == if k == ino then Users(caches, k, q) - {t} else Users(caches, k, q)
  {
    var next := DropPtr(caches, t, ino);
    forall u ensures Holds(next, u, k, q) <==> if u == t && k == ino then false else Holds(caches, u, k, q) {}
  }

  /** A record with one reference has one user. */
  lemma OnlyUser<V(!new)>(heap: Heap<V>, caches: Caches, inTransit: Option<nat>, t: Tree, ino: nat, p: nat)
    requires Ok(heap, caches, inTransit) && Holds(caches, t, ino, p)
    ensures p in heap && heap[p].ino == ino && t in Users(caches, ino, p) && 1 <= |Users(caches, ino, p)|
    ensures 1 <= heap[p].refs && See(heap, caches, t, ino) == Some(View(heap[p].checked, heap[p].facts))
    ensures heap[p].refs == 1 ==> inTransit != Some(p) && Users(caches, ino, p) == {t}
  {
    assert CountedAt(heap, caches, inTransit, p);
    var us := Users(caches, ino, p);
    assert us == (us - {t}) + {t};
    if heap[p].refs == 1 {
      assert |us - {t}| == 0;
    }
  }

  lemma SoleHolder(caches: Caches, t: Tree, u: Tree, ino: nat, p: nat)
    requires Users(caches, ino, p) == {t} && Holds(caches, u, ino, p)
    ensures u == t
  {
    assert u in Users(caches, ino, p);
  }

  /** A record not in any cache and not live can be given out. */
  lemma Unused<V(!new)>(heap: Heap<V>, caches: Caches, p: nat, ino: nat)
    requires Linked(heap, caches) && p !in heap
    ensures Users(caches, ino, p) == {}
  {}

  /** What calloc, merge_inode_recs and the two halves of maybe_free_inode_rec do to the facts. */
  datatype Rules<!V> = Rules(blank: nat -> V, merge: (V, V) -> V, settle: (bool, V) -> V, complete: V -> bool) {
    /** What the destination shows after a record has been spliced into it. */
    function Spliced(from: View<V>, into: Option<View<V>>): Option<View<V>> {
      if into.None? then Some(from)
      else
        var checked := into.value.checked || from.checked;
        var facts := settle(checked, merge(into.value.facts, from.facts));
        if checked && complete(facts) then None else Some(View(checked, facts))
    }

    function Joined(from: Option<View<V>>, into: Option<View<V>>): Option<View<V>> {
      if from.Some? then Spliced(from.value, into) else into
    }
  }

  class Fsck<V(!new)> {
    const rules: Rules<V>
    var heap: Heap<V>
    var caches: Caches

    ghost predicate Valid(inTransit: Option<nat>)
      reads this
    {
      Ok(heap, caches, inTransit)
    }

    ghost function Seen(t: Tree, ino: nat): Option<View<V>>
      reads this
    {
      See(heap, caches, t, ino)
    }

    constructor (rules: Rules<V>, trees: set<Tree>)
      ensures Valid(None) && heap == map[] && caches.Keys == trees
      ensures forall t, ino :: Seen(t, ino) == None
      ensures this.rules == rules
    {
      this.rules := rules;
      heap := map[];
      caches := map t | t in trees :: map[];
    }

    /** malloc */
    method Malloc() returns (p: nat)
      ensures p !in heap
    {
      p := 0;
      ghost var seen: set<nat> := {};
      while p in heap
        invariant seen <= heap.Keys && |seen| == p && forall q: nat :: q in seen <==> q < p
        decreases |heap.Keys| - p
      {
        seen := seen + {p};
        Smaller(seen, heap.Keys);
        p := p + 1;
      }
    }

    /**
      get_inode_rec with `mod`: a record of one's own to write to.  What any cache shows
      is unchanged; a missing record is created blank.
     */
    method GetInodeRec(t: Tree, ino: nat, ghost inTransit: Option<nat>) returns (p: nat)
      requires Valid(inTransit) && t in caches
      modifies this
      ensures Valid(inTransit) && caches == SetPtr(old(caches), t, ino, p)
      ensures p in heap && heap[p].refs == 1 && heap[p].ino == ino && inTransit != Some(p)
      ensures Seen(t, ino) == if old(Seen(t, ino)).Some? then old(Seen(t, ino)) else Some(View(false, rules.blank(ino)))
      ensures forall u, k :: (u != t || k != ino) ==> Seen(u, k) == old(Seen(u, k))
      ensures forall q :: q in old(heap) && q != p ==> q in heap && heap[q].(refs := 0) == old(heap)[q].(refs := 0)
      ensures inTransit.Some? && inTransit.value in old(heap) ==> inTransit.value != p
    {
      hide Ok, See;
      if ino in caches[t] {
        p := caches[t][ino];
        OnlyUser(heap, caches, inTransit, t, ino, p);
        if heap[p].refs > 1 {
          var q := Malloc();
          CloneOk(heap, caches, inTransit, t, ino, q);
          heap := heap[q := heap[p].(refs := 1)][p := heap[p].(refs := heap[p].refs - 1)];
          caches := SetPtr(caches, t, ino, q);
          p := q;
        } else {
          SamePtr(caches, t, ino);
        }
      } else {
        p := Malloc();
        NewOk(heap, caches, inTransit, t, ino, p, Rec(1, ino, false, rules.blank(ino)));
        heap := heap[p := Rec(1, ino, false, rules.blank(ino))];
        caches := SetPtr(caches, t, ino, p);
      }
    }

    /** get_inode_rec without `mod`. */
    method Read(t: Tree, ino: nat) returns (r: Option<View<V>>)
      requires Valid(None)
      ensures r == Seen(t, ino)
    {
      if t !in caches || ino !in caches[t] { return None; }
      var p := caches[t][ino];
      OnlyUser(heap, caches, None, t, ino, p);
      r := Some(View(heap[p].checked, heap[p].facts));
    }

    /** Any change to the facts of an inode, through one cache. */
    method Change(t: Tree, ino: nat, change: (bool, V) -> View<V>)
      requires Valid(None) && t in caches
      modifies this
      ensures Valid(None) && caches.Keys == old(caches).Keys
      ensures var was := if old(Seen(t, ino)).Some? then old(Seen(t, ino)).value else View(false, rules.blank(ino));
        Seen(t, ino) == Some(change(was.checked, was.facts))
      ensures forall u, k :: (u != t || k != ino) ==> Seen(u, k) == old(Seen(u, k))
    {
      var p := GetInodeRec(t, ino, None);
      var v := change(heap[p].checked, heap[p].facts);
      WriteOk(heap, caches, None, t, ino, p, v.checked, v.facts);
      heap := heap[p := heap[p].(checked := v.checked, facts := v.facts)];
    }

    /** maybe_free_inode_rec: a complete record that has been checked leaves its cache. */
    method MaybeFree(t: Tree, ino: nat, p: nat, ghost inTransit: Option<nat>)
      requires Valid(inTransit) && Holds(caches, t, ino, p) && p in heap && heap[p].refs == 1
      modifies this
      ensures Valid(inTransit) && caches.Keys == old(caches).Keys
      ensures var was := old(heap)[p]; var facts := rules.settle(was.checked, was.facts);
        Seen(t, ino) == if was.checked && rules.complete(facts) then None else Some(View(was.checked, facts))
      ensures forall u, k :: (u != t || k != ino) ==> Seen(u, k) == old(Seen(u, k))
      ensures forall q :: q in old(heap) && q != p ==> q in heap && heap[q] == old(heap)[q]
      ensures forall u, k, q :: Holds(caches, u, k, q) ==> Holds(old(caches), u, k, q)
      ensures forall u, k, q :: Holds(old(caches), u, k, q) && (u != t || k != ino) ==> Holds(caches, u, k, q)
    {
      hide Ok, See;
      var checked, facts := heap[p].checked, rules.settle(heap[p].checked, heap[p].facts);
      WriteOk(heap, caches, inTransit, t, ino, p, checked, facts);
      heap := heap[p := heap[p].(facts := facts)];
      if checked && rules.complete(facts) {
        RemoveOk(heap, caches, inTransit, t, ino, p);
        caches := DropPtr(caches, t, ino);
        heap := heap - {p};
      }
    }

    /** free_inode_rec for the node in transit. */
    method FreeInodeRec(p: nat)
      requires Valid(Some(p))
      modifies this`heap
      ensures Valid(None) && forall u, k :: Seen(u, k) == old(Seen(u, k))
    {
      FreeOk(heap, caches, p);
      heap := if heap[p].refs == 1 then heap - {p} else heap[p := heap[p].(refs := heap[p].refs - 1)];
    }

    /** One step of the loop of splice_shared_node, by move or by copy. */
    method SpliceOne(src: Tree, dst: Tree, ino: nat, move: bool)
      requires Valid(None) && src != dst && src in caches && dst in caches && ino in caches[src]
      modifies this
      ensures Valid(None) && caches.Keys == old(caches).Keys && old(Seen(src, ino)).Some?
      ensures Seen(dst, ino) == rules.Spliced(old(Seen(src, ino)).value, old(Seen(dst, ino)))
      ensures Seen(src, ino) == if move then None else old(Seen(src, ino))
      ensures forall t, k :: k != ino || (t != src && t != dst) ==> Seen(t, k) == old(Seen(t, k))
    {
      hide Ok, See;
      var p := caches[src][ino];
      OnlyUser(heap, caches, None, src, ino, p);
      if move {
        DetachOk(heap, caches, src, ino, p);
        caches := DropPtr(caches, src, ino);
      } else {
        RetainOk(heap, caches, p);
        heap := heap[p := heap[p].(refs := heap[p].refs + 1)];
      }
      if ino !in caches[dst] {
        AttachOk(heap, caches, dst, ino, p);
        caches := SetPtr(caches, dst, ino, p);
      } else {
        MergeInto(dst, ino, p);
        FreeInodeRec(p);
      }
    }

    /** The conflict: the record in transit is merged into the destination's own one. */
    method MergeInto(dst: Tree, ino: nat, p: nat)
      requires Valid(Some(p)) && dst in caches && ino in caches[dst] && p in heap
      modifies this
      ensures Valid(Some(p)) && caches.Keys == old(caches).Keys && old(Seen(dst, ino)).Some?
      ensures Seen(dst, ino) == rules.Spliced(View(old(heap)[p].checked, old(heap)[p].facts), old(Seen(dst, ino)))
      ensures forall t, k :: k != ino || t != dst ==> Seen(t, k) == old(Seen(t, k))
    {
      hide Ok, See;
      OnlyUser(heap, caches, Some(p), dst, ino, caches[dst][ino]);
      var c := GetInodeRec(dst, ino, Some(p));
      OnlyUser(heap, caches, Some(p), dst, ino, c);
      var checked, facts := heap[c].checked || heap[p].checked, rules.merge(heap[c].facts, heap[p].facts);
      WriteOk(heap, caches, Some(p), dst, ino, c, checked, facts);
      heap := heap[c := heap[c].(checked := checked, facts := facts)];
      MaybeFree(dst, ino, c, Some(p));
    }

    /** The loop over one of the two caches. */
    method SpliceTree(src: Tree, dst: Tree, move: bool)
      requires Valid(None) && src != dst && src in caches && dst in caches
      modifies this
      ensures Valid(None) && caches.Keys == old(caches).Keys
      ensures forall k :: Seen(dst, k) == rules.Joined(old(Seen(src, k)), old(Seen(dst, k)))
      ensures forall k :: Seen(src, k) == if move then None else old(Seen(src, k))
      ensures forall t, k :: t != src && t != dst ==> Seen(t, k) == old(Seen(t, k))
    {
      hide Ok, See;
      var todo := caches[src].Keys;
      SeenIs(heap, caches, src);
      while todo != {}
        invariant Valid(None) && caches.Keys == old(caches).Keys && forall k :: k in todo ==> old(Seen(src, k)).Some?
        invariant forall k :: k in todo ==> Seen(src, k) == old(Seen(src, k)) && Seen(dst, k) == old(Seen(dst, k))
        invariant forall k :: k !in todo ==> Seen(src, k) == if move then None else old(Seen(src, k))
        invariant forall k :: k !in todo ==> Seen(dst, k) == rules.Joined(old(Seen(src, k)), old(Seen(dst, k)))
        invariant forall t, k :: t != src && t != dst ==> Seen(t, k) == old(Seen(t, k))
        decreases |todo|
      {
        var ino :| ino in todo;
        SeenIs(heap, caches, src);
        SpliceOne(src, dst, ino, move);
        todo := todo - {ino};
      }
    }

    /**
      splice_shared_node without its current inode: both caches, by move when this was
      the last reference to the node.  No other node sees any change.
     */
    method SpliceSharedNode(src: nat, srcRefs: nat, dst: nat) returns (refs: nat)
      requires Valid(None) && src != dst && 0 < srcRefs
      requires forall roots :: Tree(src, roots) in caches && Tree(dst, roots) in caches
      modifies this
      ensures Valid(None) && refs == srcRefs - 1 && caches.Keys == old(caches).Keys
      ensures forall roots, k ::
        Seen(Tree(dst, roots), k) == rules.Joined(old(Seen(Tree(src, roots), k)), old(Seen(Tree(dst, roots), k)))
      ensures forall roots, k :: Seen(Tree(src, roots), k) == if refs == 0 then None else old(Seen(Tree(src, roots), k))
      ensures forall t: Tree, k :: t.node != src && t.node != dst ==> Seen(t, k) == old(Seen(t, k))
    {
      hide Ok, See;
      refs := srcRefs - 1;
      SpliceTree(Tree(src, true), Tree(dst, true), refs == 0);
      SpliceTree(Tree(src, false), Tree(dst, false), refs == 0);
    }
  }

  lemma Smaller(a: set<nat>, b: set<nat>)
    requires a <= b
    ensures |a| <= |b|
  {
    assert b == a + (b - a);
  }

  /** A shared record is replaced by a private copy in one cache. */
  lemma CloneOk<V(!new)>(heap: Heap<V>, caches: Caches, inTransit: Option<nat>, t: Tree, ino: nat, q: nat)
    requires Ok(heap, caches, inTransit) && t in caches && ino in caches[t] && q !in heap
    requires caches[t][ino] in heap && heap[caches[t][ino]].refs > 1
    ensures var p := caches[t][ino];
      var heap', caches' := heap[q := heap[p].(refs := 1)][p := heap[p].(refs := heap[p].refs - 1)],
        SetPtr(caches, t, ino, q);
      Ok(heap', caches', inTransit) && inTransit != Some(q) &&
        forall u, k :: See(heap', caches', u, k) == See(heap, caches, u, k)
  {
    var p := caches[t][ino];
    var heap', caches' := heap[q := heap[p].(refs := 1)][p := heap[p].(refs := heap[p].refs - 1)],
      SetPtr(caches, t, ino, q);
    OnlyUser(heap, caches, inTransit, t, ino, p);
    forall r | r in heap' ensures CountedAt(heap', caches', inTransit, r) {
      UsersSet(caches, t, ino, q, heap'[r].ino, r);
      if r == q {
        Unused(heap, caches, q, ino);
      } else {
        assert CountedAt(heap, caches, inTransit, r);
        if r != p && heap[r].ino == ino { assert !Holds(caches, t, ino, r); }
      }
    }
    forall u, k, r | Holds(caches', u, k, r) ensures r in heap' && heap'[r].ino == k {
      assert Holds(caches, u, k, r) || r == q;
    }
    CloneSeen(heap, caches, t, ino, q);
  }

  lemma CloneSeen<V(!new)>(heap: Heap<V>, caches: Caches, t: Tree, ino: nat, q: nat)
    requires Linked(heap, caches) && t in caches && ino in caches[t] && q !in heap && caches[t][ino] in heap
    requires heap[caches[t][ino]].refs > 1
    ensures var p := caches[t][ino];
      var heap', caches' := heap[q := heap[p].(refs := 1)][p := heap[p].(refs := heap[p].refs - 1)],
        SetPtr(caches, t, ino, q);
      forall u, k :: See(heap', caches', u, k) == See(heap, caches, u, k)
  {
    var p := caches[t][ino];
    var heap', caches' := heap[q := heap[p].(refs := 1)][p := heap[p].(refs := heap[p].refs - 1)],
      SetPtr(caches, t, ino, q);
    forall u, k ensures See(heap', caches', u, k) == See(heap, caches, u, k) {
      if u in caches && k in caches[u] { assert Holds(caches, u, k, caches[u][k]); }
    }
  }

  /** A new record with one user. */
  lemma NewOk<V(!new)>(heap: Heap<V>, caches: Caches, inTransit: Option<nat>, t: Tree, ino: nat, p: nat, rec: Rec<V>)
    requires Ok(heap, caches, inTransit) && t in caches && ino !in caches[t] && p !in heap && rec.refs == 1
    requires rec.ino == ino
    ensures var heap', caches' := heap[p := rec], SetPtr(caches, t, ino, p);
      Ok(heap', caches', inTransit) && See(heap, caches, t, ino) == None && inTransit != Some(p)
      && forall u, k :: See(heap', caches', u, k) ==
           if u == t && k == ino then Some(View(rec.checked, rec.facts)) else See(heap, caches, u, k)
  {
    var heap', caches' := heap[p := rec], SetPtr(caches, t, ino, p);
    forall r | r in heap' ensures CountedAt(heap', caches', inTransit, r) {
      UsersSet(caches, t, ino, p, heap'[r].ino, r);
      if r == p {
        Unused(heap, caches, p, ino);
      } else {
        assert CountedAt(heap, caches, inTransit, r);
        assert !Holds(caches, t, ino, r);
      }
    }
    forall u, k, r | Holds(caches', u, k, r) ensures r in heap' && heap'[r].ino == k {
      assert Holds(caches, u, k, r) || r == p;
    }
    forall u, k
      ensures See(heap', caches', u, k) ==
        if u == t && k == ino then Some(View(rec.checked, rec.facts)) else See(heap, caches, u, k)
    {
      if u in caches && k in caches[u] { assert Holds(caches, u, k, caches[u][k]); }
    }
  }

  /** A record with one reference is written to: only its one cache shows the change. */
  lemma WriteOk<V(!new)>(heap: Heap<V>, caches: Caches, inTransit: Option<nat>, t: Tree, ino: nat, p: nat,
                         checked: bool, facts: V)
    requires Ok(heap, caches, inTransit) && Holds(caches, t, ino, p) && p in heap && heap[p].refs == 1
    ensures var heap' := heap[p := heap[p].(checked := checked, facts := facts)];
      Ok(heap', caches, inTransit) && See(heap', caches, t, ino) == Some(View(checked, facts))
      && forall u, k :: (u != t || k != ino) ==> See(heap', caches, u, k) == See(heap, caches, u, k)
  {
    var heap' := heap[p := heap[p].(checked := checked, facts := facts)];
    OnlyUser(heap, caches, inTransit, t, ino, p);
    forall r | r in heap' ensures CountedAt(heap', caches, inTransit, r) {
      assert CountedAt(heap, caches, inTransit, r);
    }
    forall u, k | u != t || k != ino ensures See(heap', caches, u, k) == See(heap, caches, u, k) {
      if u in caches && k in caches[u] {
        assert Holds(caches, u, k, caches[u][k]);
        if caches[u][k] == p { SoleHolder(caches, t, u, ino, p); }
      }
    }
  }

  /** The only user of a record lets it go. */
  lemma RemoveOk<V(!new)>(heap: Heap<V>, caches: Caches, inTransit: Option<nat>, t: Tree, ino: nat, p: nat)
    requires Ok(heap, caches, inTransit) && Holds(caches, t, ino, p) && p in heap && heap[p].refs == 1
    ensures var heap', caches' := heap - {p}, DropPtr(caches, t, ino);
      Ok(heap', caches', inTransit)
      && (forall u, k :: See(heap', caches', u, k) == if u == t && k == ino then None else See(heap, caches, u, k))
      && forall u, k, q :: Holds(caches', u, k, q) <==> Holds(caches, u, k, q) && (u != t || k != ino)
  {
    var heap', caches' := heap - {p}, DropPtr(caches, t, ino);
    OnlyUser(heap, caches, inTransit, t, ino, p);
    forall u, k, q ensures Holds(caches', u, k, q) <==> Holds(caches, u, k, q) && (u != t || k != ino) {}
    forall r | r in heap' ensures CountedAt(heap', caches', inTransit, r) {
      UsersDrop(caches, t, ino, heap[r].ino, r);
      assert CountedAt(heap, caches, inTransit, r);
      assert !Holds(caches, t, ino, r);
    }
    forall u, k, r | Holds(caches', u, k, r) ensures r in heap' && heap'[r].ino == k {
      assert Holds(caches, u, k, r);
      if r == p { SoleHolder(caches, t, u, ino, p); }
    }
    forall u, k ensures See(heap', caches', u, k) == if u == t && k == ino then None else See(heap, caches, u, k) {
      if u in caches && k in caches[u] && (u != t || k != ino) {
        assert Holds(caches', u, k, caches[u][k]);
      }
    }
  }

  lemma FreeOk<V(!new)>(heap: Heap<V>, caches: Caches, p: nat)
    requires Ok(heap, caches, Some(p))
    ensures p in heap && 0 < heap[p].refs
    ensures var heap' := if heap[p].refs == 1 then heap - {p} else heap[p := heap[p].(refs := heap[p].refs - 1)];
      Ok(heap', caches, None) && forall u, k :: See(heap', caches, u, k) == See(heap, caches, u, k)
  {
    assert CountedAt(heap, caches, Some(p), p);
    var heap' := if heap[p].refs == 1 then heap - {p} else heap[p := heap[p].(refs := heap[p].refs - 1)];
    forall r | r in heap' ensures CountedAt(heap', caches, None, r) {
      assert CountedAt(heap, caches, Some(p), r);
    }
    forall u, k, r | Holds(caches, u, k, r) ensures r in heap' && heap'[r].ino == k {
      assert u in Users(caches, k, r);
    }
    forall u, k ensures See(heap', caches, u, k) == See(heap, caches, u, k) {
      if u in caches && k in caches[u] { assert Holds(caches, u, k, caches[u][k]); }
    }
  }

  lemma SeenIs<V(!new)>(heap: Heap<V>, caches: Caches, t: Tree)
    requires Ok(heap, caches, None) && t in caches
    ensures forall ino :: ino in caches[t] <==> See(heap, caches, t, ino).Some?
  {
    forall ino ensures ino in caches[t] <==> See(heap, caches, t, ino).Some? {
      if ino in caches[t] { assert Holds(caches, t, ino, caches[t][ino]); }
    }
  }

  /** A node leaves its cache and keeps its reference. */
  lemma DetachOk<V(!new)>(heap: Heap<V>, caches: Caches, t: Tree, ino: nat, p: nat)
    requires Ok(heap, caches, None) && Holds(caches, t, ino, p)
    ensures var caches' := DropPtr(caches, t, ino);
      && Ok(heap, caches', Some(p))
      && forall u, k :: See(heap, caches', u, k) == if u == t && k == ino then None else See(heap, caches, u, k)
  {
    HoldsDrop(caches, t, ino);
    DetachCounted(heap, caches, t, ino, p);
    DetachSeen(heap, caches, t, ino);
  }

  lemma DetachCounted<V(!new)>(heap: Heap<V>, caches: Caches, t: Tree, ino: nat, p: nat)
    requires Ok(heap, caches, None) && Holds(caches, t, ino, p)
    ensures Counted(heap, DropPtr(caches, t, ino), Some(p))
  {
    OnlyUser(heap, caches, None, t, ino, p);
    hide Linked, DropPtr, Holds, Users;
    forall r | r in heap ensures CountedAt(heap, DropPtr(caches, t, ino), Some(p), r) {
      UsersDrop(caches, t, ino, heap[r].ino, r);
      assert CountedAt(heap, caches, None, r);
      NotUser(caches, t, ino, p, r);
    }
  }

  lemma DetachSeen<V(!new)>(heap: Heap<V>, caches: Caches, t: Tree, ino: nat)
    requires t in caches
    ensures forall u, k ::
      See(heap, DropPtr(caches, t, ino), u, k) == if u == t && k == ino then None else See(heap, caches, u, k)
  {}

  lemma HoldsDrop(caches: Caches, t: Tree, ino: nat)
    requires t in caches
    ensures forall u, k, q :: Holds(DropPtr(caches, t, ino), u, k, q) <==>
      Holds(caches, u, k, q) && (u != t || k != ino)
  {}

  /** A cache points to one record per inode. */
  lemma NotUser(caches: Caches, t: Tree, ino: nat, p: nat, r: nat)
    requires Holds(caches, t, ino, p)
    ensures r != p ==> t !in Users(caches, ino, r)
  {}

  /** A second node is made for the record. */
  lemma RetainOk<V(!new)>(heap: Heap<V>, caches: Caches, p: nat)
    requires Ok(heap, caches, None) && p in heap
    ensures var heap' := heap[p := heap[p].(refs := heap[p].refs + 1)];
      Ok(heap', caches, Some(p)) && forall u, k :: See(heap', caches, u, k) == See(heap, caches, u, k)
  {
    var heap' := heap[p := heap[p].(refs := heap[p].refs + 1)];
    forall r | r in heap' ensures CountedAt(heap', caches, Some(p), r) {
      assert CountedAt(heap, caches, None, r);
    }
  }

  /** The node in transit arrives. */
  lemma AttachOk<V(!new)>(heap: Heap<V>, caches: Caches, t: Tree, ino: nat, p: nat)
    requires Ok(heap, caches, Some(p)) && t in caches && ino !in caches[t] && p in heap && heap[p].ino == ino
    ensures var caches' := SetPtr(caches, t, ino, p);
      Ok(heap, caches', None) && See(heap, caches, t, ino) == None
      && forall u, k :: See(heap, caches', u, k) ==
           if u == t && k == ino then Some(View(heap[p].checked, heap[p].facts)) else See(heap, caches, u, k)
  {
    var caches' := SetPtr(caches, t, ino, p);
    forall r | r in heap ensures CountedAt(heap, caches', None, r) {
      hide Linked, See, SetPtr;
      UsersSet(caches, t, ino, p, heap[r].ino, r);
      assert CountedAt(heap, caches, Some(p), r);
      NoUser(caches, t, ino, r);
    }
    forall u, k, r | Holds(caches', u, k, r) ensures r in heap && heap[r].ino == k {
      assert Holds(caches, u, k, r) || (r == p && k == ino);
    }
    AttachSeen(heap, caches, t, ino, p);
  }

  lemma NoUser(caches: Caches, t: Tree, ino: nat, r: nat)
    requires t in caches && ino !in caches[t]
    ensures t !in Users(caches, ino, r)
  {}

  lemma AttachSeen<V(!new)>(heap: Heap<V>, caches: Caches, t: Tree, ino: nat, p: nat)
    requires t in caches && ino !in caches[t] && p in heap
    ensures var caches' := SetPtr(caches, t, ino, p);
      && See(heap, caches, t, ino) == None && See(heap, caches', t, ino) == Some(View(heap[p].checked, heap[p].facts))
      && forall u, k :: u != t || k != ino ==> See(heap, caches', u, k) == See(heap, caches, u, k)
  {}

  // ---------------------------------------------------------------- sharing does not show

  /** What a check does to the records: write through one cache, or splice a whole node. */
  datatype Op<!V> =
    | Write(t: Tree, ino: nat, change: (bool, V) -> View<V>)
    | Splice(src: nat, dst: nat, last: bool)
  {
    ghost predicate Valid(trees: set<Tree>) {
      match this
      case Write(t, _, _) => t in trees
      case Splice(src, dst, _) => src != dst && forall roots :: Tree(src, roots) in trees && Tree(dst, roots) in trees
    }
  }

  /** The same with every cache holding its own values and nothing shared. */
  ghost function Plain<V(!new)>(rules: Rules<V>, op: Op<V>,
                                view: (Tree, nat) -> Option<View<V>>): (Tree, nat) -> Option<View<V>> {
    match op
    case Write(t, ino, change) =>
      var was := if view(t, ino).Some? then view(t, ino).value else View(false, rules.blank(ino));
      (u: Tree, k: nat) => if u == t && k == ino then Some(change(was.checked, was.facts)) else view(u, k)
    case Splice(src, dst, last) =>
      (u: Tree, k: nat) =>
        if u.node == dst then rules.Joined(view(Tree(src, u.roots), k), view(u, k))
        else if u.node == src && last then None
        else view(u, k)
  }

  ghost function PlainRun<V(!new)>(rules: Rules<V>, ops: seq<Op<V>>,
                                   view: (Tree, nat) -> Option<View<V>>): (Tree, nat) -> Option<View<V>>
    decreases |ops|
  {
    if ops == [] then view else PlainRun(rules, ops[1..], Plain(rules, ops[0], view))
  }

  /** Over any run the shared, counted records read exactly like private copies. */
  method Run<V(!new)>(rules: Rules<V>, trees: set<Tree>, ops: seq<Op<V>>, t: Tree, ino: nat)
    returns (r: Option<View<V>>)
    requires forall i :: 0 <= i < |ops| ==> ops[i].Valid(trees)
    ensures r == PlainRun(rules, ops, (_: Tree, _: nat) => None)(t, ino)
  {
    hide Ok, See, Plain;
    var fsck := new Fsck(rules, trees);
    ghost var none: (Tree, nat) -> Option<View<V>> := (_: Tree, _: nat) => None;
    ghost var view := none;
    var i: nat := 0;
    assert ops[0..] == ops;
    while i < |ops|
      invariant i <= |ops| && fresh(fsck) && fsck.Valid(None) && fsck.rules == rules && fsck.caches.Keys == trees
      invariant forall u, k :: fsck.Seen(u, k) == view(u, k)
      invariant PlainRun(rules, ops[i..], view) == PlainRun(rules, ops, none)
    {
      assert ops[i..][0] == ops[i] && ops[i..][1..] == ops[i + 1..];
      ghost var next := Plain(rules, ops[i], view);
      Perform(fsck, ops[i], view);
      view := next;
      i := i + 1;
    }
    r := fsck.Read(t, ino);
  }

  method Perform<V(!new)>(fsck: Fsck<V>, op: Op<V>, ghost view: (Tree, nat) -> Option<View<V>>)
    requires fsck.Valid(None) && op.Valid(fsck.caches.Keys) && forall u, k :: fsck.Seen(u, k) == view(u, k)
    modifies fsck
    ensures fsck.Valid(None) && fsck.caches.Keys == old(fsck.caches).Keys
    ensures forall u, k :: fsck.Seen(u, k) == Plain(fsck.rules, op, view)(u, k)
  {
    hide Ok, See;
    match op {
      case Write(t, ino, change) =>
        fsck.Change(t, ino, change);
      case Splice(src, dst, last) =>
        var _ := fsck.SpliceSharedNode(src, if last then 1 else 2, dst);
        forall u, k ensures fsck.Seen(u, k) == Plain(fsck.rules, op, view)(u, k) {
          assert u == Tree(u.node, u.roots);
        }
    }
  }
}
