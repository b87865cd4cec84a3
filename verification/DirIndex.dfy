/**
  Directory entries by name hash.  All names of a directory with one hash value share one
  tree item, packed one after the other; the same packing is used for extended
  attributes and for the second index by sequence number.
 */
module DirIndex {
  import opened Basics
  import opened Bytes

  const XATTR_KEY: byte := 24
  const DIR_ITEM_KEY: byte := 84
  const DIR_INDEX_KEY: byte := 96
  const FT_XATTR: byte := 8
  /** sizeof(struct btrfs_dir_item) */
  const HEADER_SIZE: nat := 30

  datatype Key = Key(objectid: nat, kind: byte, offset: nat)

  /** One packed entry; nobody writes the eight bytes of `transid`. */
  datatype Entry = Entry(location: Key, transid: seq<byte>, kind: byte, name: seq<byte>, data: seq<byte>) {
    predicate Valid() {
      && location.objectid < TWO_64 && location.offset < TWO_64 && |transid| == 8
      && |name| < 0x1_0000 && |data| < 0x1_0000
    }

    function Encode(): seq<byte> {
      LE(location.objectid, 8) + [location.kind] + LE(location.offset, 8) + transid + LE(|data|, 2) + LE(|name|, 2) +
        [kind] + name + data
    }

    /** What a caller gets to see. */
    function Seen(): Attr { Attr(location, kind, data) }
  }

  datatype Attr = Attr(location: Key, kind: byte, data: seq<byte>)

  lemma EncodeFields(e: Entry)
    requires e.Valid()
    ensures var b := e.Encode();
      && |b| == HEADER_SIZE + |e.name| + |e.data|
      && Num(b[0..8]) == e.location.objectid && b[8] == e.location.kind && Num(b[9..17]) == e.location.offset
      && Num(b[25..27]) == |e.data| && Num(b[27..29]) == |e.name| && b[29] == e.kind
      && b[30..30 + |e.name|] == e.name && b[30 + |e.name|..] == e.data
  {
    hide Num, LE;
    Widths();
    assert Pow256(2) == 0x1_0000;
    NumLE(e.location.objectid, 8);
    NumLE(e.location.offset, 8);
    NumLE(|e.data|, 2);
    NumLE(|e.name|, 2);
    var b := e.Encode();
    assert b[0..8] == LE(e.location.objectid, 8) && b[9..17] == LE(e.location.offset, 8);
    assert b[25..27] == LE(|e.data|, 2) && b[27..29] == LE(|e.name|, 2);
  }

  // ---------------------------------------------------------------- buckets

  function Pack(entries: seq<Entry>): seq<byte> {
    if entries == [] then [] else entries[0].Encode() + Pack(entries[1..])
  }

  lemma {:induction false} PackMore(entries: seq<Entry>, e: Entry)
    ensures Pack(entries + [e]) == Pack(entries) + e.Encode()
  {
    hide Entry.Encode;
    if entries == [] {
      assert [e][1..] == [] && [] + [e] == [e];
      assert Pack([e]) == e.Encode() + Pack([]);
    } else {
      PackMore(entries[1..], e);
      assert (entries + [e])[1..] == entries[1..] + [e];
    }
  }

  /** The first entry of that name. */
  function Find(entries: seq<Entry>, name: seq<byte>): Option<Entry> {
    if entries == [] then None
    else if entries[0].name == name then Some(entries[0])
    else Find(entries[1..], name)
  }

  lemma {:induction false} FindMore(entries: seq<Entry>, e: Entry, name: seq<byte>)
    ensures Find(entries + [e], name) ==
      if Find(entries, name).Some? then Find(entries, name) else if e.name == name then Some(e) else None
  {
    if entries != [] {
      assert (entries + [e])[1..] == entries[1..] + [e];
      FindMore(entries[1..], e, name);
    } else {
      assert entries + [e] == [e];
    }
  }

  ghost predicate AllValid(entries: seq<Entry>) { forall i :: 0 <= i < |entries| ==> entries[i].Valid() }

  /** The bytes from `at` on are the entries that remain. */
  ghost predicate From(bytes: seq<byte>, at: nat, rest: seq<Entry>) {
    at <= |bytes| && bytes[at..] == Pack(rest) && AllValid(rest)
  }

  lemma Head(bytes: seq<byte>, at: nat, rest: seq<Entry>)
    requires From(bytes, at, rest) && rest != []
    ensures var n := |rest[0].Encode()|;
      n >= HEADER_SIZE && at + n <= |bytes| && bytes[at..at + n] == rest[0].Encode() && From(bytes, at + n, rest[1..])
  {
    EncodeFields(rest[0]);
    var e := rest[0].Encode();
    assert bytes[at..] == e + Pack(rest[1..]);
    assert bytes[at..at + |e|] == bytes[at..][..|e|];
    assert bytes[at + |e|..] == bytes[at..][|e|..];
  }

  /** An entry seen in place, as long as it lies inside the item. */
  function ReadAttr(bytes: seq<byte>, at: nat): Attr
    requires at + HEADER_SIZE <= |bytes|
  {
    var nameLen, dataLen := Num(bytes[at + 27..at + 29]), Num(bytes[at + 25..at + 27]);
    var end := at + HEADER_SIZE + nameLen;
    Attr(Key(Num(bytes[at..at + 8]), bytes[at + 8], Num(bytes[at + 9..at + 17])), bytes[at + 29],
         if end + dataLen <= |bytes| then bytes[end..end + dataLen] else [])
  }

  lemma Within(bytes: seq<byte>, at: nat, end: nat, i: nat, j: nat)
    requires at <= end <= |bytes| && i <= j <= end - at
    ensures bytes[at..end][i..j] == bytes[at + i..at + j]
  {
    var s, t := bytes[at..end][i..j], bytes[at + i..at + j];
    assert |s| == |t| && forall k :: 0 <= k < |s| ==> s[k] == t[k];
  }

  lemma EntryAt(bytes: seq<byte>, at: nat, e: Entry)
    requires e.Valid() && at + |e.Encode()| <= |bytes| && bytes[at..at + |e.Encode()|] == e.Encode()
    ensures |e.Encode()| == HEADER_SIZE + |e.name| + |e.data|
    ensures Num(bytes[at + 27..at + 29]) == |e.name| && Num(bytes[at + 25..at + 27]) == |e.data|
    ensures bytes[at + HEADER_SIZE..at + HEADER_SIZE + |e.name|] == e.name
    ensures ReadAttr(bytes, at) == e.Seen()
  {
    EncodeFields(e);
    hide Num;
    var b, end := e.Encode(), at + |e.Encode()|;
    var s := bytes[at..end];
    Within(bytes, at, end, 0, 8);
    Within(bytes, at, end, 9, 17);
    Within(bytes, at, end, 25, 27);
    Within(bytes, at, end, 27, 29);
    Within(bytes, at, end, 30, 30 + |e.name|);
    Within(bytes, at, end, 30 + |e.name|, |b|);
    assert s[8] == bytes[at + 8] && s[29] == bytes[at + 29];
  }

  /**
    btrfs_match_dir_item_name: walk the packed entries.  Whatever valid entries the item
    holds, it stops at the first one of that name.
   */
  method MatchDirItemName(bytes: seq<byte>, name: seq<byte>, ghost entries: seq<Entry>) returns (found: bool, at: nat)
    requires From(bytes, 0, entries)
    ensures found <==> Find(entries, name).Some?
    ensures found ==> at + HEADER_SIZE <= |bytes| && ReadAttr(bytes, at) == Find(entries, name).value.Seen()
  {
    hide Num, ReadAttr, Pack;
    ghost var rest := entries;
    at := 0;
    while at < |bytes|
      invariant From(bytes, at, rest) && Find(entries, name) == Find(rest, name)
      decreases |bytes| - at
    {
      NotDone(bytes, at, rest);
      Head(bytes, at, rest);
      EntryAt(bytes, at, rest[0]);
      var nameLen, dataLen := Num(bytes[at + 27..at + 29]), Num(bytes[at + 25..at + 27]);
      if nameLen == |name| && bytes[at + HEADER_SIZE..at + HEADER_SIZE + nameLen] == name {
        return true, at;
      }
      at := at + HEADER_SIZE + nameLen + dataLen;
      rest := rest[1..];
    }
    AllDone(bytes, at, rest);
    found := false;
  }

  lemma NotDone(bytes: seq<byte>, at: nat, rest: seq<Entry>)
    requires From(bytes, at, rest) && at < |bytes|
    ensures rest != []
  {}

  lemma AllDone(bytes: seq<byte>, at: nat, rest: seq<Entry>)
    requires From(bytes, at, rest) && at >= |bytes|
    ensures rest == []
  {
    PackLong(rest);
  }

  lemma PackLong(entries: seq<Entry>)
    requires AllValid(entries)
    ensures entries != [] ==> |Pack(entries)| >= HEADER_SIZE
  {
    if entries != [] { EncodeFields(entries[0]); }
  }

  // ---------------------------------------------------------------- the tree

  predicate ByHash(kind: byte) { kind == DIR_ITEM_KEY || kind == XATTR_KEY }

  function EntriesOf(buckets: map<Key, seq<Entry>>, key: Key): seq<Entry> {
    if key in buckets then buckets[key] else []
  }

  /** Each item is the packing of its bucket, and only items under their hash are looked up by name. */
  ghost predicate BucketOk(items: map<Key, seq<byte>>, buckets: map<Key, seq<Entry>>, key: Key) {
    key in items && key in buckets && From(items[key], 0, buckets[key])
  }

  ghost predicate Packed(items: map<Key, seq<byte>>, buckets: map<Key, seq<Entry>>) {
    && items.Keys == buckets.Keys && forall key :: key in items ==> BucketOk(items, buckets, key)
  }

  /** A name with an index entry has its entry by hash. */
  ghost predicate IndexedToo(buckets: map<Key, seq<Entry>>, hash: seq<byte> -> nat) {
    forall dir, index, name :: Find(EntriesOf(buckets, Key(dir, DIR_INDEX_KEY, index)), name).Some? ==>
      Find(EntriesOf(buckets, Key(dir, DIR_ITEM_KEY, hash(name))), name).Some?
  }

  class DirTree {
    const hash: seq<byte> -> nat
    const isTreeRoot: bool
    var items: map<Key, seq<byte>>
    ghost var buckets: map<Key, seq<Entry>>

    ghost predicate Valid()
      reads this
    {
      Packed(items, buckets) && IndexedToo(buckets, hash)
    }

    /** The map that the tree stands for: an attribute by kind of entry, directory and name. */
    ghost function Get(kind: byte, dir: nat, name: seq<byte>): Option<Attr>
      reads this
    {
      Lookup(buckets, hash, kind, dir, name)
    }

    /** The second map: an attribute by directory, sequence number and name. */
    ghost function GetIndexed(dir: nat, index: nat, name: seq<byte>): Option<Attr>
      reads this
    {
      Indexed(buckets, dir, index, name)
    }

    constructor (hash: seq<byte> -> nat, isTreeRoot: bool)
      ensures Valid() && this.hash == hash && this.isTreeRoot == isTreeRoot && items == map[]
      ensures forall kind, dir, name :: Get(kind, dir, name) == None
      ensures forall dir, index, name :: GetIndexed(dir, index, name) == None
    {
      this.hash, this.isTreeRoot, items, buckets := hash, isTreeRoot, map[], map[];
    }

    /**
      insert_with_overflow: a new item, or room at the end of an existing one unless it
      holds the name.  `slack` is whatever the new bytes happen to be.
     */
    method InsertWithOverflow(key: Key, name: seq<byte>, slack: seq<byte>) returns (ok: bool, at: nat)
      requires Packed(items, buckets)
      modifies this`items
      ensures ok <==> Find(EntriesOf(buckets, key), name).None?
      ensures ok ==> at == (if key in old(items) then |old(items)[key]| else 0)
      ensures items ==
        if ok then old(items)[key := (if key in old(items) then old(items)[key] else []) + slack] else old(items)
    {
      if key !in items {
        items := items[key := slack];
        assert [] + slack == slack;
        return true, 0;
      }
      assert BucketOk(items, buckets, key);
      var found, _ := MatchDirItemName(items[key], name, buckets[key]);
      if found { return false, 0; }
      at := |items[key]|;
      items := items[key := items[key] + slack];
      ok := true;
    }

    /** Fill in the entry that has been made room for. */
    method WriteEntry(key: Key, at: nat, location: Key, kind: byte, name: seq<byte>, data: seq<byte>,
                      ghost before: seq<byte>, ghost slack: seq<byte>)
      requires key in items && at == |before| && items[key] == before + slack
      requires |slack| == HEADER_SIZE + |name| + |data|
      modifies this`items
      ensures items == old(items)[key := before + Entry(location, slack[17..25], kind, name, data).Encode()]
    {
      hide LE;
      var b := items[key];
      b := Store(b, at, LE(location.objectid, 8) + [location.kind] + LE(location.offset, 8));
      b := Store(b, at + 29, [kind]);
      b := Store(b, at + 25, LE(|data|, 2));
      b := Store(b, at + 27, LE(|name|, 2));
      b := Store(b, at + HEADER_SIZE, name);
      b := Store(b, at + HEADER_SIZE + |name|, data);
      AllStored(before, slack, LE(location.objectid, 8) + [location.kind] + LE(location.offset, 8), LE(|data|, 2),
                LE(|name|, 2), [kind], name, data);
      assert Entry(location, slack[17..25], kind, name, data).Encode() ==
        (LE(location.objectid, 8) + [location.kind] + LE(location.offset, 8)) + slack[17..25] + LE(|data|, 2) +
          LE(|name|, 2) + [kind] + name + data;
      items := items[key := b];
    }

    /** Make room and fill in: the bucket gains the entry unless it has the name. */
    method InsertEntry(key: Key, location: Key, kind: byte, name: seq<byte>, data: seq<byte>, slack: seq<byte>)
      returns (ok: bool)
      requires Packed(items, buckets) && |slack| == HEADER_SIZE + |name| + |data|
      requires Entry(location, slack[17..25], kind, name, data).Valid()
      modifies this`items, this`buckets
      ensures Packed(items, buckets)
      ensures ok <==> Find(EntriesOf(old(buckets), key), name).None?
      ensures !ok ==> items == old(items) && buckets == old(buckets)
      ensures ok ==> Grown(old(buckets), buckets, key, Entry(location, slack[17..25], kind, name, data))
      ensures ok ==> KeptBytes(old(items), items) && key in items && SameBut(old(items), items, {key})
    {
      ghost var e := Entry(location, slack[17..25], kind, name, data);
      ghost var before := if key in items then items[key] else [];
      ghost var entries := EntriesOf(buckets, key);
      hide Packed, KeptBytes, Find, Entry.Encode, Entry.Valid, EntriesOf, SameBut;
      var at: nat;
      ok, at := InsertWithOverflow(key, name, slack);
      if ok {
        WriteEntry(key, at, location, kind, name, data, before, slack);
        SetTwice(old(items), key, before + slack, before + e.Encode());
        SetSame(old(items), key, before + e.Encode());
        PackedMore(old(items), old(buckets), key, e);
        buckets := buckets[key := entries + [e]];
      }
    }

    /**
      btrfs_insert_dir_item: the entry by hash, then, outside the tree of roots, the one
      by index.  It fails exactly when the directory has the name already, and then
      changes nothing; a new name cannot fail at the second step.
     */
    method InsertDirItem(name: seq<byte>, dir: nat, location: Key, kind: byte, index: nat, slack: seq<byte>)
      returns (exist: bool)
      requires Valid() && |slack| == HEADER_SIZE + |name| && Entry(location, slack[17..25], kind, name, []).Valid()
      modifies this`items, this`buckets
      ensures Valid() && KeptBytes(old(items), items)
      ensures exist <==> old(Get(DIR_ITEM_KEY, dir, name)).Some?
      ensures exist ==> items == old(items)
      ensures !exist ==> Key(dir, DIR_ITEM_KEY, hash(name)) in items
      ensures !exist && !isTreeRoot ==> Key(dir, DIR_INDEX_KEY, index) in items
      ensures SameBut(old(items), items, {Key(dir, DIR_ITEM_KEY, hash(name))} +
                                         if isTreeRoot then {} else {Key(dir, DIR_INDEX_KEY, index)})
      ensures forall k, d, n :: ByHash(k) ==>
        Get(k, d, n) ==
          if !exist && k == DIR_ITEM_KEY && d == dir && n == name then Some(Attr(location, kind, []))
          else old(Get(k, d, n))
      ensures forall d, i, n ::
        GetIndexed(d, i, n) ==
          if !exist && !isTreeRoot && d == dir && i == index && n == name then Some(Attr(location, kind, []))
          else old(GetIndexed(d, i, n))
    {
      hide Packed, KeptBytes, Find, IndexedToo;
      ghost var e := Entry(location, slack[17..25], kind, name, []);
      var key := Key(dir, DIR_ITEM_KEY, hash(name));
      ghost var was := buckets;
      var ok := InsertEntry(key, location, kind, name, [], slack);
      if !ok {
        KeepSame(items);
        return true;
      }
      GrownByHash(was, buckets, hash, DIR_ITEM_KEY, dir, e);
      if isTreeRoot { return false; }
      ghost var mid, first := buckets, items;
      var key2 := Key(dir, DIR_INDEX_KEY, index);
      assert EntriesOf(mid, key2) == EntriesOf(was, key2);
      NotIndexedYet(was, hash, dir, index, name);
      ok := InsertEntry(key2, location, kind, name, [], slack);
      GrownByIndex(mid, buckets, hash, key2, e);
      KeepTrans(old(items), first, items);
      exist := !ok;
    }

    /** btrfs_insert_xattr_item, up to its BUG_ON: false stands for the abort. */
    method InsertXattrItem(name: seq<byte>, data: seq<byte>, dir: nat, slack: seq<byte>) returns (ok: bool)
      requires Valid() && |slack| == HEADER_SIZE + |name| + |data|
      requires Entry(Key(0, 0, 0), slack[17..25], FT_XATTR, name, data).Valid()
      modifies this`items, this`buckets
      ensures Valid() && KeptBytes(old(items), items) && (ok <==> old(Get(XATTR_KEY, dir, name)).None?)
      ensures SameBut(old(items), items, {Key(dir, XATTR_KEY, hash(name))})
      ensures forall d, i, n :: GetIndexed(d, i, n) == old(GetIndexed(d, i, n))
      ensures forall k, d, n :: ByHash(k) ==>
        Get(k, d, n) ==
          if ok && k == XATTR_KEY && d == dir && n == name then Some(Attr(Key(0, 0, 0), FT_XATTR, data))
          else old(Get(k, d, n))
    {
      hide Packed, KeptBytes, Find, IndexedToo;
      ghost var e := Entry(Key(0, 0, 0), slack[17..25], FT_XATTR, name, data);
      ghost var was := buckets;
      ok := InsertEntry(Key(dir, XATTR_KEY, hash(name)), Key(0, 0, 0), FT_XATTR, name, data, slack);
      if ok { GrownByHash(was, buckets, hash, XATTR_KEY, dir, e); } else { KeepSame(items); }
    }

    /** btrfs_lookup_dir_item */
    method LookupDirItem(dir: nat, name: seq<byte>) returns (r: Option<Attr>)
      requires Valid()
      ensures r == Get(DIR_ITEM_KEY, dir, name)
    {
      r := MatchIn(Key(dir, DIR_ITEM_KEY, hash(name)), name);
    }

    /** An entry under its sequence number, as a reader of the directory in order finds it. */
    method LookupDirIndex(dir: nat, index: nat, name: seq<byte>) returns (r: Option<Attr>)
      requires Valid()
      ensures r == GetIndexed(dir, index, name)
    {
      r := MatchIn(Key(dir, DIR_INDEX_KEY, index), name);
    }

    /** The entry of that name in one item. */
    method MatchIn(key: Key, name: seq<byte>) returns (r: Option<Attr>)
      requires Valid()
      ensures r == SeenIn(EntriesOf(buckets, key), name)
    {
      if key !in items { return None; }
      assert BucketOk(items, buckets, key);
      var found, at := MatchDirItemName(items[key], name, buckets[key]);
      r := if found then Some(ReadAttr(items[key], at)) else None;
    }
  }

  /** One bucket has one more entry at its end. */
  ghost predicate Grown(a: map<Key, seq<Entry>>, b: map<Key, seq<Entry>>, key: Key, e: Entry) {
    b == a[key := EntriesOf(a, key) + [e]]
  }

  /** No item but those under `keys` comes, goes or changes. */
  ghost predicate SameBut(a: map<Key, seq<byte>>, b: map<Key, seq<byte>>, keys: set<Key>) {
    forall key :: key !in keys ==> (key in a <==> key in b) && (key in a ==> a[key] == b[key])
  }

  /** Every item keeps the bytes that it had. */
  ghost predicate KeptBytes(a: map<Key, seq<byte>>, b: map<Key, seq<byte>>) {
    forall key :: key in a ==> key in b && |a[key]| <= |b[key]| && b[key][..|a[key]|] == a[key]
  }

  lemma KeepSame(a: map<Key, seq<byte>>)
    ensures KeptBytes(a, a)
  {}

  lemma KeepTrans(a: map<Key, seq<byte>>, b: map<Key, seq<byte>>, c: map<Key, seq<byte>>)
    requires KeptBytes(a, b) && KeptBytes(b, c)
    ensures KeptBytes(a, c)
  {
    forall key | key in a ensures key in c && |a[key]| <= |c[key]| && c[key][..|a[key]|] == a[key] {
      assert c[key][..|a[key]|] == c[key][..|b[key]|][..|a[key]|];
    }
  }

  lemma SetSame(m: map<Key, seq<byte>>, key: Key, a: seq<byte>)
    ensures SameBut(m, m[key := a], {key})
  {}

  lemma SetTwice(m: map<Key, seq<byte>>, key: Key, a: seq<byte>, b: seq<byte>)
    ensures m[key := a][key := b] == m[key := b]
  {}

  lemma PackedMore(items: map<Key, seq<byte>>, buckets: map<Key, seq<Entry>>, key: Key, e: Entry)
    requires Packed(items, buckets) && e.Valid()
    ensures var before := if key in items then items[key] else [];
      Packed(items[key := before + e.Encode()], buckets[key := EntriesOf(buckets, key) + [e]])
      && KeptBytes(items, items[key := before + e.Encode()])
  {
    hide Entry.Encode, Entry.Valid;
    var before := if key in items then items[key] else [];
    var entries := EntriesOf(buckets, key);
    var items', buckets' := items[key := before + e.Encode()], buckets[key := entries + [e]];
    assert key in items ==> BucketOk(items, buckets, key) && items[key][0..] == items[key];
    assert before == Pack(entries) && AllValid(entries);
    PackMore(entries, e);
    assert items'[key][0..] == items'[key];
    assert BucketOk(items', buckets', key);
    hide Pack, AllValid, EntriesOf;
    forall k | k in items' ensures BucketOk(items', buckets', k) {
      if k != key { assert BucketOk(items, buckets, k); }
    }
  }

  lemma NotIndexedYet(buckets: map<Key, seq<Entry>>, hash: seq<byte> -> nat, dir: nat, index: nat, name: seq<byte>)
    requires IndexedToo(buckets, hash) && Find(EntriesOf(buckets, Key(dir, DIR_ITEM_KEY, hash(name))), name).None?
    ensures Find(EntriesOf(buckets, Key(dir, DIR_INDEX_KEY, index)), name).None?
  {}

  lemma GrownByHash(a: map<Key, seq<Entry>>, b: map<Key, seq<Entry>>, hash: seq<byte> -> nat, kind: byte, dir: nat,
                    e: Entry)
    requires ByHash(kind) && Grown(a, b, Key(dir, kind, hash(e.name)), e) && IndexedToo(a, hash)
    requires Find(EntriesOf(a, Key(dir, kind, hash(e.name))), e.name).None?
    ensures IndexedToo(b, hash) && Lookup(b, hash, kind, dir, e.name) == Some(e.Seen())
    ensures forall k, d, n :: ByHash(k) && !(k == kind && d == dir && n == e.name) ==>
      Lookup(b, hash, k, d, n) == Lookup(a, hash, k, d, n)
    ensures forall d, i :: EntriesOf(b, Key(d, DIR_INDEX_KEY, i)) == EntriesOf(a, Key(d, DIR_INDEX_KEY, i))
  {
    var key := Key(dir, kind, hash(e.name));
    forall n
      ensures Find(EntriesOf(b, key), n) ==
        if Find(EntriesOf(a, key), n).Some? then Find(EntriesOf(a, key), n) else if n == e.name then Some(e) else None
    {
      FindMore(EntriesOf(a, key), e, n);
    }
    assert forall k :: k != key ==> EntriesOf(b, k) == EntriesOf(a, k);
  }

  lemma GrownByIndex(a: map<Key, seq<Entry>>, b: map<Key, seq<Entry>>, hash: seq<byte> -> nat, key: Key, e: Entry)
    requires key.kind == DIR_INDEX_KEY && Grown(a, b, key, e) && IndexedToo(a, hash)
    requires Find(EntriesOf(a, Key(key.objectid, DIR_ITEM_KEY, hash(e.name))), e.name).Some?
    ensures IndexedToo(b, hash)
    ensures forall k, d, n :: ByHash(k) ==> Lookup(b, hash, k, d, n) == Lookup(a, hash, k, d, n)
    ensures forall d, i, n :: Indexed(b, d, i, n) ==
                              if d == key.objectid && i == key.offset && n == e.name && Find(EntriesOf(a, key), n).None?
                              then Some(e.Seen()) else Indexed(a, d, i, n)
  {
    forall n
      ensures Find(EntriesOf(b, key), n) ==
        if Find(EntriesOf(a, key), n).Some? then Find(EntriesOf(a, key), n) else if n == e.name then Some(e) else None
    {
      FindMore(EntriesOf(a, key), e, n);
    }
    assert forall k :: k != key ==> EntriesOf(b, k) == EntriesOf(a, k);
    forall d, i, n
      ensures Indexed(b, d, i, n) ==
              if d == key.objectid && i == key.offset && n == e.name && Find(EntriesOf(a, key), n).None?
              then Some(e.Seen()) else Indexed(a, d, i, n)
    {
      if Key(d, DIR_INDEX_KEY, i) == key { FindMore(EntriesOf(a, key), e, n); }
    }
  }

  function Lookup(buckets: map<Key, seq<Entry>>, hash: seq<byte> -> nat, kind: byte, dir: nat,
                  name: seq<byte>): Option<Attr> {
    SeenIn(EntriesOf(buckets, Key(dir, kind, hash(name))), name)
  }

  ghost function Indexed(buckets: map<Key, seq<Entry>>, dir: nat, index: nat, name: seq<byte>): Option<Attr> {
    SeenIn(EntriesOf(buckets, Key(dir, DIR_INDEX_KEY, index)), name)
  }

  function SeenIn(entries: seq<Entry>, name: seq<byte>): Option<Attr> {
    var e := Find(entries, name);
    if e.Some? then Some(e.value.Seen()) else None
  }

  /** write_extent_buffer */
  function Store(b: seq<byte>, at: nat, s: seq<byte>): (r: seq<byte>)
    requires at + |s| <= |b|
    ensures |r| == |b| && forall i :: 0 <= i < |b| ==> r[i] == if at <= i < at + |s| then s[i - at] else b[i]
  {
    b[..at] + s + b[at + |s|..]
  }

  /** Seven fields stored over a fresh entry, the second one left as it was. */
  lemma AllStored(before: seq<byte>, slack: seq<byte>, loc: seq<byte>, dl: seq<byte>, nl: seq<byte>, kind: seq<byte>,
                  name: seq<byte>, data: seq<byte>)
    requires |loc| == 17 && |dl| == |nl| == 2 && |kind| == 1 && |slack| == HEADER_SIZE + |name| + |data|
    ensures var at := |before|;
      var b := Store(Store(Store(before + slack, at, loc), at + 29, kind), at + 25, dl);
      Store(Store(Store(b, at + 27, nl), at + HEADER_SIZE, name), at + HEADER_SIZE + |name|, data)
      == before + (loc + slack[17..25] + dl + nl + kind + name + data)
  {
    var at, b := |before|, before + slack;
    var b1 := Store(b, at, loc);
    var b2 := Store(b1, at + 29, kind);
    var b3 := Store(b2, at + 25, dl);
    var b4 := Store(b3, at + 27, nl);
    var b5 := Store(b4, at + HEADER_SIZE, name);
    var r := Store(b5, at + HEADER_SIZE + |name|, data);
    FieldsStored(b, b1, b2, b3, b4, b5, r, at, loc, dl, nl, kind, name, data);
    assert b[at + 17..at + 25] == slack[17..25] && b[..at] == before;
    hide Store;
    Join(r, at, at + 17, at + 25);
    Join(r, at, at + 25, at + 27);
    Join(r, at, at + 27, at + 29);
    Join(r, at, at + 29, at + 30);
    Join(r, at, at + 30, at + 30 + |name|);
    Join(r, at, at + 30 + |name|, |r|);
    Join(r, 0, at, |r|);
    assert r[0..|r|] == r && r[0..at] == r[..at];
  }

  lemma FieldsStored(b: seq<byte>, b1: seq<byte>, b2: seq<byte>, b3: seq<byte>, b4: seq<byte>, b5: seq<byte>,
                     r: seq<byte>, at: nat, loc: seq<byte>, dl: seq<byte>, nl: seq<byte>, kind: seq<byte>,
                     name: seq<byte>, data: seq<byte>)
    requires |loc| == 17 && |dl| == |nl| == 2 && |kind| == 1 && |b| == at + HEADER_SIZE + |name| + |data|
    requires b1 == Store(b, at, loc) && b2 == Store(b1, at + 29, kind) && b3 == Store(b2, at + 25, dl)
    requires b4 == Store(b3, at + 27, nl) && b5 == Store(b4, at + HEADER_SIZE, name)
    requires r == Store(b5, at + HEADER_SIZE + |name|, data)
    ensures |r| == |b| && r[..at] == b[..at] && r[at..at + 17] == loc && r[at + 17..at + 25] == b[at + 17..at + 25]
    ensures r[at + 25..at + 27] == dl && r[at + 27..at + 29] == nl && r[at + 29..at + 30] == kind
    ensures r[at + 30..at + 30 + |name|] == name && r[at + 30 + |name|..|r|] == data
  {
    hide Store;
  }

  lemma Join(r: seq<byte>, i: nat, j: nat, k: nat)
    requires i <= j <= k <= |r|
    ensures r[i..k] == r[i..j] + r[j..k]
  {}

  // ---------------------------------------------------------------- histories

  datatype Op =
    | Insert(name: seq<byte>, dir: nat, location: Key, kind: byte, index: nat)
    | Look(name: seq<byte>, dir: nat)
    | LookAt(name: seq<byte>, dir: nat, index: nat)
  {
    predicate Valid() { Insert? ==> |name| < 0x1_0000 && location.objectid < TWO_64 && location.offset < TWO_64 }
  }

  datatype Answer = Done | Exists | Found(attr: Attr) | Missing

  datatype Name = Name(dir: nat, name: seq<byte>)

  datatype Place = Place(dir: nat, index: nat, name: seq<byte>)

  /** What a directory tree stands for: names, and, outside the tree of roots, places in order. */
  datatype Maps = Maps(names: map<Name, Attr>, places: map<Place, Attr>)

  /** The same operation on plain maps. */
  function MapAnswer(m: Maps, op: Op): Answer {
    match op
    case Insert(name, dir, _, _, _) => if Name(dir, name) in m.names then Exists else Done
    case Look(name, dir) => if Name(dir, name) in m.names then Found(m.names[Name(dir, name)]) else Missing
    case LookAt(name, dir, index) =>
      if Place(dir, index, name) in m.places then Found(m.places[Place(dir, index, name)]) else Missing
  }

  function MapAfter(m: Maps, op: Op, isTreeRoot: bool): Maps {
    if !op.Insert? || Name(op.dir, op.name) in m.names then m
    else
      var attr := Attr(op.location, op.kind, []);
      Maps(m.names[Name(op.dir, op.name) := attr],
           if isTreeRoot then m.places else m.places[Place(op.dir, op.index, op.name) := attr])
  }

  function MapRun(m: Maps, ops: seq<Op>, isTreeRoot: bool): seq<Answer>
    decreases |ops|
  {
    if ops == [] then []
    else [MapAnswer(m, ops[0])] + MapRun(MapAfter(m, ops[0], isTreeRoot), ops[1..], isTreeRoot)
  }

  ghost predicate StandsFor(tree: DirTree, m: Maps)
    reads tree
  {
    && (forall d, n ::
          tree.Get(DIR_ITEM_KEY, d, n) == if Name(d, n) in m.names then Some(m.names[Name(d, n)]) else None)
    && forall d, i, n ::
         tree.GetIndexed(d, i, n) == if Place(d, i, n) in m.places then Some(m.places[Place(d, i, n)]) else None
  }

  /** One operation on the tree answers as the maps do, and the tree goes on standing for them. */
  method Perform(tree: DirTree, op: Op, slack: nat -> byte, ghost m: Maps) returns (answer: Answer)
    requires tree.Valid() && op.Valid() && StandsFor(tree, m)
    modifies tree
    ensures tree.Valid() && StandsFor(tree, MapAfter(m, op, tree.isTreeRoot))
    ensures answer == MapAnswer(m, op)
  {
    hide Lookup, Packed, IndexedToo, SeenIn, SameBut;
    match op {
      case Insert(name, dir, location, kind, index) =>
        var fill := seq(HEADER_SIZE + |name|, k requires 0 <= k < HEADER_SIZE + |name| => slack(k));
        var exist := tree.InsertDirItem(name, dir, location, kind, index, fill);
        answer := if exist then Exists else Done;
      case Look(name, dir) =>
        var r := tree.LookupDirItem(dir, name);
        answer := if r.Some? then Found(r.value) else Missing;
      case LookAt(name, dir, index) =>
        var r := tree.LookupDirIndex(dir, index, name);
        answer := if r.Some? then Found(r.value) else Missing;
    }
  }

  /**
    Any history of insertions and lookups by name or by place, under any hash function,
    answers as two maps would: collisions never show.
   */
  method Replay(ops: seq<Op>, hash: seq<byte> -> nat, isTreeRoot: bool, slack: nat -> byte)
    returns (answers: seq<Answer>)
    requires forall i :: 0 <= i < |ops| ==> ops[i].Valid()
    ensures answers == MapRun(Maps(map[], map[]), ops, isTreeRoot)
  {
    hide Lookup, Packed, IndexedToo, MapAnswer, MapAfter, SeenIn;
    var tree := new DirTree(hash, isTreeRoot);
    answers := [];
    ghost var m := Maps(map[], map[]);
    assert StandsFor(tree, m);
    hide StandsFor, DirTree.Valid;
    var i: nat := 0;
    assert ops[0..] == ops;
    while i < |ops|
      invariant i <= |ops| && fresh(tree) && tree.Valid() && StandsFor(tree, m) && tree.isTreeRoot == isTreeRoot
      invariant answers + MapRun(m, ops[i..], isTreeRoot) == MapRun(Maps(map[], map[]), ops, isTreeRoot)
    {
      assert ops[i..][0] == ops[i] && ops[i..][1..] == ops[i + 1..];
      var answer := Perform(tree, ops[i], slack, m);
      answers := answers + [answer];
      m := MapAfter(m, ops[i], isTreeRoot);
      i := i + 1;
    }
  }
}
