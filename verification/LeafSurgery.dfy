/**
  The in-place surgery on chunk-tree leaves when an image is restored onto one device.
  A leaf has a table of items (key, data offset, data size) growing from the front and
  the items' data growing from the back; item 0's data ends at the end of the leaf, and
  each further item's data ends where the previous one's begins.
 */
module LeafSurgery {
  import opened Bytes

  const CHUNK_ITEM_KEY: nat := 228
  /** sizeof(struct btrfs_chunk): a chunk with room for one stripe. */
  const CHUNK_SIZE: nat := 80
  const ITEM_HEADER_SIZE: nat := 25

  datatype Key = Key(objectid: nat, kind: nat, offset: nat)

  datatype LeafItem = LeafItem(key: Key, bytes: seq<byte>)

  // ---------------------------------------------------------------- the layout

  /** Where the data of item `i` has to end. */
  function EndOf(offsets: seq<nat>, total: nat, i: nat): nat
    requires i <= |offsets|
  {
    if i == 0 then total else offsets[i - 1]
  }

  ghost predicate Meets(offsets: seq<nat>, sizes: seq<nat>, total: nat, i: nat)
    requires i < |offsets| == |sizes|
  {
    offsets[i] + sizes[i] == EndOf(offsets, total, i)
  }

  ghost predicate Contiguous(offsets: seq<nat>, sizes: seq<nat>, total: nat) {
    && |offsets| == |sizes|
    && (forall i :: 0 <= i < |offsets| ==> Meets(offsets, sizes, total, i))
    && ITEM_HEADER_SIZE * |offsets| <= EndOf(offsets, total, |offsets|)
  }

  lemma {:induction false} Descending(offsets: seq<nat>, sizes: seq<nat>, total: nat, i: nat, j: nat)
    requires Contiguous(offsets, sizes, total) && i <= j <= |offsets|
    ensures EndOf(offsets, total, j) <= EndOf(offsets, total, i) <= total
    decreases j
  {
    if i < j {
      Descending(offsets, sizes, total, i, j - 1);
      assert Meets(offsets, sizes, total, j - 1);
    } else if 0 < j {
      Descending(offsets, sizes, total, 0, j - 1);
      assert Meets(offsets, sizes, total, j - 1);
    }
  }

  /** The bytes of one item. */
  function Slice(data: seq<byte>, at: nat, n: nat): seq<byte> {
    if at + n <= |data| then data[at..at + n] else []
  }

  ghost function ItemsOf(keys: seq<Key>, offsets: seq<nat>, sizes: seq<nat>, data: seq<byte>): seq<LeafItem>
    requires |keys| == |offsets| == |sizes|
  {
    seq(|keys|, i requires 0 <= i < |keys| => LeafItem(keys[i], Slice(data, offsets[i], sizes[i])))
  }

  /** memmove: the two ranges may overlap, so the direction matters. */
  method Memmove(a: array<byte>, dst: nat, src: nat, n: nat)
    requires dst + n <= a.Length && src + n <= a.Length
    modifies a
    ensures forall i :: dst <= i < dst + n ==> a[i] == old(a[..])[i - dst + src]
    ensures forall i :: 0 <= i < a.Length && !(dst <= i < dst + n) ==> a[i] == old(a[i])
  {
    if dst <= src {
      var k: nat := 0;
      while k < n
        invariant k <= n
        invariant forall i :: dst <= i < dst + k ==> a[i] == old(a[..])[i - dst + src]
        invariant forall i :: 0 <= i < a.Length && !(dst <= i < dst + k) ==> a[i] == old(a[i])
      {
        a[dst + k] := a[src + k];
        k := k + 1;
      }
    } else {
      var k: nat := n;
      while k > 0
        invariant k <= n
        invariant forall i :: dst + k <= i < dst + n ==> a[i] == old(a[..])[i - dst + src]
        invariant forall i :: 0 <= i < a.Length && !(dst + k <= i < dst + n) ==> a[i] == old(a[i])
      {
        k := k - 1;
        a[dst + k] := a[src + k];
      }
    }
  }

  /** The tables before and after: from `slot` on offsets grow, and the slot shrinks. */
  ghost predicate Shifted(offsets: seq<nat>, sizes: seq<nat>, offsets': seq<nat>, sizes': seq<nat>, slot: nat,
                          diff: nat)
  {
    && |offsets'| == |offsets| == |sizes| == |sizes'| && slot < |sizes| && diff <= sizes[slot]
    && sizes' == sizes[slot := sizes[slot] - diff]
    && forall i :: 0 <= i < |offsets| ==> offsets'[i] == if i < slot then offsets[i] else offsets[i] + diff
  }

  lemma ShiftedContiguous(offsets: seq<nat>, sizes: seq<nat>, offsets': seq<nat>, sizes': seq<nat>, slot: nat,
                          diff: nat, total: nat)
    requires Contiguous(offsets, sizes, total) && Shifted(offsets, sizes, offsets', sizes', slot, diff)
    ensures Contiguous(offsets', sizes', total)
  {
    forall i | 0 <= i < |offsets'| ensures Meets(offsets', sizes', total, i) {
      assert Meets(offsets, sizes, total, i);
    }
  }

  /** The data before and after: everything below the cut has moved up. */
  ghost predicate MovedUp(data: seq<byte>, data': seq<byte>, low: nat, cut: nat, diff: nat) {
    && |data'| == |data| && low <= cut && cut + diff <= |data|
    && (forall i :: low + diff <= i < cut + diff ==> data'[i] == data[i - diff])
    && forall i :: 0 <= i < |data| && !(low + diff <= i < cut + diff) ==> data'[i] == data[i]
  }

  lemma MovedItems(keys: seq<Key>, offsets: seq<nat>, sizes: seq<nat>, data: seq<byte>, offsets': seq<nat>,
                   sizes': seq<nat>, data': seq<byte>, slot: nat, diff: nat)
    requires |keys| == |offsets| && Contiguous(offsets, sizes, |data|)
    requires Shifted(offsets, sizes, offsets', sizes', slot, diff)
    requires MovedUp(data, data', EndOf(offsets, |data|, |offsets|), offsets[slot] + sizes[slot] - diff, diff)
    ensures var items := ItemsOf(keys, offsets, sizes, data);
      |items[slot].bytes| == sizes[slot]
      && ItemsOf(keys, offsets', sizes', data') ==
           items[slot := LeafItem(keys[slot], items[slot].bytes[..sizes[slot] - diff])]
  {
    hide Contiguous, MovedUp, Slice;
    forall i | 0 <= i < |keys|
      ensures |Slice(data, offsets[i], sizes[i])| == sizes[i]
      ensures Slice(data', offsets'[i], sizes'[i]) ==
        if i == slot then Slice(data, offsets[i], sizes[i])[..sizes[i] - diff] else Slice(data, offsets[i], sizes[i])
    {
      MovedItem(offsets, sizes, data, offsets', sizes', data', slot, diff, i);
    }
  }

  lemma SliceUp(data: seq<byte>, data': seq<byte>, low: nat, cut: nat, diff: nat, at: nat, n: nat)
    requires MovedUp(data, data', low, cut, diff) && low <= at && at + n <= cut
    ensures Slice(data', at + diff, n) == Slice(data, at, n)
  {
    var s, t := data'[at + diff..at + diff + n], data[at..at + n];
    assert forall k :: 0 <= k < n ==> s[k] == t[k];
  }

  lemma SliceStays(data: seq<byte>, data': seq<byte>, low: nat, cut: nat, diff: nat, at: nat, n: nat)
    requires MovedUp(data, data', low, cut, diff) && cut + diff <= at && at + n <= |data|
    ensures Slice(data', at, n) == Slice(data, at, n)
  {
    var s, t := data'[at..at + n], data[at..at + n];
    assert forall k :: 0 <= k < n ==> s[k] == t[k];
  }

  lemma MovedItem(offsets: seq<nat>, sizes: seq<nat>, data: seq<byte>, offsets': seq<nat>, sizes': seq<nat>,
                  data': seq<byte>, slot: nat, diff: nat, i: nat)
    requires Contiguous(offsets, sizes, |data|) && Shifted(offsets, sizes, offsets', sizes', slot, diff)
    requires i < |offsets|
    requires MovedUp(data, data', EndOf(offsets, |data|, |offsets|), offsets[slot] + sizes[slot] - diff, diff)
    ensures |Slice(data, offsets[i], sizes[i])| == sizes[i]
    ensures Slice(data', offsets'[i], sizes'[i]) ==
      if i == slot then Slice(data, offsets[i], sizes[i])[..sizes[i] - diff] else Slice(data, offsets[i], sizes[i])
  {
    hide Contiguous, MovedUp, Slice;
    var at, n, low, cut := offsets[i], sizes[i], EndOf(offsets, |data|, |offsets|), offsets[slot] + sizes[slot] - diff;
    SlotBounds(offsets, sizes, |data|, i);
    SlotBounds(offsets, sizes, |data|, slot);
    SliceWhole(data, at, n);
    if i < slot {
      SlotsApart(offsets, sizes, |data|, i, slot);
      SliceStays(data, data', low, cut, diff, at, n);
    } else if i > slot {
      SlotsApart(offsets, sizes, |data|, slot, i);
      SliceUp(data, data', low, cut, diff, at, n);
    } else {
      SliceUp(data, data', low, cut, diff, at, n - diff);
      SlicePrefix(data, at, n, n - diff);
    }
  }

  lemma SlotBounds(offsets: seq<nat>, sizes: seq<nat>, total: nat, i: nat)
    requires Contiguous(offsets, sizes, total) && i < |offsets|
    ensures |sizes| == |offsets| && EndOf(offsets, total, |offsets|) <= offsets[i] && offsets[i] + sizes[i] <= total
  {
    Bounds(offsets, sizes, total, i);
  }

  /** The data of an earlier item lies behind that of a later one. */
  lemma SlotsApart(offsets: seq<nat>, sizes: seq<nat>, total: nat, i: nat, j: nat)
    requires Contiguous(offsets, sizes, total) && i < j < |offsets|
    ensures |sizes| == |offsets| && offsets[j] + sizes[j] <= offsets[i]
  {
    Descending(offsets, sizes, total, i + 1, j);
    ItemEnds(offsets, sizes, total, j);
  }

  lemma SliceWhole(data: seq<byte>, at: nat, n: nat)
    requires at + n <= |data|
    ensures |Slice(data, at, n)| == n
  {}

  lemma SlicePrefix(data: seq<byte>, at: nat, n: nat, k: nat)
    requires at + n <= |data| && k <= n
    ensures |Slice(data, at, n)| == n && Slice(data, at, k) == Slice(data, at, n)[..k]
  {}

  lemma ItemEnds(offsets: seq<nat>, sizes: seq<nat>, total: nat, i: nat)
    requires Contiguous(offsets, sizes, total) && i < |offsets|
    ensures |sizes| == |offsets| && offsets[i] + sizes[i] == EndOf(offsets, total, i)
  {
    assert Meets(offsets, sizes, total, i);
  }

  // ---------------------------------------------------------------- what becomes of a chunk

  /** The device that the image is restored onto. */
  datatype Target = Target(devid: nat, uuid: seq<byte>) {
    predicate Valid() { devid < TWO_64 && |uuid| == 16 }
  }

  /** A stored chunk, field by field, with the bytes of its first stripe. */
  datatype ChunkHead = ChunkHead(
    length: nat, owner: nat, stripeLen: nat, kind: nat, ioAlign: nat, ioWidth: nat, sectorSize: nat,
    numStripes: nat, subStripes: nat, devid: nat, offset: nat, uuid: seq<byte>)

  function ReadChunk(b: seq<byte>): ChunkHead
    requires |b| == CHUNK_SIZE
  {
    ChunkHead(Num(b[0..8]), Num(b[8..16]), Num(b[16..24]), Num(b[24..32]), Num(b[32..36]), Num(b[36..40]),
              Num(b[40..44]), Num(b[44..46]), Num(b[46..48]), Num(b[48..56]), Num(b[56..64]), b[64..80])
  }

  /** The rewritten chunk: profile bits cleared, one stripe, and that one on the target. */
  function FixChunk(b: seq<byte>, t: Target): (r: seq<byte>)
    requires |b| == CHUNK_SIZE && t.Valid()
    ensures |r| == CHUNK_SIZE
  {
    b[0..24] + [b[24] % 8, 0, 0, 0, 0, 0, 0, 0] + b[32..44] + [1, 0, 0, 0] + LE(t.devid, 8) + b[56..64] + t.uuid
  }

  lemma {:induction false} NumZeros(b: seq<byte>)
    requires forall i :: 0 <= i < |b| ==> b[i] == 0
    ensures Num(b) == 0
  {
    if b != [] { NumZeros(b[1..]); }
  }

  lemma NumFirst(b: seq<byte>)
    requires b != [] && forall i :: 1 <= i < |b| ==> b[i] == 0
    ensures Num(b) == b[0]
  {
    NumZeros(b[1..]);
  }

  lemma FixedBytes(b: seq<byte>, t: Target)
    requires |b| == CHUNK_SIZE && t.Valid()
    ensures var r := FixChunk(b, t);
      && (forall i :: 0 <= i < CHUNK_SIZE && !(24 <= i < 32) && !(44 <= i < 56) && !(64 <= i) ==> r[i] == b[i])
      && r[24] == b[24] % 8 && (forall i :: 25 <= i < 32 ==> r[i] == 0) && r[44] == 1 && r[45] == r[46] == r[47] == 0
      && (forall i :: 48 <= i < 56 ==> r[i] == LE(t.devid, 8)[i - 48])
      && forall i :: 64 <= i < 80 ==> r[i] == t.uuid[i - 64]
  {
    hide LE;
  }

  lemma SameFields(b: seq<byte>, r: seq<byte>)
    requires |b| == |r| == CHUNK_SIZE
    requires forall i :: 0 <= i < CHUNK_SIZE && !(24 <= i < 32) && !(44 <= i < 56) && !(64 <= i) ==> r[i] == b[i]
    ensures r[0..8] == b[0..8] && r[8..16] == b[8..16] && r[16..24] == b[16..24]
    ensures r[32..36] == b[32..36] && r[36..40] == b[36..40] && r[40..44] == b[40..44] && r[56..64] == b[56..64]
  {}

  /** The rewritten number fields, and the type. */
  lemma FixedFields(b: seq<byte>, t: Target)
    requires |b| == CHUNK_SIZE && t.Valid()
    ensures var r := FixChunk(b, t);
      Num(r[24..32]) == Num(b[24..32]) % 8 && Num(r[44..46]) == 1 && Num(r[46..48]) == 0 && Num(r[48..56]) == t.devid
  {
    hide LE, FixChunk;
    var r := FixChunk(b, t);
    FixedBytes(b, t);
    assert r[48..56] == LE(t.devid, 8);
    NumLE(t.devid, 8);
    Widths();
    NumFirst(r[24..32]);
    NumFirst(r[44..46]);
    NumFirst(r[46..48]);
    assert Num(b[24..32]) == b[24] + 256 * Num(b[24..32][1..]);
  }

  /** Of the type only data, system and metadata are left; the rest of the chunk stays. */
  lemma FixedChunk(b: seq<byte>, t: Target)
    requires |b| == CHUNK_SIZE && t.Valid()
    ensures var was, now := ReadChunk(b), ReadChunk(FixChunk(b, t));
      now == was.(kind := was.kind % 8, numStripes := 1, subStripes := 0, devid := t.devid, uuid := t.uuid)
  {
    hide LE, FixChunk, Num;
    var r := FixChunk(b, t);
    FixedBytes(b, t);
    SameFields(b, r);
    FixedFields(b, t);
    assert r[64..80] == t.uuid;
  }

  /** What the fixup makes of an item. */
  function FixItem(item: LeafItem, t: Target): LeafItem
    requires t.Valid()
  {
    if item.key.kind == CHUNK_ITEM_KEY && |item.bytes| >= CHUNK_SIZE then
      LeafItem(item.key, FixChunk(item.bytes[..CHUNK_SIZE], t))
    else item
  }

  /** What a reader finds where there was `was`: a chunk with one stripe, which is on the target, and
      without profile bits; anything else as it was. */
  ghost predicate OneStripe(was: LeafItem, now: LeafItem, t: Target) {
    if was.key.kind == CHUNK_ITEM_KEY && |was.bytes| >= CHUNK_SIZE then
      && now.key == was.key && |now.bytes| == CHUNK_SIZE
      && var before, after := ReadChunk(was.bytes[..CHUNK_SIZE]), ReadChunk(now.bytes);
      && after.numStripes == 1 && after.subStripes == 0 && after.devid == t.devid && after.uuid == t.uuid
      && after.kind == before.kind % 8 && after.length == before.length && after.owner == before.owner
      && after.stripeLen == before.stripeLen && after.ioAlign == before.ioAlign && after.ioWidth == before.ioWidth
      && after.sectorSize == before.sectorSize && after.offset == before.offset
    else now == was
  }

  lemma FixedItem(item: LeafItem, t: Target)
    requires t.Valid()
    ensures OneStripe(item, FixItem(item, t), t)
  {
    if item.key.kind == CHUNK_ITEM_KEY && |item.bytes| >= CHUNK_SIZE {
      hide FixChunk, ReadChunk;
      FixedChunk(item.bytes[..CHUNK_SIZE], t);
    }
  }

  /** A second restore changes nothing more. */
  lemma FixTwice(item: LeafItem, t: Target)
    requires t.Valid()
    ensures FixItem(FixItem(item, t), t) == FixItem(item, t)
  {
    if item.key.kind == CHUNK_ITEM_KEY && |item.bytes| >= CHUNK_SIZE {
      hide LE;
      var r := FixChunk(item.bytes[..CHUNK_SIZE], t);
      assert r[..CHUNK_SIZE] == r;
      assert FixChunk(r, t) == r;
    }
  }

  class Leaf {
    const keys: seq<Key>
    const offset: array<nat>
    const size: array<nat>
    const data: array<byte>

    ghost predicate Valid()
      reads this, offset, size, data
    {
      offset != size && offset.Length == size.Length == |keys| && Contiguous(offset[..], size[..], data.Length)
    }

    /** The leaf as its readers see it. */
    ghost function Items(): seq<LeafItem>
      requires Valid()
      reads this, offset, size, data
    {
      ItemsOf(keys, offset[..], size[..], data[..])
    }

    constructor (keys: seq<Key>, offset: array<nat>, size: array<nat>, data: array<byte>)
      requires offset != size && offset.Length == size.Length == |keys| && Contiguous(offset[..], size[..], data.Length)
      ensures Valid() && this.keys == keys && this.offset == offset && this.size == size && this.data == data
    {
      this.keys, this.offset, this.size, this.data := keys, offset, size, data;
    }

    /** Push the offsets of the items from `slot` on up by `diff`. */
    method ShiftOffsets(slot: nat, diff: nat)
      requires slot <= offset.Length
      modifies offset
      ensures forall i :: 0 <= i < offset.Length ==>
        offset[i] == if i < slot then old(offset[i]) else old(offset[i]) + diff
    {
      var i: nat := slot;
      while i < offset.Length
        invariant slot <= i <= offset.Length
        invariant forall k :: 0 <= k < offset.Length ==>
          offset[k] == if slot <= k < i then old(offset[k]) + diff else old(offset[k])
      {
        offset[i] := offset[i] + diff;
        i := i + 1;
      }
    }

    /** truncate_item: the item becomes its own prefix, and no other item changes. */
    method TruncateItem(slot: nat, newSize: nat)
      requires Valid() && slot < |keys| && newSize <= size[slot]
      modifies offset, size, data
      ensures Valid() && |old(Items())[slot].bytes| == old(size[slot])
      ensures Items() == old(Items())[slot := LeafItem(keys[slot], old(Items())[slot].bytes[..newSize])]
    {
      hide Contiguous, ItemsOf;
      ghost var offsets, sizes, bytes := offset[..], size[..], data[..];
      var oldSize := size[slot];
      if oldSize == newSize {
        Whole(keys, offsets, sizes, bytes, slot);
        return;
      }
      var dataEnd, oldStart := offset[|keys| - 1], offset[slot];
      var diff: nat := oldSize - newSize;
      ShiftOffsets(slot, diff);
      assert dataEnd <= oldStart && oldStart + oldSize <= data.Length by {
        Bounds(offsets, sizes, |bytes|, slot);
      }
      Memmove(data, dataEnd + diff, dataEnd, oldStart + newSize - dataEnd);
      size[slot] := newSize;
      assert Shifted(offsets, sizes, offset[..], size[..], slot, diff);
      ShiftedContiguous(offsets, sizes, offset[..], size[..], slot, diff, |bytes|);
      MovedItems(keys, offsets, sizes, bytes, offset[..], size[..], data[..], slot, diff);
    }

    /** write_extent_buffer over the whole of one item. */
    method WriteItem(slot: nat, bytes: seq<byte>)
      requires Valid() && slot < |keys| && |bytes| == size[slot]
      modifies data
      ensures Valid() && Items() == old(Items())[slot := LeafItem(keys[slot], bytes)]
    {
      hide Contiguous;
      ghost var offsets, sizes, was := offset[..], size[..], data[..];
      Bounds(offsets, sizes, |was|, slot);
      var at := offset[slot];
      var k: nat := 0;
      while k < |bytes|
        invariant k <= |bytes|
        invariant forall i :: 0 <= i < data.Length ==> data[i] == if at <= i < at + k then bytes[i - at] else was[i]
      {
        data[at + k] := bytes[k];
        k := k + 1;
      }
      Written(keys, offsets, sizes, was, data[..], slot, bytes);
    }

    /** The body of fixup_chunk_tree_block: every chunk item is cut to one stripe and rewritten. */
    method Fixup(t: Target)
      requires Valid() && t.Valid()
      requires forall i :: 0 <= i < |keys| && keys[i].kind == CHUNK_ITEM_KEY ==> CHUNK_SIZE <= size[i]
      modifies offset, size, data
      ensures Valid() && |Items()| == |old(Items())|
      ensures forall i :: 0 <= i < |Items()| ==> Items()[i] == FixItem(old(Items())[i], t)
      ensures forall i :: 0 <= i < |Items()| ==> OneStripe(old(Items())[i], Items()[i], t)
    {
      hide Contiguous, FixChunk, OneStripe;
      ghost var was := Items();
      var i: nat := 0;
      while i < |keys|
        invariant i <= |keys| && Valid() && |Items()| == |was| == |keys|
        invariant forall k :: 0 <= k < |keys| ==> Items()[k] == if k < i then FixItem(was[k], t) else was[k]
        invariant forall k :: i <= k < |keys| && keys[k].kind == CHUNK_ITEM_KEY ==> CHUNK_SIZE <= size[k]
      {
        if keys[i].kind == CHUNK_ITEM_KEY {
          ghost var sizes := size[..];
          SizesOf(keys, offset[..], size[..], data[..]);
          TruncateItem(i, CHUNK_SIZE);
          SizesOf(keys, offset[..], size[..], data[..]);
          var chunk := Slice(data[..], offset[i], CHUNK_SIZE);
          WriteItem(i, FixChunk(chunk, t));
        }
        i := i + 1;
      }
      forall k | 0 <= k < |was| ensures OneStripe(was[k], FixItem(was[k], t), t) { FixedItem(was[k], t); }
    }
  }

  lemma Bounds(offsets: seq<nat>, sizes: seq<nat>, total: nat, slot: nat)
    requires Contiguous(offsets, sizes, total) && slot < |offsets|
    ensures |sizes| == |offsets| && offsets[|offsets| - 1] <= offsets[slot] && offsets[slot] + sizes[slot] <= total
  {
    Descending(offsets, sizes, total, slot + 1, |offsets|);
    Descending(offsets, sizes, total, 0, slot);
    assert Meets(offsets, sizes, total, slot);
  }

  lemma SizesOf(keys: seq<Key>, offsets: seq<nat>, sizes: seq<nat>, data: seq<byte>)
    requires |keys| == |offsets| && Contiguous(offsets, sizes, |data|)
    ensures |sizes| == |keys|
    ensures forall i :: 0 <= i < |keys| ==> |ItemsOf(keys, offsets, sizes, data)[i].bytes| == sizes[i]
  {
    forall i | 0 <= i < |keys| ensures |Slice(data, offsets[i], sizes[i])| == sizes[i] {
      Bounds(offsets, sizes, |data|, i);
    }
  }

  lemma Whole(keys: seq<Key>, offsets: seq<nat>, sizes: seq<nat>, data: seq<byte>, slot: nat)
    requires |keys| == |offsets| && Contiguous(offsets, sizes, |data|) && slot < |keys|
    ensures var items := ItemsOf(keys, offsets, sizes, data);
      |items[slot].bytes| == sizes[slot] &&
        items == items[slot := LeafItem(keys[slot], items[slot].bytes[..sizes[slot]])]
  {
    hide Contiguous, Slice;
    SizesOf(keys, offsets, sizes, data);
    var items := ItemsOf(keys, offsets, sizes, data);
    assert items[slot].bytes[..sizes[slot]] == items[slot].bytes;
    assert items[slot] == LeafItem(keys[slot], items[slot].bytes);
  }

  lemma Written(keys: seq<Key>, offsets: seq<nat>, sizes: seq<nat>, was: seq<byte>, now: seq<byte>, slot: nat,
                bytes: seq<byte>)
    requires |keys| == |offsets| && Contiguous(offsets, sizes, |was|) && slot < |keys| && |now| == |was|
    requires |bytes| == sizes[slot]
    requires forall i :: 0 <= i < |was| ==>
      now[i] == if offsets[slot] <= i < offsets[slot] + |bytes| then bytes[i - offsets[slot]] else was[i]
    ensures ItemsOf(keys, offsets, sizes, now) ==
      ItemsOf(keys, offsets, sizes, was)[slot := LeafItem(keys[slot], bytes)]
  {
    forall i | 0 <= i < |keys|
      ensures Slice(now, offsets[i], sizes[i]) == if i == slot then bytes else Slice(was, offsets[i], sizes[i])
    {
      WrittenOne(offsets, sizes, was, now, slot, bytes, i);
    }
  }

  lemma WrittenOne(offsets: seq<nat>, sizes: seq<nat>, was: seq<byte>, now: seq<byte>, slot: nat, bytes: seq<byte>,
                   i: nat)
    requires Contiguous(offsets, sizes, |was|) && slot < |offsets| && i < |offsets| && |now| == |was|
    requires |bytes| == sizes[slot]
    requires forall i :: 0 <= i < |was| ==>
      now[i] == if offsets[slot] <= i < offsets[slot] + |bytes| then bytes[i - offsets[slot]] else was[i]
    ensures Slice(now, offsets[i], sizes[i]) == if i == slot then bytes else Slice(was, offsets[i], sizes[i])
  {
    hide Contiguous, Slice;
    Bounds(offsets, sizes, |was|, i);
    Bounds(offsets, sizes, |was|, slot);
    ItemEnds(offsets, sizes, |was|, i);
    ItemEnds(offsets, sizes, |was|, slot);
    if i < slot {
      Descending(offsets, sizes, |was|, i + 1, slot);
    } else if i > slot {
      Descending(offsets, sizes, |was|, slot + 1, i);
    }
    SliceWritten(was, now, offsets[slot], bytes, offsets[i], sizes[i], i == slot);
  }

  lemma SliceWritten(was: seq<byte>, now: seq<byte>, from: nat, bytes: seq<byte>, at: nat, n: nat, same: bool)
    requires |now| == |was| && at + n <= |was| && from + |bytes| <= |was|
    requires forall i :: 0 <= i < |was| ==> now[i] == if from <= i < from + |bytes| then bytes[i - from] else was[i]
    requires if same then at == from && n == |bytes| else at + n <= from || from + |bytes| <= at
    ensures Slice(now, at, n) == if same then bytes else Slice(was, at, n)
  {}
}
