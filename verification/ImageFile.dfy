/**
  The clustered image file of btrfs-image: the writer that merges ranges into items and
  items into clusters, and the reader that takes them apart again.  A cluster is an
  index block of 1024 bytes followed by the buffers of its items and zeros up to the
  next multiple of 1024.
 */
module ImageFile {
  import opened Bytes

  const HEADER_MAGIC: nat := 0xbd5c25e27295668b
  const MAX_PENDING: nat := 262144
  const BLOCK_SIZE: nat := 1024
  /** A header of 21 bytes and items of 12. */
  const ITEMS_PER_CLUSTER: nat := (BLOCK_SIZE - 21) / 12

  /** A buffer and the logical address that it holds. */
  datatype Item = Item(start: nat, buf: seq<byte>)

  /** cpu_to_le32 / cpu_to_le64 into the index block. */
  method Put(block: array<byte>, at: nat, n: nat, width: nat)
    requires at + width <= block.Length
    modifies block
    ensures block[at..at + width] == LE(n, width)
    ensures n < Pow256(width) ==> Num(block[at..at + width]) == n
    ensures forall i :: 0 <= i < block.Length && !(at <= i < at + width) ==> block[i] == old(block[i])
  {
    hide Num, Pow256;
    var k: nat, rest: nat := 0, n;
    while k < width
      invariant k <= width
      invariant block[at..at + k] + LE(rest, width - k) == LE(n, width)
      invariant forall i :: 0 <= i < block.Length && !(at <= i < at + k) ==> block[i] == old(block[i])
    {
      ghost var before := block[at..at + k];
      block[at + k] := rest % 256;
      assert block[at..at + k + 1] == before + [rest % 256];
      assert LE(rest, width - k) == [rest % 256] + LE(rest / 256, width - k - 1);
      k, rest := k + 1, rest / 256;
    }
    assert LE(rest, 0) == [];
    assert block[at..at + k] + [] == block[at..at + k];
    NumLE(n, width);
  }

  // ---------------------------------------------------------------- the format

  ghost predicate HeaderOk(block: seq<byte>, start: nat, packing: byte) {
    && |block| == BLOCK_SIZE && Num(block[0..8]) == HEADER_MAGIC && Num(block[8..16]) == start && block[20] == packing
  }

  /** Entry `i` of an index block. */
  ghost predicate EntryOk(block: seq<byte>, i: nat, item: Item)
    requires |block| == BLOCK_SIZE
  {
    && i < ITEMS_PER_CLUSTER && Num(block[21 + 12 * i..29 + 12 * i]) == item.start
    && Num(block[29 + 12 * i..33 + 12 * i]) == |item.buf|
  }

  /** The index block lists exactly `items`; what follows the last entry is not looked at. */
  ghost predicate IndexOk(block: seq<byte>, start: nat, packing: byte, items: seq<Item>) {
    && HeaderOk(block, start, packing) && |items| <= ITEMS_PER_CLUSTER && Num(block[16..20]) == |items|
    && forall i :: 0 <= i < |items| ==> EntryOk(block, i, items[i])
  }

  function Buffers(items: seq<Item>): seq<byte> {
    if items == [] then [] else items[0].buf + Buffers(items[1..])
  }

  lemma {:induction false} BuffersMore(items: seq<Item>, x: Item)
    ensures Buffers(items + [x]) == Buffers(items) + x.buf
  {
    if items == [] {
      assert [x][1..] == [];
    } else {
      BuffersMore(items[1..], x);
      assert (items + [x])[1..] == items[1..] + [x];
    }
  }

  lemma BuffersUpTo(items: seq<Item>, k: nat)
    requires k < |items|
    ensures Buffers(items[..k + 1]) == Buffers(items[..k]) + items[k].buf
  {
    assert items[..k + 1] == items[..k] + [items[k]];
    BuffersMore(items[..k], items[k]);
  }

  function Padding(n: nat): nat { if n % BLOCK_SIZE == 0 then 0 else BLOCK_SIZE - n % BLOCK_SIZE }

  /** One cluster: recorded at its own offset, aligned, one to 83 items, and padded. */
  ghost predicate PartOk(part: seq<byte>, start: nat, packing: byte, items: seq<Item>) {
    && |part| >= BLOCK_SIZE && start % BLOCK_SIZE == 0 && 1 <= |items|
    && IndexOk(part[..BLOCK_SIZE], start, packing, items)
    && (forall i :: 0 <= i < |items| ==> 0 < |items[i].buf|)
    && part[BLOCK_SIZE..] == Buffers(items) + Zeros(Padding(|Buffers(items)|))
  }

  lemma PartAligned(part: seq<byte>, start: nat, packing: byte, items: seq<Item>)
    requires PartOk(part, start, packing, items)
    ensures |part| % BLOCK_SIZE == 0
  {}

  function Flatten(parts: seq<seq<byte>>): seq<byte> {
    if parts == [] then [] else parts[0] + Flatten(parts[1..])
  }

  /** The clusters of a file, one after the other; recorded offsets are 64-bit. */
  ghost predicate ImageOf(parts: seq<seq<byte>>, start: nat, packing: byte, clusters: seq<seq<Item>>) {
    if parts == [] then clusters == []
    else
      && clusters != [] && PartOk(parts[0], start, packing, clusters[0])
      && ImageOf(parts[1..], (start + |parts[0]|) % TWO_64, packing, clusters[1..])
  }

  lemma {:induction false} FlattenMore(parts: seq<seq<byte>>, part: seq<byte>)
    ensures Flatten(parts + [part]) == Flatten(parts) + part
  {
    if parts == [] {
      assert [part][1..] == [] && [] + [part] == [part];
      assert Flatten([part]) == part + Flatten([]);
    } else {
      FlattenMore(parts[1..], part);
      assert (parts + [part])[1..] == parts[1..] + [part];
    }
  }

  lemma {:induction false} ImageMore(parts: seq<seq<byte>>, start: nat, packing: byte, clusters: seq<seq<Item>>,
                                     part: seq<byte>, items: seq<Item>)
    requires start < TWO_64 && ImageOf(parts, start, packing, clusters)
    requires PartOk(part, (start + |Flatten(parts)|) % TWO_64, packing, items)
    ensures ImageOf(parts + [part], start, packing, clusters + [items])
  {
    hide PartOk;
    if parts == [] {
      assert parts + [part] == [part] && clusters + [items] == [items];
      assert [part][1..] == [] && [items][1..] == [];
    } else {
      var next := (start + |parts[0]|) % TWO_64;
      assert (next + |Flatten(parts[1..])|) % TWO_64 == (start + |Flatten(parts)|) % TWO_64 by {
        Wrap(start + |parts[0]|, |Flatten(parts[1..])|);
        assert Flatten(parts) == parts[0] + Flatten(parts[1..]);
      }
      ImageMore(parts[1..], next, packing, clusters[1..], part, items);
      assert (parts + [part])[1..] == parts[1..] + [part];
      assert (clusters + [items])[1..] == clusters[1..] + [items];
    }
  }

  lemma Wrap(a: nat, b: nat)
    ensures (a % TWO_64 + b) % TWO_64 == (a + b) % TWO_64
  {}

  function Concat(clusters: seq<seq<Item>>): seq<Item> {
    if clusters == [] then [] else clusters[0] + Concat(clusters[1..])
  }

  lemma {:induction false} ConcatMore(clusters: seq<seq<Item>>, items: seq<Item>)
    ensures Concat(clusters + [items]) == Concat(clusters) + items
  {
    if clusters == [] {
      assert [items][1..] == [];
    } else {
      ConcatMore(clusters[1..], items);
      assert (clusters + [items])[1..] == clusters[1..] + [items];
    }
  }

  // ---------------------------------------------------------------- what is recorded

  /** One recorded byte: its address and its value. */
  datatype Cell = Cell(at: nat, value: byte)

  function CellsOf(item: Item): seq<Cell> {
    seq(|item.buf|, i requires 0 <= i < |item.buf| => Cell(item.start + i, item.buf[i]))
  }

  function Cells(items: seq<Item>): seq<Cell> {
    if items == [] then [] else CellsOf(items[0]) + Cells(items[1..])
  }

  lemma {:induction false} CellsMore(items: seq<Item>, x: Item)
    ensures Cells(items + [x]) == Cells(items) + CellsOf(x)
  {
    if items == [] {
      assert [x][1..] == [];
    } else {
      CellsMore(items[1..], x);
      assert (items + [x])[1..] == items[1..] + [x];
    }
  }

  /** A request of add_extent. */
  datatype Range = Range(start: nat, size: nat, data: bool) {
    /** Sizes fit the item's 32-bit field even when packed; addresses fit 64 bits. */
    predicate Valid() { size < TWO_31 && start + size < TWO_64 }

    function Read(contents: (bool, nat) -> byte): seq<byte> {
      seq(size, i requires 0 <= i < size => contents(data, start + i))
    }

    function AsItem(contents: (bool, nat) -> byte): Item { Item(start, Read(contents)) }
  }

  function CellsOfRanges(ranges: seq<Range>, contents: (bool, nat) -> byte): seq<Cell> {
    if ranges == [] then [] else CellsOf(ranges[0].AsItem(contents)) + CellsOfRanges(ranges[1..], contents)
  }

  ghost predicate ItemsOk(items: seq<Item>) {
    forall i :: 0 <= i < |items| ==> items[i].start < TWO_64 && 0 < |items[i].buf| < TWO_31
  }

  /** What the compressor promises about sizes: something, and no more than 32 bits can say. */
  ghost predicate PackOk(pack: seq<byte> -> seq<byte>) { forall b :: 0 < |b| < TWO_31 ==> 0 < |pack(b)| < TWO_32 }

  function PackAll(items: seq<Item>, pack: seq<byte> -> seq<byte>): (r: seq<Item>)
    ensures |r| == |items|
  {
    seq(|items|, i requires 0 <= i < |items| => Item(items[i].start, pack(items[i].buf)))
  }

  lemma PackConcat(a: seq<Item>, b: seq<Item>, pack: seq<byte> -> seq<byte>)
    ensures PackAll(a + b, pack) == PackAll(a, pack) + PackAll(b, pack)
  {}

  ghost predicate Holds(out: seq<byte>, parts: seq<seq<byte>>, packing: byte, clusters: seq<seq<Item>>, raw: seq<Item>,
                        pack: seq<byte> -> seq<byte>) {
    && out == Flatten(parts) && |out| % BLOCK_SIZE == 0 && ImageOf(parts, 0, packing, clusters)
    && Concat(clusters) == PackAll(raw, pack) && ItemsOk(raw)
  }

  /** Before the first cluster. */
  lemma NothingHeld(packing: byte, pack: seq<byte> -> seq<byte>)
    ensures Holds([], [], packing, [], [], pack) && Cells([] + []) == []
  {
    assert PackAll([], pack) == [];
  }

  function Zeros(n: nat): seq<byte> { seq(n, _ => 0) }

  /** A cluster more: the index block, the buffers, and zeros up to the next block. */
  lemma ClusterDone(out: seq<byte>, parts: seq<seq<byte>>, packing: byte, clusters: seq<seq<Item>>, raw: seq<Item>,
                    pack: seq<byte> -> seq<byte>, block: seq<byte>, items: seq<Item>)
    returns (part: seq<byte>)
    requires Holds(out, parts, packing, clusters, raw, pack) && items != [] && ItemsOk(items) && PackOk(pack)
    requires IndexOk(block, |out| % TWO_64, packing, PackAll(items, pack))
    ensures var body := Buffers(PackAll(items, pack));
      Holds(out + block + body + Zeros(Padding(|body|)), parts + [part], packing, clusters + [PackAll(items, pack)],
            raw + items, pack)
  {
    hide ImageOf, Flatten, Concat, IndexOk, Padding, Buffers, PackAll, ItemsOk, PackOk, PartOk, Zeros;
    assert |block| == BLOCK_SIZE by { StartOf(block, |out| % TWO_64, packing, PackAll(items, pack)); }
    var packed := PackAll(items, pack);
    var body := Buffers(packed);
    var zeros := Zeros(Padding(|body|));
    part := block + body + zeros;
    assert out + block + body + zeros == out + part;
    SameRest(0, |out|);
    PackedSizes(items, pack);
    PartMade(block, |out| % TWO_64, packing, packed);
    AlignedSum(out, part);
    ItemsOkMore(raw, items);
    PartAligned(part, |out| % TWO_64, packing, packed);
    FlattenMore(parts, part);
    ImageMore(parts, 0, packing, clusters, part, packed);
    ConcatMore(clusters, packed);
    PackConcat(raw, items, pack);
  }

  lemma PartMade(block: seq<byte>, start: nat, packing: byte, items: seq<Item>)
    requires IndexOk(block, start, packing, items) && |block| == BLOCK_SIZE && items != [] && start % BLOCK_SIZE == 0
    requires forall i :: 0 <= i < |items| ==> 0 < |items[i].buf|
    ensures PartOk(block + Buffers(items) + Zeros(Padding(|Buffers(items)|)), start, packing, items)
  {
    hide IndexOk, Buffers, Padding;
    var body, zeros := Buffers(items), Zeros(Padding(|Buffers(items)|));
    var part := block + body + zeros;
    assert part[..BLOCK_SIZE] == block && part[BLOCK_SIZE..] == body + zeros;
  }

  lemma AlignedSum(a: seq<byte>, b: seq<byte>)
    requires |a| % BLOCK_SIZE == 0
    ensures |b| % BLOCK_SIZE == 0 ==> |a + b| % BLOCK_SIZE == 0
  {
    ModShift(|b|, |a| / BLOCK_SIZE, |a + b|);
  }

  lemma ItemsOkMore(a: seq<Item>, b: seq<Item>)
    requires ItemsOk(a) && ItemsOk(b)
    ensures ItemsOk(a + b)
  {}

  lemma PackedSizes(items: seq<Item>, pack: seq<byte> -> seq<byte>)
    requires ItemsOk(items) && PackOk(pack)
    ensures forall i :: 0 <= i < |items| ==>
      PackAll(items, pack)[i].start < TWO_64 && 0 < |PackAll(items, pack)[i].buf| < TWO_32
  {}

  // ---------------------------------------------------------------- the writer

  class Metadump {
    const level: nat
    const nodesize: nat
    /** The compressor, or the identity at level 0. */
    const pack: seq<byte> -> seq<byte>
    const contents: (bool, nat) -> byte
    const cluster: array<byte>
    var pendingStart: nat
    var pendingSize: nat
    var data: bool
    var ordered: seq<Item>
    var numItems: nat
    var out: seq<byte>
    ghost var parts: seq<seq<byte>>
    ghost var clusters: seq<seq<Item>>
    /** The items of all clusters written so far, before packing. */
    ghost var raw: seq<Item>

    function Method(): byte { if level > 0 then 1 else 0 }

    function Pending(): Range
      reads this
    {
      Range(pendingStart, pendingSize, data)
    }

    /** The file holds the clusters, and they hold the packed items. */
    ghost predicate Written()
      reads this
    {
      Holds(out, parts, Method(), clusters, raw, pack)
    }

    ghost predicate Ready()
      reads this, cluster
    {
      && Written() && 0 < nodesize && PackOk(pack) && cluster.Length == BLOCK_SIZE && Pending().Valid()
      && |ordered| == numItems && ItemsOk(ordered) && HeaderOk(cluster[..], |out| % TWO_64, Method())
    }

    ghost predicate Valid()
      reads this, cluster
    {
      Ready() && numItems < ITEMS_PER_CLUSTER
    }

    /** Everything asked for so far, byte by byte, in order. */
    ghost function Recorded(): seq<Cell>
      reads this
    {
      Cells(raw + ordered) + CellsOf(Pending().AsItem(contents))
    }

    constructor (level: nat, nodesize: nat, pack: seq<byte> -> seq<byte>, contents: (bool, nat) -> byte)
      requires 0 < nodesize && PackOk(pack)
      ensures Valid() && Recorded() == [] && fresh(cluster)
      ensures this.level == level && this.pack == pack && this.contents == contents && out == []
    {
      hide Holds, HeaderOk, Cells, CellsOf, PackOk;
      this.level, this.nodesize, this.pack, this.contents := level, nodesize, pack, contents;
      cluster := new byte[1024](_ => 0);
      pendingStart, pendingSize, data := TWO_64 - 1, 0, false;
      ordered, numItems, out := [], 0, [];
      parts, clusters, raw := [], [], [];
      new;
      NothingHeld(Method(), pack);
      NoCells(Pending(), contents);
      MetaClusterInit(0);
    }

    /** meta_cluster_init */
    method MetaClusterInit(start: nat)
      requires cluster.Length == BLOCK_SIZE && start < TWO_64
      modifies this`numItems, cluster
      ensures numItems == 0 && HeaderOk(cluster[..], start, Method())
    {
      numItems := 0;
      Widths();
      Put(cluster, 0, HEADER_MAGIC, 8);
      ghost var magic := cluster[0..8];
      Put(cluster, 8, start, 8);
      assert cluster[0..8] == magic;
      ghost var at := cluster[8..16];
      Put(cluster, 16, 0, 4);
      cluster[20] := Method();
      assert cluster[0..8] == magic && cluster[8..16] == at;
      assert cluster[..][0..8] == magic && cluster[..][8..16] == at;
    }

    /** The index block: one entry per queued item, then their number. */
    method FillIndex(packed: seq<Item>, ghost start: nat)
      requires cluster.Length == BLOCK_SIZE && HeaderOk(cluster[..], start, Method())
      requires |packed| <= ITEMS_PER_CLUSTER
      requires forall i :: 0 <= i < |packed| ==> packed[i].start < TWO_64 && |packed[i].buf| < TWO_32
      modifies cluster
      ensures IndexOk(cluster[..], start, Method(), packed)
    {
      hide Num;
      Widths();
      var nritems: nat := 0;
      while nritems < |packed|
        invariant nritems <= |packed|
        invariant HeaderOk(cluster[..], start, Method())
        invariant forall i :: 0 <= i < nritems ==> EntryOk(cluster[..], i, packed[i])
      {
        ghost var before := cluster[..];
        PutEntry(nritems, packed[nritems]);
        forall i | 0 <= i < nritems ensures EntryOk(cluster[..], i, packed[i]) {
          assert EntryOk(before, i, packed[i]);
          SameEntry(before, cluster[..], i, packed[i]);
        }
        SameHeader(before, cluster[..], start, Method());
        nritems := nritems + 1;
      }
      ghost var before := cluster[..];
      Put(cluster, 16, nritems, 4);
      assert cluster[..][16..20] == cluster[16..20];
      SameHeader(before, cluster[..], start, Method());
      forall i | 0 <= i < nritems ensures EntryOk(cluster[..], i, packed[i]) {
        SameEntry(before, cluster[..], i, packed[i]);
      }
    }

    method PutEntry(i: nat, item: Item)
      requires cluster.Length == BLOCK_SIZE && i < ITEMS_PER_CLUSTER && item.start < TWO_64 && |item.buf| < TWO_32
      modifies cluster
      ensures EntryOk(cluster[..], i, item)
      ensures forall k :: 0 <= k < BLOCK_SIZE && !(21 + 12 * i <= k < 33 + 12 * i) ==> cluster[k] == old(cluster[k])
    {
      hide Num;
      Widths();
      Put(cluster, 21 + 12 * i, item.start, 8);
      ghost var s := cluster[21 + 12 * i..29 + 12 * i];
      Put(cluster, 29 + 12 * i, |item.buf|, 4);
      assert cluster[..][21 + 12 * i..29 + 12 * i] == s;
      assert cluster[..][29 + 12 * i..33 + 12 * i] == cluster[29 + 12 * i..33 + 12 * i];
    }

    /** The buffers one after the other, then zeros for the unused space of the last block. */
    method WriteItems(packed: seq<Item>, start: nat) returns (bytenr: nat)
      requires |out| % BLOCK_SIZE == 0 && start == |out| % TWO_64
      modifies this`out
      ensures out == old(out) + Buffers(packed) + Zeros(Padding(|Buffers(packed)|)) && bytenr == |out| % TWO_64
    {
      hide Padding;
      bytenr := start;
      var k: nat := 0;
      while k < |packed|
        invariant k <= |packed| && bytenr == |out| % TWO_64
        invariant out == old(out) + Buffers(packed[..k])
      {
        Wrap(|out|, |packed[k].buf|);
        bytenr := (bytenr + |packed[k].buf|) % TWO_64;
        BuffersUpTo(packed, k);
        out := out + packed[k].buf;
        k := k + 1;
      }
      assert packed[..k] == packed;
      Aligned(|old(out)|, |Buffers(packed)|);
      if bytenr % BLOCK_SIZE != 0 {
        var size := BLOCK_SIZE - bytenr % BLOCK_SIZE;
        Wrap(|out|, size);
        bytenr := (bytenr + size) % TWO_64;
        out := out + Zeros(size);
      }
    }

    /**
      write_buffers: the whole queue becomes one cluster.  By the time the index is set
      up all buffers have been packed.  An empty queue writes nothing and answers 0.
     */
    method WriteBuffers() returns (next: nat)
      requires Ready() && numItems <= ITEMS_PER_CLUSTER
      modifies this`ordered, this`out, this`parts, this`clusters, this`raw, cluster
      ensures Written() && ordered == [] && raw == old(raw + ordered)
      ensures old(ordered) == [] ==> next == 0 && out == old(out)
      ensures old(ordered) != [] ==> next == |out| % TWO_64 && clusters == old(clusters) + [PackAll(old(ordered), pack)]
    {
      hide Holds, HeaderOk, IndexOk, Padding;
      hide Num, Buffers, Zeros, PackAll, PackOk;
      assert |out| % BLOCK_SIZE == 0 by { OutAligned(out, parts, Method(), clusters, raw, pack); }
      next := 0;
      if ordered == [] {
        assert raw == raw + ordered;
        return;
      }
      var packed := PackAll(ordered, pack);
      PackedSizes(ordered, pack);
      ghost var start := |out| % TWO_64;
      FillIndex(packed, start);
      var block := cluster[..];
      StartOf(block, start, Method(), packed);
      var bytenr: nat := (Num(block[8..16]) + BLOCK_SIZE) % TWO_64;
      ghost var was := out;
      out := out + block;
      assert |out| % BLOCK_SIZE == 0 && bytenr == |out| % TWO_64 by {
        NextBlock(|was|);
        assert |out| == |was| + BLOCK_SIZE;
      }
      bytenr := WriteItems(packed, bytenr);
      ghost var part := ClusterDone(was, parts, Method(), clusters, raw, pack, block, ordered);
      parts, clusters, raw := parts + [part], clusters + [packed], raw + ordered;
      ordered := [];
      next := bytenr;
    }

    /** read_data_extent at once, or tree blocks one by one. */
    method ReadPending() returns (buffer: seq<byte>)
      requires 0 < nodesize
      ensures buffer == Pending().Read(contents)
    {
      buffer := [];
      if data {
        buffer := Pending().Read(contents);
      } else {
        var start: nat, size: nat := pendingStart, pendingSize;
        while size > 0
          invariant size <= pendingSize && start + size == pendingStart + pendingSize
          invariant buffer == Range(pendingStart, pendingSize - size, false).Read(contents)
        {
          var thisRead: nat := if nodesize < size then nodesize else size;
          buffer := buffer + Range(start, thisRead, false).Read(contents);
          start, size := start + thisRead, size - thisRead;
        }
      }
    }

    /** flush_pending: the pending range becomes an item; a full queue, or the end, becomes a cluster. */
    method FlushPending(done: bool)
      requires Valid()
      modifies this, cluster
      ensures Written() && Recorded() == old(Recorded()) && pendingSize == 0 && data == old(data)
      ensures !done ==> Valid()
      ensures done ==> ordered == []
    {
      hide Holds, HeaderOk, Cells, CellsOf;
      if pendingSize > 0 {
        var buffer := ReadPending();
        ghost var item := Pending().AsItem(contents);
        CellsMore(raw + ordered, item);
        assert raw + (ordered + [item]) == raw + ordered + [item];
        ordered := ordered + [Item(pendingStart, buffer)];
        pendingStart, pendingSize := TWO_64 - 1, 0;
        NoCells(Pending(), contents);
        numItems := numItems + 1;
      } else if !done {
        return;
      }
      if numItems >= ITEMS_PER_CLUSTER || done {
        ghost var all := raw + ordered;
        var start := WriteBuffers();
        assert raw + ordered == all;
        MetaClusterInit(start);
      }
    }

    /** The pending range is flushed, and the next one begins where `r` does. */
    method StartRange(r: Range)
      requires Valid() && r.Valid()
      modifies this, cluster
      ensures Valid() && Recorded() == old(Recorded()) && pendingSize == 0 && pendingStart == r.start
    {
      hide Holds, HeaderOk, Cells, CellsOf;
      FlushPending(false);
      NoCells(Pending(), contents);
      pendingStart := r.start;
      NoCells(Pending(), contents);
    }

    /** add_extent: extend the pending range, or flush it and start anew. */
    method AddExtent(r: Range)
      requires Valid() && r.Valid()
      modifies this, cluster
      ensures Valid() && Recorded() == old(Recorded()) + CellsOf(r.AsItem(contents))
    {
      hide Holds, HeaderOk, Cells, CellsOf;
      if data != r.data || pendingSize + r.size > MAX_PENDING || pendingStart + pendingSize != r.start {
        StartRange(r);
      }
      NoCells(Pending(), contents);
      ghost var before, all := Range(pendingStart, pendingSize, r.data), Cells(raw + ordered);
      NoCells(before, contents);
      assert Recorded() == all + CellsOf(before.AsItem(contents));
      JoinCells(before, r, contents);
      Regroup(all, CellsOf(before.AsItem(contents)), CellsOf(r.AsItem(contents)));
      pendingSize := pendingSize + r.size;
      data := r.data;
    }
  }

  lemma Regroup(a: seq<Cell>, b: seq<Cell>, c: seq<Cell>)
    ensures (a + b) + c == a + (b + c)
  {}

  lemma SameEntry(a: seq<byte>, b: seq<byte>, i: nat, item: Item)
    requires |a| == |b| == BLOCK_SIZE && EntryOk(a, i, item)
    requires forall k :: 21 + 12 * i <= k < 33 + 12 * i ==> a[k] == b[k]
    ensures EntryOk(b, i, item)
  {
    assert a[21 + 12 * i..29 + 12 * i] == b[21 + 12 * i..29 + 12 * i];
    assert a[29 + 12 * i..33 + 12 * i] == b[29 + 12 * i..33 + 12 * i];
  }

  lemma SameHeader(a: seq<byte>, b: seq<byte>, start: nat, packing: byte)
    requires |a| == |b| == BLOCK_SIZE && HeaderOk(a, start, packing)
    requires forall k :: 0 <= k <= 20 && !(16 <= k < 20) ==> a[k] == b[k]
    ensures HeaderOk(b, start, packing)
  {
    assert a[0..8] == b[0..8] && a[8..16] == b[8..16];
  }

  lemma StartOf(block: seq<byte>, start: nat, packing: byte, items: seq<Item>)
    requires IndexOk(block, start, packing, items)
    ensures |block| == BLOCK_SIZE && Num(block[8..16]) == start
  {}

  lemma Aligned(was: nat, body: nat)
    requires was % BLOCK_SIZE == 0
    ensures var bytenr := (was + body) % TWO_64;
      Padding(body) == if bytenr % BLOCK_SIZE == 0 then 0 else BLOCK_SIZE - bytenr % BLOCK_SIZE
  {
    SameRest(was, body);
  }

  /** 64-bit wrap-around keeps the place within a block. */
  lemma SameRest(start: nat, n: nat)
    requires start % BLOCK_SIZE == 0
    ensures ((start + n) % TWO_64) % BLOCK_SIZE == n % BLOCK_SIZE
  {
    var x := start + n;
    assert x == (x / TWO_64) * TWO_64 + x % TWO_64;
    assert TWO_64 == BLOCK_SIZE * 0x40_0000_0000_0000;
    var q, s := (x / TWO_64) * 0x40_0000_0000_0000, start / BLOCK_SIZE;
    assert (x / TWO_64) * TWO_64 == BLOCK_SIZE * q;
    assert start == BLOCK_SIZE * s;
    assert x % TWO_64 == n + BLOCK_SIZE * (s - q);
    ModShift(n, s - q, x % TWO_64);
  }

  lemma ModShift(n: nat, k: int, m: nat)
    requires m == n + BLOCK_SIZE * k
    ensures m % BLOCK_SIZE == n % BLOCK_SIZE
  {}

  lemma NextBlock(was: nat)
    requires was % BLOCK_SIZE == 0
    ensures (was + BLOCK_SIZE) % BLOCK_SIZE == 0 && (was % TWO_64 + BLOCK_SIZE) % TWO_64 == (was + BLOCK_SIZE) % TWO_64
  {
    ModShift(was, 1, was + BLOCK_SIZE);
    Wraps(was, BLOCK_SIZE);
  }

  /** Adding to a wrapped number wraps like adding to the number. */
  lemma Wraps(a: nat, n: nat)
    ensures (a % TWO_64 + n) % TWO_64 == (a + n) % TWO_64
  {
    var q := a / TWO_64;
    assert a == TWO_64 * q + a % TWO_64;
    SameRemainder(a % TWO_64 + n, q, a + n);
  }

  lemma SameRemainder(m: nat, q: nat, n: nat)
    requires n == m + TWO_64 * q
    ensures m % TWO_64 == n % TWO_64
  {}

  lemma NoCells(r: Range, contents: (bool, nat) -> byte)
    ensures r.size == 0 ==> CellsOf(r.AsItem(contents)) == []
  {}

  /** Two ranges that meet read like one. */
  lemma JoinCells(a: Range, b: Range, contents: (bool, nat) -> byte)
    requires a.start + a.size == b.start && a.data == b.data
    ensures CellsOf(Range(a.start, a.size + b.size, a.data).AsItem(contents)) ==
      CellsOf(a.AsItem(contents)) + CellsOf(b.AsItem(contents))
  {}

  lemma OutAligned(out: seq<byte>, parts: seq<seq<byte>>, packing: byte, clusters: seq<seq<Item>>, raw: seq<Item>,
                   pack: seq<byte> -> seq<byte>)
    requires Holds(out, parts, packing, clusters, raw, pack)
    ensures |out| % BLOCK_SIZE == 0
  {}

  // ---------------------------------------------------------------- the reader

  /** What a worker makes of a stored buffer. */
  function Unpacked(item: Item, packing: byte, unpack: seq<byte> -> seq<byte>): Item {
    if packing == 1 then Item(item.start, unpack(item.buf)) else item
  }

  function UnpackAll(items: seq<Item>, packing: byte, unpack: seq<byte> -> seq<byte>): (r: seq<Item>)
    ensures |r| == |items|
  {
    seq(|items|, i requires 0 <= i < |items| => Unpacked(items[i], packing, unpack))
  }

  lemma UnpackConcat(a: seq<Item>, b: seq<Item>, packing: byte, unpack: seq<byte> -> seq<byte>)
    ensures UnpackAll(a + b, packing, unpack) == UnpackAll(a, packing, unpack) + UnpackAll(b, packing, unpack)
  {}

  /** fread of one element of `n` bytes. */
  method Fread(file: seq<byte>, pos: nat, n: nat) returns (ok: bool, buf: seq<byte>, pos': nat)
    requires pos <= |file|
    ensures ok <==> 0 < n <= |file| - pos
    ensures pos' == if ok then pos + n else |file|
    ensures ok ==> buf == file[pos..pos + n]
  {
    ok := 0 < n <= |file| - pos;
    buf := if ok then file[pos..pos + n] else [];
    pos' := if ok then pos + n else |file|;
  }

  /** The file goes on, from item `i` of a cluster, with the rest of that cluster. */
  ghost predicate GoesOn(file: seq<byte>, pos: nat, items: seq<Item>, i: nat, rest: seq<byte>)
    requires i <= |items| && pos <= |file|
  {
    file[pos..] == Buffers(items[i..]) + (Zeros(Padding(|Buffers(items)|)) + rest)
  }

  /** The index block has been read, and the rest of its cluster is next. */
  ghost predicate ClusterAt(file: seq<byte>, pos: nat, block: seq<byte>, start: nat, items: seq<Item>, rest: seq<byte>)
    requires |block| == BLOCK_SIZE && pos <= |file|
  {
    && IndexOk(block, start, block[20], items) && (forall i :: 0 <= i < |items| ==> 0 < |items[i].buf|)
    && start % BLOCK_SIZE == 0 && GoesOn(file, pos, items, 0, rest)
  }

  lemma GoOn(file: seq<byte>, pos: nat, items: seq<Item>, i: nat, rest: seq<byte>)
    requires i < |items| && pos <= |file| && GoesOn(file, pos, items, i, rest)
    ensures var n := |items[i].buf|;
      n <= |file| - pos && file[pos..pos + n] == items[i].buf && GoesOn(file, pos + n, items, i + 1, rest)
  {
    hide Padding, Zeros;
    var n, tail := |items[i].buf|, Zeros(Padding(|Buffers(items)|)) + rest;
    assert items[i..][1..] == items[i + 1..];
    assert Buffers(items[i..]) == items[i].buf + Buffers(items[i + 1..]);
    assert file[pos..] == items[i].buf + (Buffers(items[i + 1..]) + tail);
    assert file[pos..pos + n] == file[pos..][..n];
    assert file[pos + n..] == file[pos..][n..];
  }

  /**
    add_cluster: read the items that the index block lists.  Whatever cluster `items`
    the block and the file hold, they are what comes back.
   */
  method AddCluster(file: seq<byte>, pos: nat, block: seq<byte>, unpack: seq<byte> -> seq<byte>, ghost start: nat,
                    ghost items: seq<Item>, ghost rest: seq<byte>)
    returns (ok: bool, got: seq<Item>, at: nat, next: nat)
    requires |block| == BLOCK_SIZE && pos <= |file|
    ensures pos <= at <= |file|
    ensures ClusterAt(file, pos, block, start, items, rest) ==>
      && ok && got == UnpackAll(items, block[20], unpack) && file[at..] == rest
      && next == (start + BLOCK_SIZE + |Buffers(items)| + Padding(|Buffers(items)|)) % TWO_64
  {
    hide Num, Buffers, GoesOn, IndexOk, Padding;
    ghost var fine := ClusterAt(file, pos, block, start, items, rest);
    ok, got, at := true, [], pos;
    var bytenr: nat := (Num(block[8..16]) + BLOCK_SIZE) % TWO_64;
    var nritems: nat := Num(block[16..20]);
    next := 0;
    if fine {
      IndexParts(block, start, block[20], items);
      assert Buffers(items[..0]) == [] by { NoBuffers(items); }
    }
    var i: nat := 0;
    while i < nritems
      invariant i <= nritems && pos <= at <= |file|
      invariant fine ==> nritems == |items| <= ITEMS_PER_CLUSTER
      invariant fine ==> bytenr == (start + BLOCK_SIZE + |Buffers(items[..i])|) % TWO_64
      invariant fine ==> |got| == i && forall j :: 0 <= j < i ==> got[j] == Unpacked(items[j], block[20], unpack)
      invariant fine ==> GoesOn(file, at, items, i, rest)
    {
      if i >= ITEMS_PER_CLUSTER { return false, got, at, bytenr; }
      var entry, size := Num(block[21 + 12 * i..29 + 12 * i]), Num(block[29 + 12 * i..33 + 12 * i]);
      if fine {
        IndexEntry(block, start, block[20], items, i);
        GoOn(file, at, items, i, rest);
        BuffersUpTo(items, i);
        Wrap(start + BLOCK_SIZE + |Buffers(items[..i])|, size);
      }
      var has, buf, pos' := Fread(file, at, size);
      if !has { return false, got, pos', bytenr; }
      at, bytenr := pos', (bytenr + size) % TWO_64;
      got := got + [Unpacked(Item(entry, buf), block[20], unpack)];
      i := i + 1;
    }
    if fine {
      assert items[..i] == items;
      GoneOn(file, at, items, rest);
      SamePadding(start, |Buffers(items)|);
      assert got == UnpackAll(items, block[20], unpack);
    }
    if bytenr % BLOCK_SIZE != 0 {
      var size := BLOCK_SIZE - bytenr % BLOCK_SIZE;
      if fine { Wrap(start + BLOCK_SIZE + |Buffers(items)|, size); }
      bytenr := (bytenr + size) % TWO_64;
      var has, buf, pos' := Fread(file, at, size);
      if !has { return false, got, pos', bytenr; }
      at := pos';
    }
    next := bytenr;
  }

  lemma NoBuffers(items: seq<Item>)
    ensures Buffers(items[..0]) == []
  {}

  lemma GoneOn(file: seq<byte>, at: nat, items: seq<Item>, rest: seq<byte>)
    requires at <= |file| && GoesOn(file, at, items, |items|, rest)
    ensures var n := Padding(|Buffers(items)|); n <= |file| - at && file[at + n..] == rest
  {
    hide Padding;
    var zeros := Zeros(Padding(|Buffers(items)|));
    assert items[|items|..] == [];
    assert file[at..] == zeros + rest;
    assert file[at + |zeros|..] == file[at..][|zeros|..];
  }

  lemma SamePadding(start: nat, body: nat)
    requires start % BLOCK_SIZE == 0
    ensures var bytenr := (start + BLOCK_SIZE + body) % TWO_64;
      Padding(body) == if bytenr % BLOCK_SIZE == 0 then 0 else BLOCK_SIZE - bytenr % BLOCK_SIZE
  {
    SameRest(start + BLOCK_SIZE, body);
  }

  lemma IndexParts(block: seq<byte>, start: nat, packing: byte, items: seq<Item>)
    requires IndexOk(block, start, packing, items)
    ensures |block| == BLOCK_SIZE && Num(block[0..8]) == HEADER_MAGIC && Num(block[8..16]) == start
    ensures block[20] == packing && Num(block[16..20]) == |items| <= ITEMS_PER_CLUSTER
  {}

  lemma IndexEntry(block: seq<byte>, start: nat, packing: byte, items: seq<Item>, i: nat)
    requires IndexOk(block, start, packing, items) && i < |items|
    ensures |block| == BLOCK_SIZE && Num(block[21 + 12 * i..29 + 12 * i]) == items[i].start
    ensures Num(block[29 + 12 * i..33 + 12 * i]) == |items[i].buf|
  {
    assert EntryOk(block, i, items[i]);
  }

  /**
    The loop of __restore_metadump: check each header against the running offset and add
    its cluster.  Every image file is accepted and yields the items of its clusters.
   */
  method Restore(file: seq<byte>, unpack: seq<byte> -> seq<byte>, ghost parts: seq<seq<byte>>, ghost packing: byte,
                 ghost clusters: seq<seq<Item>>)
    returns (ok: bool, got: seq<Item>)
    ensures file == Flatten(parts) && ImageOf(parts, 0, packing, clusters) ==>
      ok && got == UnpackAll(Concat(clusters), packing, unpack)
  {
    hide Num, Buffers, ClusterAt, IndexOk, Padding, Flatten, ImageOf, UnpackAll, Concat, PartOk;
    ghost var fine := file == Flatten(parts) && ImageOf(parts, 0, packing, clusters);
    ghost var p, c, done := parts, clusters, [];
    var pos: nat, bytenr: nat := 0, 0;
    ok, got := true, [];
    if fine {
      assert file[0..] == file;
      assert got == UnpackAll([], packing, unpack) by { NothingPacked(packing, unpack); }
    }
    var end := false;
    while !end
      invariant pos <= |file| && bytenr < TWO_64 && ok
      invariant fine ==> file[pos..] == Flatten(p) && ImageOf(p, bytenr, packing, c)
      invariant fine ==> got == UnpackAll(done, packing, unpack) && done + Concat(c) == Concat(clusters)
      invariant fine && end ==> Concat(c) == []
      decreases |file| - pos, !end
    {
      var more: seq<Item>;
      end, ok, more, pos, bytenr := ReadCluster(file, pos, bytenr, unpack, fine, p, packing, c);
      if !ok { return; }
      if fine && !end {
        UnpackConcat(done, c[0], packing, unpack);
        assert done + Concat(c) == (done + c[0]) + Concat(c[1..]);
        p, c, done := p[1..], c[1..], done + c[0];
      }
      got := got + more;
    }
    assert fine ==> done + [] == done;
  }

  /** One round of that loop: the end of the file, or a header with its cluster. */
  method ReadCluster(file: seq<byte>, pos: nat, bytenr: nat, unpack: seq<byte> -> seq<byte>, ghost fine: bool,
                     ghost p: seq<seq<byte>>, ghost packing: byte, ghost c: seq<seq<Item>>)
    returns (end: bool, ok: bool, more: seq<Item>, pos': nat, bytenr': nat)
    requires pos <= |file| && bytenr < TWO_64
    requires fine ==> file[pos..] == Flatten(p) && ImageOf(p, bytenr, packing, c)
    ensures pos <= pos' <= |file| && bytenr' < TWO_64 && (ok && !end ==> pos < pos') && (end ==> ok && more == [])
    ensures fine ==> ok && (end ==> Concat(c) == [] && pos' == pos && bytenr' == bytenr)
    ensures fine && !end ==> && c != [] && p != [] && more == UnpackAll(c[0], packing, unpack)
                             && file[pos'..] == Flatten(p[1..]) && ImageOf(p[1..], bytenr', packing, c[1..])
                             && Concat(c) == c[0] + Concat(c[1..])
  {
    hide Num, Buffers, ClusterAt, IndexOk, Padding, Flatten, ImageOf, UnpackAll, Concat, PartOk;
    if fine { NextPart(file, pos, p, bytenr, packing, c); }
    var has, block, at := Fread(file, pos, BLOCK_SIZE);
    if !has {
      return true, true, [], pos, bytenr;
    }
    if fine { IndexParts(block, bytenr, packing, c[0]); }
    if Num(block[0..8]) != HEADER_MAGIC || Num(block[8..16]) != bytenr {
      return false, false, [], pos, bytenr;
    }
    ghost var items, rest := if fine then c[0] else [], if fine then Flatten(p[1..]) else [];
    var next: nat;
    end := false;
    ok, more, pos', next := AddCluster(file, at, block, unpack, bytenr, items, rest);
    bytenr' := next % TWO_64;
  }

  lemma NothingPacked(packing: byte, unpack: seq<byte> -> seq<byte>)
    ensures UnpackAll([], packing, unpack) == []
  {}

  /** At a cluster boundary: either the end of the file, or a cluster and the rest. */
  lemma NextPart(file: seq<byte>, pos: nat, parts: seq<seq<byte>>, start: nat, packing: byte, clusters: seq<seq<Item>>)
    requires pos <= |file| && file[pos..] == Flatten(parts) && ImageOf(parts, start, packing, clusters)
    ensures parts == [] ==> pos == |file| && Concat(clusters) == []
    ensures parts != [] ==> clusters != [] && BLOCK_SIZE <= |file| - pos && start % BLOCK_SIZE == 0
    ensures parts != [] ==> IndexOk(file[pos..pos + BLOCK_SIZE], start, packing, clusters[0])
    ensures parts != [] ==> ClusterAt(file, pos + BLOCK_SIZE, file[pos..pos + BLOCK_SIZE], start, clusters[0],
                                      Flatten(parts[1..]))
    ensures parts != [] ==> var n := |Buffers(clusters[0])|;
      ImageOf(parts[1..], (start + BLOCK_SIZE + n + Padding(n)) % TWO_64, packing, clusters[1..])
    ensures parts != [] ==> Concat(clusters) == clusters[0] + Concat(clusters[1..])
  {
    hide Buffers, Padding;
    if parts != [] {
      var part := parts[0];
      assert file[pos..] == part + Flatten(parts[1..]);
      assert file[pos..pos + BLOCK_SIZE] == file[pos..][..BLOCK_SIZE] == part[..BLOCK_SIZE];
      assert file[pos + BLOCK_SIZE..] == file[pos..][BLOCK_SIZE..] == part[BLOCK_SIZE..] + Flatten(parts[1..]);
      assert clusters[0][0..] == clusters[0];
    }
  }

  lemma HeldImage(out: seq<byte>, parts: seq<seq<byte>>, packing: byte, clusters: seq<seq<Item>>, raw: seq<Item>,
                  pack: seq<byte> -> seq<byte>)
    requires Holds(out, parts, packing, clusters, raw, pack)
    ensures out == Flatten(parts) && ImageOf(parts, 0, packing, clusters)
    ensures Concat(clusters) == PackAll(raw, pack) && ItemsOk(raw)
  {}

  lemma PackThenUnpack(items: seq<Item>, packing: byte, pack: seq<byte> -> seq<byte>, unpack: seq<byte> -> seq<byte>)
    requires ItemsOk(items)
    requires forall b :: 0 < |b| < TWO_31 ==> if packing == 1 then unpack(pack(b)) == b else pack(b) == b
    ensures UnpackAll(PackAll(items, pack), packing, unpack) == items
  {}

  lemma RangesStep(ranges: seq<Range>, k: nat, contents: (bool, nat) -> byte)
    requires k <= |ranges|
    ensures k == 0 ==> CellsOfRanges(ranges[k..], contents) == CellsOfRanges(ranges, contents)
    ensures k == |ranges| ==> CellsOfRanges(ranges[k..], contents) == []
    ensures k < |ranges| ==>
      CellsOfRanges(ranges[k..], contents) ==
        CellsOf(ranges[k].AsItem(contents)) + CellsOfRanges(ranges[k + 1..], contents)
  {
    hide CellsOf;
    if k == 0 { assert ranges[0..] == ranges; }
    if k < |ranges| { assert ranges[k..][1..] == ranges[k + 1..]; }
  }

  /** create_metadump: add every range, then flush what is left. */
  method Dump(ranges: seq<Range>, level: nat, nodesize: nat, contents: (bool, nat) -> byte,
              pack: seq<byte> -> seq<byte>)
    returns (md: Metadump)
    requires 0 < nodesize && PackOk(pack) && forall i :: 0 <= i < |ranges| ==> ranges[i].Valid()
    ensures md.level == level && md.pack == pack && md.Written() && Cells(md.raw) == CellsOfRanges(ranges, contents)
  {
    hide Holds, HeaderOk, Cells, CellsOf, PackOk, CellsOfRanges;
    md := new Metadump(level, nodesize, pack, contents);
    var k: nat := 0;
    RangesStep(ranges, k, contents);
    while k < |ranges|
      invariant k <= |ranges| && md.Valid() && fresh(md) && fresh(md.cluster)
      invariant md.Recorded() + CellsOfRanges(ranges[k..], contents) == CellsOfRanges(ranges, contents)
    {
      RangesStep(ranges, k, contents);
      md.AddExtent(ranges[k]);
      k := k + 1;
    }
    RangesStep(ranges, k, contents);
    md.FlushPending(true);
    NoCells(md.Pending(), contents);
    assert md.raw + md.ordered == md.raw;
  }

  /**
    The round trip: whatever ranges are added, the file is accepted and the buffers that
    come back hold exactly the bytes of the ranges, each at its address, in order.
   */
  method DumpAndRestore(ranges: seq<Range>, level: nat, nodesize: nat, contents: (bool, nat) -> byte,
                        pack: seq<byte> -> seq<byte>, unpack: seq<byte> -> seq<byte>)
    returns (ok: bool, got: seq<Item>)
    requires 0 < nodesize && PackOk(pack) && forall i :: 0 <= i < |ranges| ==> ranges[i].Valid()
    requires forall b :: 0 < |b| < TWO_31 ==> if level > 0 then unpack(pack(b)) == b else pack(b) == b
    ensures ok && Cells(got) == CellsOfRanges(ranges, contents)
  {
    hide Holds, HeaderOk, ImageOf, Flatten, Cells, CellsOf, UnpackAll, PackAll, PackOk;
    hide Concat, CellsOfRanges;
    var md := Dump(ranges, level, nodesize, contents, pack);
    HeldImage(md.out, md.parts, md.Method(), md.clusters, md.raw, pack);
    PackThenUnpack(md.raw, md.Method(), pack, unpack);
    ok, got := Restore(md.out, unpack, md.parts, md.Method(), md.clusters);
  }
}
