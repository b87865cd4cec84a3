/**
  The cross-check of chunks, block groups, device extents and devices.  All four come
  from interval caches, so records of one kind never overlap.
 */
module ChunkCheck {

  datatype Profile = Single | Dup | Raid0 | Raid1 | Raid10 | Raid5 | Raid6

  /** The type flags: the profile bit, and data, metadata or system. */
  datatype Flags = Flags(profile: Profile, kind: nat)

  datatype Stripe = Stripe(devid: nat, offset: nat)

  datatype Chunk = Chunk(offset: nat, length: nat, flags: Flags, stripes: seq<Stripe>) {
    /** The divisor of calc_stripe_length is not zero. */
    predicate Valid() {
      match flags.profile
      case Raid0 => 1 <= |stripes|
      case Raid10 => 1 <= |stripes|
      case Raid5 => 2 <= |stripes|
      case Raid6 => 3 <= |stripes|
      case _ => true
    }

    /** How often each byte of the chunk is stored, parity aside. */
    function Copies(): nat {
      match flags.profile
      case Raid0 => 1
      case Raid10 => 2
      case Raid5 => 1
      case Raid6 => 1
      case _ => |stripes|
    }

    /** How many stripes of a row hold parity. */
    function Parity(): nat { if flags.profile.Raid5? then 1 else if flags.profile.Raid6? then 2 else 0 }

    /** calc_stripe_length. */
    function StripeLength(): nat
      requires Valid()
    {
      match flags.profile
      case Raid0 => length / |stripes|
      case Raid10 => length * 2 / |stripes|
      case Raid5 => length / (|stripes| - 1)
      case Raid6 => length / (|stripes| - 2)
      case _ => length
    }

    /** The device extent that stripe `i` asks for. */
    function Wanted(i: nat): DevExt
      requires Valid() && i < |stripes|
    {
      DevExt(stripes[i].devid, stripes[i].offset, offset, StripeLength())
    }
  }

  /** `n` times `d` is the greatest multiple of `d` up to `x`. */
  ghost predicate RoundedDown(n: nat, d: nat, x: nat) { n * d <= x < n * d + d }

  lemma Divided(x: nat, d: nat)
    requires 0 < d
    ensures RoundedDown(x / d, d, x)
  {}

  /** The stripes that do not hold parity hold all the copies of the chunk, rounded down to whole rows. */
  lemma StripesHold(c: Chunk)
    requires c.Valid() && c.Parity() < |c.stripes|
    ensures RoundedDown(c.StripeLength(), |c.stripes| - c.Parity(), c.length * c.Copies())
  {
    hide RoundedDown;
    var n := |c.stripes|;
    match c.flags.profile {
      case Raid0 => Divided(c.length, n);
      case Raid10 => Divided(c.length * 2, n);
      case Raid5 => Divided(c.length, n - 1);
      case Raid6 => Divided(c.length, n - 2);
      case _ => WholeCopies(c.length, n);
    }
  }

  lemma WholeCopies(length: nat, n: nat)
    requires 0 < n
    ensures RoundedDown(length, n, length * n)
  {}

  datatype BlockGroup = BlockGroup(start: nat, length: nat, flags: Flags)

  datatype DevExt = DevExt(devid: nat, offset: nat, chunkOffset: nat, length: nat)

  datatype Device = Device(devid: nat, byteUsed: nat)

  predicate GroupTouches(b: BlockGroup, start: nat, len: nat) { b.start < start + len && start < b.start + b.length }

  predicate ExtTouches(d: DevExt, devid: nat, start: nat, len: nat) {
    d.devid == devid && d.offset < start + len && start < d.offset + d.length
  }

  /** The records of each cache are nonempty and apart. */
  ghost predicate CachesOk(chunks: seq<Chunk>, groups: set<BlockGroup>, exts: set<DevExt>) {
    && (forall i :: 0 <= i < |chunks| ==> chunks[i].Valid())
    && (forall b :: b in groups ==> 0 < b.length) && (forall d :: d in exts ==> 0 < d.length)
    && (forall a, b :: a in groups && b in groups && a != b ==> !GroupTouches(a, b.start, b.length))
    && (forall a, b :: a in exts && b in exts && a != b ==> !ExtTouches(a, b.devid, b.offset, b.length))
  }

  function GroupOf(c: Chunk): BlockGroup { BlockGroup(c.offset, c.length, c.flags) }

  /** The chunk has its block group and a device extent for every stripe. */
  ghost predicate ChunkOk(c: Chunk, groups: set<BlockGroup>, exts: set<DevExt>)
    requires c.Valid()
  {
    GroupOf(c) in groups && forall i :: 0 <= i < |c.stripes| ==> c.Wanted(i) in exts
  }

  ghost predicate GroupClaimed(b: BlockGroup, chunks: seq<Chunk>) {
    exists i :: 0 <= i < |chunks| && GroupOf(chunks[i]) == b
  }

  ghost predicate ExtClaimed(d: DevExt, chunks: seq<Chunk>)
    requires forall i :: 0 <= i < |chunks| ==> chunks[i].Valid()
  {
    exists i, j :: 0 <= i < |chunks| && 0 <= j < |chunks[i].stripes| && chunks[i].Wanted(j) == d
  }

  /** Chunks, block groups and device extents fit together completely. */
  ghost predicate Consistent(chunks: seq<Chunk>, groups: set<BlockGroup>, exts: set<DevExt>)
    requires forall i :: 0 <= i < |chunks| ==> chunks[i].Valid()
  {
    && (forall i :: 0 <= i < |chunks| ==> ChunkOk(chunks[i], groups, exts))
    && (forall b :: b in groups ==> GroupClaimed(b, chunks))
    && (forall d :: d in exts ==> ExtClaimed(d, chunks))
  }

  /** lookup_cache_extent on block groups: some group that touches the range. */
  method LookupGroup(groups: set<BlockGroup>, start: nat, len: nat) returns (found: bool, b: BlockGroup)
    ensures found <==> exists g :: g in groups && GroupTouches(g, start, len)
    ensures found ==> b in groups && GroupTouches(b, start, len)
  {
    found := exists g | g in groups :: GroupTouches(g, start, len);
    b := BlockGroup(0, 0, Flags(Single, 0));
    if found { b :| b in groups && GroupTouches(b, start, len); }
  }

  method LookupExt(exts: set<DevExt>, devid: nat, start: nat, len: nat) returns (found: bool, d: DevExt)
    ensures found <==> exists x :: x in exts && ExtTouches(x, devid, start, len)
    ensures found ==> d in exts && ExtTouches(d, devid, start, len)
  {
    found := exists x | x in exts :: ExtTouches(x, devid, start, len);
    d := DevExt(0, 0, 0, 0);
    if found { d :| d in exts && ExtTouches(d, devid, start, len); }
  }

  /** check_chunk_refs: the orphan lists lose what the chunk claims. */
  method CheckChunkRefs(c: Chunk, groups: set<BlockGroup>, exts: set<DevExt>, loneGroups: set<BlockGroup>,
                        loneExts: set<DevExt>)
    returns (ok: bool, loneGroups': set<BlockGroup>, loneExts': set<DevExt>)
    requires c.Valid() && CachesOk([c], groups, exts)
    ensures ok <==> ChunkOk(c, groups, exts)
    ensures ok ==> loneGroups' == loneGroups - {GroupOf(c)}
    ensures ok ==> loneExts' == loneExts - set i | 0 <= i < |c.stripes| :: c.Wanted(i)
    ensures loneGroups' <= loneGroups && loneExts' <= loneExts
  {
    ok, loneGroups', loneExts' := true, loneGroups, loneExts;
    var found, b := LookupGroup(groups, c.offset, c.length);
    if found && b.length == c.length && b.start == c.offset && b.flags == c.flags {
      assert b == GroupOf(c);
      loneGroups' := loneGroups' - {b};
    } else {
      if GroupOf(c) in groups { assert GroupTouches(GroupOf(c), c.offset, c.length); }
      ok := false;
    }
    var length := c.StripeLength();
    var i := 0;
    while i < |c.stripes|
      invariant i <= |c.stripes|
      invariant ok <==> GroupOf(c) in groups && forall j :: 0 <= j < i ==> c.Wanted(j) in exts
      invariant ok ==> loneExts' == loneExts - set j | 0 <= j < i :: c.Wanted(j)
      invariant loneExts' <= loneExts
    {
      var has, d := LookupExt(exts, c.stripes[i].devid, c.stripes[i].offset, length);
      if has && d.devid == c.stripes[i].devid && d.offset == c.stripes[i].offset && d.chunkOffset == c.offset &&
        d.length == length {
        assert d == c.Wanted(i);
        loneExts' := loneExts' - {d};
      } else {
        if c.Wanted(i) in exts { assert ExtTouches(c.Wanted(i), c.stripes[i].devid, c.stripes[i].offset, length); }
        ok := false;
      }
      i := i + 1;
    }
  }

  /** check_chunks: every chunk in turn, then whatever is left on the two orphan lists. */
  method CheckChunks(chunks: seq<Chunk>, groups: set<BlockGroup>, exts: set<DevExt>) returns (ret: int)
    requires CachesOk(chunks, groups, exts)
    ensures ret == 0 <==> Consistent(chunks, groups, exts)
  {
    ret := 0;
    var loneGroups, loneExts := groups, exts;
    var k := 0;
    while k < |chunks|
      invariant k <= |chunks|
      invariant ret == 0 <==> forall i :: 0 <= i < k ==> ChunkOk(chunks[i], groups, exts)
      invariant loneGroups <= groups && loneExts <= exts
      invariant ret == 0 ==> forall b :: b in groups ==> (b in loneGroups <==> !GroupClaimed(b, chunks[..k]))
      invariant ret == 0 ==> forall d :: d in exts ==> (d in loneExts <==> !ExtClaimed(d, chunks[..k]))
    {
      var c := chunks[k];
      ghost var wasGroups, wasExts := loneGroups, loneExts;
      var ok: bool;
      ok, loneGroups, loneExts := CheckChunkRefs(c, groups, exts, loneGroups, loneExts);
      if !ok { ret := -1; }
      if ret == 0 {
        forall b | b in groups ensures b in loneGroups <==> !GroupClaimed(b, chunks[..k + 1]) {
          GroupClaimedMore(b, chunks, k);
        }
        forall d | d in exts ensures d in loneExts <==> !ExtClaimed(d, chunks[..k + 1]) {
          ExtClaimedMore(d, chunks, k);
        }
      }
      k := k + 1;
    }
    assert chunks[..k] == chunks;
    if loneGroups != {} && ret == 0 {
      var b :| b in loneGroups;
      ret := 1;
    }
    if loneExts != {} && ret == 0 {
      var d :| d in loneExts;
      ret := 1;
    }
  }

  lemma GroupClaimedMore(b: BlockGroup, chunks: seq<Chunk>, k: nat)
    requires k < |chunks|
    ensures GroupClaimed(b, chunks[..k + 1]) <==> GroupClaimed(b, chunks[..k]) || b == GroupOf(chunks[k])
  {
    var more := chunks[..k + 1];
    assert forall i :: 0 <= i < k ==> chunks[..k][i] == more[i];
    assert more[k] == chunks[k];
  }

  lemma ExtClaimedMore(d: DevExt, chunks: seq<Chunk>, k: nat)
    requires k < |chunks| && forall i :: 0 <= i < |chunks| ==> chunks[i].Valid()
    ensures ExtClaimed(d, chunks[..k + 1]) <==>
      ExtClaimed(d, chunks[..k]) || d in (set i | 0 <= i < |chunks[k].stripes| :: chunks[k].Wanted(i))
  {
    var less, more := chunks[..k], chunks[..k + 1];
    assert forall i :: 0 <= i < k ==> less[i] == more[i];
    assert more[k] == chunks[k];
    if ExtClaimed(d, less) {
      var i, j :| 0 <= i < |less| && 0 <= j < |less[i].stripes| && less[i].Wanted(j) == d;
      assert more[i].Wanted(j) == d;
    }
    if ExtClaimed(d, more) {
      var i, j :| 0 <= i < |more| && 0 <= j < |more[i].stripes| && more[i].Wanted(j) == d;
      if i < k { assert less[i].Wanted(j) == d; }
    }
  }

  // ---------------------------------------------------------------- devices

  /** The bytes of a list of device extents. */
  function Total(exts: seq<DevExt>): nat {
    if exts == [] then 0 else exts[0].length + Total(exts[1..])
  }

  /** The bytes of those on one device. */
  function OnDevice(exts: seq<DevExt>, devid: nat): nat {
    if exts == [] then 0
    else (if exts[0].devid == devid then exts[0].length else 0) + OnDevice(exts[1..], devid)
  }

  function ByteUsed(devices: seq<Device>): nat {
    if devices == [] then 0 else devices[0].byteUsed + ByteUsed(devices[1..])
  }

  /** What the chunks occupy: number of stripes times stripe length, summed. */
  function Occupied(chunks: seq<Chunk>): nat
    requires forall i :: 0 <= i < |chunks| ==> chunks[i].Valid()
  {
    if chunks == [] then 0 else |chunks[0].stripes| * chunks[0].StripeLength() + Occupied(chunks[1..])
  }

  /** The device-extent cache in its order: by device, then by offset. */
  predicate Sorted(exts: seq<DevExt>) {
    forall i, j :: 0 <= i < j < |exts| ==>
      exts[i].devid < exts[j].devid || (exts[i].devid == exts[j].devid && exts[i].offset < exts[j].offset)
  }

  predicate DistinctDevices(devices: seq<Device>) {
    forall i, j :: 0 <= i < j < |devices| ==> devices[i].devid != devices[j].devid
  }

  predicate Known(devices: seq<Device>, devid: nat) { exists i :: 0 <= i < |devices| && devices[i].devid == devid }

  /** Every device uses exactly its device extents, and every device extent has a device. */
  predicate DevicesOk(devices: seq<Device>, exts: seq<DevExt>) {
    && (forall i :: 0 <= i < |devices| ==> devices[i].byteUsed == OnDevice(exts, devices[i].devid))
    && forall i :: 0 <= i < |exts| ==> Known(devices, exts[i].devid)
  }

  lemma {:induction false} OnDeviceNone(exts: seq<DevExt>, devid: nat)
    requires forall i :: 0 <= i < |exts| ==> exts[i].devid != devid
    ensures OnDevice(exts, devid) == 0
  {
    if exts != [] { OnDeviceNone(exts[1..], devid); }
  }

  lemma {:induction false} OnDeviceSkip(exts: seq<DevExt>, devid: nat, k: nat)
    requires k <= |exts| && forall i :: 0 <= i < k ==> exts[i].devid != devid
    ensures OnDevice(exts, devid) == OnDevice(exts[k..], devid)
  {
    if k == 0 {
      assert exts[0..] == exts;
    } else {
      OnDeviceSkip(exts[1..], devid, k - 1);
      assert exts[1..][k - 1..] == exts[k..];
    }
  }

  lemma OnDeviceNext(exts: seq<DevExt>, k: nat, devid: nat)
    requires k < |exts| && exts[k].devid == devid
    ensures OnDevice(exts[k..], devid) == exts[k].length + OnDevice(exts[k + 1..], devid)
  {
    assert exts[k..][1..] == exts[k + 1..];
  }

  lemma RunMore(exts: seq<DevExt>, from: nat, k: nat)
    requires from <= k < |exts|
    ensures var next := k + 1; (set d | d in exts[from..next]) == (set d | d in exts[from..k]) + {exts[k]}
  {
    assert exts[from..k + 1] == exts[from..k] + [exts[k]];
  }

  lemma RunOfDevice(exts: seq<DevExt>, devid: nat, from: nat, to: nat)
    requires from <= to <= |exts|
    requires forall i :: 0 <= i < |exts| ==> (exts[i].devid == devid <==> from <= i < to)
    ensures (set d | d in exts[from..to]) == set d | d in exts && d.devid == devid
  {
    forall d | d in exts && d.devid == devid ensures d in exts[from..to] {
      var i :| 0 <= i < |exts| && exts[i] == d;
      assert exts[from..to][i - from] == d;
    }
  }

  /** check_device_used: add up the run of extents of this device and take them off the orphan list. */
  method CheckDeviceUsed(dev: Device, exts: seq<DevExt>, lone: set<DevExt>) returns (ok: bool, lone': set<DevExt>)
    requires Sorted(exts)
    ensures ok <==> dev.byteUsed == OnDevice(exts, dev.devid)
    ensures lone' == lone - set d | d in exts && d.devid == dev.devid
  {
    hide OnDevice;
    lone' := lone;
    var k: nat := 0;
    while k < |exts| && exts[k].devid < dev.devid
      invariant k <= |exts|
      invariant forall i :: 0 <= i < k ==> exts[i].devid < dev.devid
    {
      k := k + 1;
    }
    OnDeviceSkip(exts, dev.devid, k);
    ghost var from := k;
    var total: nat := 0;
    while k < |exts| && exts[k].devid == dev.devid
      invariant from <= k <= |exts|
      invariant forall i :: from <= i < k ==> exts[i].devid == dev.devid
      invariant total + OnDevice(exts[k..], dev.devid) == OnDevice(exts, dev.devid)
      invariant lone' == lone - set d | d in exts[from..k]
    {
      lone' := lone' - {exts[k]};
      RunMore(exts, from, k);
      total := total + exts[k].length;
      OnDeviceNext(exts, k, dev.devid);
      k := k + 1;
    }
    assert forall i :: k <= i < |exts| ==> exts[i].devid > dev.devid;
    RunOfDevice(exts, dev.devid, from, k);
    OnDeviceNone(exts[k..], dev.devid);
    ok := total == dev.byteUsed;
  }

  /** check_devices: `lone` holds the extents no device has claimed. */
  method CheckDevices(devices: seq<Device>, exts: seq<DevExt>) returns (ret: int)
    requires Sorted(exts)
    ensures ret == 0 <==> DevicesOk(devices, exts)
  {
    ret := 0;
    var lone := set d | d in exts;
    var k: nat := 0;
    while k < |devices|
      invariant k <= |devices|
      invariant ret == 0 <==> forall i :: 0 <= i < k ==> devices[i].byteUsed == OnDevice(exts, devices[i].devid)
      invariant forall d :: d in lone <==> d in exts && !Known(devices[..k], d.devid)
    {
      var ok: bool;
      ok, lone := CheckDeviceUsed(devices[k], exts, lone);
      if !ok { ret := -1; }
      forall d | d in exts
        ensures Known(devices[..k + 1], d.devid) <==> Known(devices[..k], d.devid) || d.devid == devices[k].devid
      {
        KnownMore(devices, k, d.devid);
      }
      k := k + 1;
    }
    assert devices[..k] == devices;
    if lone != {} && ret == 0 {
      var d :| d in lone;
      ret := 1;
    }
  }

  lemma KnownMore(devices: seq<Device>, k: nat, devid: nat)
    requires k < |devices|
    ensures Known(devices[..k + 1], devid) <==> Known(devices[..k], devid) || devid == devices[k].devid
  {
    var less, more := devices[..k], devices[..k + 1];
    assert forall i :: 0 <= i < k ==> less[i] == more[i];
    assert more[k] == devices[k];
  }

  // ---------------------------------------------------------------- the totals

  /** The bytes that the listed devices hold, device by device. */
  function Held(devices: seq<Device>, exts: seq<DevExt>): nat {
    if devices == [] then 0 else OnDevice(exts, devices[0].devid) + Held(devices[1..], exts)
  }

  lemma {:induction false} HeldByteUsed(devices: seq<Device>, exts: seq<DevExt>)
    requires forall i :: 0 <= i < |devices| ==> devices[i].byteUsed == OnDevice(exts, devices[i].devid)
    ensures Held(devices, exts) == ByteUsed(devices)
  {
    if devices != [] { HeldByteUsed(devices[1..], exts); }
  }

  /** One extent is held once by the device that has it, and by no other. */
  lemma {:induction false} HeldMore(devices: seq<Device>, exts: seq<DevExt>)
    requires exts != [] && DistinctDevices(devices)
    ensures Held(devices, exts) == Held(devices, exts[1..]) +
      if Known(devices, exts[0].devid) then exts[0].length else 0
  {
    if devices != [] {
      var rest := devices[1..];
      HeldMore(rest, exts);
      assert forall i :: 0 <= i < |rest| ==> rest[i] == devices[i + 1];
      assert Known(devices, exts[0].devid) <==> devices[0].devid == exts[0].devid || Known(rest, exts[0].devid) by {
        if Known(devices, exts[0].devid) {
          var i :| 0 <= i < |devices| && devices[i].devid == exts[0].devid;
          if i > 0 { assert rest[i - 1].devid == exts[0].devid; }
        }
      }
    }
  }

  lemma {:induction false} HeldAll(devices: seq<Device>, exts: seq<DevExt>)
    requires DistinctDevices(devices) && forall i :: 0 <= i < |exts| ==> Known(devices, exts[i].devid)
    ensures Held(devices, exts) == Total(exts)
  {
    if exts == [] {
      HeldNothing(devices);
    } else {
      HeldMore(devices, exts);
      HeldAll(devices, exts[1..]);
    }
  }

  lemma {:induction false} HeldNothing(devices: seq<Device>)
    ensures Held(devices, []) == 0
  {
    if devices != [] { HeldNothing(devices[1..]); }
  }

  /** The device extents that all stripes ask for, in chunk and stripe order. */
  function Asked(chunks: seq<Chunk>): seq<DevExt>
    requires forall i :: 0 <= i < |chunks| ==> chunks[i].Valid()
  {
    if chunks == [] then [] else AskedBy(chunks[0]) + Asked(chunks[1..])
  }

  function AskedBy(c: Chunk): seq<DevExt>
    requires c.Valid()
  {
    seq(|c.stripes|, i requires 0 <= i < |c.stripes| => c.Wanted(i))
  }

  predicate Distinct(s: seq<DevExt>) { forall i, j :: 0 <= i < j < |s| ==> s[i] != s[j] }

  /** No chunk names one place of one device twice. */
  predicate DistinctStripes(c: Chunk) { forall i, j :: 0 <= i < j < |c.stripes| ==> c.stripes[i] != c.stripes[j] }

  lemma {:induction false} TotalConcat(a: seq<DevExt>, b: seq<DevExt>)
    ensures Total(a + b) == Total(a) + Total(b)
  {
    if a == [] {
      assert a + b == b;
    } else {
      assert (a + b)[1..] == a[1..] + b;
      TotalConcat(a[1..], b);
    }
  }

  lemma {:induction false} TotalUniform(a: seq<DevExt>, n: nat)
    requires forall i :: 0 <= i < |a| ==> a[i].length == n
    ensures Total(a) == |a| * n
  {
    if a != [] { TotalUniform(a[1..], n); }
  }

  lemma {:induction false} TotalAsked(chunks: seq<Chunk>)
    requires forall i :: 0 <= i < |chunks| ==> chunks[i].Valid()
    ensures Total(Asked(chunks)) == Occupied(chunks)
  {
    if chunks != [] {
      TotalUniform(AskedBy(chunks[0]), chunks[0].StripeLength());
      TotalConcat(AskedBy(chunks[0]), Asked(chunks[1..]));
      TotalAsked(chunks[1..]);
    }
  }

  lemma {:induction false} AskedIs(chunks: seq<Chunk>, d: DevExt)
    requires forall i :: 0 <= i < |chunks| ==> chunks[i].Valid()
    ensures d in Asked(chunks) <==> ExtClaimed(d, chunks)
  {
    if chunks != [] {
      var rest := chunks[1..];
      AskedIs(rest, d);
      assert d in AskedBy(chunks[0]) <==> exists j :: 0 <= j < |chunks[0].stripes| && chunks[0].Wanted(j) == d by {
        if j :| 0 <= j < |chunks[0].stripes| && chunks[0].Wanted(j) == d {
          assert AskedBy(chunks[0])[j] == d;
        }
      }
      if ExtClaimed(d, rest) {
        var i, j :| 0 <= i < |rest| && 0 <= j < |rest[i].stripes| && rest[i].Wanted(j) == d;
        assert chunks[i + 1].Wanted(j) == d;
      }
      if ExtClaimed(d, chunks) {
        var i, j :| 0 <= i < |chunks| && 0 <= j < |chunks[i].stripes| && chunks[i].Wanted(j) == d;
        if i > 0 { assert rest[i - 1].Wanted(j) == d; }
      }
    }
  }

  lemma {:induction false} DistinctAsked(chunks: seq<Chunk>)
    requires forall i :: 0 <= i < |chunks| ==> chunks[i].Valid()
    requires forall i, j :: 0 <= i < j < |chunks| ==> chunks[i].offset != chunks[j].offset
    ensures Distinct(Asked(chunks)) <==> forall i :: 0 <= i < |chunks| ==> DistinctStripes(chunks[i])
  {
    if chunks != [] {
      var head, tail := AskedBy(chunks[0]), Asked(chunks[1..]);
      DistinctAsked(chunks[1..]);
      DistinctHead(chunks[0]);
      forall d | d in tail ensures d.chunkOffset != chunks[0].offset {
        AskedIs(chunks[1..], d);
      }
      DistinctConcat(head, tail);
      assert forall i :: 0 < i < |chunks| ==> chunks[i] == chunks[1..][i - 1];
    }
  }

  lemma DistinctHead(c: Chunk)
    requires c.Valid()
    ensures Distinct(AskedBy(c)) <==> DistinctStripes(c)
  {
    var s := AskedBy(c);
    assert forall i, j :: 0 <= i < j < |s| ==> (s[i] == s[j] <==> c.stripes[i] == c.stripes[j]);
  }

  lemma DistinctConcat(a: seq<DevExt>, b: seq<DevExt>)
    requires forall x, y :: x in a && y in b ==> x != y
    ensures Distinct(a + b) <==> Distinct(a) && Distinct(b)
  {
    var s := a + b;
    assert forall i :: 0 <= i < |a| ==> s[i] == a[i];
    assert forall i :: 0 <= i < |b| ==> s[i + |a|] == b[i];
    if Distinct(a) && Distinct(b) {
      forall i, j | 0 <= i < j < |s| ensures s[i] != s[j] {
        if i < |a| <= j {
          assert s[i] in a && s[j] in b;
        } else if |a| <= i {
          assert s[i] == b[i - |a|] && s[j] == b[j - |a|];
        }
      }
    }
  }

  lemma TotalFirst(s: seq<DevExt>)
    ensures Total(s) == if s == [] then 0 else s[0].length + Total(s[1..])
  {}

  lemma DistinctFirst(s: seq<DevExt>)
    ensures Distinct(s) <==> s == [] || (s[0] !in s[1..] && Distinct(s[1..]))
  {
    if s != [] {
      assert forall i :: 0 <= i < |s| - 1 ==> s[1..][i] == s[i + 1];
      if s[0] in s[1..] {
        var j :| 0 <= j < |s| - 1 && s[1..][j] == s[0];
        assert s[j + 1] == s[0];
      } else if Distinct(s[1..]) {
        forall i, j | 0 <= i < j < |s| ensures s[i] != s[j] {
          assert s[j] == s[1..][j - 1];
          if i > 0 { assert s[i] == s[1..][i - 1]; }
        }
      }
    }
  }

  lemma TotalWithout(exts: seq<DevExt>, k: nat)
    requires k < |exts|
    ensures Total(exts) == exts[k].length + Total(exts[..k] + exts[k + 1..])
  {
    TotalConcat(exts[..k], exts[k + 1..]);
    TotalConcat(exts[..k], exts[k..]);
    assert exts == exts[..k] + exts[k..];
    TotalFirst(exts[k..]);
    assert exts[k..][1..] == exts[k + 1..];
  }

  /** A list with the members of a duplicate-free one totals at least as much, and the same exactly
      when it has no duplicate. */
  lemma {:induction false} SameMembers(asked: seq<DevExt>, exts: seq<DevExt>)
    requires Distinct(exts) && (forall d :: d in asked <==> d in exts) && forall d :: d in exts ==> 0 < d.length
    ensures Total(asked) >= Total(exts)
    ensures Total(asked) == Total(exts) <==> Distinct(asked)
  {
    hide Total, Distinct;
    HasMember(exts);
    TotalFirst(asked);
    DistinctFirst(asked);
    if asked == [] {
      TotalFirst(exts);
    } else {
      var x, rest := asked[0], asked[1..];
      assert forall d :: d in asked <==> d == x || d in rest by { assert asked == [x] + rest; }
      if x in rest {
        SameMembers(rest, exts);
      } else {
        var k :| 0 <= k < |exts| && exts[k] == x;
        TotalWithout(exts, k);
        MembersWithout(exts, k);
        SameMembers(rest, exts[..k] + exts[k + 1..]);
      }
    }
  }

  lemma HasMember(s: seq<DevExt>)
    ensures s == [] || s[0] in s
  {}

  lemma MembersWithout(exts: seq<DevExt>, k: nat)
    requires k < |exts| && Distinct(exts)
    ensures Distinct(exts[..k] + exts[k + 1..])
    ensures forall d :: d in exts[..k] + exts[k + 1..] <==> d in exts && d != exts[k]
  {
    var without := exts[..k] + exts[k + 1..];
    assert forall i :: 0 <= i < |without| ==> without[i] == exts[if i < k then i else i + 1];
    forall d | d in exts && d != exts[k] ensures d in without {
      var i :| 0 <= i < |exts| && exts[i] == d;
      assert without[if i < k then i else i - 1] == d;
    }
  }

  /**
    When both cross-checks return 0, the devices together use at most what the chunks
    occupy, and the two totals agree exactly when no chunk repeats a stripe: the checks
    themselves do not look for that.
   */
  lemma TotalsAgree(chunks: seq<Chunk>, groups: set<BlockGroup>, exts: seq<DevExt>, devices: seq<Device>)
    requires CachesOk(chunks, groups, set d | d in exts) && Sorted(exts) && DistinctDevices(devices)
    requires forall i, j :: 0 <= i < j < |chunks| ==> chunks[i].offset != chunks[j].offset
    requires Consistent(chunks, groups, set d | d in exts) && DevicesOk(devices, exts)
    ensures ByteUsed(devices) <= Occupied(chunks)
    ensures ByteUsed(devices) == Occupied(chunks) <==> forall i :: 0 <= i < |chunks| ==> DistinctStripes(chunks[i])
  {
    HeldByteUsed(devices, exts);
    HeldAll(devices, exts);
    TotalAsked(chunks);
    DistinctAsked(chunks);
    forall d ensures d in Asked(chunks) <==> d in exts {
      AskedIs(chunks, d);
      if ExtClaimed(d, chunks) {
        var i, j :| 0 <= i < |chunks| && 0 <= j < |chunks[i].stripes| && chunks[i].Wanted(j) == d;
        assert ChunkOk(chunks[i], groups, set d | d in exts);
      }
    }
    SameMembers(Asked(chunks), exts);
  }

  /**
    A chunk that names one place twice passes both cross-checks, with 8 bytes used where its
    two stripes would occupy 16.
   */
  lemma RepeatedStripe() returns (chunk: Chunk, group: BlockGroup, ext: DevExt, device: Device)
    ensures chunk.Valid() && chunk.stripes[..] == [Stripe(1, 0), Stripe(1, 0)] && !DistinctStripes(chunk)
    ensures CachesOk([chunk], {group}, {ext}) && Sorted([ext]) && DistinctDevices([device])
    ensures Consistent([chunk], {group}, {ext}) && DevicesOk([device], [ext])
    ensures ByteUsed([device]) == 8 && Occupied([chunk]) == 16
  {
    chunk := Chunk(0, 8, Flags(Dup, 1), [Stripe(1, 0), Stripe(1, 0)]);
    group, ext, device := BlockGroup(0, 8, Flags(Dup, 1)), DevExt(1, 0, 0, 8), Device(1, 8);
    var chunks := [chunk];
    assert chunk.stripes[0] == chunk.stripes[1] && chunk.Wanted(0) == ext && chunk.Wanted(1) == ext;
    assert chunks[0] == chunk && GroupOf(chunks[0]) == group;
    assert [device][0] == device && [device][1..] == [] && [ext][0] == ext && [ext][1..] == [] && chunks[1..] == [];
    assert ByteUsed([]) == 0 && Occupied([]) == 0 && OnDevice([], 1) == 0;
    assert Known([device], 1);
  }
}
