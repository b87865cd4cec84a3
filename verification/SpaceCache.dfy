/**
  verify_space_cache: the free-space entries loaded for a block group are checked
  against the gaps between the extents of the group, with the super block stripes
  cut out of every gap.
 */
module SpaceCache {
  import opened Basics

  const SUPER_INFO_OFFSET: nat := 64 * 1024

  /** Entries of the free-space tree: offset to length. */
  type Entries = map<nat, nat>

  /** The super block stripes of the block group: `at` lists their logical starts in
      the order in which they are visited, `len` is the stripe length. */
  datatype Stripes = Stripes(at: seq<nat>, len: nat) {
    predicate Holds(j: nat, x: nat)
      requires j < |at|
    {
      at[j] <= x < at[j] + len
    }

    ghost predicate Has(x: nat) { exists j: nat :: j < |at| && Holds(j, x) }
  }

  /** [p, q) is a maximal stretch of [off, end) that no stripe touches. */
  ghost predicate Piece(sb: Stripes, off: nat, end: nat, p: nat, q: nat) {
    && off <= p < q <= end
    && (forall x: nat :: p <= x < q ==> !sb.Has(x))
    && (p == off || sb.Has(p - 1))
    && (q == end || sb.Has(q))
  }

  /** The entries hold every piece of the range, as an entry of exactly that shape. */
  ghost predicate PiecesIn(e: Entries, sb: Stripes, off: nat, end: nat) {
    forall p: nat, q: nat :: Piece(sb, off, end, p, q) ==> p in e && e[p] == q - p
  }

  /** The entries without the pieces of the range. */
  ghost predicate PiecesGone(e: Entries, e': Entries, sb: Stripes, off: nat, end: nat) {
    forall p: nat :: p in e' <==> p in e && forall q: nat :: !Piece(sb, off, end, p, q)
  }

  ghost predicate Sub(e': Entries, e: Entries) { forall p :: p in e' ==> p in e && e'[p] == e[p] }

  /** btrfs_find_free_space and the exact comparison at the end of check_cache_range. */
  function Take(e: Entries, off: nat, bytes: nat): (r: (bool, Entries)) {
    if off in e && e[off] == bytes then (true, e - {off}) else (false, e)
  }

  /** check_cache_range from the `k`-th stripe on. */
  function Check(e: Entries, sb: Stripes, k: nat, off: nat, bytes: nat): (r: (bool, Entries))
    requires 0 < sb.len && k <= |sb.at|
    decreases bytes, |sb.at| - k
  {
    if k == |sb.at| then Take(e, off, bytes)
    else
      var s := sb.at[k];
      if s + sb.len <= off || off + bytes <= s then Check(e, sb, k + 1, off, bytes)
      else if s <= off then
        if s + sb.len >= off + bytes then (true, e)
        else Check(e, sb, k + 1, s + sb.len, off + bytes - (s + sb.len))
      else if s + sb.len >= off + bytes then Check(e, sb, k + 1, off, s - off)
      else
        var left := Check(e, sb, 0, off, s - off);
        if !left.0 then left
        else Check(left.1, sb, k + 1, s + sb.len, off + bytes - (s + sb.len))
  }

  /** No stripe before the `k`-th touches the range. */
  ghost predicate Cleared(sb: Stripes, k: nat, off: nat, end: nat)
    requires k <= |sb.at|
  {
    forall j: nat, x: nat :: j < k && off <= x < end ==> !sb.Holds(j, x)
  }

  lemma InStripe(sb: Stripes, k: nat)
    requires k < |sb.at|
    ensures forall x: nat :: sb.at[k] <= x < sb.at[k] + sb.len ==> sb.Has(x)
  {
    forall x: nat | sb.at[k] <= x < sb.at[k] + sb.len ensures sb.Has(x) { assert sb.Holds(k, x); }
  }

  lemma TrimLeft(sb: Stripes, k: nat, off: nat, end: nat, p: nat, q: nat)
    requires k < |sb.at| && sb.at[k] <= off < sb.at[k] + sb.len < end
    ensures Piece(sb, off, end, p, q) <==> Piece(sb, sb.at[k] + sb.len, end, p, q)
  {
    InStripe(sb, k);
    if Piece(sb, off, end, p, q) {
      assert !sb.Has(p);
    }
  }

  lemma TrimAll(sb: Stripes, k: nat, off: nat, end: nat)
    requires k < |sb.at| && sb.at[k] <= off && end <= sb.at[k] + sb.len
    ensures forall p: nat, q: nat :: !Piece(sb, off, end, p, q)
  {
    InStripe(sb, k);
    forall p: nat, q: nat ensures !Piece(sb, off, end, p, q) {
      assert p <= p < q ==> off <= p < end ==> sb.Has(p);
    }
  }

  lemma TrimRight(sb: Stripes, k: nat, off: nat, end: nat, p: nat, q: nat)
    requires k < |sb.at| && off < sb.at[k] < end <= sb.at[k] + sb.len
    ensures Piece(sb, off, end, p, q) <==> Piece(sb, off, sb.at[k], p, q)
  {
    InStripe(sb, k);
    assert sb.Has(sb.at[k]);
    if Piece(sb, off, end, p, q) {
      assert !sb.Has(p) && !sb.Has(q - 1);
    }
  }

  lemma Split(sb: Stripes, k: nat, off: nat, end: nat, p: nat, q: nat)
    requires k < |sb.at| && 0 < sb.len && off < sb.at[k] && sb.at[k] + sb.len < end
    ensures Piece(sb, off, end, p, q) <==> Piece(sb, off, sb.at[k], p, q) || Piece(sb, sb.at[k] + sb.len, end, p, q)
  {
    InStripe(sb, k);
    assert sb.Has(sb.at[k]);
    if Piece(sb, off, end, p, q) {
      assert !sb.Has(p);
    }
  }

  lemma WholePiece(sb: Stripes, off: nat, end: nat, p: nat, q: nat)
    requires off < end && Cleared(sb, |sb.at|, off, end)
    ensures Piece(sb, off, end, p, q) <==> p == off && q == end
  {
    assert forall x: nat :: off <= x < end ==> !sb.Has(x);
  }

  /** The check succeeds exactly when the entries hold every piece of the range, and
      then takes out exactly those pieces.  It never reaches an empty range. */
  lemma {:induction false} CheckExact(e: Entries, sb: Stripes, k: nat, off: nat, bytes: nat)
    requires 0 < sb.len && k <= |sb.at| && 0 < bytes
    requires Cleared(sb, k, off, off + bytes)
    ensures var r := Check(e, sb, k, off, bytes);
            && (r.0 <==> PiecesIn(e, sb, off, off + bytes))
            && (r.0 ==> PiecesGone(e, r.1, sb, off, off + bytes))
            && Sub(r.1, e)
    decreases bytes, |sb.at| - k
  {
    hide Piece, PiecesIn, PiecesGone, Sub, Cleared;
    var end := off + bytes;
    if k == |sb.at| {
      CheckWhole(e, sb, off, bytes);
    } else {
      var s := sb.at[k];
      var t := s + sb.len;
      ClearedNext(sb, k, off, end);
      if t <= off || end <= s {
        CheckExact(e, sb, k + 1, off, bytes);
      } else if s <= off {
        if t >= end {
          NothingToTake(e, sb, k, off, end);
        } else {
          CheckExact(e, sb, k + 1, t, end - t);
          forall p: nat, q: nat ensures Piece(sb, off, end, p, q) <==> Piece(sb, t, end, p, q) {
            TrimLeft(sb, k, off, end, p, q);
          }
          SamePieces(e, Check(e, sb, k, off, bytes).1, sb, off, end, t, end);
        }
      } else if t >= end {
        CheckExact(e, sb, k + 1, off, s - off);
        forall p: nat, q: nat ensures Piece(sb, off, end, p, q) <==> Piece(sb, off, s, p, q) {
          TrimRight(sb, k, off, end, p, q);
        }
        SamePieces(e, Check(e, sb, k, off, bytes).1, sb, off, end, off, s);
      } else {
        CheckSplit(e, sb, k, off, bytes);
      }
    }
  }

  /** What is left of the range after the `k`-th stripe is clear of that stripe too. */
  lemma ClearedNext(sb: Stripes, k: nat, off: nat, end: nat)
    requires 0 < sb.len && k < |sb.at| && Cleared(sb, k, off, end)
    ensures var s, t := sb.at[k], sb.at[k] + sb.len;
      && (t <= off || end <= s ==> Cleared(sb, k + 1, off, end))
      && (s <= off < t < end ==> Cleared(sb, k + 1, t, end))
      && (off < s < end ==> Cleared(sb, k + 1, off, s))
      && (off <= s && t < end ==> Cleared(sb, k + 1, t, end))
  {}

  lemma CheckWhole(e: Entries, sb: Stripes, off: nat, bytes: nat)
    requires 0 < sb.len && 0 < bytes && Cleared(sb, |sb.at|, off, off + bytes)
    ensures var r := Check(e, sb, |sb.at|, off, bytes);
      && (r.0 <==> PiecesIn(e, sb, off, off + bytes)) && (r.0 ==> PiecesGone(e, r.1, sb, off, off + bytes))
      && Sub(r.1, e)
  {
    hide Piece, Cleared;
    var end := off + bytes;
    forall p: nat, q: nat ensures Piece(sb, off, end, p, q) <==> p == off && q == end {
      WholePiece(sb, off, end, p, q);
    }
    assert Piece(sb, off, end, off, end);
  }

  lemma NothingToTake(e: Entries, sb: Stripes, k: nat, off: nat, end: nat)
    requires k < |sb.at| && sb.at[k] <= off && end <= sb.at[k] + sb.len
    ensures PiecesIn(e, sb, off, end) && PiecesGone(e, e, sb, off, end) && Sub(e, e)
  {
    TrimAll(sb, k, off, end);
  }

  lemma SubSelf(e: Entries)
    ensures Sub(e, e)
  {}

  lemma SubTrans(a: Entries, b: Entries, c: Entries)
    requires Sub(a, b) && Sub(b, c)
    ensures Sub(a, c)
  {}

  lemma SamePieces(e: Entries, e': Entries, sb: Stripes, off: nat, end: nat, off': nat, end': nat)
    requires forall p: nat, q: nat :: Piece(sb, off, end, p, q) <==> Piece(sb, off', end', p, q)
    ensures PiecesIn(e, sb, off, end) <==> PiecesIn(e, sb, off', end')
    ensures PiecesGone(e, e', sb, off, end) <==> PiecesGone(e, e', sb, off', end')
  {
  }

  lemma {:induction false} CheckSplit(e: Entries, sb: Stripes, k: nat, off: nat, bytes: nat)
    requires 0 < sb.len && k < |sb.at| && 0 < bytes && Cleared(sb, k, off, off + bytes)
    requires off < sb.at[k] && sb.at[k] + sb.len < off + bytes
    ensures var r := Check(e, sb, k, off, bytes);
            && (r.0 <==> PiecesIn(e, sb, off, off + bytes))
            && (r.0 ==> PiecesGone(e, r.1, sb, off, off + bytes))
            && Sub(r.1, e)
    decreases bytes, |sb.at| - k, 0
  {
    hide Piece, PiecesIn, PiecesGone, Sub, Cleared;
    var s, t, end := sb.at[k], sb.at[k] + sb.len, off + bytes;
    ClearedNext(sb, k, off, end);
    assert Cleared(sb, 0, off, s) by { ClearedNone(sb, off, s); }
    CheckExact(e, sb, 0, off, s - off);
    var left := Check(e, sb, 0, off, s - off);
    SubSelf(left.1);
    if left.0 { CheckExact(left.1, sb, k + 1, t, end - t); }
    SplitPieces(e, sb, k, off, end, left.1, if left.0 then Check(left.1, sb, k + 1, t, end - t).1 else left.1);
  }

  lemma ClearedNone(sb: Stripes, off: nat, end: nat)
    ensures Cleared(sb, 0, off, end)
  {}

  /** The pieces on the two sides of a stripe, one side after the other. */
  lemma SplitPieces(e: Entries, sb: Stripes, k: nat, off: nat, end: nat, e1: Entries, e2: Entries)
    requires k < |sb.at| && 0 < sb.len && off < sb.at[k] && sb.at[k] + sb.len < end && Sub(e1, e) && Sub(e2, e1)
    ensures var s, t := sb.at[k], sb.at[k] + sb.len;
      && (!PiecesIn(e, sb, off, s) ==> !PiecesIn(e, sb, off, end))
      && (PiecesIn(e, sb, off, s) && PiecesGone(e, e1, sb, off, s) ==>
            && (PiecesIn(e1, sb, t, end) <==> PiecesIn(e, sb, off, end))
            && (PiecesGone(e1, e2, sb, t, end) ==> PiecesGone(e, e2, sb, off, end)))
      && Sub(e2, e)
  {
    hide Piece;
    var s, t := sb.at[k], sb.at[k] + sb.len;
    forall p: nat, q: nat ensures Piece(sb, off, end, p, q) <==> Piece(sb, off, s, p, q) || Piece(sb, t, end, p, q) {
      Split(sb, k, off, end, p, q);
    }
    forall p: nat, q: nat ensures Piece(sb, off, s, p, q) ==> p < s { PieceIn(sb, off, s, p, q); }
    forall p: nat, q: nat ensures Piece(sb, t, end, p, q) ==> t <= p { PieceIn(sb, t, end, p, q); }
  }

  lemma PieceIn(sb: Stripes, off: nat, end: nat, p: nat, q: nat)
    ensures Piece(sb, off, end, p, q) ==> off <= p < end
  {}


  // ---------------------------------------------------------------------------
  // The whole block group

  datatype Extent = Extent(start: nat, len: nat) {
    function End(): nat { start + len }
  }

  /** Extents from index `i` on, sorted and apart, none before `last`. */
  ghost predicate SortedFrom(exts: seq<Extent>, i: nat, last: nat) {
    && (forall j :: i <= j < |exts| ==> 0 < exts[j].len && last <= exts[j].start)
    && (forall j, k :: i <= j < k < |exts| ==> exts[j].End() <= exts[k].start)
  }

  ghost predicate InExtent(exts: seq<Extent>, i: nat, x: nat) {
    exists j: nat :: i <= j < |exts| && exts[j].start <= x < exts[j].End()
  }

  datatype ScanResult = ScanResult(ok: bool, entries: Entries, last: nat)

  /** The loop of verify_space_cache over the extent items of the group. */
  function Scan(e: Entries, sb: Stripes, exts: seq<Extent>, i: nat, last: nat, end: nat): (r: ScanResult)
    requires 0 < sb.len && i <= |exts| && SortedFrom(exts, i, last)
    decreases |exts| - i
  {
    if i == |exts| || end <= exts[i].start then ScanResult(true, e, last)
    else if last == exts[i].start then Scan(e, sb, exts, i + 1, exts[i].End(), end)
    else
      var r := Check(e, sb, 0, last, exts[i].start - last);
      if r.0 then Scan(r.1, sb, exts, i + 1, exts[i].End(), end) else ScanResult(false, r.1, last)
  }

  /** verify_space_cache.  The check of the tail overwrites the verdict of the loop. */
  function Verify(e: Entries, sb: Stripes, first: nat, end: nat, exts: seq<Extent>): bool
    requires 0 < sb.len && SortedFrom(exts, 0, first)
  {
    var s := Scan(e, sb, exts, 0, first, end);
    var r := if s.last < end then Check(s.entries, sb, 0, s.last, end - s.last) else (s.ok, s.entries);
    r.0 && r.1 == map[]
  }

  class FreeSpace {
    var entries: Entries
    const sb: Stripes

    constructor (entries: Entries, sb: Stripes)
      ensures this.entries == entries && this.sb == sb
    {
      this.entries, this.sb := entries, sb;
    }

    /** check_cache_range. */
    method CheckCacheRange(offset: nat, bytes: nat) returns (ok: bool)
      requires 0 < sb.len
      modifies this
      ensures (ok, entries) == Check(old(entries), sb, 0, offset, bytes)
      decreases bytes
    {
      var off: nat, len: nat := offset, bytes;
      var k := 0;
      while k < |sb.at|
        invariant k <= |sb.at| && len <= bytes
        invariant Check(old(entries), sb, 0, offset, bytes) == Check(entries, sb, k, off, len)
      {
        var s := sb.at[k];
        if s + sb.len <= off || off + len <= s {
        } else if s == off {
          if sb.len >= len {
            return true;
          }
          len := len - sb.len;
          off := off + sb.len;
        } else if s < off {
          if s + sb.len >= off + len {
            return true;
          }
          len := off + len - (s + sb.len);
          off := s + sb.len;
        } else if s + sb.len >= len + off {
          len := s - off;
        } else {
          ok := CheckCacheRange(off, s - off);
          if !ok {
            return;
          }
          len := off + len - (s + sb.len);
          off := s + sb.len;
        }
        k := k + 1;
      }
      ok := off in entries && entries[off] == len;
      if ok {
        entries := entries - {off};
      }
    }

    /** verify_space_cache for the group [start, start + length). */
    method VerifySpaceCache(start: nat, length: nat, exts: seq<Extent>) returns (ok: bool)
      requires 0 < sb.len && SortedFrom(exts, 0, Max(start, SUPER_INFO_OFFSET))
      modifies this
      ensures ok == Verify(old(entries), sb, Max(start, SUPER_INFO_OFFSET), start + length, exts)
      ensures ok <==> Accepts(old(entries), sb, exts, 0, Max(start, SUPER_INFO_OFFSET), start + length)
    {
      hide Accepts;
      var first, end := Max(start, SUPER_INFO_OFFSET), start + length;
      var last: nat := first;
      ok := true;
      var i := 0;
      while i < |exts|
        invariant i <= |exts| && SortedFrom(exts, i, last) && ok
        invariant Scan(old(entries), sb, exts, 0, first, end) == Scan(entries, sb, exts, i, last, end)
      {
        if end <= exts[i].start {
          break;
        }
        if last != exts[i].start {
          ok := CheckCacheRange(last, exts[i].start - last);
          if !ok {
            break;
          }
        }
        last := exts[i].End();
        i := i + 1;
      }
      assert Scan(old(entries), sb, exts, 0, first, end) == ScanResult(ok, entries, last);
      if last < end {
        ok := CheckCacheRange(last, end - last);
      }
      ok := ok && entries == map[];
      VerdictFrom(old(entries), sb, exts, 0, first, end);
    }
  }

  // ---------------------------------------------------------------------------
  // What a good verdict means

  ghost predicate TakenAt(e: Entries, e': Entries, x: nat) {
    exists p: nat :: p in e && p !in e' && p <= x < p + e[p]
  }

  /** The entries taken out between `e` and `e'` are disjoint, lie in [lo, hi), and
      cover there exactly the bytes that are neither in a stripe nor in an extent. */
  ghost predicate Accounts(e: Entries, e': Entries, sb: Stripes, exts: seq<Extent>, i: nat, lo: nat, hi: nat) {
    && lo <= hi && Sub(e', e)
    && (forall p :: p in e && p !in e' ==> 0 < e[p] && lo <= p && p + e[p] <= hi)
    && (forall x: nat :: lo <= x < hi ==> (TakenAt(e, e', x) <==> !sb.Has(x) && !InExtent(exts, i, x)))
    && (forall p, q :: p in e && p !in e' && q in e && q !in e' && p < q ==> p + e[p] <= q)
  }

  /** Every byte outside the stripes lies in a piece. */
  lemma PieceAround(sb: Stripes, off: nat, end: nat, x: nat) returns (p: nat, q: nat)
    requires off <= x < end && !sb.Has(x)
    ensures Piece(sb, off, end, p, q) && p <= x < q
  {
    p := x;
    while off < p && !sb.Has(p - 1)
      invariant off <= p <= x && forall y: nat :: p <= y <= x ==> !sb.Has(y)
    {
      p := p - 1;
    }
    q := x + 1;
    while q < end && !sb.Has(q)
      invariant x < q <= end && forall y: nat :: p <= y < q ==> !sb.Has(y)
    {
      q := q + 1;
    }
  }

  /** Two pieces of a range are equal or apart. */
  lemma PiecesApart(sb: Stripes, off: nat, end: nat, p: nat, q: nat, p': nat, q': nat)
    requires Piece(sb, off, end, p, q) && Piece(sb, off, end, p', q') && p <= p'
    ensures (p == p' && q == q') || q <= p'
  {
    assert p' == off || sb.Has(p' - 1);
    assert q == end || sb.Has(q);
    assert q' == end || sb.Has(q');
  }

  lemma CheckAccounts(e: Entries, sb: Stripes, exts: seq<Extent>, i: nat, off: nat, end: nat)
    requires 0 < sb.len && off < end
    requires forall x: nat :: off <= x < end ==> !InExtent(exts, i, x)
    requires Check(e, sb, 0, off, end - off).0
    ensures Accounts(e, Check(e, sb, 0, off, end - off).1, sb, exts, i, off, end)
  {
    CheckExact(e, sb, 0, off, end - off);
    hide Check, InExtent, Piece, PiecesIn, PiecesGone, TakenAt;
    var e' := Check(e, sb, 0, off, end - off).1;
    forall p: nat | p in e && p !in e' ensures 0 < e[p] && off <= p && p + e[p] <= end {
      TakenPiece(e, e', sb, off, end, p);
    }
    forall x: nat | off <= x < end ensures TakenAt(e, e', x) <==> !sb.Has(x) { TakenOutside(e, e', sb, off, end, x); }
    forall p: nat, q: nat | p in e && p !in e' && q in e && q !in e' && p < q ensures p + e[p] <= q {
      TakenPiece(e, e', sb, off, end, p);
      TakenPiece(e, e', sb, off, end, q);
      PiecesApart(sb, off, end, p, p + e[p], q, q + e[q]);
    }
  }

  /** What was taken out is a piece. */
  lemma TakenPiece(e: Entries, e': Entries, sb: Stripes, off: nat, end: nat, p: nat)
    requires PiecesIn(e, sb, off, end) && PiecesGone(e, e', sb, off, end) && p in e && p !in e'
    ensures Piece(sb, off, end, p, p + e[p]) && 0 < e[p] && off <= p && p + e[p] <= end
  {
    var q: nat :| Piece(sb, off, end, p, q);
  }

  lemma TakenOutside(e: Entries, e': Entries, sb: Stripes, off: nat, end: nat, x: nat)
    requires PiecesIn(e, sb, off, end) && PiecesGone(e, e', sb, off, end) && off <= x < end
    ensures TakenAt(e, e', x) <==> !sb.Has(x)
  {
    if !sb.Has(x) {
      var p, q := PieceAround(sb, off, end, x);
      assert p in e && p !in e';
    }
    if TakenAt(e, e', x) {
      var p: nat :| p in e && p !in e' && p <= x < p + e[p];
      TakenPiece(e, e', sb, off, end, p);
    }
  }

  /** A gap, the extent after it, and what follows. */
  lemma AccountsJoin(e: Entries, e1: Entries, e2: Entries, sb: Stripes, exts: seq<Extent>, i: nat, lo: nat, hi: nat)
    requires i < |exts| && SortedFrom(exts, i, lo)
    requires (lo == exts[i].start && e1 == e) || Accounts(e, e1, sb, exts, i, lo, exts[i].start)
    requires Accounts(e1, e2, sb, exts, i + 1, exts[i].End(), hi)
    ensures Accounts(e, e2, sb, exts, i, lo, hi)
  {
    var a, b := exts[i].start, exts[i].End();
    forall x: nat | lo <= x < hi ensures TakenAt(e, e2, x) <==> !sb.Has(x) && !InExtent(exts, i, x) {
      if a <= x < b { assert InExtent(exts, i, x); }
      if b <= x { assert InExtent(exts, i, x) <==> InExtent(exts, i + 1, x); }
      if TakenAt(e, e2, x) {
        var p: nat :| p in e && p !in e2 && p <= x < p + e[p];
        if p in e1 { assert TakenAt(e1, e2, x); } else { assert TakenAt(e, e1, x); }
      }
      if x < a && TakenAt(e, e1, x) {
        var p: nat :| p in e && p !in e1 && p <= x < p + e[p];
        assert p !in e2;
      }
      if b <= x && TakenAt(e1, e2, x) {
        var p: nat :| p in e1 && p !in e2 && p <= x < p + e1[p];
        assert p in e;
      }
    }
  }

  lemma {:induction false} ScanAccounts(e: Entries, sb: Stripes, exts: seq<Extent>, i: nat, last: nat, end: nat)
    requires 0 < sb.len && i <= |exts| && SortedFrom(exts, i, last)
    requires Scan(e, sb, exts, i, last, end).ok
    ensures var r := Scan(e, sb, exts, i, last, end);
            && Accounts(e, r.entries, sb, exts, i, last, r.last)
            && (forall x: nat :: r.last <= x < end ==> !InExtent(exts, i, x))
            && (forall x: nat :: end <= x && last <= x < r.last ==> InExtent(exts, i, x))
    decreases |exts| - i
  {
    if i == |exts| || end <= exts[i].start {
    } else if last == exts[i].start {
      ScanAccounts(e, sb, exts, i + 1, exts[i].End(), end);
      var r := Scan(e, sb, exts, i, last, end);
      AccountsJoin(e, e, r.entries, sb, exts, i, last, r.last);
      LaterExtents(exts, i, i + 1, r.last, end);
    } else {
      var c := Check(e, sb, 0, last, exts[i].start - last);
      CheckAccounts(e, sb, exts, i, last, exts[i].start);
      ScanAccounts(c.1, sb, exts, i + 1, exts[i].End(), end);
      var r := Scan(e, sb, exts, i, last, end);
      AccountsJoin(e, c.1, r.entries, sb, exts, i, last, r.last);
      LaterExtents(exts, i, i + 1, r.last, end);
    }
  }

  lemma LaterExtents(exts: seq<Extent>, i: nat, i': nat, last: nat, end: nat)
    requires i < |exts| && i' == i + 1 && exts[i].start < end && exts[i].End() <= last
    requires forall x: nat :: last <= x < end ==> !InExtent(exts, i', x)
    requires forall x: nat :: end <= x && exts[i].End() <= x < last ==> InExtent(exts, i', x)
    ensures forall x: nat :: last <= x < end ==> !InExtent(exts, i, x)
    ensures forall x: nat :: end <= x < last ==> InExtent(exts, i, x)
  {
    forall x: nat | last <= x < end ensures !InExtent(exts, i, x) {
      assert !InExtent(exts, i', x);
    }
    forall x: nat | end <= x < last ensures InExtent(exts, i, x) {
      if x < exts[i].End() { assert exts[i].start <= x < exts[i].End(); } else { assert InExtent(exts, i', x); }
    }
  }

  /** The entries describe the free space of the group: disjoint, outside stripes
      and extents, and covering every other byte. */
  ghost predicate Exact(e: Entries, sb: Stripes, first: nat, end: nat, exts: seq<Extent>) {
    && (forall x: nat :: (exists p: nat :: p in e && p <= x < p + e[p]) <==>
          first <= x < end && !sb.Has(x) && !InExtent(exts, 0, x))
    && (forall p, q :: p in e && q in e && p < q ==> p + e[p] <= q)
  }

  /** Some entry runs across the start of an extent. */
  ghost predicate Straddles(e: Entries, exts: seq<Extent>, p: nat, j: nat) {
    p in e && j < |exts| && p < exts[j].start < p + e[p]
  }

  /** A gap that fails its own check, but is accepted as the front of a longer range,
      holds an entry that runs across the end of the gap. */
  lemma FooledGap(e: Entries, e1: Entries, sb: Stripes, last: nat, obj: nat, end: nat) returns (p: nat)
    requires 0 < sb.len && last < obj < end && Sub(e1, e)
    requires !PiecesIn(e, sb, last, obj) && PiecesIn(e1, sb, last, end)
    ensures p in e && p < obj < p + e[p]
  {
    var p1: nat, q1: nat :| Piece(sb, last, obj, p1, q1) && !(p1 in e && e[p1] == q1 - p1);
    if sb.Has(q1) {
      assert Piece(sb, last, end, p1, q1);
      assert false;
    }
    var q2: nat;
    p, q2 := PieceAround(sb, last, end, obj);
    assert p == last || sb.Has(p - 1);
    assert p <= p1;
    assert p in e1;
  }

  /** Where the loop gave up. */
  lemma {:induction false} ScanFailed(e: Entries, sb: Stripes, exts: seq<Extent>, i: nat, last: nat, end: nat)
    returns (j: nat, e0: Entries)
    requires 0 < sb.len && i <= |exts| && SortedFrom(exts, i, last)
    requires !Scan(e, sb, exts, i, last, end).ok
    ensures var r := Scan(e, sb, exts, i, last, end);
            && j < |exts| && r.last < exts[j].start < end
            && Sub(e0, e) && Sub(r.entries, e0) && !PiecesIn(e0, sb, r.last, exts[j].start)
    decreases |exts| - i
  {
    hide Piece, PiecesIn, PiecesGone, Sub;
    SubSelf(e);
    if last == exts[i].start {
      j, e0 := ScanFailed(e, sb, exts, i + 1, exts[i].End(), end);
    } else {
      var c := Check(e, sb, 0, last, exts[i].start - last);
      CheckExact(e, sb, 0, last, exts[i].start - last);
      if c.0 {
        j, e0 := ScanFailed(c.1, sb, exts, i + 1, exts[i].End(), end);
        SubTrans(e0, c.1, e);
      } else {
        j, e0 := i, e;
      }
    }
  }

  lemma AccountsExact(e: Entries, e1: Entries, sb: Stripes, exts: seq<Extent>, first: nat, last: nat, end: nat)
    requires Accounts(e, e1, sb, exts, 0, first, last)
    requires forall x: nat :: last <= x < end ==> !InExtent(exts, 0, x)
    requires forall x: nat :: end <= x && first <= x < last ==> InExtent(exts, 0, x)
    requires if last < end then Accounts(e1, map[], sb, exts, 0, last, end) else e1 == map[]
    ensures Exact(e, sb, first, end, exts)
  {
    forall x: nat
      ensures (exists p: nat :: p in e && p <= x < p + e[p]) <==>
        first <= x < end && !sb.Has(x) && !InExtent(exts, 0, x)
    {
      if p: nat :| p in e && p <= x < p + e[p] {
        if p in e1 { assert TakenAt(e1, map[], x); } else { assert TakenAt(e, e1, x); }
      }
      if first <= x < end && !sb.Has(x) && !InExtent(exts, 0, x) {
        if x < last {
          assert TakenAt(e, e1, x);
        } else {
          assert TakenAt(e1, map[], x);
          var p: nat :| p in e1 && p <= x < p + e1[p];
          assert p in e;
        }
      }
    }
  }

  /** A good verdict: the entries are exact if and only if no entry runs across the
      start of an extent. */
  lemma VerifyExact(e: Entries, sb: Stripes, first: nat, end: nat, exts: seq<Extent>)
    requires 0 < sb.len && SortedFrom(exts, 0, first)
    requires Verify(e, sb, first, end, exts)
    ensures Exact(e, sb, first, end, exts) <==> forall p: nat, j: nat :: !Straddles(e, exts, p, j)
  {
    hide Check, Scan, Straddles, Piece, PiecesIn, PiecesGone, Accounts, InExtent, TakenAt, Exact;
    var s := Scan(e, sb, exts, 0, first, end);
    if p: nat, j: nat :| Straddles(e, exts, p, j) { StraddlingWrong(e, sb, first, end, exts, p, j); }
    if s.ok {
      ScanAccounts(e, sb, exts, 0, first, end);
      if s.last < end { CheckAccounts(s.entries, sb, exts, 0, s.last, end); }
      AccountsExact(e, s.entries, sb, exts, first, s.last, end);
    } else {
      var j, e0 := ScanFailed(e, sb, exts, 0, first, end);
      CheckExact(s.entries, sb, 0, s.last, end - s.last);
      var p := FooledGap(e0, s.entries, sb, s.last, exts[j].start, end);
      assert Straddles(e, exts, p, j) by { StraddlesThere(e, e0, exts, p, j); }
      StraddlingWrong(e, sb, first, end, exts, p, j);
    }
  }

  lemma StraddlesThere(e: Entries, e0: Entries, exts: seq<Extent>, p: nat, j: nat)
    requires Sub(e0, e) && p in e0 && j < |exts| && p < exts[j].start < p + e0[p]
    ensures Straddles(e, exts, p, j)
  {}

  lemma StraddlingWrong(e: Entries, sb: Stripes, first: nat, end: nat, exts: seq<Extent>, p: nat, j: nat)
    requires SortedFrom(exts, 0, first) && Straddles(e, exts, p, j)
    ensures !Exact(e, sb, first, end, exts)
  {
    var x := exts[j].start;
    assert InExtent(exts, 0, x);
    assert p in e && p <= x < p + e[p];
  }

  /** The verdict can be good for entries that are not exact: one entry over the whole
      group, although an extent lies in the middle.  The failed check of the gap
      before the extent is forgotten when the tail is checked. */
  lemma VerifyFooled()
    ensures exists e: Entries, sb: Stripes, first: nat, end: nat, exts: seq<Extent> ::
      0 < sb.len && SortedFrom(exts, 0, first) && Verify(e, sb, first, end, exts) && !Exact(e, sb, first, end, exts)
  {
    var e: Entries := map[SUPER_INFO_OFFSET := 100];
    var sb := Stripes([], 1);
    var first := SUPER_INFO_OFFSET;
    var exts := [Extent(first + 10, 10)];
    assert Check(e, sb, 0, first, 10) == (false, e);
    assert Scan(e, sb, exts, 0, first, first + 100) == ScanResult(false, e, first);
    assert Check(e, sb, 0, first, 100) == (true, e - {first});
    assert e - {first} == map[];
    assert Verify(e, sb, first, first + 100, exts);
    VerifyExact(e, sb, first, first + 100, exts);
    assert Straddles(e, exts, first, 0);
  }

  // ---------------------------------------------------------------------------
  // When the verdict is good

  /** A failed check has taken out the pieces before the first one, at `m`, that has no entry. */
  ghost predicate FailsAt(e: Entries, e': Entries, sb: Stripes, off: nat, end: nat, m: nat) {
    && (exists q: nat :: Piece(sb, off, end, m, q) && !(m in e && e[m] == q - m))
    && (forall p: nat :: p in e' <==> p in e && !(p < m && exists q: nat :: Piece(sb, off, end, p, q)))
  }

  lemma {:induction false} CheckFails(e: Entries, sb: Stripes, k: nat, off: nat, bytes: nat) returns (m: nat)
    requires 0 < sb.len && k <= |sb.at| && 0 < bytes && Cleared(sb, k, off, off + bytes)
    requires !Check(e, sb, k, off, bytes).0
    ensures FailsAt(e, Check(e, sb, k, off, bytes).1, sb, off, off + bytes, m)
    decreases bytes, |sb.at| - k
  {
    hide Piece, FailsAt, Cleared;
    var end := off + bytes;
    if k == |sb.at| {
      m := off;
      WholeFails(e, sb, off, bytes);
    } else {
      var s := sb.at[k];
      var t := s + sb.len;
      ClearedNext(sb, k, off, end);
      if t <= off || end <= s {
        m := CheckFails(e, sb, k + 1, off, bytes);
      } else if s <= off {
        m := CheckFails(e, sb, k + 1, t, end - t);
        forall p: nat, q: nat ensures Piece(sb, off, end, p, q) <==> Piece(sb, t, end, p, q) {
          TrimLeft(sb, k, off, end, p, q);
        }
        SameFailure(e, Check(e, sb, k, off, bytes).1, sb, off, end, t, end, m);
      } else if t >= end {
        m := CheckFails(e, sb, k + 1, off, s - off);
        forall p: nat, q: nat ensures Piece(sb, off, end, p, q) <==> Piece(sb, off, s, p, q) {
          TrimRight(sb, k, off, end, p, q);
        }
        SameFailure(e, Check(e, sb, k, off, bytes).1, sb, off, end, off, s, m);
      } else {
        m := SplitFails(e, sb, k, off, bytes);
      }
    }
  }

  lemma WholeFails(e: Entries, sb: Stripes, off: nat, bytes: nat)
    requires 0 < sb.len && 0 < bytes && Cleared(sb, |sb.at|, off, off + bytes) && !Check(e, sb, |sb.at|, off, bytes).0
    ensures FailsAt(e, Check(e, sb, |sb.at|, off, bytes).1, sb, off, off + bytes, off)
  {
    hide Piece, Cleared;
    var end := off + bytes;
    forall p: nat, q: nat ensures Piece(sb, off, end, p, q) <==> p == off && q == end {
      WholePiece(sb, off, end, p, q);
    }
    assert Piece(sb, off, end, off, end);
  }

  lemma SameFailure(e: Entries, e': Entries, sb: Stripes, off: nat, end: nat, off': nat, end': nat, m: nat)
    requires forall p: nat, q: nat :: Piece(sb, off, end, p, q) <==> Piece(sb, off', end', p, q)
    requires FailsAt(e, e', sb, off', end', m)
    ensures FailsAt(e, e', sb, off, end, m)
  {}

  lemma {:induction false} SplitFails(e: Entries, sb: Stripes, k: nat, off: nat, bytes: nat) returns (m: nat)
    requires 0 < sb.len && k < |sb.at| && 0 < bytes && Cleared(sb, k, off, off + bytes)
    requires off < sb.at[k] && sb.at[k] + sb.len < off + bytes && !Check(e, sb, k, off, bytes).0
    ensures FailsAt(e, Check(e, sb, k, off, bytes).1, sb, off, off + bytes, m)
    decreases bytes, |sb.at| - k, 0
  {
    hide Piece, FailsAt, Cleared, PiecesIn, PiecesGone, Sub;
    var s, t, end := sb.at[k], sb.at[k] + sb.len, off + bytes;
    ClearedNext(sb, k, off, end);
    assert Cleared(sb, 0, off, s) by { ClearedNone(sb, off, s); }
    CheckExact(e, sb, 0, off, s - off);
    var left := Check(e, sb, 0, off, s - off);
    if !left.0 {
      m := CheckFails(e, sb, 0, off, s - off);
      FailsLeft(e, left.1, sb, k, off, end, m);
    } else {
      m := CheckFails(left.1, sb, k + 1, t, end - t);
      FailsRight(e, left.1, Check(left.1, sb, k + 1, t, end - t).1, sb, k, off, end, m);
    }
  }

  lemma BothSides(sb: Stripes, k: nat, off: nat, end: nat)
    requires k < |sb.at| && 0 < sb.len && off < sb.at[k] && sb.at[k] + sb.len < end
    ensures var s, t := sb.at[k], sb.at[k] + sb.len;
      && (forall p: nat, q: nat :: Piece(sb, off, end, p, q) <==> Piece(sb, off, s, p, q) || Piece(sb, t, end, p, q))
      && (forall p: nat, q: nat :: Piece(sb, off, s, p, q) ==> p < s)
      && forall p: nat, q: nat :: Piece(sb, t, end, p, q) ==> t <= p
  {
    hide Piece;
    var s, t := sb.at[k], sb.at[k] + sb.len;
    forall p: nat, q: nat ensures Piece(sb, off, end, p, q) <==> Piece(sb, off, s, p, q) || Piece(sb, t, end, p, q) {
      Split(sb, k, off, end, p, q);
    }
    forall p: nat, q: nat ensures Piece(sb, off, s, p, q) ==> p < s { PieceIn(sb, off, s, p, q); }
    forall p: nat, q: nat ensures Piece(sb, t, end, p, q) ==> t <= p { PieceIn(sb, t, end, p, q); }
  }

  lemma FailsLeft(e: Entries, e': Entries, sb: Stripes, k: nat, off: nat, end: nat, m: nat)
    requires k < |sb.at| && 0 < sb.len && off < sb.at[k] && sb.at[k] + sb.len < end
    requires FailsAt(e, e', sb, off, sb.at[k], m)
    ensures FailsAt(e, e', sb, off, end, m)
  {
    hide Piece;
    BothSides(sb, k, off, end);
  }

  lemma FailsRight(e: Entries, e1: Entries, e2: Entries, sb: Stripes, k: nat, off: nat, end: nat, m: nat)
    requires k < |sb.at| && 0 < sb.len && off < sb.at[k] && sb.at[k] + sb.len < end
    requires PiecesGone(e, e1, sb, off, sb.at[k]) && Sub(e1, e) && FailsAt(e1, e2, sb, sb.at[k] + sb.len, end, m)
    ensures FailsAt(e, e2, sb, off, end, m)
  {
    hide Piece;
    BothSides(sb, k, off, end);
    assert forall q: nat :: !Piece(sb, off, sb.at[k], m, q);
  }

  /** In one of the extents from `i` to `j`. */
  ghost predicate InSome(exts: seq<Extent>, i: nat, j: nat, x: nat) {
    exists k: nat :: i <= k < j && k < |exts| && exts[k].start <= x < exts[k].End()
  }

  ghost predicate Open(sb: Stripes, exts: seq<Extent>, i: nat, j: nat, x: nat) { !sb.Has(x) && !InSome(exts, i, j, x) }

  /** [p, q) is a maximal stretch of [off, end) outside the stripes and the extents from `i` to `j`. */
  ghost predicate FreePiece(sb: Stripes, exts: seq<Extent>, i: nat, j: nat, off: nat, end: nat, p: nat, q: nat) {
    && off <= p < q <= end
    && (forall x: nat :: p <= x < q ==> Open(sb, exts, i, j, x))
    && (p == off || !Open(sb, exts, i, j, p - 1))
    && (q == end || !Open(sb, exts, i, j, q))
  }

  /** The entries are those stretches, no more and no less. */
  ghost predicate Exactly(e: Entries, sb: Stripes, exts: seq<Extent>, i: nat, j: nat, off: nat, end: nat) {
    && (forall p: nat :: p in e ==> FreePiece(sb, exts, i, j, off, end, p, p + e[p]))
    && (forall p: nat, q: nat :: FreePiece(sb, exts, i, j, off, end, p, q) ==> p in e && e[p] == q - p)
  }

  /** Where the extents before `j` end. */
  ghost function EndBefore(exts: seq<Extent>, i: nat, last: nat, j: nat): nat
    requires i <= j <= |exts|
  {
    if j == i then last else exts[j - 1].End()
  }

  /** Before `start` there is one free stretch since `last`, and it goes on behind `start`. */
  ghost predicate RunsOn(sb: Stripes, last: nat, start: nat) {
    && last < start && !sb.Has(start - 1) && !sb.Has(start)
    && forall x: nat, y: nat :: last <= x <= y <= start && !sb.Has(x) ==> !sb.Has(y)
  }

  /** The extents that count: all that begin in the group, or those before one that the code may pass over. */
  ghost predicate CountsUpTo(sb: Stripes, exts: seq<Extent>, i: nat, last: nat, end: nat, j: nat) {
    && i <= j <= |exts| && (forall k :: i <= k < j ==> exts[k].start < end)
    && (j == |exts| || end <= exts[j].start || RunsOn(sb, EndBefore(exts, i, last, j), exts[j].start))
  }

  ghost predicate VerifyFrom(e: Entries, sb: Stripes, exts: seq<Extent>, i: nat, last: nat, end: nat)
    requires 0 < sb.len && i <= |exts| && SortedFrom(exts, i, last)
  {
    var s := Scan(e, sb, exts, i, last, end);
    var r := if s.last < end then Check(s.entries, sb, 0, s.last, end - s.last) else (s.ok, s.entries);
    r.0 && r.1 == map[]
  }

  /** What the verdict is good for, from extent `i` on. */
  ghost predicate Accepts(e: Entries, sb: Stripes, exts: seq<Extent>, i: nat, last: nat, end: nat) {
    exists j: nat :: CountsUpTo(sb, exts, i, last, end, j) && Exactly(e, sb, exts, i, j, last, end)
  }

  lemma NoExtents(sb: Stripes, exts: seq<Extent>, i: nat, off: nat, end: nat)
    ensures forall p: nat, q: nat :: FreePiece(sb, exts, i, i, off, end, p, q) <==> Piece(sb, off, end, p, q)
  {
    assert forall x: nat :: Open(sb, exts, i, i, x) <==> !sb.Has(x);
  }

  /** The check of a range that no extent counts in. */
  lemma TailExact(e: Entries, sb: Stripes, exts: seq<Extent>, i: nat, last: nat, end: nat)
    requires 0 < sb.len && last < end
    ensures var r := Check(e, sb, 0, last, end - last); r.0 && r.1 == map[] <==> Exactly(e, sb, exts, i, i, last, end)
  {
    hide Check, FreePiece, Piece, Sub, Cleared;
    assert Cleared(sb, 0, last, end) by { ClearedNone(sb, last, end); }
    CheckExact(e, sb, 0, last, end - last);
    NoExtents(sb, exts, i, last, end);
    var r := Check(e, sb, 0, last, end - last);
    if r.0 && r.1 == map[] {
      forall p: nat | p in e ensures Piece(sb, last, end, p, p + e[p]) {
        assert p !in r.1;
        var q: nat :| Piece(sb, last, end, p, q);
      }
    }
    if Exactly(e, sb, exts, i, i, last, end) {
      assert forall p: nat :: p in e ==> Piece(sb, last, end, p, p + e[p]);
      assert forall p: nat :: p !in r.1;
    }
  }

  lemma EmptyExact(e: Entries, sb: Stripes, exts: seq<Extent>, i: nat, j: nat, last: nat, end: nat)
    requires end <= last
    ensures Exactly(e, sb, exts, i, j, last, end) <==> e == map[]
  {
    if Exactly(e, sb, exts, i, j, last, end) {
      assert forall p: nat, q: nat :: !FreePiece(sb, exts, i, j, last, end, p, q);
      assert forall p: nat :: p !in e;
    }
  }

  /** No extent begins in the rest of the group. */
  lemma VerdictEnd(e: Entries, sb: Stripes, exts: seq<Extent>, i: nat, last: nat, end: nat)
    requires 0 < sb.len && i <= |exts| && SortedFrom(exts, i, last) && (i == |exts| || end <= exts[i].start)
    ensures VerifyFrom(e, sb, exts, i, last, end) <==> Accepts(e, sb, exts, i, last, end)
  {
    hide Check, Exactly, SortedFrom;
    assert forall j: nat :: CountsUpTo(sb, exts, i, last, end, j) ==> j == i;
    assert CountsUpTo(sb, exts, i, last, end, i);
    if last < end { TailExact(e, sb, exts, i, last, end); } else { EmptyExact(e, sb, exts, i, i, last, end); }
  }

  /** Inside the first extent, and behind it. */
  lemma FirstExtent(exts: seq<Extent>, i: nat, j: nat, last: nat, x: nat)
    requires i < |exts| && i < j && SortedFrom(exts, i, last)
    ensures x < exts[i].start ==> !InSome(exts, i, j, x)
    ensures exts[i].start <= x < exts[i].End() ==> InSome(exts, i, j, x)
    ensures exts[i].End() <= x ==> (InSome(exts, i, j, x) <==> InSome(exts, i + 1, j, x))
  {
    if exts[i].start <= x < exts[i].End() { assert InSome(exts, i, j, x); }
  }

  /** The free stretches before and behind an extent. */
  lemma AroundExtent(sb: Stripes, exts: seq<Extent>, i: nat, n: nat, j: nat, last: nat, end: nat, p: nat, q: nat)
    requires n == i + 1 && i < |exts| && i < j && SortedFrom(exts, i, last) && exts[i].start < end
    ensures FreePiece(sb, exts, i, j, last, end, p, q) <==>
      Piece(sb, last, exts[i].start, p, q) || FreePiece(sb, exts, n, j, exts[i].End(), end, p, q)
  {
    hide InSome, SortedFrom;
    var a, b := exts[i].start, exts[i].End();
    assert last <= a < b by { Apart(exts, i, last); }
    forall x: nat
      ensures x < a ==> (Open(sb, exts, i, j, x) <==> !sb.Has(x))
      ensures a <= x < b ==> !Open(sb, exts, i, j, x)
      ensures b <= x ==> (Open(sb, exts, i, j, x) <==> Open(sb, exts, n, j, x))
    {
      FirstExtent(exts, i, j, last, x);
    }
    assert !Open(sb, exts, i, j, a) && !Open(sb, exts, i, j, b - 1);
    if FreePiece(sb, exts, i, j, last, end, p, q) {
      assert Open(sb, exts, i, j, p) && Open(sb, exts, i, j, q - 1);
      assert p < a ==> q <= a;
    }
  }

  lemma Apart(exts: seq<Extent>, i: nat, last: nat)
    requires i < |exts| && SortedFrom(exts, i, last)
    ensures last <= exts[i].start < exts[i].End() && SortedFrom(exts, i + 1, exts[i].End())
  {}

  /** Counting goes on behind an extent. */
  lemma CountsOn(sb: Stripes, exts: seq<Extent>, i: nat, n: nat, last: nat, end: nat, j: nat)
    requires n == i + 1 && i < j && i < |exts| && exts[i].start < end
    ensures CountsUpTo(sb, exts, i, last, end, j) <==> CountsUpTo(sb, exts, n, exts[i].End(), end, j)
  {}

  /** An extent right at the start. */
  lemma VerdictSkip(e: Entries, sb: Stripes, exts: seq<Extent>, i: nat, n: nat, last: nat, end: nat)
    requires 0 < sb.len && n == i + 1 <= |exts| && SortedFrom(exts, i, last) && last == exts[i].start < end
    ensures Accepts(e, sb, exts, i, last, end) <==> Accepts(e, sb, exts, n, exts[i].End(), end)
  {
    hide SortedFrom, FreePiece, Piece, RunsOn;
    forall j: nat | i < j
      ensures CountsUpTo(sb, exts, i, last, end, j) <==> CountsUpTo(sb, exts, n, exts[i].End(), end, j)
      ensures Exactly(e, sb, exts, i, j, last, end) <==> Exactly(e, sb, exts, n, j, exts[i].End(), end)
    {
      CountsOn(sb, exts, i, n, last, end, j);
      forall p: nat, q: nat
        ensures FreePiece(sb, exts, i, j, last, end, p, q) <==> FreePiece(sb, exts, n, j, exts[i].End(), end, p, q)
      {
        AroundExtent(sb, exts, i, n, j, last, end, p, q);
        PieceIn(sb, last, last, p, q);
      }
    }
    assert !RunsOn(sb, last, last) by { NotInNothing(sb, last); }
  }

  lemma NotInNothing(sb: Stripes, last: nat)
    ensures !RunsOn(sb, last, last)
  {}

  /** A gap that passed its check. */
  lemma VerdictPassed(e: Entries, e1: Entries, sb: Stripes, exts: seq<Extent>, i: nat, n: nat, last: nat, end: nat)
    requires 0 < sb.len && n == i + 1 <= |exts| && SortedFrom(exts, i, last) && last < exts[i].start < end
    requires PiecesIn(e, sb, last, exts[i].start) && PiecesGone(e, e1, sb, last, exts[i].start) && Sub(e1, e)
    ensures Accepts(e, sb, exts, i, last, end) <==> Accepts(e1, sb, exts, n, exts[i].End(), end)
  {
    hide SortedFrom, FreePiece, Piece, Exactly, CountsUpTo, PiecesIn, PiecesGone, Sub;
    forall j: nat | i < j
      ensures CountsUpTo(sb, exts, i, last, end, j) <==> CountsUpTo(sb, exts, n, exts[i].End(), end, j)
      ensures Exactly(e, sb, exts, i, j, last, end) <==> Exactly(e1, sb, exts, n, j, exts[i].End(), end)
    {
      CountsOn(sb, exts, i, n, last, end, j);
      PassedExactly(e, e1, sb, exts, i, n, j, last, end);
    }
    if CountsUpTo(sb, exts, i, last, end, i) { PassedCounts(e, sb, exts, i, last, end); }
    assert forall j: nat :: CountsUpTo(sb, exts, i, last, end, j) ==> i <= j by { CountsFrom(sb, exts, i, last, end); }
    assert forall j: nat :: CountsUpTo(sb, exts, n, exts[i].End(), end, j) ==> i < j by {
      CountsFrom(sb, exts, n, exts[i].End(), end);
    }
  }

  lemma CountsFrom(sb: Stripes, exts: seq<Extent>, i: nat, last: nat, end: nat)
    ensures forall j: nat :: CountsUpTo(sb, exts, i, last, end, j) ==> i <= j
  {}

  lemma PassedExactly(e: Entries, e1: Entries, sb: Stripes, exts: seq<Extent>, i: nat, n: nat, j: nat, last: nat,
                      end: nat)
    requires n == i + 1 <= |exts| && i < j && SortedFrom(exts, i, last) && last < exts[i].start < end
    requires PiecesIn(e, sb, last, exts[i].start) && PiecesGone(e, e1, sb, last, exts[i].start) && Sub(e1, e)
    ensures Exactly(e, sb, exts, i, j, last, end) <==> Exactly(e1, sb, exts, n, j, exts[i].End(), end)
  {
    hide SortedFrom, FreePiece, Piece;
    var a, b := exts[i].start, exts[i].End();
    assert a < b by { Apart(exts, i, last); }
    forall p: nat, q: nat
      ensures FreePiece(sb, exts, i, j, last, end, p, q) <==>
        Piece(sb, last, a, p, q) || FreePiece(sb, exts, n, j, b, end, p, q)
      ensures Piece(sb, last, a, p, q) ==> p < a
      ensures FreePiece(sb, exts, n, j, b, end, p, q) ==> b <= p
    {
      AroundExtent(sb, exts, i, n, j, last, end, p, q);
      PieceIn(sb, last, a, p, q);
      FreePieceIn(sb, exts, n, j, b, end, p, q);
    }
    forall p: nat | p in e && p !in e1 ensures Piece(sb, last, a, p, p + e[p]) {
      var q: nat :| Piece(sb, last, a, p, q);
    }
  }

  lemma FreePieceIn(sb: Stripes, exts: seq<Extent>, i: nat, j: nat, off: nat, end: nat, p: nat, q: nat)
    ensures FreePiece(sb, exts, i, j, off, end, p, q) ==> off <= p < end
  {}

  /** After a passed check the extent is not passed over. */
  lemma PassedCounts(e: Entries, sb: Stripes, exts: seq<Extent>, i: nat, last: nat, end: nat)
    requires i < |exts| && last < exts[i].start < end && PiecesIn(e, sb, last, exts[i].start)
    requires CountsUpTo(sb, exts, i, last, end, i)
    ensures !Exactly(e, sb, exts, i, i, last, end)
  {
    var a := exts[i].start;
    NoExtents(sb, exts, i, last, end);
    var p, q := PieceAround(sb, last, a, a - 1);
    var p', q' := PieceAround(sb, last, end, a - 1);
    assert p in e && e[p] == q - p;
    assert q == a && a < q' && p' == p by { StretchOn(sb, last, a, end, p, q, p', q'); }
    assert FreePiece(sb, exts, i, i, last, end, p', q');
  }

  /** The last stretch of the gap goes on behind it. */
  lemma StretchOn(sb: Stripes, last: nat, a: nat, end: nat, p: nat, q: nat, p': nat, q': nat)
    requires last < a < end && !sb.Has(a - 1) && !sb.Has(a)
    requires Piece(sb, last, a, p, q) && p <= a - 1 < q && Piece(sb, last, end, p', q') && p' <= a - 1 < q'
    ensures q == a && a < q' && p' == p
  {
    assert p == last || sb.Has(p - 1);
    assert p' == last || sb.Has(p' - 1);
  }

  /** A gap that failed its check: the verdict is that of the rest of the group, as if no extent were in it. */
  lemma VerdictFailed(e: Entries, e1: Entries, sb: Stripes, exts: seq<Extent>, i: nat, last: nat, end: nat, m: nat)
    requires 0 < sb.len && i < |exts| && SortedFrom(exts, i, last) && last < exts[i].start < end
    requires !PiecesIn(e, sb, last, exts[i].start) && FailsAt(e, e1, sb, last, exts[i].start, m) && Sub(e1, e)
    ensures Accepts(e, sb, exts, i, last, end) <==> Exactly(e1, sb, exts, i, i, last, end)
  {
    hide SortedFrom, FreePiece, Piece, Exactly, PiecesIn, Sub, FailsAt, RunsOn;
    forall j: nat | i < j ensures !Exactly(e, sb, exts, i, j, last, end) { FailedExtent(e, sb, exts, i, j, last, end); }
    if Exactly(e1, sb, exts, i, i, last, end) {
      FailedRuns(e, e1, sb, exts, i, last, end, m);
      assert CountsUpTo(sb, exts, i, last, end, i);
    }
    if RunsOn(sb, last, exts[i].start) { FailedWhole(e, e1, sb, last, exts[i].start, m); }
    assert CountsUpTo(sb, exts, i, last, end, i) <==> RunsOn(sb, last, exts[i].start);
  }

  /** If the extent counted, the gap would have its entries. */
  lemma FailedExtent(e: Entries, sb: Stripes, exts: seq<Extent>, i: nat, j: nat, last: nat, end: nat)
    requires i < |exts| && i < j && SortedFrom(exts, i, last) && last < exts[i].start < end
    requires !PiecesIn(e, sb, last, exts[i].start)
    ensures !Exactly(e, sb, exts, i, j, last, end)
  {
    hide SortedFrom, FreePiece, Piece;
    var p: nat, q: nat :| Piece(sb, last, exts[i].start, p, q) && !(p in e && e[p] == q - p);
    AroundExtent(sb, exts, i, i + 1, j, last, end, p, q);
    assert FreePiece(sb, exts, i, j, last, end, p, q);
  }

  /** A piece that ends inside the gap is a piece of the rest of the group. */
  lemma PieceGoes(sb: Stripes, last: nat, a: nat, end: nat, p: nat, q: nat)
    requires Piece(sb, last, a, p, q) && a < end && (q < a || sb.Has(a))
    ensures Piece(sb, last, end, p, q)
  {}

  /** The failed check has taken nothing, and the gap is one stretch that goes on. */
  lemma FailedRuns(e: Entries, e1: Entries, sb: Stripes, exts: seq<Extent>, i: nat, last: nat, end: nat, m: nat)
    requires i < |exts| && last < exts[i].start < end && Sub(e1, e)
    requires FailsAt(e, e1, sb, last, exts[i].start, m) && Exactly(e1, sb, exts, i, i, last, end)
    ensures RunsOn(sb, last, exts[i].start)
  {
    hide FreePiece;
    var a := exts[i].start;
    NoExtents(sb, exts, i, last, end);
    assert forall p: nat, q: nat :: Piece(sb, last, end, p, q) ==> p in e1 && e1[p] == q - p;
    hide Exactly;
    var qm: nat :| Piece(sb, last, a, m, qm) && !(m in e && e[m] == qm - m);
    assert qm == a && !sb.Has(a) by { if qm < a || sb.Has(a) { PieceGoes(sb, last, a, end, m, qm); } }
    forall p: nat, q: nat | Piece(sb, last, a, p, q) ensures p == m {
      if p < m { PiecesApart(sb, last, a, p, q, m, qm); PieceGoes(sb, last, a, end, p, q); }
      if m < p { PiecesApart(sb, last, a, m, qm, p, q); }
    }
    forall x: nat, y: nat | last <= x <= y <= a && !sb.Has(x) ensures !sb.Has(y) {
      if x < a { var p, q := PieceAround(sb, last, a, x); PiecesApart(sb, last, a, m, qm, p, q); }
    }
  }

  /** With one stretch in the gap the failed check has taken nothing. */
  lemma FailedWhole(e: Entries, e1: Entries, sb: Stripes, last: nat, a: nat, m: nat)
    requires RunsOn(sb, last, a) && FailsAt(e, e1, sb, last, a, m) && Sub(e1, e)
    ensures e1 == e
  {
    forall p: nat, q: nat | Piece(sb, last, a, p, q) ensures m <= p {
      var qm: nat :| Piece(sb, last, a, m, qm) && !(m in e && e[m] == qm - m);
      assert !sb.Has(p);
      if p < m { PiecesApart(sb, last, a, p, q, m, qm); }
    }
    assert forall p: nat :: p in e1 <==> p in e;
  }

  /** The verdict from extent `i` on. */
  lemma {:induction false} VerdictFrom(e: Entries, sb: Stripes, exts: seq<Extent>, i: nat, last: nat, end: nat)
    requires 0 < sb.len && i <= |exts| && SortedFrom(exts, i, last)
    ensures VerifyFrom(e, sb, exts, i, last, end) <==> Accepts(e, sb, exts, i, last, end)
    decreases |exts| - i
  {
    hide SortedFrom, Accepts, Check, PiecesIn, PiecesGone, Sub, FailsAt, Cleared, Exactly;
    if i == |exts| || end <= exts[i].start {
      VerdictEnd(e, sb, exts, i, last, end);
      return;
    }
    Apart(exts, i, last);
    if last == exts[i].start {
      VerdictFrom(e, sb, exts, i + 1, exts[i].End(), end);
      VerdictSkip(e, sb, exts, i, i + 1, last, end);
      return;
    }
    var gap := exts[i].start - last;
    assert Cleared(sb, 0, last, last + gap) by { ClearedNone(sb, last, last + gap); }
    CheckExact(e, sb, 0, last, gap);
    var c := Check(e, sb, 0, last, gap);
    if c.0 {
      VerdictFrom(c.1, sb, exts, i + 1, exts[i].End(), end);
      VerdictPassed(e, c.1, sb, exts, i, i + 1, last, end);
    } else {
      var m := CheckFails(e, sb, 0, last, gap);
      VerdictFailed(e, c.1, sb, exts, i, last, end, m);
      TailExact(c.1, sb, exts, i, last, end);
    }
  }

  /** An exact cache whose entries are as long as they can be gets a good verdict. */
  lemma ExactAccepted(e: Entries, sb: Stripes, first: nat, end: nat, exts: seq<Extent>)
    requires 0 < sb.len && SortedFrom(exts, 0, first) && Exact(e, sb, first, end, exts)
    requires forall p: nat :: p in e ==> 0 < e[p] && p + e[p] !in e
    ensures Verify(e, sb, first, end, exts)
  {
    hide Exact, SortedFrom, Scan, Check;
    var j := BeginInside(exts, end);
    assert CountsUpTo(sb, exts, 0, first, end, j);
    LongestExactly(e, sb, first, end, exts, j);
    VerdictFrom(e, sb, exts, 0, first, end);
  }

  /** How many extents begin before the end of the group. */
  lemma BeginInside(exts: seq<Extent>, end: nat) returns (j: nat)
    ensures j <= |exts| && (forall k :: 0 <= k < j ==> exts[k].start < end) && (j == |exts| || end <= exts[j].start)
  {
    j := 0;
    while j < |exts| && exts[j].start < end
      invariant j <= |exts| && forall k :: 0 <= k < j ==> exts[k].start < end
    {
      j := j + 1;
    }
  }

  lemma LongestExactly(e: Entries, sb: Stripes, first: nat, end: nat, exts: seq<Extent>, j: nat)
    requires SortedFrom(exts, 0, first) && Exact(e, sb, first, end, exts)
    requires forall p: nat :: p in e ==> 0 < e[p] && p + e[p] !in e
    requires j <= |exts| && (j == |exts| || end <= exts[j].start)
    ensures Exactly(e, sb, exts, 0, j, first, end)
  {
    hide InSome, InExtent, SortedFrom, Exact, FreePiece;
    forall x: nat | x < end ensures InSome(exts, 0, j, x) <==> InExtent(exts, 0, x) {
      SameExtents(exts, j, end, first, x);
    }
    forall p: nat | p in e ensures FreePiece(sb, exts, 0, j, first, end, p, p + e[p]) {
      EntryIsPiece(e, sb, first, end, exts, j, p);
    }
    forall p: nat, q: nat | FreePiece(sb, exts, 0, j, first, end, p, q) ensures p in e && e[p] == q - p {
      var r := EntryAround(e, sb, first, end, exts, j, p, q);
      EntryIsPiece(e, sb, first, end, exts, j, r);
      SamePiece(sb, exts, 0, j, first, end, p, q, r, r + e[r]);
    }
  }

  /** A free stretch begins inside some entry. */
  lemma EntryAround(e: Entries, sb: Stripes, first: nat, end: nat, exts: seq<Extent>, j: nat, p: nat, q: nat)
    returns (r: nat)
    requires Exact(e, sb, first, end, exts) && FreePiece(sb, exts, 0, j, first, end, p, q)
    requires forall x: nat :: x < end ==> (InSome(exts, 0, j, x) <==> InExtent(exts, 0, x))
    ensures r in e && r <= p < r + e[r]
  {
    hide InSome, InExtent;
    assert Open(sb, exts, 0, j, p);
    assert !sb.Has(p) && !InExtent(exts, 0, p);
    r :| r in e && r <= p < r + e[r];
  }

  lemma SameExtents(exts: seq<Extent>, j: nat, end: nat, first: nat, x: nat)
    requires SortedFrom(exts, 0, first) && j <= |exts| && (j == |exts| || end <= exts[j].start) && x < end
    ensures InSome(exts, 0, j, x) <==> InExtent(exts, 0, x)
  {
    if k: nat :| k < |exts| && exts[k].start <= x < exts[k].End() {
      assert k < j;
    }
  }

  lemma EntryIsPiece(e: Entries, sb: Stripes, first: nat, end: nat, exts: seq<Extent>, j: nat, p: nat)
    requires Exact(e, sb, first, end, exts) && p in e && forall p: nat :: p in e ==> 0 < e[p] && p + e[p] !in e
    requires forall x: nat :: x < end ==> (InSome(exts, 0, j, x) <==> InExtent(exts, 0, x))
    ensures FreePiece(sb, exts, 0, j, first, end, p, p + e[p])
  {
    hide InSome, InExtent;
    var q := p + e[p];
    forall x: nat | p <= x < q ensures first <= x < end && Open(sb, exts, 0, j, x) {
      assert p in e && p <= x < p + e[p];
      assert !sb.Has(x) && !InExtent(exts, 0, x);
    }
    assert Open(sb, exts, 0, j, p) && Open(sb, exts, 0, j, q - 1);
  }

  /** Maximal stretches that share a byte are the same. */
  lemma SamePiece(sb: Stripes, exts: seq<Extent>, i: nat, j: nat, off: nat, end: nat, p: nat, q: nat, p': nat, q': nat)
    requires FreePiece(sb, exts, i, j, off, end, p, q) && FreePiece(sb, exts, i, j, off, end, p', q') && p' <= p < q'
    ensures p == p' && q == q'
  {
    hide Open;
    assert p == off || !Open(sb, exts, i, j, p - 1);
    assert q == end || !Open(sb, exts, i, j, q);
    assert q' == end || !Open(sb, exts, i, j, q');
  }
}
