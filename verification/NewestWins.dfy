/**
  Chunk-tree recovery scans raw devices and finds stale and fresh copies of the same
  records.  process_extent_buffer, process_block_group_item, process_chunk_item and
  process_device_extent_item keep an interval cache in which a record replaces the
  older ones it overlaps.
 */
module NewestWins {

  /** A scanned record: an interval of one address space (a device for device extents,
      0 for all others), its generation, and the bytes that are compared. */
  datatype Rec = Rec(space: nat, start: nat, size: nat, gen: nat, body: seq<bv8>)

  predicate Overlap(a: Rec, b: Rec) {
    a.space == b.space && a.start < b.start + b.size && b.start < a.start + a.size
  }

  ghost predicate Disjoint(cache: set<Rec>) {
    forall a, b :: a in cache && b in cache && a != b ==> !Overlap(a, b)
  }

  /** A record of the scan that `r` overlaps and that is newer. */
  ghost predicate Superseded(scanned: set<Rec>, r: Rec) {
    exists n :: n in scanned && Overlap(r, n) && r.gen < n.gen
  }

  /** What the cache means for everything scanned so far. */
  ghost predicate Newest(scanned: set<Rec>, cache: set<Rec>) {
    && cache <= scanned && Disjoint(cache)
    && (forall r :: r in cache ==> 0 < r.size)
    && (forall r :: r in scanned && 0 < r.size ==> r in cache || Superseded(scanned, r))
  }

  lemma SupersededMore(scanned: set<Rec>, rec: Rec, r: Rec)
    requires Superseded(scanned, r)
    ensures Superseded(scanned + {rec}, r)
  {
    var n :| n in scanned && Overlap(r, n) && r.gen < n.gen;
    assert n in scanned + {rec};
  }

  /** Removing records older than `rec`, which they overlap. */
  ghost predicate Evicted(before: set<Rec>, cache: set<Rec>, rec: Rec) {
    cache <= before && forall e :: e in before && e !in cache ==> Overlap(e, rec) && e.gen < rec.gen
  }

  lemma EvictKeeps(scanned: set<Rec>, before: set<Rec>, cache: set<Rec>, rec: Rec, after: set<Rec>)
    requires Newest(scanned, before) && Evicted(before, cache, rec)
    requires cache <= after <= cache + {rec} && Disjoint(after) && (rec in after ==> 0 < rec.size)
    requires rec in after || 0 == rec.size || Superseded(scanned, rec)
    ensures Newest(scanned + {rec}, after)
  {
    forall r | r in scanned + {rec} && 0 < r.size ensures r in after || Superseded(scanned + {rec}, r) {
      if r in scanned && r !in before {
        SupersededMore(scanned, rec, r);
      } else if r in before && r !in cache {
        assert rec in scanned + {rec};
      } else if r == rec && rec !in after {
        SupersededMore(scanned, rec, r);
      }
    }
  }

  class Cache {
    /** The interval tree, as the set of its records. */
    var recs: set<Rec>
    /** Everything scanned so far. */
    ghost var scanned: set<Rec>

    ghost predicate Valid()
      reads this
    {
      Newest(scanned, recs)
    }

    constructor ()
      ensures Valid() && recs == {} && scanned == {}
    {
      recs, scanned := {}, {};
    }

    /** process_block_group_item and its siblings.  `lookup_cache_extent` may return
        any overlapping record. */
    method Process(rec: Rec) returns (ok: bool)
      requires Valid()
      modifies this
      ensures ok ==> Valid() && scanned == old(scanned) + {rec}
      ensures !ok ==> exists e :: e in old(recs) && Overlap(e, rec) && e.gen == rec.gen && e != rec
    {
      scanned := scanned + {rec};
      ok := true;
      if rec.size == 0 {
        EvictKeeps(old(scanned), old(recs), recs, rec, recs);
        return;
      }
      while exists e | e in recs :: Overlap(e, rec)
        invariant Evicted(old(recs), recs, rec) && ok && scanned == old(scanned) + {rec}
        decreases recs
      {
        var e :| e in recs && Overlap(e, rec);
        if e.gen > rec.gen {
          assert Superseded(old(scanned), rec);
          EvictKeeps(old(scanned), old(recs), recs, rec, recs);
          return;
        }
        if e.gen == rec.gen {
          ok := e == rec;
          if ok {
            EvictKeeps(old(scanned), old(recs), recs, rec, recs);
          }
          return;
        }
        recs := recs - {e};
      }
      EvictKeeps(old(scanned), old(recs), recs, rec, recs + {rec});
      recs := recs + {rec};
    }
  }

  ghost function Scanned(rs: seq<Rec>): set<Rec> { set r | r in rs }

  /** A whole scan, in any order.  When it ends without error the cache is disjoint,
      holds every record that is strictly newer than all it overlaps, and lacks only
      records that a newer one overlaps. */
  method Scan(rs: seq<Rec>) returns (ok: bool, cache: set<Rec>)
    ensures ok ==> Disjoint(cache) && forall r :: r in cache ==> r in rs && 0 < r.size
    ensures ok ==> forall r :: r in rs && 0 < r.size && r !in cache ==>
      exists n :: n in rs && Overlap(r, n) && r.gen < n.gen
    ensures ok ==> forall r ::
      r in rs && 0 < r.size && (forall n :: n in rs && n != r && Overlap(r, n) ==> n.gen < r.gen) ==> r in cache
    ensures !ok ==> exists a, b :: a in rs && b in rs && Overlap(a, b) && a.gen == b.gen && a != b
  {
    var c := new Cache();
    var i := 0;
    while i < |rs|
      invariant i <= |rs| && fresh(c) && c.Valid() && c.scanned == Scanned(rs[..i])
    {
      ghost var before := c.recs;
      ok := c.Process(rs[i]);
      if !ok {
        ghost var e :| e in before && Overlap(e, rs[i]) && e.gen == rs[i].gen && e != rs[i];
        cache := {};
        return;
      }
      assert Scanned(rs[..i + 1]) == Scanned(rs[..i]) + {rs[i]};
      i := i + 1;
    }
    assert rs[..i] == rs;
    ok, cache := true, c.recs;
    forall r | r in rs && 0 < r.size && r !in cache ensures exists n :: n in rs && Overlap(r, n) && r.gen < n.gen {
      assert r in c.scanned;
      var n :| n in c.scanned && Overlap(r, n) && r.gen < n.gen;
      assert n in rs;
    }
  }
}
