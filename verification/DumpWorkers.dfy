/**
  The worker pool of btrfs-image as a state machine.  One step is what a thread does
  while it holds the mutex, or one action outside it; any number of workers take their
  steps in any order.  Items are named by the order in which they were added.
 */
module DumpWorkers {
  import opened Basics
  import opened Bytes
  import opened ImageFile

  /** Where a worker of dump_worker is. */
  datatype Phase =
    | Asleep                                 // in pthread_cond_wait
    | Awake                                  // about to look at the list
    | Holding(item: nat)                     // has taken an item off the list
    | Packing(item: nat, orig: seq<byte>)    // buffer replaced, compress2 under way
    | Packed(item: nat)                      // compressed, not yet counted
    | Exited
  {
    predicate Busy() { Holding? || Packing? || Packed? }
  }

  datatype Entry = Entry(start: nat, size: nat)

  /** A cluster in the file: its index and the buffers behind it. */
  datatype Cluster = Cluster(index: seq<Entry>, bodies: seq<seq<byte>>)

  /** Where the main thread is; in `Writing` it holds the mutex. */
  datatype Main = Running | Waiting(last: bool) | Writing(cluster: Cluster, last: bool) | Closing

  datatype State = State(
    main: Main,
    workers: seq<Phase>,
    created: seq<Item>,              // every item so far, as first added
    buffers: map<nat, seq<byte>>,    // what has been allocated and not freed
    queue: seq<nat>,                 // md->list
    ordered: seq<nat>,               // md->ordered
    numItems: nat,
    numReady: nat,
    done: bool,
    out: seq<Cluster>,
    fault: bool)                     // a freed buffer was used

  datatype Event =
    | Add(item: Item, last: bool, wake: nat)
    | Last
    | WriteIndex
    | WriteBody
    | WriteDone
    | Close
    | Wake(w: nat)
    | Sleep(w: nat)
    | Exit(w: nat)
    | Take(w: nat)
    | Begin(w: nat, junk: seq<byte>)
    | End(w: nat)
    | Ready(w: nat)

  datatype Config = Config(level: nat, pack: seq<byte> -> seq<byte>) {
    ghost predicate Valid() { level == 0 ==> forall b :: pack(b) == b }
  }

  function Init(threads: nat): State {
    State(Running, seq(threads, _ => Awake), [], map[], [], [], 0, 0, false, [], false)
  }

  /** Nobody is inside the mutex. */
  predicate Unlocked(s: State) { !s.main.Writing? }

  predicate At(s: State, w: nat, p: Phase) { w < |s.workers| && s.workers[w] == p }

  predicate Enabled(s: State, e: Event) {
    match e
    case Add(item, last, wake) =>
      s.main.Running? && ((wake < |s.workers| && s.workers[wake].Asleep?) ||
                          forall w :: 0 <= w < |s.workers| ==> !s.workers[w].Asleep?)
    case Last => s.main.Running?
    case WriteIndex => s.main.Waiting? && (s.ordered == [] || s.numItems <= s.numReady)
    case WriteBody => s.main.Writing? && s.ordered != []
    case WriteDone => s.main.Writing? && s.ordered == []
    case Close => s.main.Closing? && !s.done
    case Wake(w) => At(s, w, Asleep)
    case Sleep(w) => Unlocked(s) && At(s, w, Awake) && s.queue == [] && !s.done
    case Exit(w) => Unlocked(s) && At(s, w, Awake) && s.queue == [] && s.done
    case Take(w) => Unlocked(s) && At(s, w, Awake) && s.queue != []
    case Begin(w, junk) => w < |s.workers| && s.workers[w].Holding?
    case End(w) => w < |s.workers| && s.workers[w].Packing?
    case Ready(w) => Unlocked(s) && w < |s.workers| && s.workers[w].Packed?
  }

  function BufferOf(s: State, id: nat): seq<byte> { if id in s.buffers then s.buffers[id] else [] }

  /** The queued entries as the index records them, sizes as they are at this moment. */
  function IndexOf(s: State): seq<Entry> {
    seq(|s.ordered|, i requires 0 <= i < |s.ordered| =>
      Entry(if s.ordered[i] < |s.created| then s.created[s.ordered[i]].start else 0, |BufferOf(s, s.ordered[i])|))
  }

  function Moved(s: State, w: nat, p: Phase): State
    requires w < |s.workers|
  {
    s.(workers := s.workers[w := p])
  }

  /** flush_pending: queue the item; at level 0 it counts as ready at once. */
  function Added(c: Config, s: State, item: Item, last: bool, wake: nat): State {
    var id := |s.created|;
    var t := s.(created := s.created + [item], buffers := s.buffers[id := item.buf], ordered := s.ordered + [id],
                numItems := s.numItems + 1);
    var t := if c.level == 0 then t.(numReady := s.numReady + 1)
             else
               t.(queue := s.queue + [id],
                  workers := if At(s, wake, Asleep) then s.workers[wake := Awake] else s.workers);
    if t.numItems >= ITEMS_PER_CLUSTER || last then t.(main := Waiting(last)) else t
  }

  /** write_buffers after the wait: nothing to do, or set up the index block. */
  function Indexed(s: State): State
    requires s.main.Waiting?
  {
    if s.ordered == [] then s.(numItems := 0, numReady := 0, main := if s.main.last then Closing else Running)
    else s.(main := Writing(Cluster(IndexOf(s), []), s.main.last),
            fault := s.fault || exists i :: 0 <= i < |s.ordered| && s.ordered[i] !in s.buffers)
  }

  /** Write and free the next buffer. */
  function Bodied(s: State): State
    requires s.main.Writing? && s.ordered != []
  {
    var id, cl := s.ordered[0], s.main.cluster;
    s.(main := Writing(Cluster(cl.index, cl.bodies + [BufferOf(s, id)]), s.main.last), ordered := s.ordered[1..],
       buffers := s.buffers - {id}, fault := s.fault || id !in s.buffers)
  }

  function Apply(c: Config, s: State, e: Event): State
    requires Enabled(s, e)
  {
    match e
    case Add(item, last, wake) => Added(c, s, item, last, wake)
    case Last => s.(main := Waiting(true))
    case WriteIndex => Indexed(s)
    case WriteBody => Bodied(s)
    case WriteDone =>
      s.(out := s.out + [s.main.cluster], numItems := 0, numReady := 0,
         main := if s.main.last then Closing else Running)
    case Close =>
      s.(done := true,
         workers := seq(|s.workers|, w requires 0 <= w < |s.workers| =>
                          if s.workers[w].Asleep? then Awake else s.workers[w]))
    case Wake(w) => Moved(s, w, Awake)
    case Sleep(w) => Moved(s, w, Asleep)
    case Exit(w) => Moved(s, w, Exited)
    case Take(w) => Moved(s, w, Holding(s.queue[0])).(queue := s.queue[1..])
    case Begin(w, junk) =>
      var id := s.workers[w].item;
      Moved(s, w, Packing(id, BufferOf(s, id))).(buffers := s.buffers[id := junk], fault := s.fault || id !in s.buffers)
    case End(w) =>
      var p := s.workers[w];
      Moved(s, w, Packed(p.item)).(buffers := s.buffers[p.item := c.pack(p.orig)],
                                   fault := s.fault || p.item !in s.buffers)
    case Ready(w) => Moved(s, w, Awake).(numReady := s.numReady + 1)
  }

  /** A run: every event is enabled when it happens. */
  predicate IsRun(c: Config, s: State, events: seq<Event>)
    decreases |events|
  {
    events == [] || (Enabled(s, events[0]) && IsRun(c, Apply(c, s, events[0]), events[1..]))
  }

  function After(c: Config, s: State, events: seq<Event>): State
    requires IsRun(c, s, events)
    decreases |events|
  {
    if events == [] then s else After(c, Apply(c, s, events[0]), events[1..])
  }

  // ---------------------------------------------------------------- the invariant

  /** The items of the cluster being collected or written. */
  ghost predicate Live(s: State, id: nat) { |s.created| - s.numItems <= id < |s.created| }

  ghost predicate HeldBy(s: State, w: nat, id: nat) {
    w < |s.workers| && s.workers[w].Busy() && s.workers[w].item == id
  }

  ghost predicate Held(s: State, id: nat) { exists w :: HeldBy(s, w, id) }

  /** Live, taken off the list and counted by its worker. */
  ghost predicate IsFinished(s: State, id: nat) { Live(s, id) && id !in s.queue && !Held(s, id) }

  ghost function Finished(s: State): set<nat> { set id: nat | id < |s.created| && IsFinished(s, id) }

  /** The counters and lists agree. */
  ghost predicate Lists(s: State) {
    && |s.ordered| + (if s.main.Writing? then |s.main.cluster.bodies| else 0) == s.numItems <= |s.created|
    && (forall i :: 0 <= i < |s.ordered| ==> s.ordered[i] == |s.created| - |s.ordered| + i)
    && s.numItems <= ITEMS_PER_CLUSTER && (s.main.Running? ==> s.numItems < ITEMS_PER_CLUSTER)
    && (s.main.Waiting? && !s.main.last ==> s.numItems == ITEMS_PER_CLUSTER)
    && (s.main.Writing? && !s.main.last ==> s.numItems == ITEMS_PER_CLUSTER)
    && (s.main.Closing? ==> s.numItems == 0) && (s.main.Writing? ==> 0 < s.numItems)
  }

  /** Every unfinished item is in one place: once in the list, or with one worker. */
  ghost predicate Owners(s: State) {
    && (forall i :: 0 <= i < |s.queue| ==> Live(s, s.queue[i]) && !Held(s, s.queue[i]))
    && (forall i, j :: 0 <= i < j < |s.queue| ==> s.queue[i] != s.queue[j])
    && (forall w, id :: HeldBy(s, w, id) ==> Live(s, id))
    && (forall v, w, id :: HeldBy(s, v, id) && HeldBy(s, w, id) ==> v == w)
  }

  /** num_ready counts the finished items, exactly. */
  ghost predicate Counted(s: State) { s.numReady == |Finished(s)| }

  ghost predicate Untouched(s: State, id: nat) {
    id < |s.created| && id in s.buffers && s.buffers[id] == s.created[id].buf
  }

  ghost predicate Compressed(c: Config, s: State, id: nat) {
    id < |s.created| && id in s.buffers && s.buffers[id] == c.pack(s.created[id].buf)
  }

  ghost predicate WorkerOk(c: Config, s: State, p: Phase) {
    match p
    case Holding(id) => Untouched(s, id)
    case Packing(id, orig) => id < |s.created| && id in s.buffers && orig == s.created[id].buf
    case Packed(id) => Compressed(c, s, id)
    case _ => true
  }

  /** Buffers are what the owner expects. */
  ghost predicate Contents(c: Config, s: State) {
    && (forall i :: 0 <= i < |s.queue| ==> Untouched(s, s.queue[i]))
    && (forall w :: 0 <= w < |s.workers| ==> WorkerOk(c, s, s.workers[w]))
    && (forall i :: 0 <= i < |s.ordered| ==>
        s.ordered[i] in s.buffers && (IsFinished(s, s.ordered[i]) ==> Compressed(c, s, s.ordered[i])))
    && !s.fault
  }

  /** Nobody works on anything. */
  ghost predicate Quiet(s: State) { s.queue == [] && forall w :: 0 <= w < |s.workers| ==> !s.workers[w].Busy() }

  /** The cluster of the items from `lo` to `hi`, as one thread alone would write it. */
  function ClusterFor(c: Config, created: seq<Item>, lo: nat, hi: nat): Cluster
    requires lo <= hi <= |created|
  {
    Cluster(seq(hi - lo, i requires 0 <= i < hi - lo => Entry(created[lo + i].start, |c.pack(created[lo + i].buf)|)),
            seq(hi - lo, i requires 0 <= i < hi - lo => c.pack(created[lo + i].buf)))
  }

  /** The cluster in the making agrees with that one as far as it goes. */
  ghost predicate Making(c: Config, s: State) {
    s.main.Writing? ==>
      && Quiet(s) && s.numItems <= |s.created| && |s.main.cluster.bodies| <= s.numItems
      && var want := ClusterFor(c, s.created, |s.created| - s.numItems, |s.created|);
      s.main.cluster.index == want.index && s.main.cluster.bodies == want.bodies[..|s.main.cluster.bodies|]
  }

  /** The file of the first `n` items: clusters of 83, the last one shorter. */
  ghost predicate FileOf(c: Config, created: seq<Item>, n: nat, out: seq<Cluster>) {
    && n <= |created| && |out| * ITEMS_PER_CLUSTER < n + ITEMS_PER_CLUSTER && n <= |out| * ITEMS_PER_CLUSTER
    && forall k :: 0 <= k < |out| ==> FileAt(c, created, n, out, k)
  }

  ghost predicate FileAt(c: Config, created: seq<Item>, n: nat, out: seq<Cluster>, k: nat) {
    && k < |out| && k * ITEMS_PER_CLUSTER <= n <= |created|
    && out[k] == ClusterFor(c, created, k * ITEMS_PER_CLUSTER, Min((k + 1) * ITEMS_PER_CLUSTER, n))
  }

  ghost predicate FileOk(c: Config, s: State) {
    && s.numItems <= |s.created| && FileOf(c, s.created, |s.created| - s.numItems, s.out)
    && (!s.main.Closing? ==> |s.out| * ITEMS_PER_CLUSTER == |s.created| - s.numItems)
  }

  /** Nobody sleeps through work, and nobody leaves before the end. */
  ghost predicate Awareness(c: Config, s: State) {
    && (c.level == 0 ==> Quiet(s))
    && (s.queue != [] && s.workers != [] ==> exists w :: 0 <= w < |s.workers| && !s.workers[w].Asleep?)
    && (s.done ==> s.main.Closing?) && (!s.done ==> forall w :: 0 <= w < |s.workers| ==> !s.workers[w].Exited?)
  }

  ghost predicate Inv(c: Config, s: State) {
    c.Valid() && Lists(s) && Owners(s) && Counted(s) && Contents(c, s) && Making(c, s) && FileOk(c, s) &&
      Awareness(c, s)
  }

  lemma InitInv(c: Config, threads: nat)
    requires c.Valid()
    ensures Inv(c, Init(threads))
  {
    assert Finished(Init(threads)) == {};
  }

  // ---------------------------------------------------------------- every step keeps it

  lemma SizeOfRange(s: set<nat>, lo: nat, hi: nat)
    requires lo <= hi && forall i :: i in s ==> lo <= i < hi
    ensures |s| <= hi - lo
    ensures |s| == hi - lo ==> forall i :: lo <= i < hi ==> i in s
    decreases hi - lo
  {
    if lo < hi {
      SizeOfRange(s - {lo}, lo + 1, hi);
      assert |s| == |s - {lo}| + if lo in s then 1 else 0;
      if |s| == hi - lo {
        forall i | lo <= i < hi ensures i in s {
          assert i > lo ==> i in s - {lo};
        }
      }
    } else {
      assert s == {};
    }
  }

  /** When the counters meet, no worker holds an item and none waits for one. */
  lemma ReadyMeansQuiet(c: Config, s: State)
    requires Inv(c, s) && s.numItems <= s.numReady
    ensures Quiet(s) && forall id :: Live(s, id) ==> IsFinished(s, id)
  {
    hide Contents, Making, FileOk, Awareness;
    var lo: nat := |s.created| - s.numItems;
    assert forall id :: id in s.queue ==> Live(s, id) && id !in Finished(s);
    assert forall w :: 0 <= w < |s.workers| && s.workers[w].Busy() ==> HeldBy(s, w, s.workers[w].item);
    assert s.queue != [] ==> s.queue[0] in s.queue;
    SizeOfRange(Finished(s), lo, |s.created|);
    forall id | Live(s, id) ensures IsFinished(s, id) {
      assert id in Finished(s);
    }
  }

  /** The same items are held. */
  ghost predicate SameHeld(s: State, t: State) { forall id :: Held(s, id) <==> Held(t, id) }

  lemma SameFinished(s: State, t: State)
    requires SameHeld(s, t) && s.created == t.created && s.queue == t.queue && s.numItems == t.numItems
    ensures Finished(s) == Finished(t) && forall id :: IsFinished(s, id) <==> IsFinished(t, id)
  {
    assert forall id :: Live(s, id) <==> Live(t, id);
    assert forall id :: IsFinished(s, id) <==> IsFinished(t, id);
  }

  lemma IdleHeld(s: State, w: nat, p: Phase)
    requires w < |s.workers| && !s.workers[w].Busy() && !p.Busy()
    ensures SameHeld(s, Moved(s, w, p))
    ensures forall v, id :: HeldBy(s, v, id) <==> HeldBy(Moved(s, w, p), v, id)
  {
    var t := Moved(s, w, p);
    assert forall v, id :: HeldBy(s, v, id) <==> HeldBy(t, v, id);
  }

  /** Steps that move a worker between phases in which it holds nothing. */
  lemma IdleStep(c: Config, s: State, w: nat, p: Phase)
    requires Inv(c, s) && w < |s.workers| && !s.workers[w].Busy() && !p.Busy()
    requires (p.Asleep? ==> s.queue == []) && (p.Exited? ==> s.done)
    ensures Inv(c, Moved(s, w, p))
  {
    hide FileOf, ClusterFor, Finished, IsFinished, HeldBy, Held;
    var t := Moved(s, w, p);
    IdleHeld(s, w, p);
    SameFinished(s, t);
    assert Lists(t) && Counted(t) && FileOk(c, t);
    assert Owners(t);
    assert Contents(c, t);
    assert Making(c, t);
    if s.queue != [] && s.workers != [] {
      var v :| 0 <= v < |s.workers| && !s.workers[v].Asleep?;
      assert !t.workers[v].Asleep?;
    }
    assert Awareness(c, t);
  }

  /** Taking an item moves it from the list to the worker. */
  lemma TakeHeld(s: State, t: State, w: nat)
    requires Enabled(s, Take(w)) && Owners(s) && t == Moved(s, w, Holding(s.queue[0])).(queue := s.queue[1..])
    ensures Owners(t) && Finished(t) == Finished(s) && forall id :: IsFinished(s, id) <==> IsFinished(t, id)
  {
    var q := s.queue[0];
    assert s.queue == [q] + t.queue;
    assert forall id :: Live(s, id) <==> Live(t, id);
    assert forall v, id :: HeldBy(t, v, id) <==> if v == w then id == q else HeldBy(s, v, id);
    assert HeldBy(t, w, q);
    forall id ensures Held(t, id) <==> Held(s, id) || id == q {
      if Held(s, id) {
        var v :| HeldBy(s, v, id);
        assert HeldBy(t, v, id);
      }
    }
    assert forall i :: 0 <= i < |t.queue| ==> t.queue[i] == s.queue[i + 1];
    assert forall id :: IsFinished(s, id) <==> IsFinished(t, id);
    forall v, u, id | HeldBy(t, v, id) && HeldBy(t, u, id) ensures v == u {
      assert !Held(s, q);
    }
  }

  lemma TakeStep(c: Config, s: State, w: nat)
    requires Inv(c, s) && Enabled(s, Take(w))
    ensures Inv(c, Apply(c, s, Take(w)))
  {
    hide FileOf, ClusterFor, Finished, IsFinished, Owners, HeldBy, Held;
    var t := Apply(c, s, Take(w));
    TakeHeld(s, t, w);
    assert s.queue == [s.queue[0]] + t.queue;
    assert Lists(t) && Counted(t) && FileOk(c, t) && Making(c, t);
    assert Contents(c, t);
    assert !t.workers[w].Asleep?;
    assert Awareness(c, t);
  }

  /** The worker goes on with the item that it has. */
  lemma SameItem(s: State, t: State, w: nat)
    requires w < |s.workers| == |t.workers| && s.workers[w].Busy() && Owners(s)
    requires t.workers == s.workers[w := t.workers[w]] && t.workers[w].Busy() && t.workers[w].item == s.workers[w].item
    requires s.created == t.created && s.queue == t.queue && s.numItems == t.numItems
    ensures Owners(t) && Finished(t) == Finished(s) && forall id :: IsFinished(s, id) <==> IsFinished(t, id)
  {
    assert forall v, id :: HeldBy(s, v, id) <==> HeldBy(t, v, id);
    assert SameHeld(s, t);
    SameFinished(s, t);
    assert forall id :: Live(s, id) <==> Live(t, id);
  }

  lemma BeginStep(c: Config, s: State, w: nat, junk: seq<byte>)
    requires Inv(c, s) && Enabled(s, Begin(w, junk))
    ensures Inv(c, Apply(c, s, Begin(w, junk)))
  {
    hide FileOf, ClusterFor, Finished;
    var t := Apply(c, s, Begin(w, junk));
    assert WorkerOk(c, s, s.workers[w]);
    SameItem(s, t, w);
    assert Lists(t) && Counted(t) && FileOk(c, t) && Making(c, t);
    assert Contents(c, t) by { ChangedBuffer(c, s, t, w); }
    assert !t.workers[w].Asleep?;
    assert Awareness(c, t);
  }

  lemma EndStep(c: Config, s: State, w: nat)
    requires Inv(c, s) && Enabled(s, End(w))
    ensures Inv(c, Apply(c, s, End(w)))
  {
    hide FileOf, ClusterFor, Finished;
    var t := Apply(c, s, End(w));
    assert WorkerOk(c, s, s.workers[w]);
    SameItem(s, t, w);
    assert Lists(t) && Counted(t) && FileOk(c, t) && Making(c, t);
    assert Contents(c, t) by { ChangedBuffer(c, s, t, w); }
    assert !t.workers[w].Asleep?;
    assert Awareness(c, t);
  }

  /** A buffer changed by the worker that holds it: nobody else is concerned. */
  lemma ChangedBuffer(c: Config, s: State, t: State, w: nat)
    requires w < |s.workers| && s.workers[w].Busy() && Owners(s) && Contents(c, s)
    requires |t.workers| == |s.workers| && t.workers == s.workers[w := t.workers[w]] && WorkerOk(c, t, t.workers[w])
    requires t.buffers.Keys == s.buffers.Keys
    requires forall id :: id in s.buffers && id != s.workers[w].item ==> t.buffers[id] == s.buffers[id]
    requires t.created == s.created && t.queue == s.queue && t.ordered == s.ordered && !t.fault
    requires forall id :: IsFinished(s, id) <==> IsFinished(t, id)
    ensures Contents(c, t)
  {
    hide Live;
    var mine := s.workers[w].item;
    assert HeldBy(s, w, mine);
    forall i | 0 <= i < |t.queue| ensures Untouched(t, t.queue[i]) {
      assert Untouched(s, s.queue[i]) && !Held(s, s.queue[i]);
    }
    forall v | 0 <= v < |t.workers| ensures WorkerOk(c, t, t.workers[v]) {
      if v != w && s.workers[v].Busy() {
        assert HeldBy(s, v, s.workers[v].item);
        assert WorkerOk(c, s, s.workers[v]);
      }
    }
    assert !IsFinished(s, mine);
  }

  lemma ReadyHeld(s: State, t: State, w: nat)
    requires w < |s.workers| && s.workers[w].Busy() && Owners(s) && t.workers == s.workers[w := Awake]
    requires s.created == t.created && s.queue == t.queue && s.numItems == t.numItems
    ensures var id := s.workers[w].item;
      Owners(t) && id !in Finished(s) && Finished(t) == Finished(s) + {id} &&
        forall k :: IsFinished(t, k) <==> IsFinished(s, k) || k == id
  {
    var id := s.workers[w].item;
    assert HeldBy(s, w, id);
    assert forall k :: Live(s, k) <==> Live(t, k);
    assert forall v, k :: HeldBy(t, v, k) <==> v != w && HeldBy(s, v, k);
    forall k ensures Held(t, k) <==> Held(s, k) && k != id {
      if Held(s, k) && k != id {
        var v :| HeldBy(s, v, k);
        assert HeldBy(t, v, k);
      }
    }
    assert id !in s.queue by {
      forall i | 0 <= i < |s.queue| ensures s.queue[i] != id { assert !Held(s, s.queue[i]); }
    }
    assert forall k :: IsFinished(t, k) <==> IsFinished(s, k) || k == id;
  }

  lemma ReadyStep(c: Config, s: State, w: nat)
    requires Inv(c, s) && Enabled(s, Ready(w))
    ensures Inv(c, Apply(c, s, Ready(w)))
  {
    hide FileOf, ClusterFor, Finished, IsFinished, Owners, HeldBy, Held;
    var t := Apply(c, s, Ready(w));
    assert WorkerOk(c, s, s.workers[w]);
    ReadyHeld(s, t, w);
    assert Lists(t) && Counted(t) && FileOk(c, t) && Making(c, t);
    assert Contents(c, t) by {
      assert forall v :: 0 <= v < |t.workers| ==> WorkerOk(c, t, s.workers[v]);
    }
    assert !t.workers[w].Asleep?;
    assert Awareness(c, t);
  }

  lemma FileStable(c: Config, a: seq<Item>, b: seq<Item>, n: nat, out: seq<Cluster>)
    requires FileOf(c, a, n, out) && |a| <= |b| && forall i :: 0 <= i < |a| ==> a[i] == b[i]
    ensures FileOf(c, b, n, out)
  {
    hide ClusterFor;
    forall k | 0 <= k < |out| ensures FileAt(c, b, n, out, k) {
      assert FileAt(c, a, n, out, k);
      ClusterStable(c, a, b, k * ITEMS_PER_CLUSTER, Min((k + 1) * ITEMS_PER_CLUSTER, n));
    }
  }

  lemma ClusterStable(c: Config, a: seq<Item>, b: seq<Item>, lo: nat, hi: nat)
    requires lo <= hi <= |a| <= |b| && forall i :: 0 <= i < |a| ==> a[i] == b[i]
    ensures ClusterFor(c, a, lo, hi) == ClusterFor(c, b, lo, hi)
  {}

  /** Queueing one more item. */
  lemma AddHeld(c: Config, s: State, t: State)
    requires Lists(s) && Owners(s) && |t.workers| == |s.workers| && |t.created| == |s.created| + 1
    requires t.numItems == s.numItems + 1
    requires forall w :: 0 <= w < |s.workers| ==>
      t.workers[w] == s.workers[w] || (!t.workers[w].Busy() && !s.workers[w].Busy())
    requires t.queue == s.queue + [|s.created|] || (s.queue == t.queue == [])
    ensures Owners(t)
    ensures var id := |s.created|;
      id !in Finished(s) && Finished(t) == if t.queue == [] then Finished(s) + {id} else Finished(s)
    ensures !IsFinished(s, |s.created|)
    ensures forall k :: IsFinished(t, k) <==> IsFinished(s, k) || (t.queue == [] && k == |s.created|)
  {
    var id := |s.created|;
    assert forall k :: Live(t, k) <==> Live(s, k) || k == id;
    assert forall v, k :: HeldBy(t, v, k) <==> HeldBy(s, v, k);
    assert SameHeld(s, t);
    assert !Held(s, id);
    assert id !in s.queue;
    assert forall k :: IsFinished(t, k) <==> IsFinished(s, k) || (t.queue == [] && k == id);
  }

  lemma AddStep(c: Config, s: State, item: Item, last: bool, wake: nat)
    requires Inv(c, s) && Enabled(s, Add(item, last, wake))
    ensures Inv(c, Apply(c, s, Add(item, last, wake)))
  {
    hide FileOf, ClusterFor, Finished, IsFinished, Owners, HeldBy, Held;
    var t := Apply(c, s, Add(item, last, wake));
    AddHeld(c, s, t);
    FileStable(c, s.created, t.created, |s.created| - s.numItems, s.out);
    assert Lists(t) && Counted(t) && FileOk(c, t) && Making(c, t);
    AddContents(c, s, item, last, wake);
    AddAware(c, s, item, last, wake);
  }

  lemma AddContents(c: Config, s: State, item: Item, last: bool, wake: nat)
    requires c.Valid() && Lists(s) && Contents(c, s) && Enabled(s, Add(item, last, wake)) && (c.level == 0 ==> Quiet(s))
    requires var t := Apply(c, s, Add(item, last, wake));
      !IsFinished(s, |s.created|) && forall k :: IsFinished(t, k) <==>
        IsFinished(s, k) || (t.queue == [] && k == |s.created|)
    ensures Contents(c, Apply(c, s, Add(item, last, wake)))
  {
    hide IsFinished, Held, Untouched, Compressed, WorkerOk;
    var t := Apply(c, s, Add(item, last, wake));
    NewBuffer(c, s, t, item);
    forall v | 0 <= v < |t.workers| ensures WorkerOk(c, t, t.workers[v]) {
      assert WorkerOk(c, s, s.workers[v]);
      WorkerStill(c, s, t, item, s.workers[v]);
      AwakeOk(c, t);
    }
    forall i | 0 <= i < |t.ordered|
      ensures t.ordered[i] in t.buffers && (IsFinished(t, t.ordered[i]) ==> Compressed(c, t, t.ordered[i]))
    {
      assert i < |s.ordered| ==> t.ordered[i] == s.ordered[i];
    }
  }

  /** The new buffer is in place, and the others are as they were. */
  lemma NewBuffer(c: Config, s: State, t: State, item: Item)
    requires c.Valid() && t.created == s.created + [item] && t.buffers == s.buffers[|s.created| := item.buf]
    ensures Untouched(t, |s.created|) && (c.level == 0 ==> Compressed(c, t, |s.created|))
    ensures forall id :: Untouched(s, id) ==> Untouched(t, id)
    ensures forall id :: Compressed(c, s, id) ==> Compressed(c, t, id)
  {}

  lemma WorkerStill(c: Config, s: State, t: State, item: Item, p: Phase)
    requires c.Valid() && t.created == s.created + [item] && t.buffers == s.buffers[|s.created| := item.buf]
    requires WorkerOk(c, s, p)
    ensures WorkerOk(c, t, p)
  {}

  lemma AwakeOk(c: Config, t: State)
    ensures WorkerOk(c, t, Awake)
  {}

  lemma AddAware(c: Config, s: State, item: Item, last: bool, wake: nat)
    requires Awareness(c, s) && Enabled(s, Add(item, last, wake))
    ensures Awareness(c, Apply(c, s, Add(item, last, wake)))
  {
    var t := Apply(c, s, Add(item, last, wake));
    if t.queue != [] && t.workers != [] {
      assert if At(s, wake, Asleep) then !t.workers[wake].Asleep? else !t.workers[0].Asleep?;
    }
  }

  lemma MainStep(c: Config, s: State, e: Event)
    requires Inv(c, s) && (e.Last? || e.Close?) && Enabled(s, e)
    ensures Inv(c, Apply(c, s, e))
  {
    hide FileOf, ClusterFor, Finished, IsFinished, HeldBy, Held;
    var t := Apply(c, s, e);
    AwakeHeld(s, t);
    SameFinished(s, t);
    assert Lists(t) && Owners(t) && Counted(t) && FileOk(c, t) && Making(c, t);
    assert Contents(c, t) by {
      forall w | 0 <= w < |t.workers| ensures WorkerOk(c, t, t.workers[w]) {
        assert WorkerOk(c, s, s.workers[w]);
      }
    }
    if t.queue != [] && t.workers != [] {
      var v :| 0 <= v < |s.workers| && !s.workers[v].Asleep?;
      assert !t.workers[v].Asleep?;
    }
  }

  lemma AwakeHeld(s: State, t: State)
    requires |s.workers| == |t.workers|
    requires forall w :: 0 <= w < |s.workers| ==>
      t.workers[w] == s.workers[w] || (!t.workers[w].Busy() && !s.workers[w].Busy())
    ensures SameHeld(s, t) && forall w, id :: HeldBy(s, w, id) <==> HeldBy(t, w, id)
  {
    assert forall v, id :: HeldBy(s, v, id) <==> HeldBy(t, v, id);
  }

  /** With nobody at work, the index lists the packed buffers. */
  lemma IndexStep(c: Config, s: State)
    requires Inv(c, s) && Enabled(s, WriteIndex) && s.ordered != []
    ensures Inv(c, Apply(c, s, WriteIndex))
  {
    hide FileOf, Finished, HeldBy, Held;
    var t := Apply(c, s, WriteIndex);
    ReadyMeansQuiet(c, s);
    AwakeHeld(s, t);
    SameFinished(s, t);
    assert Lists(t) && Owners(t) && Counted(t) && FileOk(c, t) && Awareness(c, t);
    assert Contents(c, t) by {
      assert forall w :: 0 <= w < |t.workers| ==> WorkerOk(c, t, t.workers[w]);
    }
    assert IndexOf(s) == ClusterFor(c, s.created, |s.created| - s.numItems, |s.created|).index by {
      forall i | 0 <= i < |s.ordered| ensures BufferOf(s, s.ordered[i]) == c.pack(s.created[s.ordered[i]].buf) {
        assert Live(s, s.ordered[i]);
        assert Compressed(c, s, s.ordered[i]);
      }
    }
    assert Making(c, t);
  }

  lemma BodyStep(c: Config, s: State)
    requires Inv(c, s) && Enabled(s, WriteBody)
    ensures Inv(c, Apply(c, s, WriteBody))
  {
    hide FileOf, Finished, HeldBy, Held;
    var t := Apply(c, s, WriteBody);
    AwakeHeld(s, t);
    SameFinished(s, t);
    var id := s.ordered[0];
    assert Compressed(c, s, id) by { AllFinished(s, id); }
    assert Lists(t) && Owners(t) && Counted(t) && FileOk(c, t) && Awareness(c, t);
    assert Contents(c, t) by {
      assert forall w :: 0 <= w < |t.workers| ==> WorkerOk(c, t, t.workers[w]);
      assert forall k :: k != id && Compressed(c, s, k) ==> Compressed(c, t, k);
    }
    var want := ClusterFor(c, s.created, |s.created| - s.numItems, |s.created|).bodies;
    var k := |s.main.cluster.bodies|;
    assert want[k] == c.pack(s.created[id].buf);
    assert want[..k + 1] == want[..k] + [want[k]];
    assert Making(c, t);
  }

  lemma AllFinished(s: State, id: nat)
    requires Quiet(s) && Live(s, id)
    ensures IsFinished(s, id)
  {}

  /** Between clusters nothing is live, so nothing is held and no late count can arrive. */
  lemma BetweenClusters(s: State, t: State)
    requires Quiet(s) && t.workers == s.workers && t.queue == s.queue && t.numItems == 0
    ensures Owners(t) && Finished(t) == {} && forall id :: !IsFinished(t, id)
  {
    assert forall w, id :: !HeldBy(t, w, id);
    assert forall id :: !Live(t, id);
  }

  lemma FileMore(c: Config, created: seq<Item>, n: nat, out: seq<Cluster>)
    requires FileOf(c, created, n, out) && |out| * ITEMS_PER_CLUSTER == n < |created| <= n + ITEMS_PER_CLUSTER
    ensures FileOf(c, created, |created|, out + [ClusterFor(c, created, n, |created|)])
  {
    var more := out + [ClusterFor(c, created, n, |created|)];
    forall k | 0 <= k < |more| ensures FileAt(c, created, |created|, more, k) {
      if k < |out| {
        assert FileAt(c, created, n, out, k);
        assert (k + 1) * ITEMS_PER_CLUSTER <= |out| * ITEMS_PER_CLUSTER;
      }
    }
  }

  lemma DoneStep(c: Config, s: State)
    requires Inv(c, s) && Enabled(s, WriteDone)
    ensures Inv(c, Apply(c, s, WriteDone))
  {
    hide FileOf, Finished, IsFinished, HeldBy, Held, Live, Owners;
    var t := Apply(c, s, WriteDone);
    BetweenClusters(s, t);
    var n: nat := |s.created| - s.numItems;
    FileMore(c, s.created, n, s.out);
    assert s.main.cluster == ClusterFor(c, s.created, n, |s.created|);
    assert Lists(t) && Counted(t) && FileOk(c, t) && Awareness(c, t) && Making(c, t);
    assert Contents(c, t) by {
      assert forall w :: 0 <= w < |t.workers| ==> WorkerOk(c, t, t.workers[w]);
    }
  }

  lemma NothingStep(c: Config, s: State)
    requires Inv(c, s) && Enabled(s, WriteIndex) && s.ordered == []
    ensures Inv(c, Apply(c, s, WriteIndex))
  {
    hide FileOf, Finished, HeldBy, Held;
    var t := Apply(c, s, WriteIndex);
    ReadyMeansQuiet(c, s);
    BetweenClusters(s, t);
    assert Lists(t) && Counted(t) && FileOk(c, t) && Awareness(c, t) && Making(c, t);
    assert Contents(c, t) by {
      assert forall w :: 0 <= w < |t.workers| ==> WorkerOk(c, t, t.workers[w]);
    }
  }

  lemma StepInv(c: Config, s: State, e: Event)
    requires Inv(c, s) && Enabled(s, e)
    ensures Inv(c, Apply(c, s, e))
  {
    hide Inv, Added, Indexed, Bodied;
    match e
    case Add(item, last, wake) => AddStep(c, s, item, last, wake);
    case Last => MainStep(c, s, e);
    case WriteIndex => if s.ordered == [] { NothingStep(c, s); } else { IndexStep(c, s); }
    case WriteBody => BodyStep(c, s);
    case WriteDone => DoneStep(c, s);
    case Close => MainStep(c, s, e);
    case Wake(w) => IdleStep(c, s, w, Awake);
    case Sleep(w) => IdleStep(c, s, w, Asleep);
    case Exit(w) => IdleStep(c, s, w, Exited);
    case Take(w) => TakeStep(c, s, w);
    case Begin(w, junk) => BeginStep(c, s, w, junk);
    case End(w) => EndStep(c, s, w);
    case Ready(w) => ReadyStep(c, s, w);
  }

  /** Every run, of any length, keeps it. */
  lemma {:induction false} RunInv(c: Config, s: State, events: seq<Event>)
    requires Inv(c, s) && IsRun(c, s, events)
    ensures Inv(c, After(c, s, events))
    decreases |events|
  {
    hide Inv, Enabled, Apply;
    if events != [] {
      StepInv(c, s, events[0]);
      RunInv(c, Apply(c, s, events[0]), events[1..]);
    }
  }

  // ---------------------------------------------------------------- what a dump can rely on

  /**
    For any number of threads and any interleaving: no freed buffer is touched, num_ready
    counts exactly the finished items, a cluster is written only while no worker has an
    item, no count is outstanding when the next cluster begins, and the complete file is
    the one that a single thread would write.
   */
  lemma AnyInterleaving(c: Config, threads: nat, events: seq<Event>)
    requires c.Valid() && IsRun(c, Init(threads), events)
    ensures var s := After(c, Init(threads), events);
      && !s.fault && s.numReady == |Finished(s)| && s.numReady <= s.numItems <= ITEMS_PER_CLUSTER
      && (s.main.Writing? ==> Quiet(s))
      && (s.numItems == 0 ==> Quiet(s) && s.numReady == 0)
      && (s.main.Closing? ==> FileOf(c, s.created, |s.created|, s.out))
  {
    var s := After(c, Init(threads), events);
    InitInv(c, threads);
    RunInv(c, Init(threads), events);
    SizeOfRange(Finished(s), |s.created| - s.numItems, |s.created|);
    if s.numItems == 0 { ReadyMeansQuiet(c, s); }
  }

  /** Two complete dumps of the same items leave the same file, however their threads ran. */
  lemma SameFile(c: Config, m: nat, n: nat, a: seq<Event>, b: seq<Event>)
    requires c.Valid() && IsRun(c, Init(m), a) && IsRun(c, Init(n), b)
    requires After(c, Init(m), a).main.Closing? && After(c, Init(n), b).main.Closing?
    requires After(c, Init(m), a).created == After(c, Init(n), b).created
    ensures After(c, Init(m), a).out == After(c, Init(n), b).out
  {
    hide Init, After, IsRun;
    AnyInterleaving(c, m, a);
    AnyInterleaving(c, n, b);
    OneFile(c, After(c, Init(m), a).created, After(c, Init(m), a).out, After(c, Init(n), b).out);
  }

  lemma OneFile(c: Config, created: seq<Item>, a: seq<Cluster>, b: seq<Cluster>)
    requires FileOf(c, created, |created|, a) && FileOf(c, created, |created|, b)
    ensures a == b
  {
    hide ClusterFor;
    OneCount(|a|, |b|, |created|);
    forall k | 0 <= k < |a| ensures a[k] == b[k] {
      assert FileAt(c, created, |created|, a, k) && FileAt(c, created, |created|, b, k);
    }
  }

  lemma OneCount(a: nat, b: nat, n: nat)
    requires a * ITEMS_PER_CLUSTER < n + ITEMS_PER_CLUSTER && n <= a * ITEMS_PER_CLUSTER
    requires b * ITEMS_PER_CLUSTER < n + ITEMS_PER_CLUSTER && n <= b * ITEMS_PER_CLUSTER
    ensures a == b
  {
    NotLess(a, b, n);
    NotLess(b, a, n);
  }

  lemma NotLess(a: nat, b: nat, n: nat)
    requires n <= a * ITEMS_PER_CLUSTER && b * ITEMS_PER_CLUSTER < n + ITEMS_PER_CLUSTER
    ensures b <= a
  {
    assert b * ITEMS_PER_CLUSTER < (a + 1) * ITEMS_PER_CLUSTER;
  }

  function Weight(p: Phase): nat {
    match p
    case Holding(_) => 4
    case Packing(_, _) => 3
    case Packed(_) => 2
    case Awake => 1
    case _ => 0
  }

  function Weights(workers: seq<Phase>): nat {
    if workers == [] then 0 else Weight(workers[0]) + Weights(workers[1..])
  }

  /** What the workers still have to do. */
  function Work(s: State): nat { 5 * |s.queue| + Weights(s.workers) }

  lemma {:induction false} WeightsUpdate(workers: seq<Phase>, w: nat, p: Phase)
    requires w < |workers|
    ensures Weights(workers[w := p]) + Weight(workers[w]) == Weights(workers) + Weight(p)
  {
    if w > 0 {
      WeightsUpdate(workers[1..], w - 1, p);
      assert workers[w := p][1..] == workers[1..][w - 1 := p];
    } else {
      assert workers[0 := p][1..] == workers[1..];
    }
  }

  predicate WorkerStep(e: Event) { e.Sleep? || e.Exit? || e.Take? || e.Begin? || e.End? || e.Ready? }

  /** Each step of a worker, waking aside, uses up some of the work. */
  lemma WorkShrinks(c: Config, s: State, e: Event)
    requires Enabled(s, e) && WorkerStep(e)
    ensures Work(Apply(c, s, e)) < Work(s)
  {
    var t := Apply(c, s, e);
    WeightsUpdate(s.workers, e.w, t.workers[e.w]);
  }

  /** The next step of a worker that is not asleep. */
  function NextOf(s: State, w: nat): Event
    requires w < |s.workers|
  {
    match s.workers[w]
    case Holding(_) => Begin(w, [])
    case Packing(_, _) => End(w)
    case Packed(_) => Ready(w)
    case _ => if s.queue != [] then Take(w) else if s.done then Exit(w) else Sleep(w)
  }

  /**
    No deadlock and no lost wake-up: while the main thread waits, either it can go on or
    some worker can take a step, which uses up work.  After the end the same holds until
    every worker has left.
   */
  lemma NeverStuck(c: Config, threads: nat, events: seq<Event>) returns (e: Event)
    requires c.Valid() && IsRun(c, Init(threads), events) && (c.level > 0 ==> threads > 0)
    requires var s := After(c, Init(threads), events);
      !s.main.Running? && !(s.done && forall w :: 0 <= w < |s.workers| ==> s.workers[w].Exited?)
    ensures var s := After(c, Init(threads), events);
      Enabled(s, e) && (!WorkerStep(e) || Work(Apply(c, s, e)) < Work(s))
    ensures !e.Wake? && !e.Add? && !e.Last?
  {
    var s := After(c, Init(threads), events);
    InitInv(c, threads);
    RunInv(c, Init(threads), events);
    SameThreads(c, Init(threads), events);
    e := Possible(c, s);
    if WorkerStep(e) { WorkShrinks(c, s, e); }
  }

  lemma {:induction false} SameThreads(c: Config, s: State, events: seq<Event>)
    requires IsRun(c, s, events)
    ensures |After(c, s, events).workers| == |s.workers|
    ensures (s.done ==> NoSleeper(s)) ==> (After(c, s, events).done ==> NoSleeper(After(c, s, events)))
    decreases |events|
  {
    if events != [] { SameThreads(c, Apply(c, s, events[0]), events[1..]); }
  }

  ghost predicate NoSleeper(s: State) { forall w :: 0 <= w < |s.workers| ==> !s.workers[w].Asleep? }

  lemma Possible(c: Config, s: State) returns (e: Event)
    requires Inv(c, s) && (c.level > 0 ==> s.workers != []) && (s.done ==> NoSleeper(s))
    requires !s.main.Running? && !(s.done && forall w :: 0 <= w < |s.workers| ==> s.workers[w].Exited?)
    ensures Enabled(s, e) && !e.Wake? && !e.Add? && !e.Last?
  {
    hide Contents, Making, FileOk;
    match s.main
    case Writing(_, _) => e := if s.ordered == [] then WriteDone else WriteBody;
    case Closing =>
      if !s.done {
        e := Close;
      } else {
        var w :| 0 <= w < |s.workers| && !s.workers[w].Exited?;
        e := NextOf(s, w);
      }
    case Waiting(_) =>
      if s.ordered == [] || s.numItems <= s.numReady {
        e := WriteIndex;
      } else {
        var w := Worker(c, s);
        e := NextOf(s, w);
      }
  }

  /** While something is not counted, some worker is not asleep. */
  lemma Worker(c: Config, s: State) returns (w: nat)
    requires Inv(c, s) && (c.level > 0 ==> s.workers != []) && s.main.Waiting? && s.numReady < s.numItems
    ensures w < |s.workers| && !s.workers[w].Asleep? && !s.workers[w].Exited?
  {
    hide Contents, Making, FileOk;
    if s.queue != [] && s.workers != [] {
      w :| w < |s.workers| && !s.workers[w].Asleep?;
    } else if v :| 0 <= v < |s.workers| && s.workers[v].Busy() {
      w := v;
    } else {
      assert Quiet(s);
      NoneMissing(s);
      assert false;
    }
  }

  lemma NoneMissing(s: State)
    requires Quiet(s) && s.numItems <= |s.created|
    ensures |Finished(s)| == s.numItems
  {
    var lo: nat := |s.created| - s.numItems;
    assert forall id :: Live(s, id) ==> IsFinished(s, id);
    assert forall id :: id in Finished(s) <==> lo <= id < |s.created|;
    FullRange(Finished(s), lo, |s.created|);
  }

  lemma {:induction false} FullRange(s: set<nat>, lo: nat, hi: nat)
    requires lo <= hi && forall i :: i in s <==> lo <= i < hi
    ensures |s| == hi - lo
    decreases hi - lo
  {
    if lo < hi {
      FullRange(s - {lo}, lo + 1, hi);
    } else {
      assert s == {};
    }
  }
}
