/**
 The multi-core receive path: one dispatcher, one bounded FIFO ring per worker, and the workers,
 as a state machine whose steps interleave in any order.
 */
module RxDispatch {
  import opened Bytes
  import opened Frames
  import Bits

  /** The dispatcher waits for a burst, routes one, or enqueues worker queue after worker queue. */
  datatype Phase = Idle | Routing | Flushing(next: nat)

  datatype State = State(
    workers: nat,
    capacity: nat,
    arrived: seq<Mbuf>,
    pending: seq<Mbuf>,
    queue: seq<seq<Mbuf>>,
    phase: Phase,
    ring: seq<seq<Mbuf>>,
    batch: seq<seq<Mbuf>>,
    todo: seq<seq<Mbuf>>,
    done: seq<seq<Mbuf>>,
    handled: seq<Mbuf>,
    dropped: seq<Mbuf>,
    ringFull: nat)

  /** The key that the dispatcher reads from a frame, reduced to the workers. */
  function Worker(workers: nat, m: Mbuf): (w: nat)
    requires workers > 0
    ensures w < workers
  {
    StreamOf(m).key % workers
  }

  /** The dispatcher masks the key; after the start-up check of the worker count that is the remainder. */
  lemma WorkerIsMask(workers: nat, m: Mbuf)
    requires workers > 0 && Bits.And(workers, workers - 1) == 0
    ensures Bits.And(StreamOf(m).key, workers - 1) == Worker(workers, m)
  {
    Bits.PowerOfTwoTest(workers);
    var k: nat :| workers == Bits.Pow2(k);
    Bits.MaskIsMod(StreamOf(m).key, k);
  }

  function Empty(n: nat): (s: seq<seq<Mbuf>>)
    ensures |s| == n && forall i :: 0 <= i < n ==> s[i] == []
  {
    seq(n, _ => [])
  }

  function Init(workers: nat, capacity: nat): (s: State)
  {
    State(workers, capacity, [], [], Empty(workers), Idle, Empty(workers), Empty(workers), Empty(workers), Empty(workers),
          [], [], 0)
  }

  /**
   Receive: a burst from the NIC.  Route: the next buffer goes to its worker's queue.
   Enqueue: one queue is offered to its ring, which takes the first `taken`; the rest is freed.
   Dequeue: a worker takes a batch from its ring.  Handle: its pipeline handles the next frame of the
   batch, in pipeline order.  Finish: when all are handled it frees the batch.
   */
  datatype Step =
    | Receive(packets: seq<Packet>)
    | Route
    | Enqueue(taken: nat)
    | Dequeue(worker: nat, taken: nat)
    | Handle(worker: nat)
    | Finish(worker: nat)

  predicate Shaped(s: State)
  {
    s.workers > 0 && |s.queue| == |s.ring| == |s.batch| == |s.todo| == |s.done| == s.workers
  }

  predicate Enabled(s: State, step: Step)
    requires Shaped(s)
  {
    match step
    case Receive(packets) => s.phase.Idle? && 0 < |packets| <= RX_BURST
    case Route => s.phase.Routing? && s.pending != []
    case Enqueue(taken) =>
      var i := NextQueue(s);
      && (s.phase.Flushing? || (s.phase.Routing? && s.pending == [])) && i < s.workers
      && taken <= |s.queue[i]| && |s.ring[i]| + taken <= s.capacity
    case Dequeue(w, taken) => w < s.workers && s.batch[w] == [] && 0 < taken <= RX_BURST && taken <= |s.ring[w]|
    case Handle(w) => w < s.workers && s.todo[w] != []
    case Finish(w) => w < s.workers && s.batch[w] != [] && s.todo[w] == []
  }

  function NextQueue(s: State): (i: nat)
  {
    if s.phase.Flushing? then s.phase.next else 0
  }

  predicate AllEmpty(q: seq<seq<Mbuf>>)
  {
    forall i :: 0 <= i < |q| ==> q[i] == []
  }

  function Numbered(packets: seq<Packet>, start: nat): (ms: seq<Mbuf>)
    ensures |ms| == |packets|
    ensures forall i :: 0 <= i < |packets| ==> ms[i] == Mbuf(start + i, packets[i])
  {
    seq(|packets|, i requires 0 <= i < |packets| => Mbuf(start + i, packets[i]))
  }

  function Execute(s: State, step: Step): (r: State)
    requires Shaped(s) && Enabled(s, step)
    ensures Shaped(r) && r.workers == s.workers && r.capacity == s.capacity
  {
    match step
    case Receive(packets) => s.(pending := Numbered(packets, |s.arrived|), phase := Routing)
    case Route =>
      var m := s.pending[0];
      var w := Worker(s.workers, m);
      s.(pending := s.pending[1..], arrived := s.arrived + [m], queue := s.queue[w := s.queue[w] + [m]])
    case Enqueue(taken) =>
      var i := NextQueue(s);
      var q := s.queue[i];
      s.(ring := s.ring[i := s.ring[i] + q[..taken]],
         dropped := s.dropped + q[taken..],
         ringFull := s.ringFull + |q| - taken,
         queue := s.queue[i := []],
         phase := if i + 1 == s.workers then Idle else Flushing(i + 1))
    case Dequeue(w, taken) =>
      var taking := s.ring[w][..taken];
      s.(batch := s.batch[w := taking], todo := s.todo[w := PipelineOrder(taking)], ring := s.ring[w := s.ring[w][taken..]])
    case Handle(w) =>
      s.(handled := s.handled + [s.todo[w][0]], todo := s.todo[w := s.todo[w][1..]])
    case Finish(w) =>
      s.(done := s.done[w := s.done[w] + s.batch[w]], batch := s.batch[w := []])
  }

  /** The state after a sequence of steps, if each was enabled in its turn. */
  function Run(s: State, steps: seq<Step>): (r: Option<State>)
    requires Shaped(s)
    ensures r.Some? ==> Shaped(r.value) && r.value.workers == s.workers
  {
    if steps == [] then Some(s)
    else
      var before := Run(s, steps[..|steps| - 1]);
      if before.Some? && Enabled(before.value, steps[|steps| - 1])
      then Some(Execute(before.value, steps[|steps| - 1])) else None
  }

  /** Some interleaving leads to this state. */
  ghost predicate Reachable(s: State)
  {
    exists workers: nat, capacity: nat, steps :: workers > 0 && Run(Init(workers, capacity), steps) == Some(s)
  }

  // ---------------------------------------------------------------- the invariant

  /** All that worker `w` has been given, oldest first. */
  function Chain(s: State, w: nat): (c: seq<Mbuf>)
    requires Shaped(s) && w < s.workers
  {
    s.done[w] + s.batch[w] + s.ring[w] + s.queue[w]
  }

  /** Buffers of `ms` that belong to worker `w` and were not dropped, in order. */
  function Kept(ms: seq<Mbuf>, workers: nat, w: nat, dropped: set<Mbuf>): (r: seq<Mbuf>)
    requires workers > 0
    ensures |r| <= |ms|
  {
    if ms == [] then []
    else
      var m := ms[|ms| - 1];
      Kept(ms[..|ms| - 1], workers, w, dropped) + if Worker(workers, m) == w && m !in dropped then [m] else []
  }

  function Elements(ms: seq<Mbuf>): (r: set<Mbuf>)
  {
    set m | m in ms
  }

  /** Buffers carry their arrival number. */
  ghost predicate InArrivalOrder(ms: seq<Mbuf>, start: nat)
  {
    forall i :: 0 <= i < |ms| ==> ms[i].id == start + i
  }

  ghost predicate Bounded(s: State)
    requires Shaped(s)
  {
    && (forall w :: 0 <= w < s.workers ==> |s.queue[w]| + |s.pending| <= RX_BURST)
    && (forall w :: 0 <= w < s.workers ==> |s.ring[w]| <= s.capacity && |s.batch[w]| <= RX_BURST)
    && (s.phase.Idle? ==> s.pending == [] && AllEmpty(s.queue))
    && (s.phase.Flushing? ==> s.pending == [] && s.phase.next < s.workers)
    && (s.phase.Flushing? ==> forall w :: 0 <= w < s.phase.next ==> s.queue[w] == [])
  }

  ghost predicate Inv(s: State)
  {
    && Shaped(s) && Bounded(s)
    && InArrivalOrder(s.arrived, 0) && InArrivalOrder(s.pending, |s.arrived|)
    && (forall w :: 0 <= w < s.workers ==> Chain(s, w) == Kept(s.arrived, s.workers, w, Elements(s.dropped)))
    && (forall m :: m in s.dropped ==> m in s.arrived)
    && (forall i, j :: 0 <= i < j < |s.dropped| ==> s.dropped[i] != s.dropped[j])
    && s.ringFull == |s.dropped|
  }

  /**
   The frames of a stream that were handled, and those its worker still has to handle, are in arrival
   order those the worker has taken from its ring.
   */
  ghost predicate HandledInOrder(s: State, st: Stream)
    requires Shaped(s)
  {
    var w := st.key % s.workers;
    Only(s.handled, InStream(st)) + Only(s.todo[w], InStream(st)) == Only(s.done[w] + s.batch[w], InStream(st))
  }

  ghost predicate OrderInv(s: State)
  {
    && Shaped(s)
    && (forall w, m :: 0 <= w < s.workers && m in s.todo[w] ==> m in s.batch[w])
    && (forall st :: HandledInOrder(s, st))
  }

  // ---------------------------------------------------------------- facts about Kept

  /** Strictly later arrivals come later. */
  ghost predicate Increasing(ms: seq<Mbuf>)
  {
    forall i, j :: 0 <= i < j < |ms| ==> ms[i].id < ms[j].id
  }

  lemma {:induction false} KeptFacts(ms: seq<Mbuf>, workers: nat, w: nat, d: set<Mbuf>)
    requires workers > 0 && Increasing(ms)
    ensures Increasing(Kept(ms, workers, w, d))
    ensures forall m :: m in Kept(ms, workers, w, d) <==> m in ms && Worker(workers, m) == w && m !in d
  {
    if ms != [] {
      var init, last := ms[..|ms| - 1], ms[|ms| - 1];
      KeptFacts(init, workers, w, d);
      assert ms == init + [last];
      forall m | m in Kept(init, workers, w, d) ensures m.id < last.id {
        assert m in init;
      }
    }
  }

  lemma KeptSnoc(ms: seq<Mbuf>, m: Mbuf, workers: nat, w: nat, d: set<Mbuf>)
    requires workers > 0 && m !in d
    ensures Kept(ms + [m], workers, w, d) == Kept(ms, workers, w, d) + if Worker(workers, m) == w then [m] else []
  {
    assert (ms + [m])[..|ms|] == ms;
  }

  /** A list in arrival order is determined by what it holds. */
  lemma {:induction false} IncreasingUnique(a: seq<Mbuf>, b: seq<Mbuf>)
    requires Increasing(a) && Increasing(b) && Elements(a) == Elements(b)
    ensures a == b
  {
    assert |a| > 0 ==> a[|a| - 1] in Elements(a);
    assert |b| > 0 ==> b[|b| - 1] in Elements(b);
    if a != [] && b != [] {
      var x, y := a[|a| - 1], b[|b| - 1];
      assert x in b && y in a;
      assert x.id <= y.id <= x.id;
      assert x == y;
      InitElements(a);
      InitElements(b);
      IncreasingUnique(a[..|a| - 1], b[..|b| - 1]);
      assert a == a[..|a| - 1] + [x] && b == b[..|b| - 1] + [y];
    }
  }

  lemma InitElements(a: seq<Mbuf>)
    requires Increasing(a) && a != []
    ensures Increasing(a[..|a| - 1]) && Elements(a[..|a| - 1]) == Elements(a) - {a[|a| - 1]}
  {
    assert a == a[..|a| - 1] + [a[|a| - 1]];
  }

  lemma SplitIncreasing(keep: seq<Mbuf>, drop: seq<Mbuf>)
    requires Increasing(keep + drop)
    ensures Increasing(keep) && forall m :: m in keep <==> m in keep + drop && m !in drop
  {
    var all := keep + drop;
    assert forall i :: 0 <= i < |keep| ==> keep[i] == all[i];
    assert forall i :: 0 <= i < |drop| ==> drop[i] == all[|keep| + i];
    forall m | m in keep ensures m !in drop {
      var i :| 0 <= i < |keep| && keep[i] == m;
      assert all[i] == m;
    }
  }

  /** Dropping the newest buffers of one worker shortens that worker's list by them. */
  lemma KeptDrop(ms: seq<Mbuf>, workers: nat, w: nat, d: set<Mbuf>, keep: seq<Mbuf>, drop: seq<Mbuf>)
    requires workers > 0 && Increasing(ms) && Kept(ms, workers, w, d) == keep + drop
    ensures Kept(ms, workers, w, d + Elements(drop)) == keep
  {
    hide Increasing, Kept, Worker;
    KeptFacts(ms, workers, w, d);
    KeptFacts(ms, workers, w, d + Elements(drop));
    SplitIncreasing(keep, drop);
    assert Elements(Kept(ms, workers, w, d + Elements(drop))) == Elements(keep);
    IncreasingUnique(Kept(ms, workers, w, d + Elements(drop)), keep);
  }

  lemma {:induction false} KeptSame(ms: seq<Mbuf>, workers: nat, w: nat, d: set<Mbuf>, e: set<Mbuf>)
    requires workers > 0 && forall m :: m in ms && Worker(workers, m) == w ==> (m in d <==> m in e)
    ensures Kept(ms, workers, w, d) == Kept(ms, workers, w, e)
  {
    if ms != [] {
      assert forall m :: m in ms[..|ms| - 1] ==> m in ms;
      assert ms[|ms| - 1] in ms;
      KeptSame(ms[..|ms| - 1], workers, w, d, e);
    }
  }

  // ---------------------------------------------------------------- every step keeps the invariant

  lemma InitInv(workers: nat, capacity: nat)
    requires workers > 0
    ensures Inv(Init(workers, capacity))
  {
  }

  lemma ReceiveInv(s: State, packets: seq<Packet>)
    requires Inv(s) && Enabled(s, Receive(packets))
    ensures Inv(Execute(s, Receive(packets)))
  {
    var r := Execute(s, Receive(packets));
    assert forall w :: 0 <= w < s.workers ==> Chain(r, w) == Chain(s, w);
  }

  lemma RouteInv(s: State)
    requires Inv(s) && Enabled(s, Route)
    ensures Inv(Execute(s, Route))
  {
    var r := Execute(s, Route);
    var m, d := s.pending[0], Elements(s.dropped);
    assert forall x :: x in s.arrived ==> x.id < |s.arrived|;
    assert m !in s.dropped;
    forall w | 0 <= w < s.workers ensures Chain(r, w) == Kept(r.arrived, r.workers, w, d) {
      KeptSnoc(s.arrived, m, s.workers, w, d);
      assert Chain(s, w) == Kept(s.arrived, s.workers, w, d);
      assert Chain(r, w) == Chain(s, w) + if Worker(s.workers, m) == w then [m] else [];
    }
    RouteShape(s);
  }

  lemma RouteShape(s: State)
    requires Inv(s) && Enabled(s, Route)
    ensures Bounded(Execute(s, Route))
    ensures InArrivalOrder(Execute(s, Route).arrived, 0)
    ensures InArrivalOrder(Execute(s, Route).pending, |Execute(s, Route).arrived|)
    ensures forall m :: m in s.dropped ==> m in Execute(s, Route).arrived
  {
  }

  lemma ArrivalsIncrease(s: State)
    requires Inv(s)
    ensures Increasing(s.arrived)
  {
  }

  lemma EnqueueChains(s: State, taken: nat)
    requires Inv(s) && Enabled(s, Enqueue(taken))
    ensures var r := Execute(s, Enqueue(taken));
            forall w :: 0 <= w < s.workers ==> Chain(r, w) == Kept(r.arrived, r.workers, w, Elements(r.dropped))
  {
    hide Kept, Chain;
    var r := Execute(s, Enqueue(taken));
    forall w | 0 <= w < s.workers ensures Chain(r, w) == Kept(r.arrived, r.workers, w, Elements(r.dropped)) {
      if w == NextQueue(s) {
        EnqueueOwn(s, taken);
      } else {
        EnqueueOther(s, taken, w);
      }
    }
  }

  lemma DroppedBy(s: State, taken: nat)
    requires Shaped(s) && Enabled(s, Enqueue(taken))
    ensures Elements(Execute(s, Enqueue(taken)).dropped) ==
            Elements(s.dropped) + Elements(s.queue[NextQueue(s)][taken..])
  {
  }

  lemma EnqueueOwn(s: State, taken: nat)
    requires Inv(s) && Enabled(s, Enqueue(taken))
    ensures var r := Execute(s, Enqueue(taken));
            Chain(r, NextQueue(s)) == Kept(r.arrived, r.workers, NextQueue(s), Elements(r.dropped))
  {
    hide Kept, Elements;
    var r := Execute(s, Enqueue(taken));
    var i, d := NextQueue(s), Elements(s.dropped);
    var drop := s.queue[i][taken..];
    ArrivalsIncrease(s);
    DroppedBy(s, taken);
    assert s.queue[i] == s.queue[i][..taken] + drop;
    assert Chain(s, i) == Chain(r, i) + drop;
    KeptDrop(s.arrived, s.workers, i, d, Chain(r, i), drop);
  }

  lemma EnqueueOther(s: State, taken: nat, w: nat)
    requires Inv(s) && Enabled(s, Enqueue(taken)) && w < s.workers && w != NextQueue(s)
    ensures var r := Execute(s, Enqueue(taken));
            Chain(r, w) == Kept(r.arrived, r.workers, w, Elements(r.dropped))
  {
    hide Kept;
    var r := Execute(s, Enqueue(taken));
    var i, d := NextQueue(s), Elements(s.dropped);
    var drop := s.queue[i][taken..];
    ArrivalsIncrease(s);
    DroppedBy(s, taken);
    KeptFacts(s.arrived, s.workers, i, d);
    assert Chain(s, i) == Kept(s.arrived, s.workers, i, d);
    assert forall m :: m in drop ==> m in Chain(s, i);
    KeptSame(s.arrived, s.workers, w, d, d + Elements(drop));
    assert Chain(r, w) == Chain(s, w);
  }

  lemma EnqueueDropped(s: State, taken: nat)
    requires Inv(s) && Enabled(s, Enqueue(taken))
    ensures var r := Execute(s, Enqueue(taken));
            && (forall m :: m in r.dropped ==> m in r.arrived)
            && (forall j, k :: 0 <= j < k < |r.dropped| ==> r.dropped[j] != r.dropped[k])
  {
    hide Worker, Kept;
    var r := Execute(s, Enqueue(taken));
    var i, d := NextQueue(s), Elements(s.dropped);
    var drop := s.queue[i][taken..];
    ArrivalsIncrease(s);
    KeptFacts(s.arrived, s.workers, i, d);
    var c := Chain(s, i);
    assert Increasing(c);
    var at := |c| - |drop|;
    assert forall k :: 0 <= k < |drop| ==> drop[k] == c[at + k];
    forall k | 0 <= k < |drop| ensures drop[k] in s.arrived && drop[k] !in s.dropped {
      assert c[at + k] in c;
    }
    assert forall j, k :: 0 <= j < k < |drop| ==> drop[j].id < drop[k].id;
  }

  lemma EnqueueInv(s: State, taken: nat)
    requires Inv(s) && Enabled(s, Enqueue(taken))
    ensures Inv(Execute(s, Enqueue(taken)))
  {
    EnqueueChains(s, taken);
    EnqueueDropped(s, taken);
    EnqueueShape(s, taken);
  }

  lemma EnqueueShape(s: State, taken: nat)
    requires Shaped(s) && Bounded(s) && Enabled(s, Enqueue(taken))
    ensures Bounded(Execute(s, Enqueue(taken)))
  {
  }

  lemma WorkerInv(s: State, step: Step)
    requires Inv(s) && Enabled(s, step) && (step.Dequeue? || step.Handle? || step.Finish?)
    ensures Inv(Execute(s, step))
  {
    var r := Execute(s, step);
    forall w | 0 <= w < s.workers ensures Chain(r, w) == Chain(s, w) {
      if step.Dequeue? && w == step.worker {
        assert s.ring[w] == s.ring[w][..step.taken] + s.ring[w][step.taken..];
      }
    }
  }

  /** Every state reached by any interleaving satisfies the invariant. */
  lemma {:induction false} RunInv(workers: nat, capacity: nat, steps: seq<Step>)
    requires workers > 0 && Run(Init(workers, capacity), steps).Some?
    ensures Inv(Run(Init(workers, capacity), steps).value)
  {
    hide Inv;
    if steps == [] {
      InitInv(workers, capacity);
    } else {
      var init, step := steps[..|steps| - 1], steps[|steps| - 1];
      RunInv(workers, capacity, init);
      var s := Run(Init(workers, capacity), init).value;
      match step
      case Receive(packets) => ReceiveInv(s, packets);
      case Route => RouteInv(s);
      case Enqueue(taken) => EnqueueInv(s, taken);
      case Dequeue(_, _) => WorkerInv(s, step);
      case Handle(_) => WorkerInv(s, step);
      case Finish(_) => WorkerInv(s, step);
    }
  }

  // ---------------------------------------------------------------- every step keeps the order within a stream

  /** A stream's frames of one batch, in pipeline order and in arrival order. */
  lemma StreamOfBatch(batch: seq<Mbuf>, st: Stream)
    ensures Only(PipelineOrder(batch), InStream(st)) == Only(batch, InStream(st))
  {
    hide Only, PipelineOrder, StreamOf;
    PipelineKeepsOrder(batch, st.proto, InStream(st));
  }

  lemma DequeueOrder(s: State, w: nat, taken: nat)
    requires OrderInv(s) && Enabled(s, Dequeue(w, taken))
    ensures OrderInv(Execute(s, Dequeue(w, taken)))
  {
    hide Only, PipelineOrder, StreamOf;
    var r, taking := Execute(s, Dequeue(w, taken)), s.ring[w][..taken];
    PipelineMembers(taking);
    forall st ensures HandledInOrder(r, st) {
      assert HandledInOrder(s, st);
      if st.key % s.workers == w {
        assert s.todo[w] == [] by { assert forall m :: m in s.todo[w] ==> m in s.batch[w]; Nothing(s.todo[w]); }
        assert s.done[w] + [] == s.done[w];
        OnlyNone([], InStream(st));
        StreamOfBatch(taking, st);
        OnlyConcat(s.done[w], taking, InStream(st));
      }
    }
  }

  lemma Nothing(ms: seq<Mbuf>)
    ensures (forall m :: m !in ms) ==> ms == []
  {
    if ms != [] {
      assert ms[0] in ms;
    }
  }

  lemma HandleOrder(s: State, w: nat)
    requires Inv(s) && OrderInv(s) && Enabled(s, Handle(w))
    ensures OrderInv(Execute(s, Handle(w)))
  {
    hide Only, Inv, StreamOf;
    var r, m := Execute(s, Handle(w)), s.todo[w][0];
    assert m in s.batch[w] && Worker(s.workers, m) == w by {
      assert m in s.todo[w];
      BatchOwner(s, w, m);
    }
    forall st ensures HandledInOrder(r, st) {
      assert HandledInOrder(s, st);
      OnlySnoc(s.handled, m, InStream(st));
      if st.key % s.workers == w {
        assert s.todo[w] == [m] + s.todo[w][1..];
        OnlyConcat([m], s.todo[w][1..], InStream(st));
        assert [] + [m] == [m];
        OnlySnoc([], m, InStream(st));
        OnlyNone([], InStream(st));
      }
    }
  }

  lemma BatchOwner(s: State, w: nat, m: Mbuf)
    requires Inv(s) && w < s.workers && m in s.batch[w]
    ensures Worker(s.workers, m) == w
  {
    hide Worker;
    assert m in Chain(s, w);
    ChainHolds(s, w);
  }

  lemma FinishOrder(s: State, w: nat)
    requires OrderInv(s) && Enabled(s, Finish(w))
    ensures OrderInv(Execute(s, Finish(w)))
  {
    hide Only, StreamOf;
    var r := Execute(s, Finish(w));
    forall st ensures HandledInOrder(r, st) {
      assert HandledInOrder(s, st);
      if st.key % s.workers == w {
        assert (s.done[w] + s.batch[w]) + [] == s.done[w] + s.batch[w];
      }
    }
  }

  lemma DispatcherOrder(s: State, step: Step)
    requires OrderInv(s) && Enabled(s, step) && (step.Receive? || step.Route? || step.Enqueue?)
    ensures OrderInv(Execute(s, step))
  {
    hide Only, StreamOf;
    forall st ensures HandledInOrder(Execute(s, step), st) {
      assert HandledInOrder(s, st);
    }
  }

  lemma InitOrder(workers: nat, capacity: nat)
    requires workers > 0
    ensures OrderInv(Init(workers, capacity))
  {
  }

  lemma {:induction false} RunOrder(workers: nat, capacity: nat, steps: seq<Step>)
    requires workers > 0 && Run(Init(workers, capacity), steps).Some?
    ensures OrderInv(Run(Init(workers, capacity), steps).value)
  {
    hide Inv, OrderInv;
    if steps == [] {
      InitOrder(workers, capacity);
    } else {
      var init, step := steps[..|steps| - 1], steps[|steps| - 1];
      RunOrder(workers, capacity, init);
      RunInv(workers, capacity, init);
      var s := Run(Init(workers, capacity), init).value;
      match step
      case Dequeue(w, taken) => DequeueOrder(s, w, taken);
      case Handle(w) => HandleOrder(s, w);
      case Finish(w) => FinishOrder(s, w);
      case _ => DispatcherOrder(s, step);
    }
  }

  // ---------------------------------------------------------------- what it means

  /** Choosing from a worker's share is choosing the undropped ones from all arrivals. */
  lemma {:induction false} KeptOnly(ms: seq<Mbuf>, workers: nat, w: nat, d: set<Mbuf>, f: Mbuf -> bool)
    requires workers > 0 && forall m :: f(m) ==> Worker(workers, m) == w
    ensures Only(Kept(ms, workers, w, d), f) == Only(ms, Alive(f, d))
  {
    hide Worker;
    if ms != [] {
      var init, m := ms[..|ms| - 1], ms[|ms| - 1];
      KeptOnly(init, workers, w, d, f);
      if Worker(workers, m) == w && m !in d {
        OnlySnoc(Kept(init, workers, w, d), m, f);
      } else {
        assert Kept(ms, workers, w, d) == Kept(init, workers, w, d);
      }
    }
  }

  /** Nothing is on its way: dispatcher idle, rings and batches empty. */
  predicate Quiet(s: State)
    requires Shaped(s)
  {
    s.phase.Idle? && AllEmpty(s.ring) && AllEmpty(s.batch)
  }

  /** `f` picks frames of one stream only. */
  ghost predicate Within(f: Mbuf -> bool, st: Stream)
  {
    forall m :: f(m) ==> StreamOf(m) == st
  }

  /**
   Order.  In every reachable state of every interleaving, the frames of one stream (one protocol and
   one dispatch key), or any choice `f` among them, are handled in arrival order: what has been handled
   is a prefix of the arrivals minus the dropped ones, all of it once nothing is on its way; and only
   one worker ever holds them.
   */
  lemma StreamOrder(workers: nat, capacity: nat, steps: seq<Step>, st: Stream, f: Mbuf -> bool)
    requires workers > 0 && Run(Init(workers, capacity), steps).Some? && Within(f, st)
    ensures var s := Run(Init(workers, capacity), steps).value;
            && Only(s.handled, f) <= Only(s.arrived, Alive(f, Elements(s.dropped)))
            && (Quiet(s) ==> Only(s.handled, f) == Only(s.arrived, Alive(f, Elements(s.dropped))))
            && (forall v, m :: 0 <= v < workers && v != st.key % workers && m in Chain(s, v) ==> StreamOf(m) != st)
  {
    hide Inv, OrderInv, Only, Chain, Quiet, StreamOf, Within;
    RunInv(workers, capacity, steps);
    RunOrder(workers, capacity, steps);
    var s := Run(Init(workers, capacity), steps).value;
    StreamPrefix(s, st, f);
    forall v, m | 0 <= v < workers && v != st.key % workers && m in Chain(s, v) ensures StreamOf(m) != st {
      ChainHolds(s, v);
    }
  }

  lemma StreamPrefix(s: State, st: Stream, f: Mbuf -> bool)
    requires Inv(s) && OrderInv(s) && Within(f, st)
    ensures var alive := Only(s.arrived, Alive(f, Elements(s.dropped)));
            Only(s.handled, f) <= alive && (Quiet(s) ==> Only(s.handled, f) == alive)
  {
    hide Only, Elements, StreamOf;
    var w, g := st.key % s.workers, InStream(st);
    KeptOnly(s.arrived, s.workers, w, Elements(s.dropped), f);
    var taken, rest := s.done[w] + s.batch[w], s.ring[w] + s.queue[w];
    assert Chain(s, w) == taken + rest;
    OnlyConcat(taken, rest, f);
    assert HandledInOrder(s, st);
    OnlyOnly(s.handled, g, f);
    OnlyOnly(taken, g, f);
    OnlyPrefix(Only(s.handled, g), Only(taken, g), f);
    if Quiet(s) {
      assert rest == [];
      assert s.todo[w] == [] by { assert forall m :: m in s.todo[w] ==> m in s.batch[w]; Nothing(s.todo[w]); }
      OnlyNone([], g);
      OnlyNone([], f);
      assert Only(s.handled, g) == Only(taken, g);
      assert Only(taken + rest, f) == Only(taken, f);
    }
  }

  lemma ChainHolds(s: State, w: nat)
    requires Inv(s) && w < s.workers
    ensures Increasing(Chain(s, w))
    ensures forall m :: m in Chain(s, w) <==> m in s.arrived && Worker(s.workers, m) == w && m !in s.dropped
  {
    hide Worker;
    ArrivalsIncrease(s);
    KeptFacts(s.arrived, s.workers, w, Elements(s.dropped));
    assert Chain(s, w) == Kept(s.arrived, s.workers, w, Elements(s.dropped));
  }

  /**
   Conservation.  In every reachable state each routed buffer is either dropped once or held once,
   by its own worker, in queue, ring, batch or finished list; nothing else is held; no worker queue
   exceeds a burst; and the ring-full counter is the number of buffers the dispatcher freed.
   */
  lemma BufferConservation(workers: nat, capacity: nat, steps: seq<Step>)
    requires workers > 0 && Run(Init(workers, capacity), steps).Some?
    ensures var s := Run(Init(workers, capacity), steps).value;
            && s.ringFull == |s.dropped|
            && (forall w :: 0 <= w < workers ==> |s.queue[w]| <= RX_BURST && |s.ring[w]| <= capacity)
            && (forall m :: m in s.arrived ==> (m in s.dropped <==> m !in Chain(s, Worker(workers, m))))
            && (forall w, m :: 0 <= w < workers && m in Chain(s, w) ==> m in s.arrived && w == Worker(workers, m))
            && (forall m :: m in s.dropped ==> m in s.arrived)
            && (forall w :: 0 <= w < workers ==> Increasing(Chain(s, w)))
            && (forall i, j :: 0 <= i < j < |s.dropped| ==> s.dropped[i] != s.dropped[j])
  {
    hide Chain;
    RunInv(workers, capacity, steps);
    var s := Run(Init(workers, capacity), steps).value;
    RunCapacity(workers, capacity, steps);
    forall w | 0 <= w < workers
      ensures Increasing(Chain(s, w))
      ensures forall m :: m in Chain(s, w) <==> m in s.arrived && Worker(workers, m) == w && m !in s.dropped
    {
      ChainHolds(s, w);
    }
  }

  lemma {:induction false} RunCapacity(workers: nat, capacity: nat, steps: seq<Step>)
    requires workers > 0 && Run(Init(workers, capacity), steps).Some?
    ensures Run(Init(workers, capacity), steps).value.capacity == capacity
  {
    if steps != [] {
      RunCapacity(workers, capacity, steps[..|steps| - 1]);
    }
  }

  // ---------------------------------------------------------------- one cycle of the dispatcher

  /** The part of a burst that belongs to worker `w`, in order. */
  function Routed(bufs: seq<Mbuf>, workers: nat, w: nat): (r: seq<Mbuf>)
    requires workers > 0
    ensures |r| <= |bufs|
  {
    Kept(bufs, workers, w, {})
  }

  /** The first loop: every buffer is put into its worker's queue. */
  method RouteBurst(bufs: seq<Mbuf>, workers: nat) returns (queues: seq<seq<Mbuf>>)
    requires workers > 0 && Bits.And(workers, workers - 1) == 0 && |bufs| <= RX_BURST
    ensures |queues| == workers
    ensures forall w :: 0 <= w < workers ==> queues[w] == Routed(bufs, workers, w) && |queues[w]| <= RX_BURST
  {
    queues := Empty(workers);
    for i := 0 to |bufs|
      invariant |queues| == workers
      invariant forall w :: 0 <= w < workers ==> queues[w] == Routed(bufs[..i], workers, w)
    {
      assert bufs[..i + 1] == bufs[..i] + [bufs[i]];
      forall w | 0 <= w < workers
        ensures Routed(bufs[..i + 1], workers, w) ==
                Routed(bufs[..i], workers, w) + if Worker(workers, bufs[i]) == w then [bufs[i]] else []
      {
        KeptSnoc(bufs[..i], bufs[i], workers, w, {});
      }
      WorkerIsMask(workers, bufs[i]);
      var idx := Bits.And(StreamOf(bufs[i]).key, workers - 1);
      queues := queues[idx := queues[idx] + [bufs[i]]];
    }
    assert bufs[..|bufs|] == bufs;
  }

  /** One worker's share after its queue was offered to its ring. */
  ghost predicate Shared(enqueued: seq<Mbuf>, freed: seq<Mbuf>, part: seq<Mbuf>, accepts: nat)
  {
    && enqueued + freed == part
    && |enqueued| <= accepts
    && (freed != [] ==> |enqueued| == accepts)
  }

  /**
   The body of the dispatch loop for one burst, with what each ring accepts given: every ring gets
   a prefix of its worker's part of the burst, in order, as long as it accepts; the rest of that
   part is freed and counted.
   */
  method DispatchBurst(bufs: seq<Mbuf>, workers: nat, accepts: seq<nat>)
    returns (enqueued: seq<seq<Mbuf>>, freed: seq<seq<Mbuf>>, lost: nat)
    requires workers > 0 && Bits.And(workers, workers - 1) == 0 && |bufs| <= RX_BURST && |accepts| == workers
    ensures |enqueued| == |freed| == workers
    ensures forall w :: 0 <= w < workers ==> Shared(enqueued[w], freed[w], Routed(bufs, workers, w), accepts[w])
    ensures lost == TotalLength(freed)
  {
    hide Routed;
    var queues := RouteBurst(bufs, workers);
    enqueued, freed, lost := [], [], 0;
    for i := 0 to workers
      invariant |enqueued| == |freed| == i && lost == TotalLength(freed)
      invariant forall w :: 0 <= w < i ==> Shared(enqueued[w], freed[w], queues[w], accepts[w])
    {
      var q := queues[i];
      var queued := if accepts[i] < |q| then accepts[i] else |q|;
      assert Shared(q[..queued], q[queued..], q, accepts[i]) by { assert q == q[..queued] + q[queued..]; }
      assert (freed + [q[queued..]])[..i] == freed;
      enqueued, freed := enqueued + [q[..queued]], freed + [q[queued..]];
      lost := lost + |q| - queued;
    }
  }

  function TotalLength(qs: seq<seq<Mbuf>>): (n: nat)
  {
    if qs == [] then 0 else TotalLength(qs[..|qs| - 1]) + |qs[|qs| - 1]|
  }
}
