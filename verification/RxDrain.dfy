/** Nothing gets stuck: from every reachable state the dispatcher and the workers can handle all they have been given. */
module RxDrain {
  import opened Bytes
  import opened Frames
  import opened RxDispatch
  import RxRefinement

  /** What is still to be done, each buffer weighed by the steps it has before it. */
  function Work(s: State): (n: nat)
    requires Shaped(s)
  {
    7 * |s.pending| + 6 * TotalLength(s.queue) + 4 * TotalLength(s.ring) + TotalLength(s.batch) + TotalLength(s.todo)
    + match s.phase
      case Idle => 0
      case Routing => s.workers + 1
      case Flushing(next) => if next < s.workers then s.workers - next else 0
  }

  lemma {:induction false} TotalUpdate(qs: seq<seq<Mbuf>>, i: nat, q: seq<Mbuf>)
    requires i < |qs|
    ensures TotalLength(qs[i := q]) == TotalLength(qs) - |qs[i]| + |q|
  {
    var n := |qs| - 1;
    if i == n {
      assert qs[i := q][..n] == qs[..n];
    } else {
      assert qs[i := q][..n] == qs[..n][i := q];
      TotalUpdate(qs[..n], i, q);
    }
  }

  lemma OrderSize(batch: seq<Mbuf>)
    ensures |PipelineOrder(batch)| == |batch|
  {
    hide Only, PipelineOrder;
    PipelineStages(batch);
    PipelineSize(batch);
  }

  lemma HandleWork(s: State, w: nat)
    requires Shaped(s) && Enabled(s, Handle(w))
    ensures Work(Execute(s, Handle(w))) < Work(s)
  {
    TotalUpdate(s.todo, w, s.todo[w][1..]);
  }

  lemma FinishWork(s: State, w: nat)
    requires Shaped(s) && Enabled(s, Finish(w))
    ensures Work(Execute(s, Finish(w))) < Work(s)
  {
    TotalUpdate(s.batch, w, []);
  }

  lemma DequeueWork(s: State, w: nat, taken: nat)
    requires Shaped(s) && Enabled(s, Dequeue(w, taken)) && s.todo[w] == []
    ensures Work(Execute(s, Dequeue(w, taken))) < Work(s)
  {
    hide PipelineOrder;
    var taking := s.ring[w][..taken];
    OrderSize(taking);
    TotalUpdate(s.batch, w, taking);
    TotalUpdate(s.todo, w, PipelineOrder(taking));
    TotalUpdate(s.ring, w, s.ring[w][taken..]);
  }

  lemma RouteWork(s: State)
    requires Shaped(s) && Enabled(s, Route)
    ensures Work(Execute(s, Route)) < Work(s)
  {
    var m := s.pending[0];
    var w := Worker(s.workers, m);
    TotalUpdate(s.queue, w, s.queue[w] + [m]);
  }

  lemma EnqueueWork(s: State, taken: nat)
    requires Shaped(s) && Enabled(s, Enqueue(taken))
    ensures Work(Execute(s, Enqueue(taken))) < Work(s)
  {
    var i := NextQueue(s);
    TotalUpdate(s.ring, i, s.ring[i] + s.queue[i][..taken]);
    TotalUpdate(s.queue, i, []);
  }

  /** A step that makes progress and, with rings of at least a burst, drops nothing. */
  lemma SomeStep(s: State) returns (step: Step)
    requires Inv(s) && OrderInv(s) && !Quiet(s)
    ensures Enabled(s, step) && Work(Execute(s, step)) < Work(s)
    ensures Execute(s, step).arrived + Execute(s, step).pending == s.arrived + s.pending
    ensures s.capacity >= RX_BURST ==> Execute(s, step).dropped == s.dropped
  {
    hide Only, PipelineOrder, Chain, Kept, InArrivalOrder, Elements, HandledInOrder, Work, StreamOf;
    if w :| 0 <= w < s.workers && s.todo[w] != [] {
      step := Handle(w);
      HandleWork(s, w);
    } else if w :| 0 <= w < s.workers && s.batch[w] != [] {
      step := Finish(w);
      FinishWork(s, w);
    } else if w :| 0 <= w < s.workers && s.ring[w] != [] {
      var taken := if |s.ring[w]| < RX_BURST then |s.ring[w]| else RX_BURST;
      step := Dequeue(w, taken);
      DequeueWork(s, w, taken);
    } else if s.phase.Routing? && s.pending != [] {
      step := Route;
      RouteWork(s);
    } else {
      var q := s.queue[NextQueue(s)];
      var taken := if |q| < s.capacity then |q| else s.capacity;
      step := Enqueue(taken);
      EnqueueWork(s, taken);
    }
  }

  /**
   Every reachable state can be continued, without another burst, to one in which nothing is on its way: all that
   was received has then been routed, and nothing more is dropped if a ring holds at least a burst.  So by
   StreamOrder every frame of a stream that was not dropped is then handled.
   */
  lemma Drain(workers: nat, capacity: nat, steps: seq<Step>) returns (all: seq<Step>)
    requires workers > 0 && Run(Init(workers, capacity), steps).Some?
    ensures steps <= all && Run(Init(workers, capacity), all).Some?
    ensures var s, t := Run(Init(workers, capacity), steps).value, Run(Init(workers, capacity), all).value;
            && Quiet(t) && t.arrived == s.arrived + s.pending && t.pending == []
            && (capacity >= RX_BURST ==> t.dropped == s.dropped)
    decreases Work(Run(Init(workers, capacity), steps).value)
  {
    hide Inv, OrderInv, Work, Enabled, Execute, Quiet;
    var s := Run(Init(workers, capacity), steps).value;
    RunInv(workers, capacity, steps);
    RunOrder(workers, capacity, steps);
    RunCapacity(workers, capacity, steps);
    if Quiet(s) {
      QuietPending(s);
      all := steps;
    } else {
      var step := SomeStep(s);
      RxRefinement.RunSnoc(Init(workers, capacity), steps, step);
      all := Drain(workers, capacity, steps + [step]);
    }
  }

  lemma QuietPending(s: State)
    requires Inv(s) && Quiet(s)
    ensures s.pending == []
  {
  }

  lemma {:induction false} RunCapacity(workers: nat, capacity: nat, steps: seq<Step>)
    requires workers > 0 && Run(Init(workers, capacity), steps).Some?
    ensures Run(Init(workers, capacity), steps).value.capacity == capacity
  {
    hide Execute, Enabled;
    if steps != [] {
      RunCapacity(workers, capacity, steps[..|steps| - 1]);
    }
  }

  /** All that a stream has sent so far and no ring refused can still be handled, in arrival order. */
  lemma AllHandled(workers: nat, capacity: nat, steps: seq<Step>, st: Stream) returns (all: seq<Step>)
    requires workers > 0 && capacity >= RX_BURST && Run(Init(workers, capacity), steps).Some?
    ensures steps <= all && Run(Init(workers, capacity), all).Some?
    ensures var s, t := Run(Init(workers, capacity), steps).value, Run(Init(workers, capacity), all).value;
            Only(t.handled, InStream(st)) == Only(s.arrived + s.pending, Alive(InStream(st), Elements(s.dropped)))
  {
    hide Only, Quiet, Elements, StreamOf;
    all := Drain(workers, capacity, steps);
    StreamOrder(workers, capacity, all, st, InStream(st));
  }
}
