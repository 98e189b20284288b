/**
 The dispatch loop as it is written against the state machine: one pass of the loop over one burst
 is a sequence of the machine's steps, so what holds in every reachable state holds of the loop.
 */
module RxRefinement {
  import opened Bytes
  import opened Frames
  import opened RxDispatch

  // ---------------------------------------------------------------- sequences of steps

  lemma {:induction false} RunConcat(s: State, a: seq<Step>, b: seq<Step>)
    requires Shaped(s) && Run(s, a).Some?
    ensures Run(s, a + b) == Run(Run(s, a).value, b)
  {
    if b == [] {
      assert a + b == a;
    } else {
      var init := b[..|b| - 1];
      assert (a + b)[..|a + b| - 1] == a + init;
      RunConcat(s, a, init);
    }
  }

  lemma RunSnoc(s: State, steps: seq<Step>, step: Step)
    requires Shaped(s) && Run(s, steps).Some? && Enabled(Run(s, steps).value, step)
    ensures Run(s, steps + [step]) == Some(Execute(Run(s, steps).value, step))
  {
    assert (steps + [step])[..|steps|] == steps;
  }

  // ---------------------------------------------------------------- the routing loop

  function Routes(n: nat): (r: seq<Step>)
  {
    if n == 0 then [] else Routes(n - 1) + [Route]
  }

  /** Worker queues after the first `n` pending buffers were routed. */
  function QueuesAfter(s: State, n: nat): (q: seq<seq<Mbuf>>)
    requires Shaped(s) && n <= |s.pending|
    ensures |q| == s.workers
    ensures forall w :: 0 <= w < s.workers ==> q[w] == s.queue[w] + Routed(s.pending[..n], s.workers, w)
  {
    seq(s.workers, w requires 0 <= w < s.workers => s.queue[w] + Routed(s.pending[..n], s.workers, w))
  }

  function AfterRoutes(s: State, n: nat): (r: State)
    requires Shaped(s) && n <= |s.pending|
    ensures Shaped(r)
  {
    s.(pending := s.pending[n..], arrived := s.arrived + s.pending[..n], queue := QueuesAfter(s, n))
  }

  lemma RouteOne(s: State, n: nat)
    requires Shaped(s) && s.phase.Routing? && n < |s.pending|
    ensures Enabled(AfterRoutes(s, n), Route)
    ensures Execute(AfterRoutes(s, n), Route) == AfterRoutes(s, n + 1)
  {
    hide Routed, Worker;
    var t, m := AfterRoutes(s, n), s.pending[n];
    assert s.pending[..n + 1] == s.pending[..n] + [m];
    assert t.pending[0] == m && t.pending[1..] == s.pending[n + 1..];
    forall w | 0 <= w < s.workers
      ensures QueuesAfter(s, n + 1)[w] == t.queue[w] + if Worker(s.workers, m) == w then [m] else []
    {
      RoutedSnoc(s.pending[..n], m, s.workers, w);
    }
    var q := Execute(t, Route).queue;
    assert forall w :: 0 <= w < s.workers ==> t.queue[w] + [] == t.queue[w];
    assert forall w :: 0 <= w < s.workers ==> q[w] == QueuesAfter(s, n + 1)[w];
    assert q == QueuesAfter(s, n + 1);
  }

  lemma RoutedSnoc(ms: seq<Mbuf>, m: Mbuf, workers: nat, w: nat)
    requires workers > 0
    ensures Routed(ms + [m], workers, w) == Routed(ms, workers, w) + if Worker(workers, m) == w then [m] else []
  {
    KeptSnoc(ms, m, workers, w, {});
  }

  lemma NoRoutes(s: State)
    requires Shaped(s)
    ensures AfterRoutes(s, 0) == s
  {
    forall w | 0 <= w < s.workers ensures QueuesAfter(s, 0)[w] == s.queue[w] {
      assert s.queue[w] + [] == s.queue[w];
    }
    assert QueuesAfter(s, 0) == s.queue && s.arrived + [] == s.arrived;
  }

  lemma {:induction false} RoutesRun(s: State, n: nat)
    requires Shaped(s) && s.phase.Routing? && n <= |s.pending|
    ensures Run(s, Routes(n)) == Some(AfterRoutes(s, n))
  {
    hide Routed, Execute, Enabled;
    if n == 0 {
      NoRoutes(s);
    } else {
      RoutesRun(s, n - 1);
      RouteOne(s, n - 1);
      RunSnoc(s, Routes(n - 1), Route);
    }
  }

  // ---------------------------------------------------------------- the enqueue loop

  /** One queue after another is offered; `takes` says how many buffers each ring took. */
  function Enqueues(takes: seq<nat>): (r: seq<Step>)
  {
    if takes == [] then [] else Enqueues(takes[..|takes| - 1]) + [Enqueue(takes[|takes| - 1])]
  }

  ghost predicate Takeable(s: State, takes: seq<nat>)
    requires Shaped(s)
  {
    && |takes| <= s.workers
    && forall w :: 0 <= w < |takes| ==> takes[w] <= |s.queue[w]| && |s.ring[w]| + takes[w] <= s.capacity
  }

  function Freed(s: State, takes: seq<nat>): (r: seq<Mbuf>)
    requires Shaped(s) && Takeable(s, takes)
  {
    if takes == [] then []
    else
      var i := |takes| - 1;
      Freed(s, takes[..i]) + s.queue[i][takes[i]..]
  }

  function RingsAfter(s: State, takes: seq<nat>): (r: seq<seq<Mbuf>>)
    requires Shaped(s) && Takeable(s, takes)
    ensures |r| == s.workers
    ensures forall w :: 0 <= w < s.workers ==>
              r[w] == s.ring[w] + if w < |takes| then s.queue[w][..takes[w]] else []
  {
    seq(s.workers, w requires 0 <= w < s.workers => s.ring[w] + if w < |takes| then s.queue[w][..takes[w]] else [])
  }

  function QueuesLeft(s: State, n: nat): (r: seq<seq<Mbuf>>)
    requires Shaped(s)
    ensures |r| == s.workers && forall w :: 0 <= w < s.workers ==> r[w] == if w < n then [] else s.queue[w]
  {
    seq(s.workers, w requires 0 <= w < s.workers => if w < n then [] else s.queue[w])
  }

  function AfterEnqueues(s: State, takes: seq<nat>): (r: State)
    requires Shaped(s) && Takeable(s, takes)
    ensures Shaped(r)
  {
    s.(ring := RingsAfter(s, takes),
       queue := QueuesLeft(s, |takes|),
       dropped := s.dropped + Freed(s, takes),
       ringFull := s.ringFull + |Freed(s, takes)|,
       phase := if takes == [] then s.phase else if |takes| == s.workers then Idle else Flushing(|takes|))
  }

  lemma EnqueueOne(s: State, takes: seq<nat>)
    requires Shaped(s) && s.phase.Routing? && s.pending == [] && takes != [] && Takeable(s, takes)
    ensures var init, t := takes[..|takes| - 1], takes[|takes| - 1];
            && Takeable(s, init) && Enabled(AfterEnqueues(s, init), Enqueue(t))
            && Execute(AfterEnqueues(s, init), Enqueue(t)) == AfterEnqueues(s, takes)
  {
    var i := |takes| - 1;
    var init, t := takes[..i], takes[i];
    var before := AfterEnqueues(s, init);
    assert NextQueue(before) == i && before.queue[i] == s.queue[i] && before.ring[i] == s.ring[i] + [];
    assert before.ring[i] == s.ring[i];
    var after := Execute(before, Enqueue(t));
    assert after.ring == RingsAfter(s, takes);
    assert after.queue == QueuesLeft(s, |takes|);
    assert after.dropped == s.dropped + Freed(s, takes);
  }

  lemma {:induction false} EnqueuesRun(s: State, takes: seq<nat>)
    requires Shaped(s) && s.phase.Routing? && s.pending == [] && Takeable(s, takes)
    ensures Run(s, Enqueues(takes)) == Some(AfterEnqueues(s, takes))
    decreases |takes|
  {
    if takes == [] {
      assert forall w :: 0 <= w < s.workers ==> s.ring[w] + [] == s.ring[w];
      assert forall w :: 0 <= w < s.workers ==> RingsAfter(s, takes)[w] == s.ring[w] && QueuesLeft(s, 0)[w] == s.queue[w];
      assert RingsAfter(s, takes) == s.ring && QueuesLeft(s, 0) == s.queue;
      assert s.dropped + [] == s.dropped;
    } else {
      EnqueueOne(s, takes);
      var init := takes[..|takes| - 1];
      EnqueuesRun(s, init);
      RunSnoc(s, Enqueues(init), Enqueue(takes[|takes| - 1]));
    }
  }

  // ---------------------------------------------------------------- one pass of the loop

  function Lengths(qs: seq<seq<Mbuf>>): (r: seq<nat>)
    ensures |r| == |qs| && forall w :: 0 <= w < |qs| ==> r[w] == |qs[w]|
  {
    seq(|qs|, w requires 0 <= w < |qs| => |qs[w]|)
  }

  function Joined(qs: seq<seq<Mbuf>>): (r: seq<Mbuf>)
    ensures |r| == TotalLength(qs)
  {
    if qs == [] then [] else Joined(qs[..|qs| - 1]) + qs[|qs| - 1]
  }

  lemma {:induction false} FreedIsJoined(s: State, takes: seq<nat>, freed: seq<seq<Mbuf>>)
    requires Shaped(s) && Takeable(s, takes) && |freed| == |takes|
    requires forall w :: 0 <= w < |takes| ==> freed[w] == s.queue[w][takes[w]..]
    ensures Freed(s, takes) == Joined(freed)
    decreases |takes|
  {
    if takes != [] {
      var i := |takes| - 1;
      FreedIsJoined(s, takes[..i], freed[..i]);
    }
  }

  /** The state after a burst that the rings accepted as `enqueued`, the rest being `freed`. */
  ghost predicate Dispatched(s: State, t: State, bufs: seq<Mbuf>, enqueued: seq<seq<Mbuf>>, freed: seq<seq<Mbuf>>)
    requires Shaped(s) && Shaped(t) && |enqueued| == |freed| == s.workers == t.workers
  {
    && t.phase.Idle? && t.pending == [] && AllEmpty(t.queue)
    && t.arrived == s.arrived + bufs && t.batch == s.batch && t.todo == s.todo && t.done == s.done
    && t.handled == s.handled
    && (forall w :: 0 <= w < s.workers ==> t.ring[w] == s.ring[w] + enqueued[w])
    && t.dropped == s.dropped + Joined(freed)
    && t.ringFull == s.ringFull + TotalLength(freed)
  }

  /** The state machine between the routing loop and the enqueue loop. */
  lemma RoutedBurst(s: State, packets: seq<Packet>) returns (steps: seq<Step>, t: State)
    requires Inv(s) && s.phase.Idle? && 0 < |packets| <= RX_BURST
    ensures Run(s, steps) == Some(t)
    ensures var bufs := Numbered(packets, |s.arrived|);
            && t == s.(phase := Routing, arrived := s.arrived + bufs, queue := t.queue) && Shaped(t)
            && forall w :: 0 <= w < s.workers ==> t.queue[w] == Routed(bufs, s.workers, w)
  {
    hide Routed;
    var bufs := Numbered(packets, |s.arrived|);
    var r := Execute(s, Receive(packets));
    assert Run(s, [Receive(packets)]) == Some(r) by {
      assert Run(s, []) == Some(s);
      RunSnoc(s, [], Receive(packets));
      assert [] + [Receive(packets)] == [Receive(packets)];
    }
    RoutesRun(r, |bufs|);
    RunConcat(s, [Receive(packets)], Routes(|bufs|));
    steps, t := [Receive(packets)] + Routes(|bufs|), AfterRoutes(r, |bufs|);
    assert bufs[..|bufs|] == bufs;
    forall w | 0 <= w < s.workers ensures t.queue[w] == Routed(bufs, s.workers, w) {
      assert s.queue[w] == [];
    }
  }

  /**
   Refinement.  Whatever the dispatch loop does with one burst, given room in the rings for what
   they accepted, the state machine can do from the same idle state, step by step.
   */
  lemma DispatchRefines(s: State, packets: seq<Packet>, accepts: seq<nat>, enqueued: seq<seq<Mbuf>>, freed: seq<seq<Mbuf>>)
    returns (steps: seq<Step>)
    requires Inv(s) && s.phase.Idle? && 0 < |packets| <= RX_BURST
    requires |enqueued| == |freed| == |accepts| == s.workers
    requires forall w :: 0 <= w < s.workers ==>
               Shared(enqueued[w], freed[w], Routed(Numbered(packets, |s.arrived|), s.workers, w), accepts[w])
    requires forall w :: 0 <= w < s.workers ==> |s.ring[w]| + |enqueued[w]| <= s.capacity
    ensures Run(s, steps).Some?
    ensures Dispatched(s, Run(s, steps).value, Numbered(packets, |s.arrived|), enqueued, freed)
  {
    hide Inv, Routed, Freed, Bounded, StreamOf, Worker, Execute, Enabled, Run, Enqueues, TotalLength;
    PendingEmpty(s);
    var first, t := RoutedBurst(s, packets);
    var takes := Lengths(enqueued);
    forall w | 0 <= w < s.workers
      ensures t.queue[w][..takes[w]] == enqueued[w] && t.queue[w][takes[w]..] == freed[w] && takes[w] <= |t.queue[w]|
    {
      assert t.queue[w] == enqueued[w] + freed[w];
    }
    EnqueuesRun(t, takes);
    RunConcat(s, first, Enqueues(takes));
    steps := first + Enqueues(takes);
    FreedIsJoined(t, takes, freed);
  }

  lemma PendingEmpty(s: State)
    requires Inv(s) && s.phase.Idle?
    ensures Shaped(s) && s.pending == []
  {
  }
}
