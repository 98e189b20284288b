/**
 From the wire to the verdict: dispatcher, rings, workers and pipelines together with the sources they
 feed.  What the gap counters say about losses on the network and about frames dropped on full rings.
 */
module EndToEnd {
  import opened Bytes
  import opened Frames
  import opened Judging
  import opened RxDispatch
  import opened Gaps
  import GooseWalk
  import Routable
  import SvApdu

  // ---------------------------------------------------------------- the frames of one table entry

  /** Frames that the receiver takes for those of entry `e`. */
  function GooseKnown(app: App, e: nat): (f: Mbuf -> bool)
  {
    m => GooseOutcome(app, m).Known? && GooseOutcome(app, m).entry == e
  }

  function SvKnown(app: App, e: nat): (f: Mbuf -> bool)
  {
    m => SvOutcome(app, m).Known? && SvOutcome(app, m).entry == e
  }

  /** The updates of an entry's source are those of its frames, in order. */
  lemma {:induction false} UpdatesOfKnown(app: App, ms: seq<Mbuf>, e: nat)
    ensures var us, known := GooseUpdates(app, ms, e), Only(ms, GooseKnown(app, e));
            |us| == |known| && forall k :: 0 <= k < |us| ==>
                                 GooseOutcome(app, known[k]).Known? && us[k] == GooseOutcome(app, known[k]).update
  {
    hide GooseOutcome;
    if ms != [] {
      UpdatesOfKnown(app, ms[..|ms| - 1], e);
    }
  }

  lemma {:induction false} SvUpdatesOfKnown(app: App, ms: seq<Mbuf>, e: nat)
    ensures var us, known := SvUpdates(app, ms, e), Only(ms, SvKnown(app, e));
            |us| == |known| && forall k :: 0 <= k < |us| ==>
                                 SvOutcome(app, known[k]).Known? && us[k] == SvOutcome(app, known[k]).update
  {
    hide SvOutcome;
    if ms != [] {
      SvUpdatesOfKnown(app, ms[..|ms| - 1], e);
    }
  }

  /** Frames of one entry come by one protocol with one dispatch key, so that one worker handles them. */
  ghost predicate AtHome(ms: seq<Mbuf>, f: Mbuf -> bool, home: Stream)
  {
    forall m :: m in ms && f(m) ==> StreamOf(m) == home
  }

  /** An L2 frame of an entry always is at home under the entry's APPID, and its entry has no destination group. */
  lemma L2Home(app: App, m: Mbuf, e: nat)
    requires GooseKnown(app, e)(m) && StreamOf(m).proto == Routable.Goose
    ensures e < |app.gooses| && StreamOf(m) == Stream(Routable.Goose, app.gooses[e].0.appid) && app.gooses[e].0.dstIP == 0
  {
    L2Reading(m);
  }

  lemma L2Reading(m: Mbuf)
    requires StreamOf(m).proto == Routable.Goose && ReadGoose(m.packet).Read?
    ensures ReadGoose(m.packet).id.appid == StreamOf(m).key && ReadGoose(m.packet).id.dstIP == 0
  {
    hide GooseWalk.WalkApdu;
    assert Frame(m.packet) == m.packet.memory[..m.packet.size];
  }

  /** So is an L2 SV frame. */
  lemma L2SvHome(app: App, m: Mbuf, e: nat)
    requires SvKnown(app, e)(m) && StreamOf(m).proto == Routable.Sv
    ensures e < |app.svs| && StreamOf(m) == Stream(Routable.Sv, app.svs[e].0.appid) && app.svs[e].0.dstIP == 0
  {
    L2SvReading(m);
  }

  lemma L2SvReading(m: Mbuf)
    requires StreamOf(m).proto == Routable.Sv && ReadSv(m.packet).Read?
    ensures ReadSv(m.packet).id.appid == StreamOf(m).key && ReadSv(m.packet).id.dstIP == 0
  {
    hide SvApdu.PduTree, SvApdu.ReportOf;
    assert Frame(m.packet) == m.packet.memory[..m.packet.size];
  }

  // ---------------------------------------------------------------- handled in arrival order

  function Both(f: Mbuf -> bool, home: Stream): (g: Mbuf -> bool)
  {
    m => f(m) && StreamOf(m) == home
  }

  /** Nothing is handled that did not arrive. */
  lemma HandledArrived(s: State, m: Mbuf)
    requires Inv(s) && OrderInv(s) && m in s.handled
    ensures m in s.arrived
  {
    hide StreamOf, Inv, OrderInv;
    var st := StreamOf(m);
    StreamPrefix(s, st, InStream(st));
    OnlyMembers(s.handled, InStream(st));
    OnlyMembers(s.arrived, Alive(InStream(st), Elements(s.dropped)));
    assert m in Only(s.handled, InStream(st));
  }

  /** The frames of an entry are handled in arrival order, and none is missing but the dropped ones. */
  lemma HandledPrefix(workers: nat, capacity: nat, steps: seq<Step>, f: Mbuf -> bool, home: Stream)
    requires workers > 0 && Run(Init(workers, capacity), steps).Some?
    requires AtHome(Run(Init(workers, capacity), steps).value.arrived, f, home)
    ensures var s := Run(Init(workers, capacity), steps).value;
            var alive := Only(s.arrived, Alive(f, Elements(s.dropped)));
            Only(s.handled, f) <= alive && (Quiet(s) ==> Only(s.handled, f) == alive)
  {
    hide StreamOf, Inv, OrderInv, Only, Quiet, Elements;
    var s := Run(Init(workers, capacity), steps).value;
    var g, d := Both(f, home), Elements(s.dropped);
    RunInv(workers, capacity, steps);
    RunOrder(workers, capacity, steps);
    StreamPrefix(s, home, g);
    forall m | m in s.handled ensures f(m) == g(m) {
      HandledArrived(s, m);
    }
    OnlySame(s.handled, f, g);
    OnlySame(s.arrived, Alive(f, d), Alive(g, d));
  }

  /** A source's updates depend only on the entry's own frames and their order. */
  lemma UpdatesByKnown(app: App, a: seq<Mbuf>, b: seq<Mbuf>, e: nat)
    requires Only(a, GooseKnown(app, e)) == Only(b, GooseKnown(app, e))
    ensures GooseUpdates(app, a, e) == GooseUpdates(app, b, e)
  {
    hide GooseOutcome, GooseUpdates, Only;
    UpdatesOfKnown(app, a, e);
    UpdatesOfKnown(app, b, e);
  }

  /** Running the stages one after another does not reorder the updates of a source whose frames come by one protocol. */
  lemma PipelineFeedsInOrder(app: App, batch: seq<Mbuf>, e: nat, home: Stream)
    requires AtHome(batch, GooseKnown(app, e), home)
    ensures GooseUpdates(app, PipelineOrder(batch), e) == GooseUpdates(app, batch, e)
  {
    hide GooseOutcome, GooseUpdates, Only, PipelineOrder, StreamOf;
    PipelineKeepsOrder(batch, home.proto, GooseKnown(app, e));
    UpdatesByKnown(app, PipelineOrder(batch), batch, e);
  }

  lemma SvUpdatesByKnown(app: App, a: seq<Mbuf>, b: seq<Mbuf>, e: nat)
    requires Only(a, SvKnown(app, e)) == Only(b, SvKnown(app, e))
    ensures SvUpdates(app, a, e) == SvUpdates(app, b, e)
  {
    hide SvOutcome, SvUpdates, Only;
    SvUpdatesOfKnown(app, a, e);
    SvUpdatesOfKnown(app, b, e);
  }

  /** The same for an SV source. */
  lemma PipelineFeedsSvInOrder(app: App, batch: seq<Mbuf>, e: nat, home: Stream)
    requires AtHome(batch, SvKnown(app, e), home)
    ensures SvUpdates(app, PipelineOrder(batch), e) == SvUpdates(app, batch, e)
  {
    hide SvOutcome, SvUpdates, Only, PipelineOrder, StreamOf;
    PipelineKeepsOrder(batch, home.proto, SvKnown(app, e));
    SvUpdatesByKnown(app, PipelineOrder(batch), batch, e);
  }

  function ByWorker(workers: nat, w: nat): (f: Mbuf -> bool)
    requires workers > 0
  {
    m => Worker(workers, m) == w
  }

  /** Only one worker ever updates a source, so what other workers do in between does not matter to it. */
  lemma FedByOneWorker(app: App, workers: nat, capacity: nat, steps: seq<Step>, e: nat, home: Stream)
    requires workers > 0 && Run(Init(workers, capacity), steps).Some?
    requires AtHome(Run(Init(workers, capacity), steps).value.arrived, GooseKnown(app, e), home)
    ensures var s := Run(Init(workers, capacity), steps).value;
            GooseUpdates(app, s.handled, e) ==
            GooseUpdates(app, Only(s.handled, ByWorker(workers, home.key % workers)), e)
  {
    hide StreamOf, Inv, OrderInv, GooseOutcome, GooseUpdates, Only, GooseKnown;
    var s := Run(Init(workers, capacity), steps).value;
    var mine, known := ByWorker(workers, home.key % workers), GooseKnown(app, e);
    RunInv(workers, capacity, steps);
    RunOrder(workers, capacity, steps);
    forall m | m in s.handled && known(m) ensures mine(m) {
      HandledArrived(s, m);
    }
    OnlyOnly(s.handled, mine, known);
    UpdatesByKnown(app, s.handled, Only(s.handled, mine), e);
  }

  lemma SvFedByOneWorker(app: App, workers: nat, capacity: nat, steps: seq<Step>, e: nat, home: Stream)
    requires workers > 0 && Run(Init(workers, capacity), steps).Some?
    requires AtHome(Run(Init(workers, capacity), steps).value.arrived, SvKnown(app, e), home)
    ensures var s := Run(Init(workers, capacity), steps).value;
            SvUpdates(app, s.handled, e) ==
            SvUpdates(app, Only(s.handled, ByWorker(workers, home.key % workers)), e)
  {
    hide StreamOf, Inv, OrderInv, SvOutcome, SvUpdates, Only, SvKnown;
    var s := Run(Init(workers, capacity), steps).value;
    var mine, known := ByWorker(workers, home.key % workers), SvKnown(app, e);
    RunInv(workers, capacity, steps);
    RunOrder(workers, capacity, steps);
    forall m | m in s.handled && known(m) ensures mine(m) {
      HandledArrived(s, m);
    }
    OnlyOnly(s.handled, mine, known);
    SvUpdatesByKnown(app, s.handled, Only(s.handled, mine), e);
  }

  // ---------------------------------------------------------------- numbers

  /** Numbers carried by the frames `ms`; `number` gives the number carried by an arrival. */
  function Numbers(ms: seq<Mbuf>, number: nat -> nat): (r: seq<nat>)
    ensures |r| == |ms| && forall k :: 0 <= k < |ms| ==> r[k] == number(ms[k].id)
  {
    seq<nat>(|ms|, k requires 0 <= k < |ms| => number(ms[k].id))
  }

  /** The network keeps the order of the entry's frames: later arrivals carry larger numbers. */
  ghost predicate NetworkKeepsOrder(arrived: seq<Mbuf>, f: Mbuf -> bool, number: nat -> nat)
  {
    forall i, j :: 0 <= i < j < |arrived| && f(arrived[i]) && f(arrived[j]) ==>
                     number(arrived[i].id) < number(arrived[j].id)
  }

  /** The network also loses nothing: the entry's frames arrive with 0, 1, 2 and so on. */
  ghost predicate NetworkLosesNothing(arrived: seq<Mbuf>, f: Mbuf -> bool, number: nat -> nat)
  {
    forall i :: 0 <= i < |arrived| && f(arrived[i]) ==> number(arrived[i].id) == |Only(arrived[..i], f)|
  }

  /** The k-th surviving frame has exactly k survivors before it. */
  lemma {:induction false} SurvivorAt(ms: seq<Mbuf>, f: Mbuf -> bool, k: nat)
    requires InArrivalOrder(ms, 0) && k < |Only(ms, f)|
    ensures var m := Only(ms, f)[k];
            m.id < |ms| && ms[m.id] == m && f(m) && |Only(ms[..m.id], f)| == k
  {
    var init, last := ms[..|ms| - 1], ms[|ms| - 1];
    if k < |Only(init, f)| {
      SurvivorAt(init, f, k);
      assert init[..Only(init, f)[k].id] == ms[..Only(init, f)[k].id];
    }
  }

  lemma {:induction false} NoneDropped(ms: seq<Mbuf>, f: Mbuf -> bool, d: set<Mbuf>)
    ensures |Only(ms, Alive(f, d))| <= |Only(ms, f)|
    ensures |Only(ms, Alive(f, d))| == |Only(ms, f)| <==> forall m :: m in ms && f(m) ==> m !in d
  {
    if ms != [] {
      var init, last := ms[..|ms| - 1], ms[|ms| - 1];
      NoneDropped(init, f, d);
      assert ms == init + [last];
    }
  }

  lemma OnlyGrows(ms: seq<Mbuf>, f: Mbuf -> bool, i: nat, j: nat)
    requires i <= j <= |ms|
    ensures |Only(ms[..i], f)| <= |Only(ms[..j], f)|
    ensures i < j && f(ms[i]) ==> |Only(ms[..i], f)| < |Only(ms[..j], f)|
  {
    OnlyPrefix(ms[..i], ms[..j], f);
    if i < j && f(ms[i]) {
      assert ms[..i + 1] == ms[..i] + [ms[i]];
      OnlySnoc(ms[..i], ms[i], f);
      OnlyPrefix(ms[..i + 1], ms[..j], f);
    }
  }

  /** A lossless network keeps the order. */
  lemma LosslessKeepsOrder(arrived: seq<Mbuf>, f: Mbuf -> bool, number: nat -> nat)
    requires NetworkLosesNothing(arrived, f, number)
    ensures NetworkKeepsOrder(arrived, f, number)
  {
    hide Only;
    forall i, j | 0 <= i < j < |arrived| && f(arrived[i]) && f(arrived[j])
      ensures number(arrived[i].id) < number(arrived[j].id)
    {
      OnlyGrows(arrived, f, i, j);
    }
  }

  /** The k-th handled frame of an entry: where it arrived, and that exactly k survivors came before it. */
  lemma HandledAt(workers: nat, capacity: nat, steps: seq<Step>, f: Mbuf -> bool, home: Stream, k: nat)
    requires workers > 0 && Run(Init(workers, capacity), steps).Some?
    requires AtHome(Run(Init(workers, capacity), steps).value.arrived, f, home)
    requires k < |Only(Run(Init(workers, capacity), steps).value.handled, f)|
    ensures var s := Run(Init(workers, capacity), steps).value;
            var m := Only(s.handled, f)[k];
            && m.id < |s.arrived| && s.arrived[m.id] == m && f(m)
            && |Only(s.arrived[..m.id], Alive(f, Elements(s.dropped)))| == k
  {
    hide StreamOf, Only, Elements, AtHome;
    var s := Run(Init(workers, capacity), steps).value;
    RunInv(workers, capacity, steps);
    HandledPrefix(workers, capacity, steps, f, home);
    SurvivorAt(s.arrived, Alive(f, Elements(s.dropped)), k);
  }

  /** The numbers that an entry's source sees only grow. */
  lemma HandledInOrder(workers: nat, capacity: nat, steps: seq<Step>, f: Mbuf -> bool, home: Stream, number: nat -> nat)
    requires workers > 0 && Run(Init(workers, capacity), steps).Some?
    requires AtHome(Run(Init(workers, capacity), steps).value.arrived, f, home)
    requires NetworkKeepsOrder(Run(Init(workers, capacity), steps).value.arrived, f, number)
    ensures InOrder(Numbers(Only(Run(Init(workers, capacity), steps).value.handled, f), number))
  {
    hide StreamOf, Only, Elements, AtHome, Run;
    var s := Run(Init(workers, capacity), steps).value;
    var done, alive := Only(s.handled, f), Alive(f, Elements(s.dropped));
    forall j, k | 0 <= j < k < |done| ensures number(done[j].id) < number(done[k].id) {
      HandledAt(workers, capacity, steps, f, home, j);
      HandledAt(workers, capacity, steps, f, home, k);
      if done[k].id <= done[j].id {
        OnlyGrows(s.arrived, alive, done[k].id, done[j].id);
      }
    }
  }

  /**
   With a lossless network the verdict is about the receiver alone: in every reachable state an entry
   shows no gap if and only if the dispatcher dropped none of its frames that arrived before a frame
   already handled.
   */
  lemma NoGapIffNoDrop(workers: nat, capacity: nat, steps: seq<Step>, f: Mbuf -> bool, home: Stream, number: nat -> nat)
    requires workers > 0 && Run(Init(workers, capacity), steps).Some?
    requires AtHome(Run(Init(workers, capacity), steps).value.arrived, f, home)
    requires NetworkLosesNothing(Run(Init(workers, capacity), steps).value.arrived, f, number)
    ensures var s := Run(Init(workers, capacity), steps).value;
            LossRuns(Numbers(Only(s.handled, f), number)) == 0 <==>
            forall m, n :: m in s.arrived && f(m) && n in Only(s.handled, f) && m.id < n.id ==> m !in s.dropped
  {
    hide StreamOf, Only, LossRuns, AtHome;
    var s := Run(Init(workers, capacity), steps).value;
    RunInv(workers, capacity, steps);
    var done, d := Only(s.handled, f), Elements(s.dropped);
    var run := Numbers(done, number);
    LosslessIff(run);
    forall k | 0 <= k < |run|
      ensures run[k] == k <==> forall m :: m in s.arrived && f(m) && m.id < done[k].id ==> m !in s.dropped
    {
      HandledAt(workers, capacity, steps, f, home, k);
      NoneDropped(s.arrived[..done[k].id], f, d);
    }
  }

  /** The k-th handled frame; before the first one, before all arrivals. */
  ghost function HandledId(done: seq<Mbuf>, k: int): (id: int)
    requires -1 <= k < |done|
  {
    if k == -1 then -1 else done[k].id
  }

  /** Frames of `f` that arrived between two others were all dropped if none of them survived. */
  lemma BetweenSurvivors(ms: seq<Mbuf>, f: Mbuf -> bool, d: set<Mbuf>, i: nat, j: nat)
    requires InArrivalOrder(ms, 0) && i <= j <= |ms|
    requires |Only(ms[..i], Alive(f, d))| == |Only(ms[..j], Alive(f, d))|
    ensures forall x :: i <= x < j && f(ms[x]) ==> ms[x] in d
    ensures |Only(ms[..i], f)| == |Only(ms[..j], f)| <==> forall x :: i <= x < j ==> !f(ms[x])
  {
    hide Only;
    forall x | i <= x < j && f(ms[x])
      ensures ms[x] in d && |Only(ms[..i], f)| < |Only(ms[..j], f)|
    {
      OnlyGrows(ms, Alive(f, d), i, x);
      OnlyGrows(ms, Alive(f, d), x, j);
      OnlyGrows(ms, f, i, x);
      OnlyGrows(ms, f, x, j);
    }
    if forall x :: i <= x < j ==> !f(ms[x]) {
      NothingBetween(ms, f, i, j);
    }
  }

  lemma {:induction false} NothingBetween(ms: seq<Mbuf>, f: Mbuf -> bool, i: nat, j: nat)
    requires i <= j <= |ms| && forall x :: i <= x < j ==> !f(ms[x])
    ensures |Only(ms[..i], f)| == |Only(ms[..j], f)|
  {
    assert ms[..j] == ms[..i] + ms[i..j];
    OnlyConcat(ms[..i], ms[i..j], f);
    OnlyNone(ms[i..j], f);
  }

  /**
   With a lossless network the loss runs are the drop runs: a loss run ends at the k-th handled frame of an
   entry if and only if the dispatcher dropped one of its frames between the (k-1)-st and the k-th.
   */
  lemma LossIsDrop(workers: nat, capacity: nat, steps: seq<Step>, f: Mbuf -> bool, home: Stream, number: nat -> nat, k: nat)
    requires workers > 0 && Run(Init(workers, capacity), steps).Some?
    requires AtHome(Run(Init(workers, capacity), steps).value.arrived, f, home)
    requires NetworkLosesNothing(Run(Init(workers, capacity), steps).value.arrived, f, number)
    requires k < |Only(Run(Init(workers, capacity), steps).value.handled, f)|
    ensures var s := Run(Init(workers, capacity), steps).value;
            var done := Only(s.handled, f);
            LossBefore(Numbers(done, number), k) <==>
            exists m :: m in s.dropped && f(m) && HandledId(done, k - 1) < m.id < HandledId(done, k)
  {
    hide StreamOf, Only, AtHome, Elements;
    var s := Run(Init(workers, capacity), steps).value;
    RunInv(workers, capacity, steps);
    var done, d := Only(s.handled, f), Elements(s.dropped);
    var alive := Alive(f, d);
    HandledAt(workers, capacity, steps, f, home, k);
    var i, j := HandledId(done, k - 1) + 1, done[k].id;
    var a := s.arrived;
    if k > 0 {
      HandledAt(workers, capacity, steps, f, home, k - 1);
      assert i <= j by {
        if j <= done[k - 1].id {
          OnlyGrows(a, alive, j, done[k - 1].id);
        }
      }
      assert a[..i] == a[..i - 1] + [a[i - 1]];
      OnlySnoc(a[..i - 1], a[i - 1], f);
      OnlySnoc(a[..i - 1], a[i - 1], alive);
      SurvivorAlive(s, f, done[k - 1], workers, capacity, steps, home, k - 1);
    } else {
      assert a[..0] == [];
      OnlyNone([], f);
      OnlyNone([], alive);
    }
    BetweenSurvivors(a, f, d, i, j);
    DroppedBetween(s, f, i, j);
  }

  lemma SurvivorAlive(s: State, f: Mbuf -> bool, m: Mbuf, workers: nat, capacity: nat, steps: seq<Step>, home: Stream, k: nat)
    requires workers > 0 && Run(Init(workers, capacity), steps) == Some(s) && AtHome(s.arrived, f, home)
    requires k < |Only(s.handled, f)| && m == Only(s.handled, f)[k]
    ensures Alive(f, Elements(s.dropped))(m)
  {
    hide StreamOf, Only, AtHome, Elements, Run;
    var alive := Alive(f, Elements(s.dropped));
    HandledPrefix(workers, capacity, steps, f, home);
    OnlyMembers(s.arrived, alive);
    assert Only(s.arrived, alive)[k] in Only(s.arrived, alive);
  }

  /** Arrivals between two places, by place and by arrival number. */
  lemma DroppedBetween(s: State, f: Mbuf -> bool, i: nat, j: nat)
    requires Inv(s) && i <= j <= |s.arrived|
    requires forall x :: i <= x < j && f(s.arrived[x]) ==> s.arrived[x] in Elements(s.dropped)
    ensures (exists m :: m in s.dropped && f(m) && i - 1 < m.id < j) <==> exists x :: i <= x < j && f(s.arrived[x])
  {
    if m :| m in s.dropped && f(m) && i - 1 < m.id < j {
      assert m in s.arrived;
      var x :| 0 <= x < |s.arrived| && s.arrived[x] == m;
      assert x == m.id;
    }
    if x :| i <= x < j && f(s.arrived[x]) {
      assert s.arrived[x] in s.dropped && s.arrived[x].id == x;
    }
  }

  // ---------------------------------------------------------------- GOOSE

  /** The source of a GOOSE entry after all that was handled. */
  function GooseAfter(app: App, handled: seq<Mbuf>, e: nat): (v: GooseView)
  {
    FeedGooseAll(FRESH_GOOSE, GooseUpdates(app, handled, e))
  }

  /** The frames of an entry carry their numbers as its sender writes them. */
  ghost predicate GooseNumbered(app: App, ms: seq<Mbuf>, e: nat, number: nat -> nat, routable: bool)
  {
    forall m :: m in ms && GooseKnown(app, e)(m) ==>
                  var u := GooseOutcome(app, m).update;
                  u.stNum == Carried(number(m.id)) && u.spdu == if routable then Some(Carried(number(m.id))) else None
  }

  lemma GooseCarried(app: App, ms: seq<Mbuf>, e: nat, number: nat -> nat, routable: bool)
    requires GooseNumbered(app, ms, e, number, routable)
    ensures GooseCarry(GooseUpdates(app, ms, e), Numbers(Only(ms, GooseKnown(app, e)), number), routable)
  {
    hide GooseOutcome, GooseUpdates, Only;
    UpdatesOfKnown(app, ms, e);
    OnlyMembers(ms, GooseKnown(app, e));
    var known := Only(ms, GooseKnown(app, e));
    assert forall k :: 0 <= k < |known| ==> known[k] in known;
  }

  /** The updates that the entry's source has got: in order, and with the numbers of its frames. */
  lemma GooseRun(app: App, workers: nat, capacity: nat, steps: seq<Step>, e: nat, home: Stream,
                 number: nat -> nat, routable: bool)
    requires workers > 0 && Run(Init(workers, capacity), steps).Some?
    requires var s := Run(Init(workers, capacity), steps).value;
             && AtHome(s.arrived, GooseKnown(app, e), home)
             && NetworkKeepsOrder(s.arrived, GooseKnown(app, e), number)
             && GooseNumbered(app, s.arrived, e, number, routable)
    ensures var s := Run(Init(workers, capacity), steps).value;
            var run := Numbers(Only(s.handled, GooseKnown(app, e)), number);
            InOrder(run) && GooseCarry(GooseUpdates(app, s.handled, e), run, routable)
  {
    hide StreamOf, GooseOutcome, GooseUpdates, GooseKnown, Only, Run, AtHome, NetworkKeepsOrder, InOrder, GooseCarry;
    var s := Run(Init(workers, capacity), steps).value;
    HandledInOrder(workers, capacity, steps, GooseKnown(app, e), home, number);
    RunInv(workers, capacity, steps);
    RunOrder(workers, capacity, steps);
    assert GooseNumbered(app, s.handled, e, number, routable) by {
      forall m | m in s.handled ensures m in s.arrived {
        HandledArrived(s, m);
      }
    }
    GooseCarried(app, s.handled, e, number, routable);
  }

  /**
   Over every interleaving, with a network that keeps an entry's order but may lose frames: the source
   of a GOOSE entry has counted exactly the places where frames are missing, whether lost on the wire or
   dropped on a full ring, as far as stNum and the session number can show them.
   */
  lemma EveryLossIsCounted(app: App, workers: nat, capacity: nat, steps: seq<Step>, e: nat, home: Stream,
                           number: nat -> nat, routable: bool)
    requires workers > 0 && Run(Init(workers, capacity), steps).Some?
    requires var s := Run(Init(workers, capacity), steps).value;
             && AtHome(s.arrived, GooseKnown(app, e), home)
             && NetworkKeepsOrder(s.arrived, GooseKnown(app, e), number)
             && GooseNumbered(app, s.arrived, e, number, routable)
    ensures var s := Run(Init(workers, capacity), steps).value;
            var v, run := GooseAfter(app, s.handled, e), Numbers(Only(s.handled, GooseKnown(app, e)), number);
            && InOrder(run) && v.errSeqCnt == VisibleRuns(run) % U32
            && v.errSpduCnt == (if routable then SpduVisibleRuns(run) % U32 else 0)
            && (Countable(run) ==> GooseGap(v) == GooseReport(run, routable))
  {
    hide StreamOf, GooseNumbered, GooseUpdates, GooseKnown, Only, Run, AtHome, NetworkKeepsOrder, FeedGooseAll, InOrder, Numbers,
         VisibleRuns, SpduVisibleRuns, LossRuns, GooseCarry, Countable;
    var s := Run(Init(workers, capacity), steps).value;
    var run := Numbers(Only(s.handled, GooseKnown(app, e)), number);
    GooseRun(app, workers, capacity, steps, e, home, number, routable);
    GooseSourceMeans(GooseUpdates(app, s.handled, e), run, routable);
  }

  // ---------------------------------------------------------------- SV

  function SvAfter(app: App, handled: seq<Mbuf>, e: nat): (v: SvView)
  {
    FeedSvAll(FRESH_SV, SvUpdates(app, handled, e))
  }

  ghost predicate SvNumbered(p: SvProfile, app: App, ms: seq<Mbuf>, e: nat, number: nat -> nat, routable: bool)
    requires IsProfile(p)
  {
    forall m :: m in ms && SvKnown(app, e)(m) ==>
                  var u := SvOutcome(app, m).update;
                  && u.smpCnt == Sample(p, number(m.id)) && u.num == p.num
                  && u.spdu == if routable then Some(Carried(number(m.id))) else None
  }

  lemma SvCarried(p: SvProfile, app: App, ms: seq<Mbuf>, e: nat, number: nat -> nat, routable: bool)
    requires IsProfile(p) && SvNumbered(p, app, ms, e, number, routable)
    ensures SvCarry(p, SvUpdates(app, ms, e), Numbers(Only(ms, SvKnown(app, e)), number), routable)
  {
    hide SvOutcome, SvUpdates, Only, IsProfile;
    SvUpdatesOfKnown(app, ms, e);
    OnlyMembers(ms, SvKnown(app, e));
    var known := Only(ms, SvKnown(app, e));
    assert forall k :: 0 <= k < |known| ==> known[k] in known;
  }

  /** The updates that the entry's source has got: in order, and with the numbers of its frames. */
  lemma SvRun(p: SvProfile, app: App, workers: nat, capacity: nat, steps: seq<Step>, e: nat, home: Stream,
                number: nat -> nat, routable: bool)
    requires IsProfile(p) && workers > 0 && Run(Init(workers, capacity), steps).Some?
    requires var s := Run(Init(workers, capacity), steps).value;
             && AtHome(s.arrived, SvKnown(app, e), home)
             && NetworkKeepsOrder(s.arrived, SvKnown(app, e), number)
             && SvNumbered(p, app, s.arrived, e, number, routable)
    ensures var s := Run(Init(workers, capacity), steps).value;
            var run := Numbers(Only(s.handled, SvKnown(app, e)), number);
            InOrder(run) && SvCarry(p, SvUpdates(app, s.handled, e), run, routable)
  {
    hide StreamOf, SvOutcome, SvUpdates, SvKnown, Only, Run, AtHome, NetworkKeepsOrder, InOrder, SvCarry, IsProfile;
    var s := Run(Init(workers, capacity), steps).value;
    HandledInOrder(workers, capacity, steps, SvKnown(app, e), home, number);
    RunInv(workers, capacity, steps);
    RunOrder(workers, capacity, steps);
    assert SvNumbered(p, app, s.handled, e, number, routable) by {
      forall m | m in s.handled ensures m in s.arrived {
        HandledArrived(s, m);
      }
    }
    SvCarried(p, app, s.handled, e, number, routable);
  }

  /** The same for SV entries of any profile: exactly the losses that the sample and session numbers can show. */
  lemma EverySvLossIsCounted(p: SvProfile, app: App, workers: nat, capacity: nat, steps: seq<Step>, e: nat, home: Stream,
                             number: nat -> nat, routable: bool)
    requires IsProfile(p) && workers > 0 && Run(Init(workers, capacity), steps).Some?
    requires var s := Run(Init(workers, capacity), steps).value;
             && AtHome(s.arrived, SvKnown(app, e), home)
             && NetworkKeepsOrder(s.arrived, SvKnown(app, e), number)
             && SvNumbered(p, app, s.arrived, e, number, routable)
    ensures var s := Run(Init(workers, capacity), steps).value;
            var v, run := SvAfter(app, s.handled, e), Numbers(Only(s.handled, SvKnown(app, e)), number);
            && InOrder(run) && v.errSmpCnt == SvVisibleRuns(p, run) % U32
            && v.errSpduCnt == (if routable then SpduVisibleRuns(run) % U32 else 0)
            && (Countable(run) ==> SvGap(v) == SvReport(p, run, routable))
  {
    hide StreamOf, SvNumbered, SvUpdates, SvKnown, Only, Run, AtHome, NetworkKeepsOrder, FeedSvAll, InOrder, IsProfile, Numbers,
         SvVisibleRuns, SpduVisibleRuns, LossRuns, SvCarry, Countable;
    var s := Run(Init(workers, capacity), steps).value;
    var run := Numbers(Only(s.handled, SvKnown(app, e)), number);
    SvRun(p, app, workers, capacity, steps, e, home, number, routable);
    SvSourceMeans(p, SvUpdates(app, s.handled, e), run, routable);
  }

  // ---------------------------------------------------------------- nothing dropped, nothing missing

  /** With a lossless network and a ring-full count of zero the numbers that a source sees are 0, 1, 2 and so on. */
  lemma NoDropNoLoss(workers: nat, capacity: nat, steps: seq<Step>, f: Mbuf -> bool, home: Stream, number: nat -> nat)
    requires workers > 0 && Run(Init(workers, capacity), steps).Some?
    requires AtHome(Run(Init(workers, capacity), steps).value.arrived, f, home)
    requires NetworkLosesNothing(Run(Init(workers, capacity), steps).value.arrived, f, number)
    requires Run(Init(workers, capacity), steps).value.ringFull == 0
    ensures var run := Numbers(Only(Run(Init(workers, capacity), steps).value.handled, f), number);
            LossRuns(run) == 0 && forall k :: 0 <= k < |run| ==> run[k] == k
  {
    hide StreamOf, Only, LossRuns, AtHome, Run, NetworkLosesNothing;
    BufferConservation(workers, capacity, steps);
    NoGapIffNoDrop(workers, capacity, steps, f, home, number);
    LosslessIff(Numbers(Only(Run(Init(workers, capacity), steps).value.handled, f), number));
  }

  /** Then no counter of any GOOSE entry moves, in any interleaving, for L2 or routable streams. */
  lemma NoDropNoGap(app: App, workers: nat, capacity: nat, steps: seq<Step>, e: nat, home: Stream,
                    number: nat -> nat, routable: bool)
    requires workers > 0 && Run(Init(workers, capacity), steps).Some?
    requires var s := Run(Init(workers, capacity), steps).value;
             && AtHome(s.arrived, GooseKnown(app, e), home)
             && NetworkLosesNothing(s.arrived, GooseKnown(app, e), number)
             && GooseNumbered(app, s.arrived, e, number, routable) && s.ringFull == 0
    ensures var v := GooseAfter(app, Run(Init(workers, capacity), steps).value.handled, e);
            v.errSeqCnt == 0 && v.errSpduCnt == 0
  {
    hide StreamOf, Only, LossRuns, AtHome, Run, NetworkLosesNothing, NetworkKeepsOrder, GooseKnown, GooseAfter, GooseNumbered,
         VisibleRuns, SpduVisibleRuns;
    var s := Run(Init(workers, capacity), steps).value;
    var run := Numbers(Only(s.handled, GooseKnown(app, e)), number);
    LosslessKeepsOrder(s.arrived, GooseKnown(app, e), number);
    EveryLossIsCounted(app, workers, capacity, steps, e, home, number, routable);
    NoDropNoLoss(workers, capacity, steps, GooseKnown(app, e), home, number);
    GooseCountsVisible(run);
    SpduCountsVisible(run);
  }

  /** Nor does one of any SV entry. */
  lemma NoDropNoSvGap(p: SvProfile, app: App, workers: nat, capacity: nat, steps: seq<Step>, e: nat, home: Stream,
                      number: nat -> nat, routable: bool)
    requires IsProfile(p) && workers > 0 && Run(Init(workers, capacity), steps).Some?
    requires var s := Run(Init(workers, capacity), steps).value;
             && AtHome(s.arrived, SvKnown(app, e), home)
             && NetworkLosesNothing(s.arrived, SvKnown(app, e), number)
             && SvNumbered(p, app, s.arrived, e, number, routable) && s.ringFull == 0
    ensures var v := SvAfter(app, Run(Init(workers, capacity), steps).value.handled, e);
            v.errSmpCnt == 0 && v.errSpduCnt == 0
  {
    hide StreamOf, Only, LossRuns, AtHome, Run, NetworkLosesNothing, NetworkKeepsOrder, SvKnown, SvAfter, SvNumbered,
         SvVisibleRuns, SpduVisibleRuns, IsProfile;
    var s := Run(Init(workers, capacity), steps).value;
    var run := Numbers(Only(s.handled, SvKnown(app, e)), number);
    LosslessKeepsOrder(s.arrived, SvKnown(app, e), number);
    EverySvLossIsCounted(p, app, workers, capacity, steps, e, home, number, routable);
    NoDropNoLoss(workers, capacity, steps, SvKnown(app, e), home, number);
    SvCountsVisible(p, run);
    SpduCountsVisible(run);
  }
}
