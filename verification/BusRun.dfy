/**
 The whole bus: configured generators on one side, the receiver's tables as start-up fills them on the
 other, the burst send loop, the network, the rings and the pipelines in between.
 */
module BusRun {
  import opened Bytes
  import opened Frames
  import opened Judging
  import opened Gaps
  import opened TxSchedule
  import opened TxBurst
  import opened EndToEnd
  import Delivery
  import Routable
  import RxDispatch
  import StreamTable
  import TableVerdict

  // ---------------------------------------------------------------- what the burst loop put on the wire

  /** The outcome of one worker's burst cycle, as its contract has it. */
  datatype Burst = Burst(wire: seq<Sent<nat>>, freed: seq<nat>, amended: seq<nat>)

  ghost predicate IsBurst(b: Burst)
  {
    Mbufs(b.wire) + b.freed == Range(0, |b.amended|) && Descs(b.wire) <= b.amended
  }

  /** Numbers of the worker's local stream `s` on the wire. */
  ghost function OnWire(b: Burst, s: nat): (r: seq<nat>)
    requires IsBurst(b)
    ensures forall k :: 0 <= k < |r| ==> r[k] == k
  {
    WireInOrder(b.wire, b.freed, b.amended);
    WireHasNoGaps(b.wire, b.freed, b.amended, s);
    LosslessIff(WireNumbers(b.wire, b.amended, s));
    WireNumbers(b.wire, b.amended, s)
  }

  /** So far the network has delivered, in order, what is on the wire: the k-th arrival of `f` is the k-th frame sent. */
  ghost predicate Arrives(arrived: seq<Mbuf>, f: Mbuf -> bool, number: nat -> nat, sent: seq<nat>)
  {
    var known := Only(arrived, f);
    |known| <= |sent| && forall k :: 0 <= k < |known| ==> number(known[k].id) == sent[k]
  }

  lemma {:induction false} OnlyAt(ms: seq<Mbuf>, f: Mbuf -> bool, i: nat)
    requires i < |ms| && f(ms[i])
    ensures |Only(ms[..i], f)| < |Only(ms, f)| && Only(ms, f)[|Only(ms[..i], f)|] == ms[i]
  {
    assert ms[..i + 1] == ms[..i] + [ms[i]];
    OnlySnoc(ms[..i], ms[i], f);
    assert ms == ms[..i + 1] + ms[i + 1..];
    OnlyConcat(ms[..i + 1], ms[i + 1..], f);
  }

  /** A burst cycle over a network that loses nothing: the receiver gets 0, 1, 2 and so on of every stream. */
  lemma BurstArrives(arrived: seq<Mbuf>, f: Mbuf -> bool, number: nat -> nat, b: Burst, s: nat)
    requires IsBurst(b) && Arrives(arrived, f, number, OnWire(b, s))
    ensures NetworkLosesNothing(arrived, f, number)
  {
    hide IsBurst, Only, OnWire;
    forall i | 0 <= i < |arrived| && f(arrived[i]) ensures number(arrived[i].id) == |Only(arrived[..i], f)| {
      OnlyAt(arrived, f, i);
    }
  }

  // ---------------------------------------------------------------- R-GOOSE

  /** Where an arrival comes from: which configured stream, and which of its frames. */
  datatype Trace = Trace(stream: nat -> nat, number: nat -> nat)

  /** Configured generators and the receiver's table agree: stream i is entry i. */
  ghost predicate GooseBus(app: App, origins: seq<Delivery.GooseOrigin>, x: string, base: u32, entries: u16)
  {
    && StreamTable.IsGooseTable(app.gooses, base, entries) && |origins| == |app.gooses|
    && forall i :: 0 <= i < |origins| ==>
                     && origins[i].stream == i && Delivery.IsGooseOrigin(origins[i], app.mode)
                     && StreamTable.GoosePattern(origins[i], x, base, entries)
  }

  /** All GOOSE traffic comes from the configured streams. */
  ghost predicate GooseTraffic(app: App, arrived: seq<Mbuf>, origins: seq<Delivery.GooseOrigin>, t: Trace)
  {
    forall m :: m in arrived && (StreamOf(m).proto == Routable.Goose || StreamOf(m).proto == Routable.RGoose) ==>
                  && t.stream(m.id) < |origins|
                  && Delivery.IsGooseFrame(origins[t.stream(m.id)], app.crypto, t.number(m.id), m.packet)
  }

  /** Such a frame is known as the entry of its stream, and as no other. */
  lemma GooseRecognised(app: App, arrived: seq<Mbuf>, origins: seq<Delivery.GooseOrigin>, t: Trace, x: string, base: u32,
                        entries: u16, m: Mbuf)
    requires GooseBus(app, origins, x, base, entries) && GooseTraffic(app, arrived, origins, t) && m in arrived
    ensures GooseOutcome(app, m).Elsewhere? || (GooseOutcome(app, m).Known? && GooseOutcome(app, m).entry == t.stream(m.id))
    ensures GooseOutcome(app, m).Elsewhere? <==> StreamOf(m).proto != Routable.Goose && StreamOf(m).proto != Routable.RGoose
  {
    hide Delivery.IsGooseOrigin, StreamTable.GoosePattern, StreamTable.IsGooseTable, Delivery.IsGooseFrame, StreamOf, ReadGoose,
         ReadRGoose, InDomain;
    if StreamOf(m).proto == Routable.Goose || StreamOf(m).proto == Routable.RGoose {
      StreamTable.GooseFrameKnown(app, origins[t.stream(m.id)], x, base, entries, t.number(m.id), m);
    }
  }

  function Numbering(t: Trace, n: nat): (r: seq<nat -> nat>)
    ensures |r| == n && forall i :: 0 <= i < n ==> r[i] == t.number
  {
    seq<nat -> nat>(n, _ => t.number)
  }

  /** The network keeps the order of every stream. */
  ghost predicate KeepsOrder(app: App, arrived: seq<Mbuf>, t: Trace)
  {
    forall e :: 0 <= e < |app.gooses| ==> NetworkKeepsOrder(arrived, GooseKnown(app, e), t.number)
  }

  lemma GooseBusIsSent(app: App, arrived: seq<Mbuf>, origins: seq<Delivery.GooseOrigin>, t: Trace, x: string, base: u32, entries: u16)
    requires GooseBus(app, origins, x, base, entries) && GooseTraffic(app, arrived, origins, t) && KeepsOrder(app, arrived, t)
    ensures Delivery.GooseTableSent(app, arrived, origins, Numbering(t, |origins|))
  {
    hide Delivery.IsGooseOrigin, StreamTable.GoosePattern, StreamTable.IsGooseTable, Delivery.IsGooseFrame, StreamOf, GooseOutcome,
         NetworkKeepsOrder;
    forall e, m | 0 <= e < |origins| && m in arrived && GooseKnown(app, e)(m)
      ensures Delivery.IsGooseFrame(origins[e], app.crypto, t.number(m.id), m.packet)
    {
      GooseRecognised(app, arrived, origins, t, x, base, entries, m);
    }
  }

  /**
   The R-GOOSE bus.  All GOOSE traffic comes from configured streams, in each stream's order but with any
   losses on the network; any interleaving of dispatcher, workers and pipelines, with any drops: the gap count
   over the whole table is the verdict on what was delivered to each stream's source.
   */
  lemma GooseBusVerdict(app: App, s: RxDispatch.State, origins: seq<Delivery.GooseOrigin>, t: Trace, x: string, base: u32,
                        entries: u16)
    requires RxDispatch.Reachable(s) && GooseBus(app, origins, x, base, entries)
    requires GooseTraffic(app, s.arrived, origins, t) && KeepsOrder(app, s.arrived, t)
    ensures var runs := TableVerdict.GooseRuns(app, s.handled, Delivery.GooseLinesOf(origins, Numbering(t, |origins|)));
            CountableGoose(runs) ==> GooseVerdict(runs, Sum(GooseGaps(TableVerdict.AllGoose(app, s.handled))))
  {
    hide GooseBus, GooseTraffic, KeepsOrder, Delivery.GooseTableSent, GooseVerdict, CountableGoose, RxDispatch.Reachable, Sum,
         TableVerdict.GooseRuns, TableVerdict.AllGoose;
    GooseBusIsSent(app, s.arrived, origins, t, x, base, entries);
    Delivery.GooseTableOfRun(app, s, origins, Numbering(t, |origins|));
  }

  // ---------------------------------------------------------------- bursts over a lossless network

  /** The streams of each worker's burst cycle arrive: stream e is local stream e - lo of the worker whose slice holds it. */
  ghost predicate BurstsArrive(app: App, arrived: seq<Mbuf>, t: Trace, bursts: seq<Burst>)
  {
    && bursts != [] && (forall w :: 0 <= w < |bursts| ==> IsBurst(bursts[w]))
    && forall e, w :: 0 <= e < |app.gooses| && 0 <= w < |bursts|
                      && Slice(|app.gooses|, |bursts|, w).0 <= e < Slice(|app.gooses|, |bursts|, w).1 ==>
                        Arrives(arrived, GooseKnown(app, e), t.number, OnWire(bursts[w], e - Slice(|app.gooses|, |bursts|, w).0))
  }

  lemma BurstsLoseNothing(app: App, arrived: seq<Mbuf>, t: Trace, bursts: seq<Burst>, e: nat)
    requires BurstsArrive(app, arrived, t, bursts) && e < |app.gooses|
    ensures NetworkLosesNothing(arrived, GooseKnown(app, e), t.number)
    ensures NetworkKeepsOrder(arrived, GooseKnown(app, e), t.number)
  {
    hide IsBurst, Arrives, GooseKnown, NetworkKeepsOrder, NetworkLosesNothing, Slice, OnWire;
    var w := SliceOwner(|app.gooses|, |bursts|, e);
    BurstArrives(arrived, GooseKnown(app, e), t.number, bursts[w], e - Slice(|app.gooses|, |bursts|, w).0);
    LosslessKeepsOrder(arrived, GooseKnown(app, e), t.number);
  }

  /**
   Sender's burst loop to receiver's verdict.  Every worker sends bursts against any NIC, pool and stop flag;
   the network loses nothing; the ring-full counter is zero: then in every interleaving all counters of all
   entries are zero, and so is the gap count over the whole table.
   */
  lemma BurstBusHasNoGaps(app: App, s: RxDispatch.State, origins: seq<Delivery.GooseOrigin>, t: Trace, x: string, base: u32,
                          entries: u16, bursts: seq<Burst>)
    requires RxDispatch.Reachable(s) && GooseBus(app, origins, x, base, entries)
    requires GooseTraffic(app, s.arrived, origins, t) && BurstsArrive(app, s.arrived, t, bursts) && s.ringFull == 0
    ensures forall e :: 0 <= e < |app.gooses| ==>
              GooseAfter(app, s.handled, e).errSeqCnt == 0 && GooseAfter(app, s.handled, e).errSpduCnt == 0
    ensures Sum(GooseGaps(TableVerdict.AllGoose(app, s.handled))) == 0
  {
    hide GooseTraffic, BurstsArrive, GooseKnown, NetworkKeepsOrder, NetworkLosesNothing, RxDispatch.Run, AtHome, GooseNumbered,
         GooseAfter, Sum, Delivery.IsGooseOrigin, Delivery.GooseSent, StreamTable.IsGooseTable, StreamTable.GoosePattern;
    var workers: nat, capacity: nat, steps :|
      workers > 0 && RxDispatch.Run(RxDispatch.Init(workers, capacity), steps) == Some(s);
    forall e | 0 <= e < |app.gooses|
      ensures GooseAfter(app, s.handled, e).errSeqCnt == 0 && GooseAfter(app, s.handled, e).errSpduCnt == 0
      ensures NetworkKeepsOrder(s.arrived, GooseKnown(app, e), t.number)
    {
      BurstsLoseNothing(app, s.arrived, t, bursts, e);
      EntryHome(app, s.arrived, origins, t, x, base, entries, e);
      NoDropNoGap(app, workers, capacity, steps, e, Delivery.GooseHome(origins[e]), t.number, true);
    }
    SumMeans(GooseGaps(TableVerdict.AllGoose(app, s.handled)));
  }

  lemma EntryHome(app: App, arrived: seq<Mbuf>, origins: seq<Delivery.GooseOrigin>, t: Trace, x: string, base: u32, entries: u16,
                  e: nat)
    requires GooseBus(app, origins, x, base, entries) && GooseTraffic(app, arrived, origins, t) && e < |app.gooses|
    ensures AtHome(arrived, GooseKnown(app, e), Delivery.GooseHome(origins[e]))
    ensures GooseNumbered(app, arrived, e, t.number, true)
  {
    hide Delivery.IsGooseOrigin, StreamTable.GoosePattern, StreamTable.IsGooseTable, Delivery.IsGooseFrame, StreamOf, GooseOutcome,
         AtHome, GooseNumbered, Delivery.GooseHome;
    forall m | m in arrived && GooseKnown(app, e)(m)
      ensures Delivery.IsGooseFrame(origins[e], app.crypto, t.number(m.id), m.packet)
    {
      GooseRecognised(app, arrived, origins, t, x, base, entries, m);
    }
    Delivery.GooseSentNumbers(app, arrived, e, origins[e], t.number);
  }

  /**
   And with drops: every entry's report is its number of drop runs.  A run ends at the k-th handled frame if
   and only if the dispatcher dropped a frame of that stream between the one before and that one.
   */
  lemma BurstBusCountsDrops(app: App, s: RxDispatch.State, origins: seq<Delivery.GooseOrigin>, t: Trace, x: string, base: u32,
                            entries: u16, bursts: seq<Burst>, e: nat)
    requires RxDispatch.Reachable(s) && GooseBus(app, origins, x, base, entries)
    requires GooseTraffic(app, s.arrived, origins, t) && BurstsArrive(app, s.arrived, t, bursts) && e < |app.gooses|
    ensures var done := Only(s.handled, GooseKnown(app, e));
            var run := Numbers(done, t.number);
            && InOrder(run)
            && (Countable(run) && ShortLosses(run) ==> GooseGap(GooseAfter(app, s.handled, e)) == LossRuns(run))
            && forall k :: 0 <= k < |done| ==>
                 (LossBefore(run, k) <==>
                  exists m :: m in s.dropped && GooseKnown(app, e)(m) && HandledId(done, k - 1) < m.id < HandledId(done, k))
  {
    hide GooseTraffic, BurstsArrive, GooseKnown, NetworkKeepsOrder, NetworkLosesNothing, RxDispatch.Run, AtHome, GooseNumbered,
         GooseAfter, GooseBus, InOrder, Countable, ShortLosses, LossRuns, LossBefore, Only, GooseReport, VisibleRuns, SpduVisibleRuns,
         HandledId, Delivery.GooseHome;
    var workers: nat, capacity: nat, steps :|
      workers > 0 && RxDispatch.Run(RxDispatch.Init(workers, capacity), steps) == Some(s);
    var done := Only(s.handled, GooseKnown(app, e));
    var run := Numbers(done, t.number);
    BusSize(app, origins, x, base, entries);
    var home := Delivery.GooseHome(origins[e]);
    BurstsLoseNothing(app, s.arrived, t, bursts, e);
    EntryHome(app, s.arrived, origins, t, x, base, entries, e);
    EveryLossIsCounted(app, workers, capacity, steps, e, home, t.number, true);
    GooseReportMeans(run, true);
    if Countable(run) && ShortLosses(run) {
      assert GooseGap(GooseAfter(app, s.handled, e)) == GooseReport(run, true) == LossRuns(run);
    }
    forall k | 0 <= k < |done|
      ensures LossBefore(run, k) <==>
              exists m :: m in s.dropped && GooseKnown(app, e)(m) && HandledId(done, k - 1) < m.id < HandledId(done, k)
    {
      LossIsDrop(workers, capacity, steps, GooseKnown(app, e), home, t.number, k);
    }
  }

  lemma BusSize(app: App, origins: seq<Delivery.GooseOrigin>, x: string, base: u32, entries: u16)
    requires GooseBus(app, origins, x, base, entries)
    ensures |origins| == |app.gooses|
  {
  }
}
