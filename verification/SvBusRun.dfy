/** The R-SV bus: the counterpart of the R-GOOSE bus, for streams of any one ASDU count. */
module SvBusRun {
  import opened Bytes
  import opened Frames
  import opened Judging
  import opened Gaps
  import opened TxSchedule
  import opened EndToEnd
  import opened BusRun
  import Delivery
  import Routable
  import RxDispatch
  import StreamTable
  import SvApdu
  import TableVerdict

  /** Configured generators and the receiver's table agree: stream i is entry i, and all fit the four digits. */
  ghost predicate SvBus(app: App, origins: seq<Delivery.SvOrigin>, x: string, base: u32, asdus: u16)
  {
    && StreamTable.IsSvTable(app.svs, base, asdus) && |origins| == |app.svs| <= 9999
    && forall i :: 0 <= i < |origins| ==>
                     && origins[i].stream == i && Delivery.IsSvOrigin(origins[i], app.mode)
                     && StreamTable.SvPattern(origins[i], x, base) && SvApdu.ReportOf(origins[i].pdu).num == asdus
  }

  /** All SV traffic comes from the configured streams. */
  ghost predicate SvTraffic(app: App, arrived: seq<Mbuf>, origins: seq<Delivery.SvOrigin>, t: Trace)
  {
    forall m :: m in arrived && (StreamOf(m).proto == Routable.Sv || StreamOf(m).proto == Routable.RSv) ==>
                  && t.stream(m.id) < |origins|
                  && Delivery.IsSvFrame(origins[t.stream(m.id)], app.crypto, t.number(m.id), m.packet)
  }

  /** Such a frame is known as the entry of its stream, and as no other. */
  lemma SvRecognised(app: App, arrived: seq<Mbuf>, origins: seq<Delivery.SvOrigin>, t: Trace, x: string, base: u32, asdus: u16,
                     m: Mbuf)
    requires SvBus(app, origins, x, base, asdus) && SvTraffic(app, arrived, origins, t) && m in arrived
    ensures SvOutcome(app, m).Elsewhere? || (SvOutcome(app, m).Known? && SvOutcome(app, m).entry == t.stream(m.id))
    ensures SvOutcome(app, m).Elsewhere? <==> StreamOf(m).proto != Routable.Sv && StreamOf(m).proto != Routable.RSv
  {
    hide Delivery.IsSvOrigin, StreamTable.SvPattern, StreamTable.IsSvTable, Delivery.IsSvFrame, StreamOf, ReadSv, ReadRSv,
         SvApdu.ReportOf;
    if StreamOf(m).proto == Routable.Sv || StreamOf(m).proto == Routable.RSv {
      StreamTable.SvFrameKnown(app, origins[t.stream(m.id)], x, base, t.number(m.id), m);
    }
  }

  ghost predicate SvKeepsOrder(app: App, arrived: seq<Mbuf>, t: Trace)
  {
    forall e :: 0 <= e < |app.svs| ==> NetworkKeepsOrder(arrived, SvKnown(app, e), t.number)
  }

  lemma SvBusIsSent(app: App, arrived: seq<Mbuf>, origins: seq<Delivery.SvOrigin>, t: Trace, x: string, base: u32, asdus: u16)
    requires SvBus(app, origins, x, base, asdus) && SvTraffic(app, arrived, origins, t) && SvKeepsOrder(app, arrived, t)
    ensures Delivery.SvTableSent(app, arrived, origins, Numbering(t, |origins|))
  {
    hide Delivery.IsSvOrigin, StreamTable.SvPattern, StreamTable.IsSvTable, Delivery.IsSvFrame, StreamOf, SvOutcome,
         NetworkKeepsOrder, SvApdu.ReportOf;
    forall e, m | 0 <= e < |origins| && m in arrived && SvKnown(app, e)(m)
      ensures Delivery.IsSvFrame(origins[e], app.crypto, t.number(m.id), m.packet)
    {
      SvRecognised(app, arrived, origins, t, x, base, asdus, m);
    }
  }

  /** The gap count over a whole table of configured R-SV streams is the verdict on what was delivered. */
  lemma SvBusVerdict(app: App, s: RxDispatch.State, origins: seq<Delivery.SvOrigin>, t: Trace, x: string, base: u32, asdus: u16)
    requires RxDispatch.Reachable(s) && SvBus(app, origins, x, base, asdus)
    requires SvTraffic(app, s.arrived, origins, t) && SvKeepsOrder(app, s.arrived, t)
    ensures var runs := TableVerdict.SvRuns(app, s.handled, Delivery.SvLinesOf(origins, Numbering(t, |origins|)));
            CountableSv(runs) ==> SvVerdict(runs, Sum(SvGaps(TableVerdict.AllSv(app, s.handled))))
  {
    hide SvBus, SvTraffic, SvKeepsOrder, Delivery.SvTableSent, SvVerdict, CountableSv, RxDispatch.Reachable, Sum,
         TableVerdict.SvRuns, TableVerdict.AllSv;
    SvBusIsSent(app, s.arrived, origins, t, x, base, asdus);
    Delivery.SvTableOfRun(app, s, origins, Numbering(t, |origins|));
  }

  /** The streams of each worker's burst cycle arrive. */
  ghost predicate SvBurstsArrive(app: App, arrived: seq<Mbuf>, t: Trace, bursts: seq<Burst>)
  {
    && bursts != [] && (forall w :: 0 <= w < |bursts| ==> IsBurst(bursts[w]))
    && forall e, w :: 0 <= e < |app.svs| && 0 <= w < |bursts|
                      && Slice(|app.svs|, |bursts|, w).0 <= e < Slice(|app.svs|, |bursts|, w).1 ==>
                        Arrives(arrived, SvKnown(app, e), t.number, OnWire(bursts[w], e - Slice(|app.svs|, |bursts|, w).0))
  }

  lemma SvBurstsLoseNothing(app: App, arrived: seq<Mbuf>, t: Trace, bursts: seq<Burst>, e: nat)
    requires SvBurstsArrive(app, arrived, t, bursts) && e < |app.svs|
    ensures NetworkLosesNothing(arrived, SvKnown(app, e), t.number)
  {
    hide IsBurst, Arrives, SvKnown, NetworkLosesNothing, Slice, OnWire;
    var w := SliceOwner(|app.svs|, |bursts|, e);
    BurstArrives(arrived, SvKnown(app, e), t.number, bursts[w], e - Slice(|app.svs|, |bursts|, w).0);
  }

  lemma SvEntryHome(app: App, arrived: seq<Mbuf>, origins: seq<Delivery.SvOrigin>, t: Trace, x: string, base: u32, asdus: u16, e: nat)
    requires SvBus(app, origins, x, base, asdus) && SvTraffic(app, arrived, origins, t) && e < |app.svs|
    ensures AtHome(arrived, SvKnown(app, e), Delivery.SvHome(origins[e]))
    ensures IsProfile(origins[e].p) && SvNumbered(origins[e].p, app, arrived, e, t.number, true)
  {
    hide Delivery.IsSvOrigin, StreamTable.SvPattern, StreamTable.IsSvTable, Delivery.IsSvFrame, StreamOf, SvOutcome,
         AtHome, SvNumbered, Delivery.SvHome, SvApdu.ReportOf, IsProfile;
    forall m | m in arrived && SvKnown(app, e)(m)
      ensures Delivery.IsSvFrame(origins[e], app.crypto, t.number(m.id), m.packet)
    {
      SvRecognised(app, arrived, origins, t, x, base, asdus, m);
    }
    Delivery.SvSentNumbers(app, arrived, e, origins[e], t.number);
  }

  /**
   Burst loops, a lossless network and a ring-full counter of zero: in every interleaving all counters of all SV
   entries are zero, and so is the gap count over the whole table.
   */
  lemma BurstSvBusHasNoGaps(app: App, s: RxDispatch.State, origins: seq<Delivery.SvOrigin>, t: Trace, x: string, base: u32,
                            asdus: u16, bursts: seq<Burst>)
    requires RxDispatch.Reachable(s) && SvBus(app, origins, x, base, asdus)
    requires SvTraffic(app, s.arrived, origins, t) && SvBurstsArrive(app, s.arrived, t, bursts) && s.ringFull == 0
    ensures forall e :: 0 <= e < |app.svs| ==>
              SvAfter(app, s.handled, e).errSmpCnt == 0 && SvAfter(app, s.handled, e).errSpduCnt == 0
    ensures Sum(SvGaps(TableVerdict.AllSv(app, s.handled))) == 0
  {
    hide SvTraffic, SvBurstsArrive, SvKnown, NetworkLosesNothing, RxDispatch.Run, AtHome, SvNumbered, IsProfile,
         SvAfter, Sum, Delivery.IsSvOrigin, StreamTable.IsSvTable, StreamTable.SvPattern, SvApdu.ReportOf;
    var workers: nat, capacity: nat, steps :|
      workers > 0 && RxDispatch.Run(RxDispatch.Init(workers, capacity), steps) == Some(s);
    forall e | 0 <= e < |app.svs|
      ensures SvAfter(app, s.handled, e).errSmpCnt == 0 && SvAfter(app, s.handled, e).errSpduCnt == 0
    {
      SvBurstsLoseNothing(app, s.arrived, t, bursts, e);
      SvEntryHome(app, s.arrived, origins, t, x, base, asdus, e);
      NoDropNoSvGap(origins[e].p, app, workers, capacity, steps, e, Delivery.SvHome(origins[e]), t.number, true);
    }
    SumMeans(SvGaps(TableVerdict.AllSv(app, s.handled)));
  }
}
