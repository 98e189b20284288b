/**
 From generator to verdict: what the receiver reads from the n-th frame of a stream, and what its
 counters then say about a run of such frames.
 */
module Delivery {
  import opened Bytes
  import opened Frames
  import opened Judging
  import opened Gaps
  import opened Amend
  import opened RGenerators
  import opened RSession
  import RFrame
  import Routable
  import Writes
  import GooseWalk
  import GooseAmended
  import SvApdu
  import SvAmended
  import RxDispatch
  import Streams
  import EndToEnd
  import TableVerdict

  /** The frame as the NIC delivers it, at the head of some data room: its checksum verified in hardware, or not. */
  ghost predicate Delivered(p: Packet, frame: bytes)
  {
    Frame(p) == frame && p.nic != Routable.NicBad
  }

  /** What software would accept is accepted whatever the NIC said, unless it found the checksum bad. */
  lemma NicAgrees(f: bytes, nic: Routable.NicChecksum)
    requires nic != Routable.NicBad && Routable.Validate(f, Routable.Unknown).Accepted?
    ensures Routable.Validate(f, nic) == Routable.Validate(f, Routable.Unknown)
  {
  }

  lemma FreshDmac(l: Layout, c: Crypto, stream: nat, spdu: u32, ws: seq<Writes.Write>)
    requires |l.cfg.srcMac| == 6 && Writes.InRange(ws, |l.apdu|)
    ensures Dmac(FreshFrame(l, c, stream, spdu, ws)) == RFrame.MulticastMac(StreamDst(l.cfg.dstIP, stream))
  {
    hide RFrame.IpHeader, RFrame.UdpHeader, Routable.Wire, RFrame.MulticastMac;
  }

  /** Protocol and key depend on the frame only. */
  lemma ClassOfFrame(p: Packet)
    requires p.size >= 73
    ensures Routable.ProtoType(p.memory, p.size) == Routable.ProtoType(Frame(p), p.size)
  {
  }

  // ---------------------------------------------------------------- R-GOOSE

  /** A routable GOOSE generator over a well-formed skeleton. */
  ghost predicate GooseSender(l: Layout, k: GooseAmended.Skeleton, o: GooseOffsets)
  {
    && Fits(l) && l.si == SI_R_GOOSE && l.payloadType == TYPE_GOOSE && l.apdu == GooseAmended.ApduOf(k)
    && GooseAmended.IsSkeleton(k) && GooseAmended.Located(k, o)
  }

  /** The identity that the frames of a stream show: the skeleton's, with the stream's group, APPID and ID digits. */
  ghost function GooseIdOf(l: Layout, k: GooseAmended.Skeleton, o: GooseOffsets, stream: nat, sId: bytes): (id: GooseId)
    requires GooseSender(l, k, o) && |sId| == 8 && GooseWalk.WalkApdu(l.apdu, 0).Done?
  {
    var numbers := GooseWalk.WalkApdu(l.apdu, 0).goose.numbers;
    var ip := StreamDst(l.cfg.dstIP, stream);
    GooseId(RFrame.MulticastMac(ip), AppId(stream), ip, Overlay(GooseAmended.ValueWith(k, 0x83), 4, sId),
            Overlay(GooseAmended.ValueWith(k, 0x82), 3, sId), Overlay(GooseAmended.ValueWith(k, 0x80), 3, sId),
            numbers.crev, numbers.num)
  }

  /**
   The receiver reads from the frame of a stream in any state exactly that stream's identity and that
   state's numbers, in every security mode, and the frame is within the parser's domain.
   */
  lemma GooseFrameReads(l: Layout, k: GooseAmended.Skeleton, o: GooseOffsets, c: Backend, stream: nat, ied: GooseIed, p: Packet)
    requires GooseSender(l, k, o) && |ied.sId| == 8
    requires Writes.InRange(GooseWrites(o, ied), |l.apdu|)
    requires Delivered(p, FreshFrame(l, c, stream, ied.spduNumber, GooseWrites(o, ied)))
    ensures GooseWalk.WalkApdu(l.apdu, 0).Done?
    ensures StreamOf(Mbuf(0, p)) == Stream(Routable.RGoose, AppId(stream)) && RGooseInDomain(p, l.mode, c)
    ensures ReadRGoose(p, l.mode, c) ==
            Read(GooseIdOf(l, k, o, stream, ied.sId), GooseUpdate(Some(ied.spduNumber), ied.stNum, ied.sqNum))
  {
    hide FreshFrame, Lawful, GooseAmended.IsSkeleton, GooseAmended.Located, GooseAmended.ApduOf, GooseWrites,
         Routable.Unwrap, Routable.Validate, Routable.ProtoType, GooseWalk.WalkApdu, GooseWalk.ApduEndsOnTag, RFrame.MulticastMac;
    var ws := GooseWrites(o, ied);
    FreshRoundTrip(l, c, stream, ied.spduNumber, ws);
    FreshDmac(l, c, stream, ied.spduNumber, ws);
    GooseAmended.AmendedGooseReads(k, o, ied, 0);
    ClassOfFrame(p);
    OpenedInside(Frame(p), SI_R_GOOSE, TYPE_GOOSE, l.mode, c);
    NicAgrees(Frame(p), p.nic);
  }

  /** A generated stream: its generator's layout, skeleton and offsets, its global number, and its state before the first frame. */
  datatype GooseOrigin = GooseOrigin(l: Layout, k: GooseAmended.Skeleton, o: GooseOffsets, stream: nat, first: GooseIed, delta: u32)

  ghost predicate IsGooseOrigin(g: GooseOrigin, mode: Mode)
  {
    && GooseSender(g.l, g.k, g.o) && g.l.mode == mode
    && |g.first.sId| == 8 && g.first.stNum == 0 && g.first.spduNumber == 0
  }

  /** The packet holds frame number `n` of the stream. */
  ghost predicate IsGooseFrame(g: GooseOrigin, c: Backend, n: nat, packet: Packet)
  {
    var ied := GooseSteps(g.first, g.delta, n + 1);
    && Writes.InRange(GooseWrites(g.o, ied), |g.l.apdu|) && |g.l.cfg.srcMac| == 6
    && Delivered(packet, FreshFrame(g.l, c, g.stream, ied.spduNumber, GooseWrites(g.o, ied)))
  }

  /** Arrivals that are taken for those of an entry are frames of one stream, by their number. */
  ghost predicate GooseSent(app: App, ms: seq<Mbuf>, e: nat, g: GooseOrigin, number: nat -> nat)
  {
    forall m :: m in ms && EndToEnd.GooseKnown(app, e)(m) ==> IsGooseFrame(g, app.crypto, number(m.id), m.packet)
  }

  function GooseHome(g: GooseOrigin): (s: Stream)
  {
    Stream(Routable.RGoose, AppId(g.stream))
  }

  /** Frame n: dispatched by the stream's APPID, and read with the numbers that the gap analysis takes it to carry. */
  lemma GooseFrameNumbers(g: GooseOrigin, mode: Mode, c: Backend, n: nat, m: Mbuf)
    requires IsGooseOrigin(g, mode) && IsGooseFrame(g, c, n, m.packet)
    ensures StreamOf(m) == GooseHome(g) && RGooseInDomain(m.packet, mode, c)
    ensures GooseWalk.WalkApdu(g.l.apdu, 0).Done?
    ensures ReadRGoose(m.packet, mode, c) ==
            Read(GooseIdOf(g.l, g.k, g.o, g.stream, g.first.sId), GooseUpdate(Some(Carried(n)), Carried(n), g.first.sqNum))
  {
    hide FreshFrame, Lawful, GooseSender, GooseWrites, Delivered, StreamOf, GooseSteps, ReadRGoose, RGooseInDomain, GooseWalk.WalkApdu;
    var ied := GooseSteps(g.first, g.delta, n + 1);
    GooseCounters(g.first, g.delta, n + 1);
    GooseFrameReads(g.l, g.k, g.o, c, g.stream, ied, m.packet);
    SamePacket(m);
  }

  lemma SamePacket(m: Mbuf)
    ensures StreamOf(m) == StreamOf(Mbuf(0, m.packet))
  {
  }

  /** So the frames of an entry are at home under the stream's APPID, and numbered. */
  lemma GooseSentNumbers(app: App, ms: seq<Mbuf>, e: nat, g: GooseOrigin, number: nat -> nat)
    requires IsGooseOrigin(g, app.mode) && GooseSent(app, ms, e, g, number)
    ensures EndToEnd.AtHome(ms, EndToEnd.GooseKnown(app, e), GooseHome(g))
    ensures EndToEnd.GooseNumbered(app, ms, e, number, true)
  {
    hide IsGooseOrigin, IsGooseFrame, StreamOf, ReadRGoose, ReadGoose, RGooseInDomain, Lawful, GooseIdOf, GooseWalk.WalkApdu;
    forall m | m in ms && EndToEnd.GooseKnown(app, e)(m)
      ensures StreamOf(m) == GooseHome(g)
      ensures var u := GooseOutcome(app, m).update;
              u.stNum == Carried(number(m.id)) && u.spdu == Some(Carried(number(m.id)))
    {
      GooseFrameNumbers(g, app.mode, app.crypto, number(m.id), m);
    }
  }

  /**
   Generator to verdict.  In every reachable state of dispatcher, workers and pipelines over any arrivals in
   which the frames of a table entry are those of one generated R-GOOSE stream, in order but with any losses
   on the network and any drops on the rings: both counters of the entry's source, over runs of any length,
   and the report they make.
   */
  lemma GooseVerdictOfRun(app: App, s: RxDispatch.State, e: nat, g: GooseOrigin, number: nat -> nat)
    requires IsGooseOrigin(g, app.mode) && RxDispatch.Reachable(s) && GooseSent(app, s.arrived, e, g, number)
    requires EndToEnd.NetworkKeepsOrder(s.arrived, EndToEnd.GooseKnown(app, e), number)
    ensures var v, run := EndToEnd.GooseAfter(app, s.handled, e),
                          EndToEnd.Numbers(Only(s.handled, EndToEnd.GooseKnown(app, e)), number);
            && InOrder(run) && v.errSeqCnt == VisibleRuns(run) % U32 && v.errSpduCnt == SpduVisibleRuns(run) % U32
            && (Countable(run) ==> GooseGap(v) == GooseReport(run, true))
            && (Countable(run) && ShortLosses(run) ==> GooseGap(v) == LossRuns(run))
  {
    hide IsGooseOrigin, GooseSent, RxDispatch.Run, EndToEnd.GooseKnown, EndToEnd.NetworkKeepsOrder, EndToEnd.AtHome,
         EndToEnd.GooseNumbered, InOrder, LossRuns, EndToEnd.GooseAfter, VisibleRuns, SpduVisibleRuns, GooseHome, GooseReport, Only,
         ShortLosses;
    var workers: nat, capacity: nat, steps :|
      workers > 0 && RxDispatch.Run(RxDispatch.Init(workers, capacity), steps) == Some(s);
    GooseSentNumbers(app, s.arrived, e, g, number);
    EndToEnd.EveryLossIsCounted(app, workers, capacity, steps, e, GooseHome(g), number, true);
    GooseReportMeans(EndToEnd.Numbers(Only(s.handled, EndToEnd.GooseKnown(app, e)), number), true);
  }

  /** Every entry of the GOOSE table is fed by a generated stream of its own. */
  ghost predicate GooseTableSent(app: App, arrived: seq<Mbuf>, origins: seq<GooseOrigin>, numbers: seq<nat -> nat>)
  {
    && |origins| == |numbers| == |app.gooses|
    && forall e :: 0 <= e < |origins| ==>
                     && IsGooseOrigin(origins[e], app.mode) && GooseSent(app, arrived, e, origins[e], numbers[e])
                     && EndToEnd.NetworkKeepsOrder(arrived, EndToEnd.GooseKnown(app, e), numbers[e])
  }

  function GooseLinesOf(origins: seq<GooseOrigin>, numbers: seq<nat -> nat>): (lines: seq<TableVerdict.Line>)
    requires |origins| == |numbers|
    ensures |lines| == |origins|
    ensures forall e :: 0 <= e < |lines| ==> lines[e] == TableVerdict.Line(GooseHome(origins[e]), true, numbers[e])
  {
    seq(|origins|, e requires 0 <= e < |origins| => TableVerdict.Line(GooseHome(origins[e]), true, numbers[e]))
  }

  /** The gaps of a whole table of generated R-GOOSE streams, in every reachable state, are the verdict on what was delivered. */
  lemma GooseTableOfRun(app: App, s: RxDispatch.State, origins: seq<GooseOrigin>, numbers: seq<nat -> nat>)
    requires RxDispatch.Reachable(s) && GooseTableSent(app, s.arrived, origins, numbers)
    ensures var lines := GooseLinesOf(origins, numbers);
            var runs := TableVerdict.GooseRuns(app, s.handled, lines);
            && TableVerdict.GooseLines(app, s.arrived, lines)
            && (CountableGoose(runs) ==> GooseVerdict(runs, Sum(GooseGaps(TableVerdict.AllGoose(app, s.handled)))))
  {
    hide IsGooseOrigin, GooseSent, RxDispatch.Reachable, EndToEnd.GooseKnown, EndToEnd.NetworkKeepsOrder, EndToEnd.AtHome,
         EndToEnd.GooseNumbered, GooseHome, CountableGoose, GooseVerdict, Sum, TableVerdict.GooseRuns, TableVerdict.AllGoose,
         GooseLinesOf;
    var lines := GooseLinesOf(origins, numbers);
    forall e | 0 <= e < |lines| ensures TableVerdict.GooseLine(app, s.arrived, e, lines[e]) {
      GooseSentNumbers(app, s.arrived, e, origins[e], numbers[e]);
    }
    var runs := TableVerdict.GooseRuns(app, s.handled, lines);
    if CountableGoose(runs) {
      TableVerdict.GooseTableReports(app, s, lines);
      GooseTotalMeans(runs);
    }
  }

  // ---------------------------------------------------------------- R-SV

  /** A routable SV generator over a well-formed skeleton of `p.num` ASDUs. */
  ghost predicate SvSender(p: SvProfile, l: Layout, pdu: SvApdu.SvPdu, offs: seq<AsduOffsets>)
  {
    && IsProfile(p) && Fits(l) && l.si == SI_R_SV && l.payloadType == TYPE_SV
    && l.apdu == SvApdu.FieldBytes(SvApdu.PduField(pdu)) && SvApdu.IsSvPdu(pdu) && |pdu.asdus| == p.num
    && SvAmended.AllAmendable(pdu.asdus) && SvAmended.Located(pdu, offs)
  }

  ghost function SvIdOf(p: SvProfile, l: Layout, pdu: SvApdu.SvPdu, offs: seq<AsduOffsets>, stream: nat, sId: bytes): (id: SvId)
    requires SvSender(p, l, pdu, offs) && |sId| == 4 && pdu.asdus != [] && |SvApdu.ReportOf(pdu).svid| >= 8
  {
    var report, ip := SvApdu.ReportOf(pdu), StreamDst(l.cfg.dstIP, stream);
    SvId(RFrame.MulticastMac(ip), AppId(stream), report.num, report.confRev, ip, Overlay(report.svid, 4, sId))
  }

  /** Samples in one second. */
  function Freq(p: SvProfile): (n: nat)
  {
    p.num * p.period
  }

  /** The stores of one SV frame of a stream that stands at sample `cnt`. */
  function SvStores(p: SvProfile, offs: seq<AsduOffsets>, ied: SvIed): (ws: seq<Writes.Write>)
    requires p.num <= |offs|
  {
    SvWrites(offs, ied.sId, ied.smpCnt, Freq(p), p.num)
  }

  lemma SvFrameReads(p: SvProfile, l: Layout, pdu: SvApdu.SvPdu, offs: seq<AsduOffsets>, c: Backend, stream: nat,
                     ied: SvIed, spdu: u32, packet: Packet)
    requires SvSender(p, l, pdu, offs) && |ied.sId| == 4 && p.num <= |offs|
    requires Writes.InRange(SvStores(p, offs, ied), |l.apdu|)
    requires Delivered(packet, FreshFrame(l, c, stream, spdu, SvStores(p, offs, ied)))
    ensures pdu.asdus != [] && |SvApdu.ReportOf(pdu).svid| >= 8 && p.num < U16
    ensures StreamOf(Mbuf(0, packet)) == Stream(Routable.RSv, AppId(stream))
    ensures ReadRSv(packet, l.mode, c) == Read(SvIdOf(p, l, pdu, offs, stream, ied.sId), SvUpdate(Some(spdu), p.num, ied.smpCnt))
  {
    hide FreshFrame, Lawful, SvApdu.IsSvPdu, SvAmended.Located, SvApdu.FieldBytes, SvApdu.PduField, SvWrites, SvApdu.PduTree,
         Routable.Unwrap, Routable.Validate, Routable.ProtoType, RFrame.MulticastMac, SvAmended.AllAmendable, SvApdu.ValueOf;
    var ws := SvStores(p, offs, ied);
    FreshRoundTrip(l, c, stream, spdu, ws);
    FreshDmac(l, c, stream, spdu, ws);
    SvAmended.AmendedSvReads(pdu, offs, ied.sId, ied.smpCnt, Freq(p));
    NumFits(p);
    ClassOfFrame(packet);
    NicAgrees(Frame(packet), packet.nic);
  }

  /** A generated SV stream. */
  datatype SvOrigin = SvOrigin(p: SvProfile, l: Layout, pdu: SvApdu.SvPdu, offs: seq<AsduOffsets>, stream: nat, first: SvIed)

  ghost predicate IsSvOrigin(g: SvOrigin, mode: Mode)
  {
    && SvSender(g.p, g.l, g.pdu, g.offs) && g.l.mode == mode && g.p.num <= |g.offs|
    && |g.first.sId| == 4 && g.first.smpCnt == 0 && g.first.spduNumber == 0
  }

  /** The packet holds frame number `n` of the stream: its first sample is where n frames have left the counter. */
  ghost predicate IsSvFrame(g: SvOrigin, c: Backend, n: nat, packet: Packet)
  {
    && g.p.num <= |g.offs| && |g.l.cfg.srcMac| == 6
    && var before, after := SvSteps(g.first, Freq(g.p), g.p.num, n), SvSteps(g.first, Freq(g.p), g.p.num, n + 1);
       var ws := SvStores(g.p, g.offs, before);
       Writes.InRange(ws, |g.l.apdu|) && Delivered(packet, FreshFrame(g.l, c, g.stream, after.spduNumber, ws))
  }

  /** Arrivals that are taken for those of an SV entry are frames of one stream, by their number. */
  ghost predicate SvSent(app: App, ms: seq<Mbuf>, e: nat, g: SvOrigin, number: nat -> nat)
  {
    forall m :: m in ms && EndToEnd.SvKnown(app, e)(m) ==> IsSvFrame(g, app.crypto, number(m.id), m.packet)
  }

  function SvHome(g: SvOrigin): (s: Stream)
  {
    Stream(Routable.RSv, AppId(g.stream))
  }

  lemma SvFrameNumbers(g: SvOrigin, mode: Mode, c: Backend, n: nat, m: Mbuf)
    requires IsSvOrigin(g, mode) && IsSvFrame(g, c, n, m.packet)
    ensures IsProfile(g.p) && g.p.num < U16 && g.pdu.asdus != [] && |SvApdu.ReportOf(g.pdu).svid| >= 8
    ensures StreamOf(m) == SvHome(g)
    ensures ReadRSv(m.packet, mode, c) ==
            Read(SvIdOf(g.p, g.l, g.pdu, g.offs, g.stream, g.first.sId), SvUpdate(Some(Carried(n)), g.p.num, Sample(g.p, n)))
  {
    hide FreshFrame, Lawful, SvStores, Delivered, StreamOf, SvSteps, ReadRSv, SvApdu.IsSvPdu, SvAmended.Located, Fits,
         SvApdu.FieldBytes, SvApdu.PduField, SvAmended.AllAmendable, SvApdu.ReportOf;
    var before, spdu := SvSteps(g.first, Freq(g.p), g.p.num, n), SvSteps(g.first, Freq(g.p), g.p.num, n + 1).spduNumber;
    Streams.SvCarries(g.p, g.first, n);
    SvCounters(g.first, Freq(g.p), g.p.num, n);
    SvFrameReads(g.p, g.l, g.pdu, g.offs, c, g.stream, before, spdu, m.packet);
    SamePacket(m);
  }

  lemma SvSentNumbers(app: App, ms: seq<Mbuf>, e: nat, g: SvOrigin, number: nat -> nat)
    requires IsSvOrigin(g, app.mode) && SvSent(app, ms, e, g, number)
    ensures EndToEnd.AtHome(ms, EndToEnd.SvKnown(app, e), SvHome(g))
    ensures IsProfile(g.p) && EndToEnd.SvNumbered(g.p, app, ms, e, number, true)
  {
    hide IsSvFrame, StreamOf, ReadRSv, ReadSv, Lawful, SvIdOf, SvApdu.IsSvPdu, SvAmended.Located, SvApdu.FieldBytes, Fits,
         SvApdu.PduField, SvAmended.AllAmendable, SvApdu.ReportOf;
    forall m | m in ms && EndToEnd.SvKnown(app, e)(m)
      ensures StreamOf(m) == SvHome(g)
      ensures var u := SvOutcome(app, m).update;
              && u.smpCnt == Sample(g.p, number(m.id)) && u.num == g.p.num && u.spdu == Some(Carried(number(m.id)))
    {
      SvFrameNumbers(g, app.mode, app.crypto, number(m.id), m);
    }
  }

  /** The same for an entry of a generated R-SV stream, of any profile. */
  lemma SvVerdictOfRun(app: App, s: RxDispatch.State, e: nat, g: SvOrigin, number: nat -> nat)
    requires IsSvOrigin(g, app.mode) && RxDispatch.Reachable(s) && SvSent(app, s.arrived, e, g, number)
    requires EndToEnd.NetworkKeepsOrder(s.arrived, EndToEnd.SvKnown(app, e), number)
    ensures var v, run := EndToEnd.SvAfter(app, s.handled, e),
                          EndToEnd.Numbers(Only(s.handled, EndToEnd.SvKnown(app, e)), number);
            && InOrder(run) && IsProfile(g.p)
            && v.errSmpCnt == SvVisibleRuns(g.p, run) % U32 && v.errSpduCnt == SpduVisibleRuns(run) % U32
            && (Countable(run) ==> SvGap(v) == SvReport(g.p, run, true))
            && (Countable(run) && SessionSees(run) ==> SvGap(v) == LossRuns(run))
  {
    hide IsSvOrigin, SvSent, RxDispatch.Run, EndToEnd.SvKnown, EndToEnd.NetworkKeepsOrder, EndToEnd.AtHome, EndToEnd.SvNumbered,
         InOrder, LossRuns, EndToEnd.SvAfter, SvVisibleRuns, SpduVisibleRuns, SvHome, SvReport, IsProfile, Only, SessionSees;
    var workers: nat, capacity: nat, steps :|
      workers > 0 && RxDispatch.Run(RxDispatch.Init(workers, capacity), steps) == Some(s);
    SvSentNumbers(app, s.arrived, e, g, number);
    EndToEnd.EverySvLossIsCounted(g.p, app, workers, capacity, steps, e, SvHome(g), number, true);
    SvReportMeans(g.p, EndToEnd.Numbers(Only(s.handled, EndToEnd.SvKnown(app, e)), number), true);
  }

  /** Every entry of the SV table is fed by a generated stream of its own, of whatever profile. */
  ghost predicate SvTableSent(app: App, arrived: seq<Mbuf>, origins: seq<SvOrigin>, numbers: seq<nat -> nat>)
  {
    && |origins| == |numbers| == |app.svs|
    && forall e :: 0 <= e < |origins| ==>
                     && IsSvOrigin(origins[e], app.mode) && SvSent(app, arrived, e, origins[e], numbers[e])
                     && EndToEnd.NetworkKeepsOrder(arrived, EndToEnd.SvKnown(app, e), numbers[e])
  }

  function SvLinesOf(origins: seq<SvOrigin>, numbers: seq<nat -> nat>): (lines: seq<TableVerdict.SvLine>)
    requires |origins| == |numbers|
    ensures |lines| == |origins|
    ensures forall e :: 0 <= e < |lines| ==>
              lines[e] == TableVerdict.SvLine(origins[e].p, SvHome(origins[e]), true, numbers[e])
  {
    seq(|origins|, e requires 0 <= e < |origins| => TableVerdict.SvLine(origins[e].p, SvHome(origins[e]), true, numbers[e]))
  }

  lemma SvTableOfRun(app: App, s: RxDispatch.State, origins: seq<SvOrigin>, numbers: seq<nat -> nat>)
    requires RxDispatch.Reachable(s) && SvTableSent(app, s.arrived, origins, numbers)
    ensures var lines := SvLinesOf(origins, numbers);
            var runs := TableVerdict.SvRuns(app, s.handled, lines);
            && TableVerdict.SvLines(app, s.arrived, lines)
            && (CountableSv(runs) ==> SvVerdict(runs, Sum(SvGaps(TableVerdict.AllSv(app, s.handled)))))
  {
    hide IsSvOrigin, SvSent, RxDispatch.Reachable, EndToEnd.SvKnown, EndToEnd.NetworkKeepsOrder, EndToEnd.AtHome,
         EndToEnd.SvNumbered, SvHome, CountableSv, SvVerdict, Sum, TableVerdict.SvRuns, TableVerdict.AllSv, SvLinesOf, IsProfile;
    var lines := SvLinesOf(origins, numbers);
    forall e | 0 <= e < |lines| ensures TableVerdict.IsSvLine(app, s.arrived, e, lines[e]) {
      SvSentNumbers(app, s.arrived, e, origins[e], numbers[e]);
    }
    var runs := TableVerdict.SvRuns(app, s.handled, lines);
    if CountableSv(runs) {
      TableVerdict.SvTableReports(app, s, lines);
      SvTotalMeans(runs);
    }
  }
}
