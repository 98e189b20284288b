/**
 What the receiver makes of one frame: passport and state read from its bytes, and the entry of the
 stream table they belong to.
 */
module Judging {
  import opened Bytes
  import opened Frames
  import opened Gaps
  import opened RSession
  import opened Routable
  import AppIdContainer
  import GooseWalk
  import RFrame
  import SvApdu

  // ---------------------------------------------------------------- passports

  /** Identity of a GOOSE stream; the destination group is zero for L2. */
  datatype GooseId = GooseId(dmac: bytes, appid: u16, dstIP: u32, goid: bytes, dataset: bytes, gocbref: bytes,
                             crev: u32, num: u16)

  datatype SvId = SvId(dmac: bytes, appid: u16, num: u16, crev: u32, dstIP: u32, svid: bytes)

  function GooseKey(): (f: GooseId -> u16)
  {
    (k: GooseId) => k.appid
  }

  function SvKey(): (f: SvId -> u16)
  {
    (k: SvId) => k.appid
  }

  // ---------------------------------------------------------------- reading a frame

  /** A parser's result; Undefined for lengths outside the parser's domain. */
  datatype Reading<+I, +U> = Undefined | Failed(code: int) | Read(id: I, update: U)

  function Frame(p: Packet): (f: bytes)
    ensures |f| == p.size
  {
    p.memory[..p.size]
  }

  /** A view that was never assigned is empty. */
  function Text(t: Option<bytes>): (s: bytes)
  {
    if t.Some? then t.value else []
  }

  function OfWalk(w: GooseWalk.Outcome, dmac: bytes, appid: u16, dstIP: u32, spdu: Option<u32>):
    (r: Reading<GooseId, GooseUpdate>)
  {
    match w
    case OutOfDomain => Undefined
    case Done(code, g) =>
      if code != 0 then Failed(code)
      else Read(GooseId(dmac, appid, dstIP, Text(g.names.goid), Text(g.names.dataset), Text(g.names.gocbref),
                        g.numbers.crev, g.numbers.num),
                GooseUpdate(spdu, g.numbers.stNum, g.numbers.sqNum))
  }

  function OfTree(t: SvApdu.Parsed<SvApdu.SvPdu>, dmac: bytes, appid: u16, dstIP: u32, spdu: Option<u32>):
    (r: Reading<SvId, SvUpdate>)
    requires t.Ok? ==> t.tree.asdus != []
  {
    match t
    case Bad(code) => Failed(code)
    case Ok(p) =>
      var report := SvApdu.ReportOf(p);
      Read(SvId(dmac, appid, report.num, report.confRev, dstIP, report.svid), SvUpdate(spdu, report.num, report.smpCnt))
  }

  /** parse_goose_packet() on the frame. */
  function ReadGoose(p: Packet): (r: Reading<GooseId, GooseUpdate>)
  {
    var f := Frame(p);
    if |f| < 64 || GooseWalk.L2Base(f).None? then Failed(-1)
    else
      var base := GooseWalk.L2Base(f).value;
      OfWalk(GooseWalk.WalkApdu(f[base..], base), f[..6], Get16(f, base - 8), 0, None)
  }

  /** parse_sv_packet() on the frame. */
  function ReadSv(p: Packet): (r: Reading<SvId, SvUpdate>)
  {
    var f := Frame(p);
    if |f| < 64 then Failed(-1)
    else if SvApdu.L2Base(f).None? then Failed(-2)
    else
      var base := SvApdu.L2Base(f).value;
      OfTree(SvApdu.PduTree(f[base..]), f[..6], Get16(f, base - 8), 0, None)
  }

  type Backend = c: Crypto | Lawful(c) witness (ToyIsLawful(); TOY)

  /** Envelope check, then parse_r_goose_packet(). */
  function ReadRGoose(p: Packet, mode: Mode, c: Backend): (r: Reading<GooseId, GooseUpdate>)
  {
    var f := Frame(p);
    match Validate(f, p.nic)
    case Refused(code) => Failed(code)
    case Accepted(dstIP) =>
      match Unwrap(f, SI_R_GOOSE, TYPE_GOOSE, mode, c)
      case Rejected(code) => Failed(code)
      case Opened(s, payload, apdu) =>
        OfWalk(GooseWalk.WalkApdu(apdu, 0), Dmac(f), payload.appid, dstIP, Some(s.spduNumber))
  }

  /** Envelope check, then parse_r_sv_packet(). */
  function ReadRSv(p: Packet, mode: Mode, c: Backend): (r: Reading<SvId, SvUpdate>)
  {
    var f := Frame(p);
    match Validate(f, p.nic)
    case Refused(code) => Failed(code)
    case Accepted(dstIP) =>
      match Unwrap(f, SI_R_SV, TYPE_SV, mode, c)
      case Rejected(code) => Failed(code)
      case Opened(s, payload, apdu) =>
        OfTree(SvApdu.PduTree(apdu), Dmac(f), payload.appid, dstIP, Some(s.spduNumber))
  }

  function Dmac(f: bytes): (m: bytes)
  {
    if |f| >= 6 then f[..6] else f
  }

  // ---------------------------------------------------------------- the methods that read

  /** What follows the APDU of an opened frame in the buffer. */
  function Behind(s: Session, payload: Payload): (at: nat)
  {
    RFrame.PREFIX + ApduOffset(s.ivLength) + payload.apduSize
  }

  lemma OpenedInside(f: bytes, si: byte, payloadType: byte, mode: Mode, c: Backend)
    requires Unwrap(f, si, payloadType, mode, c).Opened?
    ensures var o := Unwrap(f, si, payloadType, mode, c);
            && |o.apdu| == o.payload.apduSize
            && RFrame.PREFIX + ApduOffset(o.session.ivLength) + o.payload.apduSize <= |f|
  {
    hide Unsealed, Lawful, Get16, Get32;
  }

  /** The walk stays within what its length decoder is defined for. */
  ghost predicate WalkInDomain(apdu: bytes, base: nat, behind: byte)
  {
    GooseWalk.WalkApdu(apdu, base).Done? && (!GooseWalk.ApduEndsOnTag(apdu) || behind <= 0x83)
  }

  /** Every length that reading the frame as GOOSE would decode has at most three further octets. */
  ghost predicate GooseInDomain(p: Packet)
  {
    var f := Frame(p);
    |f| >= 64 && GooseWalk.L2Base(f).Some? ==>
      var base := GooseWalk.L2Base(f).value; WalkInDomain(f[base..], base, p.memory[p.size])
  }

  ghost predicate RGooseInDomain(p: Packet, mode: Mode, c: Backend)
  {
    var o := Unwrap(Frame(p), SI_R_GOOSE, TYPE_GOOSE, mode, c);
    Validate(Frame(p), p.nic).Accepted? && o.Opened? ==>
      Behind(o.session, o.payload) < |p.memory|
      && WalkInDomain(o.apdu, 0, p.memory[Behind(o.session, o.payload)])
  }

  method TakeGoose(p: Packet) returns (r: Reading<GooseId, GooseUpdate>)
    ensures GooseInDomain(p) ==> r == ReadGoose(p) && !r.Undefined?
  {
    hide GooseWalk.WalkApdu, GooseWalk.ApduEndsOnTag;
    var f := Frame(p);
    var out := GooseWalk.ParseGoosePacket(p.memory, p.size);
    if |f| < 64 || GooseWalk.L2Base(f).None? {
      return Failed(-1);
    }
    var base := GooseWalk.L2Base(f).value;
    assert p.memory[base..p.size] == f[base..];
    r := OfWalk(out, f[..6], Get16(f, base - 8), 0, None);
  }

  method TakeSv(p: Packet) returns (r: Reading<SvId, SvUpdate>)
    ensures r == ReadSv(p) && !r.Undefined?
  {
    hide SvApdu.PduTree;
    var f := Frame(p);
    if |f| < 64 {
      return Failed(-1);
    }
    if SvApdu.L2Base(f).None? {
      return Failed(-2);
    }
    var base := SvApdu.L2Base(f).value;
    r := TakeTree(f[base..], f[..6], Get16(f, base - 8), 0, None);
  }

  method TakeTree(apdu: bytes, dmac: bytes, appid: u16, dstIP: u32, spdu: Option<u32>) returns (r: Reading<SvId, SvUpdate>)
    requires |apdu| < 0x8000_0000
    ensures r == OfTree(SvApdu.PduTree(apdu), dmac, appid, dstIP, spdu) && !r.Undefined?
  {
    hide SvApdu.PduTree, SvApdu.IsSvPdu, SvApdu.ReportOf, SvApdu.Describes;
    var code, report := SvApdu.WalkPdu(apdu);
    if code != 0 {
      return Failed(code);
    }
    ghost var t := SvApdu.PduTree(apdu);
    assert t.Ok?;
    SvApdu.PduSound(apdu, t.tree);
    SvApdu.DescribedReport(report, t.tree);
    r := Read(SvId(dmac, appid, report.num, report.confRev, dstIP, report.svid), SvUpdate(spdu, report.num, report.smpCnt));
  }

  method TakeRGoose(p: Packet, mode: Mode, c: Backend) returns (r: Reading<GooseId, GooseUpdate>)
    ensures RGooseInDomain(p, mode, c) ==> r == ReadRGoose(p, mode, c) && !r.Undefined?
  {
    hide GooseWalk.WalkApdu, GooseWalk.ApduEndsOnTag, Unwrap, Validate, Lawful;
    var f := Frame(p);
    var admitted := Validate(f, p.nic);
    if admitted.Refused? {
      return Failed(admitted.code);
    }
    var o := Unwrap(f, SI_R_GOOSE, TYPE_GOOSE, mode, c);
    if o.Rejected? {
      return Failed(o.code);
    }
    OpenedInside(f, SI_R_GOOSE, TYPE_GOOSE, mode, c);
    var at := Behind(o.session, o.payload);
    var buffer := o.apdu + p.memory[at..];
    assert buffer[..|o.apdu|] == o.apdu && buffer[|o.apdu|] == p.memory[at];
    var out := GooseWalk.ParseRoutableApdu(buffer, |o.apdu|);
    r := OfWalk(out, Dmac(f), o.payload.appid, admitted.dstIP, Some(o.session.spduNumber));
  }

  method TakeRSv(p: Packet, mode: Mode, c: Backend) returns (r: Reading<SvId, SvUpdate>)
    ensures r == ReadRSv(p, mode, c) && !r.Undefined?
  {
    hide SvApdu.PduTree, Unwrap, Validate, Lawful;
    var f := Frame(p);
    var admitted := Validate(f, p.nic);
    if admitted.Refused? {
      return Failed(admitted.code);
    }
    var o := Unwrap(f, SI_R_SV, TYPE_SV, mode, c);
    if o.Rejected? {
      return Failed(o.code);
    }
    OpenedInside(f, SI_R_SV, TYPE_SV, mode, c);
    r := TakeTree(o.apdu, Dmac(f), o.payload.appid, admitted.dstIP, Some(o.session.spduNumber));
  }

  // ---------------------------------------------------------------- the verdict on a frame

  /** What the receiver knows: its two stream tables, the security mode and the crypto backend. */
  datatype App = App(gooses: seq<(GooseId, GooseSource?)>, svs: seq<(SvId, SvSource?)>, mode: Mode, crypto: Backend)

  /** Elsewhere: a frame of another protocol. */
  datatype Outcome<+U> = Known(entry: nat, update: U) | Unlisted | Broken | Forged | Wild | Elsewhere

  /** Only the routable stages (`secured`) tell a failed authentication from a broken frame. */
  function Judge<I(==), V, U>(table: seq<(I, V)>, key: I -> u16, r: Reading<I, U>, secured: bool): (o: Outcome<U>)
    ensures o.Known? ==> r.Read? && AppIdContainer.Scan(table, key, r.id) == Some(o.entry) && r.update == o.update
    ensures o.Known? ==> o.entry < |table| && table[o.entry].0 == r.id
    ensures o.Unlisted? <==> r.Read? && AppIdContainer.Scan(table, key, r.id).None?
    ensures o.Forged? <==> r.Failed? && secured && r.code == ERR_AUTH
    ensures o.Broken? <==> r.Failed? && !(secured && r.code == ERR_AUTH)
    ensures !o.Elsewhere? && (o.Wild? <==> r.Undefined?)
  {
    match r
    case Undefined => Wild
    case Failed(code) => if secured && code == ERR_AUTH then Forged else Broken
    case Read(id, u) =>
      match AppIdContainer.Scan(table, key, id)
      case None => Unlisted
      case Some(i) => Known(i, u)
  }

  function GooseOutcome(app: App, m: Mbuf): (o: Outcome<GooseUpdate>)
    ensures o.Known? ==> o.entry < |app.gooses|
  {
    match StreamOf(m).proto
    case Goose => Judge(app.gooses, GooseKey(), ReadGoose(m.packet), false)
    case RGoose => Judge(app.gooses, GooseKey(), ReadRGoose(m.packet, app.mode, app.crypto), true)
    case _ => Elsewhere
  }

  function SvOutcome(app: App, m: Mbuf): (o: Outcome<SvUpdate>)
    ensures o.Known? ==> o.entry < |app.svs|
  {
    match StreamOf(m).proto
    case Sv => Judge(app.svs, SvKey(), ReadSv(m.packet), false)
    case RSv => Judge(app.svs, SvKey(), ReadRSv(m.packet, app.mode, app.crypto), true)
    case _ => Elsewhere
  }

  /** The updates that the frames make to one entry's source, in order. */
  function GooseUpdates(app: App, ms: seq<Mbuf>, entry: nat): (us: seq<GooseUpdate>)
  {
    if ms == [] then []
    else
      var o := GooseOutcome(app, ms[|ms| - 1]);
      GooseUpdates(app, ms[..|ms| - 1], entry) + if o.Known? && o.entry == entry then [o.update] else []
  }

  function SvUpdates(app: App, ms: seq<Mbuf>, entry: nat): (us: seq<SvUpdate>)
  {
    if ms == [] then []
    else
      var o := SvOutcome(app, ms[|ms| - 1]);
      SvUpdates(app, ms[..|ms| - 1], entry) + if o.Known? && o.entry == entry then [o.update] else []
  }

  /** A GOOSE frame keeps to lengths that the walk is defined for. */
  ghost predicate InDomain(app: App, m: Mbuf)
  {
    match StreamOf(m).proto
    case Goose => GooseInDomain(m.packet)
    case RGoose => RGooseInDomain(m.packet, app.mode, app.crypto)
    case _ => true
  }
}
