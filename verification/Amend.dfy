/**
 In-place amendment of recycled frame buffers.

 A send buffer starts as the skeleton and is amended again and again, for any streams of the
 generator; under HMAC it keeps the old trailer, under GCM the old ciphertext.  Amending is
 proved to give the frame that building and sealing from scratch would give, so no byte of a
 sent frame depends on what the buffer carried before.
 */
module Amend {
  import opened Bytes
  import opened RFrame
  import opened RSession
  import opened Routable
  import opened Writes

  const KEY_ID: u32 := 1
  const OFF_SPDU: nat := 52

  /** What a generator is built from: configuration, APDU skeleton, and index of its first stream. */
  datatype Layout = Layout(mode: Mode, cfg: Config, si: byte, payloadType: byte, apdu: bytes, baseIdx: nat)

  /** Parameters of the skeleton: sequence number and APPID are written per packet. */
  function Base(l: Layout): (p: Params)
  {
    Params(l.si, l.payloadType, l.mode, 0, KEY_ID, 0, |l.apdu| % U16, false)
  }

  ghost predicate Fits(l: Layout)
  {
    |l.cfg.srcMac| == 6 && l.cfg.dstPort == UDP_PORT && |l.apdu| < U16 && Sendable(Base(l), l.apdu)
  }

  function UdpSize(l: Layout): (n: nat)
  {
    UdpPayloadSize(l.mode, |l.apdu|)
  }

  function Skeleton(l: Layout): (s: bytes)
    requires |l.cfg.srcMac| == 6
    ensures |s| >= PREFIX
  {
    Prefix(l.cfg, UdpSize(l), 0)
    + Draft(Base(l), Zeros(IvLength(l.mode)), l.apdu, Zeros(TrailerSize(l.mode)))
  }

  /** MakeSkeletonPacket after the L2 APDU has been located. */
  method MakeSkeleton(l: Layout) returns (s: array<byte>)
    requires Fits(l)
    ensures fresh(s) && s[..] == Skeleton(l)
  {
    hide Prefix, Envelope, Draft;
    var size := PREFIX + UdpSize(l);
    s := new byte[size](_ => 0);
    assert s[..] == Zeros(size);
    BuildPrefix(s, l.cfg, UdpSize(l));
    var apduAt := Build(s, PREFIX, Base(l));
    Bytes.Write(s, PREFIX + apduAt, l.apdu);
    SkeletonParts(l);
  }

  lemma SkeletonParts(l: Layout)
    requires Fits(l)
    ensures var prefix, env := Prefix(l.cfg, UdpSize(l), 0), Envelope(Base(l));
            Overlay(Overlay(Overlay(Zeros(PREFIX + UdpSize(l)), 0, prefix), PREFIX, env), PREFIX + |env|, l.apdu)
            == Skeleton(l)
  {
    hide Prefix, Head, Elem, Be32;
    var prefix, env := Prefix(l.cfg, UdpSize(l), 0), Envelope(Base(l));
    var zero := Zeros(PREFIX + UdpSize(l));
    OverlayFuse(zero, 0, prefix, env);
    OverlayFuse(zero, 0, prefix + env, l.apdu);
    assert Overlay(zero, 0, prefix + env + l.apdu) == prefix + env + l.apdu + Zeros(TrailerSize(l.mode));
    assert env + l.apdu + Zeros(TrailerSize(l.mode)) ==
           Draft(Base(l), Zeros(IvLength(l.mode)), l.apdu, Zeros(TrailerSize(l.mode)));
  }

  // ---------------------------------------------------------------- streams

  function AppId(stream: nat): (a: u16)
  {
    (stream + 1) % U16
  }

  /** stream_dst_ip(): the group is spread over the low seven bits of the stream index. */
  function StreamDst(base: u32, stream: nat): (ip: u32)
  {
    (base + stream % DST_SPREAD) % U32
  }

  function StreamConfig(l: Layout, stream: nat): (cfg: Config)
  {
    l.cfg.(dstIP := StreamDst(l.cfg.dstIP, stream))
  }

  function StreamParams(l: Layout, stream: nat, spdu: u32): (p: Params)
  {
    Base(l).(spduNumber := spdu, appid := AppId(stream))
  }

  /** The frame of a stream built from scratch: new prefix, new envelope, amended APDU, sealed. */
  function FreshFrame(l: Layout, c: Crypto, stream: nat, spdu: u32, ws: seq<Write>): (f: bytes)
    requires |l.cfg.srcMac| == 6 && InRange(ws, |l.apdu|)
  {
    Frame(StreamConfig(l, stream), AppId(stream), StreamParams(l, stream, spdu), Apply(l.apdu, ws), c, [])
  }

  /** The precomputed destination fields of the 128 groups. */
  ghost predicate IsDstTable(l: Layout, table: seq<DstFields>)
    requires Fits(l)
  {
    && |table| == DST_SPREAD
    && forall i :: 0 <= i < DST_SPREAD ==> table[i] == DstFieldsFor(Skeleton(l), StreamDst(l.cfg.dstIP, i))
  }

  method MakeDstTable(l: Layout, skeleton: bytes) returns (table: seq<DstFields>)
    requires Fits(l) && skeleton == Skeleton(l)
    ensures IsDstTable(l, table)
  {
    hide Skeleton, DstFieldsFor;
    table := [];
    for i := 0 to DST_SPREAD
      invariant |table| == i
      invariant forall k :: 0 <= k < i ==> table[k] == DstFieldsFor(Skeleton(l), StreamDst(l.cfg.dstIP, k))
    {
      var f := MakeDstFields(skeleton, StreamDst(l.cfg.dstIP, i));
      table := table + [f];
    }
  }

  // ---------------------------------------------------------------- what a recycled buffer may hold

  /** Leftovers of earlier amendments. */
  datatype Leftover = Leftover(dst: u32, port: u16, spdu: u32, iv: bytes, body: bytes, room: bytes)

  /** A payload that still is the skeleton's, off the places that amendments write. */
  ghost predicate IsMaster(l: Layout, shape: seq<Write>, body: bytes)
  {
    && |body| == ELEM + |l.apdu|
    && exists a: u16 :: Elem(Base(l).(appid := a)) == body[..ELEM] && AgreeOff(shape, body[ELEM..], l.apdu)
  }

  function Layered(l: Layout, o: Leftover): (s: bytes)
    requires |l.cfg.srcMac| == 6
    ensures |s| >= PREFIX
  {
    Prefix(l.cfg.(dstIP := o.dst), UdpSize(l), o.port)
    + (Head(Base(l).(spduNumber := o.spdu)) + o.iv + Be32(PayloadLength(Base(l))) + o.body + o.room)
  }

  ghost predicate IsLeftover(l: Layout, shape: seq<Write>, o: Leftover)
  {
    && |o.iv| == IvLength(l.mode) && |o.body| == ELEM + |l.apdu| && |o.room| == TrailerSize(l.mode)
    && (l.mode != SecGcm ==> IsMaster(l, shape, o.body))
  }

  /** The skeleton with anything left in the places that amending and sealing write. */
  ghost predicate Recycled(l: Layout, shape: seq<Write>, packet: bytes)
    requires |l.cfg.srcMac| == 6
  {
    exists o :: IsLeftover(l, shape, o) && packet == Layered(l, o)
  }

  /** Generators of one run: every worker has its own, over its own slice of the streams. */
  predicate SameButSlice(a: Layout, b: Layout)
  {
    a == b.(baseIdx := a.baseIdx)
  }

  /** A buffer that one worker's generator may amend, every other one may. */
  lemma RecycledByAll(a: Layout, b: Layout, shape: seq<Write>, packet: bytes)
    requires SameButSlice(a, b) && |a.cfg.srcMac| == 6
    ensures Recycled(a, shape, packet) <==> Recycled(b, shape, packet)
    ensures Skeleton(a) == Skeleton(b)
  {
    hide Prefix, Head, Elem, Be32, AgreeOff;
    assert Base(a) == Base(b);
    assert forall body :: IsMaster(a, shape, body) <==> IsMaster(b, shape, body);
    forall o: Leftover
      ensures IsLeftover(a, shape, o) <==> IsLeftover(b, shape, o)
      ensures Layered(a, o) == Layered(b, o)
    {
    }
  }

  lemma FreshIsRecycled(l: Layout, shape: seq<Write>)
    requires Fits(l)
    ensures Recycled(l, shape, Skeleton(l))
    ensures IsMaster(l, shape, Elem(Base(l)) + l.apdu)
  {
    hide Prefix, Head, Elem, Be32;
    var body := Elem(Base(l)) + l.apdu;
    assert body[..ELEM] == Elem(Base(l).(appid := 0)) && body[ELEM..] == l.apdu;
    var o := Leftover(l.cfg.dstIP, 0, 0, Zeros(IvLength(l.mode)), body, Zeros(TrailerSize(l.mode)));
    assert Base(l).(spduNumber := 0) == Base(l) && l.cfg.(dstIP := l.cfg.dstIP) == l.cfg;
    assert Skeleton(l) == Layered(l, o);
  }

  // ---------------------------------------------------------------- stores on a layered buffer

  lemma PortStore(cfg: Config, n: nat, port: u16, was: u16, tail: bytes)
    requires |cfg.srcMac| == 6
    ensures Overlay(Prefix(cfg, n, was) + tail, OFF_UDP_SRC_PORT, Be16(port)) == Prefix(cfg, n, port) + tail
  {
    hide Be16, IpHeader, EthHeader;
    var f := Prefix(cfg, n, was) + tail;
    var r := Overlay(f, OFF_UDP_SRC_PORT, Be16(port));
    var g := Prefix(cfg, n, port) + tail;
    assert r[..34] == f[..34] == g[..34];
    assert r[36..] == f[36..] == g[36..];
    assert r[34..36] == Be16(port) == g[34..36];
    assert r == r[..34] + r[34..36] + r[36..] && g == g[..34] + g[34..36] + g[36..];
  }

  lemma SpduStore(prefix: bytes, p: Params, spdu: u32, rest: bytes)
    requires |prefix| == PREFIX
    ensures Overlay(prefix + (Head(p) + rest), OFF_SPDU, Be32(spdu)) ==
            prefix + (Head(p.(spduNumber := spdu)) + rest)
  {
    hide Be16, Be32;
    var h := Head(p);
    assert Overlay(h, OFF_SPDU_NUMBER, Be32(spdu)) == Head(p.(spduNumber := spdu)) by { HeadStore(p, spdu); }
    assert prefix + (h + rest) == prefix + h + rest;
    OverlayInside(prefix, h, rest, OFF_SPDU_NUMBER, Be32(spdu));
  }

  lemma HeadStore(p: Params, spdu: u32)
    ensures Overlay(Head(p), OFF_SPDU_NUMBER, Be32(spdu)) == Head(p.(spduNumber := spdu))
  {
    hide Be16, Be32;
    var a, b := Head(p), Head(p.(spduNumber := spdu));
    assert a[..10] == b[..10] && a[14..] == b[14..] && b[10..14] == Be32(spdu);
    assert b == b[..10] + b[10..14] + b[14..];
  }

  /** Stores of one amendment inside the payload: the APPID, then the APDU fields. */
  function RegionWrites(appid: u16, ws: seq<Write>): (r: seq<Write>)
  {
    [Store(2, Be16(appid))] + Shift(ws, ELEM)
  }

  lemma AppIdStore(l: Layout, a: u16, appid: u16, apdu: bytes)
    ensures Overlay(Elem(Base(l).(appid := a)) + apdu, 2, Be16(appid)) == Elem(Base(l).(appid := appid)) + apdu
  {
    hide Be16;
  }

  lemma RegionApply(l: Layout, a: u16, apdu: bytes, appid: u16, ws: seq<Write>)
    requires InRange(ws, |l.apdu|) && AgreeOff(ws, apdu, l.apdu)
    ensures var body := Elem(Base(l).(appid := a)) + apdu;
            && InRange(RegionWrites(appid, ws), |body|)
            && Apply(body, RegionWrites(appid, ws)) == Elem(Base(l).(appid := appid)) + Apply(l.apdu, ws)
  {
    hide Elem, Be16, Base;
    var body := Elem(Base(l).(appid := a)) + apdu;
    var first, more := [Store(2, Be16(appid))], Shift(ws, ELEM);
    AppIdStore(l, a, appid, apdu);
    assert Apply(body, first) == Overlay(body, 2, Be16(appid)) by { assert first[..0] == []; }
    TailAmended(Elem(Base(l).(appid := appid)), apdu, l.apdu, ws);
    ApplyConcat(body, first, more);
  }

  lemma RegionAmended(l: Layout, shape: seq<Write>, body: bytes, appid: u16, ws: seq<Write>)
    requires IsMaster(l, shape, body) && InRange(ws, |l.apdu|) && SameShape(ws, shape)
    ensures InRange(RegionWrites(appid, ws), |body|)
    ensures Apply(body, RegionWrites(appid, ws)) == Elem(Base(l).(appid := appid)) + Apply(l.apdu, ws)
    ensures IsMaster(l, shape, Apply(body, RegionWrites(appid, ws)))
  {
    hide Elem, Be16, AgreeOff, Apply, RegionWrites, InRange, Base;
    var a: u16 :| Elem(Base(l).(appid := a)) == body[..ELEM] && AgreeOff(shape, body[ELEM..], l.apdu);
    assert body == Elem(Base(l).(appid := a)) + body[ELEM..];
    AgreeSameShape(shape, ws, body[ELEM..], l.apdu);
    RegionApply(l, a, body[ELEM..], appid, ws);
    ApplyKeepsOwn(l.apdu, ws, shape);
    var elem := Elem(Base(l).(appid := appid));
    var r := elem + Apply(l.apdu, ws);
    assert r[..ELEM] == elem && r[ELEM..] == Apply(l.apdu, ws);
  }

  lemma TailAmended(elem: bytes, apdu: bytes, original: bytes, ws: seq<Write>)
    requires |elem| == ELEM && AgreeOff(ws, apdu, original) && InRange(ws, |apdu|)
    ensures InRange(Shift(ws, ELEM), |elem + apdu|)
    ensures Apply(elem + apdu, Shift(ws, ELEM)) == elem + Apply(original, ws)
  {
    hide AgreeOff;
    assert elem + apdu == elem + apdu + [];
    ApplyPart(elem, apdu, [], ws);
    assert elem + Apply(apdu, ws) + [] == elem + Apply(apdu, ws);
    ApplyForgets(apdu, original, ws);
  }

  lemma ApplyKeepsOwn(s: bytes, ws: seq<Write>, shape: seq<Write>)
    requires InRange(ws, |s|) && SameShape(ws, shape)
    ensures AgreeOff(shape, Apply(s, ws), s)
  {
    ApplyKeeps(s, s, ws, shape);
  }

  lemma {:induction false} ApplyConcat(s: bytes, a: seq<Write>, b: seq<Write>)
    requires InRange(a, |s|) && InRange(b, |s|)
    ensures InRange(a + b, |s|)
    ensures Apply(s, a + b) == Apply(Apply(s, a), b)
  {
    if b == [] {
      assert a + b == a;
    } else {
      var init := b[..|b| - 1];
      ApplyConcat(s, a, init);
      assert (a + b)[..|a + b| - 1] == a + init;
    }
  }

  // ---------------------------------------------------------------- the amendment

  /** Envelope stores common to all amendments (PrepareFrame). */
  method Prepare(l: Layout, table: seq<DstFields>, packet: array<byte>, stream: nat, spdu: u32, ghost o: Leftover)
    requires Fits(l) && IsDstTable(l, table)
    requires |o.iv| == IvLength(l.mode) && |o.body| == ELEM + |l.apdu| && |o.room| == TrailerSize(l.mode)
    requires packet[..] == Layered(l, o)
    modifies packet
    ensures packet[..] == Layered(l, o.(dst := StreamDst(l.cfg.dstIP, stream), port := AppId(stream), spdu := spdu))
  {
    hide Prefix, Head, Overlay, DstFieldsFor, Be16, Be32, Sendable;
    var appid := AppId(stream);
    ghost var n := UdpSize(l);
    ghost var cfg := l.cfg.(dstIP := o.dst);
    ghost var rest := o.iv + Be32(PayloadLength(Base(l))) + o.body + o.room;
    ghost var p0 := Base(l).(spduNumber := o.spdu);
    ghost var tail := Head(p0) + rest;
    assert Layered(l, o) == Prefix(cfg, n, o.port) + tail by {
      assert Head(p0) + o.iv + Be32(PayloadLength(Base(l))) + o.body + o.room == tail;
    }
    PortStore(cfg, n, appid, o.port, tail);
    Bytes.Write(packet, OFF_UDP_SRC_PORT, Be16(appid));

    var dst := StreamDst(l.cfg.dstIP, stream);
    var f := table[stream % DST_SPREAD];
    assert f == DstFieldsFor(Skeleton(l), dst);
    ghost var draft := Draft(Base(l), Zeros(IvLength(l.mode)), l.apdu, Zeros(TrailerSize(l.mode)));
    assert l.cfg == cfg.(dstIP := l.cfg.dstIP);
    PatchIsRebuild(cfg, n, appid, tail, dst, l.cfg.dstIP, 0, draft);
    Bytes.Write(packet, 0, f.dmac);
    Bytes.Write(packet, OFF_IP_DST, f.dstIP);
    Bytes.Write(packet, OFF_IP_CSUM, f.csum);
    ghost var cfg' := cfg.(dstIP := dst);
    assert packet[..] == Prefix(cfg', n, appid) + tail;

    SpduStore(Prefix(cfg', n, appid), p0, spdu, rest);
    Bytes.Write(packet, OFF_SPDU, Be32(spdu));
    ghost var p1 := p0.(spduNumber := spdu);
    assert p1 == Base(l).(spduNumber := spdu) && cfg' == l.cfg.(dstIP := dst);
    assert Head(p1) + rest == Head(p1) + o.iv + Be32(PayloadLength(Base(l))) + o.body + o.room;
  }

  function RegionOffset(l: Layout): (n: nat)
  {
    PREFIX + HdrOffset(IvLength(l.mode)) + 4
  }

  /** Split of a layered buffer around its payload. */
  lemma LayeredParts(l: Layout, o: Leftover, body: bytes)
    requires Fits(l) && |o.iv| == IvLength(l.mode) && |o.body| == |body| == ELEM + |l.apdu|
    ensures var at := RegionOffset(l);
            && |Layered(l, o)| == PREFIX + UdpSize(l) - TrailerSize(l.mode) + |o.room|
            && Layered(l, o) == Layered(l, o)[..at] + o.body + o.room
            && |Layered(l, o)[..at]| == at
            && Layered(l, o)[..at] + body + o.room == Layered(l, o.(body := body))
  {
    hide Prefix, Head, Be32;
  }

  /** The payload is amended where it lies, or in the plaintext master and copied over. */
  method AmendRegion(l: Layout, packet: array<byte>, plain: array<byte>, appid: u16, ws: seq<Write>,
                     ghost shape: seq<Write>, ghost o: Leftover)
    requires Fits(l) && IsLeftover(l, shape, o) && packet[..] == Layered(l, o) && packet != plain
    requires IsMaster(l, shape, plain[..]) && InRange(ws, |l.apdu|) && SameShape(ws, shape)
    modifies packet, plain
    ensures packet[..] == Layered(l, o.(body := Elem(Base(l).(appid := appid)) + Apply(l.apdu, ws)))
    ensures IsMaster(l, shape, plain[..])
  {
    hide Layered, Elem, Be16, Overlay, Apply, Sendable, IsMaster;
    ghost var body := Elem(Base(l).(appid := appid)) + Apply(l.apdu, ws);
    LayeredParts(l, o, body);
    ghost var before := Layered(l, o)[..RegionOffset(l)];
    if l.mode == SecGcm {
      RegionAmended(l, shape, plain[..], appid, ws);
      ApplyInPlace(plain, RegionWrites(appid, ws));
      Bytes.Write(packet, RegionOffset(l), plain[..]);
      OverlayMiddle(before, o.body, o.room, body);
    } else {
      RegionAmended(l, shape, o.body, appid, ws);
      ApplyPart(before, o.body, o.room, RegionWrites(appid, ws));
      ApplyInPlace(packet, Shift(RegionWrites(appid, ws), RegionOffset(l)));
    }
  }

  /**
   AmendPacket for any stream on any recycled buffer: the result is the frame built from scratch,
   and buffer and plaintext master may be used again.
   */
  method AmendFrame(l: Layout, c: Crypto, table: seq<DstFields>, packet: array<byte>, plain: array<byte>,
                    stream: nat, spdu: u32, ws: seq<Write>, ghost shape: seq<Write>)
    requires Fits(l) && Lawful(c) && IsDstTable(l, table) && packet != plain
    requires InRange(ws, |l.apdu|) && SameShape(ws, shape)
    requires Recycled(l, shape, packet[..]) && IsMaster(l, shape, plain[..])
    modifies packet, plain
    ensures packet[..] == FreshFrame(l, c, stream, spdu, ws)
    ensures Recycled(l, shape, packet[..]) && IsMaster(l, shape, plain[..])
  {
    hide Prefix, Head, Elem, Be32, IsDstTable, Sealed, Wire, Layered, Lawful;
    ghost var o: Leftover :| IsLeftover(l, shape, o) && packet[..] == Layered(l, o);
    Prepare(l, table, packet, stream, spdu, o);
    o := o.(dst := StreamDst(l.cfg.dstIP, stream), port := AppId(stream), spdu := spdu);
    AmendRegion(l, packet, plain, AppId(stream), ws, shape, o);
    ghost var p, apdu := StreamParams(l, stream, spdu), Apply(l.apdu, ws);
    ghost var prefix := Prefix(StreamConfig(l, stream), UdpSize(l), AppId(stream));
    LayeredDraft(l, o, stream, spdu, apdu);
    SealedIsWire(p, o.iv, apdu, o.room, c);
    assert packet[..PREFIX] == packet[..][..PREFIX] && packet[PREFIX..] == packet[..][PREFIX..];
    Seal(packet, PREFIX, l.mode, c);
    assert packet[..] == packet[..PREFIX] + packet[PREFIX..];
    assert packet[..] == prefix + Wire(p, apdu, c) + [];
    FreshAgain(l, c, shape, stream, spdu, ws);
  }

  lemma LayeredDraft(l: Layout, o: Leftover, stream: nat, spdu: u32, apdu: bytes)
    requires Fits(l) && |o.iv| == IvLength(l.mode) && |apdu| == |l.apdu|
    requires o.dst == StreamDst(l.cfg.dstIP, stream) && o.port == AppId(stream) && o.spdu == spdu
    ensures var p := StreamParams(l, stream, spdu);
            var s := Layered(l, o.(body := Elem(Base(l).(appid := AppId(stream))) + apdu));
            && s[..PREFIX] == Prefix(StreamConfig(l, stream), UdpSize(l), AppId(stream))
            && s[PREFIX..] == Draft(p, o.iv, apdu, o.room)
  {
    hide Prefix, Be32, Be16;
    var p := StreamParams(l, stream, spdu);
    assert Head(p) == Head(Base(l).(spduNumber := spdu));
    assert Elem(p) == Elem(Base(l).(appid := AppId(stream)));
  }

  lemma FreshAgain(l: Layout, c: Crypto, shape: seq<Write>, stream: nat, spdu: u32, ws: seq<Write>)
    requires Fits(l) && Lawful(c) && InRange(ws, |l.apdu|) && SameShape(ws, shape)
    ensures Recycled(l, shape, FreshFrame(l, c, stream, spdu, ws))
  {
    hide Prefix, Be32, Be16, Wire, Lawful, Envelope;
    var p, apdu := StreamParams(l, stream, spdu), Apply(l.apdu, ws);
    var iv, body, trailer := WireForm(p, apdu, c);
    var o := Leftover(StreamDst(l.cfg.dstIP, stream), AppId(stream), spdu, iv, body, trailer);
    assert Head(p) == Head(Base(l).(spduNumber := spdu)) && PayloadLength(p) == PayloadLength(Base(l));
    assert FreshFrame(l, c, stream, spdu, ws) == Layered(l, o);
    if l.mode != SecGcm {
      assert body[..ELEM] == Elem(p) == Elem(Base(l).(appid := AppId(stream))) && body[ELEM..] == apdu;
      ApplyKeeps(l.apdu, l.apdu, ws, shape);
      assert IsMaster(l, shape, body);
    }
  }

  /** The receiver of an amended frame recovers the amended APDU and the stream's identity. */
  lemma FreshRoundTrip(l: Layout, c: Crypto, stream: nat, spdu: u32, ws: seq<Write>)
    requires Fits(l) && Lawful(c) && InRange(ws, |l.apdu|)
    ensures var f := FreshFrame(l, c, stream, spdu, ws);
            var got := Unwrap(f, l.si, l.payloadType, l.mode, c);
            && |f| >= MIN_FRAME
            && ProtoType(f, |f|) == (if l.si == SI_R_GOOSE then RGoose else RSv, AppId(stream))
            && Validate(f, Unknown) == Accepted(StreamDst(l.cfg.dstIP, stream))
            && got.Opened? && got.apdu == Apply(l.apdu, ws)
            && got.session.spduNumber == spdu && got.payload.appid == AppId(stream)
  {
    hide Unwrap, ProtoType, Validate, Lawful, Frame;
    RoundTrip(StreamConfig(l, stream), AppId(stream), StreamParams(l, stream, spdu), Apply(l.apdu, ws), c, []);
  }
}
