/** Ethernet, IPv4 and UDP prefix of a routable frame, and the per-group patch of a finished skeleton. */
module RFrame {
  import opened Bytes
  import opened Checksum

  const PREFIX: nat := 42
  const OFF_IP: nat := 14
  const OFF_IP_CSUM: nat := 24
  const OFF_IP_DST: nat := 30
  const OFF_UDP_SRC_PORT: nat := 34
  const DST_SPREAD: nat := 128

  datatype Config = Config(srcIP: u32, dstIP: u32, dstPort: u16, ttl: byte, srcMac: bytes)

  /** RFC 1112 section 6.4: the low 23 bits of the group under 01-00-5E. */
  function MulticastMac(ip: u32): (m: bytes)
    ensures |m| == 6
  {
    [0x01, 0x00, 0x5E, ip / 0x1_0000 % 0x80, ip / 0x100 % 0x100, ip % 0x100]
  }

  /** IPv4 header with a given checksum field. */
  function IpHeader(cfg: Config, udpPayload: nat, csum: u16): (h: bytes)
    ensures |h| == 20
  {
    [0x45, 0x00] + Be16((28 + udpPayload) % U16) + Be16(0) + Be16(0x4000) + [cfg.ttl, 17]
    + Be16(csum) + Be32(cfg.srcIP) + Be32(cfg.dstIP)
  }

  function UdpHeader(cfg: Config, udpPayload: nat, srcPort: u16): (h: bytes)
    ensures |h| == 8
  {
    Be16(srcPort) + Be16(cfg.dstPort) + Be16((8 + udpPayload) % U16) + Be16(0)
  }

  function EthHeader(cfg: Config): (h: bytes)
    requires |cfg.srcMac| == 6
    ensures |h| == 14
  {
    MulticastMac(cfg.dstIP) + cfg.srcMac + Be16(0x0800)
  }

  function Prefix(cfg: Config, udpPayload: nat, srcPort: u16): (p: bytes)
    requires |cfg.srcMac| == 6
    ensures |p| == PREFIX
  {
    EthHeader(cfg)
    + IpHeader(cfg, udpPayload, HeaderChecksum(IpHeader(cfg, udpPayload, 0)))
    + UdpHeader(cfg, udpPayload, srcPort)
  }

  /** The mapping of RFC 1112 section 6.4, as one number: groups share a MAC exactly when their low 23 bits agree. */
  lemma MacOfGroup(ip: u32, other: u32)
    ensures BeNat(MulticastMac(ip)) == 0x0100_5E00_0000 + ip % 0x80_0000
    ensures MulticastMac(ip) == MulticastMac(other) <==> ip % 0x80_0000 == other % 0x80_0000
  {
    MacNumber(ip);
    MacNumber(other);
    LowBits(ip);
    LowBits(other);
  }

  lemma LowBits(ip: u32)
    ensures var low := ip % 0x80_0000;
            && ip / 0x1_0000 % 0x80 == low / 0x1_0000 && ip / 0x100 % 0x100 == low / 0x100 % 0x100
            && ip % 0x100 == low % 0x100
  {
    var q, low := ip / 0x80_0000, ip % 0x80_0000;
    SplitAt(q, low, 0x80, 0x1_0000);
    SplitAt(q, low, 0x8000, 0x100);
    var hi := low / 0x1_0000;
    assert (0x80 * q + hi) % 0x80 == hi;
    assert (0x8000 * q + low / 0x100) % 0x100 == low / 0x100 % 0x100;
  }

  lemma SplitAt(q: nat, low: nat, m: nat, d: nat)
    requires d > 0
    ensures (q * m * d + low) / d == m * q + low / d && (q * m * d + low) % d == low % d
  {
    var a, b := low / d, low % d;
    assert q * m * d + low == (m * q + a) * d + b;
    DivExact(m * q + a, d, b);
    ModExact(m * q + a, d, b);
  }

  lemma MacNumber(ip: u32)
    ensures BeNat(MulticastMac(ip)) == 0x0100_5E00_0000 + ip % 0x80_0000
  {
    hide BeNat;
    var m := MulticastMac(ip);
    LowBits(ip);
    BeNatOfThree(m[3], m[4], m[5]);
    BeNatOfThree(0x01, 0x00, 0x5E);
    BeNatThreeMore([0x01, 0x00, 0x5E], [m[3], m[4], m[5]]);
    assert m == [0x01, 0x00, 0x5E] + [m[3], m[4], m[5]];
  }

  lemma IpLayout(cfg: Config, udpPayload: nat, csum: u16)
    ensures var h := IpHeader(cfg, udpPayload, csum);
            && h[0] == 0x45 && h[1] == 0 && h[8] == cfg.ttl && h[9] == 17
            && BeNat(h[2..4]) == (28 + udpPayload) % 0x1_0000 && BeNat(h[4..6]) == 0 && BeNat(h[6..8]) == 0x4000
            && BeNat(h[12..16]) == cfg.srcIP && BeNat(h[16..20]) == cfg.dstIP
  {
    hide Be16, Be32, BeNat, Number;
    var h, len := IpHeader(cfg, udpPayload, csum), (28 + udpPayload) % U16;
    NumberOfBe16(len);
    NumberOfBe16(0);
    NumberOfBe16(0x4000);
    NumberOfBe32(cfg.srcIP);
    NumberOfBe32(cfg.dstIP);
    assert h[2..4] == Be16(len) && h[4..6] == Be16(0) && h[6..8] == Be16(0x4000);
    assert h[12..16] == Be32(cfg.srcIP) && h[16..20] == Be32(cfg.dstIP);
  }

  lemma UdpLayout(cfg: Config, udpPayload: nat, srcPort: u16)
    ensures var h := UdpHeader(cfg, udpPayload, srcPort);
            && BeNat(h[..2]) == srcPort && BeNat(h[2..4]) == cfg.dstPort
            && BeNat(h[4..6]) == (8 + udpPayload) % 0x1_0000 && BeNat(h[6..8]) == 0
  {
    hide Be16, BeNat, Number;
    var h, len := UdpHeader(cfg, udpPayload, srcPort), (8 + udpPayload) % U16;
    NumberOfBe16(srcPort);
    NumberOfBe16(cfg.dstPort);
    NumberOfBe16(len);
    NumberOfBe16(0);
    assert h[..2] == Be16(srcPort) && h[2..4] == Be16(cfg.dstPort) && h[4..6] == Be16(len) && h[6..8] == Be16(0);
  }

  /** What a built prefix says at the offsets of the Ethernet, IPv4 and UDP headers, field by field as numbers. */
  lemma PrefixLayout(cfg: Config, udpPayload: nat, srcPort: u16)
    requires |cfg.srcMac| == 6
    ensures var p := Prefix(cfg, udpPayload, srcPort);
            && BeNat(p[..6]) == 0x0100_5E00_0000 + cfg.dstIP % 0x80_0000 && p[6..12] == cfg.srcMac
            && BeNat(p[12..14]) == 0x0800 && p[14] == 0x45 && p[15] == 0
            && BeNat(p[16..18]) == (28 + udpPayload) % 0x1_0000 && BeNat(p[18..20]) == 0 && BeNat(p[20..22]) == 0x4000
            && p[22] == cfg.ttl && p[23] == 17 && Sum(p[14..34], 10) > 0 && Sum(p[14..34], 10) % 0xFFFF == 0
            && BeNat(p[26..30]) == cfg.srcIP && BeNat(p[30..34]) == cfg.dstIP
            && BeNat(p[34..36]) == srcPort && BeNat(p[36..38]) == cfg.dstPort
            && BeNat(p[38..40]) == (8 + udpPayload) % 0x1_0000 && BeNat(p[40..42]) == 0
  {
    hide HeaderChecksum, Be16, MulticastMac, BeNat, Sum, Number, Fold, IpHeader, UdpHeader;
    var csum := HeaderChecksum(IpHeader(cfg, udpPayload, 0));
    var p, h, u := Prefix(cfg, udpPayload, srcPort), IpHeader(cfg, udpPayload, csum), UdpHeader(cfg, udpPayload, srcPort);
    MacNumber(cfg.dstIP);
    HeaderAccepted(cfg, udpPayload);
    NumberOfBe16(0x0800);
    IpLayout(cfg, udpPayload, csum);
    UdpLayout(cfg, udpPayload, srcPort);
    FullFold(Sum(h, 10));
    PartsOf(p, cfg, h, u);
  }

  lemma PartsOf(p: bytes, cfg: Config, h: bytes, u: bytes)
    requires |cfg.srcMac| == 6 && |h| == 20 && |u| == 8 && p == EthHeader(cfg) + h + u
    ensures p[..6] == MulticastMac(cfg.dstIP) && p[6..12] == cfg.srcMac && p[12..14] == Be16(0x0800)
    ensures p[14..34] == h && p[14] == h[0] && p[15] == h[1] && p[22] == h[8] && p[23] == h[9]
    ensures p[16..18] == h[2..4] && p[18..20] == h[4..6] && p[20..22] == h[6..8] && p[26..30] == h[12..16] && p[30..34] == h[16..20]
    ensures p[34..36] == u[..2] && p[36..38] == u[2..4] && p[38..40] == u[4..6] && p[40..42] == u[6..8]
  {
    hide MulticastMac, Be16;
  }

  /** Writing the checksum or destination field of a header gives the header with that field. */
  lemma HeaderFields(cfg: Config, udpPayload: nat, csum: u16, c: u16, dst: u32)
    ensures Overlay(IpHeader(cfg, udpPayload, csum), 10, Be16(c)) == IpHeader(cfg, udpPayload, c)
    ensures Overlay(IpHeader(cfg, udpPayload, csum), 16, Be32(dst)) == IpHeader(cfg.(dstIP := dst), udpPayload, csum)
  {
  }

  lemma HeaderAccepted(cfg: Config, udpPayload: nat)
    ensures ChecksumOk(IpHeader(cfg, udpPayload, HeaderChecksum(IpHeader(cfg, udpPayload, 0))))
  {
    var h := IpHeader(cfg, udpPayload, 0);
    HeaderFields(cfg, udpPayload, 0, 0, 0);
    HeaderFields(cfg, udpPayload, 0, HeaderChecksum(h), 0);
    WrittenChecksumOk(h);
  }

  /** A write that lies inside one part of a buffer rewrites that part only. */
  lemma OverlayInside(before: bytes, part: bytes, after: bytes, at: nat, w: bytes)
    requires at + |w| <= |part|
    ensures Overlay(before + part + after, |before| + at, w) == before + Overlay(part, at, w) + after
  {
  }

  method WriteEth(buf: array<byte>, cfg: Config, ghost was: bytes)
    requires |cfg.srcMac| == 6 && buf.Length >= PREFIX && was == buf[..]
    modifies buf
    ensures buf[..] == Overlay(was, 0, EthHeader(cfg))
  {
    hide Overlay, Be16, MulticastMac;
    ghost var done: bytes := [];
    OverlayNothing(was, 0);
    done := WriteNext(buf, was, 0, done, 0, MulticastMac(cfg.dstIP));
    done := WriteNext(buf, was, 0, done, 6, cfg.srcMac);
    done := WriteNext(buf, was, 0, done, 12, Be16(0x0800));
  }

  method WriteIp(buf: array<byte>, cfg: Config, udpPayload: nat, ghost was: bytes, ghost eth: bytes)
    requires buf.Length >= PREFIX && |was| == buf.Length && |eth| == OFF_IP
    requires buf[..] == Overlay(was, 0, eth)
    modifies buf
    ensures buf[..] == Overlay(was, 0, eth + IpHeader(cfg, udpPayload, HeaderChecksum(IpHeader(cfg, udpPayload, 0))))
  {
    hide Overlay, HeaderChecksum, Be16, Be32;
    ghost var done := eth;
    done := WriteNext(buf, was, 0, done, OFF_IP, [0x45, 0x00]);
    done := WriteNext(buf, was, 0, done, OFF_IP + 2, Be16((28 + udpPayload) % U16));
    done := WriteNext(buf, was, 0, done, OFF_IP + 4, Be16(0));
    done := WriteNext(buf, was, 0, done, OFF_IP + 6, Be16(0x4000));
    done := WriteNext(buf, was, 0, done, OFF_IP + 8, [cfg.ttl, 17]);
    done := WriteNext(buf, was, 0, done, OFF_IP + 10, Be16(0));
    done := WriteNext(buf, was, 0, done, OFF_IP + 12, Be32(cfg.srcIP));
    done := WriteNext(buf, was, 0, done, OFF_IP + 16, Be32(cfg.dstIP));
    ghost var placeholder := IpHeader(cfg, udpPayload, 0);
    assert done == eth + placeholder;
    var csum := ChecksumInPlace(buf, was, eth, placeholder);
    HeaderFields(cfg, udpPayload, 0, csum, 0);
  }

  method WriteUdp(buf: array<byte>, cfg: Config, udpPayload: nat, ghost was: bytes, ghost before: bytes)
    requires buf.Length >= PREFIX && |was| == buf.Length && |before| == OFF_UDP_SRC_PORT
    requires buf[..] == Overlay(was, 0, before)
    modifies buf
    ensures buf[..] == Overlay(was, 0, before + UdpHeader(cfg, udpPayload, 0))
  {
    hide Overlay, Be16;
    ghost var done := before;
    done := WriteNext(buf, was, 0, done, OFF_UDP_SRC_PORT, Be16(0));
    done := WriteNext(buf, was, 0, done, 36, Be16(cfg.dstPort));
    done := WriteNext(buf, was, 0, done, 38, Be16((8 + udpPayload) % U16));
    done := WriteNext(buf, was, 0, done, 40, Be16(0));
    assert done == before + UdpHeader(cfg, udpPayload, 0);
  }

  /** build_prefix: fields are stored one after another, the checksum last over its zero placeholder. */
  method BuildPrefix(buf: array<byte>, cfg: Config, udpPayload: nat)
    requires |cfg.srcMac| == 6 && buf.Length >= PREFIX
    modifies buf
    ensures buf[..] == Overlay(old(buf[..]), 0, Prefix(cfg, udpPayload, 0))
  {
    hide Overlay, HeaderChecksum, IpHeader, EthHeader, UdpHeader;
    ghost var was := buf[..];
    WriteEth(buf, cfg, was);
    WriteIp(buf, cfg, udpPayload, was, EthHeader(cfg));
    WriteUdp(buf, cfg, udpPayload, was,
             EthHeader(cfg) + IpHeader(cfg, udpPayload, HeaderChecksum(IpHeader(cfg, udpPayload, 0))));
  }

  /** The checksum of the header just written, stored over its placeholder. */
  method ChecksumInPlace(buf: array<byte>, ghost was: bytes, ghost eth: bytes, ghost header: bytes) returns (csum: u16)
    requires |was| == buf.Length >= PREFIX && |eth| == OFF_IP && |header| == 20
    requires buf[..] == Overlay(was, 0, eth + header)
    modifies buf
    ensures csum == HeaderChecksum(header)
    ensures buf[..] == Overlay(was, 0, eth + Overlay(header, 10, Be16(csum)))
  {
    hide HeaderChecksum, Be16;
    assert buf[OFF_IP..OFF_IP + 20] == header;
    csum := Ipv4Checksum(buf[OFF_IP..OFF_IP + 20]);
    Write(buf, OFF_IP + 10, Be16(csum));
  }

  // ---------------------------------------------------------------- the patch

  datatype DstFields = DstFields(dmac: bytes, dstIP: bytes, csum: bytes)

  /** make_dst_fields: the header is taken from the skeleton, destination replaced, checksum redone. */
  function DstFieldsFor(skeleton: bytes, dst: u32): (f: DstFields)
    requires |skeleton| >= PREFIX
    ensures |f.dmac| == 6 && |f.dstIP| == 4 && |f.csum| == 2
  {
    var ip := Overlay(Overlay(skeleton[OFF_IP..OFF_IP + 20], 16, Be32(dst)), 10, Be16(0));
    DstFields(MulticastMac(dst), Be32(dst), Be16(HeaderChecksum(ip)))
  }

  method MakeDstFields(skeleton: bytes, dst: u32) returns (f: DstFields)
    requires |skeleton| >= PREFIX
    ensures f == DstFieldsFor(skeleton, dst)
  {
    var ip := new byte[20](i requires 0 <= i < 20 => skeleton[OFF_IP + i]);
    assert ip[..] == skeleton[OFF_IP..OFF_IP + 20];
    Write(ip, 16, Be32(dst));
    Write(ip, 10, Be16(0));
    var csum := Ipv4Checksum(ip[..]);
    f := DstFields(MulticastMac(dst), Be32(dst), Be16(csum));
  }

  /** The three stores of the send path. */
  function Patch(frame: bytes, f: DstFields): (r: bytes)
    requires |frame| >= PREFIX && |f.dmac| == 6 && |f.dstIP| == 4 && |f.csum| == 2
    ensures |r| == |frame|
  {
    Overlay(Overlay(Overlay(frame, 0, f.dmac), OFF_IP_DST, f.dstIP), OFF_IP_CSUM, f.csum)
  }

  /** The fields depend on the skeleton only through the header fields that all destinations share. */
  lemma DstFieldsClosed(cfg: Config, udpPayload: nat, srcPort: u16, tail: bytes, dst: u32)
    requires |cfg.srcMac| == 6
    ensures DstFieldsFor(Prefix(cfg, udpPayload, srcPort) + tail, dst) ==
            DstFields(MulticastMac(dst), Be32(dst), Be16(HeaderChecksum(IpHeader(cfg.(dstIP := dst), udpPayload, 0))))
  {
    hide HeaderChecksum, EthHeader, UdpHeader;
    var to := cfg.(dstIP := dst);
    var csum := HeaderChecksum(IpHeader(cfg, udpPayload, 0));
    var h := IpHeader(cfg, udpPayload, csum);
    var skeleton := Prefix(cfg, udpPayload, srcPort) + tail;
    assert skeleton[OFF_IP..OFF_IP + 20] == h;
    HeaderFields(cfg, udpPayload, csum, 0, dst);
    HeaderFields(to, udpPayload, csum, 0, dst);
  }

  /**
   Patch refines rebuild: on any frame that starts with a built prefix, the three stores give
   exactly what building the prefix for the new destination would give, and touch nothing else.
   The fields may come from a skeleton for any other destination of the same configuration.
   */
  lemma PatchIsRebuild(cfg: Config, udpPayload: nat, srcPort: u16, tail: bytes, dst: u32,
                       skeletonDst: u32, skeletonPort: u16, skeletonTail: bytes)
    requires |cfg.srcMac| == 6
    ensures var skeleton := Prefix(cfg.(dstIP := skeletonDst), udpPayload, skeletonPort) + skeletonTail;
            Patch(Prefix(cfg, udpPayload, srcPort) + tail, DstFieldsFor(skeleton, dst)) ==
            Prefix(cfg.(dstIP := dst), udpPayload, srcPort) + tail
  {
    hide HeaderChecksum;
    var to := cfg.(dstIP := dst);
    var csum := HeaderChecksum(IpHeader(cfg, udpPayload, 0));
    var csum' := HeaderChecksum(IpHeader(to, udpPayload, 0));
    var h := IpHeader(cfg, udpPayload, csum);
    var udp := UdpHeader(cfg, udpPayload, srcPort);
    var frame := Prefix(cfg, udpPayload, srcPort) + tail;
    DstFieldsClosed(cfg.(dstIP := skeletonDst), udpPayload, skeletonPort, skeletonTail, dst);
    var f := DstFields(MulticastMac(dst), Be32(dst), Be16(csum'));
    HeaderFields(cfg, udpPayload, csum, 0, dst);
    HeaderFields(to, udpPayload, csum, csum', dst);
    PatchParts(EthHeader(cfg), h, udp + tail, f);
    assert frame == EthHeader(cfg) + h + (udp + tail);
    assert Overlay(EthHeader(cfg), 0, f.dmac) == EthHeader(to);
    assert EthHeader(to) + IpHeader(to, udpPayload, csum') + (udp + tail) ==
           Prefix(to, udpPayload, srcPort) + tail;
  }

  /** So a patched frame is addressed to the group it is patched for, at the Ethernet and at the IP level. */
  lemma PatchedAddress(cfg: Config, udpPayload: nat, srcPort: u16, tail: bytes, dst: u32,
                       skeletonDst: u32, skeletonPort: u16, skeletonTail: bytes)
    requires |cfg.srcMac| == 6
    ensures var skeleton := Prefix(cfg.(dstIP := skeletonDst), udpPayload, skeletonPort) + skeletonTail;
            var r := Patch(Prefix(cfg, udpPayload, srcPort) + tail, DstFieldsFor(skeleton, dst));
            && BeNat(r[..6]) == 0x0100_5E00_0000 + dst % 0x80_0000 && BeNat(r[30..34]) == dst
            && Sum(r[14..34], 10) > 0 && Sum(r[14..34], 10) % 0xFFFF == 0
            && r[6..14] == Prefix(cfg, udpPayload, srcPort)[6..14] && r[14..24] == Prefix(cfg, udpPayload, srcPort)[14..24]
            && r[26..30] == Prefix(cfg, udpPayload, srcPort)[26..30] && r[34..] == Prefix(cfg, udpPayload, srcPort)[34..] + tail
  {
    hide BeNat, Sum, Prefix, DstFieldsFor;
    var to := cfg.(dstIP := dst);
    var q := Prefix(to, udpPayload, srcPort);
    var p := Prefix(cfg, udpPayload, srcPort);
    var f := DstFieldsFor(Prefix(cfg.(dstIP := skeletonDst), udpPayload, skeletonPort) + skeletonTail, dst);
    var r := Patch(p + tail, f);
    PatchIsRebuild(cfg, udpPayload, srcPort, tail, dst, skeletonDst, skeletonPort, skeletonTail);
    PrefixLayout(to, udpPayload, srcPort);
    assert r == q + tail;
    assert r[..6] == q[..6] && r[14..34] == q[14..34] && r[30..34] == q[30..34];
    assert forall i :: 0 <= i < |r| && !(0 <= i < 6 || 24 <= i < 26 || 30 <= i < 34) ==> r[i] == (p + tail)[i];
  }

  lemma PatchParts(eth: bytes, h: bytes, rest: bytes, f: DstFields)
    requires |eth| == 14 && |h| == 20 && |rest| >= 8
    requires |f.dmac| == 6 && |f.dstIP| == 4 && |f.csum| == 2
    ensures Patch(eth + h + rest, f) ==
            Overlay(eth, 0, f.dmac) + Overlay(Overlay(h, 16, f.dstIP), 10, f.csum) + rest
  {
    assert eth + h + rest == [] + eth + (h + rest);
    OverlayInside([], eth, h + rest, 0, f.dmac);
    var e := Overlay(eth, 0, f.dmac);
    assert [] + e + (h + rest) == e + h + rest;
    OverlayInside(e, h, rest, 16, f.dstIP);
    OverlayInside(e, Overlay(h, 16, f.dstIP), rest, 10, f.csum);
  }
}
