/**
 What the receiver does with a routable frame, said of the octets on the wire: which frames it takes for routable
 ones, which it refuses, and which it counts as forged.
 */
module Received {
  import opened Bytes
  import opened Checksum
  import opened RSession
  import opened Routable
  import RFrame

  // ---------------------------------------------------------------- the IPv4 and UDP envelope

  /** The fields of a routable frame up to the session PDU, and everything behind them. */
  datatype Envelope = Envelope(macs: bytes, tos: byte, total: u16, id: bytes, flags: byte, ttl: byte, csum: bytes,
                               srcIP: bytes, dstIP: u32, srcPort: u16, udpCsum: bytes, rest: bytes)

  function IpBytes(e: Envelope): (s: bytes)
  {
    [0x45, e.tos] + Be16(e.total) + e.id + [e.flags, 0x00, e.ttl, 0x11] + e.csum + e.srcIP + Be32(e.dstIP)
  }

  function UdpBytes(e: Envelope): (s: bytes)
    requires e.total >= 20
  {
    Be16(e.srcPort) + [0x00, 0x66] + Be16(e.total - 20) + e.udpCsum
  }

  function EnvelopeBytes(e: Envelope): (s: bytes)
    requires e.total >= 20
  {
    e.macs + [0x08, 0x00] + IpBytes(e) + UdpBytes(e) + e.rest
  }

  /** No fragment: of the flag bits, only "don't fragment" and the reserved one may be set. */
  predicate IsEnvelope(e: Envelope)
  {
    && |e.macs| == 12 && |e.id| == 2 && |e.csum| == 2 && |e.srcIP| == 4 && |e.udpCsum| == 2
    && 28 <= e.total <= 28 + |e.rest| && e.flags in {0x00, 0x40, 0x80, 0xC0}
  }

  /** The NIC vouches for the header, or its ten words add up to a positive multiple of 65535. */
  predicate HeaderGood(e: Envelope, nic: NicChecksum)
    requires IsEnvelope(e)
  {
    nic == NicGood || nic == NicNone || (nic == Unknown && Sum(IpBytes(e), 10) > 0 && Sum(IpBytes(e), 10) % 0xFFFF == 0)
  }

  lemma FieldOf16(s: bytes, at: nat)
    requires at + 2 <= |s|
    ensures s[at..at + 2] == Be16(Get16(s, at))
  {
    var w := s[at..at + 2];
    assert w[0] == s[at] && w[1] == s[at + 1];
  }

  lemma FieldOf32(s: bytes, at: nat)
    requires at + 4 <= |s|
    ensures s[at..at + 4] == Be32(Get32(s, at))
  {
    var w, n := s[at..at + 4], Get32(s, at);
    assert w == [s[at], s[at + 1], s[at + 2], s[at + 3]];
    Octets(s[at], s[at + 1], s[at + 2], s[at + 3]);
  }

  lemma Octets(a: byte, b: byte, c: byte, d: byte)
    ensures var n := a as int * 0x100_0000 + b as int * 0x1_0000 + c as int * 0x100 + d;
            && 0 <= n < U32 && Be32(n) == [a, b, c, d]
  {
    var n := a as int * 0x100_0000 + b as int * 0x1_0000 + c as int * 0x100 + d;
    var hi, lo := a as int * 0x100 + b, c as int * 0x100 + d;
    assert n == hi * 0x1_0000 + lo && n / 0x1_0000 == hi && n % 0x1_0000 == lo;
  }

  lemma FlagBits(hi: byte, lo: byte)
    ensures var flags := hi as int * 0x100 + lo;
            flags / 0x2000 % 2 == 0 && flags % 0x2000 == 0 <==> hi in {0x00, 0x40, 0x80, 0xC0} && lo == 0
  {
  }

  /** What the fields of the envelope are, read at their offsets. */
  lemma EnvelopeReads(e: Envelope)
    requires IsEnvelope(e)
    ensures var f := EnvelopeBytes(e);
            && |f| == 42 + |e.rest| && f[12] == 0x08 && f[13] == 0x00 && f[14] == 0x45 && f[23] == 0x11
            && f[20] == e.flags && f[21] == 0 && f[36] == 0x00 && f[37] == 0x66
            && Get16(f, 16) == e.total && Get16(f, 34) == e.srcPort && Get16(f, 38) == e.total - 20
            && Get32(f, 30) == e.dstIP && f[14..34] == IpBytes(e) && f[..6] == e.macs[..6] && f[42..] == e.rest
            && (|e.rest| >= 3 ==> f[44] == e.rest[2])
  {
    hide Be16, Be32, Get16, Get32, IpBytes, UdpBytes;
    var f, ip, udp := EnvelopeBytes(e), IpBytes(e), UdpBytes(e);
    IpReads(e);
    UdpReads(e);
    assert f == e.macs + [0x08, 0x00] + ip + (udp + e.rest);
    assert f[14..34] == ip && f[34..42] == udp;
    SliceSlice(f, 14, 34, 2, 4);
    SliceSlice(f, 14, 34, 16, 20);
    SliceSlice(f, 34, 42, 0, 2);
    SliceSlice(f, 34, 42, 4, 6);
    Get16At(f, 16, Be16(e.total));
    Get32At(f, 30, Be32(e.dstIP));
    Get16At(f, 34, Be16(e.srcPort));
    Get16At(f, 38, Be16(e.total - 20));
    At(f, 14, ip, 0);
    At(f, 14, ip, 6);
    At(f, 14, ip, 7);
    At(f, 14, ip, 9);
    At(f, 34, udp, 2);
    At(f, 34, udp, 3);
  }

  lemma At(s: bytes, at: nat, w: bytes, i: nat)
    requires Holds(s, at, w) && i < |w|
    ensures s[at + i] == w[i]
  {
    assert s[at..at + |w|][i] == s[at + i];
  }

  lemma IpReads(e: Envelope)
    requires IsEnvelope(e)
    ensures var ip := IpBytes(e);
            && |ip| == 20 && ip[0] == 0x45 && ip[6] == e.flags && ip[7] == 0 && ip[9] == 0x11
            && ip[2..4] == Be16(e.total) && ip[16..20] == Be32(e.dstIP)
  {
    hide Be16, Be32;
  }

  lemma UdpReads(e: Envelope)
    requires IsEnvelope(e)
    ensures var udp := UdpBytes(e);
            && |udp| == 8 && udp[2] == 0x00 && udp[3] == 0x66
            && udp[..2] == Be16(e.srcPort) && udp[4..6] == Be16(e.total - 20)
  {
    hide Be16;
  }

  /** The envelope that a frame with these fields has. */
  function EnvelopeOf(f: bytes): (e: Envelope)
    requires |f| >= 42
  {
    Envelope(f[..12], f[15], Get16(f, 16), f[18..20], f[20], f[22], f[24..26], f[26..30], Get32(f, 30), Get16(f, 34),
             f[40..42], f[42..])
  }

  lemma IpOf(f: bytes)
    requires |f| >= 42 && f[14] == 0x45 && f[21] == 0 && f[23] == 0x11
    ensures IpBytes(EnvelopeOf(f)) == f[14..34]
  {
    hide Be16, Be32, Get16, Get32;
    FieldOf16(f, 16);
    FieldOf32(f, 30);
    assert f[14..34] == f[14..16] + f[16..18] + f[18..20] + f[20..24] + f[24..26] + f[26..30] + f[30..34];
    assert f[14..16] == [0x45, f[15]] && f[20..24] == [f[20], 0x00, f[22], 0x11];
  }

  lemma EnvelopeFound(f: bytes)
    requires |f| >= 42 && f[12] == 0x08 && f[13] == 0x00 && f[14] == 0x45 && f[21] == 0 && f[23] == 0x11
    requires f[36] == 0x00 && f[37] == 0x66 && Get16(f, 38) == Get16(f, 16) - 20
    ensures EnvelopeBytes(EnvelopeOf(f)) == f
  {
    hide Be16, Be32, Get16, Get32, IpBytes;
    IpOf(f);
    FieldOf16(f, 34);
    FieldOf16(f, 38);
    var udp := f[34..42];
    SliceSlice(f, 34, 42, 0, 2);
    SliceSlice(f, 34, 42, 4, 6);
    SliceSlice(f, 34, 42, 6, 8);
    assert udp == udp[..2] + udp[2..4] + udp[4..6] + udp[6..8];
    assert udp[2..4] == [0x00, 0x66];
    assert f[12..14] == [0x08, 0x00];
    assert f == f[..12] + f[12..14] + f[14..34] + f[34..42] + f[42..];
  }

  /** A frame whose envelope is admitted, with that envelope. */
  ghost predicate Admitted(f: bytes, nic: NicChecksum, e: Envelope)
  {
    IsEnvelope(e) && HeaderGood(e, nic) && EnvelopeBytes(e) == f
  }

  /**
   The envelope check, exactly: a frame is accepted if and only if it is an envelope with a good header, and what is
   reported is its destination address.
   */
  lemma ValidateExact(f: bytes, nic: NicChecksum)
    ensures Validate(f, nic).Accepted? <==> exists e :: Admitted(f, nic, e)
    ensures forall e :: Admitted(f, nic, e) ==> Validate(f, nic) == Accepted(e.dstIP)
    ensures Validate(f, nic).Refused? ==> -27 <= Validate(f, nic).code <= -20
  {
    hide Sum, Fold, Be16, Be32, Get32, EnvelopeBytes;
    forall e | Admitted(f, nic, e) ensures Validate(f, nic) == Accepted(e.dstIP) {
      AdmittedIsValid(f, nic, e);
    }
    if Validate(f, nic).Accepted? {
      var e := EnvelopeOf(f);
      ValidParts(f, nic);
      EnvelopeFound(f);
      assert Admitted(f, nic, e);
    }
  }

  lemma ValidParts(f: bytes, nic: NicChecksum)
    requires Validate(f, nic).Accepted?
    ensures |f| >= 42 && f[12] == 0x08 && f[13] == 0x00 && f[14] == 0x45 && f[21] == 0 && f[23] == 0x11
    ensures f[36] == 0x00 && f[37] == 0x66 && Get16(f, 38) == Get16(f, 16) - 20
    ensures IsEnvelope(EnvelopeOf(f)) && HeaderGood(EnvelopeOf(f), nic)
  {
    hide Sum, Fold, Be16, Be32, Get32;
    FlagBits(f[20], f[21]);
    PortOctets(f);
    IpOf(f);
    FullFold(Sum(f[14..34], 10));
  }

  lemma AdmittedIsValid(f: bytes, nic: NicChecksum, e: Envelope)
    requires Admitted(f, nic, e)
    ensures Validate(f, nic) == Accepted(e.dstIP)
  {
    hide Sum, Fold, Be16, Be32, Get32, EnvelopeBytes, IpBytes;
    EnvelopeReads(e);
    FlagBits(e.flags, 0);
    FullFold(Sum(IpBytes(e), 10));
  }

  // ---------------------------------------------------------------- the session PDU

  /** A session PDU with one payload: what the signature covers, field by field, and what follows it. */
  datatype Datagram = Datagram(si: byte, li: byte, commonLi: byte, spduLength: bytes, spduNumber: u32, times: bytes,
                               keyId: u32, iv: bytes, payload: bytes, trailer: bytes)

  predicate IsDatagram(d: Datagram)
  {
    && d.si in {0xA1, 0xA2} && |d.spduLength| == 4 && |d.times| == 6 && |d.iv| < 0x100
    && 6 <= |d.payload| < 0x1_0000_0000
  }

  /** Octets up to the payload: what is authenticated and never encrypted. */
  function Preamble(d: Datagram): (s: bytes)
    requires IsDatagram(d)
    ensures |s| == 31 + |d.iv|
  {
    [0x01, 0x40, d.si, d.li, 0x80, d.commonLi] + d.spduLength + Be32(d.spduNumber) + [0x00, 0x02] + d.times
    + Be32(d.keyId) + [|d.iv|] + d.iv + Be32(|d.payload|)
  }

  function DatagramBytes(d: Datagram): (s: bytes)
    requires IsDatagram(d)
    ensures |s| == 31 + |d.iv| + |d.payload| + |d.trailer|
  {
    Preamble(d) + d.payload + d.trailer
  }

  function SessionIn(d: Datagram): (s: Session)
    requires IsDatagram(d)
  {
    Session(d.si, d.spduNumber, d.keyId, |d.iv|, |d.payload|)
  }

  lemma PreambleReads(d: Datagram, rest: bytes)
    requires IsDatagram(d)
    ensures var u := Preamble(d) + rest;
            && u[0] == 0x01 && u[1] == 0x40 && u[2] == d.si && u[4] == 0x80 && Get16(u, 14) == 2
            && Get32(u, 10) == d.spduNumber && Get32(u, 22) == d.keyId && u[26] == |d.iv|
            && Get32(u, 27 + |d.iv|) == |d.payload| && u[27..27 + |d.iv|] == d.iv
  {
    hide Be32, Get32;
    var u, pl := Preamble(d) + rest, Be32(|d.payload|);
    var head := [0x01, 0x40, d.si, d.li, 0x80, d.commonLi] + d.spduLength + Be32(d.spduNumber) + [0x00, 0x02] + d.times
                + Be32(d.keyId) + [|d.iv|];
    assert |head| == 27 && u == head + d.iv + pl + rest;
    assert head[10..14] == Be32(d.spduNumber) && head[22..26] == Be32(d.keyId);
    assert u[..27] == head;
    SliceSlice(u, 0, 27, 10, 14);
    SliceSlice(u, 0, 27, 22, 26);
    Get32At(u, 10, Be32(d.spduNumber));
    Get32At(u, 22, Be32(d.keyId));
    assert Holds(u, 27 + |d.iv|, pl);
    Get32At(u, 27 + |d.iv|, pl);
    assert u[14] == head[14] == 0 && u[15] == head[15] == 2;
  }

  lemma DatagramParses(d: Datagram)
    requires IsDatagram(d)
    ensures ParseSession(DatagramBytes(d)) == Parsed.Ok(27 + |d.iv|, SessionIn(d))
  {
    hide Get32, Preamble;
    PreambleReads(d, d.payload + d.trailer);
    assert DatagramBytes(d) == Preamble(d) + (d.payload + d.trailer);
  }

  function DatagramOf(u: bytes): (d: Datagram)
    requires ParseSession(u).Ok?
  {
    var s := ParseSession(u).value;
    var start := 31 + s.ivLength;
    Datagram(u[2], u[3], u[5], u[6..10], s.spduNumber, u[16..22], s.keyId, u[27..27 + s.ivLength],
             u[start..start + s.payloadLength], u[start + s.payloadLength..])
  }

  lemma DatagramFound(u: bytes)
    requires ParseSession(u).Ok?
    ensures IsDatagram(DatagramOf(u)) && DatagramBytes(DatagramOf(u)) == u
  {
    hide Be32, Get32;
    var d := DatagramOf(u);
    var n: nat := u[26];
    FieldOf32(u, 10);
    FieldOf32(u, 22);
    FieldOf32(u, 27 + n);
    FieldOf16(u, 14);
    assert u[..27] == u[..6] + u[6..10] + u[10..14] + u[14..16] + u[16..22] + u[22..26] + u[26..27];
    assert u[..6] == [0x01, 0x40, d.si, d.li, 0x80, d.commonLi] && u[26..27] == [n] && u[14..16] == [0x00, 0x02];
    assert u[..31 + n] == u[..27] + u[27..27 + n] + u[27 + n..31 + n];
    assert Preamble(d) == u[..31 + n];
    assert u == u[..31 + n] + d.payload + d.trailer;
  }

  /** The session parser, exactly: it accepts a PDU if and only if that is a datagram, and reports its fields. */
  lemma SessionExact(u: bytes)
    ensures ParseSession(u).Ok? <==> exists d :: IsDatagram(d) && DatagramBytes(d) == u
    ensures forall d :: IsDatagram(d) && DatagramBytes(d) == u ==> ParseSession(u) == Parsed.Ok(27 + |d.iv|, SessionIn(d))
    ensures ParseSession(u).Err? ==> -7 <= ParseSession(u).code <= -1
  {
    hide Preamble, DatagramBytes, Get32;
    forall d | IsDatagram(d) && DatagramBytes(d) == u ensures ParseSession(u) == Parsed.Ok(27 + |d.iv|, SessionIn(d)) {
      DatagramParses(d);
    }
    if ParseSession(u).Ok? {
      DatagramFound(u);
    }
  }

  // ---------------------------------------------------------------- authentication

  /** The trailer is there: tag 0x85, a length octet and sixteen octets. */
  predicate HasTag(d: Datagram)
  {
    |d.trailer| >= 18 && d.trailer[0] == 0x85
  }

  function TagOf(d: Datagram): (t: bytes)
    requires HasTag(d)
  {
    d.trailer[2..18]
  }

  /** What a receiver set to `mode` takes for the sender's work. */
  ghost predicate Authentic(d: Datagram, mode: Mode, c: Crypto)
    requires IsDatagram(d)
  {
    match mode
    case SecNone => true
    case SecHmac => HasTag(d) && TagOf(d) == c.hmac(Preamble(d) + d.payload)
    case SecGcm => HasTag(d) && d.trailer[1] == 16 && |d.iv| == 12 && c.decrypt(d.iv, Preamble(d), d.payload, TagOf(d)).0
  }

  /** The payload that is then read: under GCM what decryption yields. */
  function Plain(d: Datagram, mode: Mode, c: Crypto): (p: bytes)
    requires IsDatagram(d)
  {
    if mode == SecGcm && HasTag(d) then c.decrypt(d.iv, Preamble(d), d.payload, TagOf(d)).1 else d.payload
  }

  lemma UnsealedIs(d: Datagram, mode: Mode, c: Crypto)
    requires IsDatagram(d) && Lawful(c)
    ensures HdrOffset(|d.iv|) + 4 + |d.payload| <= |DatagramBytes(d)|
    ensures Unsealed(DatagramBytes(d), mode, SessionIn(d), c).0 <==> Authentic(d, mode, c)
    ensures Authentic(d, mode, c) ==>
              && |Plain(d, mode, c)| == |d.payload|
              && Holds(Unsealed(DatagramBytes(d), mode, SessionIn(d), c).1, 31 + |d.iv|, Plain(d, mode, c))
  {
    hide Lawful, Preamble, Overlay, DatagramBytes, Unsealed;
    WireParts(d);
    if mode == SecGcm {
      GcmIs(d, c);
    } else {
      HmacIs(d, mode, c);
    }
  }

  lemma HmacIs(d: Datagram, mode: Mode, c: Crypto)
    requires IsDatagram(d) && Lawful(c) && mode != SecGcm
    ensures Unsealed(DatagramBytes(d), mode, SessionIn(d), c).0 <==> Authentic(d, mode, c)
    ensures Unsealed(DatagramBytes(d), mode, SessionIn(d), c).1 == DatagramBytes(d)
  {
    hide Lawful, Preamble, DatagramBytes;
    WireParts(d);
  }

  lemma GcmIs(d: Datagram, c: Crypto)
    requires IsDatagram(d) && Lawful(c)
    ensures Unsealed(DatagramBytes(d), SecGcm, SessionIn(d), c).0 <==> Authentic(d, SecGcm, c)
    ensures Authentic(d, SecGcm, c) ==>
              && |Plain(d, SecGcm, c)| == |d.payload|
              && Holds(Unsealed(DatagramBytes(d), SecGcm, SessionIn(d), c).1, 31 + |d.iv|, Plain(d, SecGcm, c))
  {
    hide Lawful, Preamble, DatagramBytes, Overlay;
    WireParts(d);
    if HasTag(d) && |d.iv| == 12 {
      DecryptKeepsSize(c, d.iv, Preamble(d), d.payload, TagOf(d));
      OverlayHolds(DatagramBytes(d), 31 + |d.iv|, Plain(d, SecGcm, c));
    }
  }

  /** The slices that unsealing takes. */
  lemma WireParts(d: Datagram)
    requires IsDatagram(d)
    ensures var u, start, end := DatagramBytes(d), 31 + |d.iv|, 31 + |d.iv| + |d.payload|;
            && u[27..27 + |d.iv|] == d.iv && u[..start] == Preamble(d) && u[start..end] == d.payload
            && u[..end] == Preamble(d) + d.payload
            && (|d.trailer| >= 18 ==> u[end] == d.trailer[0] && u[end + 1] == d.trailer[1] && u[end + 2..end + 18] == d.trailer[2..18])
  {
    hide Preamble;
    var u, end := DatagramBytes(d), 31 + |d.iv| + |d.payload|;
    PreambleReads(d, d.payload + d.trailer);
    assert u == Preamble(d) + (d.payload + d.trailer);
    assert u[end..] == d.trailer;
  }

  /** What is made of the plaintext: its type octet must match; simulation, APPID and a length of its own precede the APDU. */
  function Contents(d: Datagram, plain: bytes, payloadType: byte): (r: Opened)
    requires IsDatagram(d) && 6 <= |plain| == |d.payload|
  {
    if plain[0] != payloadType then Rejected(-7)
    else Opened(SessionIn(d), Payload(plain[0], plain[1], Get16(plain, 2), Get16(plain, 4), |plain| - 6), plain[6..])
  }

  lemma OpensTo(d: Datagram, u: bytes, plain: bytes, payloadType: byte)
    requires IsDatagram(d) && 6 <= |plain| == |d.payload| && Holds(u, 31 + |d.iv|, plain) && payloadType in {0x81, 0x82}
    ensures OpenPayload(u, SessionIn(d), payloadType) == Contents(d, plain, payloadType)
  {
    hide Get16;
    var at := 31 + |d.iv|;
    Part16(u, at, plain, 2);
    Part16(u, at, plain, 4);
    SliceSlice(u, at, at + |plain|, 6, |plain|);
    assert u[at] == u[at..at + |plain|][0] && u[at + 1] == u[at..at + |plain|][1];
  }

  lemma Part16(u: bytes, at: nat, plain: bytes, off: nat)
    requires Holds(u, at, plain) && off + 2 <= |plain|
    ensures Get16(u, at + off) == Get16(plain, off)
  {
    var v := u[at..at + |plain|];
    assert v[off] == u[at + off] && v[off + 1] == u[at + off + 1];
  }

  /** A frame that carries datagram `d`: the total length of its envelope ends there, and padding may follow. */
  ghost predicate Carries(f: bytes, e: Envelope, d: Datagram, pad: bytes)
  {
    IsEnvelope(e) && IsDatagram(d) && EnvelopeBytes(e) == f && e.rest == DatagramBytes(d) + pad
    && e.total == 28 + |DatagramBytes(d)|
  }

  /**
   Unwrapping a frame that carries a datagram, exactly: another session identifier is refused, then authentication
   decides, and what is opened comes from the authenticated plaintext.
   */
  lemma UnwrapExact(f: bytes, e: Envelope, d: Datagram, pad: bytes, si: byte, payloadType: byte, mode: Mode, c: Crypto)
    requires Carries(f, e, d, pad) && payloadType in {0x81, 0x82} && Lawful(c)
    ensures d.si != si ==> Unwrap(f, si, payloadType, mode, c) == Rejected(-3)
    ensures d.si == si && !Authentic(d, mode, c) ==> Unwrap(f, si, payloadType, mode, c) == Rejected(-10)
    ensures d.si == si && Authentic(d, mode, c) ==>
              && |Plain(d, mode, c)| == |d.payload|
              && Unwrap(f, si, payloadType, mode, c) == Contents(d, Plain(d, mode, c), payloadType)
  {
    hide Lawful, DatagramBytes, EnvelopeBytes, Unsealed, OpenPayload, Authentic, Plain, Contents, ParseSession, Get16;
    var u := DatagramBytes(d);
    EnvelopeReads(e);
    assert f[42..42 + |u|] == f[42..][..|u|] == u;
    DatagramParses(d);
    UnsealedIs(d, mode, c);
    if Authentic(d, mode, c) {
      OpensTo(d, Unsealed(u, mode, SessionIn(d), c).1, Plain(d, mode, c), payloadType);
    }
  }

  /** Every frame that the envelope check accepts and that is refused for its authentication carries a datagram that has none. */
  lemma RefusedIsForged(f: bytes, nic: NicChecksum, si: byte, payloadType: byte, mode: Mode, c: Crypto)
    returns (e: Envelope, d: Datagram, pad: bytes)
    requires Validate(f, nic).Accepted? && payloadType in {0x81, 0x82} && Lawful(c)
    requires Unwrap(f, si, payloadType, mode, c) == Rejected(-10)
    ensures Admitted(f, nic, e) && Carries(f, e, d, pad) && d.si == si && !Authentic(d, mode, c)
  {
    hide Lawful, DatagramBytes, EnvelopeBytes, Unsealed, OpenPayload, Authentic, ParseSession, Get16, Validate, IpBytes;
    ValidateExact(f, nic);
    e :| Admitted(f, nic, e);
    EnvelopeReads(e);
    var u := SessionPdu(f).value;
    SessionExact(u);
    d, pad := DatagramOf(u), f[42 + |u|..];
    DatagramFound(u);
    assert e.rest == f[42..42 + |u|] + f[42 + |u|..];
    SessionFits(f, u, si, payloadType, mode, c);
    UnwrapExact(f, e, d, pad, si, payloadType, mode, c);
  }

  lemma SessionFits(f: bytes, u: bytes, si: byte, payloadType: byte, mode: Mode, c: Crypto)
    requires Lawful(c) && SessionPdu(f) == Some(u) && payloadType in {0x81, 0x82}
    requires Unwrap(f, si, payloadType, mode, c) == Rejected(-10)
    ensures ParseSession(u).Ok? && ParseSession(u).value.si == si
  {
    hide Lawful, Unsealed, ParseSession, OpenPayload;
    SessionExact(u);
  }
}
