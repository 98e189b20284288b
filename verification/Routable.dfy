/** Receiving a routable frame: classification, envelope validation, unwrapping; and the round trip from the sender. */
module Routable {
  import opened Bytes
  import opened Checksum
  import opened RFrame
  import opened RSession

  datatype Proto = NonBus | Sv | Goose | RGoose | RSv

  const MIN_FRAME: nat := 73
  const UDP_PORT: u16 := 102
  const ERR_AUTH: int := -10

  /** get_proto_type(): protocol and dispatch key; frames it does not know get key zero. */
  function ProtoType(buffer: bytes, size: nat): (r: (Proto, u16))
    requires |buffer| >= 20 && size <= |buffer|
  {
    if buffer[12] == 0x81 && buffer[13] == 0x00 && buffer[16] == 0x88 && buffer[17] == 0xBA then (Sv, Get16(buffer, 18))
    else if buffer[12] == 0x81 && buffer[13] == 0x00 && buffer[16] == 0x88 && buffer[17] == 0xB8 then (Goose, Get16(buffer, 18))
    else if buffer[12] == 0x88 && buffer[13] == 0xBA then (Sv, Get16(buffer, 14))
    else if buffer[12] == 0x88 && buffer[13] == 0xB8 then (Goose, Get16(buffer, 14))
    else if && buffer[12] == 0x08 && buffer[13] == 0x00 && size >= MIN_FRAME
            && buffer[14] == 0x45 && buffer[23] == 0x11 && buffer[36] == 0x00 && buffer[37] == 0x66
            && (buffer[44] == SI_R_GOOSE || buffer[44] == SI_R_SV) then
      (if buffer[44] == SI_R_GOOSE then RGoose else RSv, Get16(buffer, 34))
    else (NonBus, 0)
  }

  /** What the NIC said about the IPv4 checksum. */
  datatype NicChecksum = Unknown | NicBad | NicGood | NicNone

  datatype Admission = Refused(code: int) | Accepted(dstIP: u32)

  /** validate_r_envelope(). */
  function Validate(frame: bytes, nic: NicChecksum): (r: Admission)
  {
    if |frame| < 34 || frame[12] != 0x08 || frame[13] != 0x00 then Refused(-20)
    else if frame[14] != 0x45 then Refused(-21)
    else
      var total := Get16(frame, 16);
      if total < 28 || 14 + total > |frame| then Refused(-22)
      else
        var flags := Get16(frame, 20);
        if flags / 0x2000 % 2 != 0 || flags % 0x2000 != 0 then Refused(-23)
        else if frame[23] != 17 then Refused(-24)
        else if Get16(frame, 36) != UDP_PORT then Refused(-25)
        else if Get16(frame, 38) < 8 || Get16(frame, 38) != total - 20 then Refused(-26)
        else if nic == NicBad || (nic == Unknown && !ChecksumOk(frame[14..34])) then Refused(-27)
        else Accepted(Get32(frame, 30))
  }

  datatype Opened = Rejected(code: int) | Opened(session: Session, payload: Payload, apdu: bytes)

  /** The session PDU is bounded by the IPv4 total length, because the frame may be padded. */
  function SessionPdu(frame: bytes): (udp: Option<bytes>)
    ensures udp.Some? ==> PREFIX + |udp.value| <= |frame| && udp.value == frame[PREFIX..PREFIX + |udp.value|]
  {
    if |frame| < PREFIX + ApduOffset(0) then None
    else
      var total := Get16(frame, 16);
      if total < 28 || 14 + total > |frame| then None else Some(frame[PREFIX..14 + total])
  }

  function OpenPayload(plain: bytes, s: Session, payloadType: byte): (r: Opened)
    requires s.payloadLength >= ELEM && HdrOffset(s.ivLength) + 4 + s.payloadLength <= |plain|
    ensures r.Rejected? ==> r.code < 0
  {
    var p := ParsePayload(plain, s);
    if p.Err? then Rejected(p.code)
    else if p.value.payloadType != payloadType then Rejected(ERR_BAD_PAYLOAD_TYPE)
    else Opened(s, p.value, plain[p.off..p.off + p.value.apduSize])
  }

  /** unwrap_r_frame(), with the APDU it points at. */
  function Unwrap(frame: bytes, si: byte, payloadType: byte, mode: Mode, c: Crypto): (r: Opened)
    requires Lawful(c)
    ensures r.Rejected? ==> r.code < 0
  {
    var udp := SessionPdu(frame);
    if udp.None? then Rejected(ERR_TOO_SHORT)
    else
      var s := ParseSession(udp.value);
      if s.Err? then Rejected(s.code)
      else if s.value.si != si then Rejected(ERR_BAD_SI)
      else
        var (ok, plain) := Unsealed(udp.value, mode, s.value, c);
        if !ok then Rejected(ERR_AUTH) else OpenPayload(plain, s.value, payloadType)
  }

  // ---------------------------------------------------------------- what the sender puts on the wire

  /** The UDP payload of a sealed frame. */
  function Wire(p: Params, apdu: bytes, c: Crypto): (r: bytes)
  {
    match p.mode
    case SecNone => Envelope(p) + apdu
    case SecHmac => Envelope(p) + apdu + ([SIGNATURE_TAG, TAG_SIZE] + c.hmac(Envelope(p) + apdu))
    case SecGcm =>
      var iv := DeriveIv(p.keyId, p.spduNumber);
      var aad := Head(p) + iv + Be32(PayloadLength(p));
      var (cipher, tag) := c.encrypt(iv, aad, Elem(p) + apdu);
      aad + cipher + ([SIGNATURE_TAG, TAG_SIZE] + tag)
  }

  /** Envelope, APDU and room for the trailer as they lie in the buffer before seal(); IV and trailer may hold anything. */
  function Draft(p: Params, iv: bytes, apdu: bytes, room: bytes): (r: bytes)
  {
    Head(p) + iv + Be32(PayloadLength(p)) + (Elem(p) + apdu) + room
  }

  lemma HeadFields(p: Params)
    ensures var h := Head(p);
            && h[0] == 0x01 && h[1] == 0x40 && h[2] == p.si && h[4] == 0x80 && Get16(h, 14) == 2
            && Get32(h, OFF_SPDU_NUMBER) == p.spduNumber && Get32(h, OFF_KEY_ID) == p.keyId
            && h[OFF_IV_LENGTH] == IvLength(p.mode)
  {
    var h := Head(p);
    assert h[10..14] == Be32(p.spduNumber) && h[22..26] == Be32(p.keyId);
    assert h[14..16] == Be16(2);
    Get32At(h, 10, Be32(p.spduNumber));
    Get32At(h, 22, Be32(p.keyId));
  }

  lemma Get32At(s: bytes, at: nat, w: bytes)
    requires |w| == 4 && Holds(s, at, w)
    ensures Get32(s, at) == Get32(w, 0)
  {
    assert forall i :: 0 <= i < 4 ==> s[at + i] == w[i];
  }

  lemma Get16At(s: bytes, at: nat, w: bytes)
    requires |w| == 2 && Holds(s, at, w)
    ensures Get16(s, at) == Get16(w, 0)
  {
    assert forall i :: 0 <= i < 2 ==> s[at + i] == w[i];
  }

  /** Every sealable draft starts with the header fields. */
  lemma HeadOf(p: Params, rest: bytes)
    ensures var u := Head(p) + rest;
            && u[0] == 0x01 && u[1] == 0x40 && u[2] == p.si && u[4] == 0x80 && Get16(u, 14) == 2
            && Get32(u, OFF_SPDU_NUMBER) == p.spduNumber && Get32(u, OFF_KEY_ID) == p.keyId
            && u[OFF_IV_LENGTH] == IvLength(p.mode)
  {
    HeadFields(p);
  }

  lemma DraftSealable(p: Params, iv: bytes, apdu: bytes, room: bytes)
    requires |iv| == IvLength(p.mode) && |apdu| == p.apduLength && |room| == TRAILER
    ensures var u := Draft(p, iv, apdu, room);
            && Sealable(u) && u[OFF_IV_LENGTH] == IvLength(p.mode)
            && PayloadStart(u) == HdrOffset(IvLength(p.mode)) + 4
            && PayloadEnd(u) == ApduOffset(IvLength(p.mode)) + |apdu|
            && Get32(u, OFF_SPDU_NUMBER) == p.spduNumber && Get32(u, OFF_KEY_ID) == p.keyId
  {
    hide Head, Elem, Be32, Get32;
    var len := Be32(PayloadLength(p));
    var u := Draft(p, iv, apdu, room);
    assert u == Head(p) + (iv + len + (Elem(p) + apdu) + room);
    HeadOf(p, iv + len + (Elem(p) + apdu) + room);
    assert Holds(u, HdrOffset(IvLength(p.mode)), len);
    Get32At(u, HdrOffset(IvLength(p.mode)), len);
  }

  lemma EnvelopeParts(p: Params, apdu: bytes, iv: bytes)
    requires p.mode != SecGcm && |iv| == 0
    ensures Envelope(p) + apdu == Head(p) + iv + Be32(PayloadLength(p)) + (Elem(p) + apdu)
  {
    assert Zeros(0) == [] == iv;
  }

  /** Sealing a draft gives the wire form, whatever IV and trailer bytes the buffer held before. */
  lemma SealedIsWire(p: Params, iv: bytes, apdu: bytes, room: bytes, c: Crypto)
    requires |iv| == IvLength(p.mode) && |apdu| == p.apduLength && |room| == TrailerSize(p.mode) && Lawful(c)
    ensures p.mode != SecNone ==> Sealable(Draft(p, iv, apdu, room))
    ensures p.mode == SecGcm ==> Draft(p, iv, apdu, room)[OFF_IV_LENGTH] == 12
    ensures Sealed(Draft(p, iv, apdu, room), p.mode, c) == Wire(p, apdu, c)
  {
    hide Head, Elem, Be32, Get32;
    var u := Draft(p, iv, apdu, room);
    match p.mode
    case SecNone =>
      EnvelopeParts(p, apdu, iv);
      assert u == Envelope(p) + apdu;
    case SecHmac =>
      EnvelopeParts(p, apdu, iv);
      DraftSealable(p, iv, apdu, room);
      assert u == (Envelope(p) + apdu) + room;
      assert u[..PayloadEnd(u)] == Envelope(p) + apdu;
      TagIsSixteen(c, Envelope(p) + apdu);
      OverlayTail(Envelope(p) + apdu, room, [SIGNATURE_TAG, TAG_SIZE] + c.hmac(Envelope(p) + apdu));
    case SecGcm =>
      DraftSealable(p, iv, apdu, room);
      SealedGcm(p, iv, apdu, room, c);
  }

  lemma OverlayTail(s: bytes, t: bytes, w: bytes)
    requires |t| == |w|
    ensures Overlay(s + t, |s|, w) == s + w
  {
  }

  lemma OverlayMiddle(s: bytes, t: bytes, u: bytes, w: bytes)
    requires |t| == |w|
    ensures Overlay(s + t + u, |s|, w) == s + w + u
  {
  }

  lemma SealedGcm(p: Params, oldIv: bytes, apdu: bytes, room: bytes, c: Crypto)
    requires p.mode == SecGcm && |oldIv| == 12 && |apdu| == p.apduLength && |room| == TRAILER && Lawful(c)
    requires Sealable(Draft(p, oldIv, apdu, room)) && Draft(p, oldIv, apdu, room)[OFF_IV_LENGTH] == 12
    ensures Sealed(Draft(p, oldIv, apdu, room), SecGcm, c) == Wire(p, apdu, c)
  {
    hide Overlay, Get32, Lawful, Head, Elem, DeriveIv, Be32;
    DraftSealable(p, oldIv, apdu, room);
    var u := Draft(p, oldIv, apdu, room);
    var len, elem := Be32(PayloadLength(p)), Elem(p);
    var iv := DeriveIv(p.keyId, p.spduNumber);
    assert u == Head(p) + oldIv + (len + (elem + apdu) + room);
    OverlayMiddle(Head(p), oldIv, len + (elem + apdu) + room, iv);
    var aad := Head(p) + iv + len;
    var marked := Overlay(u, OFF_IV, iv);
    assert marked == aad + (elem + apdu) + room;
    var start, end := PayloadStart(u), PayloadEnd(u);
    assert marked[..start] == aad && marked[start..end] == elem + apdu;
    DecryptUndoesEncrypt(c, iv, aad, elem + apdu);
    var (cipher, tag) := c.encrypt(iv, aad, elem + apdu);
    OverlayMiddle(aad, elem + apdu, room, cipher);
    OverlayTail(aad + cipher, room, [SIGNATURE_TAG, TAG_SIZE] + tag);
  }

  // ---------------------------------------------------------------- the receiver undoes the sender

  /** Sender parameters that agree with each other and fit one datagram. */
  ghost predicate Sendable(p: Params, apdu: bytes)
  {
    && |apdu| == p.apduLength
    && UdpPayloadSize(p.mode, |apdu|) + 28 < U16
    && ((p.si == SI_R_GOOSE && p.payloadType == TYPE_GOOSE) || (p.si == SI_R_SV && p.payloadType == TYPE_SV))
  }

  /** Session fields the receiver must recover. */
  function SessionOf(p: Params): (s: Session)
  {
    Session(p.si, p.spduNumber, p.keyId, IvLength(p.mode), PayloadLength(p))
  }

  function PayloadOf(p: Params): (r: Payload)
  {
    Payload(p.payloadType, if p.simulation then 1 else 0, p.appid, p.apduLength, p.apduLength)
  }

  /** Wire form, split where parsing needs it: header, IV, length, payload, trailer. */
  lemma WireForm(p: Params, apdu: bytes, c: Crypto) returns (iv: bytes, body: bytes, trailer: bytes)
    requires |apdu| == p.apduLength && Lawful(c)
    ensures |iv| == IvLength(p.mode) && |body| == ELEM + |apdu| && |trailer| == TrailerSize(p.mode)
    ensures Wire(p, apdu, c) == Head(p) + iv + Be32(PayloadLength(p)) + body + trailer
    ensures |Wire(p, apdu, c)| == UdpPayloadSize(p.mode, |apdu|)
    ensures p.mode != SecGcm ==> body == Elem(p) + apdu
    ensures p.mode == SecHmac ==> trailer == [SIGNATURE_TAG, TAG_SIZE] + c.hmac(Envelope(p) + apdu)
    ensures p.mode == SecGcm ==>
              var aad := Head(p) + iv + Be32(PayloadLength(p));
              && body == c.encrypt(iv, aad, Elem(p) + apdu).0
              && trailer == [SIGNATURE_TAG, TAG_SIZE] + c.encrypt(iv, aad, Elem(p) + apdu).1
  {
    hide Lawful, Head, Elem, Be32;
    iv, body, trailer := Zeros(IvLength(p.mode)), Elem(p) + apdu, [];
    if p.mode == SecHmac {
      TagIsSixteen(c, Envelope(p) + apdu);
      trailer := [SIGNATURE_TAG, TAG_SIZE] + c.hmac(Envelope(p) + apdu);
    } else if p.mode == SecGcm {
      iv := DeriveIv(p.keyId, p.spduNumber);
      var aad := Head(p) + iv + Be32(PayloadLength(p));
      DecryptUndoesEncrypt(c, iv, aad, Elem(p) + apdu);
      body := c.encrypt(iv, aad, Elem(p) + apdu).0;
      trailer := [SIGNATURE_TAG, TAG_SIZE] + c.encrypt(iv, aad, Elem(p) + apdu).1;
    }
  }

  /** Under GCM the IV on the wire is the derived one. */
  lemma GcmIv(p: Params, apdu: bytes, c: Crypto)
    requires p.mode == SecGcm
    ensures var iv := DeriveIv(p.keyId, p.spduNumber);
            var aad := Head(p) + iv + Be32(PayloadLength(p));
            var (cipher, tag) := c.encrypt(iv, aad, Elem(p) + apdu);
            Wire(p, apdu, c) == aad + cipher + ([SIGNATURE_TAG, TAG_SIZE] + tag)
  {
  }

  lemma SessionRecovered(p: Params, iv: bytes, body: bytes, trailer: bytes)
    requires |iv| == IvLength(p.mode) && |body| == PayloadLength(p) && (p.si == SI_R_GOOSE || p.si == SI_R_SV)
    ensures ParseSession(Head(p) + iv + Be32(PayloadLength(p)) + body + trailer) ==
            Ok(HdrOffset(IvLength(p.mode)), SessionOf(p))
  {
    hide Head, Get32, Be32;
    var len := Be32(PayloadLength(p));
    var u := Head(p) + iv + len + body + trailer;
    assert u == Head(p) + (iv + len + body + trailer);
    HeadOf(p, iv + len + body + trailer);
    assert Holds(u, HdrOffset(IvLength(p.mode)), len);
    Get32At(u, HdrOffset(IvLength(p.mode)), len);
  }

  lemma PayloadRecovered(p: Params, u: bytes, apdu: bytes)
    requires |apdu| == p.apduLength && (p.payloadType == TYPE_GOOSE || p.payloadType == TYPE_SV)
    requires Holds(u, HdrOffset(IvLength(p.mode)) + 4, Elem(p) + apdu)
    ensures ParsePayload(u, SessionOf(p)) == Ok(ApduOffset(IvLength(p.mode)), PayloadOf(p))
    ensures Holds(u, ApduOffset(IvLength(p.mode)), apdu)
  {
    hide Be16, Get16;
    var at := HdrOffset(IvLength(p.mode)) + 4;
    var body := Elem(p) + apdu;
    assert body[6..] == apdu;
    HoldsPart(u, at, body, 6, apdu);
    assert Holds(body, 0, body[..2]) && Holds(body, 2, Be16(p.appid)) && Holds(body, 4, Be16(p.apduLength));
    HoldsPart(u, at, body, 0, body[..2]);
    assert u[at] == u[at..at + 2][0] && u[at + 1] == u[at..at + 2][1];
    HoldsPart(u, at, body, 2, Be16(p.appid));
    Get16At(u, at + 2, Be16(p.appid));
    HoldsPart(u, at, body, 4, Be16(p.apduLength));
    Get16At(u, at + 4, Be16(p.apduLength));
  }

  lemma UnsealedWire(p: Params, apdu: bytes, c: Crypto)
    requires Sendable(p, apdu) && Lawful(c)
    ensures var u := Wire(p, apdu, c);
            && HdrOffset(IvLength(p.mode)) + 4 + PayloadLength(p) <= |u|
            && Unsealed(u, p.mode, SessionOf(p), c).0
            && Holds(Unsealed(u, p.mode, SessionOf(p), c).1, HdrOffset(IvLength(p.mode)) + 4, Elem(p) + apdu)
  {
    hide Lawful, Head, Elem, Be32, Envelope, Wire, Overlay;
    var iv, body, trailer := WireForm(p, apdu, c);
    var len := Be32(PayloadLength(p));
    var aad := Head(p) + iv + len;
    var u := Wire(p, apdu, c);
    var start := HdrOffset(IvLength(p.mode)) + 4;
    var end := start + PayloadLength(p);
    assert u[..start] == aad && u[start..end] == body && u[end..] == trailer;
    if p.mode == SecHmac {
      assert u[..end] == aad + body;
      EnvelopeParts(p, apdu, iv);
      assert u[end] == trailer[0];
      assert u[end + 2..end + TRAILER] == trailer[2..];
    } else if p.mode == SecGcm {
      assert u[end] == trailer[0] && u[end + 1] == trailer[1];
      assert u[end + 2..end + TRAILER] == trailer[2..];
      assert u[OFF_IV..OFF_IV + 12] == iv;
      DecryptUndoesEncrypt(c, iv, aad, Elem(p) + apdu);
      OverlayHolds(u, start, Elem(p) + apdu);
    }
  }

  lemma OverlayHolds(s: bytes, at: nat, w: bytes)
    requires at + |w| <= |s|
    ensures Holds(Overlay(s, at, w), at, w)
  {
  }

  /** The whole frame on the wire, with any Ethernet padding behind it. */
  function Frame(cfg: Config, srcPort: u16, p: Params, apdu: bytes, c: Crypto, pad: bytes): (r: bytes)
    requires |cfg.srcMac| == 6
  {
    Prefix(cfg, UdpPayloadSize(p.mode, |apdu|), srcPort) + Wire(p, apdu, c) + pad
  }

  /** Prefix fields the receiver reads. */
  lemma PrefixFields(cfg: Config, n: nat, srcPort: u16, rest: bytes)
    requires |cfg.srcMac| == 6 && n + 28 < U16
    ensures var f := Prefix(cfg, n, srcPort) + rest;
            && f[12] == 0x08 && f[13] == 0x00 && f[14] == 0x45 && f[23] == 17
            && Get16(f, 16) == 28 + n && Get16(f, 20) == 0x4000
            && Get16(f, 34) == srcPort && Get16(f, 36) == cfg.dstPort && Get16(f, 38) == 8 + n
            && Get32(f, 30) == cfg.dstIP && ChecksumOk(f[14..34])
  {
    hide HeaderChecksum, ChecksumOk, IpHeader, UdpHeader, EthHeader, Get16, Get32;
    var ip := IpHeader(cfg, n, HeaderChecksum(IpHeader(cfg, n, 0)));
    var udp := UdpHeader(cfg, n, srcPort);
    var f := Prefix(cfg, n, srcPort) + rest;
    HeaderAccepted(cfg, n);
    EthFields(cfg, ip + udp + rest);
    assert f == EthHeader(cfg) + (ip + udp + rest);
    assert f[14..34] == ip && f[34..42] == udp;
    IpFields(f, cfg, n, HeaderChecksum(IpHeader(cfg, n, 0)));
    UdpFields(f, cfg, n, srcPort);
  }

  lemma EthFields(cfg: Config, rest: bytes)
    requires |cfg.srcMac| == 6
    ensures var f := EthHeader(cfg) + rest; f[12] == 0x08 && f[13] == 0x00
  {
  }

  lemma IpFields(f: bytes, cfg: Config, n: nat, csum: u16)
    requires n + 28 < U16 && Holds(f, 14, IpHeader(cfg, n, csum))
    ensures |f| >= 34 && f[14] == 0x45 && f[23] == 17
    ensures Get16(f, 16) == 28 + n && Get16(f, 20) == 0x4000 && Get32(f, 30) == cfg.dstIP
  {
    hide Be16, Be32, Get16, Get32;
    var ip := IpHeader(cfg, n, csum);
    assert f[14] == f[14..34][0] && f[23] == f[14..34][9];
    assert Holds(ip, 2, Be16(28 + n)) && Holds(ip, 6, Be16(0x4000)) && Holds(ip, 16, Be32(cfg.dstIP));
    HoldsPart(f, 14, ip, 2, Be16(28 + n));
    Get16At(f, 16, Be16(28 + n));
    HoldsPart(f, 14, ip, 6, Be16(0x4000));
    Get16At(f, 20, Be16(0x4000));
    HoldsPart(f, 14, ip, 16, Be32(cfg.dstIP));
    Get32At(f, 30, Be32(cfg.dstIP));
  }

  lemma UdpFields(f: bytes, cfg: Config, n: nat, srcPort: u16)
    requires n + 28 < U16 && Holds(f, 34, UdpHeader(cfg, n, srcPort))
    ensures |f| >= 42 && Get16(f, 34) == srcPort && Get16(f, 36) == cfg.dstPort && Get16(f, 38) == 8 + n
  {
    hide Be16, Get16;
    var udp := UdpHeader(cfg, n, srcPort);
    assert Holds(udp, 0, Be16(srcPort)) && Holds(udp, 2, Be16(cfg.dstPort)) && Holds(udp, 4, Be16(8 + n));
    HoldsPart(f, 34, udp, 0, Be16(srcPort));
    Get16At(f, 34, Be16(srcPort));
    HoldsPart(f, 34, udp, 2, Be16(cfg.dstPort));
    Get16At(f, 36, Be16(cfg.dstPort));
    HoldsPart(f, 34, udp, 4, Be16(8 + n));
    Get16At(f, 38, Be16(8 + n));
  }

  /**
   Round trip.  For every security mode, APDU that fits one datagram, APPID, SPDU number,
   source port, group and padding: the frame is classified by its session identifier with the
   source port as key, its envelope passes validation in software, and unwrapping it returns
   exactly the APDU, the APPID, the SPDU number and the group that were sent.
   */
  lemma RoundTrip(cfg: Config, srcPort: u16, p: Params, apdu: bytes, c: Crypto, pad: bytes)
    requires |cfg.srcMac| == 6 && cfg.dstPort == UDP_PORT && Sendable(p, apdu) && Lawful(c)
    ensures var f := Frame(cfg, srcPort, p, apdu, c, pad);
            && |f| >= MIN_FRAME
            && ProtoType(f, |f|) == (if p.si == SI_R_GOOSE then RGoose else RSv, srcPort)
            && Validate(f, Unknown) == Accepted(cfg.dstIP)
            && Unwrap(f, p.si, p.payloadType, p.mode, c) == Opened(SessionOf(p), PayloadOf(p), apdu)
            && SessionOf(p).spduNumber == p.spduNumber && PayloadOf(p).appid == p.appid
  {
    hide Lawful, Head, Be32, Wire, Prefix, ChecksumOk, Get16, Get32, Unwrap, ProtoType, Validate;
    var n := UdpPayloadSize(p.mode, |apdu|);
    var w := Wire(p, apdu, c);
    var f := Frame(cfg, srcPort, p, apdu, c, pad);
    var iv, body, trailer := WireForm(p, apdu, c);
    assert f == Prefix(cfg, n, srcPort) + (w + pad);
    PrefixFields(cfg, n, srcPort, w + pad);
    assert f[PREFIX..14 + Get16(f, 16)] == w;
    assert w == Head(p) + (iv + Be32(PayloadLength(p)) + body + trailer);
    HeadOf(p, iv + Be32(PayloadLength(p)) + body + trailer);
    assert f[44] == w[2];
    Classified(f, p.si);
    Validated(f, n);
    Unwrapped(f, p, apdu, c);
  }

  lemma Classified(f: bytes, si: byte)
    requires |f| >= MIN_FRAME && f[12] == 0x08 && f[13] == 0x00 && f[14] == 0x45 && f[23] == 17
    requires Get16(f, 36) == UDP_PORT && f[44] == si && (si == SI_R_GOOSE || si == SI_R_SV)
    ensures ProtoType(f, |f|) == (if si == SI_R_GOOSE then RGoose else RSv, Get16(f, 34))
  {
    PortOctets(f);
  }

  lemma Validated(f: bytes, n: nat)
    requires |f| >= 42 + n && f[12] == 0x08 && f[13] == 0x00 && f[14] == 0x45 && f[23] == 17
    requires Get16(f, 16) == 28 + n && Get16(f, 20) == 0x4000
    requires Get16(f, 36) == UDP_PORT && Get16(f, 38) == 8 + n && ChecksumOk(f[14..34])
    ensures Validate(f, Unknown) == Accepted(Get32(f, 30))
  {
    hide ChecksumOk, Get16, Get32;
  }

  lemma Unwrapped(f: bytes, p: Params, apdu: bytes, c: Crypto)
    requires Sendable(p, apdu) && Lawful(c)
    requires |f| >= MIN_FRAME && Get16(f, 16) == 28 + |Wire(p, apdu, c)| && 42 + |Wire(p, apdu, c)| <= |f|
    requires f[PREFIX..14 + Get16(f, 16)] == Wire(p, apdu, c)
    ensures Unwrap(f, p.si, p.payloadType, p.mode, c) == Opened(SessionOf(p), PayloadOf(p), apdu)
  {
    hide Lawful, Head, Elem, Be32, Wire, Get16, Unsealed, ParseSession, ParsePayload;
    var w := Wire(p, apdu, c);
    var iv, body, trailer := WireForm(p, apdu, c);
    SessionRecovered(p, iv, body, trailer);
    UnsealedWire(p, apdu, c);
    PayloadRecovered(p, Unsealed(w, p.mode, SessionOf(p), c).1, apdu);
  }

  /**
   A frame of one mode is not opened by a receiver set to a mode that asks for more: without a
   trailer nothing authenticates, and a signed but unencrypted frame carries no IV.
   */
  lemma WeakerModeRejected(cfg: Config, srcPort: u16, p: Params, apdu: bytes, c: Crypto, pad: bytes, mode: Mode)
    requires |cfg.srcMac| == 6 && Sendable(p, apdu) && Lawful(c)
    requires (p.mode == SecNone && mode != SecNone) || (p.mode == SecHmac && mode == SecGcm)
    ensures Unwrap(Frame(cfg, srcPort, p, apdu, c, pad), p.si, p.payloadType, mode, c) == Rejected(ERR_AUTH)
  {
    hide Lawful, Head, Be32, Wire, Prefix, ChecksumOk, Get16, Get32, ParseSession, OpenPayload;
    var n := UdpPayloadSize(p.mode, |apdu|);
    var w := Wire(p, apdu, c);
    var f := Frame(cfg, srcPort, p, apdu, c, pad);
    var iv, body, trailer := WireForm(p, apdu, c);
    assert f == Prefix(cfg, n, srcPort) + (w + pad);
    PrefixFields(cfg, n, srcPort, w + pad);
    assert f[PREFIX..14 + Get16(f, 16)] == w;
    SessionRecovered(p, iv, body, trailer);
  }

  /**
   Damage to one 16-bit word of the IPv4 header of a sent frame is noticed by a receiver that
   verifies the checksum itself, unless the word went between 0x0000 and 0xFFFF.
   */
  lemma HeaderDamageRefused(cfg: Config, n: nat, srcPort: u16, rest: bytes, k: nat, word: u16)
    requires |cfg.srcMac| == 6 && n + 28 < U16 && k < WORDS
    requires var was := Get16(Prefix(cfg, n, srcPort) + rest, OFF_IP + 2 * k);
             word != was && !((word == 0 || word == 0xFFFF) && (was == 0 || was == 0xFFFF))
    ensures Validate(Overlay(Prefix(cfg, n, srcPort) + rest, OFF_IP + 2 * k, Be16(word)), Unknown).Refused?
  {
    hide Prefix, ChecksumOk, Be16, Get32, Overlay;
    var f := Prefix(cfg, n, srcPort) + rest;
    var g := Overlay(f, OFF_IP + 2 * k, Be16(word));
    PrefixFields(cfg, n, srcPort, rest);
    HeaderOverlay(f, k, Be16(word));
    SingleWordChange(f[14..34], k, word);
    assert Get16(f[14..34], 2 * k) == Get16(f, OFF_IP + 2 * k);
  }

  lemma HeaderOverlay(f: bytes, k: nat, w: bytes)
    requires |f| >= 34 && k < WORDS && |w| == 2
    ensures Overlay(f, OFF_IP + 2 * k, w)[14..34] == Overlay(f[14..34], 2 * k, w)
  {
  }

  lemma PortOctets(f: bytes)
    requires |f| >= 40 && Get16(f, 36) == UDP_PORT
    ensures f[36] == 0x00 && f[37] == 0x66
  {
  }

  /** unwrap_r_frame() on the receive buffer: under GCM the payload is decrypted where it lies. */
  method UnwrapInPlace(buffer: array<byte>, size: nat, si: byte, payloadType: byte, mode: Mode, c: Crypto)
    returns (r: Opened)
    requires size <= buffer.Length && Lawful(c)
    modifies buffer
    ensures r == Unwrap(old(buffer[..size]), si, payloadType, mode, c)
    ensures size >= PREFIX ==> buffer[..PREFIX] == old(buffer[..PREFIX]) && buffer[size..] == old(buffer[size..])
  {
    hide Lawful, ParseSession, Unsealed, OpenPayload, Overlay, SessionPdu;
    ghost var was := buffer[..];
    var pdu := SessionPdu(buffer[..size]);
    if pdu.None? {
      return Rejected(ERR_TOO_SHORT);
    }
    var udp := pdu.value;
    assert udp == buffer[PREFIX..PREFIX + |udp|];
    var s := ParseSession(udp);
    if s.Err? {
      return Rejected(s.code);
    }
    if s.value.si != si {
      return Rejected(ERR_BAD_SI);
    }
    var ok := Unseal(buffer, PREFIX, |udp|, mode, s.value, c);
    OverlayParts(was, PREFIX, Unsealed(udp, mode, s.value, c).1, buffer[..]);
    assert buffer[size..] == buffer[..][PREFIX + |udp|..][size - PREFIX - |udp|..];
    assert was[size..] == was[PREFIX + |udp|..][size - PREFIX - |udp|..];
    if !ok {
      return Rejected(ERR_AUTH);
    }
    r := OpenPayload(buffer[PREFIX..PREFIX + |udp|], s.value, payloadType);
  }

  lemma OverlayParts(s: bytes, at: nat, w: bytes, r: bytes)
    requires at + |w| <= |s| && r == Overlay(s, at, w)
    ensures r[..at] == s[..at] && r[at..at + |w|] == w && r[at + |w|..] == s[at + |w|..]
  {
  }
}
