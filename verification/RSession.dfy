/** The IEC 61850-90-5 session envelope: build, seal, unseal and parse. */
module RSession {
  import opened Bytes
  import Bits

  const SI_R_GOOSE: byte := 0xA1
  const SI_R_SV: byte := 0xA2
  const TYPE_GOOSE: byte := 0x81
  const TYPE_SV: byte := 0x82
  const SIGNATURE_TAG: byte := 0x85
  const TAG_SIZE: nat := 16
  const TRAILER: nat := 18
  const FIXED: nat := 27
  const OFF_SPDU_NUMBER: nat := 10
  const OFF_KEY_ID: nat := 22
  const OFF_IV_LENGTH: nat := 26
  const OFF_IV: nat := 27
  const ELEM: nat := 6
  const PAYLOAD_HDR: nat := 10

  const ERR_TOO_SHORT: int := -1
  const ERR_BAD_CLTP: int := -2
  const ERR_BAD_SI: int := -3
  const ERR_BAD_PI: int := -4
  const ERR_BAD_VERSION: int := -5
  const ERR_BAD_PAYLOAD_LEN: int := -6
  const ERR_BAD_PAYLOAD_TYPE: int := -7

  datatype Mode = SecNone | SecHmac | SecGcm

  function IvLength(mode: Mode): (n: byte)
  {
    if mode == SecGcm then 12 else 0
  }

  function HdrOffset(ivLen: byte): (n: nat)
  {
    FIXED + ivLen
  }

  function ApduOffset(ivLen: byte): (n: nat)
  {
    HdrOffset(ivLen) + PAYLOAD_HDR
  }

  function TrailerSize(mode: Mode): (n: nat)
  {
    if mode == SecNone then 0 else TRAILER
  }

  function UdpPayloadSize(mode: Mode, apduLength: nat): (n: nat)
  {
    ApduOffset(IvLength(mode)) + apduLength + TrailerSize(mode)
  }

  // ---------------------------------------------------------------- crypto interface

  /** The backend's operations: a tag, an authenticated encryption and its inverse. */
  datatype Crypto = Crypto(
    hmac: bytes -> bytes,
    encrypt: (bytes, bytes, bytes) -> (bytes, bytes),
    decrypt: (bytes, bytes, bytes, bytes) -> (bool, bytes))

  /** All that is asked of a backend: sizes, and that decryption undoes encryption. */
  ghost predicate Lawful(c: Crypto)
  {
    && (forall d :: |c.hmac(d)| == TAG_SIZE)
    && (forall iv, aad, p :: |c.encrypt(iv, aad, p).0| == |p| && |c.encrypt(iv, aad, p).1| == TAG_SIZE)
    && (forall iv, aad, p :: c.decrypt(iv, aad, c.encrypt(iv, aad, p).0, c.encrypt(iv, aad, p).1) == (true, p))
    && (forall iv, aad, x, t :: |c.decrypt(iv, aad, x, t).1| == |x|)
  }

  lemma TagIsSixteen(c: Crypto, d: bytes)
    requires Lawful(c)
    ensures |c.hmac(d)| == TAG_SIZE
  {
  }

  lemma DecryptUndoesEncrypt(c: Crypto, iv: bytes, aad: bytes, p: bytes)
    requires Lawful(c)
    ensures var (cipher, tag) := c.encrypt(iv, aad, p);
            |cipher| == |p| && |tag| == TAG_SIZE && c.decrypt(iv, aad, cipher, tag) == (true, p)
  {
  }

  lemma DecryptKeepsSize(c: Crypto, iv: bytes, aad: bytes, x: bytes, tag: bytes)
    requires Lawful(c)
    ensures |c.decrypt(iv, aad, x, tag).1| == |x|
  {
  }

  /** A toy backend: a rotation of every byte, and a constant tag. */
  const TOY: Crypto := Crypto(
    d => Zeros(TAG_SIZE),
    (iv, aad, p) => (Rotate(p, 1), Zeros(TAG_SIZE)),
    (iv, aad, x, t) => (true, Rotate(x, 255)))

  function Rotate(s: bytes, shift: nat): (r: bytes)
    ensures |r| == |s|
  {
    seq(|s|, i requires 0 <= i < |s| => (s[i] + shift) % 0x100)
  }

  /** The interface can be met. */
  lemma ToyIsLawful()
    ensures Lawful(TOY)
  {
    forall p: bytes ensures Rotate(Rotate(p, 1), 255) == p {
      assert forall i :: 0 <= i < |p| ==> Rotate(Rotate(p, 1), 255)[i] == p[i];
    }
  }

  function DeriveIv(keyId: u32, spduNumber: u32): (iv: bytes)
    ensures |iv| == 12
  {
    Be32(keyId) + Zeros(4) + Be32(spduNumber)
  }

  /** One key never yields the same initialisation vector for two sequence numbers. */
  lemma DeriveIvInjective(k: u32, n: u32, k': u32, n': u32)
    ensures DeriveIv(k, n) == DeriveIv(k', n') <==> k == k' && n == n'
  {
    if DeriveIv(k, n) == DeriveIv(k', n') {
      var a, b := DeriveIv(k, n), DeriveIv(k', n');
      assert a[..4] == Be32(k) && b[..4] == Be32(k');
      assert a[8..] == Be32(n) && b[8..] == Be32(n');
    }
  }

  /** The tag compare of VerifyHMAC: differences are gathered over all sixteen octets. */
  method TagsEqual(expected: bytes, tag: bytes) returns (same: bool)
    requires |expected| == |tag| == TAG_SIZE
    ensures same <==> expected == tag
  {
    var diff: nat := 0;
    for i := 0 to TAG_SIZE
      invariant diff == 0 <==> expected[..i] == tag[..i]
    {
      Bits.XorZero(expected[i], tag[i]);
      Bits.OrZero(diff, Bits.Xor(expected[i], tag[i]));
      diff := Bits.Or(diff, Bits.Xor(expected[i], tag[i]));
      assert expected[..i + 1] == expected[..i] + [expected[i]];
      assert tag[..i + 1] == tag[..i] + [tag[i]];
    }
    assert expected[..TAG_SIZE] == expected && tag[..TAG_SIZE] == tag;
    return diff == 0;
  }

  // ---------------------------------------------------------------- building

  datatype Params = Params(si: byte, payloadType: byte, mode: Mode, spduNumber: u32, keyId: u32,
                           appid: u16, apduLength: u16, simulation: bool)

  function PayloadLength(p: Params): (n: u32)
  {
    ELEM + p.apduLength
  }

  /** Session header up to and including the IV length. */
  function Head(p: Params): (s: bytes)
    ensures |s| == FIXED
  {
    [0x01, 0x40, p.si, 24, 0x80, 18] + Be32(20 + PayloadLength(p)) + Be32(p.spduNumber) + Be16(2)
    + Be32(0) + Be16(0) + Be32(p.keyId) + [IvLength(p.mode)]
  }

  /** Payload element header: type, simulation, APPID and APDU length. */
  function Elem(p: Params): (s: bytes)
    ensures |s| == ELEM
  {
    [p.payloadType, if p.simulation then 1 else 0] + Be16(p.appid) + Be16(p.apduLength)
  }

  /** What build() writes: the IV is left zero for seal() to fill. */
  function Envelope(p: Params): (s: bytes)
    ensures |s| == ApduOffset(IvLength(p.mode))
  {
    Head(p) + Zeros(IvLength(p.mode)) + Be32(PayloadLength(p)) + Elem(p)
  }

  method WriteHead(buf: array<byte>, at: nat, p: Params, ghost was: bytes)
    requires at + FIXED <= buf.Length && was == buf[..]
    modifies buf
    ensures buf[..] == Overlay(was, at, Head(p))
  {
    hide Overlay, Be16, Be32;
    ghost var done: bytes := [];
    OverlayNothing(was, at);
    done := WriteNext(buf, was, at, done, at, [0x01, 0x40, p.si, 24, 0x80, 18]);
    done := WriteNext(buf, was, at, done, at + 6, Be32(20 + PayloadLength(p)));
    done := WriteNext(buf, was, at, done, at + 10, Be32(p.spduNumber));
    done := WriteNext(buf, was, at, done, at + 14, Be16(2));
    done := WriteNext(buf, was, at, done, at + 16, Be32(0));
    done := WriteNext(buf, was, at, done, at + 20, Be16(0));
    done := WriteNext(buf, was, at, done, at + 22, Be32(p.keyId));
    done := WriteNext(buf, was, at, done, at + 26, [IvLength(p.mode)]);
  }

  /** build(): the fields in wire order, ending where the APDU goes. */
  method Build(buf: array<byte>, at: nat, p: Params) returns (apduAt: nat)
    requires at + ApduOffset(IvLength(p.mode)) <= buf.Length
    modifies buf
    ensures apduAt == ApduOffset(IvLength(p.mode))
    ensures buf[..] == Overlay(old(buf[..]), at, Envelope(p))
  {
    hide Overlay, Be16, Be32, Zeros, Head;
    var ivLen := IvLength(p.mode);
    ghost var was := buf[..];
    WriteHead(buf, at, p, was);
    ghost var done := Head(p);
    done := WriteNext(buf, was, at, done, at + OFF_IV, Zeros(ivLen));
    var phdr := at + HdrOffset(ivLen);
    done := WriteNext(buf, was, at, done, phdr, Be32(PayloadLength(p)));
    done := WriteNext(buf, was, at, done, phdr + 4, [p.payloadType, if p.simulation then 1 else 0]);
    done := WriteNext(buf, was, at, done, phdr + 6, Be16(p.appid));
    done := WriteNext(buf, was, at, done, phdr + 8, Be16(p.apduLength));
    assert done == Envelope(p);
    apduAt := ApduOffset(ivLen);
  }

  // ---------------------------------------------------------------- sealing

  /** The payload that seal() finds in a UDP payload, with room for the trailer behind it. */
  ghost predicate Sealable(udp: bytes)
  {
    && |udp| >= FIXED
    && |udp| >= HdrOffset(udp[OFF_IV_LENGTH]) + 4
    && |udp| >= HdrOffset(udp[OFF_IV_LENGTH]) + 4 + Get32(udp, HdrOffset(udp[OFF_IV_LENGTH])) + TRAILER
  }

  function PayloadStart(udp: bytes): (n: nat)
    requires Sealable(udp)
    ensures n >= FIXED + 4
  {
    HdrOffset(udp[OFF_IV_LENGTH]) + 4
  }

  function PayloadEnd(udp: bytes): (n: nat)
    requires Sealable(udp)
    ensures PayloadStart(udp) <= n && n + TRAILER <= |udp|
  {
    PayloadStart(udp) + Get32(udp, HdrOffset(udp[OFF_IV_LENGTH]))
  }

  /** seal() as a function of the UDP payload. */
  function Sealed(udp: bytes, mode: Mode, c: Crypto): (r: bytes)
    requires mode != SecNone ==> Sealable(udp)
    requires mode == SecGcm ==> udp[OFF_IV_LENGTH] == 12
    requires Lawful(c)
    ensures |r| == |udp|
  {
    match mode
    case SecNone => udp
    case SecHmac =>
      var end := PayloadEnd(udp);
      TagIsSixteen(c, udp[..end]);
      Overlay(udp, end, [SIGNATURE_TAG, TAG_SIZE] + c.hmac(udp[..end]))
    case SecGcm =>
      var start, end := PayloadStart(udp), PayloadEnd(udp);
      var iv := DeriveIv(Get32(udp, OFF_KEY_ID), Get32(udp, OFF_SPDU_NUMBER));
      var marked := Overlay(udp, OFF_IV, iv);
      DecryptUndoesEncrypt(c, iv, marked[..start], marked[start..end]);
      var (cipher, tag) := c.encrypt(iv, marked[..start], marked[start..end]);
      Overlay(Overlay(marked, start, cipher), end, [SIGNATURE_TAG, TAG_SIZE] + tag)
  }

  /** seal() in place, on the UDP payload that starts at `at` and runs to the end of the buffer. */
  method Seal(buf: array<byte>, at: nat, mode: Mode, c: Crypto)
    requires at <= buf.Length
    requires mode != SecNone ==> Sealable(buf[at..])
    requires mode == SecGcm ==> buf[at..][OFF_IV_LENGTH] == 12
    requires Lawful(c)
    modifies buf
    ensures buf[..at] == old(buf[..at])
    ensures buf[at..] == Sealed(old(buf[at..]), mode, c)
  {
    hide Lawful;
    if mode == SecNone {
      return;
    }
    ghost var udp := buf[at..];
    var ivLen := buf[at + OFF_IV_LENGTH];
    var start := HdrOffset(ivLen) + 4;
    assert Get32(buf[..], at + HdrOffset(ivLen)) == Get32(udp, HdrOffset(ivLen));
    var end := start + Get32(buf[..], at + HdrOffset(ivLen));
    WriteFrom(buf, at, end, [SIGNATURE_TAG, TAG_SIZE]);
    if mode == SecHmac {
      SealHmac(buf, at, end, c, udp);
    } else {
      SealGcm(buf, at, start, end, c, udp);
    }
  }

  method SealHmac(buf: array<byte>, at: nat, end: nat, c: Crypto, ghost udp: bytes)
    requires at <= buf.Length && |udp| == buf.Length - at && end + TRAILER <= |udp|
    requires buf[at..] == Overlay(udp, end, [SIGNATURE_TAG, TAG_SIZE])
    requires Lawful(c)
    modifies buf
    ensures |c.hmac(udp[..end])| == TAG_SIZE
    ensures buf[..at] == old(buf[..at])
    ensures buf[at..] == Overlay(udp, end, [SIGNATURE_TAG, TAG_SIZE] + c.hmac(udp[..end]))
  {
    hide Lawful;
    ghost var was := buf[at..];
    assert buf[at..at + end] == was[..end] == udp[..end];
    TagIsSixteen(c, udp[..end]);
    var tag := c.hmac(buf[at..at + end]);
    WriteFrom(buf, at, end + 2, tag);
    OverlayFuse(udp, end, [SIGNATURE_TAG, TAG_SIZE], tag);
  }

  method SealGcm(buf: array<byte>, at: nat, start: nat, end: nat, c: Crypto, ghost udp: bytes)
    requires at <= buf.Length && |udp| == buf.Length - at
    requires OFF_IV + 12 <= start <= end && end + TRAILER <= |udp|
    requires buf[at..] == Overlay(udp, end, [SIGNATURE_TAG, TAG_SIZE])
    requires Lawful(c)
    modifies buf
    ensures buf[..at] == old(buf[..at])
    ensures var iv := DeriveIv(Get32(udp, OFF_KEY_ID), Get32(udp, OFF_SPDU_NUMBER));
            var marked := Overlay(udp, OFF_IV, iv);
            var (cipher, tag) := c.encrypt(iv, marked[..start], marked[start..end]);
            && |cipher| == end - start && |tag| == TAG_SIZE
            && buf[at..] == Overlay(Overlay(marked, start, cipher), end, [SIGNATURE_TAG, TAG_SIZE] + tag)
  {
    hide Lawful, DeriveIv, Get32, Overlay;
    ghost var was := buf[at..];
    ghost var mark: bytes := [SIGNATURE_TAG, TAG_SIZE];
    Get32Slice(buf[..], at, OFF_KEY_ID);
    Get32Slice(buf[..], at, OFF_SPDU_NUMBER);
    Get32Before(udp, end, mark, OFF_KEY_ID);
    Get32Before(udp, end, mark, OFF_SPDU_NUMBER);
    var iv := DeriveIv(Get32(buf[..], at + OFF_KEY_ID), Get32(buf[..], at + OFF_SPDU_NUMBER));
    WriteFrom(buf, at, OFF_IV, iv);
    ghost var marked := Overlay(udp, OFF_IV, iv);
    ghost var now := buf[at..];
    MarkedView(udp, iv, start, end);
    assert buf[at..at + start] == now[..start];
    assert buf[at + start..at + end] == now[start..end];
    DecryptUndoesEncrypt(c, iv, marked[..start], marked[start..end]);
    var (cipher, tag) := c.encrypt(iv, buf[at..at + start], buf[at + start..at + end]);
    WriteFrom(buf, at, start, cipher);
    WriteFrom(buf, at, end + 2, tag);
    SealedParts(marked, start, end, cipher, tag);
  }

  lemma Get32Slice(s: bytes, at: nat, off: nat)
    requires at + off + 4 <= |s|
    ensures Get32(s, at + off) == Get32(s[at..], off)
  {
  }

  lemma Get32Before(s: bytes, at: nat, w: bytes, off: nat)
    requires off + 4 <= at && at + |w| <= |s|
    ensures Get32(Overlay(s, at, w), off) == Get32(s, off)
  {
  }

  lemma MarkedView(udp: bytes, iv: bytes, start: nat, end: nat)
    requires |iv| == 12 && OFF_IV + 12 <= start <= end && end + TRAILER <= |udp|
    ensures var marked := Overlay(udp, OFF_IV, iv);
            var now := Overlay(Overlay(udp, end, [SIGNATURE_TAG, TAG_SIZE]), OFF_IV, iv);
            && now == Overlay(marked, end, [SIGNATURE_TAG, TAG_SIZE])
            && now[..start] == marked[..start] && now[start..end] == marked[start..end]
  {
    var marked := Overlay(udp, OFF_IV, iv);
    var now := Overlay(Overlay(udp, end, [SIGNATURE_TAG, TAG_SIZE]), OFF_IV, iv);
    assert now == Overlay(marked, end, [SIGNATURE_TAG, TAG_SIZE]);
  }

  lemma SealedParts(marked: bytes, start: nat, end: nat, cipher: bytes, tag: bytes)
    requires start <= end && end + TRAILER <= |marked| && |cipher| == end - start && |tag| == TAG_SIZE
    ensures Overlay(Overlay(Overlay(marked, end, [SIGNATURE_TAG, TAG_SIZE]), start, cipher), end + 2, tag) ==
            Overlay(Overlay(marked, start, cipher), end, [SIGNATURE_TAG, TAG_SIZE] + tag)
  {
  }

  /** A store relative to `base`, seen from `base`. */
  method WriteFrom(buf: array<byte>, base: nat, off: nat, w: bytes)
    requires base + off + |w| <= buf.Length
    modifies buf
    ensures buf[..base] == old(buf[..base])
    ensures buf[base..] == Overlay(old(buf[base..]), off, w)
  {
    ghost var was := buf[..];
    Write(buf, base + off, w);
    assert was[..base] == old(buf[..base]) && was[base..] == old(buf[base..]);
    assert Overlay(was, base + off, w)[..base] == was[..base];
    assert Overlay(was, base + off, w)[base..] == Overlay(was[base..], off, w);
  }

  // ---------------------------------------------------------------- parsing

  datatype Session = Session(si: byte, spduNumber: u32, keyId: u32, ivLength: byte, payloadLength: u32)
  datatype Payload = Payload(payloadType: byte, simulation: byte, appid: u16, apduLength: u16, apduSize: u32)
  datatype Parsed<T> = Err(code: int) | Ok(off: nat, value: T)

  /** parse_session(): every read is bounded by the size. */
  function ParseSession(udp: bytes): (r: Parsed<Session>)
    ensures r.Err? ==> r.code < 0
    ensures r.Ok? ==> r.off == HdrOffset(r.value.ivLength) && r.off + 4 + r.value.payloadLength <= |udp|
                      && r.value.payloadLength >= ELEM && r.off + PAYLOAD_HDR <= |udp|
  {
    if |udp| < FIXED + 4 then Err(ERR_TOO_SHORT)
    else if udp[0] != 0x01 || udp[1] != 0x40 then Err(ERR_BAD_CLTP)
    else if udp[2] != SI_R_GOOSE && udp[2] != SI_R_SV then Err(ERR_BAD_SI)
    else if udp[4] != 0x80 then Err(ERR_BAD_PI)
    else if Get16(udp, 14) != 2 then Err(ERR_BAD_VERSION)
    else
      var ivLen := udp[OFF_IV_LENGTH];
      var phOff := HdrOffset(ivLen);
      if phOff + PAYLOAD_HDR > |udp| then Err(ERR_TOO_SHORT)
      else
        var payloadLength := Get32(udp, phOff);
        if payloadLength < ELEM || phOff + 4 + payloadLength > |udp| then Err(ERR_BAD_PAYLOAD_LEN)
        else Ok(phOff, Session(udp[2], Get32(udp, OFF_SPDU_NUMBER), Get32(udp, OFF_KEY_ID), ivLen, payloadLength))
  }

  /** unseal(): whether the frame is authentic, and the UDP payload it leaves behind. */
  function Unsealed(udp: bytes, mode: Mode, s: Session, c: Crypto): (r: (bool, bytes))
    requires HdrOffset(s.ivLength) + 4 + s.payloadLength <= |udp|
    requires Lawful(c)
    ensures |r.1| == |udp|
  {
    var start := HdrOffset(s.ivLength) + 4;
    var end := start + s.payloadLength;
    if mode == SecNone then (true, udp)
    else if end + TRAILER > |udp| || udp[end] != SIGNATURE_TAG then (false, udp)
    else
      var tag := udp[end + 2..end + TRAILER];
      if mode == SecHmac then (c.hmac(udp[..end]) == tag, udp)
      else if s.ivLength != 12 || udp[end + 1] != TAG_SIZE then (false, udp)
      else
        DecryptKeepsSize(c, udp[OFF_IV..OFF_IV + 12], udp[..start], udp[start..end], tag);
        var (ok, plain) := c.decrypt(udp[OFF_IV..OFF_IV + 12], udp[..start], udp[start..end], tag);
        (ok, Overlay(udp, start, plain))
  }

  /** unseal() in place. */
  method Unseal(buf: array<byte>, at: nat, size: nat, mode: Mode, s: Session, c: Crypto) returns (ok: bool)
    requires at + size <= buf.Length && HdrOffset(s.ivLength) + 4 + s.payloadLength <= size
    requires Lawful(c)
    modifies buf
    ensures ok == Unsealed(old(buf[at..at + size]), mode, s, c).0
    ensures buf[..] == Overlay(old(buf[..]), at, Unsealed(old(buf[at..at + size]), mode, s, c).1)
  {
    hide Lawful, Overlay;
    ghost var was, udp := buf[..], buf[at..at + size];
    OverlaySelf(was, at, size);
    if mode == SecNone {
      return true;
    }
    var start := HdrOffset(s.ivLength) + 4;
    var end := start + s.payloadLength;
    if end + TRAILER > size {
      return false;
    }
    if buf[at + end] != SIGNATURE_TAG {
      return false;
    }
    var tag := buf[at + end + 2..at + end + TRAILER];
    SliceSlice(was, at, at + size, end + 2, end + TRAILER);
    if mode == SecHmac {
      PrefixOfSlice(was, at, size, end);
      TagIsSixteen(c, buf[at..at + end]);
      ok := TagsEqual(c.hmac(buf[at..at + end]), tag);
      return;
    }
    if s.ivLength != 12 || buf[at + end + 1] != TAG_SIZE {
      return false;
    }
    ok := OpenGcm(buf, at, size, start, end, tag, c);
  }

  method OpenGcm(buf: array<byte>, at: nat, size: nat, start: nat, end: nat, tag: bytes, c: Crypto) returns (ok: bool)
    requires at + size <= buf.Length && OFF_IV + 12 <= start <= end <= size
    requires Lawful(c)
    modifies buf
    ensures var udp := old(buf[at..at + size]);
            var (good, plain) := c.decrypt(udp[OFF_IV..OFF_IV + 12], udp[..start], udp[start..end], tag);
            && ok == good && |plain| == end - start
            && buf[..] == Overlay(old(buf[..]), at, Overlay(udp, start, plain))
  {
    hide Lawful, Overlay;
    ghost var was := buf[..];
    SliceSlice(was, at, at + size, OFF_IV, OFF_IV + 12);
    PrefixOfSlice(was, at, size, start);
    SliceSlice(was, at, at + size, start, end);
    DecryptKeepsSize(c, buf[at + OFF_IV..at + OFF_IV + 12], buf[at..at + start], buf[at + start..at + end], tag);
    var (good, plain) := c.decrypt(buf[at + OFF_IV..at + OFF_IV + 12], buf[at..at + start], buf[at + start..at + end], tag);
    Write(buf, at + start, plain);
    OverlayNested(was, at, size, start, plain);
    ok := good;
  }

  lemma PrefixOfSlice(s: bytes, at: nat, size: nat, n: nat)
    requires at + size <= |s| && n <= size
    ensures s[at..at + size][..n] == s[at..at + n]
  {
  }

  lemma OverlaySelf(s: bytes, at: nat, size: nat)
    requires at + size <= |s|
    ensures s == Overlay(s, at, s[at..at + size])
  {
  }

  lemma OverlayNested(s: bytes, at: nat, size: nat, off: nat, w: bytes)
    requires at + size <= |s| && off + |w| <= size
    ensures Overlay(s, at + off, w) == Overlay(s, at, Overlay(s[at..at + size], off, w))
  {
  }

  /** parse_payload(): the APDU size comes from the payload length, not from its own field. */
  function ParsePayload(udp: bytes, s: Session): (r: Parsed<Payload>)
    requires s.payloadLength >= ELEM
    ensures r.Err? ==> r.code < 0
    ensures r.Ok? ==> r.off == ApduOffset(s.ivLength) && r.value.apduSize == s.payloadLength - ELEM
  {
    var phOff := HdrOffset(s.ivLength);
    if phOff + PAYLOAD_HDR > |udp| then Err(ERR_TOO_SHORT)
    else if udp[phOff + 4] != TYPE_GOOSE && udp[phOff + 4] != TYPE_SV then Err(ERR_BAD_PAYLOAD_TYPE)
    else Ok(phOff + PAYLOAD_HDR,
            Payload(udp[phOff + 4], udp[phOff + 5], Get16(udp, phOff + 6), Get16(udp, phOff + 8),
                    s.payloadLength - ELEM))
  }
}
