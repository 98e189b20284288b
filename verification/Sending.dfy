/** What the generators put on the wire, octet by octet, in the receiver's terms. */
module Sending {
  import opened Bytes
  import opened RSession
  import opened Routable
  import opened Received
  import opened Writes
  import RFrame
  import Amend
  import RGenerators

  // ---------------------------------------------------------------- the session PDU

  /** Type, simulation flag, APPID and APDU length, and the APDU. */
  function PlainOf(p: Params, apdu: bytes): (s: bytes)
  {
    [p.payloadType, if p.simulation then 1 else 0] + Be16(p.appid) + Be16(p.apduLength) + apdu
  }

  /** Key identifier, four zero octets, sequence number. */
  function IvFor(keyId: u32, spduNumber: u32): (iv: bytes)
  {
    Be32(keyId) + [0, 0, 0, 0] + Be32(spduNumber)
  }

  /** The datagram that is sent: both length octets, the informational length and the unused times are fixed. */
  function Unsealed(p: Params, apdu: bytes, iv: bytes, payload: bytes, trailer: bytes): (d: Datagram)
    requires |apdu| == p.apduLength
  {
    Datagram(p.si, 24, 18, Be32(26 + |apdu|), p.spduNumber, [0, 0, 0, 0, 0, 0], p.keyId, iv, payload, trailer)
  }

  /** What goes on the wire, by mode: nothing, a tag over everything before it, or a ciphertext with its tag. */
  function SentDatagram(p: Params, apdu: bytes, c: Crypto): (d: Datagram)
    requires Sendable(p, apdu) && Lawful(c)
    ensures IsDatagram(d)
  {
    var plain := PlainOf(p, apdu);
    match p.mode
    case SecNone => Unsealed(p, apdu, [], plain, [])
    case SecHmac =>
      var d := Unsealed(p, apdu, [], plain, []);
      d.(trailer := [0x85, 16] + c.hmac(Preamble(d) + plain))
    case SecGcm =>
      var d := Unsealed(p, apdu, IvFor(p.keyId, p.spduNumber), plain, []);
      DecryptUndoesEncrypt(c, d.iv, Preamble(d), plain);
      var (cipher, tag) := c.encrypt(d.iv, Preamble(d), plain);
      d.(payload := cipher, trailer := [0x85, 16] + tag)
  }

  lemma IvIs(keyId: u32, spduNumber: u32)
    ensures DeriveIv(keyId, spduNumber) == IvFor(keyId, spduNumber)
  {
    assert Zeros(4) == [0, 0, 0, 0];
  }

  lemma PreambleIs(p: Params, apdu: bytes, iv: bytes, payload: bytes, trailer: bytes)
    requires Sendable(p, apdu) && |iv| == IvLength(p.mode) && |payload| == 6 + |apdu|
    ensures IsDatagram(Unsealed(p, apdu, iv, payload, trailer))
    ensures Preamble(Unsealed(p, apdu, iv, payload, trailer)) == Head(p) + iv + Be32(PayloadLength(p))
  {
    hide Be32;
    assert Be16(2) == [0x00, 0x02];
    assert Be32(0) + Be16(0) == [0, 0, 0, 0, 0, 0] by { ZeroWords(); }
    var d := Unsealed(p, apdu, iv, payload, trailer);
    assert Head(p) == [0x01, 0x40, p.si, 24, 0x80, 18] + Be32(26 + |apdu|) + Be32(p.spduNumber) + [0x00, 0x02]
                      + (Be32(0) + Be16(0)) + Be32(p.keyId) + [|iv|];
  }

  lemma ZeroWords()
    ensures Be32(0) == [0, 0, 0, 0] && Be16(0) == [0, 0]
  {
  }

  /** Every sent session PDU is that datagram. */
  lemma SentIsDatagram(p: Params, apdu: bytes, c: Crypto)
    requires Sendable(p, apdu) && Lawful(c)
    ensures Wire(p, apdu, c) == DatagramBytes(SentDatagram(p, apdu, c))
  {
    hide Be32, Be16, Head, Lawful, Preamble, Zeros, PlainOf, RSession.Envelope, Elem;
    PlainIs(p, apdu);
    if p.mode == SecGcm {
      SentGcm(p, apdu, c);
    } else {
      var plain := PlainOf(p, apdu);
      var signed := RSession.Envelope(p) + apdu;
      var tag: bytes := if p.mode == SecHmac then [0x85, 16] + c.hmac(signed) else [];
      PreambleIs(p, apdu, [], plain, []);
      PreambleIs(p, apdu, [], plain, tag);
      EnvelopeParts(p, apdu, []);
      assert Preamble(Unsealed(p, apdu, [], plain, [])) + plain == signed;
      assert signed + [] == signed;
    }
  }

  lemma SentGcm(p: Params, apdu: bytes, c: Crypto)
    requires Sendable(p, apdu) && Lawful(c) && p.mode == SecGcm
    ensures Wire(p, apdu, c) == DatagramBytes(SentDatagram(p, apdu, c))
  {
    hide Be32, Be16, Head, Lawful, Preamble, PlainOf, Elem, DeriveIv, IvFor;
    PlainIs(p, apdu);
    var iv := IvFor(p.keyId, p.spduNumber);
    IvIs(p.keyId, p.spduNumber);
    PreambleIs(p, apdu, iv, PlainOf(p, apdu), []);
    var aad := Head(p) + iv + Be32(PayloadLength(p));
    DecryptUndoesEncrypt(c, iv, aad, PlainOf(p, apdu));
    var (cipher, tag) := c.encrypt(iv, aad, PlainOf(p, apdu));
    PreambleIs(p, apdu, iv, cipher, [0x85, 16] + tag);
    GcmIv(p, apdu, c);
  }

  lemma PlainIs(p: Params, apdu: bytes)
    ensures Elem(p) + apdu == PlainOf(p, apdu) && |PlainOf(p, apdu)| == 6 + |apdu|
  {
  }

  // ---------------------------------------------------------------- stream frames

  /** Every frame that an amendment leaves in a buffer: addresses by stream, key 1, no simulation, and that datagram. */
  lemma StreamFrame(l: Amend.Layout, c: Crypto, stream: nat, spdu: u32, ws: seq<Write>)
    requires Amend.Fits(l) && Lawful(c) && InRange(ws, |l.apdu|)
    ensures var p := Amend.StreamParams(l, stream, spdu);
            var f, apdu := Amend.FreshFrame(l, c, stream, spdu, ws), Apply(l.apdu, ws);
            && p.keyId == 1 && !p.simulation && p.spduNumber == spdu && p.appid == (stream + 1) % 0x1_0000 && p.mode == l.mode
            && p.si == l.si && p.payloadType == l.payloadType && Sendable(p, apdu)
            && f[42..] == DatagramBytes(SentDatagram(p, apdu, c))
    ensures var f, group := Amend.FreshFrame(l, c, stream, spdu, ws), (l.cfg.dstIP + stream % 128) % 0x1_0000_0000;
            && |f| >= 42 && BeNat(f[..6]) == 0x0100_5E00_0000 + group % 0x80_0000 && f[6..12] == l.cfg.srcMac
            && BeNat(f[30..34]) == group && BeNat(f[34..36]) == (stream + 1) % 0x1_0000 && BeNat(f[36..38]) == 102
            && BeNat(f[26..30]) == l.cfg.srcIP && f[22] == l.cfg.ttl
  {
    hide RFrame.Prefix, Wire, Lawful, BeNat, SentDatagram, DatagramBytes, Apply;
    var p, cfg, apdu := Amend.StreamParams(l, stream, spdu), Amend.StreamConfig(l, stream), Apply(l.apdu, ws);
    var n := UdpPayloadSize(p.mode, |apdu|);
    var f, prefix := Amend.FreshFrame(l, c, stream, spdu, ws), RFrame.Prefix(cfg, n, Amend.AppId(stream));
    RFrame.PrefixLayout(cfg, n, Amend.AppId(stream));
    SentIsDatagram(p, apdu, c);
    assert f == prefix + Wire(p, apdu, c);
    assert f[..6] == prefix[..6] && f[6..12] == prefix[6..12] && f[26..30] == prefix[26..30] && f[30..34] == prefix[30..34]
           && f[34..36] == prefix[34..36] && f[36..38] == prefix[36..38] && f[22] == prefix[22];
  }

  // ---------------------------------------------------------------- values that are amended

  /** The number whose base-256 digits are `s`, least significant first. */
  function LeNat(s: bytes): (n: nat)
  {
    if s == [] then 0 else s[0] + 0x100 * LeNat(s[1..])
  }

  lemma LeNatOfTwo(a: byte, b: byte)
    ensures LeNat([a, b]) == a + 0x100 * b
  {
    assert [a, b][1..] == [b] && [b][1..] == [];
    assert LeNat([b]) == b;
  }

  lemma {:induction false} LeNatDigits(v: nat, s: bytes)
    requires forall i :: 0 <= i < |s| ==> s[i] == v / Pow256(i) % 0x100
    ensures LeNat(s) == v % Pow256(|s|)
    decreases |s|
  {
    if s != [] {
      var rest := s[1..];
      assert s[0] == v % 0x100 by { assert Pow256(0) == 1; }
      forall i | 0 <= i < |rest| ensures rest[i] == v / 0x100 / Pow256(i) % 0x100 {
        DivDiv(v, Pow256(i));
        assert rest[i] == s[i + 1] && Pow256(i + 1) == 0x100 * Pow256(i);
      }
      LeNatDigits(v / 0x100, rest);
      ModDigits(v, Pow256(|rest|));
    }
  }

  lemma DivDiv(v: nat, d: nat)
    requires d > 0
    ensures v / 0x100 / d == v / (0x100 * d)
  {
    var q, r := v / (0x100 * d), v % (0x100 * d);
    assert v == q * (0x100 * d) + r;
    assert v == (q * d) * 0x100 + r;
    DivExact(q * d + r / 0x100, 0x100, r % 0x100);
    assert v == (q * d + r / 0x100) * 0x100 + r % 0x100;
    assert v / 0x100 == q * d + r / 0x100;
    DivExact(q, d, r / 0x100);
  }

  lemma ModDigits(v: nat, d: nat)
    requires d > 0
    ensures v % (0x100 * d) == v % 0x100 + 0x100 * (v / 0x100 % d)
  {
    var w, b := v / 0x100, v % 0x100;
    var q, r := w / d, w % d;
    assert w == q * d + r;
    assert v == q * (0x100 * d) + (0x100 * r + b);
    ModExact(q, 0x100 * d, 0x100 * r + b);
  }

  /** Places of an amendment that do not overlap. */
  ghost predicate Apart(o: RGenerators.GooseOffsets)
  {
    && (o.ts + 8 <= o.st || o.st + 4 <= o.ts) && (o.ts + 8 <= o.sq || o.sq + 4 <= o.ts)
    && (o.st + 4 <= o.sq || o.sq + 4 <= o.st)
    && !(o.ts <= o.d1 < o.ts + 8) && !(o.st <= o.d1 < o.st + 4) && !(o.sq <= o.d1 < o.sq + 4)
  }

  /**
   The state of the stream as it stands in the APDU: the counters with their most significant octet first, the
   timestamp in host order, and a data value that flips with every state number.
   */
  lemma GooseValues(apdu: bytes, o: RGenerators.GooseOffsets, ied: RGenerators.GooseIed)
    requires InRange(RGenerators.GooseWrites(o, ied), |apdu|) && |ied.sId| == 8 && Apart(o)
    ensures o.ts + 8 <= |apdu| && o.st + 4 <= |apdu| && o.sq + 4 <= |apdu| && o.d1 < |apdu|
    ensures var a := Apply(apdu, RGenerators.GooseWrites(o, ied));
            && BeNat(a[o.st..o.st + 4]) == ied.stNum && BeNat(a[o.sq..o.sq + 4]) == ied.sqNum
            && LeNat(a[o.ts..o.ts + 8]) == ied.timestamp
            && (ied.stNum % 2 == 0 ==> a[o.d1] == 1) && (ied.stNum % 2 == 1 ==> a[o.d1] == 0)
  {
    hide BeNat, LeNat, Apply, Be32, RGenerators.Le64, RGenerators.GooseWrites, InRange, Apart, Holds;
    GooseStays(apdu, o, ied);
    var a := Apply(apdu, RGenerators.GooseWrites(o, ied));
    HeldNumber(a, o.st, ied.stNum);
    HeldNumber(a, o.sq, ied.sqNum);
    HeldStamp(a, o.ts, ied.timestamp);
    HeldOctet(a, o.d1, if ied.stNum % 2 == 0 then 1 else 0);
  }

  lemma HeldNumber(a: bytes, at: nat, v: u32)
    requires Holds(a, at, Be32(v))
    ensures at + 4 <= |a| && BeNat(a[at..at + 4]) == v
  {
    NumberOfBe32(v);
  }

  lemma HeldStamp(a: bytes, at: nat, v: u64)
    requires Holds(a, at, RGenerators.Le64(v))
    ensures at + 8 <= |a| && LeNat(a[at..at + 8]) == v
  {
    TimestampValue(v);
  }

  lemma HeldOctet(a: bytes, at: nat, v: byte)
    requires Holds(a, at, [v])
    ensures at < |a| && a[at] == v
  {
    assert a[at] == a[at..at + 1][0];
  }

  /** Of the four values none overwrites an earlier one. */
  lemma LaterApart(o: RGenerators.GooseOffsets, ied: RGenerators.GooseIed, k: nat)
    requires 3 <= k < 7 && Apart(o)
    ensures var ws := RGenerators.GooseWrites(o, ied);
            forall j :: k < j < 7 ==> ws[j].at + |ws[j].data| <= ws[k].at || ws[k].at + |ws[k].data| <= ws[j].at
  {
    hide Be32, RGenerators.Le64;
  }

  lemma GooseStays(apdu: bytes, o: RGenerators.GooseOffsets, ied: RGenerators.GooseIed)
    requires InRange(RGenerators.GooseWrites(o, ied), |apdu|) && |ied.sId| == 8 && Apart(o)
    ensures var a := Apply(apdu, RGenerators.GooseWrites(o, ied));
            && Holds(a, o.ts, RGenerators.Le64(ied.timestamp)) && Holds(a, o.st, Be32(ied.stNum))
            && Holds(a, o.sq, Be32(ied.sqNum)) && Holds(a, o.d1, [if ied.stNum % 2 == 0 then 1 else 0])
  {
    hide Be32, RGenerators.Le64, Apply, Holds, InRange, Apart;
    var ws := RGenerators.GooseWrites(o, ied);
    assert |ws| == 7;
    for k := 3 to 7
      invariant forall i :: 3 <= i < k ==> Holds(Apply(apdu, ws), ws[i].at, ws[i].data)
    {
      LaterApart(o, ied, k);
      StoreStays(apdu, ws, k);
    }
    assert ws[3].at == o.ts && ws[4].at == o.st && ws[5].at == o.sq && ws[6].at == o.d1;
  }

  lemma TimestampValue(v: u64)
    ensures LeNat(RGenerators.Le64(v)) == v
  {
    hide Pow256, LeNat;
    EightOctets();
    LeNatDigits(v, RGenerators.Le64(v));
  }

  lemma EightOctets()
    ensures Pow256(8) == 0x1_0000_0000_0000_0000
  {
    Pow256Add(4, 4);
    Pow256Add(2, 2);
    assert Pow256(2) == 0x1_0000;
  }

  /** A store that no later one overlaps is what the place holds in the end. */
  lemma {:induction false} StoreStays(s: bytes, ws: seq<Write>, k: nat)
    requires InRange(ws, |s|) && k < |ws|
    requires forall j :: k < j < |ws| ==> ws[j].at + |ws[j].data| <= ws[k].at || ws[k].at + |ws[k].data| <= ws[j].at
    ensures Holds(Apply(s, ws), ws[k].at, ws[k].data)
    decreases |ws|
  {
    var n := |ws| - 1;
    var init, last := ws[..n], ws[n];
    if k == n {
      OverlayHolds(Apply(s, init), last.at, last.data);
    } else {
      assert init[k] == ws[k];
      StoreStays(s, init, k);
      var before, after := Apply(s, init), Apply(s, ws);
      assert after[ws[k].at..ws[k].at + |ws[k].data|] == before[ws[k].at..ws[k].at + |ws[k].data|];
    }
  }

  /** The timestamp moves by the interval of the stream with every frame, modulo 2^64. */
  lemma {:induction false} TimestampClosed(ied: RGenerators.GooseIed, delta: u32, n: nat)
    ensures RGenerators.GooseSteps(ied, delta, n).timestamp == (ied.timestamp + n * delta) % 0x1_0000_0000_0000_0000
  {
    if n > 0 {
      TimestampClosed(ied, delta, n - 1);
      assert n * delta == (n - 1) * delta + delta;
      WrapAdd64(ied.timestamp + (n - 1) * delta, delta);
    }
  }
}
