/**
 What each kind of frame reads as, in terms of its octets: passport and counters of a well-formed frame, and the
 exact condition under which a frame counts as forged.
 */
module Readings {
  import opened Bytes
  import opened Frames
  import opened Gaps
  import opened Judging
  import opened RSession
  import opened Routable
  import opened Received
  import GooseGrammar
  import GooseWalk
  import SvApdu
  import SvCodes

  // ---------------------------------------------------------------- kinds of frames

  /** An L2 frame: addresses, perhaps a VLAN tag, EtherType, APPID, six octets, and the APDU up to the end. */
  datatype L2 = L2(dmac: bytes, smac: bytes, vlan: Option<bytes>, low: byte, appid: u16, reserved: bytes, apdu: bytes)

  function VlanBytes(vlan: Option<bytes>): (s: bytes)
  {
    if vlan.Some? then [0x81, 0x00] + vlan.value else []
  }

  function L2Bytes(l: L2): (s: bytes)
  {
    l.dmac + l.smac + VlanBytes(l.vlan) + [0x88, l.low] + Be16(l.appid) + l.reserved + l.apdu
  }

  predicate IsL2(l: L2)
  {
    |l.dmac| == |l.smac| == |l.reserved| == 6 && (l.vlan.Some? ==> |l.vlan.value| == 2)
  }

  lemma L2Reads(l: L2)
    requires IsL2(l)
    ensures var f, at := L2Bytes(l), if l.vlan.Some? then 16 else 12;
            && |f| == at + 10 + |l.apdu| && f[at] == 0x88 && f[at + 1] == l.low && Get16(f, at + 2) == l.appid
            && (l.vlan.Some? ==> f[12] == 0x81 && f[13] == 0x00)
            && f[..6] == l.dmac && f[at + 10..] == l.apdu
  {
    hide Be16, Get16;
    var f, at := L2Bytes(l), if l.vlan.Some? then 16 else 12;
    var macs, tag, app := l.dmac + l.smac, VlanBytes(l.vlan), Be16(l.appid);
    assert f == macs + tag + ([0x88, l.low] + app + l.reserved + l.apdu);
    assert f[at..] == [0x88, l.low] + app + l.reserved + l.apdu;
    assert Holds(f, at + 2, app) && f[at] == f[at..][0] && f[at + 1] == f[at..][1];
    Get16At(f, at + 2, app);
  }

  function L2Of(f: bytes, at: nat): (l: L2)
    requires at + 10 <= |f| && at >= 12
  {
    L2(f[..6], f[6..12], if at == 16 then Some(f[14..16]) else None, f[at + 1], Get16(f, at + 2), f[at + 4..at + 10], f[at + 10..])
  }

  lemma L2Found(f: bytes, at: nat)
    requires |f| >= 26 && (at == 12 || (at == 16 && f[12] == 0x81 && f[13] == 0x00)) && f[at] == 0x88
    ensures IsL2(L2Of(f, at)) && L2Bytes(L2Of(f, at)) == f
  {
    hide Be16, Get16;
    FieldOf16(f, at + 2);
    assert f[at..at + 2] == [0x88, f[at + 1]];
    if at == 16 {
      assert f[12..16] == [0x81, 0x00] + f[14..16];
    }
    assert f == f[..6] + f[6..12] + f[12..at] + f[at..at + 2] + f[at + 2..at + 4] + f[at + 4..at + 10] + f[at + 10..];
  }

  /** A routable frame as the classifier sees it: the octets between the ones it looks at may be anything. */
  datatype Shape = Shape(macs: bytes, tos: bytes, ip: bytes, srcPort: u16, udp: bytes, si: byte, rest: bytes)

  function ShapeBytes(s: Shape): (b: bytes)
  {
    s.macs + [0x08, 0x00, 0x45] + s.tos + [0x11] + s.ip + Be16(s.srcPort) + [0x00, 0x66] + s.udp + [s.si] + s.rest
  }

  predicate IsShape(s: Shape)
  {
    |s.macs| == 12 && |s.tos| == 8 && |s.ip| == 10 && |s.udp| == 6
  }

  lemma ShapeReads(s: Shape)
    requires IsShape(s)
    ensures var b := ShapeBytes(s);
            && |b| == 45 + |s.rest| && b[12] == 0x08 && b[13] == 0x00 && b[14] == 0x45 && b[23] == 0x11
            && b[36] == 0x00 && b[37] == 0x66 && b[44] == s.si && Get16(b, 34) == s.srcPort
  {
    hide Be16, Get16;
    var b := ShapeBytes(s);
    var front := s.macs + [0x08, 0x00, 0x45] + s.tos + [0x11] + s.ip;
    var back := [0x00, 0x66] + s.udp + [s.si] + s.rest;
    assert b == front + Be16(s.srcPort) + back;
    assert |front| == 34 && front[12] == 0x08 && front[13] == 0x00 && front[14] == 0x45 && front[23] == 0x11;
    assert back[0] == 0x00 && back[1] == 0x66 && back[8] == s.si;
    assert b[..34] == front && b[36..] == back && b[34..36] == Be16(s.srcPort);
    Get16At(b, 34, Be16(s.srcPort));
    assert b[36] == b[36..][0] && b[37] == b[36..][1] && b[44] == b[36..][8];
  }

  function ShapeOf(b: bytes): (s: Shape)
    requires |b| >= 45
  {
    Shape(b[..12], b[15..23], b[24..34], Get16(b, 34), b[38..44], b[44], b[45..])
  }

  lemma ShapeFound(b: bytes)
    requires |b| >= 45 && b[12] == 0x08 && b[13] == 0x00 && b[14] == 0x45 && b[23] == 0x11 && b[36] == 0x00 && b[37] == 0x66
    ensures IsShape(ShapeOf(b)) && ShapeBytes(ShapeOf(b)) == b
  {
    hide Be16, Get16;
    FieldOf16(b, 34);
    assert b[12..15] == [0x08, 0x00, 0x45] && b[23..24] == [0x11] && b[36..38] == [0x00, 0x66] && b[44..45] == [b[44]];
    assert b == b[..12] + b[12..15] + b[15..23] + b[23..24] + b[24..34] + b[34..36] + b[36..38] + b[38..44] + b[44..45] + b[45..];
  }

  ghost predicate L2Kind(b: bytes, low: byte, key: u16)
  {
    exists l :: IsL2(l) && l.low == low && l.appid == key && L2Bytes(l) == b
  }

  ghost predicate RoutableKind(b: bytes, si: byte, key: u16)
  {
    exists s :: IsShape(s) && s.si == si && s.srcPort == key && ShapeBytes(s) == b
  }

  lemma L2KindIs(b: bytes, low: byte, key: u16)
    requires |b| >= 64
    ensures L2Kind(b, low, key) <==>
            || (b[12] == 0x81 && b[13] == 0x00 && b[16] == 0x88 && b[17] == low && Get16(b, 18) == key)
            || (b[12] == 0x88 && b[13] == low && Get16(b, 14) == key)
  {
    hide Get16, L2Bytes;
    if l :| IsL2(l) && l.low == low && l.appid == key && L2Bytes(l) == b {
      L2Reads(l);
    }
    if b[12] == 0x81 && b[13] == 0x00 && b[16] == 0x88 && b[17] == low && Get16(b, 18) == key {
      L2Found(b, 16);
    }
    if b[12] == 0x88 && b[13] == low && Get16(b, 14) == key {
      L2Found(b, 12);
    }
  }

  lemma RoutableKindIs(b: bytes, si: byte, key: u16)
    requires |b| >= 64
    ensures RoutableKind(b, si, key) <==>
            && b[12] == 0x08 && b[13] == 0x00 && b[14] == 0x45 && b[23] == 0x11 && b[36] == 0x00 && b[37] == 0x66
            && b[44] == si && Get16(b, 34) == key
  {
    hide Get16, ShapeBytes;
    if s :| IsShape(s) && s.si == si && s.srcPort == key && ShapeBytes(s) == b {
      ShapeReads(s);
    }
    if b[12] == 0x08 && b[13] == 0x00 && b[14] == 0x45 && b[23] == 0x11 && b[36] == 0x00 && b[37] == 0x66
       && b[44] == si && Get16(b, 34) == key {
      ShapeFound(b);
    }
  }

  /**
   The classifier, exactly.  L2 kinds go by the EtherType behind an optional VLAN tag, with the APPID as key and
   whatever the size; routable ones need 73 octets, IPv4 without options, UDP port 102 and a session identifier of
   0xA1 or 0xA2, and have the source port as key.
   */
  lemma ProtoExact(b: bytes, size: nat, key: u16)
    requires |b| >= 64 && size <= |b|
    ensures ProtoType(b, size) == (Goose, key) <==> L2Kind(b, 0xB8, key)
    ensures ProtoType(b, size) == (Sv, key) <==> L2Kind(b, 0xBA, key)
    ensures ProtoType(b, size) == (RGoose, key) <==> size >= 73 && RoutableKind(b, 0xA1, key)
    ensures ProtoType(b, size) == (RSv, key) <==> size >= 73 && RoutableKind(b, 0xA2, key)
  {
    hide Get16, L2Kind, RoutableKind;
    L2KindIs(b, 0xB8, key);
    L2KindIs(b, 0xBA, key);
    RoutableKindIs(b, 0xA1, key);
    RoutableKindIs(b, 0xA2, key);
  }

  // ---------------------------------------------------------------- L2 readings

  /** Passport and counters are those of the last fields by tag. */
  ghost predicate GooseSays(t: GooseGrammar.Pdu, id: GooseId, u: GooseUpdate)
  {
    var vs := GooseGrammar.Fields(t.items);
    && Some(id.gocbref) == GooseWalk.Last(vs, 0x80) && Some(id.dataset) == GooseWalk.Last(vs, 0x82)
    && Some(id.goid) == GooseWalk.Last(vs, 0x83) && GooseGrammar.Means(GooseWalk.Last(vs, 0x88), id.crev)
    && (exists n: nat :: GooseGrammar.Means(GooseWalk.Last(vs, 0x8A), n) && id.num == n % 0x1_0000)
    && GooseGrammar.Means(GooseWalk.Last(vs, 0x85), u.stNum) && GooseGrammar.Means(GooseWalk.Last(vs, 0x86), u.sqNum)
  }

  ghost predicate IsGoosePdu(t: GooseGrammar.Pdu, apdu: bytes)
  {
    GooseGrammar.IsPdu(t) && GooseGrammar.PduBytes(t) == apdu
  }

  ghost predicate IsGooseApdu(apdu: bytes)
  {
    exists t :: IsGoosePdu(t, apdu)
  }

  lemma TreeSays(t: GooseGrammar.Pdu, base: nat, dmac: bytes, appid: u16, dstIP: u32, spdu: Option<u32>)
    requires GooseGrammar.IsPdu(t)
    ensures var r := OfWalk(GooseWalk.WalkApdu(GooseGrammar.PduBytes(t), base), dmac, appid, dstIP, spdu);
            r.Read? && GooseSays(t, r.id, r.update)
  {
    hide GooseGrammar.IsPdu, GooseGrammar.PduBytes, GooseWalk.WalkApdu, GooseGrammar.Means, GooseWalk.Last,
         GooseGrammar.Fields, GooseWalk.LastStamp, GooseWalk.EntriesOf;
    GooseGrammar.PduReads(t, base);
    GooseGrammar.PduNames(t);
  }

  lemma WalkReads(apdu: bytes, base: nat, dmac: bytes, appid: u16, dstIP: u32, spdu: Option<u32>)
    ensures var r := OfWalk(GooseWalk.WalkApdu(apdu, base), dmac, appid, dstIP, spdu);
            && (r.Read? <==> IsGooseApdu(apdu))
            && (r.Failed? ==> r.code in {-3, -100, -101, -102})
            && (r.Read? ==> r.id.dmac == dmac && r.id.appid == appid && r.id.dstIP == dstIP && r.update.spdu == spdu)
            && forall t :: IsGoosePdu(t, apdu) ==> r.Read? && GooseSays(t, r.id, r.update)
  {
    hide GooseGrammar.IsPdu, GooseGrammar.PduBytes, GooseWalk.WalkApdu, GooseGrammar.Means, GooseWalk.Last,
         GooseGrammar.Fields, GooseWalk.LengthAt, GooseGrammar.IsBadData;
    var r := OfWalk(GooseWalk.WalkApdu(apdu, base), dmac, appid, dstIP, spdu);
    GooseGrammar.GooseExact(apdu, base);
    if r.Read? {
      var t :| GooseGrammar.IsPdu(t) && GooseGrammar.PduBytes(t) == apdu;
      assert IsGoosePdu(t, apdu);
    }
    if r.Failed? {
      GooseGrammar.GooseCodes(apdu, base);
    }
    forall t | IsGoosePdu(t, apdu) ensures r.Read? && GooseSays(t, r.id, r.update) {
      TreeSays(t, base, dmac, appid, dstIP, spdu);
    }
  }

  /** An L2 GOOSE frame of at least 64 octets whose APDU is of the grammar. */
  ghost predicate IsGooseFrame(p: Packet, l: L2, t: GooseGrammar.Pdu)
  {
    p.size >= 64 && IsL2(l) && l.low == 0xB8 && L2Bytes(l) == Judging.Frame(p) && IsGoosePdu(t, l.apdu)
  }

  lemma GooseFrameReads(p: Packet, l: L2, t: GooseGrammar.Pdu)
    requires IsGooseFrame(p, l, t)
    ensures var r := ReadGoose(p);
            && r.Read? && r.id.dmac == l.dmac && r.id.appid == l.appid && r.id.dstIP == 0 && r.update.spdu == None
            && GooseSays(t, r.id, r.update)
  {
    hide L2Bytes, IsGoosePdu, GooseSays, OfWalk, GooseWalk.WalkApdu, Get16;
    L2Reads(l);
    WalkReads(l.apdu, if l.vlan.Some? then 26 else 22, l.dmac, l.appid, 0, None);
  }

  /**
   An L2 frame is read as GOOSE if and only if it is an L2 GOOSE frame of at least 64 octets whose APDU is of the
   grammar; passport and counters are then the frame's own.
   */
  lemma GooseReadExact(p: Packet)
    ensures ReadGoose(p).Read? <==> exists l, t :: IsGooseFrame(p, l, t)
    ensures forall l, t :: IsGooseFrame(p, l, t) ==>
              var r := ReadGoose(p);
              && r.Read? && r.id.dmac == l.dmac && r.id.appid == l.appid && r.id.dstIP == 0 && r.update.spdu == None
              && GooseSays(t, r.id, r.update)
    ensures ReadGoose(p).Failed? ==> ReadGoose(p).code in {-1, -3, -100, -101, -102}
  {
    hide L2Bytes, IsGoosePdu, GooseSays, OfWalk, GooseWalk.WalkApdu, Get16, IsGooseFrame;
    forall l, t | IsGooseFrame(p, l, t)
      ensures var r := ReadGoose(p);
              && r.Read? && r.id.dmac == l.dmac && r.id.appid == l.appid && r.id.dstIP == 0 && r.update.spdu == None
              && GooseSays(t, r.id, r.update)
    {
      GooseFrameReads(p, l, t);
    }
    var f := Judging.Frame(p);
    if p.size >= 64 && GooseWalk.L2Base(f).Some? {
      var base := GooseWalk.L2Base(f).value;
      WalkReads(f[base..], base, f[..6], Get16(f, base - 8), 0, None);
      if ReadGoose(p).Read? {
        var t :| IsGoosePdu(t, f[base..]);
        FoundGoose(p, t);
      }
    }
  }

  lemma FoundGoose(p: Packet, t: GooseGrammar.Pdu)
    requires p.size >= 64 && GooseWalk.L2Base(Judging.Frame(p)).Some?
    requires IsGoosePdu(t, Judging.Frame(p)[GooseWalk.L2Base(Judging.Frame(p)).value..])
    ensures exists l :: IsGooseFrame(p, l, t)
  {
    hide L2Bytes, IsGoosePdu, Get16;
    var f := Judging.Frame(p);
    var base := GooseWalk.L2Base(f).value;
    L2Found(f, base - 10);
    assert IsGooseFrame(p, L2Of(f, base - 10), t);
  }

  ghost predicate SvSays(t: SvApdu.SvPdu, id: SvId, u: SvUpdate)
    requires t.asdus != []
  {
    var fs := t.asdus[0].fields;
    && id.num == u.num == |t.asdus| && id.svid == SvApdu.ValueOf(fs, 0x80)
    && id.crev == BeNat(SvApdu.ValueOf(fs, 0x83)) && u.smpCnt == BeNat(SvApdu.ValueOf(fs, 0x82))
  }

  ghost predicate IsSvPdu(t: SvApdu.SvPdu, apdu: bytes)
  {
    SvApdu.IsSvPdu(t) && SvApdu.FieldBytes(SvApdu.PduField(t)) <= apdu
  }

  lemma TreeReads(apdu: bytes, dmac: bytes, appid: u16, dstIP: u32, spdu: Option<u32>)
    ensures var r := OfTree(SvApdu.PduTree(apdu), dmac, appid, dstIP, spdu);
            && (r.Read? <==> exists t :: IsSvPdu(t, apdu)) && !r.Undefined?
            && (r.Failed? ==> r.code in {-3, -4, -5, -6, -7, -11})
            && (r.Failed? && r.code == -11 <==> SvCodes.IsBadPdu(apdu))
            && (r.Read? ==> r.id.dmac == dmac && r.id.appid == appid && r.id.dstIP == dstIP && r.update.spdu == spdu)
            && forall t :: IsSvPdu(t, apdu) ==> r.Read? && t.asdus != [] && SvSays(t, r.id, r.update)
  {
    hide SvApdu.PduTree, SvApdu.IsSvPdu, SvApdu.FieldBytes, SvApdu.ReportOf, SvCodes.IsBadPdu;
    var r := OfTree(SvApdu.PduTree(apdu), dmac, appid, dstIP, spdu);
    SvCodes.PduCodes(apdu);
    if SvApdu.PduTree(apdu).Ok? {
      SvApdu.PduExact(apdu, SvApdu.PduTree(apdu).tree);
      assert IsSvPdu(SvApdu.PduTree(apdu).tree, apdu);
    }
    forall t | IsSvPdu(t, apdu) ensures r.Read? && t.asdus != [] && SvSays(t, r.id, r.update) {
      SvApdu.PduExact(apdu, t);
      ReportSays(t);
    }
  }

  lemma ReportSays(t: SvApdu.SvPdu)
    requires SvApdu.IsSvPdu(t)
    ensures t.asdus != [] && SvApdu.Describes(SvApdu.ReportOf(t), t)
  {
    hide SvApdu.AreAsdus;
    assert t.asdus != [];
    var fs := t.asdus[0].fields;
    FirstIsAsdu(t.asdus);
    SvApdu.PresentValue(fs, 0x82);
    SvApdu.PresentValue(fs, 0x83);
    assert |SvApdu.ValueOf(fs, 0x82)| == 2 && |SvApdu.ValueOf(fs, 0x83)| == 4;
    BeNatBound(SvApdu.ValueOf(fs, 0x82));
    BeNatBound(t.noAsdu.value);
    assert Pow256(1) == 0x100 && Pow256(2) == U16;
  }

  lemma FirstIsAsdu(asdus: seq<SvApdu.Asdu>)
    requires SvApdu.AreAsdus(asdus, None) && asdus != []
    ensures SvApdu.IsAsdu(asdus[0])
  {
  }

  ghost predicate IsSvFrame(p: Packet, l: L2, t: SvApdu.SvPdu)
  {
    p.size >= 64 && IsL2(l) && l.low == 0xBA && L2Bytes(l) == Judging.Frame(p) && IsSvPdu(t, l.apdu)
  }

  lemma SvFrameReads(p: Packet, l: L2, t: SvApdu.SvPdu)
    requires IsSvFrame(p, l, t)
    ensures var r := ReadSv(p);
            && r.Read? && r.id.dmac == l.dmac && r.id.appid == l.appid && r.id.dstIP == 0 && r.update.spdu == None
            && t.asdus != [] && SvSays(t, r.id, r.update)
  {
    hide L2Bytes, IsSvPdu, SvSays, OfTree, SvApdu.PduTree, Get16, SvCodes.IsBadPdu;
    L2Reads(l);
    TreeReads(l.apdu, l.dmac, l.appid, 0, None);
  }

  /** The same of L2 Sampled Values; there an APDU may be followed by anything. */
  lemma SvReadExact(p: Packet)
    ensures ReadSv(p).Read? <==> exists l, t :: IsSvFrame(p, l, t)
    ensures forall l, t :: IsSvFrame(p, l, t) ==>
              var r := ReadSv(p);
              && r.Read? && r.id.dmac == l.dmac && r.id.appid == l.appid && r.id.dstIP == 0 && r.update.spdu == None
              && t.asdus != [] && SvSays(t, r.id, r.update)
    ensures ReadSv(p).Failed? ==> ReadSv(p).code in {-1, -2, -3, -4, -5, -6, -7, -11}
  {
    hide L2Bytes, IsSvPdu, SvSays, OfTree, SvApdu.PduTree, Get16, SvCodes.IsBadPdu, IsSvFrame;
    forall l, t | IsSvFrame(p, l, t)
      ensures var r := ReadSv(p);
              && r.Read? && r.id.dmac == l.dmac && r.id.appid == l.appid && r.id.dstIP == 0 && r.update.spdu == None
              && t.asdus != [] && SvSays(t, r.id, r.update)
    {
      SvFrameReads(p, l, t);
    }
    var f := Judging.Frame(p);
    if p.size >= 64 && SvApdu.L2Base(f).Some? {
      var base := SvApdu.L2Base(f).value;
      TreeReads(f[base..], f[..6], Get16(f, base - 8), 0, None);
      if ReadSv(p).Read? {
        var t :| IsSvPdu(t, f[base..]);
        FoundSv(p, t);
      }
    }
  }

  lemma FoundSv(p: Packet, t: SvApdu.SvPdu)
    requires p.size >= 64 && SvApdu.L2Base(Judging.Frame(p)).Some?
    requires IsSvPdu(t, Judging.Frame(p)[SvApdu.L2Base(Judging.Frame(p)).value..])
    ensures exists l :: IsSvFrame(p, l, t)
  {
    hide L2Bytes, IsSvPdu, Get16;
    var f := Judging.Frame(p);
    var base := SvApdu.L2Base(f).value;
    L2Found(f, base - 10);
    assert IsSvFrame(p, L2Of(f, base - 10), t);
  }

  // ---------------------------------------------------------------- routable readings

  /** The frame is admitted and carries a datagram. */
  ghost predicate Wrapped(p: Packet, e: Envelope, d: Datagram, pad: bytes)
    ensures Wrapped(p, e, d, pad) ==> IsEnvelope(e) && IsDatagram(d)
  {
    Admitted(Judging.Frame(p), p.nic, e) && Carries(Judging.Frame(p), e, d, pad)
  }

  /** The octets of the plaintext that carry the APDU, behind type, simulation, APPID and a length of their own. */
  function ApduIn(plain: bytes): (s: bytes)
    requires |plain| >= 6
  {
    plain[6..]
  }

  lemma WrappedOpens(p: Packet, e: Envelope, d: Datagram, pad: bytes, si: byte, payloadType: byte, mode: Mode, c: Backend)
    requires Wrapped(p, e, d, pad) && d.si == si && payloadType in {0x81, 0x82}
    ensures Validate(Judging.Frame(p), p.nic) == Accepted(e.dstIP) && Dmac(Judging.Frame(p)) == e.macs[..6]
    ensures !Authentic(d, mode, c) ==> Unwrap(Judging.Frame(p), si, payloadType, mode, c) == Rejected(-10)
    ensures Authentic(d, mode, c) ==>
              && |Plain(d, mode, c)| == |d.payload|
              && Unwrap(Judging.Frame(p), si, payloadType, mode, c) == Contents(d, Plain(d, mode, c), payloadType)
  {
    hide Validate, Unwrap, Authentic, Plain, Contents, Carries, EnvelopeBytes, HeaderGood;
    ValidateExact(Judging.Frame(p), p.nic);
    EnvelopeReads(e);
    UnwrapExact(Judging.Frame(p), e, d, pad, si, payloadType, mode, c);
  }

  /** What a wrapped R-GOOSE frame reads as. */
  lemma RGooseReads(p: Packet, e: Envelope, d: Datagram, pad: bytes, mode: Mode, c: Backend)
    requires Wrapped(p, e, d, pad) && d.si == 0xA1
    ensures !Authentic(d, mode, c) ==> ReadRGoose(p, mode, c) == Failed(-10)
    ensures Authentic(d, mode, c) ==>
              var plain, r := Plain(d, mode, c), ReadRGoose(p, mode, c);
              && |plain| == |d.payload|
              && (r.Failed? ==> r.code in {-3, -7, -100, -101, -102})
              && (r.Read? <==> plain[0] == 0x81 && IsGooseApdu(ApduIn(plain)))
              && (r.Read? ==> && r.id.dmac == e.macs[..6] && r.id.appid == Get16(plain, 2) && r.id.dstIP == e.dstIP
                              && r.update.spdu == Some(d.spduNumber)
                              && forall t :: IsGoosePdu(t, ApduIn(plain)) ==> GooseSays(t, r.id, r.update))
  {
    hide Validate, Unwrap, Authentic, Plain, Wrapped, OfWalk, GooseWalk.WalkApdu, IsGoosePdu, IsGooseApdu, GooseSays, Get16;
    WrappedOpens(p, e, d, pad, 0xA1, 0x81, mode, c);
    if Authentic(d, mode, c) {
      var plain := Plain(d, mode, c);
      WalkReads(plain[6..], 0, e.macs[..6], Get16(plain, 2), e.dstIP, Some(d.spduNumber));
    }
  }

  lemma RSvReads(p: Packet, e: Envelope, d: Datagram, pad: bytes, mode: Mode, c: Backend)
    requires Wrapped(p, e, d, pad) && d.si == 0xA2
    ensures !Authentic(d, mode, c) ==> ReadRSv(p, mode, c) == Failed(-10)
    ensures Authentic(d, mode, c) ==>
              var plain, r := Plain(d, mode, c), ReadRSv(p, mode, c);
              && |plain| == |d.payload|
              && (r.Failed? ==> r.code in {-3, -4, -5, -6, -7, -11})
              && (r.Failed? && r.code == -11 <==> plain[0] == 0x82 && SvCodes.IsBadPdu(ApduIn(plain)))
              && (r.Read? <==> plain[0] == 0x82 && exists t :: IsSvPdu(t, ApduIn(plain)))
              && (r.Read? ==> && r.id.dmac == e.macs[..6] && r.id.appid == Get16(plain, 2) && r.id.dstIP == e.dstIP
                              && r.update.spdu == Some(d.spduNumber)
                              && forall t :: IsSvPdu(t, ApduIn(plain)) ==> t.asdus != [] && SvSays(t, r.id, r.update))
  {
    hide Validate, Unwrap, Authentic, Plain, Wrapped, OfTree, SvApdu.PduTree, IsSvPdu, SvSays, Get16, SvCodes.IsBadPdu;
    WrappedOpens(p, e, d, pad, 0xA2, 0x82, mode, c);
    if Authentic(d, mode, c) {
      var plain := Plain(d, mode, c);
      TreeReads(plain[6..], e.macs[..6], Get16(plain, 2), e.dstIP, Some(d.spduNumber));
    }
  }

  // ---------------------------------------------------------------- forged frames

  /** The parsers have no code that could be taken for a failed authentication. */
  lemma RGooseCode(p: Packet, mode: Mode, c: Backend)
    ensures ReadRGoose(p, mode, c) == Failed(-10) <==>
            Validate(Judging.Frame(p), p.nic).Accepted? && Unwrap(Judging.Frame(p), 0xA1, 0x81, mode, c) == Rejected(-10)
  {
    hide Validate, Unwrap, OfWalk, GooseWalk.WalkApdu, IsGoosePdu, GooseSays;
    ValidateExact(Judging.Frame(p), p.nic);
    var o := Unwrap(Judging.Frame(p), 0xA1, 0x81, mode, c);
    if Validate(Judging.Frame(p), p.nic).Accepted? && o.Opened? {
      WalkReads(o.apdu, 0, Dmac(Judging.Frame(p)), o.payload.appid, Validate(Judging.Frame(p), p.nic).dstIP, Some(o.session.spduNumber));
    }
  }

  lemma RSvCode(p: Packet, mode: Mode, c: Backend)
    ensures ReadRSv(p, mode, c) == Failed(-10) <==>
            Validate(Judging.Frame(p), p.nic).Accepted? && Unwrap(Judging.Frame(p), 0xA2, 0x82, mode, c) == Rejected(-10)
  {
    hide Validate, Unwrap, OfTree, SvApdu.PduTree, IsSvPdu, SvSays, SvCodes.IsBadPdu;
    ValidateExact(Judging.Frame(p), p.nic);
    var o := Unwrap(Judging.Frame(p), 0xA2, 0x82, mode, c);
    if Validate(Judging.Frame(p), p.nic).Accepted? && o.Opened? {
      TreeReads(o.apdu, Dmac(Judging.Frame(p)), o.payload.appid, Validate(Judging.Frame(p), p.nic).dstIP, Some(o.session.spduNumber));
    }
  }

  /** A wrapped frame that has no valid authentication for this mode. */
  ghost predicate Unauthentic(p: Packet, si: byte, mode: Mode, c: Backend)
  {
    exists e, d, pad :: Wrapped(p, e, d, pad) && d.si == si && !Authentic(d, mode, c)
  }

  lemma ForgedWitness(p: Packet, si: byte, payloadType: byte, mode: Mode, c: Backend)
    requires Validate(Judging.Frame(p), p.nic).Accepted? && payloadType in {0x81, 0x82}
    requires Unwrap(Judging.Frame(p), si, payloadType, mode, c) == Rejected(-10)
    ensures Unauthentic(p, si, mode, c)
  {
    hide Unwrap, Validate, Admitted, Carries, Authentic;
    var e, d, pad := RefusedIsForged(Judging.Frame(p), p.nic, si, payloadType, mode, c);
    assert Wrapped(p, e, d, pad);
  }

  lemma UnauthenticRefused(p: Packet, si: byte, payloadType: byte, mode: Mode, c: Backend)
    requires Unauthentic(p, si, mode, c) && payloadType in {0x81, 0x82}
    ensures Validate(Judging.Frame(p), p.nic).Accepted?
    ensures Unwrap(Judging.Frame(p), si, payloadType, mode, c) == Rejected(-10)
  {
    hide Unwrap, Validate, Authentic, Wrapped, Plain, Contents;
    var e, d, pad :| Wrapped(p, e, d, pad) && d.si == si && !Authentic(d, mode, c);
    WrappedOpens(p, e, d, pad, si, payloadType, mode, c);
  }

  /**
   Exactly the frames that are routable, whole and not authentic are counted as forged: a refused envelope, another
   session identifier, a malformed session or a bad APDU never is, and neither is any L2 frame.
   */
  lemma GooseForgedExact(app: App, m: Mbuf)
    ensures GooseOutcome(app, m).Forged? <==>
            && m.packet.size >= 73 && (exists key :: RoutableKind(m.packet.memory, 0xA1, key))
            && Unauthentic(m.packet, 0xA1, app.mode, app.crypto)
  {
    hide ReadGoose, ReadRGoose, Unauthentic, Unwrap, Validate, RoutableKind, ProtoType;
    var p := m.packet;
    var key := ProtoType(p.memory, p.size).1;
    ProtoExact(p.memory, p.size, key);
    if k :| RoutableKind(p.memory, 0xA1, k) {
      ProtoExact(p.memory, p.size, k);
    }
    RGooseCode(p, app.mode, app.crypto);
    if ReadRGoose(p, app.mode, app.crypto) == Failed(-10) {
      ForgedWitness(p, 0xA1, 0x81, app.mode, app.crypto);
    }
    if Unauthentic(p, 0xA1, app.mode, app.crypto) {
      UnauthenticRefused(p, 0xA1, 0x81, app.mode, app.crypto);
    }
  }

  lemma SvForgedExact(app: App, m: Mbuf)
    ensures SvOutcome(app, m).Forged? <==>
            && m.packet.size >= 73 && (exists key :: RoutableKind(m.packet.memory, 0xA2, key))
            && Unauthentic(m.packet, 0xA2, app.mode, app.crypto)
  {
    hide ReadSv, ReadRSv, Unauthentic, Unwrap, Validate, RoutableKind, ProtoType;
    var p := m.packet;
    var key := ProtoType(p.memory, p.size).1;
    ProtoExact(p.memory, p.size, key);
    if k :| RoutableKind(p.memory, 0xA2, k) {
      ProtoExact(p.memory, p.size, k);
    }
    RSvCode(p, app.mode, app.crypto);
    if ReadRSv(p, app.mode, app.crypto) == Failed(-10) {
      ForgedWitness(p, 0xA2, 0x82, app.mode, app.crypto);
    }
    if Unauthentic(p, 0xA2, app.mode, app.crypto) {
      UnauthenticRefused(p, 0xA2, 0x82, app.mode, app.crypto);
    }
  }
}
