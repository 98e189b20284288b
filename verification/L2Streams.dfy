/**
 The receiver's tables for L2 streams as start-up fills them, and which L2 frames are recognised as which entry.
 */
module L2Streams {
  import opened Bytes
  import opened Frames
  import opened Gaps
  import opened Judging
  import opened Readings
  import opened StreamTable
  import Amend
  import AppIdContainer
  import GooseGrammar
  import GooseWalk
  import Pipeline
  import RFrame
  import RSession
  import Routable
  import Streams
  import SvApdu

  /** Entry i of the L2 GOOSE streams. */
  function GooseEntry(i: nat, entries: u16): (id: GooseId)
  {
    var d := Streams.Padded(i + 1, 8);
    GooseId([0x01, 0x0C, 0xCD, 0x04, 0x00, 0x01], (i + 1) % U16, 0, Ascii("GOID" + d), Ascii("IED" + d + "LDName/LLN0$DataSet"),
            Ascii("IED" + d + "LDName/LLN0$GO$GOCB"), 1, entries)
  }

  /** Entry i of the L2 Sampled Values streams with this ASDU count. */
  function SvEntry(i: nat, asdus: u16): (id: SvId)
  {
    SvId([0x01, 0x0C, 0xCD, 0x01, 0x00, 0x01], (i + 1) % U16, asdus, 1, 0, Ascii("SVID" + Streams.Padded(i + 1, 4)))
  }

  ghost predicate IsGooseTable<V>(table: seq<(GooseId, V)>, entries: u16)
  {
    |table| <= U16 && forall i :: 0 <= i < |table| ==> table[i].0 == GooseEntry(i, entries)
  }

  ghost predicate IsSvTable<V>(table: seq<(SvId, V)>, asdus: u16)
  {
    |table| <= U16 && forall i :: 0 <= i < |table| ==> table[i].0 == SvEntry(i, asdus)
  }

  /** A routable stream has the passport of the L2 stream with its number, but for the group and the MAC mapped from it. */
  lemma RoutableEntry(base: u32, i: nat, entries: u16, asdus: u16)
    ensures var group := (base + i % 128) % 0x1_0000_0000;
            var mac := GoosePassport(base, i, entries).dmac;
            && BeNat(mac) == 0x0100_5E00_0000 + group % 0x80_0000 && |mac| == 6
            && GoosePassport(base, i, entries) == GooseEntry(i, entries).(dmac := mac, dstIP := group)
            && SvPassport(base, i, asdus) == SvEntry(i, asdus).(dmac := mac, dstIP := group)
  {
    hide Ascii, Streams.Padded, RFrame.MulticastMac, BeNat;
    RFrame.MacNumber(Amend.StreamDst(base, i));
  }

  /** An L2 frame that shows the identity of GOOSE stream i. */
  ghost predicate ShowsGoose(l: L2, t: GooseGrammar.Pdu, i: nat, entries: u16)
  {
    var vs, d := GooseGrammar.Fields(t.items), Streams.Padded(i + 1, 8);
    && l.dmac == [0x01, 0x0C, 0xCD, 0x04, 0x00, 0x01] && l.appid == (i + 1) % 0x1_0000
    && GooseWalk.Last(vs, 0x80) == Some(Ascii("IED" + d + "LDName/LLN0$GO$GOCB"))
    && GooseWalk.Last(vs, 0x82) == Some(Ascii("IED" + d + "LDName/LLN0$DataSet"))
    && GooseWalk.Last(vs, 0x83) == Some(Ascii("GOID" + d))
    && GooseGrammar.Means(GooseWalk.Last(vs, 0x88), 1)
    && exists n: nat :: GooseGrammar.Means(GooseWalk.Last(vs, 0x8A), n) && n % 0x1_0000 == entries
  }

  ghost predicate ShowsSv(l: L2, t: SvApdu.SvPdu, i: nat, asdus: u16)
    requires t.asdus != []
  {
    var fs := t.asdus[0].fields;
    && l.dmac == [0x01, 0x0C, 0xCD, 0x01, 0x00, 0x01] && l.appid == (i + 1) % 0x1_0000 && |t.asdus| == asdus
    && SvApdu.ValueOf(fs, 0x80) == Ascii("SVID" + Streams.Padded(i + 1, 4)) && BeNat(SvApdu.ValueOf(fs, 0x83)) == 1
  }

  /** A frame is classified by what its first octets are, whatever lies behind it. */
  lemma L2Class(p: Packet, l: L2)
    requires p.size >= 64 && IsL2(l) && L2Bytes(l) == Judging.Frame(p)
    ensures l.low == 0xB8 ==> Routable.ProtoType(p.memory, p.size) == (Routable.Goose, l.appid)
    ensures l.low == 0xBA ==> Routable.ProtoType(p.memory, p.size) == (Routable.Sv, l.appid)
  {
    hide L2Bytes, Get16;
    L2Reads(l);
    var f, at := Judging.Frame(p), if l.vlan.Some? then 16 else 12;
    Get16Prefix(p.memory, p.size, at + 2);
    assert p.memory[12] == f[12] && p.memory[13] == f[13] && p.memory[16] == f[16] && p.memory[17] == f[17];
  }

  lemma Get16Prefix(s: bytes, n: nat, at: nat)
    requires at + 2 <= n <= |s|
    ensures Get16(s, at) == Get16(s[..n], at)
  {
  }

  /** The table index goes by APPID: at most one entry can match, and it does if the whole passport does. */
  lemma Found<K, V>(table: seq<(K, V)>, key: K -> u16, id: K)
    requires |table| <= U16 && forall i :: 0 <= i < |table| ==> key(table[i].0) == (i + 1) % U16
    ensures forall i :: 0 <= i < |table| ==> (AppIdContainer.Scan(table, key, id) == Some(i) <==> table[i].0 == id)
  {
    forall i | 0 <= i < |table| ensures AppIdContainer.Scan(table, key, id) == Some(i) <==> table[i].0 == id {
      if table[i].0 == id {
        forall j | 0 <= j < |table| && j != i ensures key(table[j].0) != key(id) {
          assert key(table[j].0) == (j + 1) % U16;
        }
        ScanAt(table, key, i, id);
      }
    }
  }

  /**
   An L2 GOOSE frame is known as entry i if and only if it shows that entry's identity: multicast address, APPID,
   the three names, configuration revision and entry count.  It is unlisted if it shows no entry's.
   */
  lemma GooseKnownExact(app: App, entries: u16, l: L2, t: GooseGrammar.Pdu, m: Mbuf)
    requires IsGooseTable(app.gooses, entries) && IsGooseFrame(m.packet, l, t)
    ensures forall i :: 0 <= i < |app.gooses| ==>
              var o := GooseOutcome(app, m);
              o.Known? && o.entry == i <==> ShowsGoose(l, t, i, entries)
    ensures GooseOutcome(app, m).Unlisted? <==> forall i :: 0 <= i < |app.gooses| ==> !ShowsGoose(l, t, i, entries)
    ensures var o, vs := GooseOutcome(app, m), GooseGrammar.Fields(t.items);
            o.Known? ==> o.update.spdu == None && GooseGrammar.Means(GooseWalk.Last(vs, 0x85), o.update.stNum)
                         && GooseGrammar.Means(GooseWalk.Last(vs, 0x86), o.update.sqNum)
  {
    hide L2Bytes, IsGoosePdu, ReadGoose, Routable.ProtoType, ReadRGoose, ShowsGoose, GooseEntry, GooseGrammar.Means, GooseWalk.Last,
         GooseGrammar.Fields;
    GooseFrameReads(m.packet, l, t);
    L2Class(m.packet, l);
    var r := ReadGoose(m.packet);
    EntryAppIds(app.gooses, entries);
    Found(app.gooses, GooseKey(), r.id);
    forall i | 0 <= i < |app.gooses| ensures app.gooses[i].0 == r.id <==> ShowsGoose(l, t, i, entries) {
      EntryShown(l, t, i, entries, r.id, r.update);
    }
  }

  lemma EntryAppIds<V>(table: seq<(GooseId, V)>, entries: u16)
    requires IsGooseTable(table, entries)
    ensures forall i :: 0 <= i < |table| ==> GooseKey()(table[i].0) == (i + 1) % U16
  {
  }

  lemma EntryShown(l: L2, t: GooseGrammar.Pdu, i: nat, entries: u16, id: GooseId, u: GooseUpdate)
    requires GooseSays(t, id, u) && id.dmac == l.dmac && id.appid == l.appid && id.dstIP == 0
    ensures id == GooseEntry(i, entries) <==> ShowsGoose(l, t, i, entries)
  {
    hide GooseGrammar.Fields, GooseWalk.Last, Ascii, Streams.Padded;
    var vs := GooseGrammar.Fields(t.items);
    GooseGrammar.MeansNumber(GooseWalk.Last(vs, 0x88), id.crev);
    GooseGrammar.MeansNumber(GooseWalk.Last(vs, 0x88), 1);
    var n: nat :| GooseGrammar.Means(GooseWalk.Last(vs, 0x8A), n) && id.num == n % 0x1_0000;
    forall k: nat | GooseGrammar.Means(GooseWalk.Last(vs, 0x8A), k) ensures k == n {
      GooseGrammar.MeansNumber(GooseWalk.Last(vs, 0x8A), k);
      GooseGrammar.MeansNumber(GooseWalk.Last(vs, 0x8A), n);
    }
  }

  lemma SvKnownExact(app: App, asdus: u16, l: L2, t: SvApdu.SvPdu, m: Mbuf)
    requires IsSvTable(app.svs, asdus) && IsSvFrame(m.packet, l, t)
    ensures t.asdus != []
    ensures forall i :: 0 <= i < |app.svs| ==>
              var o := SvOutcome(app, m);
              o.Known? && o.entry == i <==> ShowsSv(l, t, i, asdus)
    ensures SvOutcome(app, m).Unlisted? <==> forall i :: 0 <= i < |app.svs| ==> !ShowsSv(l, t, i, asdus)
    ensures var o := SvOutcome(app, m);
            o.Known? ==> o.update.spdu == None && o.update.num == |t.asdus|
                         && o.update.smpCnt == BeNat(SvApdu.ValueOf(t.asdus[0].fields, 0x82))
  {
    hide L2Bytes, IsSvPdu, ReadSv, Routable.ProtoType, ReadRSv, ShowsSv, SvEntry, SvApdu.ValueOf, BeNat;
    SvFrameReads(m.packet, l, t);
    L2Class(m.packet, l);
    var r := ReadSv(m.packet);
    SvEntryAppIds(app.svs, asdus);
    Found(app.svs, SvKey(), r.id);
    forall i | 0 <= i < |app.svs| ensures app.svs[i].0 == r.id <==> ShowsSv(l, t, i, asdus) {
      SvEntryShown(l, t, i, asdus, r.id, r.update);
    }
  }

  lemma SvEntryAppIds<V>(table: seq<(SvId, V)>, asdus: u16)
    requires IsSvTable(table, asdus)
    ensures forall i :: 0 <= i < |table| ==> SvKey()(table[i].0) == (i + 1) % U16
  {
  }

  lemma SvEntryShown(l: L2, t: SvApdu.SvPdu, i: nat, asdus: u16, id: SvId, u: SvUpdate)
    requires t.asdus != [] && SvSays(t, id, u) && id.dmac == l.dmac && id.appid == l.appid && id.dstIP == 0
    ensures id == SvEntry(i, asdus) <==> ShowsSv(l, t, i, asdus)
  {
    hide SvApdu.ValueOf, Ascii, Streams.Padded, BeNat;
  }

  /** Reading such a frame never leaves what the length decoder is defined for, unless a tag is its very last octet. */
  lemma GooseFrameInDomain(l: L2, t: GooseGrammar.Pdu, p: Packet)
    requires IsGooseFrame(p, l, t)
    ensures !GooseWalk.ApduEndsOnTag(l.apdu) || p.memory[p.size] <= 0x83 ==> GooseInDomain(p)
  {
    hide L2Bytes, GooseWalk.ApduEndsOnTag, GooseWalk.WalkApdu, GooseGrammar.IsPdu, GooseGrammar.PduBytes;
    L2Reads(l);
    GooseGrammar.PduWalks(t, if l.vlan.Some? then 26 else 22);
  }

  // ---------------------------------------------------------------- start-up

  function GooseEntries(num: nat, entries: u16): (keys: seq<GooseId>)
    ensures |keys| == num && forall i :: 0 <= i < num ==> keys[i] == GooseEntry(i, entries)
  {
    seq(num, i requires 0 <= i < num => GooseEntry(i, entries))
  }

  function SvEntries(num: nat, asdus: u16): (keys: seq<SvId>)
    ensures |keys| == num && forall i :: 0 <= i < num ==> keys[i] == SvEntry(i, asdus)
  {
    seq(num, i requires 0 <= i < num => SvEntry(i, asdus))
  }

  /** Start-up for L2 streams: tables in which the two statements above hold, and a matrix wired to them. */
  method StartL2(gooses: nat, entries: u16, svs: nat, asdus: u16, mode: RSession.Mode, crypto: Backend)
    returns (m: Pipeline.Matrix)
    requires gooses <= U16 && svs <= U16
    ensures fresh(m) && m.Valid() && m.Idle() && m.Wired() && m.mode == mode && m.crypto == crypto
    ensures IsGooseTable(m.gooses.values, entries) && |m.gooses.values| == gooses
    ensures IsSvTable(m.svs.values, asdus) && |m.svs.values| == svs
    ensures forall e :: 0 <= e < |m.gs| ==> m.gs[e].View() == FRESH_GOOSE
    ensures forall e :: 0 <= e < |m.ss| ==> m.ss[e].View() == FRESH_SV
  {
    KeysOwn(gooses, svs, entries, asdus);
    hide AppIdsApart, GooseEntry, SvEntry;
    m := Start(GooseEntries(gooses, entries), SvEntries(svs, asdus), mode, crypto);
  }

  lemma KeysOwn(gooses: nat, svs: nat, entries: u16, asdus: u16)
    requires gooses <= U16 && svs <= U16
    ensures AppIdsApart(GooseKey(), GooseEntries(gooses, entries)) && AppIdsApart(SvKey(), SvEntries(svs, asdus))
  {
    hide GooseEntry, SvEntry;
    forall i: nat ensures GooseEntry(i, entries).appid == (i + 1) % U16 && SvEntry(i, asdus).appid == (i + 1) % U16 {
      EntryAppId(i, entries);
      EntryAppId(i, asdus);
    }
  }

  lemma EntryAppId(i: nat, n: u16)
    ensures GooseEntry(i, n).appid == (i + 1) % U16 && SvEntry(i, n).appid == (i + 1) % U16
  {
  }
}
