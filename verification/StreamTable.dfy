/**
 The receiver's stream tables as start-up fills them, and which frames of a generated stream are then
 recognised.
 */
module StreamTable {
  import opened Bytes
  import opened AppIdContainer
  import opened Gaps
  import opened Judging
  import opened Frames
  import Amend
  import Delivery
  import GooseAmended
  import GooseWalk
  import Pipeline
  import RFrame
  import RSession
  import Routable
  import Streams
  import SvApdu

  // ---------------------------------------------------------------- filling a table

  /** The entries after assigning the values to their keys, one after another. */
  function Puts<K(==), V>(appid: K -> u16, keys: seq<K>, vals: seq<V>): (r: seq<(K, V)>)
    requires |keys| == |vals|
    ensures |r| <= |keys|
  {
    if keys == [] then []
    else
      var n := |keys| - 1;
      AfterPut(Puts(appid, keys[..n], vals[..n]), appid, keys[n], vals[n])
  }

  method Fill<K(==), V(0)>(appid: K -> u16, keys: seq<K>, vals: seq<V>, default: V) returns (c: Container<K, V>)
    requires |keys| == |vals| && |keys| + 1 < NO_INDEX
    ensures fresh(c) && fresh(c.register) && c.Valid() && c.appid == appid && c.values == Puts(appid, keys, vals)
  {
    c := new Container<K, V>(appid);
    for i := 0 to |keys|
      invariant fresh(c) && fresh(c.register) && c.Valid() && c.appid == appid
      invariant c.values == Puts(appid, keys[..i], vals[..i])
    {
      assert keys[..i + 1][..i] == keys[..i] && vals[..i + 1][..i] == vals[..i];
      c.Put(keys[i], default, vals[i]);
    }
    assert keys[..|keys|] == keys && vals[..|vals|] == vals;
  }

  ghost predicate Distinct<V>(vals: seq<V>)
  {
    forall i, j :: 0 <= i < j < |vals| ==> vals[i] != vals[j]
  }

  /** Every entry holds a value of its own: the one assigned at some place, and no two the same place's. */
  lemma {:induction false} PutsApart<K, V>(appid: K -> u16, keys: seq<K>, vals: seq<V>) returns (from: seq<nat>)
    requires |keys| == |vals|
    ensures var r := Puts(appid, keys, vals);
            && |from| == |r| && (forall e :: 0 <= e < |r| ==> from[e] < |vals| && r[e].1 == vals[from[e]])
            && Distinct(from)
  {
    if keys == [] {
      from := [];
    } else {
      var n := |keys| - 1;
      var before := Puts(appid, keys[..n], vals[..n]);
      from := PutsApart(appid, keys[..n], vals[..n]);
      var at := Newest(before, appid, appid(keys[n]));
      if at.None? {
        from := from + [n];
      } else {
        from := from[at.value := n];
      }
    }
  }

  /** With distinct APPIDs entry i is key i with value i. */
  lemma {:induction false} PutsInOrder<K, V>(appid: K -> u16, keys: seq<K>, vals: seq<V>)
    requires |keys| == |vals| && forall i, j :: 0 <= i < j < |keys| ==> appid(keys[i]) != appid(keys[j])
    ensures |Puts(appid, keys, vals)| == |keys|
    ensures forall i :: 0 <= i < |keys| ==> Puts(appid, keys, vals)[i] == (keys[i], vals[i])
  {
    if keys != [] {
      var n := |keys| - 1;
      PutsInOrder(appid, keys[..n], vals[..n]);
      var before := Puts(appid, keys[..n], vals[..n]);
      assert forall i :: 0 <= i < n ==> appid(before[i].0) != appid(keys[n]);
      assert Newest(before, appid, appid(keys[n])).None?;
    }
  }

  /** A table of sources, one new source for each key. */
  method FillGoose(keys: seq<GooseId>) returns (c: Container<GooseId, GooseSource?>, ghost gs: seq<GooseSource>)
    requires |keys| + 1 < NO_INDEX
    ensures fresh(c) && fresh(c.register) && c.Valid() && c.appid == GooseKey()
    ensures |gs| == |c.values| && (forall e :: 0 <= e < |gs| ==> c.values[e].1 == gs[e] && fresh(gs[e]))
    ensures Distinct(gs) && forall e :: 0 <= e < |gs| ==> gs[e].View() == FRESH_GOOSE
    ensures AppIdsApart(GooseKey(), keys) ==> |c.values| == |keys| && forall i :: 0 <= i < |keys| ==> c.values[i].0 == keys[i]
  {
    var vals: seq<GooseSource?> := [];
    for i := 0 to |keys|
      invariant |vals| == i && Distinct(vals)
      invariant forall j :: 0 <= j < i ==> vals[j] != null && fresh(vals[j]) && vals[j].View() == FRESH_GOOSE
    {
      var src := new GooseSource();
      vals := vals + [src];
    }
    c := Fill(GooseKey(), keys, vals, null);
    ghost var from := PutsApart(GooseKey(), keys, vals);
    gs := seq(|c.values|, e requires 0 <= e < |from| && from[e] < |vals| && vals[from[e]] != null => vals[from[e]]);
    if AppIdsApart(GooseKey(), keys) {
      PutsInOrder(GooseKey(), keys, vals);
    }
  }

  method FillSv(keys: seq<SvId>) returns (c: Container<SvId, SvSource?>, ghost ss: seq<SvSource>)
    requires |keys| + 1 < NO_INDEX
    ensures fresh(c) && fresh(c.register) && c.Valid() && c.appid == SvKey()
    ensures |ss| == |c.values| && (forall e :: 0 <= e < |ss| ==> c.values[e].1 == ss[e] && fresh(ss[e]))
    ensures Distinct(ss) && forall e :: 0 <= e < |ss| ==> ss[e].View() == FRESH_SV
    ensures AppIdsApart(SvKey(), keys) ==> |c.values| == |keys| && forall i :: 0 <= i < |keys| ==> c.values[i].0 == keys[i]
  {
    var vals: seq<SvSource?> := [];
    for i := 0 to |keys|
      invariant |vals| == i && Distinct(vals)
      invariant forall j :: 0 <= j < i ==> vals[j] != null && fresh(vals[j]) && vals[j].View() == FRESH_SV
    {
      var src := new SvSource();
      vals := vals + [src];
    }
    c := Fill(SvKey(), keys, vals, null);
    ghost var from := PutsApart(SvKey(), keys, vals);
    ss := seq(|c.values|, e requires 0 <= e < |from| && from[e] < |vals| && vals[from[e]] != null => vals[from[e]]);
    if AppIdsApart(SvKey(), keys) {
      PutsInOrder(SvKey(), keys, vals);
    }
  }

  ghost predicate AppIdsApart<K>(appid: K -> u16, keys: seq<K>)
  {
    forall i, j :: 0 <= i < j < |keys| ==> appid(keys[i]) != appid(keys[j])
  }

  /**
   Start-up: both tables filled, and the first worker's matrix wired to them.  Any keys may be configured;
   with distinct APPIDs entry i is key i.
   */
  method Start(gooseKeys: seq<GooseId>, svKeys: seq<SvId>, mode: RSession.Mode, crypto: Backend) returns (m: Pipeline.Matrix)
    requires |gooseKeys| + 1 < NO_INDEX && |svKeys| + 1 < NO_INDEX
    ensures fresh(m) && m.Valid() && m.Idle() && m.Wired() && m.mode == mode && m.crypto == crypto
    ensures forall e :: 0 <= e < |m.gs| ==> m.gs[e].View() == FRESH_GOOSE
    ensures forall e :: 0 <= e < |m.ss| ==> m.ss[e].View() == FRESH_SV
    ensures AppIdsApart(GooseKey(), gooseKeys) ==>
              |m.gooses.values| == |gooseKeys| && forall i :: 0 <= i < |gooseKeys| ==> m.gooses.values[i].0 == gooseKeys[i]
    ensures AppIdsApart(SvKey(), svKeys) ==>
              |m.svs.values| == |svKeys| && forall i :: 0 <= i < |svKeys| ==> m.svs.values[i].0 == svKeys[i]
  {
    var gooses, gs := FillGoose(gooseKeys);
    var svs, ss := FillSv(svKeys);
    m := new Pipeline.Matrix(gooses, svs, mode, crypto, gs, ss);
  }

  // ---------------------------------------------------------------- passports

  function Ascii(s: string): (r: bytes)
    ensures |r| == |s| && forall i :: 0 <= i < |s| ==> r[i] == s[i] as int % 0x100
  {
    seq(|s|, i requires 0 <= i < |s| => s[i] as int % 0x100)
  }

  const GOID_HEAD: string := "GOID"
  const IED_HEAD: string := "IED"
  const DS_TAIL: string := "LDName/LLN0$DataSet"
  const GOCB_TAIL: string := "LDName/LLN0$GO$GOCB"
  const SVID_HEAD: string := "SVID"

  /** Entry i of the R-GOOSE streams in the receiver's table. */
  function GoosePassport(base: u32, i: nat, entries: u16): (id: GooseId)
  {
    var ip, d := Amend.StreamDst(base, i), Streams.Padded(i + 1, 8);
    GooseId(RFrame.MulticastMac(ip), Amend.AppId(i), ip, Ascii(GOID_HEAD + d), Ascii(IED_HEAD + d + DS_TAIL),
            Ascii(IED_HEAD + d + GOCB_TAIL), 1, entries)
  }

  /** Entry i of the R-SV streams with this ASDU count. */
  function SvPassport(base: u32, i: nat, asdus: u16): (id: SvId)
  {
    var ip := Amend.StreamDst(base, i);
    SvId(RFrame.MulticastMac(ip), Amend.AppId(i), asdus, 1, ip, Ascii(SVID_HEAD + Streams.Padded(i + 1, 4)))
  }

  /** Overwriting the placeholder of a name pattern fills it in. */
  lemma PatternFilled(head: string, x: string, d: string, tail: string)
    requires |x| == |d|
    ensures Overlay(Ascii(head + x + tail), |head|, Ascii(d)) == Ascii(head + d + tail)
  {
  }

  /** The generator's name patterns with any placeholder, its digits, and the configuration both sides share. */
  ghost predicate GoosePattern(g: Delivery.GooseOrigin, x: string, base: u32, entries: u16)
    requires Delivery.GooseSender(g.l, g.k, g.o)
  {
    && |x| == 8 && g.l.cfg.dstIP == base && g.first.sId == Ascii(Streams.Snprintf(g.stream + 1, 8))
    && GooseAmended.ValueWith(g.k, 0x83) == Ascii(GOID_HEAD + x + "")
    && GooseAmended.ValueWith(g.k, 0x82) == Ascii(IED_HEAD + x + DS_TAIL)
    && GooseAmended.ValueWith(g.k, 0x80) == Ascii(IED_HEAD + x + GOCB_TAIL)
    && GooseWalk.WalkApdu(g.l.apdu, 0).Done?
    && GooseWalk.WalkApdu(g.l.apdu, 0).goose.numbers.crev == 1
    && GooseWalk.WalkApdu(g.l.apdu, 0).goose.numbers.num == entries
  }

  /** The passport that a stream's frames show is the receiver's entry if and only if the stream number fits the digits. */
  lemma GoosePassportMatches(g: Delivery.GooseOrigin, x: string, base: u32, entries: u16)
    requires Delivery.GooseSender(g.l, g.k, g.o) && GoosePattern(g, x, base, entries)
    ensures var id := Delivery.GooseIdOf(g.l, g.k, g.o, g.stream, g.first.sId);
            id == GoosePassport(base, g.stream, entries) <==> g.stream + 1 < Streams.Pow10(8)
  {
    hide Delivery.GooseSender, GooseAmended.ValueWith, GooseWalk.WalkApdu, Streams.Snprintf, Streams.Padded, RFrame.MulticastMac,
         Amend.StreamDst, Overlay, Ascii;
    var cut, d := Streams.Snprintf(g.stream + 1, 8), Streams.Padded(g.stream + 1, 8);
    PatternFilled(GOID_HEAD, x, cut, "");
    PatternFilled(IED_HEAD, x, cut, DS_TAIL);
    PatternFilled(IED_HEAD, x, cut, GOCB_TAIL);
    assert GOID_HEAD + cut + "" == GOID_HEAD + cut;
    Streams.DigitsAgree(g.stream + 1, 8);
    if cut != d {
      DigitsDiffer(g.stream + 1, 8, GOID_HEAD);
    }
  }

  /** Digits that do not fit make a longer name. */
  lemma DigitsDiffer(n: nat, width: nat, head: string)
    requires width > 0 && Streams.Snprintf(n, width) != Streams.Padded(n, width)
    ensures Ascii(head + Streams.Snprintf(n, width)) != Ascii(head + Streams.Padded(n, width))
  {
    assert |Streams.Padded(n, width)| == width ==> Streams.Snprintf(n, width) == Streams.Padded(n, width);
  }

  ghost predicate SvPattern(g: Delivery.SvOrigin, x: string, base: u32)
  {
    && |x| == 4 && g.l.cfg.dstIP == base && g.first.sId == Ascii(Streams.Snprintf(g.stream + 1, 4))
    && g.pdu.asdus != [] && SvApdu.ReportOf(g.pdu).svid == Ascii(SVID_HEAD + x + "") && SvApdu.ReportOf(g.pdu).confRev == 1
  }

  lemma SvPassportMatches(g: Delivery.SvOrigin, x: string, base: u32)
    requires Delivery.SvSender(g.p, g.l, g.pdu, g.offs) && SvPattern(g, x, base)
    ensures var id := Delivery.SvIdOf(g.p, g.l, g.pdu, g.offs, g.stream, g.first.sId);
            id == SvPassport(base, g.stream, SvApdu.ReportOf(g.pdu).num) <==> g.stream + 1 < Streams.Pow10(4)
  {
    hide Delivery.SvSender, SvApdu.ReportOf, Streams.Snprintf, Streams.Padded, RFrame.MulticastMac, Amend.StreamDst, Overlay, Ascii;
    var cut, d := Streams.Snprintf(g.stream + 1, 4), Streams.Padded(g.stream + 1, 4);
    PatternFilled(SVID_HEAD, x, cut, "");
    assert SVID_HEAD + cut + "" == SVID_HEAD + cut;
    Streams.DigitsAgree(g.stream + 1, 4);
    if cut != d {
      DigitsDiffer(g.stream + 1, 4, SVID_HEAD);
    }
  }

  // ---------------------------------------------------------------- who is recognised

  /** The GOOSE table of `num` configured R-GOOSE streams. */
  ghost predicate IsGooseTable<V>(table: seq<(GooseId, V)>, base: u32, entries: u16)
  {
    |table| <= U16 && forall i :: 0 <= i < |table| ==> table[i].0 == GoosePassport(base, i, entries)
  }

  ghost predicate IsSvTable<V>(table: seq<(SvId, V)>, base: u32, asdus: u16)
  {
    |table| <= U16 && forall i :: 0 <= i < |table| ==> table[i].0 == SvPassport(base, i, asdus)
  }

  lemma AppIdAt(i: nat, j: nat)
    requires i < U16 && j < U16
    ensures Amend.AppId(i) == Amend.AppId(j) <==> i == j
  {
  }

  /** In a table of distinct APPIDs a passport is found at its own place, and nowhere else. */
  lemma ScanAt<K, V>(table: seq<(K, V)>, key: K -> u16, i: nat, id: K)
    requires i < |table| && key(id) == key(table[i].0) && forall j :: 0 <= j < |table| && j != i ==> key(table[j].0) != key(id)
    ensures Scan(table, key, id) == if table[i].0 == id then Some(i) else None
  {
  }

  /**
   Every frame of a configured R-GOOSE stream is known as that stream's entry, with the frame's own numbers,
   in every security mode: all of the up to 65536 streams of a table fit the eight digits.
   */
  lemma GooseFrameKnown(app: App, g: Delivery.GooseOrigin, x: string, base: u32, entries: u16, n: nat, m: Mbuf)
    requires Delivery.IsGooseOrigin(g, app.mode) && GoosePattern(g, x, base, entries)
    requires IsGooseTable(app.gooses, base, entries) && g.stream < |app.gooses|
    requires Delivery.IsGooseFrame(g, app.crypto, n, m.packet)
    ensures InDomain(app, m)
    ensures GooseOutcome(app, m) == Known(g.stream, GooseUpdate(Some(Carried(n)), Carried(n), g.first.sqNum))
  {
    hide Delivery.GooseSender, GoosePattern, GoosePassport, Delivery.IsGooseFrame, Delivery.GooseIdOf, StreamOf, ReadRGoose,
         RGooseInDomain, RSession.Lawful, Amend.AppId, GooseWalk.WalkApdu;
    Delivery.GooseFrameNumbers(g, app.mode, app.crypto, n, m);
    GoosePassportMatches(g, x, base, entries);
    assert Streams.Pow10(8) == 100_000_000 by { EightDigits(); }
    var id := GoosePassport(base, g.stream, entries);
    forall j | 0 <= j < |app.gooses| ensures app.gooses[j].0.appid == id.appid <==> j == g.stream {
      PassportAppId(base, j, entries);
      PassportAppId(base, g.stream, entries);
      AppIdAt(j, g.stream);
    }
    ScanAt(app.gooses, GooseKey(), g.stream, id);
  }

  lemma EightDigits()
    ensures Streams.Pow10(8) == 100_000_000 && Streams.Pow10(4) == 10_000
  {
    assert Streams.Pow10(3) == 1000;
    assert Streams.Pow10(4) == 10_000;
    assert Streams.Pow10(6) == 1_000_000;
  }

  lemma PassportAppId(base: u32, i: nat, entries: u16)
    ensures GoosePassport(base, i, entries).appid == Amend.AppId(i) && SvPassport(base, i, entries).appid == Amend.AppId(i)
  {
  }

  /**
   Every frame of a configured R-SV stream is known as its entry if its number has no more than four digits;
   frames of all further streams are unlisted.
   */
  lemma SvFrameKnown(app: App, g: Delivery.SvOrigin, x: string, base: u32, n: nat, m: Mbuf)
    requires Delivery.IsSvOrigin(g, app.mode) && SvPattern(g, x, base)
    requires IsSvTable(app.svs, base, SvApdu.ReportOf(g.pdu).num) && g.stream < |app.svs|
    requires Delivery.IsSvFrame(g, app.crypto, n, m.packet)
    ensures IsProfile(g.p) && g.p.num < U16
    ensures SvOutcome(app, m) == if g.stream < 9999 then Known(g.stream, SvUpdate(Some(Carried(n)), g.p.num, Sample(g.p, n)))
                                 else Unlisted
  {
    hide Delivery.SvSender, SvPattern, SvPassport, Delivery.IsSvFrame, Delivery.SvIdOf, StreamOf, ReadRSv, RSession.Lawful,
         Amend.AppId, SvApdu.ReportOf, Sample;
    Delivery.SvFrameNumbers(g, app.mode, app.crypto, n, m);
    SvPassportMatches(g, x, base);
    EightDigits();
    var id := Delivery.SvIdOf(g.p, g.l, g.pdu, g.offs, g.stream, g.first.sId);
    SvIdAppId(g);
    forall j | 0 <= j < |app.svs| ensures app.svs[j].0.appid == id.appid <==> j == g.stream {
      PassportAppId(base, j, SvApdu.ReportOf(g.pdu).num);
      AppIdAt(j, g.stream);
    }
    ScanAt(app.svs, SvKey(), g.stream, id);
  }

  lemma SvIdAppId(g: Delivery.SvOrigin)
    requires Delivery.SvSender(g.p, g.l, g.pdu, g.offs) && |g.first.sId| == 4 && g.pdu.asdus != []
    requires |SvApdu.ReportOf(g.pdu).svid| >= 8
    ensures Delivery.SvIdOf(g.p, g.l, g.pdu, g.offs, g.stream, g.first.sId).appid == Amend.AppId(g.stream)
  {
  }

  // ---------------------------------------------------------------- the configured tables

  function GooseKeys(base: u32, num: nat, entries: u16): (keys: seq<GooseId>)
    ensures |keys| == num && forall i :: 0 <= i < num ==> keys[i] == GoosePassport(base, i, entries)
  {
    seq(num, i requires 0 <= i < num => GoosePassport(base, i, entries))
  }

  function SvKeys(base: u32, num: nat, asdus: u16): (keys: seq<SvId>)
    ensures |keys| == num && forall i :: 0 <= i < num ==> keys[i] == SvPassport(base, i, asdus)
  {
    seq(num, i requires 0 <= i < num => SvPassport(base, i, asdus))
  }

  /** The configured streams have APPIDs of their own exactly up to 65536 of them. */
  lemma KeysApart(base: u32, num: nat, n: u16)
    ensures AppIdsApart(GooseKey(), GooseKeys(base, num, n)) <==> num <= U16
    ensures AppIdsApart(SvKey(), SvKeys(base, num, n)) <==> num <= U16
  {
    hide GoosePassport, SvPassport, Amend.AppId;
    Streams.AppIdsDistinct(num);
    forall i | 0 <= i < num
      ensures GooseKey()(GooseKeys(base, num, n)[i]) == Amend.AppId(i) && SvKey()(SvKeys(base, num, n)[i]) == Amend.AppId(i)
    {
      PassportAppId(base, i, n);
    }
  }

  /** Start-up for routable streams: tables in which GooseFrameKnown and SvFrameKnown hold, and a matrix wired to them. */
  method StartRoutable(base: u32, gooses: nat, entries: u16, svs: nat, asdus: u16, mode: RSession.Mode, crypto: Backend)
    returns (m: Pipeline.Matrix)
    requires gooses <= U16 && svs <= U16
    ensures fresh(m) && m.Valid() && m.Idle() && m.Wired() && m.mode == mode && m.crypto == crypto
    ensures IsGooseTable(m.gooses.values, base, entries) && |m.gooses.values| == gooses
    ensures IsSvTable(m.svs.values, base, asdus) && |m.svs.values| == svs
    ensures forall e :: 0 <= e < |m.gs| ==> m.gs[e].View() == FRESH_GOOSE
    ensures forall e :: 0 <= e < |m.ss| ==> m.ss[e].View() == FRESH_SV
  {
    hide AppIdsApart, GoosePassport, SvPassport;
    KeysApart(base, gooses, entries);
    KeysApart(base, svs, asdus);
    m := Start(GooseKeys(base, gooses, entries), SvKeys(base, svs, asdus), mode, crypto);
  }
}
