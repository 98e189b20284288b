/**
 What the receiver reads from an amended SV APDU.  The generator overwrites bytes at fixed places of a
 skeleton; when those places are the svID and smpCnt values of a well-formed PDU, the result is again a
 well-formed PDU, and it says what was written.
 */
module SvAmended {
  import opened Bytes
  import opened SvApdu
  import opened Writes
  import opened RGenerators
  import opened TlvEdit
  import RFrame

  // ---------------------------------------------------------------- one ASDU

  /** Ascending tags: a value is that of the one field with its tag. */
  lemma {:induction false} ValueIsAt(fs: seq<Field>, i: nat)
    requires i < |fs| && forall a, b :: 0 <= a < b < |fs| ==> fs[a].tag < fs[b].tag
    ensures ValueOf(fs, fs[i].tag) == fs[i].value
  {
    if i < |fs| - 1 {
      ValueIsAt(fs[..|fs| - 1], i);
    }
  }

  /** An ASDU whose svID has room for the four ID digits behind its first four characters. */
  ghost predicate Amendable(a: Asdu)
  {
    IsAsdu(a) && |a.fields[IndexOf(a.fields, 0x80)].value| >= 8
  }

  lemma SampleSize(a: Asdu)
    requires IsAsdu(a)
    ensures |a.fields[IndexOf(a.fields, 0x82)].value| == 2
  {
    assert LegalField(a.fields[IndexOf(a.fields, 0x82)]);
  }

  ghost function AmendedFields(a: Asdu, sId: bytes, c: u16): (fs: seq<Field>)
    requires Amendable(a) && |sId| == 4
  {
    SampleSize(a);
    SetPart(SetPart(a.fields, IndexOf(a.fields, 0x80), 4, sId), IndexOf(a.fields, 0x82), 0, Be16(c))
  }

  ghost function AmendedAsdu(a: Asdu, sId: bytes, c: u16): (r: Asdu)
    requires Amendable(a) && |sId| == 4
  {
    Asdu(a.len, AmendedFields(a, sId, c))
  }

  /** Tags, lengths and sizes stay, the two values change. */
  lemma AmendedShape(a: Asdu, sId: bytes, c: u16)
    requires Amendable(a) && |sId| == 4
    ensures var fs, gs, i, j := a.fields, AmendedFields(a, sId, c), IndexOf(a.fields, 0x80), IndexOf(a.fields, 0x82);
            && |gs| == |fs| && i != j
            && (forall k :: 0 <= k < |fs| ==> gs[k].tag == fs[k].tag && gs[k].len == fs[k].len && |gs[k].value| == |fs[k].value|)
            && (forall k :: 0 <= k < |fs| && k != i && k != j ==> gs[k] == fs[k])
            && gs[i].value == Overlay(fs[i].value, 4, sId) && gs[j].value == Be16(c)
  {
    SampleSize(a);
  }

  lemma AmendedLegal(a: Asdu, sId: bytes, c: u16)
    requires Amendable(a) && |sId| == 4
    ensures AreFields(AmendedFields(a, sId, c), 0) && Complete(AmendedFields(a, sId, c))
  {
    hide AmendedFields, IsLength, GoodQuality;
    var fs, gs := a.fields, AmendedFields(a, sId, c);
    AmendedShape(a, sId, c);
    forall k | 0 <= k < |gs| ensures IsField(gs[k]) && LegalField(gs[k]) {
      assert IsField(fs[k]) && LegalField(fs[k]);
    }
    forall tag | Present(fs, tag) ensures Present(gs, tag) {
      var k :| 0 <= k < |fs| && fs[k].tag == tag;
      assert gs[k].tag == tag;
    }
  }

  lemma AmendedValues(a: Asdu, sId: bytes, c: u16)
    requires Amendable(a) && |sId| == 4
    ensures |ValueOf(a.fields, 0x80)| >= 8 && |ValueOf(a.fields, 0x83)| == 4
    ensures var gs := AmendedFields(a, sId, c);
            && ValueOf(gs, 0x80) == Overlay(ValueOf(a.fields, 0x80), 4, sId)
            && ValueOf(gs, 0x82) == Be16(c) && ValueOf(gs, 0x83) == ValueOf(a.fields, 0x83)
  {
    hide AmendedFields, ValueOf;
    var fs, gs := a.fields, AmendedFields(a, sId, c);
    AmendedShape(a, sId, c);
    var i, j, k := IndexOf(fs, 0x80), IndexOf(fs, 0x82), IndexOf(fs, 0x83);
    assert LegalField(fs[k]);
    ValueIsAt(fs, i);
    ValueIsAt(fs, k);
    ValueIsAt(gs, i);
    ValueIsAt(gs, j);
    ValueIsAt(gs, k);
  }

  /** In bytes: two overwritten parts. */
  lemma AmendedBytes(a: Asdu, sId: bytes, c: u16)
    requires Amendable(a) && |sId| == 4
    ensures var fs, i, j := a.fields, IndexOf(a.fields, 0x80), IndexOf(a.fields, 0x82);
            var s := FieldsBytes(fs);
            && ValueAt(fs, i) + 4 + |sId| <= |s| && ValueAt(fs, j) + 2 <= |s|
            && FieldsBytes(AmendedFields(a, sId, c)) == Overlay(Overlay(s, ValueAt(fs, i) + 4, sId), ValueAt(fs, j), Be16(c))
  {
    hide FieldsBytes, Be16;
    var fs, i, j := a.fields, IndexOf(a.fields, 0x80), IndexOf(a.fields, 0x82);
    SampleSize(a);
    TagsOrdered(a);
    var once := SetPart(fs, i, 4, sId);
    FieldsSet(fs, i, 4, sId);
    FieldsSet(fs, j, 0, fs[j].value);
    FieldsSet(once, j, 0, Be16(c));
    assert |FieldsBytes(once[..j])| == |FieldsBytes(fs[..j])| by {
      assert once[..j] == SetPart(fs[..j], i, 4, sId);
      FieldsSet(fs[..j], i, 4, sId);
    }
  }

  lemma TagsOrdered(a: Asdu)
    requires IsAsdu(a)
    ensures IndexOf(a.fields, 0x80) < IndexOf(a.fields, 0x82)
  {
  }

  // ---------------------------------------------------------------- all ASDUs

  lemma {:induction false} AsdusSplit(asdus: seq<Asdu>, k: nat)
    requires k < |asdus|
    ensures AsdusBytes(asdus) == AsdusBytes(asdus[..k]) + FieldBytes(AsduField(asdus[k])) + AsdusBytes(asdus[k + 1..])
  {
    hide FieldBytes, AsduField;
    if k > 0 {
      AsdusSplit(asdus[1..], k - 1);
      assert asdus[1..][..k - 1] == asdus[..k][1..] && asdus[1..][k..] == asdus[k + 1..];
    }
  }

  /** Where the fields of ASDU `k` start. */
  function AsduAt(asdus: seq<Asdu>, k: nat): (at: nat)
    requires k < |asdus|
  {
    |AsdusBytes(asdus[..k])| + 1 + |asdus[k].len|
  }

  lemma TwoInside(before: bytes, part: bytes, after: bytes, x: nat, w: bytes, y: nat, u: bytes)
    requires x + |w| <= |part| && y + |u| <= |part|
    ensures Overlay(Overlay(before + part + after, |before| + x, w), |before| + y, u) ==
            before + Overlay(Overlay(part, x, w), y, u) + after
  {
    RFrame.OverlayInside(before, part, after, x, w);
    RFrame.OverlayInside(before, Overlay(part, x, w), after, y, u);
  }

  /** Amending one ASDU of a list overwrites two parts of the list's bytes. */
  lemma AsdusSet(asdus: seq<Asdu>, k: nat, sId: bytes, c: u16)
    requires k < |asdus| && Amendable(asdus[k]) && |sId| == 4
    ensures var fs, s := asdus[k].fields, AsdusBytes(asdus);
            var x, y := AsduAt(asdus, k) + ValueAt(fs, IndexOf(fs, 0x80)) + 4, AsduAt(asdus, k) + ValueAt(fs, IndexOf(fs, 0x82));
            && x + 4 <= |s| && y + 2 <= |s|
            && AsdusBytes(asdus[k := AmendedAsdu(asdus[k], sId, c)]) == Overlay(Overlay(s, x, sId), y, Be16(c))
  {
    hide FieldsBytes, AsdusBytes, AmendedFields, Be16, ValueAt;
    var a, all := asdus[k], asdus[k := AmendedAsdu(asdus[k], sId, c)];
    AsdusSplit(asdus, k);
    AsdusSplit(all, k);
    assert all[..k] == asdus[..k] && all[k + 1..] == asdus[k + 1..];
    AmendedBytes(a, sId, c);
    var before, after := AsdusBytes(asdus[..k]) + ([0x30] + a.len), AsdusBytes(asdus[k + 1..]);
    assert AsdusBytes(asdus) == before + FieldsBytes(a.fields) + after;
    assert AsdusBytes(all) == before + FieldsBytes(AmendedFields(a, sId, c)) + after;
    TwoInside(before, FieldsBytes(a.fields), after, ValueAt(a.fields, IndexOf(a.fields, 0x80)) + 4, sId,
              ValueAt(a.fields, IndexOf(a.fields, 0x82)), Be16(c));
  }

  ghost predicate AllAmendable(asdus: seq<Asdu>)
  {
    forall k :: 0 <= k < |asdus| ==> Amendable(asdus[k])
  }

  /** The first `n` ASDUs amended: the k-th carries the k-th next sample number. */
  ghost function AmendedAsdus(asdus: seq<Asdu>, sId: bytes, cnt: u16, freq: nat, n: nat): (r: seq<Asdu>)
    requires AllAmendable(asdus) && |sId| == 4
    ensures |r| == |asdus|
    ensures forall k :: 0 <= k < |asdus| ==>
              r[k] == if k < n then AmendedAsdu(asdus[k], sId, SampleAfter(cnt, freq, k)) else asdus[k]
  {
    seq(|asdus|, k requires 0 <= k < |asdus| =>
      if k < n then AmendedAsdu(asdus[k], sId, SampleAfter(cnt, freq, k)) else asdus[k])
  }

  lemma {:induction false} AmendedSize(asdus: seq<Asdu>, sId: bytes, cnt: u16, freq: nat, n: nat, k: nat)
    requires AllAmendable(asdus) && |sId| == 4 && k <= |asdus|
    ensures |AsdusBytes(AmendedAsdus(asdus, sId, cnt, freq, n)[..k])| == |AsdusBytes(asdus[..k])|
  {
    hide FieldsBytes, AsdusBytes, AmendedFields, SampleAfter, Amendable;
    var all := AmendedAsdus(asdus, sId, cnt, freq, n);
    if k == 0 {
      assert all[..0] == asdus[..0];
    } else {
      AmendedSize(asdus, sId, cnt, freq, n, k - 1);
      AsdusSplit(asdus[..k], k - 1);
      AsdusSplit(all[..k], k - 1);
      assert asdus[..k][..k - 1] == asdus[..k - 1] && all[..k][..k - 1] == all[..k - 1];
      assert asdus[..k][k..] == all[..k][k..];
      if k - 1 < n {
        AmendedBytes(asdus[k - 1], sId, SampleAfter(cnt, freq, k - 1));
      }
    }
  }

  // ---------------------------------------------------------------- the PDU

  /** What precedes the ASDUs. */
  function PduHead(p: SvPdu): (s: bytes)
  {
    [0x60] + p.len + FieldBytes(p.noAsdu) + ([0xA2] + p.seqLen)
  }

  lemma PduParts(p: SvPdu)
    ensures FieldBytes(PduField(p)) == PduHead(p) + AsdusBytes(p.asdus) + []
  {
    hide AsdusBytes;
  }

  /** Where the value with this tag of ASDU `k` starts in the APDU. */
  ghost function Place(p: SvPdu, k: nat, tag: byte): (at: nat)
    requires k < |p.asdus| && Present(p.asdus[k].fields, tag)
  {
    |PduHead(p)| + AsduAt(p.asdus, k) + ValueAt(p.asdus[k].fields, IndexOf(p.asdus[k].fields, tag))
  }

  /** The generator's offsets are those of the svID and smpCnt values. */
  ghost predicate Located(p: SvPdu, offs: seq<AsduOffsets>)
    requires AllAmendable(p.asdus)
  {
    && |p.asdus| <= |offs|
    && forall k :: 0 <= k < |p.asdus| ==> offs[k].svid == Place(p, k, 0x80) && offs[k].smpCnt == Place(p, k, 0x82)
  }

  ghost function Amended(p: SvPdu, sId: bytes, cnt: u16, freq: nat, n: nat): (r: SvPdu)
    requires AllAmendable(p.asdus) && |sId| == 4
  {
    p.(asdus := AmendedAsdus(p.asdus, sId, cnt, freq, n))
  }

  /** One more ASDU amended: two more parts of the APDU overwritten. */
  lemma PduStep(p: SvPdu, offs: seq<AsduOffsets>, sId: bytes, cnt: u16, freq: nat, n: nat)
    requires AllAmendable(p.asdus) && Located(p, offs) && |sId| == 4 && n < |p.asdus|
    ensures var s := FieldBytes(PduField(Amended(p, sId, cnt, freq, n)));
            && offs[n].svid + 4 + 4 <= |s| && offs[n].smpCnt + 2 <= |s|
            && FieldBytes(PduField(Amended(p, sId, cnt, freq, n + 1))) ==
               Overlay(Overlay(s, offs[n].svid + 4, sId), offs[n].smpCnt, Be16(SampleAfter(cnt, freq, n)))
  {
    hide AsdusBytes, FieldsBytes, AmendedFields, Be16, SampleAfter, Amendable, ValueAt, PduHead, FieldBytes;
    var q, r := Amended(p, sId, cnt, freq, n), Amended(p, sId, cnt, freq, n + 1);
    var c, fs, head := SampleAfter(cnt, freq, n), p.asdus[n].fields, PduHead(p);
    assert PduHead(q) == head && PduHead(r) == head by { SameHead(p, q); SameHead(p, r); }
    assert q.asdus[n] == p.asdus[n];
    assert r.asdus == q.asdus[n := AmendedAsdu(q.asdus[n], sId, c)];
    PduParts(q);
    PduParts(r);
    AsdusSet(q.asdus, n, sId, c);
    AmendedSize(p.asdus, sId, cnt, freq, n, n);
    assert AsduAt(q.asdus, n) == AsduAt(p.asdus, n);
    var x, y := AsduAt(p.asdus, n) + ValueAt(fs, IndexOf(fs, 0x80)) + 4, AsduAt(p.asdus, n) + ValueAt(fs, IndexOf(fs, 0x82));
    TwoInside(head, AsdusBytes(q.asdus), [], x, sId, y, Be16(c));
  }

  lemma SameHead(p: SvPdu, q: SvPdu)
    requires q == p.(asdus := q.asdus)
    ensures PduHead(q) == PduHead(p)
  {
  }

  lemma TwoStores(s: bytes, ws: seq<Write>, a: Write, b: Write)
    requires InRange(ws, |s|) && a.at + |a.data| <= |s| && b.at + |b.data| <= |s|
    ensures InRange(ws + [a, b], |s|)
    ensures Apply(s, ws + [a, b]) == Overlay(Overlay(Apply(s, ws), a.at, a.data), b.at, b.data)
  {
    var all := ws + [a, b];
    assert all[..|ws| + 1] == ws + [a] && (ws + [a])[..|ws|] == ws;
  }

  /** The generator's stores on the skeleton are the amended tree. */
  lemma {:induction false} StoresAreTree(p: SvPdu, offs: seq<AsduOffsets>, sId: bytes, cnt: u16, freq: nat, n: nat)
    requires AllAmendable(p.asdus) && Located(p, offs) && |sId| == 4 && n <= |p.asdus|
    ensures InRange(SvWrites(offs, sId, cnt, freq, n), |FieldBytes(PduField(p))|)
    ensures Apply(FieldBytes(PduField(p)), SvWrites(offs, sId, cnt, freq, n)) ==
            FieldBytes(PduField(Amended(p, sId, cnt, freq, n)))
  {
    hide FieldBytes, PduField, Be16, SampleAfter, AllAmendable, Place, Amended;
    if n == 0 {
      NothingAmended(p, sId, cnt, freq);
    } else {
      StoresAreTree(p, offs, sId, cnt, freq, n - 1);
      PduStep(p, offs, sId, cnt, freq, n - 1);
      TwoStores(FieldBytes(PduField(p)), SvWrites(offs, sId, cnt, freq, n - 1), Store(offs[n - 1].svid + 4, sId),
                Store(offs[n - 1].smpCnt, Be16(SampleAfter(cnt, freq, n - 1))));
    }
  }

  lemma NothingAmended(p: SvPdu, sId: bytes, cnt: u16, freq: nat)
    requires AllAmendable(p.asdus) && |sId| == 4
    ensures Amended(p, sId, cnt, freq, 0) == p
  {
    assert AmendedAsdus(p.asdus, sId, cnt, freq, 0) == p.asdus;
  }

  /** The amended tree is well-formed: one stream, with the new ID. */
  lemma AmendedIsPdu(p: SvPdu, offs: seq<AsduOffsets>, sId: bytes, cnt: u16, freq: nat)
    requires IsSvPdu(p) && AllAmendable(p.asdus) && Located(p, offs) && |sId| == 4
    ensures IsSvPdu(Amended(p, sId, cnt, freq, |p.asdus|))
  {
    hide FieldsBytes, AsdusBytes, AmendedFields, SampleAfter, Be16, IsLength, ValueOf, AreFields, Complete, PduHead;
    var q := Amended(p, sId, cnt, freq, |p.asdus|);
    AmendedSize(p.asdus, sId, cnt, freq, |p.asdus|, |p.asdus|);
    assert q.asdus[..|q.asdus|] == q.asdus && p.asdus[..|p.asdus|] == p.asdus;
    forall k | 0 <= k < |q.asdus| ensures IsAsdu(q.asdus[k]) && SameStream(q.asdus[0], q.asdus[k]) {
      AmendedIsAsdu(p.asdus[k], sId, SampleAfter(cnt, freq, k));
      AmendedValues(p.asdus[0], sId, SampleAfter(cnt, freq, 0));
      AmendedValues(p.asdus[k], sId, SampleAfter(cnt, freq, k));
      assert SameStream(p.asdus[0], p.asdus[k]);
    }
  }

  lemma AmendedIsAsdu(a: Asdu, sId: bytes, c: u16)
    requires Amendable(a) && |sId| == 4
    ensures IsAsdu(AmendedAsdu(a, sId, c))
  {
    hide FieldsBytes, AmendedFields, AreFields, Complete, IsLength;
    AmendedLegal(a, sId, c);
    AmendedBytes(a, sId, c);
  }

  /**
   What the receiver reads.  For every well-formed skeleton and every stream state, the APDU that the
   generator sends is accepted, with the stream's ID in the svID and its sample counter as smpCnt; ASDU
   count and configuration revision are the skeleton's.
   */
  lemma AmendedSvReads(p: SvPdu, offs: seq<AsduOffsets>, sId: bytes, cnt: u16, freq: nat)
    requires IsSvPdu(p) && AllAmendable(p.asdus) && Located(p, offs) && |sId| == 4
    ensures var apdu, ws := FieldBytes(PduField(p)), SvWrites(offs, sId, cnt, freq, |p.asdus|);
            && InRange(ws, |apdu|) && p.asdus != [] && |ReportOf(p).svid| >= 8
            && PduTree(Apply(apdu, ws)).Ok?
            && ReportOf(PduTree(Apply(apdu, ws)).tree) ==
               ReportOf(p).(svid := Overlay(ReportOf(p).svid, 4, sId), smpCnt := cnt)
  {
    hide FieldBytes, PduField, IsSvPdu, AmendedFields, SvWrites, Located, ValueOf, PduTree;
    var q := Amended(p, sId, cnt, freq, |p.asdus|);
    SomeAsdus(p);
    StoresAreTree(p, offs, sId, cnt, freq, |p.asdus|);
    AmendedIsPdu(p, offs, sId, cnt, freq);
    PduComplete(FieldBytes(PduField(q)), q);
    AmendedValues(p.asdus[0], sId, cnt);
    assert SampleAfter(cnt, freq, 0) == cnt;
    NumberOfBe16(cnt);
  }

  lemma SomeAsdus(p: SvPdu)
    requires IsSvPdu(p)
    ensures p.asdus != []
  {
  }

  // ---------------------------------------------------------------- such skeletons exist

  const SMALL_FIELDS: seq<Field> :=
    [Field(0x80, [8], Zeros(8)), Field(0x82, [2], Zeros(2)), Field(0x83, [4], Zeros(4)), Field(0x85, [1], [0]),
     Field(0x87, [64], Zeros(64))]

  const SMALL: SvPdu := SvPdu([96], Field(0x80, [1], [1]), [91], [Asdu([89], SMALL_FIELDS)])

  lemma SmallSize()
    ensures |FieldsBytes(SMALL_FIELDS)| == 89
  {
    hide FieldsBytes, Zeros;
    var s := SMALL_FIELDS;
    FieldsSplit(s, 4);
    FieldsSplit(s[..4], 3);
    FieldsSplit(s[..3], 2);
    FieldsSplit(s[..2], 1);
    FieldsSplit(s[..1], 0);
    assert s[..4][..3] == s[..3] && s[..3][..2] == s[..2] && s[..2][..1] == s[..1];
    NoFields(s[5..]);
    NoFields(s[..4][4..]);
    NoFields(s[..3][3..]);
    NoFields(s[..2][2..]);
    NoFields(s[..1][1..]);
    NoFields(s[..1][..0]);
  }

  lemma NoFields(fs: seq<Field>)
    requires fs == []
    ensures FieldsBytes(fs) == []
  {
  }

  lemma SmallLegal()
    ensures AreFields(SMALL_FIELDS, 0) && Complete(SMALL_FIELDS)
  {
    var s := SMALL_FIELDS;
    assert GoodQuality(Zeros(64)) by {
      assert forall c :: 0 <= c < 8 ==> QualityOf(Zeros(64), c) == Zeros(4);
    }
    assert s[0].tag == 0x80 && s[1].tag == 0x82 && s[2].tag == 0x83 && s[3].tag == 0x85 && s[4].tag == 0x87;
  }

  lemma SmallAsdu()
    ensures Amendable(SMALL.asdus[0])
  {
    hide FieldsBytes, AreFields, Complete;
    SmallSize();
    SmallLegal();
    var s := SMALL_FIELDS;
    assert s[0].tag == 0x80 && s[1].tag != 0x80 && s[2].tag != 0x80 && s[3].tag != 0x80 && s[4].tag != 0x80;
    assert Present(s, 0x80);
    assert IndexOf(s, 0x80) == 0;
  }

  lemma SmallPdu()
    ensures IsSvPdu(SMALL)
  {
    hide FieldsBytes, IsAsdu;
    SmallSize();
    assert IsAsdu(SMALL.asdus[0]) by { SmallAsdu(); }
    assert SMALL.asdus[1..] == [] && AsdusBytes(SMALL.asdus[1..]) == [];
    assert |AsdusBytes(SMALL.asdus)| == 91;
    assert BeNat([1]) == 1 by { assert [1][..0] == []; }
  }

  /** The requirements on a skeleton and its offsets can be met. */
  lemma SkeletonsExist() returns (offs: seq<AsduOffsets>)
    ensures IsSvPdu(SMALL) && AllAmendable(SMALL.asdus) && Located(SMALL, offs)
  {
    hide IsSvPdu, FieldsBytes, AsdusBytes, PduHead, AsduAt, ValueAt;
    SmallPdu();
    SmallAsdu();
    offs := [AsduOffsets(Place(SMALL, 0, 0x80), Place(SMALL, 0, 0x82))];
  }
}
