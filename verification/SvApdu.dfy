/**
 The bounded BER walker for Sampled Values APDUs, and the grammar it recognises.

 The grammar is a tree of TLVs with their length octets kept, because section 8.1.3 of
 ITU-T X.690 lets one length be written in several ways.  The walker is proved to accept
 exactly the inputs that have a tree as a prefix, and to report that tree's fields.
 */
module SvApdu {
  import opened Bytes

  const QUALITY_ERROR: int := -11
  const DATA_SIZE: nat := 64

  // ---------------------------------------------------------------- lengths

  /** `octets` is a definite-form length field (one to five octets) that denotes `n`. */
  predicate IsLength(octets: bytes, n: nat)
  {
    || (|octets| == 1 && octets[0] < 0x80 && n == octets[0])
    || (2 <= |octets| <= 5 && octets[0] == 0x80 + |octets| - 1 && n == BeNat(octets[1..]))
  }

  datatype Length = NoLength | Length(size: nat, value: nat)

  /** The length field at the start of `v`, when it is complete within `v`. */
  function LengthAt(v: bytes): (r: Length)
    ensures r.Length? ==> 1 <= r.size <= |v|
  {
    if v == [] then NoLength
    else if v[0] < 0x80 then Length(1, v[0])
    else
      var octets := v[0] - 0x80;
      if octets == 0 || octets > 4 || octets > |v| - 1 then NoLength
      else Length(1 + octets, BeNat(v[1..1 + octets]))
  }

  lemma LengthExact(v: bytes, octets: bytes, n: nat)
    ensures IsLength(octets, n) && octets <= v ==> LengthAt(v) == Length(|octets|, n)
    ensures LengthAt(v) == Length(|octets|, n) && octets <= v ==> IsLength(octets, n)
  {
    if octets <= v && |octets| >= 1 {
      assert octets[1..] == v[1..|octets|];
    }
  }

  lemma LengthValue(v: bytes, octets: nat)
    requires |v| > 0 && v[0] >= 0x80 && 0 < octets == v[0] - 0x80 <= 4 && octets <= |v| - 1
    ensures LengthAt(v) == Length(1 + octets, BeNat(v[1..1 + octets])) && BeNat(v[1..1]) == 0
  {
  }

  lemma LengthFits(s: bytes)
    requires |s| <= 4
    ensures BeNat(s) < U32
  {
    BeNatBound(s);
    assert Pow256(4) == U32 && Pow256(3) < U32 && Pow256(2) < U32 && Pow256(1) < U32 && Pow256(0) < U32;
  }

  method DecodeLength(buffer: bytes, end: nat, at: nat) returns (ok: bool, pos: nat, length: u32)
    requires end <= |buffer| && at <= end
    ensures ok <==> LengthAt(buffer[at..end]).Length?
    ensures ok ==> at < pos <= end && LengthAt(buffer[at..end]) == Length(pos - at, length)
  {
    ok, pos, length := false, at, 0;
    if pos >= end {
      return;
    }
    ghost var v := buffer[at..end];
    var first := buffer[pos];
    pos := pos + 1;
    if first < 0x80 {
      return true, pos, first;
    }
    var octets := first - 0x80;
    if octets == 0 || octets > 4 || octets > end - pos {
      return;
    }
    LengthValue(v, octets);
    for i := 0 to octets
      invariant pos == at + 1 + i
      invariant length == BeNat(v[1..1 + i])
    {
      hide BeNat;
      assert v[1..2 + i] == v[1..1 + i] + [v[1 + i]] && v[1 + i] == buffer[pos];
      BeNatPush(v[1..1 + i], v[1 + i]);
      LengthFits(v[1..2 + i]);
      length := (length * 0x100 + buffer[pos]) % U32;
      pos := pos + 1;
    }
    ok := true;
  }

  // ---------------------------------------------------------------- TLVs

  datatype Field = Field(tag: byte, len: bytes, value: bytes)

  function FieldBytes(f: Field): (s: bytes)
    ensures |s| == 1 + |f.len| + |f.value|
  {
    [f.tag] + f.len + f.value
  }

  predicate IsField(f: Field)
  {
    IsLength(f.len, |f.value|)
  }

  datatype Tlv = NoTlv | Tlv(field: Field, rest: bytes)

  /** The TLV at the start of `v`, when tag, length and value all lie within `v`. */
  function TlvAt(v: bytes): (r: Tlv)
    ensures r.Tlv? ==> |r.rest| < |v| && r.field.tag == v[0]
  {
    if v == [] then NoTlv
    else
      var l := LengthAt(v[1..]);
      if l.NoLength? || l.value > |v| - 1 - l.size then NoTlv
      else
        var at := 1 + l.size;
        Tlv(Field(v[0], v[1..at], v[at..at + l.value]), v[at + l.value..])
  }

  lemma TlvExact(v: bytes, f: Field, rest: bytes)
    ensures TlvAt(v) == Tlv(f, rest) <==> IsField(f) && v == FieldBytes(f) + rest
  {
    if v == FieldBytes(f) + rest {
      ConcatParts([f.tag], f.len, f.value, rest);
      assert v[1..][..|f.len|] == v[1..1 + |f.len|] == f.len;
      LengthExact(v[1..], f.len, |f.value|);
      assert v[0] == v[..1][0] == f.tag;
    }
    if TlvAt(v) == Tlv(f, rest) {
      assert f.len == v[1..][..|f.len|];
      LengthExact(v[1..], f.len, |f.value|);
      assert v == FieldBytes(f) + rest;
    }
  }

  /** Length and value after a tag octet, bounded by the enclosing TLV. */
  method TakeField(buffer: bytes, end: nat, at: nat) returns (ok: bool, pos: nat, valueEnd: nat)
    requires at < end <= |buffer|
    ensures ok <==> TlvAt(buffer[at..end]).Tlv?
    ensures ok ==> at < pos <= valueEnd <= end
    ensures ok ==> TlvAt(buffer[at..end]) ==
                   Tlv(Field(buffer[at], buffer[at + 1..pos], buffer[pos..valueEnd]), buffer[valueEnd..end])
  {
    ok, pos, valueEnd := false, at, at;
    ghost var v := buffer[at..end];
    assert v[1..] == buffer[at + 1..end];
    var decoded, p, length := DecodeLength(buffer, end, at + 1);
    if !decoded || length > end - p {
      return;
    }
    ok, pos, valueEnd := true, p, p + length;
    SliceSlice(buffer, at, end, 1, pos - at);
    SliceSlice(buffer, at, end, pos - at, valueEnd - at);
    assert v[valueEnd - at..] == buffer[valueEnd..end];
  }

  method TakeTlv(buffer: bytes, end: nat, at: nat, expected: byte)
    returns (ok: bool, pos: nat, valueEnd: nat)
    requires at <= end <= |buffer|
    ensures ok <==> TlvAt(buffer[at..end]).Tlv? && buffer[at] == expected
    ensures ok ==> at < pos <= valueEnd <= end
    ensures ok ==> TlvAt(buffer[at..end]) ==
                   Tlv(Field(expected, buffer[at + 1..pos], buffer[pos..valueEnd]), buffer[valueEnd..end])
  {
    ok, pos, valueEnd := false, at, at;
    if at >= end || buffer[at] != expected {
      return;
    }
    ok, pos, valueEnd := TakeField(buffer, end, at);
  }

  // ---------------------------------------------------------------- grammar

  datatype Asdu = Asdu(len: bytes, fields: seq<Field>)
  datatype SvPdu = SvPdu(len: bytes, noAsdu: Field, seqLen: bytes, asdus: seq<Asdu>)

  function FieldsBytes(fs: seq<Field>): (s: bytes)
  {
    if fs == [] then [] else FieldBytes(fs[0]) + FieldsBytes(fs[1..])
  }

  function AsduField(a: Asdu): (f: Field)
  {
    Field(0x30, a.len, FieldsBytes(a.fields))
  }

  function AsdusBytes(asdus: seq<Asdu>): (s: bytes)
  {
    if asdus == [] then [] else FieldBytes(AsduField(asdus[0])) + AsdusBytes(asdus[1..])
  }

  function SequenceField(p: SvPdu): (f: Field)
  {
    Field(0xA2, p.seqLen, AsdusBytes(p.asdus))
  }

  function PduField(p: SvPdu): (f: Field)
  {
    Field(0x60, p.len, FieldBytes(p.noAsdu) + FieldBytes(SequenceField(p)))
  }

  /** Quality octets of channel `c`: the second half of its eight bytes. */
  function QualityOf(data: bytes, c: nat): (q: bytes)
    requires |data| == DATA_SIZE && c < 8
    ensures |q| == 4
  {
    data[8 * c + 4..8 * c + 8]
  }

  /** Every 32-bit Quality of the eight value/Quality pairs is good. */
  predicate GoodQuality(data: bytes)
  {
    && |data| == DATA_SIZE
    && forall c :: 0 <= c < 8 ==> QualityOf(data, c) == Zeros(4)
  }

  /** Size and content that each ASDU field must have; no other tag is legal. */
  predicate LegalField(f: Field)
  {
    match f.tag
    case 0x80 => |f.value| > 0
    case 0x81 => |f.value| > 0
    case 0x82 => |f.value| == 2
    case 0x83 => |f.value| == 4
    case 0x84 => |f.value| == 8
    case 0x85 => |f.value| == 1
    case 0x86 => |f.value| == 2
    case 0x87 => GoodQuality(f.value)
    case 0x88 => |f.value| == 2
    case _ => false
  }

  predicate Ascending(fs: seq<Field>, above: byte)
  {
    && (forall i :: 0 <= i < |fs| ==> above < fs[i].tag)
    && (forall i, j :: 0 <= i < j < |fs| ==> fs[i].tag < fs[j].tag)
  }

  predicate AreFields(fs: seq<Field>, above: byte)
  {
    && Ascending(fs, above)
    && forall i :: 0 <= i < |fs| ==> IsField(fs[i]) && LegalField(fs[i])
  }

  predicate Present(fs: seq<Field>, tag: byte)
  {
    exists i :: 0 <= i < |fs| && fs[i].tag == tag
  }

  /** The value of the last field with this tag (the only one when tags ascend). */
  function ValueOf(fs: seq<Field>, tag: byte): (v: bytes)
  {
    if fs == [] then []
    else if fs[|fs| - 1].tag == tag then fs[|fs| - 1].value
    else ValueOf(fs[..|fs| - 1], tag)
  }

  /** svID, smpCnt, confRev, smpSynch and the sample data are mandatory. */
  predicate Complete(fs: seq<Field>)
  {
    && Present(fs, 0x80) && Present(fs, 0x82) && Present(fs, 0x83)
    && Present(fs, 0x85) && Present(fs, 0x87)
  }

  predicate IsAsdu(a: Asdu)
  {
    && IsField(AsduField(a))
    && AreFields(a.fields, 0)
    && Complete(a.fields)
  }

  /** Same stream: equal svID and equal confRev. */
  predicate SameStream(a: Asdu, b: Asdu)
  {
    && ValueOf(a.fields, 0x80) == ValueOf(b.fields, 0x80)
    && BeNat(ValueOf(a.fields, 0x83)) == BeNat(ValueOf(b.fields, 0x83))
  }

  /** All are ASDUs of one stream: that of `first`, or else of the head of the list. */
  predicate AreAsdus(asdus: seq<Asdu>, first: Option<Asdu>)
  {
    asdus != [] ==>
      var lead := if first.Some? then first.value else asdus[0];
      forall i :: 0 <= i < |asdus| ==> IsAsdu(asdus[i]) && SameStream(lead, asdus[i])
  }

  predicate IsSvPdu(p: SvPdu)
  {
    && IsField(PduField(p)) && IsField(p.noAsdu) && IsField(SequenceField(p))
    && p.noAsdu.tag == 0x80 && 1 <= |p.noAsdu.value| <= 2
    && BeNat(p.noAsdu.value) == |p.asdus| > 0
    && AreAsdus(p.asdus, None)
  }

  // ---------------------------------------------------------------- parsing as a function

  datatype Parsed<T> = Bad(code: int) | Ok(tree: T)

  function FieldsTree(v: bytes, above: byte): (r: Parsed<seq<Field>>)
    ensures r.Bad? ==> r.code == -6 || r.code == QUALITY_ERROR
    decreases |v|
  {
    if v == [] then Ok([])
    else if v[0] <= above then Bad(-6)
    else
      var t := TlvAt(v);
      if t.NoTlv? then Bad(-6)
      else if !LegalField(t.field) then
        Bad(if t.field.tag == 0x87 && |t.field.value| == DATA_SIZE then QUALITY_ERROR else -6)
      else
        var more := FieldsTree(t.rest, v[0]);
        if more.Bad? then more else Ok([t.field] + more.tree)
  }

  function AsduTree(v: bytes): (r: Parsed<(Asdu, bytes)>)
    ensures r.Bad? ==> r.code < 0
    ensures r.Ok? ==> |r.tree.1| < |v|
  {
    var t := TlvAt(v);
    if t.NoTlv? || t.field.tag != 0x30 then Bad(-5)
    else
      var fs := FieldsTree(t.field.value, 0);
      if fs.Bad? then Bad(fs.code)
      else
        var a := Asdu(t.field.len, fs.tree);
        if !IsAsdu(a) then Bad(-6) else Ok((a, t.rest))
  }

  function AsdusTree(v: bytes, first: Option<Asdu>): (r: Parsed<seq<Asdu>>)
    ensures r.Bad? ==> r.code < 0
    decreases |v|
  {
    if v == [] then Ok([])
    else
      var t := AsduTree(v);
      if t.Bad? then Bad(t.code)
      else if first.Some? && !SameStream(first.value, t.tree.0) then Bad(-6)
      else
        var more := AsdusTree(t.tree.1, if first.Some? then first else Some(t.tree.0));
        if more.Bad? then more else Ok([t.tree.0] + more.tree)
  }

  function PduTree(apdu: bytes): (r: Parsed<SvPdu>)
    ensures r.Bad? ==> r.code < 0
    ensures r.Ok? ==> r.tree.asdus != []
  {
    var t := TlvAt(apdu);
    if t.NoTlv? || t.field.tag != 0x60 then Bad(-3)
    else
      var n := TlvAt(t.field.value);
      if n.NoTlv? || n.field.tag != 0x80 || !(1 <= |n.field.value| <= 2) || BeNat(n.field.value) == 0 then Bad(-4)
      else
        var q := TlvAt(n.rest);
        if q.NoTlv? || q.field.tag != 0xA2 || q.rest != [] then Bad(-4)
        else
          var asdus := AsdusTree(q.field.value, None);
          if asdus.Bad? then Bad(asdus.code)
          else if |asdus.tree| != BeNat(n.field.value) then Bad(-7)
          else Ok(SvPdu(t.field.len, n.field, q.field.len, asdus.tree))
  }

  // ---------------------------------------------------------------- the walker accepts the grammar

  lemma {:induction false} FieldsExact(v: bytes, above: byte, fs: seq<Field>)
    ensures FieldsTree(v, above) == Ok(fs) <==> AreFields(fs, above) && FieldsBytes(fs) == v
    decreases |v| + |fs|
  {
    if fs == [] {
      if FieldsTree(v, above) == Ok(fs) && v != [] {
        assert false;
      }
    } else if v == [] {
      assert |FieldsBytes(fs)| > 0;
    } else {
      var f, more := fs[0], fs[1..];
      assert fs == [f] + more;
      var t := TlvAt(v);
      TlvExact(v, f, FieldsBytes(more));
      if t.Tlv? && f == t.field {
        FieldsExact(t.rest, v[0], more);
        TlvExact(v, t.field, t.rest);
        assert AreFields(fs, above) <==> IsField(f) && LegalField(f) && above < f.tag && AreFields(more, f.tag) by {
          FieldsCons(f, more, above);
        }
      }
    }
  }

  lemma FieldsCons(f: Field, more: seq<Field>, above: byte)
    ensures AreFields([f] + more, above) <==>
            IsField(f) && LegalField(f) && above < f.tag && AreFields(more, f.tag)
  {
    var fs := [f] + more;
    if AreFields(fs, above) {
      assert fs[0] == f;
      forall i | 0 <= i < |more| ensures f.tag < more[i].tag && IsField(more[i]) && LegalField(more[i]) {
        assert fs[i + 1] == more[i];
      }
      forall i, j | 0 <= i < j < |more| ensures more[i].tag < more[j].tag {
        assert fs[i + 1] == more[i] && fs[j + 1] == more[j];
      }
    }
  }

  lemma AsduExact(v: bytes, a: Asdu, rest: bytes)
    ensures AsduTree(v) == Ok((a, rest)) <==> IsAsdu(a) && v == FieldBytes(AsduField(a)) + rest
  {
    TlvExact(v, AsduField(a), rest);
    var t := TlvAt(v);
    if t.Tlv? {
      FieldsExact(t.field.value, 0, a.fields);
      TlvExact(v, t.field, t.rest);
    }
  }

  lemma AsdusCons(a: Asdu, more: seq<Asdu>, first: Option<Asdu>)
    ensures AreAsdus([a] + more, first) <==>
            && IsAsdu(a)
            && (first.Some? ==> SameStream(first.value, a))
            && AreAsdus(more, if first.Some? then first else Some(a))
  {
    var asdus := [a] + more;
    assert asdus[0] == a;
    assert forall i :: 0 <= i < |more| ==> more[i] == asdus[i + 1];
    assert forall i :: 1 <= i < |asdus| ==> asdus[i] == more[i - 1];
  }

  lemma {:induction false} AsdusExact(v: bytes, first: Option<Asdu>, asdus: seq<Asdu>)
    ensures AsdusTree(v, first) == Ok(asdus) <==> AreAsdus(asdus, first) && AsdusBytes(asdus) == v
    decreases |v| + |asdus|
  {
    if asdus == [] {
    } else if v == [] {
      assert |AsdusBytes(asdus)| > 0;
    } else {
      var a, more := asdus[0], asdus[1..];
      assert asdus == [a] + more;
      AsdusCons(a, more, first);
      AsduExact(v, a, AsdusBytes(more));
      var t := AsduTree(v);
      if t.Ok? && t.tree.0 == a {
        AsdusExact(t.tree.1, if first.Some? then first else Some(a), more);
        AsduExact(v, a, t.tree.1);
      }
    }
  }

  lemma PrefixTlv(v: bytes, f: Field)
    requires IsField(f) && FieldBytes(f) <= v
    ensures TlvAt(v).Tlv? && TlvAt(v).field == f
    ensures v == FieldBytes(f) ==> TlvAt(v).rest == []
  {
    var rest := v[|FieldBytes(f)|..];
    TlvExact(v, f, rest);
  }

  lemma PduComplete(apdu: bytes, p: SvPdu)
    requires IsSvPdu(p) && FieldBytes(PduField(p)) <= apdu
    ensures PduTree(apdu) == Ok(p)
  {
    hide AreAsdus, AsdusTree, AsdusBytes, TlvAt;
    PrefixTlv(apdu, PduField(p));
    TlvExact(PduField(p).value, p.noAsdu, FieldBytes(SequenceField(p)));
    PrefixTlv(FieldBytes(SequenceField(p)), SequenceField(p));
    AsdusExact(AsdusBytes(p.asdus), None, p.asdus);
  }

  lemma PduSound(apdu: bytes, p: SvPdu)
    requires PduTree(apdu) == Ok(p)
    ensures IsSvPdu(p) && FieldBytes(PduField(p)) <= apdu
  {
    hide TlvAt, AsdusTree, AreAsdus, AsdusBytes, IsLength;
    var t := TlvAt(apdu);
    TlvExact(apdu, t.field, t.rest);
    var n := TlvAt(t.field.value);
    TlvExact(t.field.value, n.field, n.rest);
    var q := TlvAt(n.rest);
    TlvExact(n.rest, q.field, q.rest);
    AsdusExact(q.field.value, None, p.asdus);
    assert q.field == SequenceField(p);
    assert t.field == PduField(p);
  }

  /**
   The function side of the walker accepts `apdu` with tree `p` exactly when `p` is a
   well-formed PDU whose bytes are a prefix of `apdu`.  In particular the grammar is
   unambiguous: no input starts with two different PDUs.
   */
  lemma PduExact(apdu: bytes, p: SvPdu)
    ensures PduTree(apdu) == Ok(p) <==> IsSvPdu(p) && FieldBytes(PduField(p)) <= apdu
  {
    if PduTree(apdu) == Ok(p) {
      PduSound(apdu, p);
    }
    if IsSvPdu(p) && FieldBytes(PduField(p)) <= apdu {
      PduComplete(apdu, p);
    }
  }

  // ---------------------------------------------------------------- the walker itself

  lemma {:induction false} ZeroNumber(s: bytes)
    ensures BeNat(s) == 0 <==> forall i :: 0 <= i < |s| ==> s[i] == 0
  {
    if s != [] {
      ZeroNumber(s[..|s| - 1]);
      assert forall i :: 0 <= i < |s| - 1 ==> s[..|s| - 1][i] == s[i];
    }
  }

  /** Octet by octet: of the 64, the second four of every eight are zero. */
  lemma QualityOctets(data: bytes)
    requires |data| == 64
    ensures GoodQuality(data) <==> forall i :: 0 <= i < 64 && i % 8 >= 4 ==> data[i] == 0
  {
    if GoodQuality(data) {
      forall i | 0 <= i < 64 && i % 8 >= 4 ensures data[i] == 0 {
        assert data[i] == QualityOf(data, i / 8)[i % 8 - 4];
      }
    }
    if forall i :: 0 <= i < 64 && i % 8 >= 4 ==> data[i] == 0 {
      forall c | 0 <= c < 8 ensures QualityOf(data, c) == Zeros(4) {
        forall j | 0 <= j < 4 ensures QualityOf(data, c)[j] == 0 {
          assert (8 * c + 4 + j) % 8 == 4 + j;
        }
      }
    }
  }

  method CheckQuality(data: bytes) returns (good: bool)
    requires |data| == DATA_SIZE
    ensures good <==> GoodQuality(data)
  {
    var off := 4;
    ghost var c := 0;
    while off < DATA_SIZE
      invariant off == 8 * c + 4 && c <= 8
      invariant forall k :: 0 <= k < c ==> QualityOf(data, k) == Zeros(4)
    {
      var quality := Number(data[off..off + 4]);
      assert data[off..off + 4] == QualityOf(data, c);
      ZeroNumber(QualityOf(data, c));
      if quality != 0 {
        return false;
      }
      assert QualityOf(data, c) == Zeros(4);
      off := off + 8;
      c := c + 1;
    }
    return true;
  }

  function Prepend(done: seq<Field>, r: Parsed<seq<Field>>): Parsed<seq<Field>>
  {
    if r.Bad? then r else Ok(done + r.tree)
  }

  /** One more field on the list of those already walked. */
  lemma PushField(done: seq<Field>, f: Field, tag: byte)
    ensures Present(done + [f], tag) <==> Present(done, tag) || f.tag == tag
    ensures ValueOf(done + [f], tag) == if f.tag == tag then f.value else ValueOf(done, tag)
  {
    var all := done + [f];
    assert all[..|done|] == done && all[|done|] == f;
    if Present(done, tag) {
      var i :| 0 <= i < |done| && done[i].tag == tag;
      assert all[i].tag == tag;
    }
  }

  lemma FieldsStep(done: seq<Field>, v: bytes, above: byte)
    requires v != [] && v[0] > above && TlvAt(v).Tlv? && LegalField(TlvAt(v).field)
    ensures Prepend(done, FieldsTree(v, above)) ==
            Prepend(done + [TlvAt(v).field], FieldsTree(TlvAt(v).rest, v[0]))
  {
    var t := TlvAt(v);
    var more := FieldsTree(t.rest, v[0]);
    if more.Ok? {
      assert done + ([t.field] + more.tree) == done + [t.field] + more.tree;
    }
  }

  lemma FieldsReject(v: bytes, above: byte)
    requires v != []
    ensures v[0] <= above || TlvAt(v).NoTlv? ==> FieldsTree(v, above) == Bad(-6)
    ensures v[0] > above && TlvAt(v).Tlv? && !LegalField(TlvAt(v).field) ==>
              FieldsTree(v, above) ==
              Bad(if v[0] == 0x87 && |TlvAt(v).field.value| == DATA_SIZE then QUALITY_ERROR else -6)
  {
  }

  /** What the walker has recorded is what the fields walked so far say. */
  ghost predicate Recorded(done: seq<Field>, svid: Option<bytes>, smpCnt: Option<u16>, confRev: Option<u32>,
                           synch: bool, data: bool)
  {
    && svid == (if Present(done, 0x80) then Some(ValueOf(done, 0x80)) else None)
    && (smpCnt.Some? <==> Present(done, 0x82)) && (smpCnt.Some? ==> smpCnt.value == BeNat(ValueOf(done, 0x82)))
    && (confRev.Some? <==> Present(done, 0x83)) && (confRev.Some? ==> confRev.value == BeNat(ValueOf(done, 0x83)))
    && synch == Present(done, 0x85)
    && data == Present(done, 0x87)
  }

  lemma RecordField(done: seq<Field>, f: Field, svid: Option<bytes>, smpCnt: Option<u16>, confRev: Option<u32>,
                    synch: bool, data: bool)
    requires Recorded(done, svid, smpCnt, confRev, synch, data)
    requires f.tag == 0x82 ==> |f.value| == 2
    requires f.tag == 0x83 ==> |f.value| == 4
    ensures Recorded(done + [f],
                     if f.tag == 0x80 then Some(f.value) else svid,
                     if f.tag == 0x82 then Some(Number(f.value) % U16) else smpCnt,
                     if f.tag == 0x83 then Some(Number(f.value)) else confRev,
                     synch || f.tag == 0x85, data || f.tag == 0x87)
  {
    PushField(done, f, 0x80);
    PushField(done, f, 0x82);
    PushField(done, f, 0x83);
    PushField(done, f, 0x85);
    PushField(done, f, 0x87);
    if f.tag == 0x82 {
      BeNatBound(f.value);
      assert Pow256(2) == U16 by { assert Pow256(1) == 0x100; }
    }
  }

  /** Size and content checks of one field: 0, or the walker's error code. */
  method CheckField(tag: byte, value: bytes, svid: bool, smpCnt: bool, confRev: bool, synch: bool, data: bool)
    returns (code: int)
    ensures var repeated := (svid && tag == 0x80) || (smpCnt && tag == 0x82) || (confRev && tag == 0x83)
                            || (synch && tag == 0x85) || (data && tag == 0x87);
            && (forall len :: LegalField(Field(tag, len, value)) && !repeated <==> code == 0)
            && (code == 0 || code == if tag == 0x87 && |value| == DATA_SIZE && !repeated then QUALITY_ERROR else -6)
  {
    var length := |value|;
    var legal := match tag
      case 0x80 => !svid && length != 0
      case 0x81 => length != 0
      case 0x82 => !smpCnt && length == 2
      case 0x83 => !confRev && length == 4
      case 0x84 => length == 8
      case 0x85 => !synch && length == 1
      case 0x86 => length == 2
      case 0x87 => !data && length == DATA_SIZE
      case 0x88 => length == 2
      case _ => false;
    if !legal {
      return -6;
    }
    if tag == 0x87 {
      var good := CheckQuality(value);
      return if good then 0 else QUALITY_ERROR;
    }
    return 0;
  }

  /** The inner loop: one ASDU's fields, with the values the stream lookup needs. */
  method WalkFields(apdu: bytes, at: nat, asduEnd: nat)
    returns (code: int, svid: bytes, smpCnt: u16, confRev: u32)
    requires at <= asduEnd <= |apdu| < 0x8000_0000
    ensures var r := FieldsTree(apdu[at..asduEnd], 0);
            && code == (if r.Bad? then r.code else if Complete(r.tree) then 0 else -6)
            && (code == 0 ==> svid == ValueOf(r.tree, 0x80)
                              && smpCnt == BeNat(ValueOf(r.tree, 0x82))
                              && confRev == BeNat(ValueOf(r.tree, 0x83)))
  {
    hide TlvAt, LegalField, FieldsTree, Recorded;
    svid, smpCnt, confRev := [], 0, 0;
    var id: Option<bytes>, cnt: Option<u16>, rev: Option<u32> := None, None, None;
    var synch, data := false, false;
    var previousTag: byte := 0;
    var pos := at;
    ghost var done: seq<Field> := [];
    ghost var whole := FieldsTree(apdu[at..asduEnd], 0);
    assert whole.Ok? ==> done + whole.tree == whole.tree;
    NothingRecorded();
    while pos < asduEnd
      invariant at <= pos <= asduEnd
      invariant whole == Prepend(done, FieldsTree(apdu[pos..asduEnd], previousTag))
      invariant Recorded(done, id, cnt, rev, synch, data)
      invariant forall i :: 0 <= i < |done| ==> done[i].tag <= previousTag
    {
      ghost var v := apdu[pos..asduEnd];
      FieldsReject(v, previousTag);
      RepeatedTags(done, previousTag, id, cnt, rev, synch, data);
      var tag := apdu[pos];
      if tag <= previousTag {
        return -6, svid, smpCnt, confRev;
      }
      var ok, p, valueEnd := TakeField(apdu, asduEnd, pos);
      if !ok {
        return -6, svid, smpCnt, confRev;
      }
      var value := apdu[p..valueEnd];
      var c := CheckField(tag, value, id.Some?, cnt.Some?, rev.Some?, synch, data);
      ghost var f := TlvAt(v).field;
      assert LegalField(Field(tag, f.len, value)) <==> c == 0;
      if c != 0 {
        return c, svid, smpCnt, confRev;
      }
      assert (tag == 0x82 ==> |value| == 2) && (tag == 0x83 ==> |value| == 4) by { SizeOfLegal(f); }
      FieldsStep(done, v, previousTag);
      RecordField(done, f, id, cnt, rev, synch, data);
      match tag {
        case 0x80 => id := Some(value);
        case 0x82 => cnt := Some(Number(value) % U16);
        case 0x83 => rev := Some(Number(value));
        case 0x85 => synch := true;
        case 0x87 => data := true;
        case _ =>
      }
      done := done + [f];
      previousTag := tag;
      pos := valueEnd;
    }
    assert apdu[pos..asduEnd] == [];
    FieldsEnd(previousTag);
    assert whole == Ok(done + []) && done + [] == done;
    AllRecorded(done, id, cnt, rev, synch, data);
    if id.None? || cnt.None? || rev.None? || !synch || !data {
      return -6, svid, smpCnt, confRev;
    }
    return 0, id.value, cnt.value, rev.value;
  }

  lemma NothingRecorded()
    ensures Recorded([], None, None, None, false, false)
  {
  }

  lemma FieldsEnd(above: byte)
    ensures FieldsTree([], above) == Ok([])
  {
  }

  /** Tags ascend, so a field that was already recorded cannot come again. */
  lemma RepeatedTags(done: seq<Field>, top: byte, svid: Option<bytes>, smpCnt: Option<u16>, confRev: Option<u32>,
                     synch: bool, data: bool)
    requires Recorded(done, svid, smpCnt, confRev, synch, data)
    requires forall i :: 0 <= i < |done| ==> done[i].tag <= top
    ensures (svid.Some? ==> top >= 0x80) && (smpCnt.Some? ==> top >= 0x82) && (confRev.Some? ==> top >= 0x83)
    ensures (synch ==> top >= 0x85) && (data ==> top >= 0x87)
  {
  }

  lemma AllRecorded(done: seq<Field>, svid: Option<bytes>, smpCnt: Option<u16>, confRev: Option<u32>,
                    synch: bool, data: bool)
    requires Recorded(done, svid, smpCnt, confRev, synch, data)
    ensures Complete(done) <==> svid.Some? && smpCnt.Some? && confRev.Some? && synch && data
    ensures svid.Some? ==> svid.value == ValueOf(done, 0x80)
    ensures smpCnt.Some? ==> smpCnt.value == BeNat(ValueOf(done, 0x82))
    ensures confRev.Some? ==> confRev.value == BeNat(ValueOf(done, 0x83))
  {
  }

  lemma SizeOfLegal(f: Field)
    requires LegalField(f)
    ensures f.tag == 0x82 ==> |f.value| == 2
    ensures f.tag == 0x83 ==> |f.value| == 4
  {
  }

  datatype Report = Report(num: u16, svid: bytes, confRev: u32, smpCnt: u16)

  /** The report is that of the tree: ASDU count, and the first ASDU's identity and counter. */
  predicate Describes(r: Report, p: SvPdu)
    requires p.asdus != []
  {
    var fs := p.asdus[0].fields;
    && r.num == |p.asdus|
    && r.svid == ValueOf(fs, 0x80)
    && r.smpCnt == BeNat(ValueOf(fs, 0x82))
    && r.confRev == BeNat(ValueOf(fs, 0x83))
  }

  /** What a well-formed PDU reports. */
  function ReportOf(p: SvPdu): (r: Report)
    requires p.asdus != []
  {
    var fs := p.asdus[0].fields;
    Report(|p.asdus| % U16, ValueOf(fs, 0x80), Number(ValueOf(fs, 0x83)), Number(ValueOf(fs, 0x82)) % U16)
  }

  lemma {:induction false} PresentValue(fs: seq<Field>, tag: byte)
    requires Present(fs, tag)
    ensures exists i :: 0 <= i < |fs| && fs[i].tag == tag && fs[i].value == ValueOf(fs, tag)
  {
    var k := |fs| - 1;
    if fs[k].tag != tag {
      var i :| 0 <= i < |fs| && fs[i].tag == tag;
      assert fs[..k][i].tag == tag;
      PresentValue(fs[..k], tag);
    }
  }

  /** The report of a well-formed PDU is determined by it. */
  lemma DescribedReport(r: Report, p: SvPdu)
    requires IsSvPdu(p) && Describes(r, p)
    ensures r == ReportOf(p)
  {
    var fs := p.asdus[0].fields;
    assert IsAsdu(p.asdus[0]);
    PresentValue(fs, 0x82);
    PresentValue(fs, 0x83);
    assert |ValueOf(fs, 0x82)| == 2 && |ValueOf(fs, 0x83)| == 4;
  }

  function PrependAsdus(done: seq<Asdu>, r: Parsed<seq<Asdu>>): Parsed<seq<Asdu>>
  {
    if r.Bad? then r else Ok(done + r.tree)
  }

  function First(done: seq<Asdu>): Option<Asdu>
  {
    if done == [] then None else Some(done[0])
  }

  lemma AsdusStep(done: seq<Asdu>, v: bytes)
    requires v != [] && AsduTree(v).Ok?
    requires done != [] ==> SameStream(done[0], AsduTree(v).tree.0)
    ensures PrependAsdus(done, AsdusTree(v, First(done))) ==
            PrependAsdus(done + [AsduTree(v).tree.0],
                         AsdusTree(AsduTree(v).tree.1, First(done + [AsduTree(v).tree.0])))
  {
    hide AsduTree, SameStream;
    var a := AsduTree(v).tree.0;
    var more := AsdusTree(AsduTree(v).tree.1, First(done + [a]));
    if more.Ok? {
      assert done + ([a] + more.tree) == done + [a] + more.tree;
    }
  }

  lemma AsduComplete(f: Field, fs: seq<Field>)
    requires IsField(f) && f.tag == 0x30 && AreFields(fs, 0) && FieldsBytes(fs) == f.value
    ensures IsAsdu(Asdu(f.len, fs)) <==> Complete(fs)
  {
  }

  /** The outer loop: every ASDU of the sequence, counted and compared with the first. */
  method WalkAsdus(apdu: bytes, at: nat, sequenceEnd: nat)
    returns (code: int, actual: nat, svid: bytes, smpCnt: u16, confRev: u32)
    requires at <= sequenceEnd <= |apdu| < 0x8000_0000
    ensures var r := AsdusTree(apdu[at..sequenceEnd], None);
            && code == (if r.Bad? then r.code else 0)
            && (r.Ok? ==> actual == |r.tree|)
            && (r.Ok? && actual > 0 ==>
                  var fs := r.tree[0].fields;
                  && svid == ValueOf(fs, 0x80)
                  && smpCnt == BeNat(ValueOf(fs, 0x82))
                  && confRev == BeNat(ValueOf(fs, 0x83)))
  {
    hide TlvAt, FieldsTree, ValueOf, BeNat, Complete;
    actual, svid, smpCnt, confRev := 0, [], 0, 0;
    var pos := at;
    ghost var done: seq<Asdu> := [];
    ghost var whole := AsdusTree(apdu[at..sequenceEnd], None);
    assert whole.Ok? ==> done + whole.tree == whole.tree;
    while pos < sequenceEnd
      invariant at <= pos <= sequenceEnd
      invariant whole == PrependAsdus(done, AsdusTree(apdu[pos..sequenceEnd], First(done)))
      invariant actual == |done|
      invariant actual > 0 ==>
                  && svid == ValueOf(done[0].fields, 0x80)
                  && smpCnt == BeNat(ValueOf(done[0].fields, 0x82))
                  && confRev == BeNat(ValueOf(done[0].fields, 0x83))
    {
      ghost var v := apdu[pos..sequenceEnd];
      var ok, p, asduEnd := TakeTlv(apdu, sequenceEnd, pos, 0x30);
      if !ok {
        return -5, actual, svid, smpCnt, confRev;
      }
      var c, id, cnt, rev := WalkFields(apdu, p, asduEnd);
      TlvExact(v, TlvAt(v).field, TlvAt(v).rest);
      ghost var fs := FieldsTree(apdu[p..asduEnd], 0);
      if fs.Ok? {
        FieldsExact(apdu[p..asduEnd], 0, fs.tree);
        AsduComplete(TlvAt(v).field, fs.tree);
      }
      if c != 0 {
        return c, actual, svid, smpCnt, confRev;
      }
      if actual == 0 {
        svid, confRev, smpCnt := id, rev, cnt;
      } else if id != svid || rev != confRev {
        return -6, actual, svid, smpCnt, confRev;
      }
      AsdusStep(done, v);
      done := done + [AsduTree(v).tree.0];
      actual := actual + 1;
      pos := asduEnd;
    }
    assert apdu[pos..sequenceEnd] == [];
    assert whole == Ok(done + []) && done + [] == done;
    code := 0;
  }

  /** parse_sv_apdu with the parsing function as its specification, error codes included. */
  method WalkPdu(apdu: bytes) returns (code: int, report: Report)
    requires |apdu| < 0x8000_0000
    ensures PduTree(apdu).Bad? ==> code == PduTree(apdu).code
    ensures PduTree(apdu).Ok? ==> code == 0 && PduTree(apdu).tree.asdus != [] && Describes(report, PduTree(apdu).tree)
  {
    hide TlvAt, AsdusTree;
    report := Report(0, [], 0, 0);
    var ok, pos, pduEnd := TakeTlv(apdu, |apdu|, 0, 0x60);
    assert apdu[0..|apdu|] == apdu;
    if !ok {
      return -3, report;
    }
    ghost var body := apdu[pos..pduEnd];
    if pos >= pduEnd || apdu[pos] != 0x80 {
      return -4, report;
    }
    var numOk, at, numEnd := TakeField(apdu, pduEnd, pos);
    if !numOk || numEnd - at == 0 || numEnd - at > 2 {
      return -4, report;
    }
    var noAsdu := apdu[at..numEnd];
    var declared := Number(noAsdu);
    BeNatBound(noAsdu);
    assert Pow256(2) == U16 && Pow256(1) == 0x100;
    if declared == 0 || declared > 0xFFFF {
      return -4, report;
    }
    var seqOk, first, sequenceEnd := TakeTlv(apdu, pduEnd, numEnd, 0xA2);
    if !seqOk || sequenceEnd != pduEnd {
      return -4, report;
    }
    assert apdu[sequenceEnd..pduEnd] == [];
    var c, actual, svid, smpCnt, confRev := WalkAsdus(apdu, first, sequenceEnd);
    if c != 0 {
      return c, report;
    }
    report := Report(declared, svid, confRev, smpCnt);
    code := if actual == declared then 0 else -7;
  }

  /**
   parse_sv_apdu against the grammar: it succeeds exactly on the inputs that begin with a
   well-formed PDU, and then reports that PDU, which is the only one there is.
   */
  method ParseSvApdu(apdu: bytes) returns (code: int, report: Report)
    requires |apdu| < 0x8000_0000
    ensures code <= 0
    ensures code == 0 <==> exists p :: IsSvPdu(p) && FieldBytes(PduField(p)) <= apdu
    ensures code == 0 ==> forall p :: IsSvPdu(p) && FieldBytes(PduField(p)) <= apdu ==> Describes(report, p)
  {
    code, report := WalkPdu(apdu);
    forall p | IsSvPdu(p) && FieldBytes(PduField(p)) <= apdu ensures PduTree(apdu) == Ok(p) {
      PduExact(apdu, p);
    }
    if code == 0 {
      PduExact(apdu, PduTree(apdu).tree);
    }
  }

  /** Offset of the APDU in an L2 SV frame. */
  function L2Base(frame: bytes): (r: Option<nat>)
    requires |frame| >= 64
  {
    if frame[12] == 0x81 && frame[13] == 0x00 && frame[16] == 0x88 && frame[17] == 0xBA then Some(26)
    else if frame[12] == 0x88 && frame[13] == 0xBA then Some(22)
    else None
  }

  /** parse_sv_packet: an L2 frame is accepted exactly when a well-formed PDU starts at its APDU offset. */
  method ParseSvPacket(frame: bytes) returns (code: int, appid: u16, report: Report)
    requires |frame| < 0x8000_0000
    ensures |frame| < 64 ==> code == -1
    ensures |frame| >= 64 && L2Base(frame).None? ==> code == -2
    ensures |frame| >= 64 && L2Base(frame).Some? ==>
              var base := L2Base(frame).value;
              && appid == Get16(frame, base - 8)
              && (code == 0 <==> exists p :: IsSvPdu(p) && FieldBytes(PduField(p)) <= frame[base..])
              && (code == 0 ==> forall p :: IsSvPdu(p) && FieldBytes(PduField(p)) <= frame[base..] ==> Describes(report, p))
  {
    hide IsSvPdu, FieldBytes, PduField;
    appid, report := 0, Report(0, [], 0, 0);
    if |frame| < 64 {
      return -1, appid, report;
    }
    var pos := 14;
    if frame[12] == 0x81 && frame[13] == 0x00 && frame[16] == 0x88 && frame[17] == 0xBA {
      pos := pos + 4;
    } else if frame[12] == 0x88 && frame[13] == 0xBA {
    } else {
      return -2, appid, report;
    }
    appid := Get16(frame, pos);
    pos := pos + 8;
    code, report := ParseSvApdu(frame[pos..]);
  }
}
