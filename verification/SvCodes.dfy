/** The codes with which the Sampled Values walker refuses an APDU; the one for bad quality, exactly. */
module SvCodes {
  import opened Bytes
  import opened SvApdu

  /** Fields that are fine up to sample data of the right size with a Quality that is not good. */
  datatype BadFields = BadFields(before: seq<Field>, bad: Field, rest: bytes)

  ghost predicate AreBadFields(b: BadFields, above: byte)
  {
    && AreFields(b.before, above) && IsField(b.bad) && b.bad.tag == 0x87 && above < 0x87
    && (forall f <- b.before :: f.tag < 0x87)
    && |b.bad.value| == 64 && exists c :: 0 <= c < 8 && QualityOf(b.bad.value, c) != [0, 0, 0, 0]
  }

  function BadFieldsBytes(b: BadFields): (s: bytes)
  {
    FieldsBytes(b.before) + (FieldBytes(b.bad) + b.rest)
  }

  ghost predicate HasBadFields(v: bytes, above: byte)
  {
    exists b :: AreBadFields(b, above) && BadFieldsBytes(b) == v
  }

  /** ASDUs of one stream, then one with such fields. */
  datatype BadAsdus = BadAsdus(before: seq<Asdu>, len: bytes, body: bytes, rest: bytes)

  ghost predicate AreBadAsdus(b: BadAsdus, first: Option<Asdu>)
  {
    AreAsdus(b.before, first) && IsLength(b.len, |b.body|) && HasBadFields(b.body, 0)
  }

  function BadAsdusBytes(b: BadAsdus): (s: bytes)
  {
    AsdusBytes(b.before) + (FieldBytes(Field(0x30, b.len, b.body)) + b.rest)
  }

  ghost predicate HasBadAsdus(v: bytes, first: Option<Asdu>)
  {
    exists b :: AreBadAsdus(b, first) && BadAsdusBytes(b) == v
  }

  /** A PDU whose headers are in order and whose ASDUs are such; their number is not looked at before. */
  datatype BadPdu = BadPdu(len: bytes, noAsdu: Field, seqLen: bytes, body: bytes)

  function BadPduField(b: BadPdu): (f: Field)
  {
    Field(0x60, b.len, FieldBytes(b.noAsdu) + FieldBytes(Field(0xA2, b.seqLen, b.body)))
  }

  ghost predicate IsBadPduTree(b: BadPdu)
  {
    && IsField(BadPduField(b)) && IsField(b.noAsdu) && IsLength(b.seqLen, |b.body|)
    && b.noAsdu.tag == 0x80 && 1 <= |b.noAsdu.value| <= 2 && BeNat(b.noAsdu.value) > 0
    && HasBadAsdus(b.body, None)
  }

  ghost predicate IsBadPdu(apdu: bytes)
  {
    exists b :: IsBadPduTree(b) && FieldBytes(BadPduField(b)) <= apdu
  }

  lemma LegalData(f: Field)
    requires f.tag == 0x87 && |f.value| == 64
    ensures LegalField(f) <==> forall c :: 0 <= c < 8 ==> QualityOf(f.value, c) == [0, 0, 0, 0]
  {
    assert Zeros(4) == [0, 0, 0, 0];
  }

  lemma BadFieldsComplete(b: BadFields, above: byte)
    requires AreBadFields(b, above)
    ensures FieldsTree(BadFieldsBytes(b), above) == Bad(-11)
    decreases |b.before|
  {
    hide IsLength, LegalField, TlvAt, QualityOf;
    var v := BadFieldsBytes(b);
    if b.before == [] {
      assert v == FieldBytes(b.bad) + b.rest;
      TlvExact(v, b.bad, b.rest);
      LegalData(b.bad);
      FieldsReject(v, above);
    } else {
      var f, more := b.before[0], b.before[1..];
      var next := BadFields(more, b.bad, b.rest);
      assert b.before == [f] + more;
      FieldsCons(f, more, above);
      assert v == FieldBytes(f) + BadFieldsBytes(next);
      TlvExact(v, f, BadFieldsBytes(next));
      BadFieldsComplete(next, f.tag);
      FieldsStep([], v, above);
    }
  }

  lemma {:induction false} BadFieldsSound(v: bytes, above: byte) returns (b: BadFields)
    requires FieldsTree(v, above) == Bad(-11)
    ensures AreBadFields(b, above) && BadFieldsBytes(b) == v
    decreases |v|
  {
    hide IsLength, LegalField, TlvAt, QualityOf;
    var t := TlvAt(v);
    TlvExact(v, t.field, t.rest);
    if LegalField(t.field) {
      var next := BadFieldsSound(t.rest, v[0]);
      FieldsCons(t.field, next.before, above);
      b := BadFields([t.field] + next.before, next.bad, next.rest);
      assert b.before[1..] == next.before;
    } else {
      LegalData(t.field);
      b := BadFields([], t.field, t.rest);
    }
  }

  lemma {:induction false} BadAsdusComplete(b: BadAsdus, first: Option<Asdu>)
    requires AreBadAsdus(b, first)
    ensures AsdusTree(BadAsdusBytes(b), first) == Bad(-11)
    decreases |b.before|
  {
    hide IsLength, FieldsTree, AreFields, TlvAt, HasBadFields, SameStream, IsAsdu;
    var v := BadAsdusBytes(b);
    if b.before == [] {
      var f := Field(0x30, b.len, b.body);
      assert v == FieldBytes(f) + b.rest;
      TlvExact(v, f, b.rest);
      BodyIsBad(b.body);
    } else {
      var a, more := b.before[0], b.before[1..];
      var next := BadAsdus(more, b.len, b.body, b.rest);
      assert b.before == [a] + more;
      AsdusCons(a, more, first);
      assert v == FieldBytes(AsduField(a)) + BadAsdusBytes(next);
      AsduExact(v, a, BadAsdusBytes(next));
      BadAsdusComplete(next, if first.Some? then first else Some(a));
    }
  }

  lemma BodyIsBad(body: bytes)
    ensures HasBadFields(body, 0) <==> FieldsTree(body, 0) == Bad(-11)
  {
    hide AreBadFields, FieldsTree, BadFieldsBytes;
    if b :| AreBadFields(b, 0) && BadFieldsBytes(b) == body {
      BadFieldsComplete(b, 0);
    }
    if FieldsTree(body, 0) == Bad(-11) {
      var b := BadFieldsSound(body, 0);
    }
  }

  lemma {:induction false} BadAsdusSound(v: bytes, first: Option<Asdu>) returns (b: BadAsdus)
    requires AsdusTree(v, first) == Bad(-11)
    ensures AreBadAsdus(b, first) && BadAsdusBytes(b) == v
    decreases |v|
  {
    hide IsLength, FieldsTree, AreFields, TlvAt, HasBadFields, SameStream, IsAsdu;
    var t := AsduTree(v);
    if t.Bad? {
      var f := TlvAt(v).field;
      TlvExact(v, f, TlvAt(v).rest);
      BodyIsBad(f.value);
      b := BadAsdus([], f.len, f.value, TlvAt(v).rest);
    } else {
      var a := t.tree.0;
      AsduExact(v, a, t.tree.1);
      var next := BadAsdusSound(t.tree.1, if first.Some? then first else Some(a));
      AsdusCons(a, next.before, first);
      b := BadAsdus([a] + next.before, next.len, next.body, next.rest);
      assert b.before[1..] == next.before;
    }
  }

  lemma {:induction false} AsdusCodes(v: bytes, first: Option<Asdu>)
    requires AsdusTree(v, first).Bad?
    ensures AsdusTree(v, first).code in {-5, -6, -11}
    decreases |v|
  {
    hide FieldsTree, TlvAt, SameStream, IsAsdu;
    var t := AsduTree(v);
    if t.Ok? && !(first.Some? && !SameStream(first.value, t.tree.0)) {
      AsdusCodes(t.tree.1, if first.Some? then first else Some(t.tree.0));
    }
  }

  /**
   Every refusal has one of six codes, none of them that of a failed authentication, and the one for bad quality is
   given exactly to a PDU that is in order up to sample data whose Quality is not good.
   */
  lemma PduCodes(apdu: bytes)
    ensures PduTree(apdu).Bad? ==> PduTree(apdu).code in {-3, -4, -5, -6, -7, -11}
    ensures PduTree(apdu) == Bad(-11) <==> IsBadPdu(apdu)
  {
    hide TlvAt, AsdusTree, IsLength, IsBadPduTree;
    if PduTree(apdu).Bad? {
      CodeRange(apdu);
    }
    if PduTree(apdu) == Bad(-11) {
      var b := BadPduSound(apdu);
    }
    if b :| IsBadPduTree(b) && FieldBytes(BadPduField(b)) <= apdu {
      BadPduComplete(apdu, b);
    }
  }

  lemma CodeRange(apdu: bytes)
    requires PduTree(apdu).Bad?
    ensures PduTree(apdu).code in {-3, -4, -5, -6, -7, -11}
  {
    hide TlvAt, AsdusTree;
    var t := TlvAt(apdu);
    if t.Tlv? && TlvAt(t.field.value).Tlv? && TlvAt(TlvAt(t.field.value).rest).Tlv? {
      var q := TlvAt(TlvAt(t.field.value).rest);
      if AsdusTree(q.field.value, None).Bad? {
        AsdusCodes(q.field.value, None);
      }
    }
  }

  lemma BadPduComplete(apdu: bytes, b: BadPdu)
    requires IsBadPduTree(b) && FieldBytes(BadPduField(b)) <= apdu
    ensures PduTree(apdu) == Bad(-11)
  {
    hide TlvAt, AsdusTree, IsLength, HasBadAsdus, AreBadAsdus;
    var q := Field(0xA2, b.seqLen, b.body);
    PrefixTlv(apdu, BadPduField(b));
    TlvExact(BadPduField(b).value, b.noAsdu, FieldBytes(q));
    PrefixTlv(FieldBytes(q), q);
    assert exists x :: AreBadAsdus(x, None) && BadAsdusBytes(x) == b.body by { AsdusWitness(b.body); }
    var x :| AreBadAsdus(x, None) && BadAsdusBytes(x) == b.body;
    BadAsdusComplete(x, None);
  }

  lemma AsdusWitness(v: bytes)
    requires HasBadAsdus(v, None)
    ensures exists x :: AreBadAsdus(x, None) && BadAsdusBytes(x) == v
  {
  }

  lemma BadPduSound(apdu: bytes) returns (b: BadPdu)
    requires PduTree(apdu) == Bad(-11)
    ensures IsBadPduTree(b) && FieldBytes(BadPduField(b)) <= apdu
  {
    hide TlvAt, AsdusTree, IsLength, AreBadAsdus;
    var t := TlvAt(apdu);
    TlvExact(apdu, t.field, t.rest);
    var n := TlvAt(t.field.value);
    TlvExact(t.field.value, n.field, n.rest);
    var q := TlvAt(n.rest);
    TlvExact(n.rest, q.field, q.rest);
    var x := BadAsdusSound(q.field.value, None);
    b := BadPdu(t.field.len, n.field, q.field.len, q.field.value);
    assert FieldBytes(q.field) + [] == FieldBytes(q.field);
    assert BadPduField(b) == t.field;
  }
}
