/**
 What the receiver reads from an amended GOOSE APDU.  The generator overwrites bytes at fixed places of
 a skeleton; when those places are the values of a GOOSE PDU, the result is accepted by both walks and
 says what was written.
 */
module GooseAmended {
  import opened Bytes
  import opened GooseWalk
  import opened Writes
  import opened TlvEdit
  import opened RGenerators
  import RFrame
  import Tlv = SvApdu

  // ---------------------------------------------------------------- flat APDUs

  /** An item that the walk takes a value from. */
  ghost predicate IsPiece(f: Tlv.Field)
  {
    && IsLength(f.len, |f.value|) && f.value != []
    && f.tag != 0x30 && f.tag != 0x31 && f.tag != 0xA0 && f.tag != 0xA1
    && (f.tag == 0xAB ==> AllData(f.value, 0).Forest?)
  }

  ghost predicate ArePieces(fs: seq<Tlv.Field>)
  {
    forall i :: 0 <= i < |fs| ==> IsPiece(fs[i])
  }

  function ToVisits(fs: seq<Tlv.Field>): (vs: seq<Visit>)
  {
    if fs == [] then [] else [Visit(fs[0].tag, fs[0].value)] + ToVisits(fs[1..])
  }

  lemma PieceItem(f: Tlv.Field, rest: bytes)
    requires IsPiece(f)
    ensures var v := Tlv.FieldBytes(f) + rest;
            && v != [] && |v| > 1 && ItemAt(v) == Item(f.tag, f.len, f.value, rest)
            && Advance(v) == Some(rest) && !SkipEndsOnTag(v)
  {
    var v := Tlv.FieldBytes(f) + rest;
    assert v == [f.tag] + f.len + f.value + rest;
    ItemExact(v, f.tag, f.len, f.value, rest);
  }

  /** Such items are walked one by one, and no tag is left over. */
  lemma {:induction false} PiecesWalk(fs: seq<Tlv.Field>)
    requires ArePieces(fs)
    ensures var v := Tlv.FieldsBytes(fs);
            IsWalkable(v) && Visits(v) == ToVisits(fs) && !EndsOnTag(v)
  {
    hide ItemAt, Advance, SkipEndsOnTag, IsPiece, Tlv.FieldBytes;
    if fs != [] {
      PieceItem(fs[0], Tlv.FieldsBytes(fs[1..]));
      PiecesWalk(fs[1..]);
      assert fs[0].value != [] && fs[0].tag != 0x30 && fs[0].tag != 0x31 && fs[0].tag != 0xA0 && fs[0].tag != 0xA1 by {
        PieceFacts(fs[0]);
      }
    }
  }

  lemma PieceFacts(f: Tlv.Field)
    requires IsPiece(f)
    ensures f.value != [] && f.tag != 0x30 && f.tag != 0x31 && f.tag != 0xA0 && f.tag != 0xA1
  {
  }

  ghost predicate DistinctTags(fs: seq<Tlv.Field>)
  {
    forall i, j :: 0 <= i < j < |fs| ==> fs[i].tag != fs[j].tag
  }

  /** With distinct tags the last item with a tag is the only one. */
  lemma {:induction false} LastIsAt(fs: seq<Tlv.Field>, i: nat)
    requires DistinctTags(fs) && i < |fs|
    ensures Last(ToVisits(fs), fs[i].tag) == Some(fs[i].value)
  {
    var more := fs[1..];
    LastCons(Visit(fs[0].tag, fs[0].value), ToVisits(more), fs[i].tag);
    assert forall k :: 0 <= k < |more| ==> more[k] == fs[k + 1];
    if i > 0 {
      LastIsAt(more, i - 1);
    } else {
      LastIsNone(more, fs[0].tag);
    }
  }

  lemma {:induction false} LastIsNone(fs: seq<Tlv.Field>, tag: byte)
    requires forall i :: 0 <= i < |fs| ==> fs[i].tag != tag
    ensures Last(ToVisits(fs), tag) == None
  {
    if fs != [] {
      LastCons(Visit(fs[0].tag, fs[0].value), ToVisits(fs[1..]), tag);
      LastIsNone(fs[1..], tag);
    }
  }

  // ---------------------------------------------------------------- one byte of the data set

  /** `pos` lies in the value of a primitive entry. */
  ghost predicate LeafAt(d: Data, pos: nat)
  {
    match d
    case End => false
    case Value(tag, len, value, next) =>
      var h := 1 + |len|;
      h <= pos < h + |value| || (pos >= h + |value| && LeafAt(next, pos - h - |value|))
    case Nested(tag, len, inner, next) =>
      var h, n := 1 + |len|, |DataBytes(inner)|;
      (h <= pos < h + n && LeafAt(inner, pos - h)) || (pos >= h + n && LeafAt(next, pos - h - n))
  }

  ghost function SetLeaf(d: Data, pos: nat, b: byte): (r: Data)
    requires LeafAt(d, pos)
    ensures Entries(r) == Entries(d)
  {
    match d
    case Value(tag, len, value, next) =>
      var h := 1 + |len|;
      if pos < h + |value| then Value(tag, len, value[pos - h := b], next)
      else Value(tag, len, value, SetLeaf(next, pos - h - |value|, b))
    case Nested(tag, len, inner, next) =>
      var h, n := 1 + |len|, |DataBytes(inner)|;
      if pos < h + n then Nested(tag, len, SetLeaf(inner, pos - h, b), next)
      else Nested(tag, len, inner, SetLeaf(next, pos - h - n, b))
  }

  lemma {:induction false} SetLeafBytes(d: Data, pos: nat, b: byte)
    requires LeafAt(d, pos)
    ensures pos < |DataBytes(d)| && DataBytes(SetLeaf(d, pos, b)) == Overlay(DataBytes(d), pos, [b])
    decreases d, 1
  {
    hide Overlay, SetLeaf, DataBytes;
    if d.Value? {
      SetInValue(d, pos, b);
    } else {
      SetInNested(d, pos, b);
    }
  }

  lemma {:induction false} SetInValue(d: Data, pos: nat, b: byte)
    requires LeafAt(d, pos) && d.Value?
    ensures pos < |DataBytes(d)| && DataBytes(SetLeaf(d, pos, b)) == Overlay(DataBytes(d), pos, [b])
    decreases d, 0
  {
    hide Overlay;
    var Value(tag, len, value, next) := d;
    var h := 1 + |len|;
    if pos < h + |value| {
      InFirst([tag] + len, value, DataBytes(next), pos - h, b);
    } else {
      SetLeafBytes(next, pos - h - |value|, b);
      InSecond([tag] + len + value, DataBytes(next), pos - h - |value|, b);
    }
  }

  lemma {:induction false} SetInNested(d: Data, pos: nat, b: byte)
    requires LeafAt(d, pos) && d.Nested?
    ensures pos < |DataBytes(d)| && DataBytes(SetLeaf(d, pos, b)) == Overlay(DataBytes(d), pos, [b])
    decreases d, 0
  {
    hide Overlay;
    var Nested(tag, len, inner, next) := d;
    var h, n := 1 + |len|, |DataBytes(inner)|;
    if pos < h + n {
      SetLeafBytes(inner, pos - h, b);
      InFirst([tag] + len, DataBytes(inner), DataBytes(next), pos - h, b);
    } else {
      SetLeafBytes(next, pos - h - n, b);
      InSecond([tag] + len + DataBytes(inner), DataBytes(next), pos - h - n, b);
    }
  }

  lemma InFirst(before: bytes, part: bytes, after: bytes, at: nat, b: byte)
    requires at < |part|
    ensures Overlay(part, at, [b]) == part[at := b]
    ensures Overlay(before + part + after, |before| + at, [b]) == before + Overlay(part, at, [b]) + after
  {
    RFrame.OverlayInside(before, part, after, at, [b]);
  }

  lemma InSecond(before: bytes, part: bytes, at: nat, b: byte)
    requires at < |part|
    ensures Overlay(before + part, |before| + at, [b]) == before + Overlay(part, at, [b])
  {
    RFrame.OverlayInside(before, part, [], at, [b]);
    assert before + part + [] == before + part;
  }

  lemma {:induction false} SetLeafLegal(d: Data, pos: nat, b: byte, levels: nat)
    requires LeafAt(d, pos) && IsData(d, levels)
    ensures IsData(SetLeaf(d, pos, b), levels)
    decreases d
  {
    match d
    case Value(tag, len, value, next) =>
      var h := 1 + |len|;
      if pos >= h + |value| {
        SetLeafLegal(next, pos - h - |value|, b, levels);
      }
    case Nested(tag, len, inner, next) =>
      var h, n := 1 + |len|, |DataBytes(inner)|;
      if pos < h + n {
        SetLeafLegal(inner, pos - h, b, levels - 1);
        SetLeafBytes(inner, pos - h, b);
      } else {
        SetLeafLegal(next, pos - h - n, b, levels);
      }
  }

  /** Overwriting such a byte leaves a data set with as many entries. */
  lemma DataSet(value: bytes, pos: nat, b: byte)
    requires AllData(value, 0).Forest? && LeafAt(AllData(value, 0).data, pos)
    ensures pos < |value| && AllData(Overlay(value, pos, [b]), 0).Forest?
    ensures Entries(AllData(Overlay(value, pos, [b]), 0).data) == Entries(AllData(value, 0).data)
  {
    hide AllData, LeafAt, SetLeaf, DataBytes, IsData;
    var d := AllData(value, 0).data;
    AllDataExact(value, d);
    SetLeafBytes(d, pos, b);
    SetLeafLegal(d, pos, b, MAX_DEPTH);
    AllDataExact(Overlay(value, pos, [b]), SetLeaf(d, pos, b));
  }

  // ---------------------------------------------------------------- the skeleton and its amendment

  /** A GOOSE PDU: length octets and items. */
  datatype Skeleton = Skeleton(len: bytes, items: seq<Tlv.Field>)

  function ApduOf(k: Skeleton): (apdu: bytes)
  {
    [0x61] + k.len + Tlv.FieldsBytes(k.items)
  }

  /** The value with this tag, and where it starts in the APDU. */
  ghost function ValueWith(k: Skeleton, tag: byte): (v: bytes)
    requires Tlv.Present(k.items, tag)
  {
    k.items[IndexOf(k.items, tag)].value
  }

  ghost function Place(k: Skeleton, tag: byte): (at: nat)
    requires Tlv.Present(k.items, tag)
  {
    1 + |k.len| + ValueAt(k.items, IndexOf(k.items, tag))
  }

  /** Items with distinct tags, among them all that the generator writes, with room for what it writes. */
  ghost predicate IsSkeleton(k: Skeleton)
  {
    && IsLength(k.len, |Tlv.FieldsBytes(k.items)|) && ArePieces(k.items) && DistinctTags(k.items) && IsGoose(ApduOf(k))
    && Tlv.Present(k.items, 0x83) && |ValueWith(k, 0x83)| >= 12
    && Tlv.Present(k.items, 0x80) && |ValueWith(k, 0x80)| >= 11
    && Tlv.Present(k.items, 0x82) && |ValueWith(k, 0x82)| >= 11
    && Tlv.Present(k.items, 0x84) && |ValueWith(k, 0x84)| == 8
    && Tlv.Present(k.items, 0x85) && |ValueWith(k, 0x85)| == 4
    && Tlv.Present(k.items, 0x86) && |ValueWith(k, 0x86)| == 4
    && Tlv.Present(k.items, 0xAB)
  }

  /** The generator's offsets are those of the values; the last one is a byte of a primitive data set entry. */
  ghost predicate Located(k: Skeleton, o: GooseOffsets)
    requires IsSkeleton(k)
  {
    && o.goid == Place(k, 0x83) && o.gocb == Place(k, 0x80) && o.ds == Place(k, 0x82) && o.ts == Place(k, 0x84)
    && o.st == Place(k, 0x85) && o.sq == Place(k, 0x86)
    && AllData(ValueWith(k, 0xAB), 0).Forest?
    && o.d1 >= Place(k, 0xAB) && LeafAt(AllData(ValueWith(k, 0xAB), 0).data, o.d1 - Place(k, 0xAB))
  }

  ghost function Edits(k: Skeleton, o: GooseOffsets, ied: GooseIed): (es: seq<Edit>)
    requires IsSkeleton(k) && Located(k, o)
    ensures |es| == 7
  {
    [Edit(IndexOf(k.items, 0x83), 4, ied.sId), Edit(IndexOf(k.items, 0x80), 3, ied.sId), Edit(IndexOf(k.items, 0x82), 3, ied.sId),
     Edit(IndexOf(k.items, 0x84), 0, Le64(ied.timestamp)), Edit(IndexOf(k.items, 0x85), 0, Be32(ied.stNum)),
     Edit(IndexOf(k.items, 0x86), 0, Be32(ied.sqNum)),
     Edit(IndexOf(k.items, 0xAB), o.d1 - Place(k, 0xAB), [if ied.stNum % 2 == 0 then 1 else 0])]
  }

  lemma EditsFit(k: Skeleton, o: GooseOffsets, ied: GooseIed)
    requires IsSkeleton(k) && Located(k, o) && |ied.sId| == 8
    ensures Fit(k.items, Edits(k, o, ied))
    ensures forall i, j :: 0 <= i < 7 && 0 <= j < 7 && i != j ==> Edits(k, o, ied)[i].field != Edits(k, o, ied)[j].field
    ensures GooseWrites(o, ied) == Shift(Stores(k.items, Edits(k, o, ied)), 1 + |k.len|)
  {
    hide IsSkeleton, Located, Edits, GooseWrites, Stores;
    EditsInside(k, o, ied);
    EditsApart(k, o, ied);
    EditsStored(k, o, ied);
  }

  lemma EditsInside(k: Skeleton, o: GooseOffsets, ied: GooseIed)
    requires IsSkeleton(k) && Located(k, o) && |ied.sId| == 8
    ensures Fit(k.items, Edits(k, o, ied))
  {
    hide IsGoose, ArePieces, IsLength, AllData, Tlv.FieldsBytes, Be32, Le64, ValueAt, LeafAt, DistinctTags;
    DataSet(ValueWith(k, 0xAB), o.d1 - Place(k, 0xAB), 0);
  }

  lemma EditsApart(k: Skeleton, o: GooseOffsets, ied: GooseIed)
    requires IsSkeleton(k) && Located(k, o)
    ensures forall i, j :: 0 <= i < 7 && 0 <= j < 7 && i != j ==> Edits(k, o, ied)[i].field != Edits(k, o, ied)[j].field
  {
    hide IsGoose, ArePieces, IsLength, AllData, Tlv.FieldsBytes, Be32, Le64, ValueAt, LeafAt, DistinctTags;
    var es, tags := Edits(k, o, ied), [0x83, 0x80, 0x82, 0x84, 0x85, 0x86, 0xAB];
    assert forall i :: 0 <= i < 7 ==> k.items[es[i].field].tag == tags[i];
  }

  lemma EditsStored(k: Skeleton, o: GooseOffsets, ied: GooseIed)
    requires IsSkeleton(k) && Located(k, o) && Fit(k.items, Edits(k, o, ied))
    ensures GooseWrites(o, ied) == Shift(Stores(k.items, Edits(k, o, ied)), 1 + |k.len|)
  {
    hide IsSkeleton, AllData, Be32, Le64, ValueAt, LeafAt;
  }

  ghost function AmendedItems(k: Skeleton, o: GooseOffsets, ied: GooseIed): (gs: seq<Tlv.Field>)
    requires IsSkeleton(k) && Located(k, o) && |ied.sId| == 8
    ensures SameSizes(k.items, gs)
  {
    EditsFit(k, o, ied);
    Edited(k.items, Edits(k, o, ied))
  }

  /** The generator's stores on the skeleton give the amended items. */
  lemma StoresAreItems(k: Skeleton, o: GooseOffsets, ied: GooseIed)
    requires IsSkeleton(k) && Located(k, o) && |ied.sId| == 8
    ensures InRange(GooseWrites(o, ied), |ApduOf(k)|)
    ensures Apply(ApduOf(k), GooseWrites(o, ied)) == ApduOf(k.(items := AmendedItems(k, o, ied)))
  {
    hide IsSkeleton, Located, Edits, Tlv.FieldsBytes, GooseWrites, Edited, Apply, Stores, InRange;
    var es, head, body := Edits(k, o, ied), [0x61] + k.len, Tlv.FieldsBytes(k.items);
    EditsFit(k, o, ied);
    EditsAreStores(k.items, es);
    ApplyPart(head, body, [], Stores(k.items, es));
    assert ApduOf(k) == head + body + [];
    assert ApduOf(k.(items := AmendedItems(k, o, ied))) == head + Tlv.FieldsBytes(Edited(k.items, es)) + [];
  }

  /** An item that the generator writes holds what was written. */
  lemma HoldsEdit(k: Skeleton, o: GooseOffsets, ied: GooseIed, j: nat)
    requires IsSkeleton(k) && Located(k, o) && |ied.sId| == 8 && j < 7
    ensures Fit(k.items, Edits(k, o, ied))
    ensures var e := Edits(k, o, ied)[j];
            AmendedItems(k, o, ied)[e.field].value == Overlay(k.items[e.field].value, e.off, e.data)
  {
    hide IsSkeleton, Located, Edited, Edits, GooseWrites, Stores;
    EditsFit(k, o, ied);
    EditedAt(k.items, Edits(k, o, ied), j);
  }

  const WRITTEN: set<int> := {0x83, 0x80, 0x82, 0x84, 0x85, 0x86, 0xAB}

  /** Every other item stays. */
  lemma HoldsElse(k: Skeleton, o: GooseOffsets, ied: GooseIed, i: nat)
    requires IsSkeleton(k) && Located(k, o) && |ied.sId| == 8 && i < |k.items| && k.items[i].tag !in WRITTEN
    ensures AmendedItems(k, o, ied)[i] == k.items[i]
  {
    hide IsSkeleton, Located, Edited, GooseWrites, Stores;
    EditsFit(k, o, ied);
    EditedElse(k.items, Edits(k, o, ied), i);
  }

  /** The data set keeps its entries. */
  lemma HoldsData(k: Skeleton, o: GooseOffsets, ied: GooseIed)
    requires IsSkeleton(k) && Located(k, o) && |ied.sId| == 8
    ensures var v, w := ValueWith(k, 0xAB), AmendedItems(k, o, ied)[IndexOf(k.items, 0xAB)].value;
            AllData(w, 0).Forest? && Entries(AllData(w, 0).data) == Entries(AllData(v, 0).data)
  {
    hide IsSkeleton, AmendedItems, AllData, LeafAt, Fit;
    HoldsEdit(k, o, ied, 6);
    DataSet(ValueWith(k, 0xAB), o.d1 - Place(k, 0xAB), if ied.stNum % 2 == 0 then 1 else 0);
  }

  /** The amended items are items again, with distinct tags. */
  lemma AmendedPieces(k: Skeleton, o: GooseOffsets, ied: GooseIed)
    requires IsSkeleton(k) && Located(k, o) && |ied.sId| == 8
    ensures ArePieces(AmendedItems(k, o, ied)) && DistinctTags(AmendedItems(k, o, ied))
  {
    hide Located, AmendedItems, AllData, IsLength, IsGoose;
    var fs, gs := k.items, AmendedItems(k, o, ied);
    HoldsData(k, o, ied);
    forall i | 0 <= i < |gs| ensures IsPiece(gs[i]) {
      assert IsPiece(fs[i]);
      if gs[i].tag == 0xAB {
        assert i == IndexOf(fs, 0xAB);
      }
    }
  }

  /** The walk of a flat APDU. */
  lemma FlatVisits(k: Skeleton)
    requires IsLength(k.len, |Tlv.FieldsBytes(k.items)|) && ArePieces(k.items)
    ensures var apdu := ApduOf(k);
            && |apdu| >= 2 && apdu[0] == 0x61 && LengthAt(apdu[1..]).Length?
            && ApduItems(apdu) == Tlv.FieldsBytes(k.items) && ApduVisits(apdu) == ToVisits(k.items)
            && IsWalkable(ApduItems(apdu)) && !ApduEndsOnTag(apdu)
  {
    hide Visits, IsWalkable, EndsOnTag, Tlv.FieldsBytes, ArePieces;
    var apdu, body := ApduOf(k), Tlv.FieldsBytes(k.items);
    assert apdu[1..] == k.len + body && k.len <= apdu[1..];
    LengthExact(apdu[1..], k.len, |body|);
    assert apdu[1 + |k.len|..] == body;
    PiecesWalk(k.items);
  }

  /** A tag that the generator does not write keeps its value, or its absence. */
  lemma SameElse(k: Skeleton, o: GooseOffsets, ied: GooseIed, tag: byte)
    requires IsSkeleton(k) && Located(k, o) && |ied.sId| == 8 && tag !in WRITTEN
    ensures Last(ToVisits(AmendedItems(k, o, ied)), tag) == Last(ToVisits(k.items), tag)
  {
    hide Located, AmendedItems, IsGoose, IsLength, Last, ToVisits;
    var fs, gs := k.items, AmendedItems(k, o, ied);
    AmendedPieces(k, o, ied);
    if i :| 0 <= i < |fs| && fs[i].tag == tag {
      HoldsElse(k, o, ied, i);
      LastIsAt(fs, i);
      LastIsAt(gs, i);
    } else {
      LastIsNone(fs, tag);
      LastIsNone(gs, tag);
    }
  }

  lemma LastWritten(k: Skeleton, o: GooseOffsets, ied: GooseIed, j: nat)
    requires IsSkeleton(k) && Located(k, o) && |ied.sId| == 8 && j < 7
    ensures Fit(k.items, Edits(k, o, ied))
    ensures var e := Edits(k, o, ied)[j];
            var tag := k.items[e.field].tag;
            && Last(ToVisits(AmendedItems(k, o, ied)), tag) == Some(Overlay(k.items[e.field].value, e.off, e.data))
            && Last(ToVisits(k.items), tag) == Some(k.items[e.field].value)
  {
    hide Located, AmendedItems, IsGoose, IsLength, Last, ToVisits, Edits;
    HoldsEdit(k, o, ied, j);
    AmendedPieces(k, o, ied);
    LastIsAt(k.items, Edits(k, o, ied)[j].field);
    LastIsAt(AmendedItems(k, o, ied), Edits(k, o, ied)[j].field);
  }

  /** The amended APDU is a GOOSE APDU. */
  lemma AmendedIsGoose(k: Skeleton, o: GooseOffsets, ied: GooseIed)
    requires IsSkeleton(k) && Located(k, o) && |ied.sId| == 8
    ensures IsGoose(ApduOf(k.(items := AmendedItems(k, o, ied)))) && !ApduEndsOnTag(ApduOf(k.(items := AmendedItems(k, o, ied))))
  {
    hide AmendedItems, AllData, IsLength, Last, ToVisits, ApduVisits, ApduItems, IsWalkable, Tlv.FieldsBytes, ApduEndsOnTag,
         Number, LeafAt, Fit, ApduOf, Place;
    var q := k.(items := AmendedItems(k, o, ied));
    SameSizesSame(k.items, q.items);
    AmendedPieces(k, o, ied);
    FlatVisits(k);
    FlatVisits(q);
    LastWritten(k, o, ied, 0);
    LastWritten(k, o, ied, 1);
    LastWritten(k, o, ied, 2);
    SameElse(k, o, ied, 0x8A);
    SameEntries(k, o, ied, NumberOr(Last(ApduVisits(ApduOf(k)), 0x8A), 0) % U16);
  }

  lemma SameEntries(k: Skeleton, o: GooseOffsets, ied: GooseIed, n: u32)
    requires IsSkeleton(k) && Located(k, o) && |ied.sId| == 8 && EntriesOf(ToVisits(k.items), n)
    ensures EntriesOf(ToVisits(AmendedItems(k, o, ied)), n)
  {
    hide AmendedItems, AllData, IsLength, Last, ToVisits, IsGoose, IsData, DataBytes, Entries, LeafAt, Fit, Tlv.FieldsBytes, Place;
    LastWritten(k, o, ied, 6);
    HoldsEdit(k, o, ied, 6);
    HoldsData(k, o, ied);
    var v, w := ValueWith(k, 0xAB), AmendedItems(k, o, ied)[IndexOf(k.items, 0xAB)].value;
    AllDataExact(w, AllData(w, 0).data);
    var d :| IsData(d, MAX_DEPTH) && DataBytes(d) == v && n == Entries(d) % U32;
    AllDataExact(v, d);
  }

  /**
   What the receiver reads.  For every skeleton and every stream state, the APDU that the generator sends
   is accepted by both walks wherever it lies and whatever follows it, with the stream's own stNum and
   sqNum and its ID digits in the three names; revision and entry count are the skeleton's.
   */
  lemma AmendedGooseReads(k: Skeleton, o: GooseOffsets, ied: GooseIed, base: nat)
    requires IsSkeleton(k) && Located(k, o) && |ied.sId| == 8
    ensures InRange(GooseWrites(o, ied), |ApduOf(k)|)
    ensures var apdu := Apply(ApduOf(k), GooseWrites(o, ied));
            var was, now := WalkApdu(ApduOf(k), base), WalkApdu(apdu, base);
            && now.Done? && now.code == 0 && was.Done? && was.code == 0 && !ApduEndsOnTag(apdu)
            && now.goose.numbers.stNum == ied.stNum && now.goose.numbers.sqNum == ied.sqNum
            && now.goose.numbers.crev == was.goose.numbers.crev && now.goose.numbers.num == was.goose.numbers.num
            && now.goose.names == Names(Some(Overlay(ValueWith(k, 0x80), 3, ied.sId)),
                                        Some(Overlay(ValueWith(k, 0x82), 3, ied.sId)),
                                        Some(Overlay(ValueWith(k, 0x83), 4, ied.sId)))
  {
    hide AmendedItems, AllData, IsLength, Last, ToVisits, ApduItems, IsWalkable, Tlv.FieldsBytes, ApduEndsOnTag,
         Number, LeafAt, Fit, ApduOf, Place, WalkApdu, IsGoose, GooseWrites, ApduVisits, Be32;
    var q := k.(items := AmendedItems(k, o, ied));
    StoresAreItems(k, o, ied);
    AmendedIsGoose(k, o, ied);
    AcceptedGoose(ApduOf(k), base);
    AcceptedGoose(ApduOf(q), base);
    SameSizesSame(k.items, q.items);
    AmendedPieces(k, o, ied);
    FlatVisits(k);
    FlatVisits(q);
    LastWritten(k, o, ied, 0);
    LastWritten(k, o, ied, 1);
    LastWritten(k, o, ied, 2);
    LastWritten(k, o, ied, 4);
    LastWritten(k, o, ied, 5);
    assert Overlay(ValueWith(k, 0x85), 0, Be32(ied.stNum)) == Be32(ied.stNum);
    assert Overlay(ValueWith(k, 0x86), 0, Be32(ied.sqNum)) == Be32(ied.sqNum);
    NumberOfBe32(ied.stNum);
    NumberOfBe32(ied.sqNum);
    SameElse(k, o, ied, 0x88);
    SameElse(k, o, ied, 0x8A);
  }

  // ---------------------------------------------------------------- such skeletons exist

  const SMALL: Skeleton := Skeleton(
    [70],
    [Tlv.Field(0x80, [11], Zeros(11)), Tlv.Field(0x82, [11], Zeros(11)), Tlv.Field(0x83, [12], Zeros(12)),
     Tlv.Field(0x84, [8], Zeros(8)), Tlv.Field(0x85, [4], Zeros(4)), Tlv.Field(0x86, [4], Zeros(4)),
     Tlv.Field(0x8A, [1], [1]), Tlv.Field(0xAB, [3], [0x83, 1, 0])])

  lemma SmallData()
    ensures AllData([0x83, 1, 0], 0) == Forest(Value(0x83, [1], [0], End))
  {
    var d := Value(0x83, [1], [0], End);
    assert DataBytes(d) == [0x83] + [1] + [0] + [] == [0x83, 1, 0];
    AllDataExact([0x83, 1, 0], d);
  }

  lemma {:induction false} SizeIs(fs: seq<Tlv.Field>, n: nat)
    requires fs != [] && |Tlv.FieldsBytes(fs[1..])| == n
    ensures |Tlv.FieldsBytes(fs)| == 1 + |fs[0].len| + |fs[0].value| + n
  {
  }

  lemma SmallSize()
    ensures |Tlv.FieldsBytes(SMALL.items)| == 70
  {
    hide Tlv.FieldsBytes;
    var s := SMALL.items;
    assert Tlv.FieldsBytes(s[8..]) == [] by { NoFields(s[8..]); }
    SizeIs(s[7..], 0);
    assert s[7..][1..] == s[8..] && s[6..][1..] == s[7..] && s[5..][1..] == s[6..] && s[4..][1..] == s[5..];
    SizeIs(s[6..], 5);
    SizeIs(s[5..], 8);
    SizeIs(s[4..], 14);
    assert s[3..][1..] == s[4..] && s[2..][1..] == s[3..] && s[1..][1..] == s[2..] && s[0..] == s;
    SizeIs(s[3..], 20);
    SizeIs(s[2..], 30);
    SizeIs(s[1..], 44);
    SizeIs(s, 57);
  }

  lemma NoFields(fs: seq<Tlv.Field>)
    requires fs == []
    ensures Tlv.FieldsBytes(fs) == []
  {
  }

  lemma SmallItems()
    ensures ArePieces(SMALL.items) && DistinctTags(SMALL.items) && IsLength(SMALL.len, |Tlv.FieldsBytes(SMALL.items)|)
  {
    hide Tlv.FieldsBytes, AllData;
    SmallData();
    SmallSize();
  }

  lemma SmallIsGoose()
    ensures IsGoose(ApduOf(SMALL))
  {
    hide Tlv.FieldsBytes, ApduOf, ApduVisits, ApduItems, IsWalkable, ToVisits, Last, EntriesOf, ArePieces, IsLength, DistinctTags;
    var k := SMALL;
    SmallItems();
    FlatVisits(k);
    assert k.items[0].tag == 0x80 && k.items[1].tag == 0x82 && k.items[2].tag == 0x83;
    LastIsAt(k.items, 0);
    LastIsAt(k.items, 1);
    LastIsAt(k.items, 2);
    SmallEntries();
  }

  lemma SmallTags()
    ensures var s := SMALL.items;
            && |s| == 8 && s[0].tag == 0x80 && s[1].tag == 0x82 && s[2].tag == 0x83 && s[3].tag == 0x84 && s[4].tag == 0x85
            && s[5].tag == 0x86 && s[6].tag == 0x8A && s[7] == Tlv.Field(0xAB, [3], [0x83, 1, 0])
            && |s[0].value| == 11 && |s[1].value| == 11 && |s[2].value| == 12 && |s[3].value| == 8
            && |s[4].value| == 4 && |s[5].value| == 4
  {
  }

  lemma SmallSkeleton()
    ensures IsSkeleton(SMALL) && IndexOf(SMALL.items, 0xAB) == 7
  {
    hide Tlv.FieldsBytes, IsGoose, ArePieces, DistinctTags, IsLength, ApduOf;
    SmallItems();
    SmallIsGoose();
    SmallTags();
    SmallIndex(0);
    SmallIndex(1);
    SmallIndex(2);
    SmallIndex(3);
    SmallIndex(4);
    SmallIndex(5);
    SmallIndex(7);
  }

  /** The requirements on a skeleton and its offsets can be met. */
  lemma SkeletonsExist() returns (o: GooseOffsets)
    ensures IsSkeleton(SMALL) && Located(SMALL, o)
  {
    hide IsSkeleton, AllData, LeafAt, ValueAt;
    var k := SMALL;
    SmallSkeleton();
    SmallTags();
    Sized(k);
    o := GooseOffsets(Place(k, 0x83), Place(k, 0x80), Place(k, 0x82), Place(k, 0x84), Place(k, 0x85), Place(k, 0x86),
                      Place(k, 0xAB) + 2);
    SmallData();
    SmallLeaf();
  }

  lemma Sized(k: Skeleton)
    requires IsSkeleton(k)
    ensures Tlv.Present(k.items, 0x83) && Tlv.Present(k.items, 0x80) && Tlv.Present(k.items, 0x82)
    ensures Tlv.Present(k.items, 0x84) && Tlv.Present(k.items, 0x85) && Tlv.Present(k.items, 0x86) && Tlv.Present(k.items, 0xAB)
  {
  }

  lemma SmallLeaf()
    ensures LeafAt(Value(0x83, [1], [0], End), 2)
  {
  }

  lemma SmallIndex(i: nat)
    requires i < 8
    ensures Tlv.Present(SMALL.items, SMALL.items[i].tag) && IndexOf(SMALL.items, SMALL.items[i].tag) == i
  {
    assert DistinctTags(SMALL.items);
  }

  lemma SmallEntries()
    ensures EntriesOf(ToVisits(SMALL.items), NumberOr(Last(ToVisits(SMALL.items), 0x8A), 0) % U16)
  {
    hide ToVisits, Last, AllData;
    assert SMALL.items[6].tag == 0x8A && SMALL.items[7].tag == 0xAB && DistinctTags(SMALL.items);
    LastIsAt(SMALL.items, 6);
    LastIsAt(SMALL.items, 7);
    SmallData();
    var d := Value(0x83, [1], [0], End);
    AllDataExact([0x83, 1, 0], d);
    assert Entries(d) == 1;
    assert Number([1]) == 1 by { assert [1][..0] == []; }
  }
}
