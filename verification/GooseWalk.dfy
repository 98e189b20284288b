/**
 The two copies of the GOOSE walk: over an L2 frame, and over the APDU of a routable frame.

 Their length decoder has no end bound, so the memory is a frame followed by slack bytes.
 Both walks are proved to compute one function of the APDU alone: neither the frame offset
 nor the slack matters.  Length fields of four or more octets overflow the decoder's signed
 int; they are reported as OutOfDomain.
 */
module GooseWalk {
  import opened Bytes

  const MAX_DEPTH: int := 8

  // ---------------------------------------------------------------- lengths

  datatype Length = Short | Wide | Length(size: nat, value: nat)

  /** The length field at the start of `v`: `Short` if it runs past the end of `v`. */
  function LengthAt(v: bytes): (r: Length)
    ensures r.Length? ==> 1 <= r.size <= |v|
  {
    if v == [] then Length.Short
    else if v[0] < 0x80 then Length(1, v[0])
    else
      var octets := v[0] - 0x80;
      if octets > 3 then Length.Wide
      else if octets > |v| - 1 then Length.Short
      else Length(1 + octets, BeNat(v[1..1 + octets]))
  }

  /** `octets` is a length field of at most three further octets that denotes `n`; 0x80 denotes 0. */
  predicate IsLength(octets: bytes, n: nat)
  {
    || (|octets| == 1 && octets[0] < 0x80 && n == octets[0])
    || (1 <= |octets| <= 4 && octets[0] == 0x80 + |octets| - 1 && n == BeNat(octets[1..]))
  }

  lemma LengthExact(v: bytes, octets: bytes, n: nat)
    requires octets <= v
    ensures IsLength(octets, n) <==> LengthAt(v) == Length(|octets|, n)
  {
    if octets != [] {
      assert octets[1..] == v[1..|octets|];
    }
  }

  /** decode_asn1_len: reads on past `end`, so the memory must reach four bytes beyond the tag. */
  method DecodeLength(memory: bytes, ghost end: nat, at: nat) returns (wide: bool, pos: nat, length: nat)
    requires at <= end && end + 4 <= |memory|
    ensures at < end ==> (wide <==> LengthAt(memory[at..end]).Wide?)
    ensures wide <==> memory[at] > 0x83
    ensures !wide ==> at < pos && length < 0x100_0000
    ensures !wide ==> if LengthAt(memory[at..end]).Short? then pos > end
                      else pos <= end && LengthAt(memory[at..end]) == Length(pos - at, length)
  {
    ghost var v := memory[at..end];
    var lenByte := memory[at];
    pos := at + 1;
    wide, length := false, 0;
    if lenByte < 0x80 {
      length := lenByte;
    } else if lenByte > 0x83 {
      wide := true;
    } else {
      var n := lenByte - 0x80;
      for i := 0 to n
        invariant pos == at + 1 + i
        invariant length == BeNat(memory[at + 1..at + 1 + i])
      {
        assert memory[at + 1..at + 2 + i] == memory[at + 1..at + 1 + i] + [memory[pos]];
        BeNatPush(memory[at + 1..at + 1 + i], memory[pos]);
        length := length * 0x100 + memory[pos];
        pos := pos + 1;
      }
      BeNatBound(memory[at + 1..pos]);
      assert Pow256(3) == 0x100_0000 && Pow256(2) == 0x1_0000 && Pow256(1) == 0x100 && Pow256(0) == 1;
      if pos <= end {
        SliceSlice(memory, at, end, 1, 1 + n);
      }
    }
  }

  datatype Item = Short | Wide | Item(tag: byte, len: bytes, value: bytes, rest: bytes)

  /** The TLV at the start of `v`: `Short` if its length or value runs past the end of `v`. */
  function ItemAt(v: bytes): (r: Item)
    requires v != []
    ensures |v| == 1 ==> r.Short?
    ensures r.Item? ==> r.tag == v[0] && |v| == 1 + |r.len| + |r.value| + |r.rest|
  {
    match LengthAt(v[1..])
    case Short => Item.Short
    case Wide => Item.Wide
    case Length(size, n) =>
      if 1 + size + n > |v| then Item.Short
      else Item(v[0], v[1..1 + size], v[1 + size..1 + size + n], v[1 + size + n..])
  }

  lemma ItemExact(v: bytes, tag: byte, len: bytes, value: bytes, rest: bytes)
    ensures v != [] && ItemAt(v) == Item(tag, len, value, rest) <==>
            IsLength(len, |value|) && v == [tag] + len + value + rest
  {
    if v == [tag] + len + value + rest {
      ConcatParts([tag], len, value, rest);
      assert v[1..][..|len|] == v[1..1 + |len|] == len;
      LengthExact(v[1..], len, |value|);
      assert v[0] == v[..1][0] == tag;
    }
    if v != [] && ItemAt(v) == Item(tag, len, value, rest) {
      assert v == [tag] + len + value + rest;
    }
  }

  /** Tag, length and value of one item; the length octets may lie beyond `end`. */
  method TakeItem(memory: bytes, end: nat, at: nat) returns (wide: bool, pos: nat, length: nat)
    requires at < end && end + 4 <= |memory|
    ensures wide ==> memory[at + 1] > 0x83
    ensures at + 1 < end ==> (wide <==> ItemAt(memory[at..end]).Wide?)
    ensures at + 1 == end ==> ItemAt(memory[at..end]).Short?
    ensures !wide ==> at + 1 < pos
    ensures !wide && ItemAt(memory[at..end]).Short? ==> pos + length > end
    ensures !wide && !ItemAt(memory[at..end]).Short? ==>
              && pos + length <= end
              && ItemAt(memory[at..end]) ==
                 Item(memory[at], memory[at + 1..pos], memory[pos..pos + length], memory[pos + length..end])
              && memory[pos..pos + length] + memory[pos + length..end] == memory[pos..end]
  {
    ghost var v := memory[at..end];
    assert v[1..] == memory[at + 1..end];
    wide, pos, length := DecodeLength(memory, end, at + 1);
    if !wide && pos + length <= end {
      SliceSlice(memory, at, end, 1, pos - at);
      SliceSlice(memory, at, end, pos - at, pos - at + length);
      assert v[pos - at + length..] == memory[pos + length..end];
    }
  }

  // ---------------------------------------------------------------- allData

  /** Entries of one level: primitive values, and arrays or structures with their own level. */
  datatype Data =
    | End
    | Value(tag: byte, len: bytes, value: bytes, next: Data)
    | Nested(tag: byte, len: bytes, inner: Data, next: Data)

  predicate Constructed(tag: byte)
  {
    tag == 0xA1 || tag == 0xA2
  }

  function DataBytes(d: Data): (s: bytes)
  {
    match d
    case End => []
    case Value(tag, len, value, next) => [tag] + len + value + DataBytes(next)
    case Nested(tag, len, inner, next) => [tag] + len + DataBytes(inner) + DataBytes(next)
  }

  /** Well-formed with at most `levels` further levels of nesting. */
  predicate IsData(d: Data, levels: nat)
    decreases d
  {
    match d
    case End => true
    case Value(tag, len, value, next) =>
      tag !in {0xA1, 0xA2} && IsLength(len, |value|) && IsData(next, levels)
    case Nested(tag, len, inner, next) =>
      && tag in {0xA1, 0xA2} && IsLength(len, |DataBytes(inner)|)
      && levels > 0 && IsData(inner, levels - 1) && IsData(next, levels)
  }

  /** Number of entries on the level itself. */
  function Entries(d: Data): (n: nat)
  {
    match d
    case End => 0
    case Value(_, _, _, next) => 1 + Entries(next)
    case Nested(_, _, _, next) => 1 + Entries(next)
  }

  datatype Forest = Malformed | TooWide | Forest(data: Data)

  /** The tree that parse_alldata walks over `v` at recursion depth `depth`. */
  function AllData(v: bytes, depth: nat): (r: Forest)
    decreases MAX_DEPTH + 1 - depth, |v|
  {
    if depth > MAX_DEPTH then Malformed
    else if v == [] then Forest(End)
    else
      match ItemAt(v)
      case Short => Malformed
      case Wide => TooWide
      case Item(tag, len, value, rest) =>
        if Constructed(tag) then
          var inner := AllData(value, depth + 1);
          if !inner.Forest? then inner
          else
            var next := AllData(rest, depth);
            if !next.Forest? then next else Forest(Nested(tag, len, inner.data, next.data))
        else
          var next := AllData(rest, depth);
          if !next.Forest? then next else Forest(Value(tag, len, value, next.data))
  }

  lemma {:induction false} AllDataComplete(d: Data, depth: nat)
    requires depth <= MAX_DEPTH && IsData(d, MAX_DEPTH - depth)
    ensures AllData(DataBytes(d), depth) == Forest(d)
    decreases d
  {
    hide ItemAt, IsLength;
    match d
    case End =>
    case Value(tag, len, value, next) =>
      ItemExact(DataBytes(d), tag, len, value, DataBytes(next));
      AllDataComplete(next, depth);
    case Nested(tag, len, inner, next) =>
      ItemExact(DataBytes(d), tag, len, DataBytes(inner), DataBytes(next));
      AllDataComplete(inner, depth + 1);
      AllDataComplete(next, depth);
  }

  lemma {:induction false} AllDataSound(v: bytes, depth: nat)
    requires AllData(v, depth).Forest?
    ensures depth <= MAX_DEPTH && IsData(AllData(v, depth).data, MAX_DEPTH - depth)
    ensures DataBytes(AllData(v, depth).data) == v
    decreases MAX_DEPTH + 1 - depth, |v|
  {
    hide ItemAt, IsLength;
    if v != [] {
      var Item(tag, len, value, rest) := ItemAt(v);
      ItemExact(v, tag, len, value, rest);
      if Constructed(tag) {
        AllDataSound(value, depth + 1);
      }
      AllDataSound(rest, depth);
    }
  }

  /** A region is accepted with tree `d` exactly when `d` is well-formed and tiles the region. */
  lemma AllDataExact(v: bytes, d: Data)
    ensures AllData(v, 0) == Forest(d) <==> IsData(d, MAX_DEPTH) && DataBytes(d) == v
  {
    hide AllData, IsData, DataBytes;
    if AllData(v, 0) == Forest(d) {
      AllDataSound(v, 0);
    }
    if IsData(d, MAX_DEPTH) && DataBytes(d) == v {
      AllDataComplete(d, 0);
    }
  }

  /** parse_alldata: number of entries, -1 when malformed. */
  method ParseAllData(memory: bytes, at: nat, end: nat, depth: nat) returns (wide: bool, num: int)
    requires at <= end && end + 4 <= |memory|
    ensures match AllData(memory[at..end], depth)
            case Malformed => !wide && num == -1
            case TooWide => wide
            case Forest(d) => !wide && num == Entries(d)
    decreases MAX_DEPTH + 1 - depth
  {
    hide ItemAt;
    wide, num := false, 0;
    if depth > MAX_DEPTH {
      return false, -1;
    }
    var pos := at;
    ghost var whole := AllData(memory[at..end], depth);
    while pos < end
      invariant at <= pos <= end && num >= 0
      invariant whole.Forest? <==> AllData(memory[pos..end], depth).Forest?
      invariant if whole.Forest? then Entries(whole.data) == num + Entries(AllData(memory[pos..end], depth).data)
                else whole == AllData(memory[pos..end], depth)
    {
      var tag := memory[pos];
      if pos + 1 >= end {
        return false, -1;
      }
      var isWide, p, itemSize := TakeItem(memory, end, pos);
      if isWide {
        return true, -1;
      }
      if p + itemSize > end {
        return false, -1;
      }
      if Constructed(tag) {
        var innerWide, inner := ParseAllData(memory, p, p + itemSize, depth + 1);
        if innerWide {
          return true, -1;
        }
        if inner < 0 {
          return false, -1;
        }
      }
      pos := p + itemSize;
      num := num + 1;
    }
    assert memory[pos..end] == [];
  }

  // ---------------------------------------------------------------- one walk, as a function of the APDU

  /** Visible strings of the passport; None until the field has been found. */
  datatype Names = Names(gocbref: Option<bytes>, dataset: Option<bytes>, goid: Option<bytes>)

  /** Numbers of the passport and the state. */
  datatype Numbers = Numbers(num: u16, foundEntries: u32, crev: u32, timestamp: u64, stNum: u32, sqNum: u32)

  datatype Goose = Goose(names: Names, numbers: Numbers, allDataOffset: u16)

  const FRESH: Goose := Goose(Names(None, None, None), Numbers(0, 0, 0, 0, 0, 0), 0)

  datatype Outcome = OutOfDomain | Done(code: int, goose: Goose)

  function Timestamp(value: bytes): (t: u64)
    requires |value| <= 8
  {
    BeNatBound(value);
    Pow256Add(8 - |value|, |value|);
    assert Pow256(8) == U64 by { Pow256Add(4, 4); assert Pow256(4) == U32 by { Pow256Add(2, 2); } }
    BeNat(value)
  }

  function StoreName(n: Names, tag: byte, value: bytes): (r: Names)
  {
    match tag
    case 0x80 => n.(gocbref := Some(value))
    case 0x82 => n.(dataset := Some(value))
    case 0x83 => n.(goid := Some(value))
    case _ => n
  }

  function StoreNumber(n: Numbers, tag: byte, value: bytes): (r: Numbers)
  {
    match tag
    case 0x84 => if 4 <= |value| <= 8 then n.(timestamp := Timestamp(value)) else n
    case 0x85 => n.(stNum := Number(value))
    case 0x86 => n.(sqNum := Number(value))
    case 0x88 => n.(crev := Number(value))
    case 0x8A => n.(num := Number(value) % U16)
    case _ => n
  }

  /** Effect of a plain field; other tags change nothing and the last occurrence wins. */
  function Store(g: Goose, tag: byte, value: bytes): (r: Goose)
  {
    g.(names := StoreName(g.names, tag, value), numbers := StoreNumber(g.numbers, tag, value))
  }

  function StoreAllData(g: Goose, at: nat, entries: nat): (r: Goose)
  {
    g.(allDataOffset := at % U16, numbers := g.numbers.(foundEntries := entries % U32))
  }

  function Verdict(g: Goose): (code: int)
  {
    if g.numbers.foundEntries != g.numbers.num then -102
    else if g.names.gocbref.Some? && g.names.dataset.Some? && g.names.goid.Some? then 0
    else -100
  }

  datatype Skipped = SkippedWide | Rest(rest: bytes)

  /** Tags 0xA0 and 0xA1: a second length is read where the value starts, and skipped. */
  function SkipInner(w: bytes): (r: Skipped)
    ensures r.Rest? ==> |r.rest| <= |w| && (w != [] ==> |r.rest| < |w|)
  {
    match LengthAt(w)
    case Short => Rest([])
    case Wide => SkippedWide
    case Length(size, n) => Rest(if size + n >= |w| then [] else w[size + n..])
  }

  /** Tags 0x30 and 0x31: whole TLVs are skipped until `m` bytes are used up or overrun. */
  function SkipItems(w: bytes, m: int): (r: Skipped)
    ensures r.Rest? ==> |r.rest| <= |w|
    decreases |w|
  {
    if m <= 0 || w == [] then Rest(w)
    else
      match LengthAt(w[1..])
      case Short => Rest([])
      case Wide => SkippedWide
      case Length(size, n) =>
        if 1 + size + n >= |w| then Rest([]) else SkipItems(w[1 + size + n..], m - 1 - size - n)
  }

  datatype Step = Stop(out: Outcome) | Next(rest: bytes, goose: Goose)

  /** One item of `v`, which starts at offset `off` of the buffer the walk runs on. */
  function WalkItem(v: bytes, off: nat, g: Goose): (r: Step)
    requires v != []
    ensures r.Next? ==> |r.rest| < |v|
  {
    match ItemAt(v)
    case Short => Stop(Done(-3, g))
    case Wide => Stop(OutOfDomain)
    case Item(tag, len, value, rest) =>
      if value == [] then Stop(Done(-3, g))
      else if tag == 0xAB then
        match AllData(value, 0) {
          case Malformed => Stop(Done(-101, g))
          case TooWide => Stop(OutOfDomain)
          case Forest(d) =>
            Next(rest, StoreAllData(g, off + 1 + |len|, Entries(d)))
        }
      else if tag == 0x30 || tag == 0x31 then
        var s := SkipItems(value + rest, |value|);
        if s.SkippedWide? then Stop(OutOfDomain) else Next(s.rest, g)
      else if tag == 0xA0 || tag == 0xA1 then
        var s := SkipInner(value + rest);
        if s.SkippedWide? then Stop(OutOfDomain) else Next(s.rest, g)
      else Next(rest, Store(g, tag, value))
  }

  /** The item loop over `v`. */
  function Walk(v: bytes, off: nat, g: Goose): (r: Outcome)
    decreases |v|
  {
    if v == [] then Done(Verdict(g), g)
    else
      match WalkItem(v, off, g)
      case Stop(out) => out
      case Next(rest, g') => Walk(rest, off + |v| - |rest|, g')
  }

  /** The walk of a whole APDU that starts at offset `base` of its buffer. */
  function WalkApdu(apdu: bytes, base: nat): (r: Outcome)
  {
    if |apdu| < 2 || apdu[0] != 0x61 then Done(-3, FRESH)
    else
      match LengthAt(apdu[1..])
      case Short => Done(Verdict(FRESH), FRESH)
      case Wide => OutOfDomain
      case Length(size, _) => Walk(apdu[1 + size..], base + 1 + size, FRESH)
  }

  /** The items after the PDU header. */
  function ApduItems(apdu: bytes): (r: bytes)
  {
    if |apdu| < 2 || !LengthAt(apdu[1..]).Length? then [] else apdu[1 + LengthAt(apdu[1..]).size..]
  }

  /** What is left after one item, if the walk gets past it; neither the offset nor the fields matter. */
  function Advance(v: bytes): (r: Option<bytes>)
    requires v != []
    ensures r.Some? ==> |r.value| < |v|
  {
    match ItemAt(v)
    case Item(tag, len, value, rest) =>
      if value == [] || (tag == 0xAB && !AllData(value, 0).Forest?) then None
      else if tag == 0x30 || tag == 0x31 then
        var s := SkipItems(value + rest, |value|);
        if s.SkippedWide? then None else Some(s.rest)
      else if tag == 0xA0 || tag == 0xA1 then
        var s := SkipInner(value + rest);
        if s.SkippedWide? then None else Some(s.rest)
      else Some(rest)
    case _ => None
  }

  /** Item after item, up to the end. */
  predicate IsWalkable(v: bytes)
    decreases |v|
  {
    v == [] || (Advance(v).Some? && IsWalkable(Advance(v).value))
  }

  lemma ItemAdvance(v: bytes, off: nat, g: Goose)
    requires v != []
    ensures WalkItem(v, off, g).Next? <==> Advance(v).Some?
    ensures WalkItem(v, off, g).Next? ==> WalkItem(v, off, g).rest == Advance(v).value
    ensures WalkItem(v, off, g).Stop? ==> WalkItem(v, off, g).out.OutOfDomain? || WalkItem(v, off, g).out.code != 0
  {
    hide ItemAt, SkipItems, SkipInner, AllData;
  }

  /** The skip loop finds a tag in the very last byte, so that its length lies in the slack. */
  predicate SkipsToTag(w: bytes, m: int)
    decreases |w|
  {
    && m > 0 && w != []
    && (|w| == 1 || match LengthAt(w[1..])
                    case Length(size, n) => 1 + size + n < |w| && SkipsToTag(w[1 + size + n..], m - 1 - size - n)
                    case _ => false)
  }

  /** The walk, or a skip inside it, finds a tag in the very last byte: the only case in which slack is read as a length. */
  predicate EndsOnTag(v: bytes)
    decreases |v|
  {
    && v != []
    && (|v| == 1 || SkipEndsOnTag(v) || (Advance(v).Some? && EndsOnTag(Advance(v).value)))
  }

  predicate ApduEndsOnTag(apdu: bytes)
  {
    EndsOnTag(ApduItems(apdu))
  }

  predicate SkipEndsOnTag(v: bytes)
    requires v != []
  {
    var i := ItemAt(v);
    i.Item? && i.value != [] && (i.tag == 0x30 || i.tag == 0x31) && SkipsToTag(i.value + i.rest, |i.value|)
  }

  // ---------------------------------------------------------------- the two copies

  /** The field cases of the tag switch; the timestamp load always takes eight bytes. */
  method StoreField(memory: bytes, pos: nat, itemSize: nat, tag: byte, g: Goose) returns (r: Goose)
    requires itemSize > 0 && pos + itemSize + 4 <= |memory|
    ensures r == Store(g, tag, memory[pos..pos + itemSize])
  {
    var value := memory[pos..pos + itemSize];
    var names, numbers := g.names, g.numbers;
    match tag {
      case 0x80 => names := names.(gocbref := Some(value));
      case 0x82 => names := names.(dataset := Some(value));
      case 0x83 => names := names.(goid := Some(value));
      case 0x84 =>
        if 4 <= itemSize <= 8 {
          var word := memory[pos..pos + 8];
          BeNatShift(word, itemSize);
          assert word[..itemSize] == value;
          var ts := BeNat(word) / Pow256(8 - itemSize);
          assert ts == Timestamp(value);
          numbers := numbers.(timestamp := ts);
        }
      case 0x85 => numbers := numbers.(stNum := Number(value));
      case 0x86 => numbers := numbers.(sqNum := Number(value));
      case 0x88 => numbers := numbers.(crev := Number(value));
      case 0x8A => numbers := numbers.(num := Number(value) % U16);
      case _ =>
    }
    r := g.(names := names, numbers := numbers);
  }

  /** `pos` is where `rest` begins, or anywhere past `size` when nothing is left. */
  ghost predicate Reached(memory: bytes, size: nat, pos: nat, rest: bytes)
    requires size <= |memory|
  {
    if pos < size then rest == memory[pos..size] else rest == []
  }

  lemma SkipStep(w: bytes, m: int)
    requires w != [] && m > 0
    ensures LengthAt(w[1..]).Wide? ==> SkipItems(w, m).SkippedWide?
    ensures LengthAt(w[1..]).Short? ==> SkipItems(w, m) == Rest([])
    ensures LengthAt(w[1..]).Length? ==>
              var d := 1 + LengthAt(w[1..]).size + LengthAt(w[1..]).value;
              SkipItems(w, m) == if d > |w| then Rest([]) else SkipItems(w[d..], m - d)
  {
  }

  lemma SkipTagStep(w: bytes, m: int)
    requires w != [] && m > 0
    ensures |w| == 1 ==> SkipsToTag(w, m)
    ensures |w| > 1 && LengthAt(w[1..]).Length? ==>
              var d := 1 + LengthAt(w[1..]).size + LengthAt(w[1..]).value;
              d < |w| && SkipsToTag(w[d..], m - d) ==> SkipsToTag(w, m)
  {
  }

  lemma SkipEnd(w: bytes, m: int)
    requires m <= 0
    ensures SkipItems(w, m) == Rest(w)
  {
  }

  /** The 0x30/0x31 loop. */
  method SkipItemsLoop(memory: bytes, size: nat, at: nat, itemSize: nat) returns (wide: bool, pos: nat)
    requires at + itemSize <= size && size + 4 <= |memory|
    ensures wide ==> SkipItems(memory[at..size], itemSize).SkippedWide?
                     || (memory[size] > 0x83 && SkipsToTag(memory[at..size], itemSize))
    ensures !wide ==> at <= pos && SkipItems(memory[at..size], itemSize).Rest?
                      && Reached(memory, size, pos, SkipItems(memory[at..size], itemSize).rest)
    ensures !wide && itemSize > 0 ==> at < pos
  {
    hide LengthAt, SkipItems, SkipsToTag;
    pos := at;
    var end := at + itemSize;
    ghost var whole := SkipItems(memory[at..size], itemSize);
    while pos < end
      invariant at <= pos
      invariant itemSize > 0 && pos == at ==> pos < end
      invariant pos <= size ==> whole == SkipItems(memory[pos..size], end - pos)
      invariant pos > size ==> whole == Rest([])
      invariant pos < size && SkipsToTag(memory[pos..size], end - pos) ==> SkipsToTag(memory[at..size], itemSize)
    {
      ghost var w := memory[pos..size];
      assert w[1..] == memory[pos + 1..size];
      SkipStep(w, end - pos);
      SkipTagStep(w, end - pos);
      var isWide, p, n := DecodeLength(memory, size, pos + 1);
      if isWide {
        return true, pos;
      }
      if p + n <= size {
        assert w[p + n - pos..] == memory[p + n..size];
      }
      pos := p + n;
    }
    wide := false;
    if pos <= size {
      SkipEnd(memory[pos..size], end - pos);
    }
  }

  /** Offset of the APDU in an L2 GOOSE frame: after APPID, Length and two reserved words. */
  function L2Base(frame: bytes): (r: Option<nat>)
    requires |frame| >= 64
  {
    if frame[12] == 0x81 && frame[13] == 0x00 && frame[16] == 0x88 && frame[17] == 0xB8 then Some(26)
    else if frame[12] == 0x88 && frame[13] == 0xB8 then Some(22)
    else None
  }

  /** The 0xA0/0xA1 case. */
  method SkipInnerValue(memory: bytes, size: nat, at: nat) returns (wide: bool, pos: nat)
    requires at < size && size + 4 <= |memory|
    ensures wide <==> SkipInner(memory[at..size]).SkippedWide?
    ensures !wide ==> at < pos && Reached(memory, size, pos, SkipInner(memory[at..size]).rest)
  {
    var n;
    wide, pos, n := DecodeLength(memory, size, at);
    if !wide {
      pos := pos + n;
      if pos <= size {
        assert memory[at..size][pos - at..] == memory[pos..size];
      }
    }
  }

  lemma WalkStep(v: bytes, off: nat, g: Goose)
    ensures v == [] ==> Walk(v, off, g) == Done(Verdict(g), g)
    ensures v != [] && WalkItem(v, off, g).Stop? ==> Walk(v, off, g) == WalkItem(v, off, g).out
    ensures v != [] && WalkItem(v, off, g).Next? ==>
              var x := WalkItem(v, off, g);
              Walk(v, off, g) == Walk(x.rest, off + |v| - |x.rest|, x.goose)
  {
    hide WalkItem;
  }

  lemma TagStep(v: bytes, off: nat, g: Goose)
    requires v != []
    ensures |v| == 1 || SkipEndsOnTag(v) ==> EndsOnTag(v)
    ensures WalkItem(v, off, g).Next? && EndsOnTag(WalkItem(v, off, g).rest) ==> EndsOnTag(v)
    ensures var i := ItemAt(v);
            i.Item? && i.value != [] && (i.tag == 0x30 || i.tag == 0x31) && SkipsToTag(i.value + i.rest, |i.value|) ==>
              EndsOnTag(v)
  {
    hide WalkItem, Advance;
    ItemAdvance(v, off, g);
  }

  /** The item loop of parse_goose_packet: positions are absolute in the frame. */
  method WalkFrame(memory: bytes, size: nat, start: nat) returns (out: Outcome)
    requires start <= size && size + 4 <= |memory|
    ensures out.OutOfDomain? || out == Walk(memory[start..size], start, FRESH)
    ensures memory[size] <= 0x83 || !EndsOnTag(memory[start..size]) ==>
              out == Walk(memory[start..size], start, FRESH)
  {
    hide ItemAt, SkipItems, SkipInner, Store, AllData, Walk, Verdict, EndsOnTag, SkipEndsOnTag, Advance;
    var pos, g := start, FRESH;
    ghost var rest := memory[start..size];
    ghost var off: nat := start;
    ghost var spec := Walk(rest, start, g);
    while pos < size
      invariant start <= pos && Reached(memory, size, pos, rest)
      invariant EndsOnTag(rest) ==> EndsOnTag(memory[start..size])
      invariant pos < size ==> off == pos
      invariant spec == Walk(rest, off, g)
    {
      ghost var v, g0 := rest, g;
      WalkStep(v, off, g0);
      TagStep(v, off, g0);
      var tag := memory[pos];
      var w, p, itemSize := TakeItem(memory, size, pos);
      if w {
        return OutOfDomain;
      }
      if p + itemSize > size || itemSize == 0 {
        return Done(-3, g);
      }
      if tag == 0xAB {
        var aw, num := ParseAllData(memory, p, p + itemSize, 0);
        if aw {
          return OutOfDomain;
        }
        if num < 0 {
          return Done(-101, g);
        }
        g := StoreAllData(g, p, num);
        pos := p + itemSize;
      } else if tag == 0x30 || tag == 0x31 {
        var sw, q := SkipItemsLoop(memory, size, p, itemSize);
        if sw {
          return OutOfDomain;
        }
        pos := q;
      } else if tag == 0xA0 || tag == 0xA1 {
        var sw, q := SkipInnerValue(memory, size, p);
        if sw {
          return OutOfDomain;
        }
        pos := q;
      } else {
        g := StoreField(memory, p, itemSize, tag, g);
        pos := p + itemSize;
      }
      assert WalkItem(v, off, g0).Next?;
      rest := WalkItem(v, off, g0).rest;
      off := off + |v| - |rest|;
    }
    WalkStep(rest, off, g);
    out := Done(Verdict(g), g);
  }

  /** parse_goose_packet. */
  method ParseGoosePacket(memory: bytes, size: nat) returns (out: Outcome)
    requires size + 4 <= |memory|
    ensures size < 64 || L2Base(memory[..size]).None? ==> out == Done(-1, FRESH)
    ensures size >= 64 && L2Base(memory[..size]).Some? ==>
              var base := L2Base(memory[..size]).value;
              && (out.OutOfDomain? || out == WalkApdu(memory[base..size], base))
              && (memory[size] <= 0x83 || !ApduEndsOnTag(memory[base..size]) ==> out == WalkApdu(memory[base..size], base))
  {
    hide Walk;
    if size < 64 {
      return Done(-1, FRESH);
    }
    var pos := 14;
    if memory[12] == 0x81 && memory[13] == 0x00 && memory[16] == 0x88 && memory[17] == 0xB8 {
      pos := pos + 4;
    } else if memory[12] == 0x88 && memory[13] == 0xB8 {
    } else {
      return Done(-1, FRESH);
    }
    pos := pos + 8;
    ghost var apdu := memory[pos..size];
    assert apdu[1..] == memory[pos + 1..size];
    if memory[pos] != 0x61 {
      return Done(-3, FRESH);
    }
    var wide, first, pduSize := DecodeLength(memory, size, pos + 1);
    if wide {
      return OutOfDomain;
    }
    assert apdu[first - pos..] == memory[first..size];
    out := WalkFrame(memory, size, first);
  }

  /**
   The item loop of parse_r_goose_packet: positions are relative to the APDU.  The program keeps two
   copies of this loop, and so does the model: that they agree is a statement about both.
   */
  method WalkRoutable(apdu: bytes, apduSize: nat, start: nat) returns (out: Outcome)
    requires start <= apduSize && apduSize + 4 <= |apdu|
    ensures out.OutOfDomain? || out == Walk(apdu[start..apduSize], start, FRESH)
    ensures apdu[apduSize] <= 0x83 || !EndsOnTag(apdu[start..apduSize]) ==>
              out == Walk(apdu[start..apduSize], start, FRESH)
  {
    hide ItemAt, SkipItems, SkipInner, Store, AllData, Walk, Verdict, EndsOnTag, SkipEndsOnTag, Advance;
    var pos, g := start, FRESH;
    ghost var rest := apdu[start..apduSize];
    ghost var off: nat := start;
    ghost var spec := Walk(rest, start, g);
    while pos < apduSize
      invariant start <= pos && Reached(apdu, apduSize, pos, rest)
      invariant EndsOnTag(rest) ==> EndsOnTag(apdu[start..apduSize])
      invariant pos < apduSize ==> off == pos
      invariant spec == Walk(rest, off, g)
    {
      ghost var v, g0 := rest, g;
      WalkStep(v, off, g0);
      TagStep(v, off, g0);
      var tag := apdu[pos];
      var w, p, itemSize := TakeItem(apdu, apduSize, pos);
      if w {
        return OutOfDomain;
      }
      if p + itemSize > apduSize || itemSize == 0 {
        return Done(-3, g);
      }
      if tag == 0xAB {
        var aw, num := ParseAllData(apdu, p, p + itemSize, 0);
        if aw {
          return OutOfDomain;
        }
        if num < 0 {
          return Done(-101, g);
        }
        g := StoreAllData(g, p, num);
        pos := p + itemSize;
      } else if tag == 0x30 || tag == 0x31 {
        var sw, q := SkipItemsLoop(apdu, apduSize, p, itemSize);
        if sw {
          return OutOfDomain;
        }
        pos := q;
      } else if tag == 0xA0 || tag == 0xA1 {
        var sw, q := SkipInnerValue(apdu, apduSize, p);
        if sw {
          return OutOfDomain;
        }
        pos := q;
      } else {
        g := StoreField(apdu, p, itemSize, tag, g);
        pos := p + itemSize;
      }
      assert WalkItem(v, off, g0).Next?;
      rest := WalkItem(v, off, g0).rest;
      off := off + |v| - |rest|;
    }
    WalkStep(rest, off, g);
    out := Done(Verdict(g), g);
  }

  /** The APDU part of parse_r_goose_packet. */
  method ParseRoutableApdu(apdu: bytes, apduSize: nat) returns (out: Outcome)
    requires apduSize + 4 <= |apdu|
    ensures out.OutOfDomain? || out == WalkApdu(apdu[..apduSize], 0)
    ensures apdu[apduSize] <= 0x83 || !ApduEndsOnTag(apdu[..apduSize]) ==> out == WalkApdu(apdu[..apduSize], 0)
  {
    hide Walk;
    if apduSize < 2 || apdu[0] != 0x61 {
      return Done(-3, FRESH);
    }
    assert apdu[..apduSize][1..] == apdu[1..apduSize];
    var wide, first, pduSize := DecodeLength(apdu, apduSize, 1);
    if wide {
      return OutOfDomain;
    }
    if first > apduSize {
      return Done(Verdict(FRESH), FRESH);
    }
    assert apdu[..apduSize][first..] == apdu[first..apduSize];
    out := WalkRoutable(apdu, apduSize, first);
  }

  // ---------------------------------------------------------------- agreement

  /** Equal but for the allData offset, which is shifted once an allData has been stored. */
  predicate Shifted(a: Goose, b: Goose, base: nat)
  {
    || (a == b && b.allDataOffset == 0)
    || a == b.(allDataOffset := (b.allDataOffset + base) % U16)
  }

  predicate Agree(a: Outcome, b: Outcome, base: nat)
  {
    match (a, b)
    case (OutOfDomain, OutOfDomain) => true
    case (Done(ca, ga), Done(cb, gb)) => ca == cb && Shifted(ga, gb, base)
    case _ => false
  }

  lemma ModShift(x: int, base: int)
    ensures (x % U16 + base) % U16 == (base + x) % U16
  {
  }

  lemma ItemShift(v: bytes, off: nat, base: nat, a: Goose, b: Goose)
    requires v != [] && Shifted(a, b, base)
    ensures var x, y := WalkItem(v, base + off, a), WalkItem(v, off, b);
            if y.Stop? then x.Stop? && Agree(x.out, y.out, base)
            else x.Next? && x.rest == y.rest && Shifted(x.goose, y.goose, base)
  {
    hide ItemAt, SkipItems, SkipInner, AllData, StoreName, StoreNumber;
    if ItemAt(v).Item? {
      ModShift(off + 1 + |ItemAt(v).len|, base);
    }
  }

  lemma {:induction false} WalkShift(v: bytes, off: nat, base: nat, a: Goose, b: Goose)
    requires Shifted(a, b, base)
    ensures Agree(Walk(v, base + off, a), Walk(v, off, b), base)
    decreases |v|
  {
    hide WalkItem;
    if v != [] {
      var x, y := WalkItem(v, base + off, a), WalkItem(v, off, b);
      ItemShift(v, off, base, a, b);
      if y.Next? {
        WalkShift(y.rest, off + |v| - |y.rest|, base, x.goose, y.goose);
      }
    }
  }

  /** The walk of an APDU does not depend on where the APDU lies. */
  lemma ApduShift(apdu: bytes, base: nat)
    ensures Agree(WalkApdu(apdu, base), WalkApdu(apdu, 0), base)
  {
    hide Walk;
    if |apdu| >= 2 && apdu[0] == 0x61 && LengthAt(apdu[1..]).Length? {
      var size := LengthAt(apdu[1..]).size;
      WalkShift(apdu[1 + size..], 1 + size, base, FRESH, FRESH);
    }
  }

  /**
   Both copies on the same APDU, each in its own surroundings: they agree whatever bytes precede the
   APDU and, unless its walk finds a tag in the very last byte, whatever slack follows it; in that one
   case, as long as the slack byte taken for a length does not claim four or more octets.
   */
  method WalkBoth(frame: bytes, size: nat, buffer: bytes, apduSize: nat) returns (l2: Outcome, r: Outcome)
    requires 64 <= size && size + 4 <= |frame| && apduSize + 4 <= |buffer|
    requires L2Base(frame[..size]).Some?
    requires frame[L2Base(frame[..size]).value..size] == buffer[..apduSize]
    ensures !ApduEndsOnTag(buffer[..apduSize]) || (frame[size] <= 0x83 && buffer[apduSize] <= 0x83) ==>
              Agree(l2, r, L2Base(frame[..size]).value)
    ensures l2.Done? && r.Done? ==> Agree(l2, r, L2Base(frame[..size]).value)
  {
    hide WalkApdu, ApduEndsOnTag;
    l2 := ParseGoosePacket(frame, size);
    r := ParseRoutableApdu(buffer, apduSize);
    ApduShift(buffer[..apduSize], L2Base(frame[..size]).value);
  }

  // ---------------------------------------------------------------- what an accepted frame says

  datatype Visit = Visit(tag: byte, value: bytes)

  /** The items the loop takes a value from, in order. */
  function Visits(v: bytes): (r: seq<Visit>)
    decreases |v|
  {
    if v == [] || !ItemAt(v).Item? || ItemAt(v).value == [] then []
    else
      var Item(tag, len, value, rest) := ItemAt(v);
      if tag == 0x30 || tag == 0x31 then
        var s := SkipItems(value + rest, |value|);
        if s.SkippedWide? then [] else Visits(s.rest)
      else if tag == 0xA0 || tag == 0xA1 then
        var s := SkipInner(value + rest);
        if s.SkippedWide? then [] else Visits(s.rest)
      else [Visit(tag, value)] + Visits(rest)
  }

  function Last(vs: seq<Visit>, tag: byte): (r: Option<bytes>)
  {
    if vs == [] then None
    else
      var later := Last(vs[1..], tag);
      if later.Some? then later else if vs[0].tag == tag then Some(vs[0].value) else None
  }

  /** The last timestamp of a size that the state takes over. */
  function LastStamp(vs: seq<Visit>): (r: Option<bytes>)
    ensures r.Some? ==> 4 <= |r.value| <= 8
  {
    if vs == [] then None
    else
      var later := LastStamp(vs[1..]);
      if later.Some? then later else if vs[0].tag == 0x84 && 4 <= |vs[0].value| <= 8 then Some(vs[0].value) else None
  }

  function StampOr(field: Option<bytes>, default: u64): (t: u64)
    requires field.Some? ==> |field.value| <= 8
  {
    if field.Some? then Timestamp(field.value) else default
  }

  function NumberOr(field: Option<bytes>, default: u32): (n: u32)
  {
    if field.Some? then Number(field.value) else default
  }

  lemma LastCons(v: Visit, vs: seq<Visit>, tag: byte)
    ensures Last([v] + vs, tag) ==
            if Last(vs, tag).Some? then Last(vs, tag) else if v.tag == tag then Some(v.value) else None
  {
    assert ([v] + vs)[1..] == vs;
  }

  function Or<T>(later: Option<T>, before: Option<T>): Option<T>
  {
    if later.Some? then later else before
  }

  /** Names in the result against the items visited: the last occurrence wins. */
  ghost predicate SaysNames(vs: seq<Visit>, before: Names, after: Names)
  {
    && after.gocbref == Or(Last(vs, 0x80), before.gocbref)
    && after.dataset == Or(Last(vs, 0x82), before.dataset)
    && after.goid == Or(Last(vs, 0x83), before.goid)
  }

  /** Numbers in the result against the items visited: the last occurrence wins. */
  ghost predicate SaysNumbers(vs: seq<Visit>, before: Numbers, after: Numbers)
  {
    && after.stNum == NumberOr(Last(vs, 0x85), before.stNum)
    && after.sqNum == NumberOr(Last(vs, 0x86), before.sqNum)
    && after.crev == NumberOr(Last(vs, 0x88), before.crev)
    && after.num == NumberOr(Last(vs, 0x8A), before.num) % U16
    && after.timestamp == StampOr(LastStamp(vs), before.timestamp)
  }

  /** The entry count in the result: that of the last allData visited. */
  ghost predicate SaysEntries(vs: seq<Visit>, before: u32, after: u32)
  {
    match Last(vs, 0xAB)
    case None => after == before
    case Some(value) => AllData(value, 0).Forest? && after == Entries(AllData(value, 0).data) % U32
  }

  lemma NamesCons(v: Visit, vs: seq<Visit>, before: Names, after: Names)
    requires SaysNames(vs, StoreName(before, v.tag, v.value), after)
    ensures SaysNames([v] + vs, before, after)
  {
    hide Last;
    LastCons(v, vs, 0x80);
    LastCons(v, vs, 0x82);
    LastCons(v, vs, 0x83);
  }

  lemma NumbersCons(v: Visit, vs: seq<Visit>, before: Numbers, after: Numbers)
    requires SaysNumbers(vs, StoreNumber(before, v.tag, v.value), after)
    ensures SaysNumbers([v] + vs, before, after)
  {
    hide Last, Number, Timestamp, LastStamp;
    StampCons(v, vs);
    LastCons(v, vs, 0x85);
    LastCons(v, vs, 0x86);
    LastCons(v, vs, 0x88);
    LastCons(v, vs, 0x8A);
  }

  lemma StampCons(v: Visit, vs: seq<Visit>)
    ensures LastStamp([v] + vs) == if LastStamp(vs).Some? then LastStamp(vs)
                                   else if v.tag == 0x84 && 4 <= |v.value| <= 8 then Some(v.value) else None
  {
    assert ([v] + vs)[1..] == vs;
  }

  lemma EntriesCons(v: Visit, vs: seq<Visit>, before: u32, after: u32)
    requires v.tag != 0xAB ==> SaysEntries(vs, before, after)
    requires v.tag == 0xAB ==>
               AllData(v.value, 0).Forest? && SaysEntries(vs, Entries(AllData(v.value, 0).data) % U32, after)
    ensures SaysEntries([v] + vs, before, after)
  {
    hide AllData, Last;
    LastCons(v, vs, 0xAB);
  }

  /** A walkable sequence of items is walked to the end, and every field is that of the last item with its tag. */
  lemma {:induction false} WalkSays(v: bytes, off: nat, g: Goose)
    requires IsWalkable(v)
    ensures Walk(v, off, g).Done? && Walk(v, off, g).code == Verdict(Walk(v, off, g).goose)
    ensures SaysNames(Visits(v), g.names, Walk(v, off, g).goose.names)
    ensures SaysNumbers(Visits(v), g.numbers, Walk(v, off, g).goose.numbers)
    ensures SaysEntries(Visits(v), g.numbers.foundEntries, Walk(v, off, g).goose.numbers.foundEntries)
    decreases |v|
  {
    hide ItemAt, SkipItems, SkipInner, AllData, SaysNames, SaysNumbers, SaysEntries, StoreName, Last, Timestamp, Number,
         Verdict, Advance, LastStamp;
    if v == [] {
      NothingSaid(g);
    } else {
      ItemAdvance(v, off, g);
      var x := WalkItem(v, off, g);
      WalkSays(x.rest, off + |v| - |x.rest|, x.goose);
      var after := Walk(v, off, g).goose;
      var Item(tag, len, value, rest) := ItemAt(v);
      if tag != 0x30 && tag != 0x31 && tag != 0xA0 && tag != 0xA1 {
        var item := Visit(tag, value);
        if tag == 0xAB {
          OtherTag(g.names, g.numbers, value);
          AllDataNumbers(g.numbers, Entries(AllData(value, 0).data), Visits(rest), after.numbers);
        }
        NamesCons(item, Visits(rest), g.names, after.names);
        NumbersCons(item, Visits(rest), g.numbers, after.numbers);
        EntriesCons(item, Visits(rest), g.numbers.foundEntries, after.numbers.foundEntries);
      }
    }
  }

  /** Where the value of the last allData starts, in a buffer that has the items at offset `off`. */
  function DataAt(v: bytes, off: nat): (at: Option<nat>)
    decreases |v|
  {
    if v == [] || Advance(v).None? then None
    else
      var rest := Advance(v).value;
      var later := DataAt(rest, off + |v| - |rest|);
      var i := ItemAt(v);
      if later.Some? then later else if i.tag == 0xAB then Some(off + 1 + |i.len|) else None
  }

  /** The offset in the passport is that of the last allData. */
  lemma {:induction false} WalkOffset(v: bytes, off: nat, g: Goose)
    requires IsWalkable(v)
    ensures Walk(v, off, g).Done?
    ensures Walk(v, off, g).goose.allDataOffset ==
            if DataAt(v, off).Some? then DataAt(v, off).value % U16 else g.allDataOffset
    decreases |v|
  {
    hide ItemAt, SkipItems, SkipInner, AllData, Advance, StoreName, StoreNumber;
    if v != [] {
      ItemAdvance(v, off, g);
      var x := WalkItem(v, off, g);
      WalkOffset(x.rest, off + |v| - |x.rest|, x.goose);
    }
  }

  /** And there lies its value. */
  lemma {:induction false} DataLies(v: bytes, off: nat)
    requires IsWalkable(v)
    ensures match (DataAt(v, off), Last(Visits(v), 0xAB))
            case (None, None) => true
            case (Some(at), Some(value)) => off <= at && Holds(v, at - off, value)
            case _ => false
    decreases |v|
  {
    hide ItemAt, SkipItems, SkipInner, AllData, Last;
    if v != [] {
      var rest, i := Advance(v).value, ItemAt(v);
      DataLies(rest, off + |v| - |rest|);
      RestIsTail(v);
      if i.tag != 0x30 && i.tag != 0x31 && i.tag != 0xA0 && i.tag != 0xA1 {
        LastCons(Visit(i.tag, i.value), Visits(rest), 0xAB);
      }
      if DataAt(rest, off + |v| - |rest|).Some? {
        HoldsPart(v, |v| - |rest|, rest, DataAt(rest, off + |v| - |rest|).value - off - |v| + |rest|, Last(Visits(rest), 0xAB).value);
      }
    } else {
      NothingVisited();
    }
  }

  lemma NothingVisited()
    ensures Visits([]) == [] && forall tag :: Last([], tag) == None
  {
  }

  /** `r` is what `w` ends with. */
  ghost predicate IsTail(w: bytes, r: bytes)
  {
    |r| <= |w| && r == w[|w| - |r|..]
  }

  lemma TailOfTail(v: bytes, at: nat, r: bytes)
    requires at <= |v| && IsTail(v[at..], r)
    ensures IsTail(v, r)
  {
  }

  lemma {:induction false} SkipsToTail(w: bytes, m: int)
    requires SkipItems(w, m).Rest?
    ensures IsTail(w, SkipItems(w, m).rest)
    decreases |w|
  {
    hide IsTail, LengthAt;
    if m > 0 && w != [] {
      WholeTail(w);
      if LengthAt(w[1..]).Length? {
        var d := 1 + LengthAt(w[1..]).size + LengthAt(w[1..]).value;
        if d < |w| {
          SkipsToTail(w[d..], m - d);
          TailOfTail(w, d, SkipItems(w[d..], m - d).rest);
        }
      }
    } else {
      WholeTail(w);
    }
  }

  lemma WholeTail(w: bytes)
    ensures IsTail(w, w) && IsTail(w, [])
  {
  }

  lemma InnerTail(w: bytes)
    requires SkipInner(w).Rest?
    ensures IsTail(w, SkipInner(w).rest)
  {
  }

  /** What is left after an item is the tail of the bytes, and the item's value lies where it was found. */
  lemma RestIsTail(v: bytes)
    requires v != [] && Advance(v).Some?
    ensures var rest := Advance(v).value; Holds(v, |v| - |rest|, rest)
    ensures var i := ItemAt(v); Holds(v, 1 + |i.len|, i.value)
  {
    hide SkipItems, SkipInner, AllData, ItemAt, IsTail, LengthAt;
    var Item(tag, len, value, rest) := ItemAt(v);
    ItemPlaces(v);
    if tag == 0x30 || tag == 0x31 {
      SkipsToTail(value + rest, |value|);
      TailOfTail(v, 1 + |len|, Advance(v).value);
    } else if tag == 0xA0 || tag == 0xA1 {
      InnerTail(value + rest);
      TailOfTail(v, 1 + |len|, Advance(v).value);
    }
    TailHolds(v, Advance(v).value);
  }

  lemma TailHolds(v: bytes, r: bytes)
    requires IsTail(v, r)
    ensures Holds(v, |v| - |r|, r)
  {
  }

  lemma ItemPlaces(v: bytes)
    requires v != [] && ItemAt(v).Item?
    ensures var i := ItemAt(v);
            1 + |i.len| <= |v| && v[1 + |i.len|..] == i.value + i.rest && Holds(v, 1 + |i.len|, i.value) && IsTail(v, i.rest)
  {
    hide ItemAt;
    var i := ItemAt(v);
    ItemExact(v, i.tag, i.len, i.value, i.rest);
    ConcatParts([i.tag], i.len, i.value, i.rest);
  }

  /** Only a walk that gets to the end is accepted. */
  lemma {:induction false} AcceptedIsWalkable(v: bytes, off: nat, g: Goose)
    requires Walk(v, off, g).Done? && Walk(v, off, g).code == 0
    ensures IsWalkable(v)
    decreases |v|
  {
    hide WalkItem, Advance;
    if v != [] {
      ItemAdvance(v, off, g);
      var x := WalkItem(v, off, g);
      AcceptedIsWalkable(x.rest, off + |v| - |x.rest|, x.goose);
    }
  }

  lemma OtherTag(names: Names, numbers: Numbers, value: bytes)
    ensures StoreName(names, 0xAB, value) == names && StoreNumber(numbers, 0xAB, value) == numbers
  {
  }

  lemma AllDataNumbers(n: Numbers, entries: nat, vs: seq<Visit>, after: Numbers)
    requires SaysNumbers(vs, n.(foundEntries := entries % U32), after)
    ensures SaysNumbers(vs, n, after)
  {
  }

  lemma NothingSaid(g: Goose)
    ensures SaysNames([], g.names, g.names) && SaysNumbers([], g.numbers, g.numbers)
    ensures SaysEntries([], g.numbers.foundEntries, g.numbers.foundEntries)
  {
  }

  function ApduVisits(apdu: bytes): (r: seq<Visit>)
  {
    Visits(ApduItems(apdu))
  }

  /** The number of top-level entries of the last allData, which is well-formed to depth eight; zero when there is none. */
  ghost predicate EntriesOf(vs: seq<Visit>, n: u32)
  {
    match Last(vs, 0xAB)
    case None => n == 0
    case Some(value) => exists d :: IsData(d, MAX_DEPTH) && DataBytes(d) == value && n == Entries(d) % U32
  }

  /**
   What makes a GOOSE APDU: a PDU header, items up to the end, a control block, data set and ID among
   them, and a numDatSetEntries that is the entry count of the last allData.
   */
  ghost predicate IsGoose(apdu: bytes)
  {
    var vs := ApduVisits(apdu);
    && |apdu| >= 2 && apdu[0] == 0x61 && LengthAt(apdu[1..]).Length?
    && IsWalkable(ApduItems(apdu))
    && Last(vs, 0x80).Some? && Last(vs, 0x82).Some? && Last(vs, 0x83).Some?
    && EntriesOf(vs, NumberOr(Last(vs, 0x8A), 0) % U16)
  }

  lemma SaysIsEntries(vs: seq<Visit>, n: u32, m: u32)
    requires SaysEntries(vs, 0, n)
    ensures EntriesOf(vs, m) <==> n == m
  {
    hide AllData, Last, IsData, DataBytes, Entries;
    if Last(vs, 0xAB).Some? {
      var value := Last(vs, 0xAB).value;
      var tree := AllData(value, 0).data;
      AllDataExact(value, tree);
      forall d | IsData(d, MAX_DEPTH) && DataBytes(d) == value ensures d == tree {
        AllDataExact(value, d);
      }
    }
  }

  /** The offset in the passport: zero without allData, and otherwise where the last one's value lies. */
  ghost predicate SaysOffset(apdu: bytes, base: nat, offset: u16)
  {
    match Last(ApduVisits(apdu), 0xAB)
    case None => offset == 0
    case Some(value) => exists at: nat :: Holds(apdu, at, value) && offset == (base + at) % U16
  }

  lemma ApduOffset(apdu: bytes, base: nat)
    requires |apdu| >= 2 && apdu[0] == 0x61 && LengthAt(apdu[1..]).Length? && IsWalkable(ApduItems(apdu))
    ensures WalkApdu(apdu, base).Done? && SaysOffset(apdu, base, WalkApdu(apdu, base).goose.allDataOffset)
  {
    hide Walk, Last, Visits, IsWalkable, DataAt;
    var v, off := ApduItems(apdu), base + 1 + LengthAt(apdu[1..]).size;
    WalkOffset(v, off, FRESH);
    DataLies(v, off);
    if DataAt(v, off).Some? {
      var at := DataAt(v, off).value;
      HoldsPart(apdu, off - base, v, at - off, Last(Visits(v), 0xAB).value);
      assert Holds(apdu, at - base, Last(Visits(v), 0xAB).value);
    }
  }

  /**
   A GOOSE APDU is accepted if and only if it is one, and its passport and state are then those of the
   last item with each tag.
   */
  lemma AcceptedGoose(apdu: bytes, base: nat)
    ensures WalkApdu(apdu, base).Done? && WalkApdu(apdu, base).code == 0 <==> IsGoose(apdu)
    ensures IsGoose(apdu) ==>
              var g, vs := WalkApdu(apdu, base).goose, ApduVisits(apdu);
              && Last(vs, 0x80) == g.names.gocbref && Last(vs, 0x82) == g.names.dataset
              && Last(vs, 0x83) == g.names.goid
              && g.numbers.stNum == NumberOr(Last(vs, 0x85), 0) && g.numbers.sqNum == NumberOr(Last(vs, 0x86), 0)
              && g.numbers.crev == NumberOr(Last(vs, 0x88), 0)
              && g.numbers.num == NumberOr(Last(vs, 0x8A), 0) % U16
              && g.numbers.timestamp == StampOr(LastStamp(vs), 0)
              && SaysOffset(apdu, base, g.allDataOffset)
  {
    hide AllData, Walk, Last, Visits, IsWalkable, EntriesOf, Number, LastStamp, Timestamp, SaysOffset;
    if |apdu| >= 2 && apdu[0] == 0x61 && LengthAt(apdu[1..]).Length? {
      var v, off := ApduItems(apdu), base + 1 + LengthAt(apdu[1..]).size;
      if WalkApdu(apdu, base).Done? && WalkApdu(apdu, base).code == 0 {
        AcceptedIsWalkable(v, off, FRESH);
      }
      if IsWalkable(v) {
        WalkSays(v, off, FRESH);
        var g := Walk(v, off, FRESH).goose;
        SaysIsEntries(Visits(v), g.numbers.foundEntries, g.numbers.num);
        ApduOffset(apdu, base);
      }
    }
  }
}
