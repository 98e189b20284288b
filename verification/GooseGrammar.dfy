/**
 The bytes that the GOOSE walk accepts, written down as a grammar: what an APDU is made of, item by item,
 without any notion of a walk.
 */
module GooseGrammar {
  import opened Bytes
  import opened GooseWalk

  datatype Tlv = Tlv(tag: byte, len: bytes, value: bytes)

  function TlvBytes(t: Tlv): (s: bytes)
  {
    [t.tag] + t.len + t.value
  }

  function Joined(ts: seq<Tlv>): (s: bytes)
  {
    if ts == [] then [] else TlvBytes(ts[0]) + Joined(ts[1..])
  }

  /**
   Items up to the end of an APDU.  A field is a plain TLV.  A context item announces `size` octets, yet what it
   covers is the length field `inner` it starts with and the octets this one denotes.  A group announces `size` octets
   and covers as many whole TLVs as it takes to use them up.  Either may run off the end, which ends the items.
   */
  datatype Items =
    | Nothing
    | Field(tag: byte, len: bytes, value: bytes, next: Items)
    | Context(tag: byte, len: bytes, size: nat, inner: bytes, skipped: bytes, next: Items)
    | ContextOff(tag: byte, len: bytes, size: nat, part: bytes)
    | Group(tag: byte, len: bytes, size: nat, members: seq<Tlv>, next: Items)
    | GroupOff(tag: byte, len: bytes, size: nat, members: seq<Tlv>, last: byte, part: bytes)

  function ItemsBytes(i: Items): (s: bytes)
  {
    match i
    case Nothing => []
    case Field(tag, len, value, next) => [tag] + len + value + ItemsBytes(next)
    case Context(tag, len, _, inner, skipped, next) => [tag] + len + (inner + skipped + ItemsBytes(next))
    case ContextOff(tag, len, _, part) => [tag] + len + part
    case Group(tag, len, _, members, next) => [tag] + len + (Joined(members) + ItemsBytes(next))
    case GroupOff(tag, len, _, members, last, part) => [tag] + len + (Joined(members) + ([last] + part))
  }

  /** No length field fits at the start of `w`, or the one there denotes more than follows it. */
  ghost predicate RunsOff(w: bytes)
  {
    || w == [] || (0x81 <= w[0] <= 0x83 && |w| <= w[0] - 0x80)
    || exists len, n :: IsLength(len, n) && len <= w && |w| < |len| + n
  }

  /** Whole TLVs, no fewer than it takes to cover `size` octets and no more. */
  ghost predicate Covers(ts: seq<Tlv>, size: nat)
  {
    && ts != [] && (forall t <- ts :: IsLength(t.len, |t.value|))
    && |Joined(ts[..|ts| - 1])| < size <= |Joined(ts)|
  }

  ghost predicate IsDataBytes(value: bytes)
  {
    exists d :: IsData(d, 8) && DataBytes(d) == value
  }

  ghost predicate IsItems(i: Items)
  {
    match i
    case Nothing => true
    case Field(tag, len, value, next) =>
      && tag !in {0x30, 0x31, 0xA0, 0xA1} && value != [] && IsLength(len, |value|)
      && (tag == 0xAB ==> IsDataBytes(value)) && IsItems(next)
    case Context(tag, len, size, inner, skipped, next) =>
      && tag in {0xA0, 0xA1} && IsLength(len, size) && 0 < size <= |inner| + |skipped| + |ItemsBytes(next)|
      && IsLength(inner, |skipped|) && IsItems(next)
    case ContextOff(tag, len, size, part) =>
      && tag in {0xA0, 0xA1} && IsLength(len, size) && 0 < size <= |part| && RunsOff(part)
    case Group(tag, len, size, members, next) =>
      && tag in {0x30, 0x31} && IsLength(len, size) && 0 < size <= |Joined(members)| + |ItemsBytes(next)|
      && Covers(members, size) && IsItems(next)
    case GroupOff(tag, len, size, members, last, part) =>
      && tag in {0x30, 0x31} && IsLength(len, size) && (forall t <- members :: IsLength(t.len, |t.value|))
      && |Joined(members)| < size <= |Joined(members)| + 1 + |part| && RunsOff(part)
  }

  /** The fields, in order: nothing inside a context item or a group is one. */
  function Fields(i: Items): (vs: seq<Visit>)
  {
    match i
    case Field(tag, _, value, next) => [Visit(tag, value)] + Fields(next)
    case Context(_, _, _, _, _, next) => Fields(next)
    case Group(_, _, _, _, next) => Fields(next)
    case _ => []
  }

  // ---------------------------------------------------------------- lengths and skips

  lemma RunsOffIs(w: bytes)
    ensures RunsOff(w) <==> LengthAt(w).Short? || (LengthAt(w).Length? && |w| < LengthAt(w).size + LengthAt(w).value)
  {
    hide IsLength;
    forall len, n | IsLength(len, n) && len <= w ensures LengthAt(w) == Length.Length(|len|, n) {
      LengthExact(w, len, n);
    }
    if LengthAt(w).Length? {
      var len := w[..LengthAt(w).size];
      LengthExact(w, len, LengthAt(w).value);
    }
  }

  lemma SkipOne(t: Tlv, rest: bytes, m: nat)
    requires m > 0 && IsLength(t.len, |t.value|)
    ensures SkipItems(TlvBytes(t) + rest, m) == SkipItems(rest, m - |TlvBytes(t)|)
    ensures |TlvBytes(t)| > 0
  {
    hide SkipItems, LengthAt, ItemAt;
    var w := TlvBytes(t) + rest;
    assert w[1..] == t.len + t.value + rest;
    LengthExact(w[1..], t.len, |t.value|);
    SkipStep(w, m);
    assert w[|TlvBytes(t)|..] == rest;
  }

  lemma {:induction false} JoinedInit(ts: seq<Tlv>)
    requires ts != []
    ensures Joined(ts) == Joined(ts[..|ts| - 1]) + TlvBytes(ts[|ts| - 1])
  {
    hide TlvBytes;
    if |ts| == 1 {
      assert ts[..0] == [] && ts[1..] == [];
    } else {
      JoinedInit(ts[1..]);
      assert ts[1..][..|ts| - 2] == ts[..|ts| - 1][1..] && ts[..|ts| - 1][0] == ts[0];
      var first, last, mid := TlvBytes(ts[0]), TlvBytes(ts[|ts| - 1]), Joined(ts[..|ts| - 1][1..]);
      assert first + (mid + last) == first + mid + last;
    }
  }

  /** Whole TLVs are skipped as long as octets are left. */
  lemma {:induction false} SkipMembers(ts: seq<Tlv>, rest: bytes, m: nat)
    requires forall t <- ts :: IsLength(t.len, |t.value|)
    requires ts == [] || |Joined(ts[..|ts| - 1])| < m
    ensures SkipItems(Joined(ts) + rest, m) == SkipItems(rest, m - |Joined(ts)|)
  {
    hide SkipItems, TlvBytes;
    if ts == [] {
      assert Joined(ts) + rest == rest;
    } else {
      var init, last := ts[..|ts| - 1], ts[|ts| - 1];
      JoinedInit(ts);
      if init != [] {
        JoinedInit(init);
      }
      assert Joined(ts) + rest == Joined(init) + (TlvBytes(last) + rest);
      SkipMembers(init, TlvBytes(last) + rest, m);
      SkipOne(last, rest, m - |Joined(init)|);
    }
  }

  lemma SkipOff(last: byte, part: bytes, m: nat)
    requires m > 0 && RunsOff(part)
    ensures SkipItems([last] + part, m) == Rest([])
  {
    hide SkipItems, LengthAt, RunsOff;
    var w := [last] + part;
    assert w[1..] == part;
    RunsOffIs(part);
    SkipStep(w, m);
  }

  // ---------------------------------------------------------------- entries

  /** The TLVs on the top level of a data tree. */
  function TopLevel(d: Data): (ts: seq<Tlv>)
  {
    match d
    case End => []
    case Value(tag, len, value, next) => [Tlv(tag, len, value)] + TopLevel(next)
    case Nested(tag, len, inner, next) => [Tlv(tag, len, DataBytes(inner))] + TopLevel(next)
  }

  /** The entry count is the number of whole TLVs that tile the value of allData. */
  lemma {:induction false} EntriesAre(d: Data, levels: nat)
    requires IsData(d, levels)
    ensures Entries(d) == |TopLevel(d)| && Joined(TopLevel(d)) == DataBytes(d)
    ensures forall t <- TopLevel(d) :: IsLength(t.len, |t.value|)
    decreases d
  {
    hide IsLength;
    if d != End {
      EntriesAre(d.next, levels);
      assert TopLevel(d)[1..] == TopLevel(d.next);
    }
  }

  /** There is only one such tiling, so the octets alone determine the count. */
  lemma {:induction false} TilingUnique(a: seq<Tlv>, b: seq<Tlv>)
    requires (forall t <- a :: IsLength(t.len, |t.value|)) && (forall t <- b :: IsLength(t.len, |t.value|))
    requires Joined(a) == Joined(b)
    ensures a == b
  {
    hide IsLength, ItemAt;
    if a != [] && b != [] {
      ItemExact(Joined(a), a[0].tag, a[0].len, a[0].value, Joined(a[1..]));
      ItemExact(Joined(b), b[0].tag, b[0].len, b[0].value, Joined(b[1..]));
      TilingUnique(a[1..], b[1..]);
      assert a == [a[0]] + a[1..] && b == [b[0]] + b[1..];
    }
  }

  // ---------------------------------------------------------------- one item

  lemma DataTree(value: bytes)
    ensures AllData(value, 0).Forest? <==> IsDataBytes(value)
  {
    if AllData(value, 0).Forest? {
      AllDataExact(value, AllData(value, 0).data);
    }
    if d :| IsData(d, 8) && DataBytes(d) == value {
      AllDataExact(value, d);
    }
  }

  /** A plain item: an empty one is refused, as is an allData that is no data; the loop takes any other value and goes on after it. */
  lemma FieldStep(tag: byte, len: bytes, value: bytes, rest: bytes)
    requires tag !in {0x30, 0x31, 0xA0, 0xA1} && IsLength(len, |value|)
    ensures var v := [tag] + len + value + rest;
            if value == [] || (tag == 0xAB && !IsDataBytes(value)) then Advance(v).None?
            else Advance(v) == Some(rest) && Visits(v) == [Visit(tag, value)] + Visits(rest)
  {
    hide ItemAt, AllData, IsDataBytes, IsLength;
    ItemExact([tag] + len + value + rest, tag, len, value, rest);
    DataTree(value);
  }

  /** The item whose announced octets are `size` of those after its length field. */
  lemma OpenItem(tag: byte, len: bytes, size: nat, after: bytes)
    requires IsLength(len, size) && size <= |after|
    ensures var v := [tag] + len + after; ItemAt(v) == Item.Item(tag, len, after[..size], after[size..])
  {
    hide ItemAt, IsLength;
    var v := [tag] + len + after;
    assert v == [tag] + len + after[..size] + after[size..];
    ItemExact(v, tag, len, after[..size], after[size..]);
  }

  /** A context item covers its second length and what that denotes, wherever the announced size ends. */
  lemma ContextStep(tag: byte, len: bytes, size: nat, inner: bytes, skipped: bytes, rest: bytes)
    requires tag in {0xA0, 0xA1} && IsLength(len, size) && 0 < size <= |inner| + |skipped| + |rest|
    requires IsLength(inner, |skipped|)
    ensures var v := [tag] + len + (inner + skipped + rest);
            Advance(v) == Some(rest) && Visits(v) == Visits(rest)
  {
    hide SkipInner, LengthAt, Advance, Visits, IsLength;
    SkipsInner(inner, skipped, rest);
    ContextGoes(tag, len, size, inner + skipped + rest, rest);
  }

  lemma SkipsInner(inner: bytes, skipped: bytes, rest: bytes)
    requires IsLength(inner, |skipped|)
    ensures inner + skipped + rest != [] && SkipInner(inner + skipped + rest) == Rest(rest)
  {
    hide LengthAt;
    var w := inner + skipped + rest;
    LengthExact(w, inner, |skipped|);
    assert w[|inner| + |skipped|..] == rest;
  }

  lemma ContextGoes(tag: byte, len: bytes, size: nat, after: bytes, rest: bytes)
    requires tag in {0xA0, 0xA1} && IsLength(len, size) && 0 < size <= |after| && SkipInner(after) == Rest(rest)
    ensures var v := [tag] + len + after; Advance(v) == Some(rest) && Visits(v) == Visits(rest)
  {
    hide ItemAt, AllData, SkipItems, SkipInner, IsLength;
    OpenItem(tag, len, size, after);
    assert after[..size] + after[size..] == after;
  }

  /** One whose second length reaches past the end ends the items. */
  lemma ContextEnd(tag: byte, len: bytes, size: nat, part: bytes)
    requires tag in {0xA0, 0xA1} && IsLength(len, size) && 0 < size <= |part| && RunsOff(part)
    ensures var v := [tag] + len + part;
            Advance(v) == Some([]) && Visits(v) == []
  {
    hide ItemAt, LengthAt, RunsOff, Advance, Visits;
    RunsOffIs(part);
    ContextGoes(tag, len, size, part, []);
    NothingVisited();
  }

  lemma SetStep(tag: byte, len: bytes, size: nat, after: bytes, rest: bytes)
    requires tag in {0x30, 0x31} && IsLength(len, size) && 0 < size <= |after| && SkipItems(after, size) == Rest(rest)
    ensures var v := [tag] + len + after; Advance(v) == Some(rest) && Visits(v) == Visits(rest)
  {
    hide ItemAt, AllData, SkipItems, IsLength;
    OpenItem(tag, len, size, after);
    assert after[..size] + after[size..] == after;
  }

  /** A group covers whole TLVs, the last of which may reach past its announced size. */
  lemma GroupStep(tag: byte, len: bytes, size: nat, members: seq<Tlv>, rest: bytes)
    requires tag in {0x30, 0x31} && IsLength(len, size) && 0 < size <= |Joined(members)| + |rest| && Covers(members, size)
    ensures var v := [tag] + len + (Joined(members) + rest);
            Advance(v) == Some(rest) && Visits(v) == Visits(rest)
  {
    hide SkipItems, IsLength, Advance, Visits, Joined;
    SkipMembers(members, rest, size);
    SkipEnd(rest, size - |Joined(members)|);
    SetStep(tag, len, size, Joined(members) + rest, rest);
  }

  /** One whose last TLV reaches past the end ends the items. */
  lemma GroupEnd(tag: byte, len: bytes, size: nat, members: seq<Tlv>, last: byte, part: bytes)
    requires tag in {0x30, 0x31} && IsLength(len, size) && (forall t <- members :: IsLength(t.len, |t.value|))
    requires |Joined(members)| < size <= |Joined(members)| + 1 + |part| && RunsOff(part)
    ensures var v := [tag] + len + (Joined(members) + ([last] + part));
            Advance(v) == Some([]) && Visits(v) == []
  {
    hide SkipItems, IsLength, Advance, Visits, Joined, TlvBytes, RunsOff;
    if members != [] {
      JoinedInit(members);
    }
    SkipMembers(members, [last] + part, size);
    SkipOff(last, part, size - |Joined(members)|);
    SetStep(tag, len, size, Joined(members) + ([last] + part), []);
    NothingVisited();
  }

  // ---------------------------------------------------------------- both directions

  /** What is written in the grammar is walked to the end, and the values taken are its fields. */
  lemma {:induction false} ItemsComplete(i: Items)
    requires IsItems(i)
    ensures IsWalkable(ItemsBytes(i)) && Visits(ItemsBytes(i)) == Fields(i)
  {
    hide Advance, Visits, IsLength, Covers, RunsOff, IsDataBytes, Joined;
    match i
    case Nothing => NothingVisited();
    case Field(tag, len, value, next) =>
      ItemsComplete(next);
      FieldStep(tag, len, value, ItemsBytes(next));
    case Context(tag, len, size, inner, skipped, next) =>
      ItemsComplete(next);
      ContextStep(tag, len, size, inner, skipped, ItemsBytes(next));
    case ContextOff(tag, len, size, part) =>
      ContextEnd(tag, len, size, part);
    case Group(tag, len, size, members, next) =>
      ItemsComplete(next);
      GroupStep(tag, len, size, members, ItemsBytes(next));
    case GroupOff(tag, len, size, members, last, part) =>
      GroupEnd(tag, len, size, members, last, part);
  }

  /** The TLVs that a skip of `m` octets goes over. */
  ghost function Skips(w: bytes, m: int): (ts: seq<Tlv>)
    decreases |w|
  {
    if m <= 0 || w == [] || !LengthAt(w[1..]).Length? then []
    else
      var Length(size, n) := LengthAt(w[1..]);
      if 1 + size + n > |w| then []
      else [Tlv(w[0], w[1..1 + size], w[1 + size..1 + size + n])] + Skips(w[1 + size + n..], m - 1 - size - n)
  }

  lemma FirstSkip(w: bytes, m: nat)
    requires m > 0 && w != [] && LengthAt(w[1..]).Length? && 1 + LengthAt(w[1..]).size + LengthAt(w[1..]).value <= |w|
    ensures var Length(size, n) := LengthAt(w[1..]);
            var t, d := Tlv(w[0], w[1..1 + size], w[1 + size..1 + size + n]), 1 + size + n;
            && IsLength(t.len, |t.value|) && w == TlvBytes(t) + w[d..] && |TlvBytes(t)| == d
            && Skips(w, m) == [t] + Skips(w[d..], m - d)
            && SkipItems(w, m) == SkipItems(w[d..], m - d)
  {
    hide IsLength, SkipItems;
    var Length(size, n) := LengthAt(w[1..]);
    LengthExact(w[1..], w[1..1 + size], n);
    SkipStep(w, m);
  }

  lemma {:induction false} SkipSound(w: bytes, m: nat)
    requires 0 < m && SkipItems(w, m).Rest?
    ensures var ts := Skips(w, m);
            && (forall t <- ts :: IsLength(t.len, |t.value|))
            && |Joined(ts)| <= |w| && w[..|Joined(ts)|] == Joined(ts)
            && (ts != [] ==> |Joined(ts[..|ts| - 1])| < m)
            && var left := w[|Joined(ts)|..];
               if |Joined(ts)| < m && left != [] then RunsOff(left[1..]) && SkipItems(w, m).rest == []
               else SkipItems(w, m).rest == left
    decreases |w|
  {
    hide IsLength, LengthAt, RunsOff, TlvBytes, Joined, Skips, SkipItems;
    if w == [] || !LengthAt(w[1..]).Length? || 1 + LengthAt(w[1..]).size + LengthAt(w[1..]).value > |w| {
      LastSkip(w, m);
    } else {
      FirstSkip(w, m);
      var Length(size, n) := LengthAt(w[1..]);
      var t, d := Tlv(w[0], w[1..1 + size], w[1 + size..1 + size + n]), 1 + size + n;
      if m - d > 0 {
        SkipSound(w[d..], m - d);
        JoinMore(t, Skips(w[d..], m - d), w, m);
      } else {
        NoMore(t, w[d..], m - d);
        JoinMore(t, [], w, m);
      }
    }
  }

  lemma LastSkip(w: bytes, m: nat)
    requires m > 0 && SkipItems(w, m).Rest?
    requires w == [] || !LengthAt(w[1..]).Length? || 1 + LengthAt(w[1..]).size + LengthAt(w[1..]).value > |w|
    ensures Skips(w, m) == [] && Joined([]) == [] && SkipItems(w, m).rest == []
    ensures w != [] ==> RunsOff(w[1..])
  {
    hide LengthAt, RunsOff;
    if w != [] {
      RunsOffIs(w[1..]);
    }
  }

  lemma NoMore(t: Tlv, w: bytes, m: int)
    requires m <= 0
    ensures Skips(w, m) == [] && Joined([]) == [] && SkipItems(w, m) == Rest(w)
  {
  }

  lemma JoinMore(t: Tlv, ts: seq<Tlv>, w: bytes, m: nat)
    requires |TlvBytes(t)| <= |w| && w[..|TlvBytes(t)|] == TlvBytes(t)
    requires |Joined(ts)| <= |w| - |TlvBytes(t)| && w[|TlvBytes(t)|..][..|Joined(ts)|] == Joined(ts)
    ensures |Joined([t] + ts)| == |TlvBytes(t)| + |Joined(ts)| && w[..|Joined([t] + ts)|] == Joined([t] + ts)
    ensures w[|Joined([t] + ts)|..] == w[|TlvBytes(t)|..][|Joined(ts)|..]
    ensures ts == [] ==> Joined(([t] + ts)[..|ts|]) == []
    ensures ts != [] ==> |Joined(([t] + ts)[..|ts|])| == |TlvBytes(t)| + |Joined(ts[..|ts| - 1])|
  {
    hide TlvBytes;
    assert ([t] + ts)[1..] == ts;
    SliceSlice(w, |TlvBytes(t)|, |w|, 0, |Joined(ts)|);
    assert w[..|TlvBytes(t)|] + w[|TlvBytes(t)|..|TlvBytes(t)| + |Joined(ts)|] == w[..|TlvBytes(t)| + |Joined(ts)|];
    if ts != [] {
      assert ([t] + ts)[..|ts|] == [t] + ts[..|ts| - 1];
      assert ([t] + ts[..|ts| - 1])[1..] == ts[..|ts| - 1];
    }
  }

  /** The items that a walk to the end goes through. */
  ghost function ItemsOf(v: bytes): (i: Items)
    requires IsWalkable(v)
    decreases |v|
  {
    if v == [] then Nothing
    else
      var Item(tag, len, value, rest) := ItemAt(v);
      var next := Advance(v).value;
      var w, n := value + rest, |value|;
      if tag in {0x30, 0x31} then
        var members := Skips(w, n);
        var at := |Joined(members)|;
        if n <= at || at >= |w| then Group(tag, len, n, members, ItemsOf(next))
        else GroupOff(tag, len, n, members, w[at], w[at + 1..])
      else if tag in {0xA0, 0xA1} then
        if RunsOff(w) then ContextOff(tag, len, n, w)
        else
          var k := if LengthAt(w).Length? then LengthAt(w).size else 0;
          Context(tag, len, n, w[..k], w[k..|w| - |next|], ItemsOf(next))
      else Field(tag, len, value, ItemsOf(next))
  }

  lemma OpenAt(v: bytes)
    requires v != [] && ItemAt(v).Item?
    ensures var Item(tag, len, value, rest) := ItemAt(v);
            IsLength(len, |value|) && v == [tag] + len + value + rest && v == [tag] + len + (value + rest)
  {
    hide ItemAt, IsLength;
    var i := ItemAt(v);
    ItemExact(v, i.tag, i.len, i.value, i.rest);
  }

  lemma ContextSound(w: bytes, size: nat)
    requires 0 < size <= |w| && SkipInner(w).Rest?
    ensures RunsOff(w) ==> SkipInner(w).rest == []
    ensures !RunsOff(w) ==> LengthAt(w).Length?
    ensures !RunsOff(w) ==>
              var k, next := LengthAt(w).size, SkipInner(w).rest;
              && k <= |w| - |next| && w == w[..k] + w[k..|w| - |next|] + next
              && IsLength(w[..k], |w| - |next| - k)
  {
    hide LengthAt, IsLength, RunsOff;
    RunsOffIs(w);
    if !RunsOff(w) {
      LengthExact(w, w[..LengthAt(w).size], LengthAt(w).value);
    }
  }

  lemma GroupSound(w: bytes, size: nat)
    requires 0 < size <= |w| && SkipItems(w, size).Rest?
    ensures var ts := Skips(w, size);
            var at, next := |Joined(ts)|, SkipItems(w, size).rest;
            && at <= |w| && w == Joined(ts) + w[at..]
            && (forall t <- ts :: IsLength(t.len, |t.value|))
            && if size <= at || at >= |w| then next == w[at..] && Covers(ts, size)
               else w == Joined(ts) + ([w[at]] + w[at + 1..]) && RunsOff(w[at + 1..])
  {
    hide SkipItems, Skips, IsLength, RunsOff;
    SkipSound(w, size);
  }

  ghost predicate Writes(i: Items, v: bytes)
  {
    IsItems(i) && ItemsBytes(i) == v
  }

  lemma GroupItem(v: bytes)
    requires v != [] && IsWalkable(v) && ItemAt(v).tag in {0x30, 0x31} && Writes(ItemsOf(Advance(v).value), Advance(v).value)
    ensures Writes(ItemsOf(v), v)
  {
    hide ItemAt, AllData, SkipItems, SkipInner, IsLength, RunsOff, Covers, Joined, Skips;
    OpenAt(v);
    GroupSound(ItemAt(v).value + ItemAt(v).rest, |ItemAt(v).value|);
  }

  lemma ContextItem(v: bytes)
    requires v != [] && IsWalkable(v) && ItemAt(v).tag in {0xA0, 0xA1} && Writes(ItemsOf(Advance(v).value), Advance(v).value)
    ensures Writes(ItemsOf(v), v)
  {
    hide ItemAt, AllData, SkipItems, SkipInner, LengthAt, IsLength, RunsOff, Covers, Joined;
    OpenAt(v);
    ContextSound(ItemAt(v).value + ItemAt(v).rest, |ItemAt(v).value|);
  }

  lemma FieldItem(v: bytes)
    requires v != [] && IsWalkable(v) && ItemAt(v).tag !in {0x30, 0x31, 0xA0, 0xA1}
    requires Writes(ItemsOf(Advance(v).value), Advance(v).value)
    ensures Writes(ItemsOf(v), v)
  {
    hide ItemAt, AllData, SkipItems, SkipInner, LengthAt, IsLength, RunsOff, Covers, Joined, IsDataBytes;
    OpenAt(v);
    DataTree(ItemAt(v).value);
  }

  /** What is walked to the end is written in the grammar. */
  lemma {:induction false} ItemsSound(v: bytes)
    requires IsWalkable(v)
    ensures Writes(ItemsOf(v), v)
    decreases |v|
  {
    hide ItemAt;
    if v == [] {
      return;
    }
    hide Writes, Advance, ItemsOf;
    ItemsSound(Advance(v).value);
    if ItemAt(v).tag in {0x30, 0x31} {
      GroupItem(v);
    } else if ItemAt(v).tag in {0xA0, 0xA1} {
      ContextItem(v);
    } else {
      FieldItem(v);
    }
  }

  // ---------------------------------------------------------------- the whole APDU

  /** An APDU: tag 0x61, a length field whose value is not looked at, and items up to the end. */
  datatype Pdu = Pdu(len: bytes, size: nat, items: Items)

  function PduBytes(t: Pdu): (s: bytes)
  {
    [0x61] + t.len + ItemsBytes(t.items)
  }

  /** The number in a field that need not be there: of one to four octets, and otherwise zero. */
  ghost predicate Means(field: Option<bytes>, n: nat)
  {
    match field
    case None => n == 0
    case Some(value) => n == if 1 <= |value| <= 4 then BeNat(value) else 0
  }

  ghost predicate IsPdu(t: Pdu)
  {
    var vs := Fields(t.items);
    && IsLength(t.len, t.size) && IsItems(t.items)
    && Last(vs, 0x80).Some? && Last(vs, 0x82).Some? && Last(vs, 0x83).Some?
    && exists n: nat :: Means(Last(vs, 0x8A), n) && EntriesOf(vs, n % 0x1_0000)
  }

  lemma MeansNumber(field: Option<bytes>, n: nat)
    ensures Means(field, n) <==> n == NumberOr(field, 0)
  {
  }

  lemma {:induction false} LastIs(vs: seq<Visit>, tag: byte)
    ensures Last(vs, tag).None? <==> forall i :: 0 <= i < |vs| ==> vs[i].tag != tag
    ensures Last(vs, tag).Some? ==> exists i ::
              && 0 <= i < |vs| && vs[i] == Visit(tag, Last(vs, tag).value)
              && forall j :: i < j < |vs| ==> vs[j].tag != tag
  {
    if vs != [] {
      LastIs(vs[1..], tag);
      if Last(vs[1..], tag).Some? {
        var i :| 0 <= i < |vs[1..]| && vs[1..][i] == Visit(tag, Last(vs[1..], tag).value)
                 && forall j :: i < j < |vs[1..]| ==> vs[1..][j].tag != tag;
        assert vs[i + 1] == Visit(tag, Last(vs, tag).value);
        assert forall j :: i + 1 < j < |vs| ==> vs[j] == vs[1..][j - 1];
      }
    }
  }

  lemma PduParts(t: Pdu)
    requires IsLength(t.len, t.size)
    ensures var a := PduBytes(t);
            && |a| >= 2 && a[0] == 0x61 && LengthAt(a[1..]).Length? && ApduItems(a) == ItemsBytes(t.items)
  {
    hide LengthAt;
    var a := PduBytes(t);
    assert a[1..] == t.len + ItemsBytes(t.items);
    LengthExact(a[1..], t.len, t.size);
  }

  /**
   A GOOSE APDU is accepted if and only if it is one: a header, items of the grammar up to the end, the three
   names among its fields, and an entry count that is the one of its last allData.
   */
  lemma GooseExact(apdu: bytes, base: nat)
    ensures WalkApdu(apdu, base).Done? && WalkApdu(apdu, base).code == 0 <==> exists t :: IsPdu(t) && PduBytes(t) == apdu
  {
    hide IsLength, LengthAt, Last, IsItems, ItemsBytes, Fields, EntriesOf, Means, WalkApdu, IsWalkable, Visits;
    AcceptedGoose(apdu, base);
    if IsGoose(apdu) {
      GooseTree(apdu);
    }
    if t :| IsPdu(t) && PduBytes(t) == apdu {
      PduIsGoose(t);
    }
  }

  lemma PduIsGoose(t: Pdu)
    requires IsPdu(t)
    ensures IsGoose(PduBytes(t)) && ApduVisits(PduBytes(t)) == Fields(t.items)
  {
    hide IsLength, LengthAt, Last, IsItems, ItemsBytes, Fields, EntriesOf, IsWalkable, Visits, Means, ApduItems;
    PduParts(t);
    ItemsComplete(t.items);
    var n: nat :| Means(Last(Fields(t.items), 0x8A), n) && EntriesOf(Fields(t.items), n % 0x1_0000);
    MeansNumber(Last(Fields(t.items), 0x8A), n);
  }

  lemma GooseTree(apdu: bytes)
    requires IsGoose(apdu)
    ensures exists t :: IsPdu(t) && PduBytes(t) == apdu
  {
    hide IsLength, LengthAt, Last, IsItems, ItemsBytes, Fields, EntriesOf, Visits, Means, IsWalkable;
    var v, len := ApduItems(apdu), apdu[1..][..LengthAt(apdu[1..]).size];
    var t := Pdu(len, LengthAt(apdu[1..]).value, ItemsOf(v));
    ItemsSound(v);
    LengthExact(apdu[1..], len, t.size);
    ItemsComplete(t.items);
    var n := NumberOr(Last(Visits(v), 0x8A), 0);
    MeansNumber(Last(Visits(v), 0x8A), n);
    assert Fields(t.items) == Visits(v) == ApduVisits(apdu);
    assert Means(Last(Fields(t.items), 0x8A), n) && EntriesOf(Fields(t.items), n % 0x1_0000);
    assert apdu == [0x61] + len + v;
    assert IsPdu(t) && PduBytes(t) == apdu;
  }

  /** And its passport and state are those of the last field with each tag. */
  lemma PduReads(t: Pdu, base: nat)
    requires IsPdu(t)
    ensures var out, vs := WalkApdu(PduBytes(t), base), Fields(t.items);
            && out.Done? && out.code == 0
            && out.goose.names == Names(Last(vs, 0x80), Last(vs, 0x82), Last(vs, 0x83))
            && Means(Last(vs, 0x85), out.goose.numbers.stNum) && Means(Last(vs, 0x86), out.goose.numbers.sqNum)
            && Means(Last(vs, 0x88), out.goose.numbers.crev)
            && EntriesOf(vs, out.goose.numbers.num) && (exists n: nat :: Means(Last(vs, 0x8A), n) && out.goose.numbers.num == n % 0x1_0000)
            && out.goose.numbers.timestamp == (if LastStamp(vs).Some? then BeNat(LastStamp(vs).value) else 0)
  {
    hide IsLength, LengthAt, Last, IsItems, ItemsBytes, Fields, EntriesOf, Visits, WalkApdu, IsGoose, LastStamp, Means, SaysOffset;
    var vs := Fields(t.items);
    PduIsGoose(t);
    AcceptedGoose(PduBytes(t), base);
    var g := WalkApdu(PduBytes(t), base).goose;
    MeansNumber(Last(vs, 0x85), g.numbers.stNum);
    MeansNumber(Last(vs, 0x86), g.numbers.sqNum);
    MeansNumber(Last(vs, 0x88), g.numbers.crev);
    PduCount(t, g.numbers.num);
  }

  lemma PduWalks(t: Pdu, base: nat)
    requires IsPdu(t)
    ensures WalkApdu(PduBytes(t), base).Done?
  {
    hide WalkApdu, IsPdu, PduBytes, Means, Last, Fields;
    PduReads(t, base);
  }

  lemma PduNames(t: Pdu)
    requires IsPdu(t)
    ensures var vs := Fields(t.items); Last(vs, 0x80).Some? && Last(vs, 0x82).Some? && Last(vs, 0x83).Some?
  {
  }

  lemma PduCount(t: Pdu, num: u16)
    requires IsPdu(t) && num == NumberOr(Last(Fields(t.items), 0x8A), 0) % U16
    ensures EntriesOf(Fields(t.items), num)
    ensures exists n: nat :: Means(Last(Fields(t.items), 0x8A), n) && num == n % 0x1_0000
  {
    hide IsLength, Last, IsItems, Fields, EntriesOf, Means;
    var vs := Fields(t.items);
    var n: nat :| Means(Last(vs, 0x8A), n) && EntriesOf(vs, n % 0x1_0000);
    MeansNumber(Last(vs, 0x8A), n);
  }

  lemma {:induction false} StampIs(vs: seq<Visit>)
    ensures LastStamp(vs).None? <==> forall i :: 0 <= i < |vs| && vs[i].tag == 0x84 ==> !(4 <= |vs[i].value| <= 8)
    ensures LastStamp(vs).Some? ==> exists i ::
              && 0 <= i < |vs| && vs[i] == Visit(0x84, LastStamp(vs).value)
              && forall j :: i < j < |vs| && vs[j].tag == 0x84 ==> !(4 <= |vs[j].value| <= 8)
  {
    if vs != [] {
      StampIs(vs[1..]);
      assert forall j :: 0 < j < |vs| ==> vs[j] == vs[1..][j - 1];
      if LastStamp(vs[1..]).Some? {
        var i :| 0 <= i < |vs[1..]| && vs[1..][i] == Visit(0x84, LastStamp(vs[1..]).value)
                 && forall j :: i < j < |vs[1..]| && vs[1..][j].tag == 0x84 ==> !(4 <= |vs[1..][j].value| <= 8);
        assert vs[i + 1] == Visit(0x84, LastStamp(vs).value);
      }
    }
  }

  // ---------------------------------------------------------------- where the data lies

  /** Where the value of the last allData starts, counting from `off` for the first item. */
  ghost function DataPlace(i: Items, off: nat): (at: Option<nat>)
  {
    match i
    case Nothing => None
    case Field(tag, len, value, next) =>
      var later := DataPlace(next, off + 1 + |len| + |value|);
      if later.Some? then later else if tag == 0xAB then Some(off + 1 + |len|) else None
    case Context(_, len, _, inner, skipped, next) => DataPlace(next, off + 1 + |len| + |inner| + |skipped|)
    case Group(_, len, _, members, next) => DataPlace(next, off + 1 + |len| + |Joined(members)|)
    case _ => None
  }

  lemma DataAtStep(v: bytes, off: nat, rest: bytes)
    requires v != [] && Advance(v) == Some(rest)
    ensures v[0] != 0xAB ==> DataAt(v, off) == DataAt(rest, off + |v| - |rest|)
    ensures DataAt(v, off) == if DataAt(rest, off + |v| - |rest|).Some? then DataAt(rest, off + |v| - |rest|)
                              else if v[0] == 0xAB then Some(off + 1 + |ItemAt(v).len|) else None
  {
    hide ItemAt, AllData, SkipItems, SkipInner;
  }

  lemma {:induction false} DataPlaced(i: Items, off: nat)
    requires IsItems(i)
    ensures DataAt(ItemsBytes(i), off) == DataPlace(i, off)
  {
    hide Advance, Visits, IsLength, Covers, RunsOff, IsDataBytes, Joined, DataAt, ItemAt;
    var v := ItemsBytes(i);
    match i
    case Nothing => NoData(off);
    case Field(tag, len, value, next) =>
      DataPlaced(next, off + 1 + |len| + |value|);
      FieldStep(tag, len, value, ItemsBytes(next));
      ItemExact(v, tag, len, value, ItemsBytes(next));
      DataAtStep(v, off, ItemsBytes(next));
    case Context(tag, len, size, inner, skipped, next) =>
      DataPlaced(next, off + 1 + |len| + |inner| + |skipped|);
      ContextStep(tag, len, size, inner, skipped, ItemsBytes(next));
      DataAtStep(v, off, ItemsBytes(next));
    case ContextOff(tag, len, size, part) =>
      ContextEnd(tag, len, size, part);
      DataAtStep(v, off, []);
      NoData(off + |v|);
    case Group(tag, len, size, members, next) =>
      DataPlaced(next, off + 1 + |len| + |Joined(members)|);
      GroupStep(tag, len, size, members, ItemsBytes(next));
      DataAtStep(v, off, ItemsBytes(next));
    case GroupOff(tag, len, size, members, last, part) =>
      GroupEnd(tag, len, size, members, last, part);
      DataAtStep(v, off, []);
      NoData(off + |v|);
  }

  lemma NoData(off: nat)
    ensures DataAt([], off) == None
  {
  }

  /** The offset in the passport: the place of the last allData, in the buffer that has the APDU at `base`. */
  lemma PduOffset(t: Pdu, base: nat)
    requires IsPdu(t)
    ensures WalkApdu(PduBytes(t), base).Done?
    ensures var place := DataPlace(t.items, base + 1 + |t.len|);
            WalkApdu(PduBytes(t), base).goose.allDataOffset == if place.Some? then place.value % 0x1_0000 else 0
  {
    hide IsLength, IsItems, ItemsBytes, Fields, Walk, Last, Visits, IsWalkable, DataAt;
    PduParts(t);
    PduIsGoose(t);
    HeaderSize(t);
    WalkOffset(ItemsBytes(t.items), base + 1 + |t.len|, FRESH);
    DataPlaced(t.items, base + 1 + |t.len|);
  }

  lemma HeaderSize(t: Pdu)
    requires IsLength(t.len, t.size)
    ensures |PduBytes(t)| > 1 && LengthAt(PduBytes(t)[1..]) == Length.Length(|t.len|, t.size)
  {
    hide LengthAt;
    assert PduBytes(t)[1..] == t.len + ItemsBytes(t.items);
    LengthExact(PduBytes(t)[1..], t.len, t.size);
  }

  // ---------------------------------------------------------------- refusals

  /** The bytes at which a walk that does not reach the end stops. */
  ghost function Stuck(v: bytes): (r: bytes)
    requires !IsWalkable(v)
    ensures r != [] && Advance(r).None?
    decreases |v|
  {
    if Advance(v).None? then v else Stuck(Advance(v).value)
  }

  /** A whole allData item whose value is no data. */
  ghost predicate IsBadData(v: bytes)
  {
    exists len, value :: IsLength(len, |value|) && [0xAB] + len + value <= v && value != [] && !IsDataBytes(value)
  }

  lemma BadDataIs(v: bytes)
    requires v != []
    ensures IsBadData(v) <==> ItemAt(v).Item? && ItemAt(v).tag == 0xAB && ItemAt(v).value != [] && !AllData(ItemAt(v).value, 0).Forest?
  {
    hide ItemAt, IsLength, AllData, IsDataBytes;
    if len, value :| IsLength(len, |value|) && [0xAB] + len + value <= v && value != [] && !IsDataBytes(value) {
      BadItem(v, len, value);
    }
    if ItemAt(v).Item? {
      var i := ItemAt(v);
      ItemExact(v, i.tag, i.len, i.value, i.rest);
      DataTree(i.value);
    }
  }

  lemma BadItem(v: bytes, len: bytes, value: bytes)
    requires IsLength(len, |value|) && [0xAB] + len + value <= v && !IsDataBytes(value)
    ensures ItemAt(v) == Item.Item(0xAB, len, value, v[1 + |len| + |value|..]) && !AllData(value, 0).Forest?
  {
    hide ItemAt, IsLength, AllData, IsDataBytes;
    var item := [0xAB] + len + value;
    PrefixSplit(item, v);
    ItemExact(v, 0xAB, len, value, v[|item|..]);
    DataTree(value);
  }

  lemma PrefixSplit(p: bytes, v: bytes)
    requires p <= v
    ensures v == p + v[|p|..]
  {
  }

  /** A walk that does not reach the end says whether it is allData that it stopped at. */
  lemma {:induction false} StuckCode(v: bytes, off: nat, g: Goose)
    requires !IsWalkable(v) && Walk(v, off, g).Done?
    ensures Walk(v, off, g).code == if IsBadData(Stuck(v)) then -101 else -3
    decreases |v|
  {
    hide WalkItem, Advance, IsBadData;
    ItemAdvance(v, off, g);
    if Advance(v).None? {
      StopCode(v, off, g);
    } else {
      var x := WalkItem(v, off, g);
      StuckCode(x.rest, off + |v| - |x.rest|, x.goose);
    }
  }

  lemma StopCode(v: bytes, off: nat, g: Goose)
    requires v != [] && WalkItem(v, off, g).Stop? && WalkItem(v, off, g).out.Done?
    ensures WalkItem(v, off, g).out.code == if IsBadData(v) then -101 else -3
  {
    hide ItemAt, AllData, SkipItems, SkipInner, IsBadData;
    BadDataIs(v);
  }

  /**
   The codes of a refusal: -3 for a wrong header or an item that cannot be taken, -101 for an allData that is no
   data, -102 for an entry count other than announced, -100 for a missing name.
   */
  lemma GooseCodes(apdu: bytes, base: nat)
    requires WalkApdu(apdu, base).Done?
    ensures var out := WalkApdu(apdu, base);
            && out.code in {0, -3, -100, -101, -102}
            && (|apdu| >= 2 && apdu[0] == 0x61 && IsWalkable(ApduItems(apdu)) ==>
                  (out.code == -102 <==> out.goose.numbers.foundEntries != out.goose.numbers.num))
            && (out.code == -100 ==> out.goose.names.gocbref.None? || out.goose.names.dataset.None? || out.goose.names.goid.None?)
            && (out.code == -101 ==> !IsWalkable(ApduItems(apdu)) && IsBadData(Stuck(ApduItems(apdu))))
            && (out.code == -3 ==> |apdu| < 2 || apdu[0] != 0x61
                                   || (!IsWalkable(ApduItems(apdu)) && !IsBadData(Stuck(ApduItems(apdu)))))
  {
    hide Walk, IsWalkable, IsBadData, Stuck, Visits;
    if |apdu| >= 2 && apdu[0] == 0x61 && LengthAt(apdu[1..]).Length? {
      var v, off := ApduItems(apdu), base + 1 + LengthAt(apdu[1..]).size;
      if IsWalkable(v) {
        WalkSays(v, off, FRESH);
      } else {
        StuckCode(v, off, FRESH);
      }
    }
  }
}
