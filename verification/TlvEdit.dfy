/** Overwriting parts of TLV values in place: the bytes that change, and the fields that result. */
module TlvEdit {
  import opened Bytes
  import opened SvApdu
  import opened Writes
  import RFrame

  // ---------------------------------------------------------------- overwriting part of a field

  /** Where the value of field `i` starts. */
  function ValueAt(fs: seq<Field>, i: nat): (at: nat)
    requires i < |fs|
  {
    |FieldsBytes(fs[..i])| + 1 + |fs[i].len|
  }

  function SetPart(fs: seq<Field>, i: nat, off: nat, w: bytes): (r: seq<Field>)
    requires i < |fs| && off + |w| <= |fs[i].value|
    ensures |r| == |fs| && forall k :: 0 <= k < |fs| && k != i ==> r[k] == fs[k]
    ensures r[i] == Field(fs[i].tag, fs[i].len, Overlay(fs[i].value, off, w))
  {
    fs[i := fs[i].(value := Overlay(fs[i].value, off, w))]
  }

  lemma {:induction false} FieldsSplit(fs: seq<Field>, i: nat)
    requires i < |fs|
    ensures FieldsBytes(fs) == FieldsBytes(fs[..i]) + FieldBytes(fs[i]) + FieldsBytes(fs[i + 1..])
  {
    if i > 0 {
      FieldsSplit(fs[1..], i - 1);
      assert fs[1..][..i - 1] == fs[..i][1..] && fs[1..][i..] == fs[i + 1..];
    }
  }

  lemma FieldsSet(fs: seq<Field>, i: nat, off: nat, w: bytes)
    requires i < |fs| && off + |w| <= |fs[i].value|
    ensures ValueAt(fs, i) + off + |w| <= |FieldsBytes(fs)|
    ensures FieldsBytes(SetPart(fs, i, off, w)) == Overlay(FieldsBytes(fs), ValueAt(fs, i) + off, w)
  {
    hide FieldsBytes;
    var gs, f := SetPart(fs, i, off, w), fs[i];
    assert gs[..i] == fs[..i] && gs[i + 1..] == fs[i + 1..];
    FieldsSplit(fs, i);
    FieldsSplit(gs, i);
    var before, after := FieldsBytes(fs[..i]) + ([f.tag] + f.len), FieldsBytes(fs[i + 1..]);
    assert FieldsBytes(fs) == before + f.value + after;
    assert FieldsBytes(gs) == before + Overlay(f.value, off, w) + after;
    RFrame.OverlayInside(before, f.value, after, off, w);
  }

  // ---------------------------------------------------------------- several parts

  /** The place of a tag among fields that hold it. */
  ghost function IndexOf(fs: seq<Field>, tag: byte): (i: nat)
    requires Present(fs, tag)
    ensures i < |fs| && fs[i].tag == tag
  {
    var i :| 0 <= i < |fs| && fs[i].tag == tag;
    i
  }

  /** Data to be stored at an offset of one field's value. */
  datatype Edit = Edit(field: nat, off: nat, data: bytes)

  ghost predicate Fit(fs: seq<Field>, es: seq<Edit>)
  {
    forall k :: 0 <= k < |es| ==> es[k].field < |fs| && es[k].off + |es[k].data| <= |fs[es[k].field].value|
  }

  /** Same tags, lengths and sizes. */
  ghost predicate SameSizes(fs: seq<Field>, gs: seq<Field>)
  {
    && |fs| == |gs|
    && forall i :: 0 <= i < |fs| ==> gs[i].tag == fs[i].tag && gs[i].len == fs[i].len && |gs[i].value| == |fs[i].value|
  }

  ghost function Edited(fs: seq<Field>, es: seq<Edit>): (gs: seq<Field>)
    requires Fit(fs, es)
    ensures SameSizes(fs, gs)
  {
    if es == [] then fs
    else
      var e := es[|es| - 1];
      SetPart(Edited(fs, es[..|es| - 1]), e.field, e.off, e.data)
  }

  /** The same as stores into the bytes. */
  function Stores(fs: seq<Field>, es: seq<Edit>): (ws: seq<Write>)
    requires forall k :: 0 <= k < |es| ==> es[k].field < |fs|
    ensures |ws| == |es|
    ensures forall k :: 0 <= k < |es| ==> ws[k] == Store(ValueAt(fs, es[k].field) + es[k].off, es[k].data)
  {
    seq(|es|, k requires 0 <= k < |es| => Store(ValueAt(fs, es[k].field) + es[k].off, es[k].data))
  }

  lemma {:induction false} SameSizesSame(fs: seq<Field>, gs: seq<Field>)
    requires SameSizes(fs, gs)
    ensures |FieldsBytes(fs)| == |FieldsBytes(gs)|
  {
    if fs != [] {
      SameSizesSame(fs[1..], gs[1..]);
    }
  }

  lemma {:induction false} EditsAreStores(fs: seq<Field>, es: seq<Edit>)
    requires Fit(fs, es)
    ensures InRange(Stores(fs, es), |FieldsBytes(fs)|)
    ensures FieldsBytes(Edited(fs, es)) == Apply(FieldsBytes(fs), Stores(fs, es))
  {
    hide FieldsBytes, Apply, SetPart, Stores;
    if es == [] {
      NoStores(fs);
    } else {
      var init, e := es[..|es| - 1], es[|es| - 1];
      EditsAreStores(fs, init);
      var gs := Edited(fs, init);
      FieldsSet(gs, e.field, e.off, e.data);
      SameSizesSame(fs[..e.field], gs[..e.field]);
      SameSizesSame(fs, gs);
      assert Stores(fs, es) == Stores(fs, init) + [Store(ValueAt(fs, e.field) + e.off, e.data)];
      OneMoreStore(FieldsBytes(fs), Stores(fs, init), Store(ValueAt(fs, e.field) + e.off, e.data));
    }
  }

  lemma NoStores(fs: seq<Field>)
    ensures Stores(fs, []) == [] && Apply(FieldsBytes(fs), []) == FieldsBytes(fs)
  {
  }

  lemma OneMoreStore(s: bytes, ws: seq<Write>, w: Write)
    requires InRange(ws, |s|) && w.at + |w.data| <= |s|
    ensures InRange(ws + [w], |s|) && Apply(s, ws + [w]) == Overlay(Apply(s, ws), w.at, w.data)
  {
    assert (ws + [w])[..|ws|] == ws;
  }

  /** A field that no edit names stays. */
  lemma {:induction false} EditedElse(fs: seq<Field>, es: seq<Edit>, i: nat)
    requires Fit(fs, es) && i < |fs| && forall k :: 0 <= k < |es| ==> es[k].field != i
    ensures Edited(fs, es)[i] == fs[i]
  {
    if es != [] {
      EditedElse(fs, es[..|es| - 1], i);
    }
  }

  /** A field that one edit names is overwritten by it. */
  lemma {:induction false} EditedAt(fs: seq<Field>, es: seq<Edit>, k: nat)
    requires Fit(fs, es) && k < |es| && forall j :: 0 <= j < |es| && j != k ==> es[j].field != es[k].field
    ensures Edited(fs, es)[es[k].field].value == Overlay(fs[es[k].field].value, es[k].off, es[k].data)
  {
    var init := es[..|es| - 1];
    if k < |init| {
      EditedAt(fs, init, k);
    } else {
      EditedElse(fs, init, es[k].field);
    }
  }
}
