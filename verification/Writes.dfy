/** Lists of stores at fixed places, and why a later pass over the same places forgets the earlier one. */
module Writes {
  import opened Bytes

  datatype Write = Store(at: nat, data: bytes)

  ghost predicate InRange(ws: seq<Write>, n: nat)
  {
    forall k :: 0 <= k < |ws| ==> ws[k].at + |ws[k].data| <= n
  }

  /** Same places and sizes; the data may differ. */
  ghost predicate SameShape(a: seq<Write>, b: seq<Write>)
  {
    && |a| == |b|
    && forall k :: 0 <= k < |a| ==> a[k].at == b[k].at && |a[k].data| == |b[k].data|
  }

  ghost predicate Covers(ws: seq<Write>, i: int)
  {
    exists k :: 0 <= k < |ws| && ws[k].at <= i < ws[k].at + |ws[k].data|
  }

  /** `s` after the stores, first to last. */
  function Apply(s: bytes, ws: seq<Write>): (r: bytes)
    requires InRange(ws, |s|)
    ensures |r| == |s|
  {
    if ws == [] then s
    else Overlay(Apply(s, ws[..|ws| - 1]), ws[|ws| - 1].at, ws[|ws| - 1].data)
  }

  /** Equal wherever the stores do not reach. */
  ghost predicate AgreeOff(ws: seq<Write>, s: bytes, t: bytes)
  {
    |s| == |t| && forall i :: 0 <= i < |s| && !Covers(ws, i) ==> s[i] == t[i]
  }

  lemma {:induction false} ApplyAt(s: bytes, t: bytes, ws: seq<Write>, i: nat)
    requires |s| == |t| && i < |s| && InRange(ws, |s|)
    requires Covers(ws, i) || s[i] == t[i]
    ensures Apply(s, ws)[i] == Apply(t, ws)[i]
  {
    if ws != [] {
      var init, last := ws[..|ws| - 1], ws[|ws| - 1];
      if !(last.at <= i < last.at + |last.data|) {
        if Covers(ws, i) {
          var k :| 0 <= k < |ws| && ws[k].at <= i < ws[k].at + |ws[k].data|;
          assert init[k] == ws[k];
        }
        ApplyAt(s, t, init, i);
      }
    }
  }

  /** What the buffer held under the stores does not matter. */
  lemma ApplyForgets(s: bytes, t: bytes, ws: seq<Write>)
    requires InRange(ws, |s|) && AgreeOff(ws, s, t)
    ensures Apply(s, ws) == Apply(t, ws)
  {
    forall i | 0 <= i < |s| ensures Apply(s, ws)[i] == Apply(t, ws)[i] {
      ApplyAt(s, t, ws, i);
    }
  }

  lemma {:induction false} ApplyMisses(s: bytes, ws: seq<Write>, i: nat)
    requires i < |s| && InRange(ws, |s|) && !Covers(ws, i)
    ensures Apply(s, ws)[i] == s[i]
  {
    if ws != [] {
      var init := ws[..|ws| - 1];
      assert forall k :: 0 <= k < |init| ==> init[k] == ws[k];
      ApplyMisses(s, init, i);
    }
  }

  /** Stores of one shape leave the buffer equal to the original off that shape. */
  lemma ApplyKeeps(s: bytes, t: bytes, ws: seq<Write>, shape: seq<Write>)
    requires InRange(ws, |s|) && SameShape(ws, shape) && AgreeOff(shape, s, t)
    ensures AgreeOff(shape, Apply(s, ws), t)
  {
    forall i | 0 <= i < |s| && !Covers(shape, i) ensures Apply(s, ws)[i] == t[i] {
      SameCover(ws, shape, i);
      ApplyMisses(s, ws, i);
    }
  }

  lemma SameCover(a: seq<Write>, b: seq<Write>, i: int)
    requires SameShape(a, b)
    ensures Covers(a, i) <==> Covers(b, i)
  {
    if Covers(a, i) {
      var k :| 0 <= k < |a| && a[k].at <= i < a[k].at + |a[k].data|;
      assert b[k].at <= i < b[k].at + |b[k].data|;
    }
    if Covers(b, i) {
      var k :| 0 <= k < |b| && b[k].at <= i < b[k].at + |b[k].data|;
      assert a[k].at <= i < a[k].at + |a[k].data|;
    }
  }

  lemma AgreeSameShape(a: seq<Write>, b: seq<Write>, s: bytes, t: bytes)
    requires SameShape(a, b) && AgreeOff(a, s, t)
    ensures AgreeOff(b, s, t)
  {
    forall i | 0 <= i < |s| && !Covers(b, i) ensures s[i] == t[i] {
      SameCover(a, b, i);
    }
  }

  /** The same stores on a part of a larger buffer. */
  lemma {:induction false} ApplyPart(before: bytes, part: bytes, after: bytes, ws: seq<Write>)
    requires InRange(ws, |part|)
    ensures InRange(Shift(ws, |before|), |before| + |part| + |after|)
    ensures Apply(before + part + after, Shift(ws, |before|)) == before + Apply(part, ws) + after
  {
    if ws != [] {
      var init, last := ws[..|ws| - 1], ws[|ws| - 1];
      ApplyPart(before, part, after, init);
      var shifted := Shift(ws, |before|);
      assert shifted[..|ws| - 1] == Shift(init, |before|);
      assert Overlay(before + Apply(part, init) + after, |before| + last.at, last.data) ==
             before + Overlay(Apply(part, init), last.at, last.data) + after;
    }
  }

  function Shift(ws: seq<Write>, n: nat): (r: seq<Write>)
    ensures |r| == |ws|
    ensures forall k :: 0 <= k < |ws| ==> r[k] == Store(ws[k].at + n, ws[k].data)
  {
    seq(|ws|, k requires 0 <= k < |ws| => Store(ws[k].at + n, ws[k].data))
  }

  /** The stores in place. */
  method ApplyInPlace(buf: array<byte>, ws: seq<Write>)
    requires InRange(ws, buf.Length)
    modifies buf
    ensures buf[..] == Apply(old(buf[..]), ws)
  {
    for n := 0 to |ws|
      invariant buf[..] == Apply(old(buf[..]), ws[..n])
    {
      assert ws[..n + 1][..n] == ws[..n];
      Bytes.Write(buf, ws[n].at, ws[n].data);
    }
    assert ws[..|ws|] == ws;
  }
}
