/** Fixed-width integers, big-endian fields and in-place writes of byte buffers. */
module Bytes {

  type byte = x: int | 0 <= x < 0x100
  type u16 = x: int | 0 <= x < 0x1_0000
  type u32 = x: int | 0 <= x < 0x1_0000_0000
  type u64 = x: int | 0 <= x < 0x1_0000_0000_0000_0000

  type bytes = seq<byte>

  const U16: int := 0x1_0000
  const U32: int := 0x1_0000_0000
  const U64: int := 0x1_0000_0000_0000_0000

  datatype Option<+T> = None | Some(value: T)

  /** The unsigned number whose base-256 digits are `s`, most significant first. */
  function BeNat(s: bytes): (n: nat)
  {
    if s == [] then 0 else 0x100 * BeNat(s[..|s| - 1]) + s[|s| - 1]
  }

  lemma BeNatPush(s: bytes, b: byte)
    ensures BeNat(s + [b]) == BeNat(s) * 0x100 + b
  {
    assert (s + [b])[..|s|] == s;
  }

  function Pow256(n: nat): (p: nat)
    ensures p > 0
  {
    if n == 0 then 1 else 0x100 * Pow256(n - 1)
  }

  lemma {:induction false} BeNatBound(s: bytes)
    ensures BeNat(s) < Pow256(|s|)
  {
    if s != [] {
      BeNatBound(s[..|s| - 1]);
    }
  }

  lemma {:induction false} Pow256Add(m: nat, n: nat)
    ensures Pow256(m + n) == Pow256(m) * Pow256(n)
  {
    if m > 0 {
      Pow256Add(m - 1, n);
    }
  }

  lemma {:induction false} BeNatAppend(s: bytes, t: bytes)
    ensures BeNat(s + t) == BeNat(s) * Pow256(|t|) + BeNat(t)
  {
    if t == [] {
      assert s + t == s;
    } else {
      var init := t[..|t| - 1];
      BeNatAppend(s, init);
      assert (s + t)[..|s + t| - 1] == s + init;
      assert BeNat(s) * Pow256(|t|) == BeNat(s) * Pow256(|init|) * 0x100;
    }
  }

  /** Shifting a big-endian number right by whole octets drops its last octets. */
  lemma BeNatShift(s: bytes, n: nat)
    requires n <= |s|
    ensures BeNat(s) / Pow256(|s| - n) == BeNat(s[..n])
  {
    BeNatAppend(s[..n], s[n..]);
    BeNatBound(s[n..]);
    assert s == s[..n] + s[n..];
    DivExact(BeNat(s[..n]), Pow256(|s| - n), BeNat(s[n..]));
  }

  lemma DivExact(q: nat, d: nat, r: nat)
    requires r < d
    ensures (q * d + r) / d == q
  {
    var x := (q * d + r) / d;
    assert x * d <= q * d + r < x * d + d;
    MulMono(x + 1, q, d);
    MulMono(q + 1, x, d);
  }

  lemma ModExact(q: nat, d: nat, r: nat)
    requires r < d
    ensures (q * d + r) % d == r
  {
    DivExact(q, d, r);
  }

  lemma ModNext(n: nat, d: nat)
    requires d > 0
    ensures (n + 1) % d == if n % d + 1 < d then n % d + 1 else 0
  {
    NextOf(n / d, n % d, d);
  }

  lemma NextOf(q: nat, r: nat, d: nat)
    requires r < d
    ensures (q * d + r + 1) % d == if r + 1 < d then r + 1 else 0
  {
    if r + 1 < d {
      ModExact(q, d, r + 1);
    } else {
      assert q * d + r + 1 == (q + 1) * d + 0;
      ModExact(q + 1, d, 0);
    }
  }

  /** A cyclic index steps like the counter it is the remainder of. */
  lemma NextIndex(n: nat, d: nat)
    requires d > 0
    ensures (n % d + 1) % d == (n + 1) % d
  {
    ModNext(n, d);
    NextOf(0, n % d, d);
  }

  lemma MulMono(a: int, b: int, d: nat)
    ensures a <= b ==> a * d <= b * d
  {
    if a <= b {
      assert (b - a) * d >= 0;
      assert b * d == a * d + (b - a) * d;
    }
  }

  /** Value of a one- to four-octet unsigned field; any other size reads as zero. */
  function Number(s: bytes): (v: u32)
    ensures 1 <= |s| <= 4 ==> v == BeNat(s)
  {
    if 1 <= |s| <= 4 then
      BeNatBound(s);
      assert Pow256(4) == U32 && Pow256(3) < U32 && Pow256(2) < U32 && Pow256(1) < U32;
      BeNat(s)
    else 0
  }

  function Be16(v: u16): (s: bytes)
    ensures |s| == 2 && Get16(s, 0) == v
  {
    [v / 0x100, v % 0x100]
  }

  function Be32(v: u32): (s: bytes)
    ensures |s| == 4 && Get32(s, 0) == v
  {
    Be16(v / 0x1_0000) + Be16(v % 0x1_0000)
  }

  /** A stored big-endian field reads back as its number. */
  lemma NumberOfBe16(v: u16)
    ensures Number(Be16(v)) == v
  {
    var s := Be16(v);
    assert s[..1] == [s[0]] && [s[0]][..0] == [];
    assert BeNat([s[0]]) == s[0];
  }

  lemma NumberOfBe32(v: u32)
    ensures Number(Be32(v)) == v
  {
    var s := Be32(v);
    assert s[..3] == [s[0], s[1], s[2]] && s[..3][..2] == [s[0], s[1]] && s[..3][..2][..1] == [s[0]] && [s[0]][..0] == [];
    assert BeNat([s[0]]) == s[0];
    var a: int, b: int, c: int := s[0], s[1], s[2];
    assert BeNat(s[..3][..2]) == 0x100 * a + b;
    assert BeNat(s[..3]) == 0x1_0000 * a + 0x100 * b + c;
  }

  lemma BeNatOfThree(a: byte, b: byte, c: byte)
    ensures BeNat([a, b, c]) == 0x1_0000 * a + 0x100 * b + c
  {
    assert [a, b, c][..2] == [a, b] && [a, b][..1] == [a] && [a][..0] == [];
    assert BeNat([a]) == a;
    assert BeNat([a, b]) == 0x100 * a + b;
  }

  lemma BeNatThreeMore(s: bytes, t: bytes)
    requires |t| == 3
    ensures BeNat(s + t) == BeNat(s) * 0x100_0000 + BeNat(t)
  {
    BeNatAppend(s, t);
    assert Pow256(3) == 0x100_0000;
  }

  function Get16(s: bytes, at: nat): (v: u16)
    requires at + 2 <= |s|
  {
    s[at] as int * 0x100 + s[at + 1]
  }

  function Get32(s: bytes, at: nat): (v: u32)
    requires at + 4 <= |s|
  {
    s[at] as int * 0x100_0000 + s[at + 1] as int * 0x1_0000 + s[at + 2] as int * 0x100 + s[at + 3]
  }

  function Zeros(n: nat): (s: bytes)
    ensures |s| == n
    ensures forall i :: 0 <= i < n ==> s[i] == 0
  {
    seq(n, _ => 0)
  }

  /** A wrapped 32-bit counter steps like the unwrapped one. */
  lemma Wrap32(x: int)
    ensures (x % U32 + 1) % U32 == (x + 1) % U32
  {
  }

  lemma WrapAdd(x: int, y: int)
    ensures (x % U32 + y) % U32 == (x + y) % U32
  {
  }

  lemma WrapAdd64(x: int, y: int)
    ensures (x % U64 + y) % U64 == (x + y) % U64
  {
  }

  /** `s` after `w` has been written over it at offset `at`. */
  function Overlay(s: bytes, at: nat, w: bytes): (r: bytes)
    requires at + |w| <= |s|
    ensures |r| == |s|
    ensures forall i :: 0 <= i < |s| ==> r[i] == if at <= i < at + |w| then w[i - at] else s[i]
  {
    s[..at] + w + s[at + |w|..]
  }

  /** `w` is what `s` holds at offset `at`. */
  predicate Holds(s: bytes, at: nat, w: bytes)
  {
    at + |w| <= |s| && s[at..at + |w|] == w
  }

  lemma SliceSlice<T>(s: seq<T>, a: nat, b: nat, c: nat, d: nat)
    requires a <= b <= |s| && c <= d <= b - a
    ensures s[a..b][c..d] == s[a + c..a + d]
  {
    var x, y := s[a..b][c..d], s[a + c..a + d];
    forall i | 0 <= i < |x| ensures x[i] == y[i] {
      assert x[i] == s[a..b][c + i];
    }
  }

  lemma ConcatParts<T>(a: seq<T>, b: seq<T>, c: seq<T>, d: seq<T>)
    ensures var s := a + b + c + d;
            && s[..|a|] == a && s[|a|..|a| + |b|] == b
            && s[|a| + |b|..|a| + |b| + |c|] == c && s[|a| + |b| + |c|..] == d
  {
  }

  lemma OverlayNothing(s: bytes, at: nat)
    requires at <= |s|
    ensures s == Overlay(s, at, [])
  {
  }

  lemma OverlayFuse(s: bytes, at: nat, w: bytes, x: bytes)
    requires at + |w| + |x| <= |s|
    ensures Overlay(Overlay(s, at, w), at + |w|, x) == Overlay(s, at, w + x)
  {
  }

  lemma HoldsPart(s: bytes, at: nat, w: bytes, off: nat, part: bytes)
    requires Holds(s, at, w) && Holds(w, off, part)
    ensures Holds(s, at + off, part)
  {
    SliceSlice(s, at, at + |w|, off, off + |part|);
  }

  /** The write loop behind every header store and memcpy. */
  method Write(buf: array<byte>, at: nat, w: bytes)
    requires at + |w| <= buf.Length
    modifies buf
    ensures buf[..] == Overlay(old(buf[..]), at, w)
  {
    for i := 0 to |w|
      invariant forall k :: 0 <= k < buf.Length ==>
        buf[k] == if at <= k < at + i then w[k - at] else old(buf[k])
    {
      buf[at + i] := w[i];
    }
  }

  /** Store the next field of a header whose earlier fields `done` are in place from `start` on. */
  method WriteNext(buf: array<byte>, ghost was: bytes, ghost start: nat, ghost done: bytes, at: nat, w: bytes)
    returns (ghost all: bytes)
    requires |was| == buf.Length && at == start + |done| && at + |w| <= buf.Length
    requires buf[..] == Overlay(was, start, done)
    modifies buf
    ensures all == done + w && buf[..] == Overlay(was, start, all)
  {
    all := done + w;
    Write(buf, at, w);
    OverlayFuse(was, start, done, w);
  }
}
