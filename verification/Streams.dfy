/** Stream identities: what a sending worker puts into its frames against what the receiver's table expects. */
module Streams {
  import opened Bytes
  import opened TxSchedule
  import Amend
  import Bits
  import Gaps
  import GooseWalk
  import RFrame
  import RGenerators
  import Routable
  import SvApdu

  // ---------------------------------------------------------------- decimal digits

  function Pow10(n: nat): (p: nat)
    ensures p > 0
  {
    if n == 0 then 1 else 10 * Pow10(n - 1)
  }

  function Digit(d: nat): (c: char)
    requires d < 10
  {
    "0123456789"[d]
  }

  /** Decimal text without leading zeros; zero has one digit. */
  function Decimal(n: nat): (s: string)
    ensures |s| > 0
  {
    if n < 10 then [Digit(n)] else Decimal(n / 10) + [Digit(n % 10)]
  }

  /** Zero-padded to at least `width` characters: std::format("{:0w}", n). */
  function Padded(n: nat, width: nat): (s: string)
    ensures |s| >= width
  {
    var d := Decimal(n);
    if |d| >= width then d else seq(width - |d|, _ => '0') + d
  }

  /** snprintf("%0wu", n) into a buffer of `width` characters and the terminator: the tail is cut off. */
  function Snprintf(n: nat, width: nat): (s: string)
    ensures |s| == width
  {
    Padded(n, width)[..width]
  }

  /** The number that decimal text denotes. */
  function ValueOf(s: string): (n: int)
  {
    if s == "" then 0 else 10 * ValueOf(s[..|s| - 1]) + (s[|s| - 1] as int - '0' as int)
  }

  predicate IsDigits(s: string)
  {
    forall i :: 0 <= i < |s| ==> '0' <= s[i] <= '9'
  }

  lemma DigitValue(d: nat)
    requires d < 10
    ensures '0' <= Digit(d) <= '9' && Digit(d) as int - '0' as int == d
  {
  }

  lemma {:induction false} DecimalMeans(n: nat)
    ensures IsDigits(Decimal(n)) && ValueOf(Decimal(n)) == n && (n > 0 ==> Decimal(n)[0] != '0')
  {
    hide Digit;
    DigitValue(n % 10);
    if n < 10 {
      assert Decimal(n)[..0] == "";
      DigitsNonzero();
    } else {
      DecimalMeans(n / 10);
      assert Decimal(n)[..|Decimal(n)| - 1] == Decimal(n / 10);
    }
  }

  lemma DigitsNonzero()
    ensures forall d: nat :: 0 < d < 10 ==> Digit(d) != '0'
  {
    forall d: nat | 0 < d < 10 ensures Digit(d) != '0' {
      DigitValue(d);
    }
  }

  lemma {:induction false} LeadingZeros(k: nat, s: string)
    ensures ValueOf(seq(k, _ => '0') + s) == ValueOf(s)
    decreases k + |s|
  {
    var z := seq(k, _ => '0');
    if s != "" {
      assert (z + s)[..k + |s| - 1] == z + s[..|s| - 1];
      LeadingZeros(k, s[..|s| - 1]);
    } else if k > 0 {
      assert (z + s)[..k - 1] == seq(k - 1, _ => '0') + "";
      LeadingZeros(k - 1, "");
    }
  }

  /** What is formatted is the number: decimal digits, at least `width` of them, and no leading zero beyond that. */
  lemma PaddedMeans(n: nat, width: nat)
    ensures IsDigits(Padded(n, width)) && ValueOf(Padded(n, width)) == n
    ensures |Padded(n, width)| > width && width > 0 && n > 0 ==> Padded(n, width)[0] != '0'
  {
    DecimalMeans(n);
    LeadingZeros(if |Decimal(n)| >= width then 0 else width - |Decimal(n)|, Decimal(n));
    assert Padded(n, width) == seq(if |Decimal(n)| >= width then 0 else width - |Decimal(n)|, _ => '0') + Decimal(n);
  }

  lemma {:induction false} DecimalLength(n: nat, width: nat)
    requires width > 0
    ensures |Decimal(n)| <= width <==> n < Pow10(width)
  {
    if n < 10 {
      Pow10AtLeast(width);
    } else if width == 1 {
      assert Pow10(1) == 10 * Pow10(0);
    } else {
      DecimalLength(n / 10, width - 1);
      assert Pow10(width) == 10 * Pow10(width - 1);
    }
  }

  lemma {:induction false} Pow10AtLeast(width: nat)
    requires width > 0
    ensures Pow10(width) >= 10
  {
    if width > 1 {
      Pow10AtLeast(width - 1);
    }
  }

  /** The sender's digits are the first of the receiver's, and all of them exactly while the number has no more than `width`. */
  lemma DigitsAgree(n: nat, width: nat)
    requires width > 0
    ensures Snprintf(n, width) == Padded(n, width) <==> n < Pow10(width)
    ensures |Snprintf(n, width)| == width && Snprintf(n, width) <= Padded(n, width)
  {
    DecimalLength(n, width);
    assert |Padded(n, width)| == width ==> Padded(n, width)[..width] == Padded(n, width);
  }

  // ---------------------------------------------------------------- identities

  datatype Identity = Identity(appid: u16, dstIP: u32, dmac: bytes, digits: string)

  /** Entry `i` of the receiver's stream table. */
  function Expected(base: u32, i: nat, width: nat): (id: Identity)
  {
    var ip := Amend.StreamDst(base, i);
    Identity((i + 1) % U16, ip, RFrame.MulticastMac(ip), Padded(i + 1, width))
  }

  /** What worker `w` puts into the frames of its local stream `s`. */
  function Sent(base: u32, num: nat, workers: nat, w: nat, s: nat, width: nat): (id: Identity)
    requires workers > 0
  {
    var stream := s + Slice(num, workers, w).0;
    var ip := Amend.StreamDst(base, Bits.And(stream, RFrame.DST_SPREAD - 1));
    Identity(Amend.AppId(stream), ip, RFrame.MulticastMac(ip), Snprintf(Slice(num, workers, w).0 + s + 1, width))
  }

  /**
   For every stream count and worker count: each entry of the receiver's table is sent by exactly
   one worker and local index, and the identity sent is the one expected if and only if the stream
   number fits the digits (eight for GOOSE names, four for SV names).
   */
  lemma IdentityMatches(base: u32, num: nat, workers: nat, stream: nat, width: nat) returns (w: nat, s: nat)
    requires workers > 0 && stream < num && width > 0
    ensures w < workers && s < Slice(num, workers, w).1 - Slice(num, workers, w).0
    ensures Slice(num, workers, w).0 + s == stream
    ensures forall v :: 0 <= v < workers && Slice(num, workers, v).0 <= stream < Slice(num, workers, v).1 ==> v == w
    ensures Sent(base, num, workers, w, s, width) == Expected(base, stream, width) <==> stream + 1 < Pow10(width)
  {
    hide Slice, Padded, Snprintf;
    w := SliceOwner(num, workers, stream);
    s := stream - Slice(num, workers, w).0;
    GroupOf(base, stream);
    DigitsAgree(stream + 1, width);
  }

  /** The destination table is indexed by the low seven bits, the receiver by the stream: same group. */
  lemma GroupOf(base: u32, stream: nat)
    ensures Amend.StreamDst(base, Bits.And(stream, RFrame.DST_SPREAD - 1)) == Amend.StreamDst(base, stream)
  {
    assert RFrame.DST_SPREAD == Bits.Pow2(7) by {
      assert Bits.Pow2(3) == 8 && Bits.Pow2(4) == 16;
      assert Bits.Pow2(5) == 32 && Bits.Pow2(6) == 64;
    }
    Bits.MaskIsMod(stream, 7);
  }

  /** That group: the base address with the low seven bits of the stream number added, modulo 2^32. */
  lemma GroupIs(base: u32, stream: nat)
    ensures Amend.StreamDst(base, stream) == (base + Bits.And(stream, 127)) % 0x1_0000_0000
  {
    assert Bits.Pow2(7) == 128 by {
      assert Bits.Pow2(3) == 8 && Bits.Pow2(4) == 16;
      assert Bits.Pow2(5) == 32 && Bits.Pow2(6) == 64;
    }
    Bits.MaskIsMod(stream, 7);
  }

  /** APPIDs of the first `num` streams are distinct exactly up to 65536 streams. */
  lemma AppIdsDistinct(num: nat)
    ensures (forall i, j :: 0 <= i < j < num ==> Amend.AppId(i) != Amend.AppId(j)) <==> num <= U16
  {
    if num > U16 {
      assert Amend.AppId(0) == Amend.AppId(U16);
    }
  }

  // ---------------------------------------------------------------- what the generator's counters carry

  /** Frame n of a GOOSE stream carries the number the gap analysis assumes, in stNum and in the session header. */
  lemma GooseCarries(ied: RGenerators.GooseIed, delta: u32, n: nat)
    requires ied.stNum == 0 && ied.spduNumber == 0
    ensures RGenerators.GooseSteps(ied, delta, n + 1).stNum == Gaps.Carried(n)
    ensures RGenerators.GooseSteps(ied, delta, n + 1).spduNumber == Gaps.Carried(n)
  {
    RGenerators.GooseCounters(ied, delta, n + 1);
  }

  /** Frame n of an SV stream starts at the sample number, and carries the session number, that the gap analysis assumes. */
  lemma SvCarries(p: Gaps.SvProfile, ied: RGenerators.SvIed, n: nat)
    requires Gaps.IsProfile(p) && ied.smpCnt == 0 && ied.spduNumber == 0
    ensures RGenerators.SvSteps(ied, p.num * p.period, p.num, n).smpCnt == Gaps.Sample(p, n)
    ensures RGenerators.SvSteps(ied, p.num * p.period, p.num, n + 1).spduNumber == Gaps.Carried(n)
  {
    hide RGenerators.SampleAfter, RGenerators.SvSteps;
    MulMono(1, p.period, p.num);
    RGenerators.SvCounters(ied, p.num * p.period, p.num, n);
    RGenerators.SvCounters(ied, p.num * p.period, p.num, n + 1);
    RGenerators.SampleClosed(p.num * p.period, n * p.num);
    ModMultiple(n, p.period, p.num);
  }

  lemma ModMultiple(n: nat, d: nat, m: nat)
    requires d > 0 && m > 0
    ensures m * d > 0 && (n * m) % (m * d) == (n % d) * m
  {
    MultipleParts(n, n / d, d, n % d, m);
  }

  lemma MultipleParts(n: nat, q: nat, d: nat, r: nat, m: nat)
    requires r < d && m > 0 && n == q * d + r
    ensures m * d > 0 && (n * m) % (m * d) == r * m
  {
    MulMono(r + 1, d, m);
    Regroup(q, d, r, m);
    ModExact(q, m * d, r * m);
  }

  lemma Regroup(q: nat, d: nat, r: nat, m: nat)
    ensures (q * d + r) * m == q * (m * d) + r * m
  {
    assert (q * d + r) * m == q * d * m + r * m;
    assert q * d * m == q * (m * d);
  }

  /**
   An L2 frame of any size is dispatched by the APPID its parser will read, and is classified GOOSE or
   SV exactly when that parser finds an APDU offset in its header.
   */
  lemma L2KeyIsAppId(buffer: bytes, size: nat)
    requires |buffer| >= 64 && size <= |buffer|
    ensures var (proto, key) := Routable.ProtoType(buffer, size);
            var goose, sv := GooseWalk.L2Base(buffer), SvApdu.L2Base(buffer);
            && (proto == Routable.Goose <==> goose.Some?) && (proto == Routable.Sv <==> sv.Some?)
            && (goose.Some? ==> key == Get16(buffer, goose.value - 8))
            && (sv.Some? ==> key == Get16(buffer, sv.value - 8))
  {
  }
}
