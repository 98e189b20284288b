/** The IPv4 header checksum (section 3.1 of RFC 791, arithmetic of RFC 1071): the builder's side and the verifier's. */
module Checksum {
  import opened Bytes

  const HEADER: nat := 20
  const WORDS: nat := 10

  /** Sum of the first `n` big-endian words of `h`. */
  function Sum(h: bytes, n: nat): (s: nat)
    requires 2 * n <= |h|
    ensures s <= 0xFFFF * n
  {
    if n == 0 then 0 else Sum(h, n - 1) + Get16(h, 2 * (n - 1))
  }

  /** End-around carry, repeated until sixteen bits are left. */
  function Fold(n: nat): (r: nat)
    ensures r <= 0xFFFF
  {
    if n <= 0xFFFF then n else Fold(n % 0x1_0000 + n / 0x1_0000)
  }

  method FoldSum(n: u32) returns (r: u16)
    ensures r == Fold(n)
  {
    var sum := n;
    while sum / 0x1_0000 != 0
      invariant 0 <= sum < U32
      invariant Fold(sum) == Fold(n)
      decreases sum
    {
      sum := sum % 0x1_0000 + sum / 0x1_0000;
    }
    r := sum;
  }

  /** Folding keeps the residue modulo 65535 and represents zero only by zero. */
  lemma {:induction false} FoldResidue(n: nat)
    ensures Fold(n) % 0xFFFF == n % 0xFFFF
    ensures Fold(n) == 0 <==> n == 0
  {
    if n > 0xFFFF {
      var q := n / 0x1_0000;
      FoldResidue(n % 0x1_0000 + q);
      assert n == n % 0x1_0000 + q + q * 0xFFFF;
    }
  }

  /** The verifier's accept condition in closed form: a positive multiple of 65535. */
  lemma FullFold(n: nat)
    ensures Fold(n) == 0xFFFF <==> n > 0 && n % 0xFFFF == 0
  {
    FoldResidue(n);
  }

  function HeaderChecksum(h: bytes): (c: u16)
    requires |h| >= HEADER
  {
    0xFFFF - Fold(Sum(h, WORDS))
  }

  predicate ChecksumOk(h: bytes)
    requires |h| >= HEADER
  {
    Fold(Sum(h, WORDS)) == 0xFFFF
  }

  method SumWords(h: bytes) returns (s: u32)
    requires |h| >= HEADER
    ensures s == Sum(h, WORDS)
  {
    s := 0;
    var i := 0;
    while i < HEADER
      invariant 0 <= i <= HEADER && i % 2 == 0
      invariant s == Sum(h, i / 2)
    {
      s := s + Get16(h, i);
      i := i + 2;
    }
  }

  /** ipv4_checksum of the frame builder. */
  method Ipv4Checksum(h: bytes) returns (c: u16)
    requires |h| >= HEADER
    ensures c == HeaderChecksum(h)
  {
    var sum := SumWords(h);
    var folded := FoldSum(sum);
    c := 0xFFFF - folded;
  }

  /** ipv4_checksum_ok of the parser: accepts exactly the headers whose words sum to a positive multiple of 65535. */
  method Ipv4ChecksumOk(h: bytes) returns (ok: bool)
    requires |h| >= HEADER
    ensures ok <==> Sum(h, WORDS) > 0 && Sum(h, WORDS) % 0xFFFF == 0
  {
    var sum := SumWords(h);
    var folded := FoldSum(sum);
    FullFold(sum);
    ok := folded == 0xFFFF;
  }

  /** Writing one word changes the sum by exactly the change of that word. */
  lemma {:induction false} SumWrite(h: bytes, n: nat, k: nat, w: u16)
    requires 2 * n <= |h| && 2 * k + 2 <= |h|
    ensures Sum(Overlay(h, 2 * k, Be16(w)), n) == Sum(h, n) + if k < n then w - Get16(h, 2 * k) else 0
  {
    if n > 0 {
      SumWrite(h, n - 1, k, w);
    }
  }

  /** For every header, the checksum computed with the field zeroed makes the verifier accept. */
  lemma WrittenChecksumOk(h: bytes)
    requires |h| >= HEADER
    ensures var zeroed := Overlay(h, 10, Be16(0));
            ChecksumOk(Overlay(zeroed, 10, Be16(HeaderChecksum(zeroed))))
  {
    hide Sum, Fold;
    var zeroed := Overlay(h, 10, Be16(0));
    var sum := Sum(zeroed, WORDS);
    SumWrite(zeroed, WORDS, 5, HeaderChecksum(zeroed));
    FoldResidue(sum);
    SameResidue(sum, Fold(sum));
    FullFold(sum + 0xFFFF - Fold(sum));
  }

  lemma SameResidue(n: int, r: int)
    ensures n % 0xFFFF == r % 0xFFFF <==> (n + 0xFFFF - r) % 0xFFFF == 0
  {
    var a, b := n / 0xFFFF, r / 0xFFFF;
    assert n + 0xFFFF - r == (a - b + 1) * 0xFFFF + (n % 0xFFFF - r % 0xFFFF);
  }

  lemma ChangedResidue(sum: nat, was: u16, w: u16)
    requires sum % 0xFFFF == 0
    ensures (sum + w - was) % 0xFFFF == 0 <==>
            w == was || ((w == 0 || w == 0xFFFF) && (was == 0 || was == 0xFFFF))
  {
    var q := sum / 0xFFFF;
    assert sum == q * 0xFFFF;
    assert (w - was) % 0xFFFF == (sum + w - was) % 0xFFFF;
  }

  /**
   Error detection, exactly: after one word of a good header is replaced, the verifier still
   accepts if and only if the word is unchanged or went between 0x0000 and 0xFFFF, and the
   header is not left with all words zero.
   */
  lemma SingleWordChange(h: bytes, k: nat, w: u16)
    requires |h| >= HEADER && k < WORDS && ChecksumOk(h)
    ensures var was, h' := Get16(h, 2 * k), Overlay(h, 2 * k, Be16(w));
            ChecksumOk(h') <==>
            (w == was || ((w == 0 || w == 0xFFFF) && (was == 0 || was == 0xFFFF))) && Sum(h', WORDS) > 0
  {
    hide Sum, Fold;
    SumWrite(h, WORDS, k, w);
    FullFold(Sum(h, WORDS));
    ChangedResidue(Sum(h, WORDS), Get16(h, 2 * k), w);
    FullFold(Sum(Overlay(h, 2 * k, Be16(w)), WORDS));
  }

  /** The excluded case is real: a header with one word 0xFFFF and the rest zero, that word cleared. */
  lemma AllZeroIsRejected()
    ensures var h: bytes := [0xFF, 0xFF] + Zeros(18);
            ChecksumOk(h) && !ChecksumOk(Overlay(h, 0, Be16(0)))
  {
    var z := Zeros(20);
    AllZero(z, WORDS);
    var h: bytes := [0xFF, 0xFF] + Zeros(18);
    assert h == Overlay(z, 0, Be16(0xFFFF));
    SumWrite(z, WORDS, 0, 0xFFFF);
    assert Overlay(h, 0, Be16(0)) == z;
  }

  lemma {:induction false} AllZero(z: bytes, n: nat)
    requires 2 * n <= |z| && forall i :: 0 <= i < |z| ==> z[i] == 0
    ensures Sum(z, n) == 0
  {
    if n > 0 {
      AllZero(z, n - 1);
    }
  }
}
