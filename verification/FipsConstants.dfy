/**
  Where the constants of FIPS 180-4 come from: the fractional parts of the cube roots of the first sixty-four primes
  (section 4.2.2), and of the square roots of the first eight (section 5.3.3).
 */
module FipsConstants {
  import opened Word32
  import opened Fips180

  const PRIMES: seq<seq<nat>> := [
    [2, 3, 5, 7, 11, 13, 17, 19],
    [23, 29, 31, 37, 41, 43, 47, 53],
    [59, 61, 67, 71, 73, 79, 83, 89],
    [97, 101, 103, 107, 109, 113, 127, 131],
    [137, 139, 149, 151, 157, 163, 167, 173],
    [179, 181, 191, 193, 197, 199, 211, 223],
    [227, 229, 233, 239, 241, 251, 257, 263],
    [269, 271, 277, 281, 283, 293, 307, 311]]

  function Prime(t: nat): nat
    requires t < 64
  {
    PRIMES[t / 8][t % 8]
  }

  predicate IsPrime(p: nat) {
    p >= 2 && forall d :: 2 <= d < p ==> p % d != 0
  }

  // ---- the list is the first sixty-four primes ----

  /** No prime up to 17 divides `p`, unless it is `p`. */
  predicate IsSifted(p: nat) {
    && p >= 2
    && (p % 2 == 0 ==> p == 2) && (p % 3 == 0 ==> p == 3) && (p % 5 == 0 ==> p == 5) && (p % 7 == 0 ==> p == 7)
    && (p % 11 == 0 ==> p == 11) && (p % 13 == 0 ==> p == 13) && (p % 17 == 0 ==> p == 17)
  }

  /** A divisor comes with its cofactor, and one of the two is below 18. */
  lemma SmallDivisor(p: nat, d: nat) returns (q: nat)
    requires p < 324 && 2 <= d < p && p % d == 0
    ensures 2 <= q < p && q < 18 && p % q == 0
  {
    if d < 18 {
      q := d;
    } else {
      q := p / d;
      Cofactor(p, d, q);
    }
  }

  lemma Cofactor(p: nat, d: nat, q: nat)
    requires p < 324 && 18 <= d < p && p == d * q
    ensures 2 <= q < 18 && p % q == 0
  {
    assert d * 0 == 0 && d * 1 == d;
    if q >= 18 {
      AtLeast(d, q);
    }
    Multiple(d, q);
  }

  lemma AtLeast(d: nat, q: nat)
    requires d >= 18 && q >= 18
    ensures d * q >= 324
  {
    assert d * q >= 18 * q;
  }

  lemma Multiple(d: nat, q: nat)
    requires q > 0
    ensures (d * q) % q == 0
  {
    Remainder(d * q, q, d);
  }

  lemma Remainder(x: int, q: int, d: int)
    requires q > 0 && x == q * d
    ensures x % q == 0
  {
    var e := x / q;
    assert x == q * e + x % q;
    assert q * (d - e) == x % q;
    assert d - e >= 1 ==> q * (d - e) >= q;
    assert d - e <= -1 ==> q * (d - e) <= -q;
  }

  /** A divisor below 18 brings a prime one. */
  lemma SiftedHasNone(p: nat, q: nat)
    requires IsSifted(p) && 2 <= q < 18 && q < p
    ensures p % q != 0
  {
    hide IsSifted;
    if p % q == 0 {
      if q % 2 == 0 {
        PartDivides(p, q, 2);
        SiftedBy(p, 2);
      } else if q % 3 == 0 {
        PartDivides(p, q, 3);
        SiftedBy(p, 3);
      } else {
        SiftedBy(p, q);
      }
    }
  }

  lemma PartDivides(p: nat, q: nat, d: nat)
    requires d > 0 && q > 0 && q % d == 0 && p % q == 0
    ensures p % d == 0
  {
    var k, m := q / d, p / q;
    assert q == d * k && p == q * m;
    Associate(d, k, m);
    Remainder(p, d, k * m);
  }

  lemma Associate(a: int, b: int, c: int)
    ensures a * b * c == a * (b * c)
  {
  }

  lemma SiftedBy(p: nat, q: nat)
    requires q in {2, 3, 5, 7, 11, 13, 17} && q < p && p % q == 0
    ensures !IsSifted(p)
  {
  }

  /** Below 324 sifting by the primes up to 17 leaves exactly the primes. */
  lemma SiftedExactly(p: nat)
    requires p < 324
    ensures IsSifted(p) <==> IsPrime(p)
  {
    if IsSifted(p) {
      forall d | 2 <= d < p
        ensures p % d != 0
      {
        if p % d == 0 {
          var q := SmallDivisor(p, d);
          SiftedHasNone(p, q);
        }
      }
    }
  }

  lemma SiftedRow0(p: nat)
    requires 0 <= p < 23 && IsSifted(p)
    ensures p in PRIMES[0]
  {
    SiftedBySix(p);
    hide IsSifted;
    assert p == 2 || p == 3 || p == 5 || p == 7 || p == 11 || p == 13 || p == 17 || p == 19;
  }

  lemma SiftedRow1(p: nat)
    requires 23 <= p < 59 && IsSifted(p)
    ensures p in PRIMES[1]
  {
    SiftedBySix(p);
    assert !IsSifted(25) && !IsSifted(35) && !IsSifted(49) && !IsSifted(55);
    hide IsSifted;
    assert p == 23 || p == 29 || p == 31 || p == 37 || p == 41 || p == 43 || p == 47 || p == 53;
  }

  lemma SiftedRow2(p: nat)
    requires 59 <= p < 97 && IsSifted(p)
    ensures p in PRIMES[2]
  {
    SiftedBySix(p);
    assert !IsSifted(65) && !IsSifted(77) && !IsSifted(85) && !IsSifted(91) && !IsSifted(95);
    hide IsSifted;
    assert p == 59 || p == 61 || p == 67 || p == 71 || p == 73 || p == 79 || p == 83 || p == 89;
  }

  lemma SiftedRow3(p: nat)
    requires 97 <= p < 137 && IsSifted(p)
    ensures p in PRIMES[3]
  {
    SiftedBySix(p);
    assert !IsSifted(115) && !IsSifted(119) && !IsSifted(121) && !IsSifted(125) && !IsSifted(133);
    hide IsSifted;
    assert p == 97 || p == 101 || p == 103 || p == 107 || p == 109 || p == 113 || p == 127 || p == 131;
  }

  lemma SiftedRow4(p: nat)
    requires 137 <= p < 179 && IsSifted(p)
    ensures p in PRIMES[4]
  {
    SiftedBySix(p);
    assert !IsSifted(143) && !IsSifted(145) && !IsSifted(155) && !IsSifted(161) && !IsSifted(169) && !IsSifted(175);
    hide IsSifted;
    assert p == 137 || p == 139 || p == 149 || p == 151 || p == 157 || p == 163 || p == 167 || p == 173;
  }

  lemma SiftedRow5(p: nat)
    requires 179 <= p < 227 && IsSifted(p)
    ensures p in PRIMES[5]
  {
    SiftedBySix(p);
    assert !IsSifted(185) && !IsSifted(187) && !IsSifted(203) && !IsSifted(205) && !IsSifted(209) && !IsSifted(215) &&
      !IsSifted(217) && !IsSifted(221);
    hide IsSifted;
    assert p == 179 || p == 181 || p == 191 || p == 193 || p == 197 || p == 199 || p == 211 || p == 223;
  }

  lemma SiftedRow6(p: nat)
    requires 227 <= p < 269 && IsSifted(p)
    ensures p in PRIMES[6]
  {
    SiftedBySix(p);
    assert !IsSifted(235) && !IsSifted(245) && !IsSifted(247) && !IsSifted(253) && !IsSifted(259) && !IsSifted(265);
    hide IsSifted;
    assert p == 227 || p == 229 || p == 233 || p == 239 || p == 241 || p == 251 || p == 257 || p == 263;
  }

  lemma SiftedRow7(p: nat)
    requires 269 <= p < 312 && IsSifted(p)
    ensures p in PRIMES[7]
  {
    SiftedBySix(p);
    assert !IsSifted(275) && !IsSifted(287) && !IsSifted(289) && !IsSifted(295) && !IsSifted(299) && !IsSifted(301) &&
      !IsSifted(305);
    hide IsSifted;
    assert p == 269 || p == 271 || p == 277 || p == 281 || p == 283 || p == 293 || p == 307 || p == 311;
  }

  lemma SiftedBySix(p: nat)
    requires IsSifted(p)
    ensures p == 2 || p == 3 || p == 6 * (p / 6) + 1 || p == 6 * (p / 6) + 5
  {
    assert p == 2 || p == 3 || (p % 2 != 0 && p % 3 != 0);
    hide IsSifted;
    if p != 2 && p != 3 {
      SixParts(p);
    }
  }

  lemma SixParts(p: nat)
    requires p % 2 != 0 && p % 3 != 0
    ensures p == 6 * (p / 6) + 1 || p == 6 * (p / 6) + 5
  {
    SixthsShare(p, p / 6, p % 6);
  }

  lemma SixthsShare(p: nat, k: nat, m: nat)
    requires p == 6 * k + m && m < 6
    ensures m in {0, 2, 4} ==> p % 2 == 0
    ensures m in {0, 3} ==> p % 3 == 0
  {
    if m == 0 || m == 2 || m == 4 {
      Remainder(p, 2, 3 * k + m / 2);
    }
    if m == 0 || m == 3 {
      Remainder(p, 3, 2 * k + m / 3);
    }
  }

  lemma SiftedIsListed(p: nat)
    requires p < 312 && IsSifted(p)
    ensures exists t: nat :: t < 64 && Prime(t) == p
  {
    assert |PRIMES| == 8;
    hide PRIMES, IsSifted, Prime;
    if p < 23 {
      SiftedRow0(p);
      ListedInRow(0, p);
    } else if p < 59 {
      SiftedRow1(p);
      ListedInRow(1, p);
    } else if p < 97 {
      SiftedRow2(p);
      ListedInRow(2, p);
    } else if p < 137 {
      SiftedRow3(p);
      ListedInRow(3, p);
    } else if p < 179 {
      SiftedRow4(p);
      ListedInRow(4, p);
    } else if p < 227 {
      SiftedRow5(p);
      ListedInRow(5, p);
    } else if p < 269 {
      SiftedRow6(p);
      ListedInRow(6, p);
    } else {
      SiftedRow7(p);
      ListedInRow(7, p);
    }
  }

  lemma ListedInRow(r: nat, p: nat)
    requires r < 8 && r < |PRIMES| && p in PRIMES[r]
    ensures exists t: nat :: t < 64 && Prime(t) == p
  {
    assert |PRIMES[r]| == 8;
    var c :| 0 <= c < 8 && PRIMES[r][c] == p;
    assert (8 * r + c) / 8 == r && (8 * r + c) % 8 == c;
    assert Prime(8 * r + c) == p;
  }

  // ---- the constants ----

  /** The first 32 bits of the fractional part of the cube root of `p`, which lies from `n` to `n + 1`, are `k`. */
  predicate IsCubeRoot(n: nat, k: nat, p: nat) {
    && n * n * n <= p < (n + 1) * (n + 1) * (n + 1)
    && var m := n * 0x1_0000_0000 + k;
       m * m * m <= p * 0x1_0000_0000_0000_0000_0000_0000 < (m + 1) * (m + 1) * (m + 1)
  }

  predicate IsSquareRoot(n: nat, k: nat, p: nat) {
    && n * n <= p < (n + 1) * (n + 1)
    && var m := n * 0x1_0000_0000 + k;
       m * m <= p * 0x1_0000_0000_0000_0000 < (m + 1) * (m + 1)
  }

  lemma CubeRootRow0(c: nat)
    requires c < 8
    ensures exists n: nat :: IsCubeRoot(n, K[0][c], PRIMES[0][c])
  {
    var ks, ps := K[0], PRIMES[0];
    assert IsCubeRoot(1, ks[0], ps[0]) && IsCubeRoot(1, ks[1], ps[1]) && IsCubeRoot(1, ks[2], ps[2]) &&
      IsCubeRoot(1, ks[3], ps[3]);
    assert IsCubeRoot(2, ks[4], ps[4]) && IsCubeRoot(2, ks[5], ps[5]) && IsCubeRoot(2, ks[6], ps[6]) &&
      IsCubeRoot(2, ks[7], ps[7]);
    hide IsCubeRoot;
  }

  lemma PrimeRow0(c: nat)
    requires c < 8
    ensures IsSifted(PRIMES[0][c]) && (c < 7 ==> PRIMES[0][c] < PRIMES[0][c + 1])
  {
    var ps := PRIMES[0];
    assert IsSifted(ps[0]) && IsSifted(ps[1]) && IsSifted(ps[2]) && IsSifted(ps[3]);
    assert IsSifted(ps[4]) && IsSifted(ps[5]) && IsSifted(ps[6]) && IsSifted(ps[7]);
    hide IsSifted;
  }

  lemma CubeRootRow1(c: nat)
    requires c < 8
    ensures exists n: nat :: IsCubeRoot(n, K[1][c], PRIMES[1][c])
  {
    var ks, ps := K[1], PRIMES[1];
    assert IsCubeRoot(2, ks[0], ps[0]) && IsCubeRoot(3, ks[1], ps[1]) && IsCubeRoot(3, ks[2], ps[2]) &&
      IsCubeRoot(3, ks[3], ps[3]);
    assert IsCubeRoot(3, ks[4], ps[4]) && IsCubeRoot(3, ks[5], ps[5]) && IsCubeRoot(3, ks[6], ps[6]) &&
      IsCubeRoot(3, ks[7], ps[7]);
    hide IsCubeRoot;
  }

  lemma PrimeRow1(c: nat)
    requires c < 8
    ensures IsSifted(PRIMES[1][c]) && (c < 7 ==> PRIMES[1][c] < PRIMES[1][c + 1])
  {
    var ps := PRIMES[1];
    assert IsSifted(ps[0]) && IsSifted(ps[1]) && IsSifted(ps[2]) && IsSifted(ps[3]);
    assert IsSifted(ps[4]) && IsSifted(ps[5]) && IsSifted(ps[6]) && IsSifted(ps[7]);
    hide IsSifted;
  }

  lemma CubeRootRow2(c: nat)
    requires c < 8
    ensures exists n: nat :: IsCubeRoot(n, K[2][c], PRIMES[2][c])
  {
    var ks, ps := K[2], PRIMES[2];
    assert IsCubeRoot(3, ks[0], ps[0]) && IsCubeRoot(3, ks[1], ps[1]) && IsCubeRoot(4, ks[2], ps[2]) &&
      IsCubeRoot(4, ks[3], ps[3]);
    assert IsCubeRoot(4, ks[4], ps[4]) && IsCubeRoot(4, ks[5], ps[5]) && IsCubeRoot(4, ks[6], ps[6]) &&
      IsCubeRoot(4, ks[7], ps[7]);
    hide IsCubeRoot;
  }

  lemma PrimeRow2(c: nat)
    requires c < 8
    ensures IsSifted(PRIMES[2][c]) && (c < 7 ==> PRIMES[2][c] < PRIMES[2][c + 1])
  {
    var ps := PRIMES[2];
    assert IsSifted(ps[0]) && IsSifted(ps[1]) && IsSifted(ps[2]) && IsSifted(ps[3]);
    assert IsSifted(ps[4]) && IsSifted(ps[5]) && IsSifted(ps[6]) && IsSifted(ps[7]);
    hide IsSifted;
  }

  lemma CubeRootRow3(c: nat)
    requires c < 8
    ensures exists n: nat :: IsCubeRoot(n, K[3][c], PRIMES[3][c])
  {
    var ks, ps := K[3], PRIMES[3];
    assert IsCubeRoot(4, ks[0], ps[0]) && IsCubeRoot(4, ks[1], ps[1]) && IsCubeRoot(4, ks[2], ps[2]) &&
      IsCubeRoot(4, ks[3], ps[3]);
    assert IsCubeRoot(4, ks[4], ps[4]) && IsCubeRoot(4, ks[5], ps[5]) && IsCubeRoot(5, ks[6], ps[6]) &&
      IsCubeRoot(5, ks[7], ps[7]);
    hide IsCubeRoot;
  }

  lemma PrimeRow3(c: nat)
    requires c < 8
    ensures IsSifted(PRIMES[3][c]) && (c < 7 ==> PRIMES[3][c] < PRIMES[3][c + 1])
  {
    var ps := PRIMES[3];
    assert IsSifted(ps[0]) && IsSifted(ps[1]) && IsSifted(ps[2]) && IsSifted(ps[3]);
    assert IsSifted(ps[4]) && IsSifted(ps[5]) && IsSifted(ps[6]) && IsSifted(ps[7]);
    hide IsSifted;
  }

  lemma CubeRootRow4(c: nat)
    requires c < 8
    ensures exists n: nat :: IsCubeRoot(n, K[4][c], PRIMES[4][c])
  {
    var ks, ps := K[4], PRIMES[4];
    assert IsCubeRoot(5, ks[0], ps[0]) && IsCubeRoot(5, ks[1], ps[1]) && IsCubeRoot(5, ks[2], ps[2]) &&
      IsCubeRoot(5, ks[3], ps[3]);
    assert IsCubeRoot(5, ks[4], ps[4]) && IsCubeRoot(5, ks[5], ps[5]) && IsCubeRoot(5, ks[6], ps[6]) &&
      IsCubeRoot(5, ks[7], ps[7]);
    hide IsCubeRoot;
  }

  lemma PrimeRow4(c: nat)
    requires c < 8
    ensures IsSifted(PRIMES[4][c]) && (c < 7 ==> PRIMES[4][c] < PRIMES[4][c + 1])
  {
    var ps := PRIMES[4];
    assert IsSifted(ps[0]) && IsSifted(ps[1]) && IsSifted(ps[2]) && IsSifted(ps[3]);
    assert IsSifted(ps[4]) && IsSifted(ps[5]) && IsSifted(ps[6]) && IsSifted(ps[7]);
    hide IsSifted;
  }

  lemma CubeRootRow5(c: nat)
    requires c < 8
    ensures exists n: nat :: IsCubeRoot(n, K[5][c], PRIMES[5][c])
  {
    var ks, ps := K[5], PRIMES[5];
    assert IsCubeRoot(5, ks[0], ps[0]) && IsCubeRoot(5, ks[1], ps[1]) && IsCubeRoot(5, ks[2], ps[2]) &&
      IsCubeRoot(5, ks[3], ps[3]);
    assert IsCubeRoot(5, ks[4], ps[4]) && IsCubeRoot(5, ks[5], ps[5]) && IsCubeRoot(5, ks[6], ps[6]) &&
      IsCubeRoot(6, ks[7], ps[7]);
    hide IsCubeRoot;
  }

  lemma PrimeRow5(c: nat)
    requires c < 8
    ensures IsSifted(PRIMES[5][c]) && (c < 7 ==> PRIMES[5][c] < PRIMES[5][c + 1])
  {
    var ps := PRIMES[5];
    assert IsSifted(ps[0]) && IsSifted(ps[1]) && IsSifted(ps[2]) && IsSifted(ps[3]);
    assert IsSifted(ps[4]) && IsSifted(ps[5]) && IsSifted(ps[6]) && IsSifted(ps[7]);
    hide IsSifted;
  }

  lemma CubeRootRow6(c: nat)
    requires c < 8
    ensures exists n: nat :: IsCubeRoot(n, K[6][c], PRIMES[6][c])
  {
    var ks, ps := K[6], PRIMES[6];
    assert IsCubeRoot(6, ks[0], ps[0]) && IsCubeRoot(6, ks[1], ps[1]) && IsCubeRoot(6, ks[2], ps[2]) &&
      IsCubeRoot(6, ks[3], ps[3]);
    assert IsCubeRoot(6, ks[4], ps[4]) && IsCubeRoot(6, ks[5], ps[5]) && IsCubeRoot(6, ks[6], ps[6]) &&
      IsCubeRoot(6, ks[7], ps[7]);
    hide IsCubeRoot;
  }

  lemma PrimeRow6(c: nat)
    requires c < 8
    ensures IsSifted(PRIMES[6][c]) && (c < 7 ==> PRIMES[6][c] < PRIMES[6][c + 1])
  {
    var ps := PRIMES[6];
    assert IsSifted(ps[0]) && IsSifted(ps[1]) && IsSifted(ps[2]) && IsSifted(ps[3]);
    assert IsSifted(ps[4]) && IsSifted(ps[5]) && IsSifted(ps[6]) && IsSifted(ps[7]);
    hide IsSifted;
  }

  lemma CubeRootRow7(c: nat)
    requires c < 8
    ensures exists n: nat :: IsCubeRoot(n, K[7][c], PRIMES[7][c])
  {
    var ks, ps := K[7], PRIMES[7];
    assert IsCubeRoot(6, ks[0], ps[0]) && IsCubeRoot(6, ks[1], ps[1]) && IsCubeRoot(6, ks[2], ps[2]) &&
      IsCubeRoot(6, ks[3], ps[3]);
    assert IsCubeRoot(6, ks[4], ps[4]) && IsCubeRoot(6, ks[5], ps[5]) && IsCubeRoot(6, ks[6], ps[6]) &&
      IsCubeRoot(6, ks[7], ps[7]);
    hide IsCubeRoot;
  }

  lemma PrimeRow7(c: nat)
    requires c < 8
    ensures IsSifted(PRIMES[7][c]) && (c < 7 ==> PRIMES[7][c] < PRIMES[7][c + 1])
  {
    var ps := PRIMES[7];
    assert IsSifted(ps[0]) && IsSifted(ps[1]) && IsSifted(ps[2]) && IsSifted(ps[3]);
    assert IsSifted(ps[4]) && IsSifted(ps[5]) && IsSifted(ps[6]) && IsSifted(ps[7]);
    hide IsSifted;
  }

  lemma CubeRootAt(r: nat, c: nat)
    requires r < 8 && c < 8
    ensures |PRIMES| == |K| == 8 && |PRIMES[r]| == |K[r]| == 8
    ensures exists n: nat :: IsCubeRoot(n, K[r][c], PRIMES[r][c])
    ensures IsSifted(PRIMES[r][c]) && (c < 7 ==> PRIMES[r][c] < PRIMES[r][c + 1])
  {
    assert |PRIMES| == |K| == 8 && |PRIMES[r]| == |K[r]| == 8;
    hide IsCubeRoot, IsSifted, K, PRIMES;
    if r == 0 {
      CubeRootRow0(c);
      PrimeRow0(c);
    } else if r == 1 {
      CubeRootRow1(c);
      PrimeRow1(c);
    } else if r == 2 {
      CubeRootRow2(c);
      PrimeRow2(c);
    } else if r == 3 {
      CubeRootRow3(c);
      PrimeRow3(c);
    } else if r == 4 {
      CubeRootRow4(c);
      PrimeRow4(c);
    } else if r == 5 {
      CubeRootRow5(c);
      PrimeRow5(c);
    } else if r == 6 {
      CubeRootRow6(c);
      PrimeRow6(c);
    } else {
      CubeRootRow7(c);
      PrimeRow7(c);
    }
  }

  /** Every round constant is the one of its round: the cube roots of the first sixty-four primes, in order. */
  lemma RoundConstantsAreCubeRoots(t: nat)
    requires t < 64
    ensures exists n: nat :: IsCubeRoot(n, RoundConstant(t), Prime(t))
  {
    hide IsCubeRoot, K, PRIMES;
    CubeRootAt(t / 8, t % 8);
    var n: nat :| IsCubeRoot(n, K[t / 8][t % 8], PRIMES[t / 8][t % 8]);
    assert IsCubeRoot(n, RoundConstant(t), Prime(t));
  }

  lemma PrimesAscend(t: nat)
    requires t < 63
    ensures Prime(t) < Prime(t + 1)
  {
    assert PRIMES[0][7] < PRIMES[1][0] && PRIMES[1][7] < PRIMES[2][0] && PRIMES[2][7] < PRIMES[3][0];
    assert PRIMES[3][7] < PRIMES[4][0] && PRIMES[4][7] < PRIMES[5][0] && PRIMES[5][7] < PRIMES[6][0];
    assert PRIMES[6][7] < PRIMES[7][0];
    hide PRIMES;
    var r, c := t / 8, t % 8;
    if c < 7 {
      CubeRootAt(r, c);
      assert (t + 1) / 8 == r && (t + 1) % 8 == c + 1;
    } else {
      assert (t + 1) / 8 == r + 1 && (t + 1) % 8 == 0;
    }
  }

  /** The listed numbers ascend and are exactly the primes up to the last: they are the first sixty-four. */
  lemma FirstPrimes()
    ensures forall t :: 0 <= t < 63 ==> Prime(t) < Prime(t + 1)
    ensures Prime(63) == 311
    ensures forall p: nat :: p <= 311 ==> (IsPrime(p) <==> exists t: nat :: t < 64 && Prime(t) == p)
  {
    assert Prime(63) == 311;
    hide PRIMES, IsSifted, IsPrime;
    forall t | 0 <= t < 63
      ensures Prime(t) < Prime(t + 1)
    {
      PrimesAscend(t);
    }
    forall p: nat | p <= 311
      ensures IsPrime(p) <==> exists t: nat :: t < 64 && Prime(t) == p
    {
      SiftedExactly(p);
      if IsSifted(p) {
        SiftedIsListed(p);
      }
      if t: nat :| t < 64 && Prime(t) == p {
        CubeRootAt(t / 8, t % 8);
      }
    }
  }

  /** The words of a hash value in order. */
  function WordsOf(v: Vars): seq<Word> {
    [v.a, v.b, v.c, v.d, v.e, v.f, v.g, v.h]
  }

  /** The initial hash value is the square roots of the first eight primes, in order. */
  lemma InitialValueIsSquareRoots(i: nat)
    requires i < 8
    ensures exists n: nat :: IsSquareRoot(n, WordsOf(H0)[i], Prime(i))
  {
    var ws, ps := WordsOf(H0), PRIMES[0];
    assert Prime(i) == ps[i] by {
      assert i / 8 == 0 && i % 8 == i;
    }
    assert IsSquareRoot(1, ws[0], ps[0]) && IsSquareRoot(1, ws[1], ps[1]) && IsSquareRoot(2, ws[2], ps[2]) &&
      IsSquareRoot(2, ws[3], ps[3]);
    assert IsSquareRoot(3, ws[4], ps[4]) && IsSquareRoot(3, ws[5], ps[5]) && IsSquareRoot(4, ws[6], ps[6]) &&
      IsSquareRoot(4, ws[7], ps[7]);
    hide IsSquareRoot;
  }
}
