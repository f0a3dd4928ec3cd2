/**
 Where the constants of SHA-256 come from (FIPS 180-4, sections 4.2.2 and 5.3.3): the first 32
 bits of the fractional parts of the cube roots of the first 64 primes, and of the square roots
 of the first eight. The tables are checked against that definition, not against a copy; that
 PRIMES holds those primes is `FirstPrimes.ExactlyThePrimes`.
 */
module RoundConstants {
  import opened Fips180
  import opened FirstPrimes

  /** k is the first 32 bits of the fractional part of the cube root of p. */
  ghost predicate IsCubeRootFraction(p: nat, k: nat)
  {
    k < WORD && exists q: nat :: CubeRootIs(p, q, k)
  }

  /** The cube root of p lies in the 2^-32 wide interval that starts at q + k / 2^32. */
  predicate CubeRootIs(p: nat, q: nat, k: nat)
  {
    var n := q * WORD + k;
    n * n * n <= p * (WORD * WORD * WORD) < (n + 1) * (n + 1) * (n + 1)
  }

  ghost predicate IsSquareRootFraction(p: nat, k: nat)
  {
    k < WORD && exists q: nat :: SquareRootIs(p, q, k)
  }

  predicate SquareRootIs(p: nat, q: nat, k: nat)
  {
    var n := q * WORD + k;
    n * n <= p * (WORD * WORD) < (n + 1) * (n + 1)
  }

  lemma CubeRoot(p: nat, q: nat, k: nat)
    requires k < WORD && CubeRootIs(p, q, k)
    ensures IsCubeRootFraction(p, k)
  {
  }

  lemma SquareRoot(p: nat, q: nat, k: nat)
    requires k < WORD && SquareRootIs(p, q, k)
    ensures IsSquareRootFraction(p, k)
  {
  }

  lemma Row0(i: nat)
    requires 0 <= i < 16
    ensures |K| == |PRIMES| == 64 && IsCubeRootFraction(PRIMES[i], K[i])
  {
    match i
    case 0 => CubeRoot(2, 1, 0x428a2f98);
    case 1 => CubeRoot(3, 1, 0x71374491);
    case 2 => CubeRoot(5, 1, 0xb5c0fbcf);
    case 3 => CubeRoot(7, 1, 0xe9b5dba5);
    case 4 => CubeRoot(11, 2, 0x3956c25b);
    case 5 => CubeRoot(13, 2, 0x59f111f1);
    case 6 => CubeRoot(17, 2, 0x923f82a4);
    case 7 => CubeRoot(19, 2, 0xab1c5ed5);
    case 8 => CubeRoot(23, 2, 0xd807aa98);
    case 9 => CubeRoot(29, 3, 0x12835b01);
    case 10 => CubeRoot(31, 3, 0x243185be);
    case 11 => CubeRoot(37, 3, 0x550c7dc3);
    case 12 => CubeRoot(41, 3, 0x72be5d74);
    case 13 => CubeRoot(43, 3, 0x80deb1fe);
    case 14 => CubeRoot(47, 3, 0x9bdc06a7);
    case _ => CubeRoot(53, 3, 0xc19bf174);
  }

  lemma Row1(i: nat)
    requires 16 <= i < 32
    ensures |K| == |PRIMES| == 64 && IsCubeRootFraction(PRIMES[i], K[i])
  {
    match i
    case 16 => CubeRoot(59, 3, 0xe49b69c1);
    case 17 => CubeRoot(61, 3, 0xefbe4786);
    case 18 => CubeRoot(67, 4, 0x0fc19dc6);
    case 19 => CubeRoot(71, 4, 0x240ca1cc);
    case 20 => CubeRoot(73, 4, 0x2de92c6f);
    case 21 => CubeRoot(79, 4, 0x4a7484aa);
    case 22 => CubeRoot(83, 4, 0x5cb0a9dc);
    case 23 => CubeRoot(89, 4, 0x76f988da);
    case 24 => CubeRoot(97, 4, 0x983e5152);
    case 25 => CubeRoot(101, 4, 0xa831c66d);
    case 26 => CubeRoot(103, 4, 0xb00327c8);
    case 27 => CubeRoot(107, 4, 0xbf597fc7);
    case 28 => CubeRoot(109, 4, 0xc6e00bf3);
    case 29 => CubeRoot(113, 4, 0xd5a79147);
    case 30 => CubeRoot(127, 5, 0x06ca6351);
    case _ => CubeRoot(131, 5, 0x14292967);
  }

  lemma Row2(i: nat)
    requires 32 <= i < 48
    ensures |K| == |PRIMES| == 64 && IsCubeRootFraction(PRIMES[i], K[i])
  {
    match i
    case 32 => CubeRoot(137, 5, 0x27b70a85);
    case 33 => CubeRoot(139, 5, 0x2e1b2138);
    case 34 => CubeRoot(149, 5, 0x4d2c6dfc);
    case 35 => CubeRoot(151, 5, 0x53380d13);
    case 36 => CubeRoot(157, 5, 0x650a7354);
    case 37 => CubeRoot(163, 5, 0x766a0abb);
    case 38 => CubeRoot(167, 5, 0x81c2c92e);
    case 39 => CubeRoot(173, 5, 0x92722c85);
    case 40 => CubeRoot(179, 5, 0xa2bfe8a1);
    case 41 => CubeRoot(181, 5, 0xa81a664b);
    case 42 => CubeRoot(191, 5, 0xc24b8b70);
    case 43 => CubeRoot(193, 5, 0xc76c51a3);
    case 44 => CubeRoot(197, 5, 0xd192e819);
    case 45 => CubeRoot(199, 5, 0xd6990624);
    case 46 => CubeRoot(211, 5, 0xf40e3585);
    case _ => CubeRoot(223, 6, 0x106aa070);
  }

  lemma Row3(i: nat)
    requires 48 <= i < 64
    ensures |K| == |PRIMES| == 64 && IsCubeRootFraction(PRIMES[i], K[i])
  {
    match i
    case 48 => CubeRoot(227, 6, 0x19a4c116);
    case 49 => CubeRoot(229, 6, 0x1e376c08);
    case 50 => CubeRoot(233, 6, 0x2748774c);
    case 51 => CubeRoot(239, 6, 0x34b0bcb5);
    case 52 => CubeRoot(241, 6, 0x391c0cb3);
    case 53 => CubeRoot(251, 6, 0x4ed8aa4a);
    case 54 => CubeRoot(257, 6, 0x5b9cca4f);
    case 55 => CubeRoot(263, 6, 0x682e6ff3);
    case 56 => CubeRoot(269, 6, 0x748f82ee);
    case 57 => CubeRoot(271, 6, 0x78a5636f);
    case 58 => CubeRoot(277, 6, 0x84c87814);
    case 59 => CubeRoot(281, 6, 0x8cc70208);
    case 60 => CubeRoot(283, 6, 0x90befffa);
    case 61 => CubeRoot(293, 6, 0xa4506ceb);
    case 62 => CubeRoot(307, 6, 0xbef9a3f7);
    case _ => CubeRoot(311, 6, 0xc67178f2);
  }

  /** Every round constant is the one the standard defines. */
  lemma RoundConstantsAreCubeRoots(i: nat)
    requires i < 64
    ensures |K| == |PRIMES| == 64 && IsCubeRootFraction(PRIMES[i], K[i])
  {
    if i < 16 {
      Row0(i);
    } else if i < 32 {
      Row1(i);
    } else if i < 48 {
      Row2(i);
    } else {
      Row3(i);
    }
  }

  /** So is every word of the initial hash value. */
  lemma InitialHashIsSquareRoots(i: nat)
    requires i < 8
    ensures |PRIMES| == 64
    ensures IsSquareRootFraction(PRIMES[i], [H0.a, H0.b, H0.c, H0.d, H0.e, H0.f, H0.g, H0.h][i])
  {
    match i
    case 0 => SquareRoot(2, 1, 0x6a09e667);
    case 1 => SquareRoot(3, 1, 0xbb67ae85);
    case 2 => SquareRoot(5, 2, 0x3c6ef372);
    case 3 => SquareRoot(7, 2, 0xa54ff53a);
    case 4 => SquareRoot(11, 3, 0x510e527f);
    case 5 => SquareRoot(13, 3, 0x9b05688c);
    case 6 => SquareRoot(17, 4, 0x1f83d9ab);
    case _ => SquareRoot(19, 4, 0x5be0cd19);
  }
}
