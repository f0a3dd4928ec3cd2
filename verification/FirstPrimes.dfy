/** The first 64 primes, and the proof that these are the ones. */
module FirstPrimes {
  import opened Bits

  const PRIMES: seq<nat> :=
    [2, 3, 5, 7, 11, 13, 17, 19] +
    [23, 29, 31, 37, 41, 43, 47, 53] +
    [59, 61, 67, 71, 73, 79, 83, 89] +
    [97, 101, 103, 107, 109, 113, 127, 131] +
    [137, 139, 149, 151, 157, 163, 167, 173] +
    [179, 181, 191, 193, 197, 199, 211, 223] +
    [227, 229, 233, 239, 241, 251, 257, 263] +
    [269, 271, 277, 281, 283, 293, 307, 311]

  ghost predicate IsPrime(n: nat)
  {
    n >= 2 && forall d :: 2 <= d < n ==> n % d != 0
  }

  /** Not divisible by a prime below 19, other than itself. */
  predicate Sieved(n: nat)
  {
    n >= 2 && (n == 2 || n % 2 != 0) && (n == 3 || n % 3 != 0) && (n == 5 || n % 5 != 0) &&
    (n == 7 || n % 7 != 0) && (n == 11 || n % 11 != 0) && (n == 13 || n % 13 != 0) && (n == 17 || n % 17 != 0)
  }

  /** From `low` on, `high` is the first number that passes the sieve. */
  predicate NextIs(low: nat, high: nat)
    requires low <= high
    decreases high - low
  {
    if low == high then Sieved(high) else !Sieved(low) && NextIs(low + 1, high)
  }

  lemma {:induction false} NextIsFirst(low: nat, high: nat, n: nat)
    requires low <= high && NextIs(low, high)
    ensures Sieved(high)
    ensures low <= n < high ==> !Sieved(n)
    decreases high - low
  {
    hide Sieved;
    if low < high {
      NextIsFirst(low + 1, high, n);
    }
  }

  lemma MultipleNotSieved(p: nat, q: nat)
    requires p in {2, 3, 5, 7, 11, 13, 17} && q >= 2
    ensures !Sieved(p * q)
  {
    ModUnique(p * q, p, q, 0);
    MulMono(2, q, p);
    Rejected(p * q, p);
  }

  lemma Rejected(n: nat, p: nat)
    requires p in {2, 3, 5, 7, 11, 13, 17} && n != p && n % p == 0
    ensures !Sieved(n)
  {
  }

  /** A proper factor below 19 is found by the sieve. */
  lemma SmallFactor(d: nat, e: nat)
    requires 2 <= d < 19 && e >= 2
    ensures !Sieved(d * e)
  {
    hide Sieved;
    if d in {2, 3, 5, 7, 11, 13, 17} {
      MultipleNotSieved(d, e);
    } else if d % 2 == 0 {
      MultipleNotSieved(2, d / 2 * e);
    } else {
      MultipleNotSieved(3, d / 3 * e);
    }
  }

  lemma BothLarge(d: nat, e: nat)
    requires d >= 19 && e >= 19
    ensures d * e >= 361
  {
    assert (d - 19) * (e - 19) >= 0;
  }

  lemma CofactorIsProper(n: nat, d: nat)
    requires 2 <= d < n && n % d == 0
    ensures n == d * (n / d) && n / d >= 2
  {
  }

  /** Below 19 * 19 the sieve lets only primes through. */
  lemma SievedIsPrime(n: nat)
    requires n < 361 && Sieved(n)
    ensures IsPrime(n)
  {
    assert n >= 2;
    hide Sieved;
    forall d | 2 <= d < n
      ensures n % d != 0
    {
      if n % d == 0 {
        CofactorIsProper(n, d);
        if d < 19 {
          SmallFactor(d, n / d);
        } else if n / d < 19 {
          SmallFactor(n / d, d);
        } else {
          BothLarge(d, n / d);
        }
      }
    }
  }

  /** And all of them. */
  lemma PrimeIsSieved(n: nat)
    requires IsPrime(n)
    ensures Sieved(n)
  {
    forall d | d in {2, 3, 5, 7, 11, 13, 17}
      ensures n == d || n % d != 0
    {
      if d < n {
        assert n % d != 0;
      }
    }
  }

  lemma Gaps0(i: nat)
    requires 0 <= i < 8
    ensures |PRIMES| == 64 && PRIMES[i] < PRIMES[i + 1] && NextIs(PRIMES[i] + 1, PRIMES[i + 1])
  {
    match i
    case 0 => assert NextIs(3, 3);
    case 1 => assert NextIs(4, 5);
    case 2 => assert NextIs(6, 7);
    case 3 => assert NextIs(8, 11);
    case 4 => assert NextIs(12, 13);
    case 5 => assert NextIs(14, 17);
    case 6 => assert NextIs(18, 19);
    case _ => assert NextIs(20, 23);
  }

  lemma Gaps1(i: nat)
    requires 8 <= i < 16
    ensures |PRIMES| == 64 && PRIMES[i] < PRIMES[i + 1] && NextIs(PRIMES[i] + 1, PRIMES[i + 1])
  {
    match i
    case 8 => assert NextIs(24, 29);
    case 9 => assert NextIs(30, 31);
    case 10 => assert NextIs(32, 37);
    case 11 => assert NextIs(38, 41);
    case 12 => assert NextIs(42, 43);
    case 13 => assert NextIs(44, 47);
    case 14 => assert NextIs(48, 53);
    case _ => assert NextIs(54, 59);
  }

  lemma Gaps2(i: nat)
    requires 16 <= i < 24
    ensures |PRIMES| == 64 && PRIMES[i] < PRIMES[i + 1] && NextIs(PRIMES[i] + 1, PRIMES[i + 1])
  {
    match i
    case 16 => assert NextIs(60, 61);
    case 17 => assert NextIs(62, 67);
    case 18 => assert NextIs(68, 71);
    case 19 => assert NextIs(72, 73);
    case 20 => assert NextIs(74, 79);
    case 21 => assert NextIs(80, 83);
    case 22 => assert NextIs(84, 89);
    case _ => assert NextIs(90, 97);
  }

  lemma Gaps3(i: nat)
    requires 24 <= i < 32
    ensures |PRIMES| == 64 && PRIMES[i] < PRIMES[i + 1] && NextIs(PRIMES[i] + 1, PRIMES[i + 1])
  {
    match i
    case 24 => assert NextIs(98, 101);
    case 25 => assert NextIs(102, 103);
    case 26 => assert NextIs(104, 107);
    case 27 => assert NextIs(108, 109);
    case 28 => assert NextIs(110, 113);
    case 29 => assert NextIs(114, 127);
    case 30 => assert NextIs(128, 131);
    case _ => assert NextIs(132, 137);
  }

  lemma Gaps4(i: nat)
    requires 32 <= i < 40
    ensures |PRIMES| == 64 && PRIMES[i] < PRIMES[i + 1] && NextIs(PRIMES[i] + 1, PRIMES[i + 1])
  {
    match i
    case 32 => assert NextIs(138, 139);
    case 33 => assert NextIs(140, 149);
    case 34 => assert NextIs(150, 151);
    case 35 => assert NextIs(152, 157);
    case 36 => assert NextIs(158, 163);
    case 37 => assert NextIs(164, 167);
    case 38 => assert NextIs(168, 173);
    case _ => assert NextIs(174, 179);
  }

  lemma Gaps5(i: nat)
    requires 40 <= i < 48
    ensures |PRIMES| == 64 && PRIMES[i] < PRIMES[i + 1] && NextIs(PRIMES[i] + 1, PRIMES[i + 1])
  {
    match i
    case 40 => assert NextIs(180, 181);
    case 41 => assert NextIs(182, 191);
    case 42 => assert NextIs(192, 193);
    case 43 => assert NextIs(194, 197);
    case 44 => assert NextIs(198, 199);
    case 45 => assert NextIs(200, 211);
    case 46 => assert NextIs(212, 223);
    case _ => assert NextIs(224, 227);
  }

  lemma Gaps6(i: nat)
    requires 48 <= i < 56
    ensures |PRIMES| == 64 && PRIMES[i] < PRIMES[i + 1] && NextIs(PRIMES[i] + 1, PRIMES[i + 1])
  {
    match i
    case 48 => assert NextIs(228, 229);
    case 49 => assert NextIs(230, 233);
    case 50 => assert NextIs(234, 239);
    case 51 => assert NextIs(240, 241);
    case 52 => assert NextIs(242, 251);
    case 53 => assert NextIs(252, 257);
    case 54 => assert NextIs(258, 263);
    case _ => assert NextIs(264, 269);
  }

  lemma Gaps7(i: nat)
    requires 56 <= i < 63
    ensures |PRIMES| == 64 && PRIMES[i] < PRIMES[i + 1] && NextIs(PRIMES[i] + 1, PRIMES[i + 1])
  {
    match i
    case 56 => assert NextIs(270, 271);
    case 57 => assert NextIs(272, 277);
    case 58 => assert NextIs(278, 281);
    case 59 => assert NextIs(282, 283);
    case 60 => assert NextIs(284, 293);
    case 61 => assert NextIs(294, 307);
    case _ => assert NextIs(308, 311);
  }

  /** From one entry to the next the sieve finds nothing in between. */
  lemma Gap(i: nat)
    requires i < 63
    ensures |PRIMES| == 64 && PRIMES[i] < PRIMES[i + 1] && NextIs(PRIMES[i] + 1, PRIMES[i + 1])
  {
    hide NextIs;
    match i / 8
    case 0 => Gaps0(i);
    case 1 => Gaps1(i);
    case 2 => Gaps2(i);
    case 3 => Gaps3(i);
    case 4 => Gaps4(i);
    case 5 => Gaps5(i);
    case 6 => Gaps6(i);
    case _ => Gaps7(i);
  }

  lemma Ends()
    ensures |PRIMES| == 64 && PRIMES[0] == 2 && PRIMES[63] == 311 && Sieved(2)
  {
  }

  lemma {:induction false} Increasing(i: nat, j: nat)
    requires i < j < 64
    ensures |PRIMES| == 64 && PRIMES[i] < PRIMES[j]
  {
    hide PRIMES, NextIs;
    Gap(j - 1);
    if i < j - 1 {
      Increasing(i, j - 1);
    }
  }

  /** The last of the entries up to k that does not exceed n. */
  lemma {:induction false} Locate(n: nat, k: nat) returns (i: nat)
    requires k < 64
    requires |PRIMES| == 64 ==> 2 <= n <= PRIMES[k]
    ensures |PRIMES| == 64 && i <= k && PRIMES[i] <= n
    ensures i < k ==> n < PRIMES[i + 1]
  {
    Ends();
    hide PRIMES;
    if n == PRIMES[k] || k == 0 {
      i := k;
    } else if PRIMES[k - 1] <= n {
      i := k - 1;
    } else {
      i := Locate(n, k - 1);
    }
  }

  lemma EntryIsSieved(i: nat)
    requires i < 64
    ensures |PRIMES| == 64 && PRIMES[i] <= 311 && Sieved(PRIMES[i])
  {
    hide *;
    Ends();
    if i > 0 {
      Gap(i - 1);
      NextIsFirst(PRIMES[i - 1] + 1, PRIMES[i], 0);
    }
    if i < 63 {
      Increasing(i, 63);
    }
  }

  /** The entries are exactly the primes up to 311, in increasing order. */
  lemma ExactlyThePrimes(n: nat)
    ensures |PRIMES| == 64 && forall i, j :: 0 <= i < j < 64 ==> PRIMES[i] < PRIMES[j]
    ensures n in PRIMES <==> n <= 311 && IsPrime(n)
  {
    Ends();
    hide PRIMES, NextIs, Sieved, IsPrime;
    forall i, j | 0 <= i < j < 64
      ensures PRIMES[i] < PRIMES[j]
    {
      Increasing(i, j);
    }
    if n in PRIMES {
      var i :| 0 <= i < 64 && PRIMES[i] == n;
      EntryIsSieved(i);
      SievedIsPrime(n);
    } else if n <= 311 && IsPrime(n) {
      PrimeIsSieved(n);
      AtLeastTwo(n);
      var i := Locate(n, 63);
      Gap(i);
      NextIsFirst(PRIMES[i] + 1, PRIMES[i + 1], n);
    }
  }

  lemma AtLeastTwo(n: nat)
    requires IsPrime(n)
    ensures n >= 2
  {
  }
}
