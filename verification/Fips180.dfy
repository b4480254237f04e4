/**
 * What FIPS 180-4 says of SHA-256 from the outside: its constants are the
 * fractions of roots of primes, its logical functions choose and outvote bit
 * by bit, and the message "abc" has the digest it publishes.
 */
module Fips180 {
  import opened Bytes
  import opened HashChain
  import opened RollingSchedule
  import opened Sha256

  // ---- The first sixty-four primes ----

  const PRIMES: seq<seq<nat>> := [
    [2, 3, 5, 7, 11, 13, 17, 19],
    [23, 29, 31, 37, 41, 43, 47, 53],
    [59, 61, 67, 71, 73, 79, 83, 89],
    [97, 101, 103, 107, 109, 113, 127, 131],
    [137, 139, 149, 151, 157, 163, 167, 173],
    [179, 181, 191, 193, 197, 199, 211, 223],
    [227, 229, 233, 239, 241, 251, 257, 263],
    [269, 271, 277, 281, 283, 293, 307, 311]]

  function P(i: nat): nat
    requires i < 64
  {
    PRIMES[i / 8][i % 8]
  }

  ghost predicate Prime(n: nat) {
    n >= 2 && forall d :: 2 <= d < n ==> n % d != 0
  }

  /** Below 19 * 19, no divisor but itself among the primes up to 17. */
  predicate Sieved(n: nat) {
    && 2 <= n < 361
    && (n % 2 != 0 || n == 2) && (n % 3 != 0 || n == 3) && (n % 5 != 0 || n == 5) && (n % 7 != 0 || n == 7)
    && (n % 11 != 0 || n == 11) && (n % 13 != 0 || n == 13) && (n % 17 != 0 || n == 17)
  }

  /** That is enough to be prime. */
  lemma SievedIff(n: nat)
    requires 2 <= n < 361
    ensures Sieved(n) <==> Prime(n)
  {
    if Sieved(n) {
      forall d | 2 <= d < n ensures n % d != 0 {
        hide Sieved;
        NoDivisor(n, d);
      }
    } else {
      NotSieved(n);
    }
  }

  lemma NoDivisor(n: nat, d: nat)
    requires 2 <= d < n < 361 && Sieved(n)
    ensures n % d != 0
  {
    hide Sieved;
    if n % d == 0 {
      var e := n / d;
      Products(d, e);
      SmallDivisor(n, if d <= 18 then d else e, if d <= 18 then e else d);
    }
  }

  lemma NotSieved(n: nat)
    requires 2 <= n < 361 && !Sieved(n)
    ensures !Prime(n)
  {
    var q := if n % 2 == 0 && n != 2 then 2 else if n % 3 == 0 && n != 3 then 3 else if n % 5 == 0 && n != 5 then 5
      else if n % 7 == 0 && n != 7 then 7 else if n % 11 == 0 && n != 11 then 11 else if n % 13 == 0 && n != 13 then 13 else 17;
    assert 2 <= q < n && n % q == 0;
  }

  lemma Products(d: nat, e: nat)
    ensures d >= 19 && e >= 19 ==> d * e >= 361
  {
    if d >= 19 && e >= 19 {
      assert (d - 19) * e >= 0;
      assert d * e == (d - 19) * e + 19 * e;
    }
  }

  /** A divisor up to 18 brings one of the primes up to 17 along. */
  lemma SmallDivisor(n: nat, d: nat, e: nat)
    requires n == d * e && 2 <= d <= 18 && d < n
    ensures !Sieved(n)
  {
    if d % 2 == 0 {
      Brings(n, d, e, 2);
    } else if d % 3 == 0 {
      Brings(n, d, e, 3);
    } else {
      Brings(n, d, e, d);
      assert d == 5 || d == 7 || d == 11 || d == 13 || d == 17;
    }
  }

  lemma Brings(n: nat, d: nat, e: nat, q: nat)
    requires n == d * e && q > 0 && d % q == 0
    ensures n % q == 0
  {
    var m := d / q;
    assert n == m * e * q + 0 by {
      assert d == m * q;
    }
    DivUnique(n, q, m * e, 0);
  }

  /** The odd primes from n to hi - 2 are P(i) .. P(j - 1). */
  predicate Listed(n: nat, hi: nat, i: nat, j: nat)
    requires n <= hi && (hi - n) % 2 == 0
    decreases hi - n
  {
    if n == hi then i == j
    else if Sieved(n) then i < 64 && P(i) == n && Listed(n + 2, hi, i + 1, j)
    else Listed(n + 2, hi, i, j)
  }

  lemma Odd3()
    ensures Listed(3, 33, 1, 11)
  {
    assert Listed(19, 33, 7, 11);
  }

  lemma Odd33()
    ensures Listed(33, 63, 11, 18)
  {
    assert Listed(49, 63, 15, 18);
  }

  lemma Odd63()
    ensures Listed(63, 93, 18, 24)
  {
    assert Listed(79, 93, 21, 24);
  }

  lemma Odd93()
    ensures Listed(93, 123, 24, 30)
  {
    assert Listed(109, 123, 28, 30);
  }

  lemma Odd123()
    ensures Listed(123, 153, 30, 36)
  {
    assert Listed(139, 153, 33, 36);
  }

  lemma Odd153()
    ensures Listed(153, 183, 36, 42)
  {
    assert Listed(169, 183, 39, 42);
  }

  lemma Odd183()
    ensures Listed(183, 213, 42, 47)
  {
    assert Listed(199, 213, 45, 47);
  }

  lemma Odd213()
    ensures Listed(213, 243, 47, 53)
  {
    assert Listed(229, 243, 49, 53);
  }

  lemma Odd243()
    ensures Listed(243, 273, 53, 58)
  {
    assert Listed(259, 273, 55, 58);
  }

  lemma Odd273()
    ensures Listed(273, 303, 58, 62)
  {
    assert Listed(289, 303, 61, 62);
  }

  lemma Odd303()
    ensures Listed(303, 313, 62, 64)
  {
  }

  lemma {:induction false} ListedJoin(n: nat, m: nat, hi: nat, i: nat, k: nat, j: nat)
    requires n <= m <= hi && (m - n) % 2 == 0 && (hi - m) % 2 == 0 && Listed(n, m, i, k) && Listed(m, hi, k, j)
    ensures Listed(n, hi, i, j)
    decreases m - n
  {
    hide Sieved, P;
    if n == m {
    } else {
      ListedJoin(n + 2, m, hi, if Sieved(n) then i + 1 else i, k, j);
    }
  }

  lemma AllListed()
    ensures Listed(3, 313, 1, 64)
  {
    hide Listed;
    Odd3();
    Odd33();
    Odd63();
    Odd93();
    Odd123();
    Odd153();
    Odd183();
    Odd213();
    Odd243();
    Odd273();
    Odd303();
    ListedJoin(3, 33, 63, 1, 11, 18);
    ListedJoin(3, 63, 93, 1, 18, 24);
    ListedJoin(3, 93, 123, 1, 24, 30);
    ListedJoin(3, 123, 153, 1, 30, 36);
    ListedJoin(3, 153, 183, 1, 36, 42);
    ListedJoin(3, 183, 213, 1, 42, 47);
    ListedJoin(3, 213, 243, 1, 47, 53);
    ListedJoin(3, 243, 273, 1, 53, 58);
    ListedJoin(3, 273, 303, 1, 58, 62);
    ListedJoin(3, 303, 313, 1, 62, 64);
  }

  lemma {:induction false} ListedFinds(n: nat, i: nat, m: nat)
    requires 3 <= n <= m < 313 && n % 2 == m % 2 == 1 && Listed(n, 313, i, 64) && Sieved(m)
    ensures exists k :: i <= k < 64 && P(k) == m
    decreases 313 - n
  {
    hide Sieved, P;
    if n == m {
    } else {
      ListedFinds(n + 2, if Sieved(n) then i + 1 else i, m);
    }
  }

  lemma {:induction false} ListedAre(n: nat, i: nat, k: nat)
    requires 3 <= n <= 313 && n % 2 == 1 && Listed(n, 313, i, 64) && i <= k < 64
    ensures n <= P(k) < 313 && P(k) % 2 == 1 && Sieved(P(k))
    decreases 313 - n
  {
    hide Sieved, P;
    if Sieved(n) && k == i {
    } else {
      ListedAre(n + 2, if Sieved(n) then i + 1 else i, k);
    }
  }

  lemma {:induction false} ListedRise(n: nat, i: nat, k: nat)
    requires 3 <= n <= 313 && n % 2 == 1 && Listed(n, 313, i, 64) && i <= k < 63
    ensures P(k) < P(k + 1)
    decreases 313 - n
  {
    hide Sieved, P;
    if Sieved(n) && k == i {
      ListedAre(n + 2, i + 1, k + 1);
    } else {
      ListedRise(n + 2, if Sieved(n) then i + 1 else i, k);
    }
  }

  /** The table rises ... */
  lemma {:induction false} Rising(i: nat, j: nat)
    requires i < j < 64
    ensures P(i) < P(j)
    decreases j
  {
    assert P(0) == 2 && P(1) == 3;
    hide P, Listed;
    AllListed();
    if j > i + 1 {
      Rising(i, j - 1);
    }
    if j > 1 {
      ListedRise(3, 1, j - 1);
    }
  }

  /** ... and holds exactly the primes up to 311, so P(i) is prime number i. */
  lemma TheFirstPrimes(n: nat)
    requires 2 <= n <= 311
    ensures Prime(n) <==> exists i :: 0 <= i < 64 && P(i) == n
  {
    assert P(0) == 2 && Sieved(2);
    hide Sieved, Prime, P, Listed;
    AllListed();
    SievedIff(n);
    if n % 2 == 1 && Sieved(n) {
      ListedFinds(3, 1, n);
    } else if n % 2 == 0 {
      Evens(n);
    }
    forall i | 0 <= i < 64 && P(i) == n ensures Sieved(n) {
      if i > 0 {
        ListedAre(3, 1, i);
      }
    }
  }

  lemma Evens(n: nat)
    requires 2 <= n < 361 && n % 2 == 0
    ensures Sieved(n) <==> n == 2
  {
  }

  // ---- Section 4.2.2 and section 5.3.3 ----

  const TWO64 := TWO32 * TWO32
  const TWO96 := TWO64 * TWO32

  function Square(x: nat): nat { x * x }
  function Cube(x: nat): nat { x * x * x }

  /** w is the first 32 bits of the fraction of the cube root of p, whose integer part is c. */
  predicate CubeFraction(p: nat, c: nat, w: Word) {
    Cube(c) <= p < Cube(c + 1) && Cube(c * TWO32 + w) <= p * TWO96 < Cube(c * TWO32 + w + 1)
  }

  predicate SquareFraction(p: nat, c: nat, w: Word) {
    Square(c) <= p < Square(c + 1) && Square(c * TWO32 + w) <= p * TWO64 < Square(c * TWO32 + w + 1)
  }

  ghost predicate IsConstant(t: nat)
    requires t < 64
  {
    exists c :: CubeFraction(P(t), c, K(t))
  }

  lemma Witness(t: nat, c: nat)
    requires t < 64 && CubeFraction(P(t), c, K(t))
    ensures IsConstant(t)
  {
  }

  lemma Constants0()
    ensures forall t :: 0 <= t < 8 ==> IsConstant(t)
  {
    hide IsConstant;
    Witness(0, 1);
    Witness(1, 1);
    Witness(2, 1);
    Witness(3, 1);
    Witness(4, 2);
    Witness(5, 2);
    Witness(6, 2);
    Witness(7, 2);
  }

  lemma Constants1()
    ensures forall t :: 8 <= t < 16 ==> IsConstant(t)
  {
    hide IsConstant;
    Witness(8, 2);
    Witness(9, 3);
    Witness(10, 3);
    Witness(11, 3);
    Witness(12, 3);
    Witness(13, 3);
    Witness(14, 3);
    Witness(15, 3);
  }

  lemma Constants2()
    ensures forall t :: 16 <= t < 24 ==> IsConstant(t)
  {
    hide IsConstant;
    Witness(16, 3);
    Witness(17, 3);
    Witness(18, 4);
    Witness(19, 4);
    Witness(20, 4);
    Witness(21, 4);
    Witness(22, 4);
    Witness(23, 4);
  }

  lemma Constants3()
    ensures forall t :: 24 <= t < 32 ==> IsConstant(t)
  {
    hide IsConstant;
    Witness(24, 4);
    Witness(25, 4);
    Witness(26, 4);
    Witness(27, 4);
    Witness(28, 4);
    Witness(29, 4);
    Witness(30, 5);
    Witness(31, 5);
  }

  lemma Constants4()
    ensures forall t :: 32 <= t < 40 ==> IsConstant(t)
  {
    hide IsConstant;
    Witness(32, 5);
    Witness(33, 5);
    Witness(34, 5);
    Witness(35, 5);
    Witness(36, 5);
    Witness(37, 5);
    Witness(38, 5);
    Witness(39, 5);
  }

  lemma Constants5()
    ensures forall t :: 40 <= t < 48 ==> IsConstant(t)
  {
    hide IsConstant;
    Witness(40, 5);
    Witness(41, 5);
    Witness(42, 5);
    Witness(43, 5);
    Witness(44, 5);
    Witness(45, 5);
    Witness(46, 5);
    Witness(47, 6);
  }

  lemma Constants6()
    ensures forall t :: 48 <= t < 56 ==> IsConstant(t)
  {
    hide IsConstant;
    Witness(48, 6);
    Witness(49, 6);
    Witness(50, 6);
    Witness(51, 6);
    Witness(52, 6);
    Witness(53, 6);
    Witness(54, 6);
    Witness(55, 6);
  }

  lemma Constants7()
    ensures forall t :: 56 <= t < 64 ==> IsConstant(t)
  {
    hide IsConstant;
    Witness(56, 6);
    Witness(57, 6);
    Witness(58, 6);
    Witness(59, 6);
    Witness(60, 6);
    Witness(61, 6);
    Witness(62, 6);
    Witness(63, 6);
  }

  /** The sixty-four constants are the fractions of the cube roots of the first sixty-four primes. */
  lemma TheConstants(t: nat)
    requires t < 64
    ensures IsConstant(t)
  {
    hide IsConstant;
    match t / 8
    case 0 => Constants0();
    case 1 => Constants1();
    case 2 => Constants2();
    case 3 => Constants3();
    case 4 => Constants4();
    case 5 => Constants5();
    case 6 => Constants6();
    case _ => Constants7();
  }

  /** The initial state: the fractions of the square roots of the first eight. */
  lemma TheInitialState(t: nat)
    requires t < 8
    ensures exists c :: SquareFraction(P(t), c, IV[t])
  {
    assert SquareFraction(P(0), 1, IV[0]);
    assert SquareFraction(P(1), 1, IV[1]);
    assert SquareFraction(P(2), 2, IV[2]);
    assert SquareFraction(P(3), 2, IV[3]);
    assert SquareFraction(P(4), 3, IV[4]);
    assert SquareFraction(P(5), 3, IV[5]);
    assert SquareFraction(P(6), 4, IV[6]);
    assert SquareFraction(P(7), 4, IV[7]);
  }

  // ---- Section 4.1.2 ----

  /** Where the bits of x are set Ch has those of y, elsewhere those of z. */
  lemma Chooses(x: bv32, y: bv32, z: bv32)
    ensures (Ch(x, y, z) ^ y) & x == 0 && (Ch(x, y, z) ^ z) & !x == 0
  {
  }

  /** Where the first two of the three agree Maj has what they have, and it does not matter which come first. */
  lemma Outvotes(x: bv32, y: bv32, z: bv32)
    ensures (Maj(x, y, z) ^ x) & !(x ^ y) == 0
    ensures Maj(x, y, z) == Maj(y, z, x)
  {
  }

  // ---- The published example ----

  const ABC: seq<Byte> := [0x61, 0x62, 0x63]

  /** Its one block. */
  function AbcBlock(): Block {
    ABC + [0x80] + Zeros(59) + [24]
  }

  /** Word t of its message schedule. */
  ghost function Sched(t: nat): bv32 {
    Schedule(Mix, Words(AbcBlock()), t)
  }

  /** The working variables before round t. */
  ghost function At(t: nat): Vars {
    Rounds(Mix, Round, ToVars(IV), Words(AbcBlock()), t)
  }

  lemma NextWord(t: nat, w16: bv32, w15: bv32, w7: bv32, w2: bv32, w: bv32)
    requires t >= 16 && Sched(t - 16) == w16 && Sched(t - 15) == w15 && Sched(t - 7) == w7 && Sched(t - 2) == w2
    requires Mix(w16, w15, w7, w2) == w
    ensures Sched(t) == w
  {
    hide Mix, AbcBlock, Words;
  }

  lemma NextRound(t: nat, a: bv32, b: bv32, c: bv32, d: bv32, e: bv32, f: bv32, g: bv32, h: bv32, k: Word, kb: bv32, w: bv32, a': bv32, e': bv32)
    requires t < 64 && At(t) == Vars(a, b, c, d, e, f, g, h) && K(t) == k && ToBits(k) == kb && Sched(t) == w
    requires RoundWith(Vars(a, b, c, d, e, f, g, h), kb, w) == Vars(a', a, b, c, e', e, f, g)
    ensures At(t + 1) == Vars(a', a, b, c, e', e, f, g)
  {
    hide Mix, AbcBlock, Words, RoundWith, K, ToBits, ToVars;
  }

  lemma AbcPiece(t: nat)
    requires t < 16
    ensures AbcBlock()[4 * t..4 * t + 4] == if t == 0 then [0x61, 0x62, 0x63, 0x80] else if t == 15 then [0, 0, 0, 24] else [0, 0, 0, 0]
  {
  }

  lemma PieceBits()
    ensures ToBits(UnBe32([0x61, 0x62, 0x63, 0x80])) == 0x61626380
    ensures ToBits(UnBe32([0, 0, 0, 24])) == 24 && ToBits(UnBe32([0, 0, 0, 0])) == 0
  {
    assert UnBe32([0x61, 0x62, 0x63, 0x80]) == 0x61626380 && UnBe32([0, 0, 0, 24]) == 24 && UnBe32([0, 0, 0, 0]) == 0;
    hide UnBe32;
    assert ToBits(0x61626380) == 0x61626380 && ToBits(24) == 24 && ToBits(0) == 0;
  }

  lemma FirstWords()
    ensures Sched(0) == 0x61626380 && (forall t :: 1 <= t < 15 ==> Sched(t) == 0) && Sched(15) == 24
  {
    hide ToBits, UnBe32, AbcBlock, Mix;
    PieceBits();
    forall t | 0 <= t < 16 ensures Sched(t) == if t == 0 then 0x61626380 else if t == 15 then 24 else 0 {
      AbcPiece(t);
    }
  }

  lemma Words16()
    ensures Sched(16) == 0x61626380 && Sched(17) == 0x000f0000 && Sched(18) == 0x7da86405 && Sched(19) == 0x600003c6
    ensures Sched(20) == 0x3e9d7b78 && Sched(21) == 0x0183fc00 && Sched(22) == 0x12dcbfdb && Sched(23) == 0xe2e2c38e
  {
    hide Sched;
    FirstWords();
    NextWord(16, 0x61626380, 0x00000000, 0x00000000, 0x00000000, 0x61626380);
    NextWord(17, 0x00000000, 0x00000000, 0x00000000, 0x00000018, 0x000f0000);
    NextWord(18, 0x00000000, 0x00000000, 0x00000000, 0x61626380, 0x7da86405);
    NextWord(19, 0x00000000, 0x00000000, 0x00000000, 0x000f0000, 0x600003c6);
    NextWord(20, 0x00000000, 0x00000000, 0x00000000, 0x7da86405, 0x3e9d7b78);
    NextWord(21, 0x00000000, 0x00000000, 0x00000000, 0x600003c6, 0x0183fc00);
    NextWord(22, 0x00000000, 0x00000000, 0x00000018, 0x3e9d7b78, 0x12dcbfdb);
    NextWord(23, 0x00000000, 0x00000000, 0x61626380, 0x0183fc00, 0xe2e2c38e);
  }

  lemma Words24()
    ensures Sched(24) == 0xc8215c1a && Sched(25) == 0xb73679a2 && Sched(26) == 0xe5bc3909 && Sched(27) == 0x32663c5b
    ensures Sched(28) == 0x9d209d67 && Sched(29) == 0xec8726cb && Sched(30) == 0x702138a4 && Sched(31) == 0xd3b7973b
  {
    hide Sched;
    FirstWords();
    Words16();
    NextWord(24, 0x00000000, 0x00000000, 0x000f0000, 0x12dcbfdb, 0xc8215c1a);
    NextWord(25, 0x00000000, 0x00000000, 0x7da86405, 0xe2e2c38e, 0xb73679a2);
    NextWord(26, 0x00000000, 0x00000000, 0x600003c6, 0xc8215c1a, 0xe5bc3909);
    NextWord(27, 0x00000000, 0x00000000, 0x3e9d7b78, 0xb73679a2, 0x32663c5b);
    NextWord(28, 0x00000000, 0x00000000, 0x0183fc00, 0xe5bc3909, 0x9d209d67);
    NextWord(29, 0x00000000, 0x00000000, 0x12dcbfdb, 0x32663c5b, 0xec8726cb);
    NextWord(30, 0x00000000, 0x00000018, 0xe2e2c38e, 0x9d209d67, 0x702138a4);
    NextWord(31, 0x00000018, 0x61626380, 0xc8215c1a, 0xec8726cb, 0xd3b7973b);
  }

  lemma Words32()
    ensures Sched(32) == 0x93f5997f && Sched(33) == 0x3b68ba73 && Sched(34) == 0xaff4ffc1 && Sched(35) == 0xf10a5c62
    ensures Sched(36) == 0x0a8b3996 && Sched(37) == 0x72af830a && Sched(38) == 0x9409e33e && Sched(39) == 0x24641522
  {
    hide Sched;
    Words16();
    Words24();
    NextWord(32, 0x61626380, 0x000f0000, 0xb73679a2, 0x702138a4, 0x93f5997f);
    NextWord(33, 0x000f0000, 0x7da86405, 0xe5bc3909, 0xd3b7973b, 0x3b68ba73);
    NextWord(34, 0x7da86405, 0x600003c6, 0x32663c5b, 0x93f5997f, 0xaff4ffc1);
    NextWord(35, 0x600003c6, 0x3e9d7b78, 0x9d209d67, 0x3b68ba73, 0xf10a5c62);
    NextWord(36, 0x3e9d7b78, 0x0183fc00, 0xec8726cb, 0xaff4ffc1, 0x0a8b3996);
    NextWord(37, 0x0183fc00, 0x12dcbfdb, 0x702138a4, 0xf10a5c62, 0x72af830a);
    NextWord(38, 0x12dcbfdb, 0xe2e2c38e, 0xd3b7973b, 0x0a8b3996, 0x9409e33e);
    NextWord(39, 0xe2e2c38e, 0xc8215c1a, 0x93f5997f, 0x72af830a, 0x24641522);
  }

  lemma Words40()
    ensures Sched(40) == 0x9f47bf94 && Sched(41) == 0xf0a64f5a && Sched(42) == 0x3e246a79 && Sched(43) == 0x27333ba3
    ensures Sched(44) == 0x0c4763f2 && Sched(45) == 0x840abf27 && Sched(46) == 0x7a290d5d && Sched(47) == 0x065c43da
  {
    hide Sched;
    Words24();
    Words32();
    NextWord(40, 0xc8215c1a, 0xb73679a2, 0x3b68ba73, 0x9409e33e, 0x9f47bf94);
    NextWord(41, 0xb73679a2, 0xe5bc3909, 0xaff4ffc1, 0x24641522, 0xf0a64f5a);
    NextWord(42, 0xe5bc3909, 0x32663c5b, 0xf10a5c62, 0x9f47bf94, 0x3e246a79);
    NextWord(43, 0x32663c5b, 0x9d209d67, 0x0a8b3996, 0xf0a64f5a, 0x27333ba3);
    NextWord(44, 0x9d209d67, 0xec8726cb, 0x72af830a, 0x3e246a79, 0x0c4763f2);
    NextWord(45, 0xec8726cb, 0x702138a4, 0x9409e33e, 0x27333ba3, 0x840abf27);
    NextWord(46, 0x702138a4, 0xd3b7973b, 0x24641522, 0x0c4763f2, 0x7a290d5d);
    NextWord(47, 0xd3b7973b, 0x93f5997f, 0x9f47bf94, 0x840abf27, 0x065c43da);
  }

  lemma Words48()
    ensures Sched(48) == 0xfb3e89cb && Sched(49) == 0xcc7617db && Sched(50) == 0xb9e66c34 && Sched(51) == 0xa9993667
    ensures Sched(52) == 0x84badedd && Sched(53) == 0xc21462bc && Sched(54) == 0x1487472c && Sched(55) == 0xb20f7a99
  {
    hide Sched;
    Words32();
    Words40();
    NextWord(48, 0x93f5997f, 0x3b68ba73, 0xf0a64f5a, 0x7a290d5d, 0xfb3e89cb);
    NextWord(49, 0x3b68ba73, 0xaff4ffc1, 0x3e246a79, 0x065c43da, 0xcc7617db);
    NextWord(50, 0xaff4ffc1, 0xf10a5c62, 0x27333ba3, 0xfb3e89cb, 0xb9e66c34);
    NextWord(51, 0xf10a5c62, 0x0a8b3996, 0x0c4763f2, 0xcc7617db, 0xa9993667);
    NextWord(52, 0x0a8b3996, 0x72af830a, 0x840abf27, 0xb9e66c34, 0x84badedd);
    NextWord(53, 0x72af830a, 0x9409e33e, 0x7a290d5d, 0xa9993667, 0xc21462bc);
    NextWord(54, 0x9409e33e, 0x24641522, 0x065c43da, 0x84badedd, 0x1487472c);
    NextWord(55, 0x24641522, 0x9f47bf94, 0xfb3e89cb, 0xc21462bc, 0xb20f7a99);
  }

  lemma Words56()
    ensures Sched(56) == 0xef57b9cd && Sched(57) == 0xebe6b238 && Sched(58) == 0x9fe3095e && Sched(59) == 0x78bc8d4b
    ensures Sched(60) == 0xa43fcf15 && Sched(61) == 0x668b2ff8 && Sched(62) == 0xeeaba2cc && Sched(63) == 0x12b1edeb
  {
    hide Sched;
    Words40();
    Words48();
    NextWord(56, 0x9f47bf94, 0xf0a64f5a, 0xcc7617db, 0x1487472c, 0xef57b9cd);
    NextWord(57, 0xf0a64f5a, 0x3e246a79, 0xb9e66c34, 0xb20f7a99, 0xebe6b238);
    NextWord(58, 0x3e246a79, 0x27333ba3, 0xa9993667, 0xef57b9cd, 0x9fe3095e);
    NextWord(59, 0x27333ba3, 0x0c4763f2, 0x84badedd, 0xebe6b238, 0x78bc8d4b);
    NextWord(60, 0x0c4763f2, 0x840abf27, 0xc21462bc, 0x9fe3095e, 0xa43fcf15);
    NextWord(61, 0x840abf27, 0x7a290d5d, 0x1487472c, 0x78bc8d4b, 0x668b2ff8);
    NextWord(62, 0x7a290d5d, 0x065c43da, 0xb20f7a99, 0xa43fcf15, 0xeeaba2cc);
    NextWord(63, 0x065c43da, 0xfb3e89cb, 0xef57b9cd, 0x668b2ff8, 0x12b1edeb);
  }

  lemma Ks0()
    ensures K(0) == 0x428a2f98 && K(1) == 0x71374491 && K(2) == 0xb5c0fbcf && K(3) == 0xe9b5dba5
    ensures K(4) == 0x3956c25b && K(5) == 0x59f111f1 && K(6) == 0x923f82a4 && K(7) == 0xab1c5ed5
  {
  }

  lemma Bits0()
    ensures ToBits(0x428a2f98) == 0x428a2f98 && ToBits(0x71374491) == 0x71374491 && ToBits(0xb5c0fbcf) == 0xb5c0fbcf && ToBits(0xe9b5dba5) == 0xe9b5dba5
    ensures ToBits(0x3956c25b) == 0x3956c25b && ToBits(0x59f111f1) == 0x59f111f1 && ToBits(0x923f82a4) == 0x923f82a4 && ToBits(0xab1c5ed5) == 0xab1c5ed5
  {
  }

  lemma Ks8()
    ensures K(8) == 0xd807aa98 && K(9) == 0x12835b01 && K(10) == 0x243185be && K(11) == 0x550c7dc3
    ensures K(12) == 0x72be5d74 && K(13) == 0x80deb1fe && K(14) == 0x9bdc06a7 && K(15) == 0xc19bf174
  {
  }

  lemma Bits8()
    ensures ToBits(0xd807aa98) == 0xd807aa98 && ToBits(0x12835b01) == 0x12835b01 && ToBits(0x243185be) == 0x243185be && ToBits(0x550c7dc3) == 0x550c7dc3
    ensures ToBits(0x72be5d74) == 0x72be5d74 && ToBits(0x80deb1fe) == 0x80deb1fe && ToBits(0x9bdc06a7) == 0x9bdc06a7 && ToBits(0xc19bf174) == 0xc19bf174
  {
  }

  lemma Ks16()
    ensures K(16) == 0xe49b69c1 && K(17) == 0xefbe4786 && K(18) == 0x0fc19dc6 && K(19) == 0x240ca1cc
    ensures K(20) == 0x2de92c6f && K(21) == 0x4a7484aa && K(22) == 0x5cb0a9dc && K(23) == 0x76f988da
  {
  }

  lemma Bits16()
    ensures ToBits(0xe49b69c1) == 0xe49b69c1 && ToBits(0xefbe4786) == 0xefbe4786 && ToBits(0x0fc19dc6) == 0x0fc19dc6 && ToBits(0x240ca1cc) == 0x240ca1cc
    ensures ToBits(0x2de92c6f) == 0x2de92c6f && ToBits(0x4a7484aa) == 0x4a7484aa && ToBits(0x5cb0a9dc) == 0x5cb0a9dc && ToBits(0x76f988da) == 0x76f988da
  {
  }

  lemma Ks24()
    ensures K(24) == 0x983e5152 && K(25) == 0xa831c66d && K(26) == 0xb00327c8 && K(27) == 0xbf597fc7
    ensures K(28) == 0xc6e00bf3 && K(29) == 0xd5a79147 && K(30) == 0x06ca6351 && K(31) == 0x14292967
  {
  }

  lemma Bits24()
    ensures ToBits(0x983e5152) == 0x983e5152 && ToBits(0xa831c66d) == 0xa831c66d && ToBits(0xb00327c8) == 0xb00327c8 && ToBits(0xbf597fc7) == 0xbf597fc7
    ensures ToBits(0xc6e00bf3) == 0xc6e00bf3 && ToBits(0xd5a79147) == 0xd5a79147 && ToBits(0x06ca6351) == 0x06ca6351 && ToBits(0x14292967) == 0x14292967
  {
  }

  lemma Ks32()
    ensures K(32) == 0x27b70a85 && K(33) == 0x2e1b2138 && K(34) == 0x4d2c6dfc && K(35) == 0x53380d13
    ensures K(36) == 0x650a7354 && K(37) == 0x766a0abb && K(38) == 0x81c2c92e && K(39) == 0x92722c85
  {
  }

  lemma Bits32()
    ensures ToBits(0x27b70a85) == 0x27b70a85 && ToBits(0x2e1b2138) == 0x2e1b2138 && ToBits(0x4d2c6dfc) == 0x4d2c6dfc && ToBits(0x53380d13) == 0x53380d13
    ensures ToBits(0x650a7354) == 0x650a7354 && ToBits(0x766a0abb) == 0x766a0abb && ToBits(0x81c2c92e) == 0x81c2c92e && ToBits(0x92722c85) == 0x92722c85
  {
  }

  lemma Ks40()
    ensures K(40) == 0xa2bfe8a1 && K(41) == 0xa81a664b && K(42) == 0xc24b8b70 && K(43) == 0xc76c51a3
    ensures K(44) == 0xd192e819 && K(45) == 0xd6990624 && K(46) == 0xf40e3585 && K(47) == 0x106aa070
  {
  }

  lemma Bits40()
    ensures ToBits(0xa2bfe8a1) == 0xa2bfe8a1 && ToBits(0xa81a664b) == 0xa81a664b && ToBits(0xc24b8b70) == 0xc24b8b70 && ToBits(0xc76c51a3) == 0xc76c51a3
    ensures ToBits(0xd192e819) == 0xd192e819 && ToBits(0xd6990624) == 0xd6990624 && ToBits(0xf40e3585) == 0xf40e3585 && ToBits(0x106aa070) == 0x106aa070
  {
  }

  lemma Ks48()
    ensures K(48) == 0x19a4c116 && K(49) == 0x1e376c08 && K(50) == 0x2748774c && K(51) == 0x34b0bcb5
    ensures K(52) == 0x391c0cb3 && K(53) == 0x4ed8aa4a && K(54) == 0x5b9cca4f && K(55) == 0x682e6ff3
  {
  }

  lemma Bits48()
    ensures ToBits(0x19a4c116) == 0x19a4c116 && ToBits(0x1e376c08) == 0x1e376c08 && ToBits(0x2748774c) == 0x2748774c && ToBits(0x34b0bcb5) == 0x34b0bcb5
    ensures ToBits(0x391c0cb3) == 0x391c0cb3 && ToBits(0x4ed8aa4a) == 0x4ed8aa4a && ToBits(0x5b9cca4f) == 0x5b9cca4f && ToBits(0x682e6ff3) == 0x682e6ff3
  {
  }

  lemma Ks56()
    ensures K(56) == 0x748f82ee && K(57) == 0x78a5636f && K(58) == 0x84c87814 && K(59) == 0x8cc70208
    ensures K(60) == 0x90befffa && K(61) == 0xa4506ceb && K(62) == 0xbef9a3f7 && K(63) == 0xc67178f2
  {
  }

  lemma Bits56()
    ensures ToBits(0x748f82ee) == 0x748f82ee && ToBits(0x78a5636f) == 0x78a5636f && ToBits(0x84c87814) == 0x84c87814 && ToBits(0x8cc70208) == 0x8cc70208
    ensures ToBits(0x90befffa) == 0x90befffa && ToBits(0xa4506ceb) == 0xa4506ceb && ToBits(0xbef9a3f7) == 0xbef9a3f7 && ToBits(0xc67178f2) == 0xc67178f2
  {
  }

  lemma Rounds0()
    ensures At(8) == Vars(0x85a07b5f, 0xe5030380, 0x2b4209f5, 0x04409a6a, 0x0c657a79, 0x9b27a401, 0x714260ad, 0x43ada245)
  {
    hide Sched, At, K, ToBits;
    Ks0();
    Bits0();
    Start();
    FirstWords();
    NextRound(0, 0x6a09e667, 0xbb67ae85, 0x3c6ef372, 0xa54ff53a, 0x510e527f, 0x9b05688c, 0x1f83d9ab, 0x5be0cd19, 0x428a2f98, 0x428a2f98, 0x61626380, 0x5d6aebcd, 0xfa2a4622);
    NextRound(1, 0x5d6aebcd, 0x6a09e667, 0xbb67ae85, 0x3c6ef372, 0xfa2a4622, 0x510e527f, 0x9b05688c, 0x1f83d9ab, 0x71374491, 0x71374491, 0x00000000, 0x5a6ad9ad, 0x78ce7989);
    NextRound(2, 0x5a6ad9ad, 0x5d6aebcd, 0x6a09e667, 0xbb67ae85, 0x78ce7989, 0xfa2a4622, 0x510e527f, 0x9b05688c, 0xb5c0fbcf, 0xb5c0fbcf, 0x00000000, 0xc8c347a7, 0xf92939eb);
    NextRound(3, 0xc8c347a7, 0x5a6ad9ad, 0x5d6aebcd, 0x6a09e667, 0xf92939eb, 0x78ce7989, 0xfa2a4622, 0x510e527f, 0xe9b5dba5, 0xe9b5dba5, 0x00000000, 0xd550f666, 0x24e00850);
    NextRound(4, 0xd550f666, 0xc8c347a7, 0x5a6ad9ad, 0x5d6aebcd, 0x24e00850, 0xf92939eb, 0x78ce7989, 0xfa2a4622, 0x3956c25b, 0x3956c25b, 0x00000000, 0x04409a6a, 0x43ada245);
    NextRound(5, 0x04409a6a, 0xd550f666, 0xc8c347a7, 0x5a6ad9ad, 0x43ada245, 0x24e00850, 0xf92939eb, 0x78ce7989, 0x59f111f1, 0x59f111f1, 0x00000000, 0x2b4209f5, 0x714260ad);
    NextRound(6, 0x2b4209f5, 0x04409a6a, 0xd550f666, 0xc8c347a7, 0x714260ad, 0x43ada245, 0x24e00850, 0xf92939eb, 0x923f82a4, 0x923f82a4, 0x00000000, 0xe5030380, 0x9b27a401);
    NextRound(7, 0xe5030380, 0x2b4209f5, 0x04409a6a, 0xd550f666, 0x9b27a401, 0x714260ad, 0x43ada245, 0x24e00850, 0xab1c5ed5, 0xab1c5ed5, 0x00000000, 0x85a07b5f, 0x0c657a79);
  }

  lemma Rounds8()
    ensures At(16) == Vars(0xb0fa238e, 0xc0645fde, 0xd932eb16, 0x87912990, 0x07590dcd, 0x0b92f20c, 0x745a48de, 0x1e578218)
  {
    hide Sched, At, K, ToBits;
    Ks8();
    Bits8();
    Rounds0();
    FirstWords();
    NextRound(8, 0x85a07b5f, 0xe5030380, 0x2b4209f5, 0x04409a6a, 0x0c657a79, 0x9b27a401, 0x714260ad, 0x43ada245, 0xd807aa98, 0xd807aa98, 0x00000000, 0x8e04ecb9, 0x32ca2d8c);
    NextRound(9, 0x8e04ecb9, 0x85a07b5f, 0xe5030380, 0x2b4209f5, 0x32ca2d8c, 0x0c657a79, 0x9b27a401, 0x714260ad, 0x12835b01, 0x12835b01, 0x00000000, 0x8c87346b, 0x1cc92596);
    NextRound(10, 0x8c87346b, 0x8e04ecb9, 0x85a07b5f, 0xe5030380, 0x1cc92596, 0x32ca2d8c, 0x0c657a79, 0x9b27a401, 0x243185be, 0x243185be, 0x00000000, 0x4798a3f4, 0x436b23e8);
    NextRound(11, 0x4798a3f4, 0x8c87346b, 0x8e04ecb9, 0x85a07b5f, 0x436b23e8, 0x1cc92596, 0x32ca2d8c, 0x0c657a79, 0x550c7dc3, 0x550c7dc3, 0x00000000, 0xf71fc5a9, 0x816fd6e9);
    NextRound(12, 0xf71fc5a9, 0x4798a3f4, 0x8c87346b, 0x8e04ecb9, 0x816fd6e9, 0x436b23e8, 0x1cc92596, 0x32ca2d8c, 0x72be5d74, 0x72be5d74, 0x00000000, 0x87912990, 0x1e578218);
    NextRound(13, 0x87912990, 0xf71fc5a9, 0x4798a3f4, 0x8c87346b, 0x1e578218, 0x816fd6e9, 0x436b23e8, 0x1cc92596, 0x80deb1fe, 0x80deb1fe, 0x00000000, 0xd932eb16, 0x745a48de);
    NextRound(14, 0xd932eb16, 0x87912990, 0xf71fc5a9, 0x4798a3f4, 0x745a48de, 0x1e578218, 0x816fd6e9, 0x436b23e8, 0x9bdc06a7, 0x9bdc06a7, 0x00000000, 0xc0645fde, 0x0b92f20c);
    NextRound(15, 0xc0645fde, 0xd932eb16, 0x87912990, 0xf71fc5a9, 0x0b92f20c, 0x745a48de, 0x1e578218, 0x816fd6e9, 0xc19bf174, 0xc19bf174, 0x00000018, 0xb0fa238e, 0x07590dcd);
  }

  lemma Rounds16()
    ensures At(24) == Vars(0xc5d53d8d, 0xa7a3623f, 0xc2606d6d, 0x9dc68b63, 0xaa47c347, 0x49f5114a, 0xe1257970, 0x8ada8930)
  {
    hide Sched, At, K, ToBits;
    Ks16();
    Bits16();
    Rounds8();
    Words16();
    NextRound(16, 0xb0fa238e, 0xc0645fde, 0xd932eb16, 0x87912990, 0x07590dcd, 0x0b92f20c, 0x745a48de, 0x1e578218, 0xe49b69c1, 0xe49b69c1, 0x61626380, 0x21da9a9b, 0x8034229c);
    NextRound(17, 0x21da9a9b, 0xb0fa238e, 0xc0645fde, 0xd932eb16, 0x8034229c, 0x07590dcd, 0x0b92f20c, 0x745a48de, 0xefbe4786, 0xefbe4786, 0x000f0000, 0xc2fbd9d1, 0x846ee454);
    NextRound(18, 0xc2fbd9d1, 0x21da9a9b, 0xb0fa238e, 0xc0645fde, 0x846ee454, 0x8034229c, 0x07590dcd, 0x0b92f20c, 0x0fc19dc6, 0x0fc19dc6, 0x7da86405, 0xfe777bbf, 0xcc899961);
    NextRound(19, 0xfe777bbf, 0xc2fbd9d1, 0x21da9a9b, 0xb0fa238e, 0xcc899961, 0x846ee454, 0x8034229c, 0x07590dcd, 0x240ca1cc, 0x240ca1cc, 0x600003c6, 0xe1f20c33, 0xb0638179);
    NextRound(20, 0xe1f20c33, 0xfe777bbf, 0xc2fbd9d1, 0x21da9a9b, 0xb0638179, 0xcc899961, 0x846ee454, 0x8034229c, 0x2de92c6f, 0x2de92c6f, 0x3e9d7b78, 0x9dc68b63, 0x8ada8930);
    NextRound(21, 0x9dc68b63, 0xe1f20c33, 0xfe777bbf, 0xc2fbd9d1, 0x8ada8930, 0xb0638179, 0xcc899961, 0x846ee454, 0x4a7484aa, 0x4a7484aa, 0x0183fc00, 0xc2606d6d, 0xe1257970);
    NextRound(22, 0xc2606d6d, 0x9dc68b63, 0xe1f20c33, 0xfe777bbf, 0xe1257970, 0x8ada8930, 0xb0638179, 0xcc899961, 0x5cb0a9dc, 0x5cb0a9dc, 0x12dcbfdb, 0xa7a3623f, 0x49f5114a);
    NextRound(23, 0xa7a3623f, 0xc2606d6d, 0x9dc68b63, 0xe1f20c33, 0x49f5114a, 0xe1257970, 0x8ada8930, 0xb0638179, 0x76f988da, 0x76f988da, 0xe2e2c38e, 0xc5d53d8d, 0xaa47c347);
  }

  lemma Rounds24()
    ensures At(32) == Vars(0x73b33bf5, 0xea992a22, 0xa0060b30, 0x363482c9, 0xba591112, 0x0109ab3a, 0xade79437, 0x6112a3b7)
  {
    hide Sched, At, K, ToBits;
    Ks24();
    Bits24();
    Rounds16();
    Words24();
    NextRound(24, 0xc5d53d8d, 0xa7a3623f, 0xc2606d6d, 0x9dc68b63, 0xaa47c347, 0x49f5114a, 0xe1257970, 0x8ada8930, 0x983e5152, 0x983e5152, 0xc8215c1a, 0x1c2c2838, 0x2823ef91);
    NextRound(25, 0x1c2c2838, 0xc5d53d8d, 0xa7a3623f, 0xc2606d6d, 0x2823ef91, 0xaa47c347, 0x49f5114a, 0xe1257970, 0xa831c66d, 0xa831c66d, 0xb73679a2, 0xcde8037d, 0x14383d8e);
    NextRound(26, 0xcde8037d, 0x1c2c2838, 0xc5d53d8d, 0xa7a3623f, 0x14383d8e, 0x2823ef91, 0xaa47c347, 0x49f5114a, 0xb00327c8, 0xb00327c8, 0xe5bc3909, 0xb62ec4bc, 0xc74c6516);
    NextRound(27, 0xb62ec4bc, 0xcde8037d, 0x1c2c2838, 0xc5d53d8d, 0xc74c6516, 0x14383d8e, 0x2823ef91, 0xaa47c347, 0xbf597fc7, 0xbf597fc7, 0x32663c5b, 0x77d37528, 0xedffbff8);
    NextRound(28, 0x77d37528, 0xb62ec4bc, 0xcde8037d, 0x1c2c2838, 0xedffbff8, 0xc74c6516, 0x14383d8e, 0x2823ef91, 0xc6e00bf3, 0xc6e00bf3, 0x9d209d67, 0x363482c9, 0x6112a3b7);
    NextRound(29, 0x363482c9, 0x77d37528, 0xb62ec4bc, 0xcde8037d, 0x6112a3b7, 0xedffbff8, 0xc74c6516, 0x14383d8e, 0xd5a79147, 0xd5a79147, 0xec8726cb, 0xa0060b30, 0xade79437);
    NextRound(30, 0xa0060b30, 0x363482c9, 0x77d37528, 0xb62ec4bc, 0xade79437, 0x6112a3b7, 0xedffbff8, 0xc74c6516, 0x06ca6351, 0x06ca6351, 0x702138a4, 0xea992a22, 0x0109ab3a);
    NextRound(31, 0xea992a22, 0xa0060b30, 0x363482c9, 0x77d37528, 0x0109ab3a, 0xade79437, 0x6112a3b7, 0xedffbff8, 0x14292967, 0x14292967, 0xd3b7973b, 0x73b33bf5, 0xba591112);
  }

  lemma Rounds32()
    ensures At(40) == Vars(0x79ea687a, 0x6dc57a8a, 0x34df1604, 0x41a65cb1, 0x1efbc0a0, 0xf0781bc8, 0xa507a53d, 0x0772a26b)
  {
    hide Sched, At, K, ToBits;
    Ks32();
    Bits32();
    Rounds24();
    Words32();
    NextRound(32, 0x73b33bf5, 0xea992a22, 0xa0060b30, 0x363482c9, 0xba591112, 0x0109ab3a, 0xade79437, 0x6112a3b7, 0x27b70a85, 0x27b70a85, 0x93f5997f, 0x98e12507, 0x9cd9f5f6);
    NextRound(33, 0x98e12507, 0x73b33bf5, 0xea992a22, 0xa0060b30, 0x9cd9f5f6, 0xba591112, 0x0109ab3a, 0xade79437, 0x2e1b2138, 0x2e1b2138, 0x3b68ba73, 0xfe604df5, 0x59249dd3);
    NextRound(34, 0xfe604df5, 0x98e12507, 0x73b33bf5, 0xea992a22, 0x59249dd3, 0x9cd9f5f6, 0xba591112, 0x0109ab3a, 0x4d2c6dfc, 0x4d2c6dfc, 0xaff4ffc1, 0xa9a7738c, 0x085f3833);
    NextRound(35, 0xa9a7738c, 0xfe604df5, 0x98e12507, 0x73b33bf5, 0x085f3833, 0x59249dd3, 0x9cd9f5f6, 0xba591112, 0x53380d13, 0x53380d13, 0xf10a5c62, 0x65a0cfe4, 0xf4b002d6);
    NextRound(36, 0x65a0cfe4, 0xa9a7738c, 0xfe604df5, 0x98e12507, 0xf4b002d6, 0x085f3833, 0x59249dd3, 0x9cd9f5f6, 0x650a7354, 0x650a7354, 0x0a8b3996, 0x41a65cb1, 0x0772a26b);
    NextRound(37, 0x41a65cb1, 0x65a0cfe4, 0xa9a7738c, 0xfe604df5, 0x0772a26b, 0xf4b002d6, 0x085f3833, 0x59249dd3, 0x766a0abb, 0x766a0abb, 0x72af830a, 0x34df1604, 0xa507a53d);
    NextRound(38, 0x34df1604, 0x41a65cb1, 0x65a0cfe4, 0xa9a7738c, 0xa507a53d, 0x0772a26b, 0xf4b002d6, 0x085f3833, 0x81c2c92e, 0x81c2c92e, 0x9409e33e, 0x6dc57a8a, 0xf0781bc8);
    NextRound(39, 0x6dc57a8a, 0x34df1604, 0x41a65cb1, 0x65a0cfe4, 0xf0781bc8, 0xa507a53d, 0x0772a26b, 0xf4b002d6, 0x92722c85, 0x92722c85, 0x24641522, 0x79ea687a, 0x1efbc0a0);
  }

  lemma Rounds40()
    ensures At(48) == Vars(0x4172328d, 0xa14c14b0, 0x72ab4b91, 0x26628815, 0xfecf0bc6, 0xd57b94a9, 0xb7755da1, 0xa80f11f0)
  {
    hide Sched, At, K, ToBits;
    Ks40();
    Bits40();
    Rounds32();
    Words40();
    NextRound(40, 0x79ea687a, 0x6dc57a8a, 0x34df1604, 0x41a65cb1, 0x1efbc0a0, 0xf0781bc8, 0xa507a53d, 0x0772a26b, 0xa2bfe8a1, 0xa2bfe8a1, 0x9f47bf94, 0xd6670766, 0x26352d63);
    NextRound(41, 0xd6670766, 0x79ea687a, 0x6dc57a8a, 0x34df1604, 0x26352d63, 0x1efbc0a0, 0xf0781bc8, 0xa507a53d, 0xa81a664b, 0xa81a664b, 0xf0a64f5a, 0xdf46652f, 0x838b2711);
    NextRound(42, 0xdf46652f, 0xd6670766, 0x79ea687a, 0x6dc57a8a, 0x838b2711, 0x26352d63, 0x1efbc0a0, 0xf0781bc8, 0xc24b8b70, 0xc24b8b70, 0x3e246a79, 0x17aa0dfe, 0xdecd4715);
    NextRound(43, 0x17aa0dfe, 0xdf46652f, 0xd6670766, 0x79ea687a, 0xdecd4715, 0x838b2711, 0x26352d63, 0x1efbc0a0, 0xc76c51a3, 0xc76c51a3, 0x27333ba3, 0x9d4baf93, 0xfda24c2e);
    NextRound(44, 0x9d4baf93, 0x17aa0dfe, 0xdf46652f, 0xd6670766, 0xfda24c2e, 0xdecd4715, 0x838b2711, 0x26352d63, 0xd192e819, 0xd192e819, 0x0c4763f2, 0x26628815, 0xa80f11f0);
    NextRound(45, 0x26628815, 0x9d4baf93, 0x17aa0dfe, 0xdf46652f, 0xa80f11f0, 0xfda24c2e, 0xdecd4715, 0x838b2711, 0xd6990624, 0xd6990624, 0x840abf27, 0x72ab4b91, 0xb7755da1);
    NextRound(46, 0x72ab4b91, 0x26628815, 0x9d4baf93, 0x17aa0dfe, 0xb7755da1, 0xa80f11f0, 0xfda24c2e, 0xdecd4715, 0xf40e3585, 0xf40e3585, 0x7a290d5d, 0xa14c14b0, 0xd57b94a9);
    NextRound(47, 0xa14c14b0, 0x72ab4b91, 0x26628815, 0x9d4baf93, 0xd57b94a9, 0xb7755da1, 0xa80f11f0, 0xfda24c2e, 0x106aa070, 0x106aa070, 0x065c43da, 0x4172328d, 0xfecf0bc6);
  }

  lemma Rounds48()
    ensures At(56) == Vars(0x38cc9913, 0x3ec45cdb, 0xf5702fdb, 0x101fd28f, 0x54cb266b, 0xe50e1b4f, 0x9f4787c3, 0x529e7d00)
  {
    hide Sched, At, K, ToBits;
    Ks48();
    Bits48();
    Rounds40();
    Words48();
    NextRound(48, 0x4172328d, 0xa14c14b0, 0x72ab4b91, 0x26628815, 0xfecf0bc6, 0xd57b94a9, 0xb7755da1, 0xa80f11f0, 0x19a4c116, 0x19a4c116, 0xfb3e89cb, 0x05757ceb, 0xbd714038);
    NextRound(49, 0x05757ceb, 0x4172328d, 0xa14c14b0, 0x72ab4b91, 0xbd714038, 0xfecf0bc6, 0xd57b94a9, 0xb7755da1, 0x1e376c08, 0x1e376c08, 0xcc7617db, 0xf11bfaa8, 0x6e5c390c);
    NextRound(50, 0xf11bfaa8, 0x05757ceb, 0x4172328d, 0xa14c14b0, 0x6e5c390c, 0xbd714038, 0xfecf0bc6, 0xd57b94a9, 0x2748774c, 0x2748774c, 0xb9e66c34, 0x7a0508a1, 0x52f1ccf7);
    NextRound(51, 0x7a0508a1, 0xf11bfaa8, 0x05757ceb, 0x4172328d, 0x52f1ccf7, 0x6e5c390c, 0xbd714038, 0xfecf0bc6, 0x34b0bcb5, 0x34b0bcb5, 0xa9993667, 0x886e7a22, 0x49231c1e);
    NextRound(52, 0x886e7a22, 0x7a0508a1, 0xf11bfaa8, 0x05757ceb, 0x49231c1e, 0x52f1ccf7, 0x6e5c390c, 0xbd714038, 0x391c0cb3, 0x391c0cb3, 0x84badedd, 0x101fd28f, 0x529e7d00);
    NextRound(53, 0x101fd28f, 0x886e7a22, 0x7a0508a1, 0xf11bfaa8, 0x529e7d00, 0x49231c1e, 0x52f1ccf7, 0x6e5c390c, 0x4ed8aa4a, 0x4ed8aa4a, 0xc21462bc, 0xf5702fdb, 0x9f4787c3);
    NextRound(54, 0xf5702fdb, 0x101fd28f, 0x886e7a22, 0x7a0508a1, 0x9f4787c3, 0x529e7d00, 0x49231c1e, 0x52f1ccf7, 0x5b9cca4f, 0x5b9cca4f, 0x1487472c, 0x3ec45cdb, 0xe50e1b4f);
    NextRound(55, 0x3ec45cdb, 0xf5702fdb, 0x101fd28f, 0x886e7a22, 0xe50e1b4f, 0x9f4787c3, 0x529e7d00, 0x49231c1e, 0x682e6ff3, 0x682e6ff3, 0xb20f7a99, 0x38cc9913, 0x54cb266b);
  }

  lemma Rounds56()
    ensures At(64) == Vars(0x506e3058, 0xd39a2165, 0x04d24d6c, 0xb85e2ce9, 0x5ef50f24, 0xfb121210, 0x948d25b6, 0x961f4894)
  {
    hide Sched, At, K, ToBits;
    Ks56();
    Bits56();
    Rounds48();
    Words56();
    NextRound(56, 0x38cc9913, 0x3ec45cdb, 0xf5702fdb, 0x101fd28f, 0x54cb266b, 0xe50e1b4f, 0x9f4787c3, 0x529e7d00, 0x748f82ee, 0x748f82ee, 0xef57b9cd, 0xfcd1887b, 0x9b5e906c);
    NextRound(57, 0xfcd1887b, 0x38cc9913, 0x3ec45cdb, 0xf5702fdb, 0x9b5e906c, 0x54cb266b, 0xe50e1b4f, 0x9f4787c3, 0x78a5636f, 0x78a5636f, 0xebe6b238, 0xc062d46f, 0x7e44008e);
    NextRound(58, 0xc062d46f, 0xfcd1887b, 0x38cc9913, 0x3ec45cdb, 0x7e44008e, 0x9b5e906c, 0x54cb266b, 0xe50e1b4f, 0x84c87814, 0x84c87814, 0x9fe3095e, 0xffb70472, 0x6d83bfc6);
    NextRound(59, 0xffb70472, 0xc062d46f, 0xfcd1887b, 0x38cc9913, 0x6d83bfc6, 0x7e44008e, 0x9b5e906c, 0x54cb266b, 0x8cc70208, 0x8cc70208, 0x78bc8d4b, 0xb6ae8fff, 0xb21bad3d);
    NextRound(60, 0xb6ae8fff, 0xffb70472, 0xc062d46f, 0xfcd1887b, 0xb21bad3d, 0x6d83bfc6, 0x7e44008e, 0x9b5e906c, 0x90befffa, 0x90befffa, 0xa43fcf15, 0xb85e2ce9, 0x961f4894);
    NextRound(61, 0xb85e2ce9, 0xb6ae8fff, 0xffb70472, 0xc062d46f, 0x961f4894, 0xb21bad3d, 0x6d83bfc6, 0x7e44008e, 0xa4506ceb, 0xa4506ceb, 0x668b2ff8, 0x04d24d6c, 0x948d25b6);
    NextRound(62, 0x04d24d6c, 0xb85e2ce9, 0xb6ae8fff, 0xffb70472, 0x948d25b6, 0x961f4894, 0xb21bad3d, 0x6d83bfc6, 0xbef9a3f7, 0xbef9a3f7, 0xeeaba2cc, 0xd39a2165, 0xfb121210);
    NextRound(63, 0xd39a2165, 0x04d24d6c, 0xb85e2ce9, 0xb6ae8fff, 0xfb121210, 0x948d25b6, 0x961f4894, 0xb21bad3d, 0xc67178f2, 0xc67178f2, 0x12b1edeb, 0x506e3058, 0x5ef50f24);
  }

  lemma Start()
    ensures At(0) == Vars(0x6a09e667, 0xbb67ae85, 0x3c6ef372, 0xa54ff53a, 0x510e527f, 0x9b05688c, 0x1f83d9ab, 0x5be0cd19)
  {
    hide AbcBlock, Words, ToBits, IV;
    IvIs();
    IvBits();
  }

  lemma IvIs()
    ensures IV == [0x6a09e667, 0xbb67ae85, 0x3c6ef372, 0xa54ff53a, 0x510e527f, 0x9b05688c, 0x1f83d9ab, 0x5be0cd19]
  {
  }

  lemma IvBits()
    ensures ToBits(0x6a09e667) == 0x6a09e667 && ToBits(0xbb67ae85) == 0xbb67ae85 && ToBits(0x3c6ef372) == 0x3c6ef372 && ToBits(0xa54ff53a) == 0xa54ff53a
    ensures ToBits(0x510e527f) == 0x510e527f && ToBits(0x9b05688c) == 0x9b05688c && ToBits(0x1f83d9ab) == 0x1f83d9ab && ToBits(0x5be0cd19) == 0x5be0cd19
  {
  }

  lemma Sums()
    ensures AddTo(0x6a09e667, 0x506e3058) == 0xba7816bf && AddTo(0xbb67ae85, 0xd39a2165) == 0x8f01cfea && AddTo(0x3c6ef372, 0x04d24d6c) == 0x414140de && AddTo(0xa54ff53a, 0xb85e2ce9) == 0x5dae2223
    ensures AddTo(0x510e527f, 0x5ef50f24) == 0xb00361a3 && AddTo(0x9b05688c, 0xfb121210) == 0x96177a9c && AddTo(0x1f83d9ab, 0x948d25b6) == 0xb410ff61 && AddTo(0x5be0cd19, 0x961f4894) == 0xf20015ad
  {
  }

  lemma OutBytes()
    ensures Be32(0xba7816bf) == [0xba, 0x78, 0x16, 0xbf] && Be32(0x8f01cfea) == [0x8f, 0x01, 0xcf, 0xea] && Be32(0x414140de) == [0x41, 0x41, 0x40, 0xde] && Be32(0x5dae2223) == [0x5d, 0xae, 0x22, 0x23]
    ensures Be32(0xb00361a3) == [0xb0, 0x03, 0x61, 0xa3] && Be32(0x96177a9c) == [0x96, 0x17, 0x7a, 0x9c] && Be32(0xb410ff61) == [0xb4, 0x10, 0xff, 0x61] && Be32(0xf20015ad) == [0xf2, 0x00, 0x15, 0xad]
  {
  }

  lemma AbcPadded()
    ensures Pad(ABC) == AbcBlock()
  {
    LengthFieldHalves(3);
    assert Be32(0) == [0, 0, 0, 0] && Be32(24) == [0, 0, 0, 24];
    assert Pad(ABC) == ABC + [0x80] + Zeros(52) + (Be32(0) + Be32(24));
  }

  lemma OneBlock(f: Compressor, msg: seq<Byte>, b: Block)
    requires |msg| < TWO32 && Pad(msg) == b
    ensures Hash(f, msg) == StateBytes(f(IV, b))
  {
    hide Pad, StateBytes;
    assert b[0..64] == b;
    assert HashBlocks(f, b, 0) == IV;
  }

  lemma AbcState()
    ensures Compress(IV, AbcBlock()) == [0xba7816bf, 0x8f01cfea, 0x414140de, 0x5dae2223, 0xb00361a3, 0x96177a9c, 0xb410ff61, 0xf20015ad]
  {
    hide AddTo, At, IV, AbcBlock, Words;
    Rounds56();
    Sums();
    IvIs();
    CompressIs();
  }

  lemma CompressIs()
    ensures Compress(IV, AbcBlock()) == Plus(IV, At(64))
  {
    hide Plus, AbcBlock, Words, Rounds;
  }

  /** The digest the standard gives for its first example, "abc". */
  lemma AbcDigest()
    ensures Sha(ABC) == [
      0xba, 0x78, 0x16, 0xbf, 0x8f, 0x01, 0xcf, 0xea, 0x41, 0x41, 0x40, 0xde, 0x5d, 0xae, 0x22, 0x23,
      0xb0, 0x03, 0x61, 0xa3, 0x96, 0x17, 0x7a, 0x9c, 0xb4, 0x10, 0xff, 0x61, 0xf2, 0x00, 0x15, 0xad]
  {
    hide Compress, Hash, Pad, Be32, IV, AbcBlock, WordsToBytes;
    AbcPadded();
    OneBlock(Compress, ABC, AbcBlock());
    AbcState();
    EightWords(Compress(IV, AbcBlock()));
    OutBytes();
  }
}
