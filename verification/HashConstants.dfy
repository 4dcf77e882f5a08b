/** Where the constants of SHA-1, SHA-224 and SHA-256 come from. */

/** The first 64 prime numbers, which are below 18 * 18. */
module SmallPrimes {
  import opened Counting

  predicate Divides(d: nat, n: nat) {
    d > 0 && n % d == 0
  }

  ghost predicate Prime(n: nat) {
    n >= 2 && forall d: nat :: 2 <= d < n ==> !Divides(d, n)
  }

  ghost function PrimesBelow(n: nat): set<nat> {
    set q | 2 <= q < n && Prime(q)
  }

  /** The prime `p` has `t` primes before it. */
  ghost predicate Numbered(t: nat, p: nat) {
    Prime(p) && |PrimesBelow(p)| == t
  }

  /** So a number belongs to one prime. */
  lemma NumberedOnce(t: nat, p: nat, q: nat)
    requires Numbered(t, p) && Numbered(t, q)
    ensures p == q
  {
    var low, high := if p < q then p else q, if p < q then q else p;
    if low < high {
      assert low in PrimesBelow(high) && low !in PrimesBelow(low) && PrimesBelow(low) <= PrimesBelow(high);
      SubsetOfSameSize(PrimesBelow(low), PrimesBelow(high));
    }
  }

  // Sieving

  /** No prime below 18 divides `n`, unless it is that prime. */
  predicate Sieved(n: nat) {
    && (n % 2 != 0 || n == 2) && (n % 3 != 0 || n == 3) && (n % 5 != 0 || n == 5) && (n % 7 != 0 || n == 7)
    && (n % 11 != 0 || n == 11) && (n % 13 != 0 || n == 13) && (n % 17 != 0 || n == 17)
  }

  lemma DividesProduct(n: nat, d: nat, e: nat, p: nat)
    requires n == d * e && p > 0 && d % p == 0
    ensures n % p == 0
  {
    var q := d / p;
    assert n == p * (q * e) by {
      assert d * e == (p * q) * e;
    }
    DivModOf(n, p, q * e, 0);
  }

  function SmallFactor(d: nat): (p: nat)
    requires 2 <= d < 18
    ensures p in {2, 3, 5, 7, 11, 13, 17} && d % p == 0
  {
    if d % 2 == 0 then 2 else if d % 3 == 0 then 3 else if d % 5 == 0 then 5 else if d % 7 == 0 then 7 else d
  }

  lemma SmallDivisorSieves(n: nat, d: nat, e: nat)
    requires 18 <= n && n == d * e && 2 <= d < 18
    ensures !Sieved(n)
  {
    DividesProduct(n, d, e, SmallFactor(d));
  }

  lemma SievedIsPrime(n: nat)
    requires 2 <= n < 324
    ensures Sieved(n) <==> Prime(n)
  {
    if n < 18 {
      SmallSieved(n);
    } else if !Prime(n) {
      NotPrimeSieves(n);
    } else if !Sieved(n) {
      var p := if n % 2 == 0 then 2 else if n % 3 == 0 then 3 else if n % 5 == 0 then 5 else if n % 7 == 0 then 7
               else if n % 11 == 0 then 11 else if n % 13 == 0 then 13 else 17;
      assert Divides(p, n);
    }
  }

  lemma SmallQuotient(n: nat, d: nat, e: nat)
    requires n == d * e && 18 <= d < n < 324
    ensures 2 <= e < 18
  {
    if e >= 18 {
      MulGap(d, 17, e);
    }
  }

  lemma NotPrimeSieves(n: nat)
    requires 18 <= n < 324 && !Prime(n)
    ensures !Sieved(n)
  {
    var d: nat :| 2 <= d < n && Divides(d, n);
    var e := n / d;
    if d < 18 {
      SmallDivisorSieves(n, d, e);
    } else {
      SmallQuotient(n, d, e);
      SmallDivisorSieves(n, e, d);
    }
  }

  lemma SmallSieved(n: nat)
    requires 2 <= n < 18
    ensures Sieved(n) <==> Prime(n)
  {
    if !Sieved(n) {
      var p := if n % 2 == 0 && n != 2 then 2 else if n % 3 == 0 && n != 3 then 3 else 5;
      assert Divides(p, n);
    } else {
      forall d: nat | 2 <= d < n ensures !Divides(d, n) {
        SmallDivisors(n, d);
      }
    }
  }

  lemma SmallDivisors(n: nat, d: nat)
    requires 2 <= d < n < 18 && Sieved(n)
    ensures !Divides(d, n)
  {
    if Divides(d, n) {
      DividesProduct(n, d, n / d, SmallFactor(d));
    }
  }

  predicate NoneBetween(p: nat, q: nat) {
    q <= p + 1 || (!Sieved(q - 1) && NoneBetween(p, q - 1))
  }

  lemma {:induction false} NotBetween(p: nat, q: nat, n: nat)
    requires NoneBetween(p, q) && p < n < q
    ensures !Sieved(n)
    decreases q
  {
    if n < q - 1 {
      NotBetween(p, q - 1, n);
    }
  }

  lemma FirstPrime()
    ensures Numbered(0, 2)
  {
    assert PrimesBelow(2) == {};
  }

  /** From one prime to the next. */
  lemma Following(t: nat, p: nat, q: nat)
    requires Numbered(t, p) && p < q < 324 && Sieved(q) && NoneBetween(p, q)
    ensures Numbered(t + 1, q)
  {
    SievedIsPrime(q);
    forall n | n in PrimesBelow(q) ensures n in PrimesBelow(p) + {p} {
      if n > p {
        SievedIsPrime(n);
        NotBetween(p, q, n);
      }
    }
    assert PrimesBelow(q) == PrimesBelow(p) + {p};
  }

  lemma Primes0()
    requires Numbered(0, 2)
    ensures Numbered(1, 3) && Numbered(2, 5) && Numbered(3, 7) && Numbered(4, 11)
    ensures Numbered(5, 13) && Numbered(6, 17) && Numbered(7, 19) && Numbered(8, 23)
  {
    Following(0, 2, 3);
    Following(1, 3, 5);
    Following(2, 5, 7);
    Following(3, 7, 11);
    Following(4, 11, 13);
    Following(5, 13, 17);
    Following(6, 17, 19);
    Following(7, 19, 23);
  }

  lemma Primes8()
    requires Numbered(8, 23)
    ensures Numbered(9, 29) && Numbered(10, 31) && Numbered(11, 37) && Numbered(12, 41)
    ensures Numbered(13, 43) && Numbered(14, 47) && Numbered(15, 53) && Numbered(16, 59)
  {
    Following(8, 23, 29);
    Following(9, 29, 31);
    Following(10, 31, 37);
    Following(11, 37, 41);
    Following(12, 41, 43);
    Following(13, 43, 47);
    Following(14, 47, 53);
    Following(15, 53, 59);
  }

  lemma Primes16()
    requires Numbered(16, 59)
    ensures Numbered(17, 61) && Numbered(18, 67) && Numbered(19, 71) && Numbered(20, 73)
    ensures Numbered(21, 79) && Numbered(22, 83) && Numbered(23, 89) && Numbered(24, 97)
  {
    Following(16, 59, 61);
    Following(17, 61, 67);
    Following(18, 67, 71);
    Following(19, 71, 73);
    Following(20, 73, 79);
    Following(21, 79, 83);
    Following(22, 83, 89);
    Following(23, 89, 97);
  }

  lemma Primes24()
    requires Numbered(24, 97)
    ensures Numbered(25, 101) && Numbered(26, 103) && Numbered(27, 107) && Numbered(28, 109)
    ensures Numbered(29, 113) && Numbered(30, 127) && Numbered(31, 131) && Numbered(32, 137)
  {
    Following(24, 97, 101);
    Following(25, 101, 103);
    Following(26, 103, 107);
    Following(27, 107, 109);
    Following(28, 109, 113);
    Following(29, 113, 127);
    Following(30, 127, 131);
    Following(31, 131, 137);
  }

  lemma Primes32()
    requires Numbered(32, 137)
    ensures Numbered(33, 139) && Numbered(34, 149) && Numbered(35, 151) && Numbered(36, 157)
    ensures Numbered(37, 163) && Numbered(38, 167) && Numbered(39, 173) && Numbered(40, 179)
  {
    Following(32, 137, 139);
    Following(33, 139, 149);
    Following(34, 149, 151);
    Following(35, 151, 157);
    Following(36, 157, 163);
    Following(37, 163, 167);
    Following(38, 167, 173);
    Following(39, 173, 179);
  }

  lemma Primes40()
    requires Numbered(40, 179)
    ensures Numbered(41, 181) && Numbered(42, 191) && Numbered(43, 193) && Numbered(44, 197)
    ensures Numbered(45, 199) && Numbered(46, 211) && Numbered(47, 223) && Numbered(48, 227)
  {
    Following(40, 179, 181);
    Following(41, 181, 191);
    Following(42, 191, 193);
    Following(43, 193, 197);
    Following(44, 197, 199);
    Following(45, 199, 211);
    Following(46, 211, 223);
    Following(47, 223, 227);
  }

  lemma Primes48()
    requires Numbered(48, 227)
    ensures Numbered(49, 229) && Numbered(50, 233) && Numbered(51, 239) && Numbered(52, 241)
    ensures Numbered(53, 251) && Numbered(54, 257) && Numbered(55, 263) && Numbered(56, 269)
  {
    Following(48, 227, 229);
    Following(49, 229, 233);
    Following(50, 233, 239);
    Following(51, 239, 241);
    Following(52, 241, 251);
    Following(53, 251, 257);
    Following(54, 257, 263);
    Following(55, 263, 269);
  }

  lemma Primes56()
    requires Numbered(56, 269)
    ensures Numbered(57, 271) && Numbered(58, 277) && Numbered(59, 281) && Numbered(60, 283)
    ensures Numbered(61, 293) && Numbered(62, 307) && Numbered(63, 311) && Numbered(64, 313)
  {
    Following(56, 269, 271);
    Following(57, 271, 277);
    Following(58, 277, 281);
    Following(59, 281, 283);
    Following(60, 283, 293);
    Following(61, 293, 307);
    Following(62, 307, 311);
    Following(63, 311, 313);
  }
}

/** The constants of FIPS 180-4 are taken from roots of those primes. */
module HashConstants {
  import opened Counting
  import opened HashWords
  import opened Pieces
  import opened SmallPrimes
  import Sha1Spec
  import Sha2Spec

  const TWO60: nat := 0x1000_0000_0000_0000
  const TWO96: nat := 0x1_0000_0000_0000_0000_0000_0000
  const TWO128: nat := 0x1_0000_0000_0000_0000_0000_0000_0000_0000

  function Square(r: nat): nat { r * r }
  function Cube(r: nat): nat { r * r * r }

  // Section 4.2.2

  /** With `q` for the integer part, `k` is the first 32 bits of the fractional part of the cube root. */
  predicate CubeRootOf(p: nat, q: nat, k: Word) {
    Cube(q * TWO32 + k) <= p * TWO96 < Cube(q * TWO32 + k + 1)
  }

  ghost predicate ContinuesCubeRoot(t: nat, k: Word) {
    exists p, q :: Numbered(t, p) && CubeRootOf(p, q, k)
  }

  lemma Entry(t: nat, p: nat, q: nat, k: Word)
    requires Numbered(t, p) && CubeRootOf(p, q, k) && Sha2Spec.K(t) == k
    ensures ContinuesCubeRoot(t, Sha2Spec.K(t))
  {
  }

  /** The entries from `a` to `b`. */
  ghost predicate Entries(a: nat, b: nat) {
    forall t :: a <= t < b ==> ContinuesCubeRoot(t, Sha2Spec.K(t))
  }

  lemma Entries0()
    requires Numbered(0, 2) && Numbered(1, 3) && Numbered(2, 5) && Numbered(3, 7)
    ensures Entries(0, 4)
  {
    Entry(0, 2, 1, 0x428A2F98);
    Entry(1, 3, 1, 0x71374491);
    Entry(2, 5, 1, 0xB5C0FBCF);
    Entry(3, 7, 1, 0xE9B5DBA5);
  }

  lemma Entries4()
    requires Numbered(4, 11) && Numbered(5, 13) && Numbered(6, 17) && Numbered(7, 19)
    ensures Entries(4, 8)
  {
    Entry(4, 11, 2, 0x3956C25B);
    Entry(5, 13, 2, 0x59F111F1);
    Entry(6, 17, 2, 0x923F82A4);
    Entry(7, 19, 2, 0xAB1C5ED5);
  }

  lemma Entries8()
    requires Numbered(8, 23) && Numbered(9, 29) && Numbered(10, 31) && Numbered(11, 37)
    ensures Entries(8, 12)
  {
    Entry(8, 23, 2, 0xD807AA98);
    Entry(9, 29, 3, 0x12835B01);
    Entry(10, 31, 3, 0x243185BE);
    Entry(11, 37, 3, 0x550C7DC3);
  }

  lemma Entries12()
    requires Numbered(12, 41) && Numbered(13, 43) && Numbered(14, 47) && Numbered(15, 53)
    ensures Entries(12, 16)
  {
    Entry(12, 41, 3, 0x72BE5D74);
    Entry(13, 43, 3, 0x80DEB1FE);
    Entry(14, 47, 3, 0x9BDC06A7);
    Entry(15, 53, 3, 0xC19BF174);
  }

  lemma Entries16()
    requires Numbered(16, 59) && Numbered(17, 61) && Numbered(18, 67) && Numbered(19, 71)
    ensures Entries(16, 20)
  {
    Entry(16, 59, 3, 0xE49B69C1);
    Entry(17, 61, 3, 0xEFBE4786);
    Entry(18, 67, 4, 0x0FC19DC6);
    Entry(19, 71, 4, 0x240CA1CC);
  }

  lemma Entries20()
    requires Numbered(20, 73) && Numbered(21, 79) && Numbered(22, 83) && Numbered(23, 89)
    ensures Entries(20, 24)
  {
    Entry(20, 73, 4, 0x2DE92C6F);
    Entry(21, 79, 4, 0x4A7484AA);
    Entry(22, 83, 4, 0x5CB0A9DC);
    Entry(23, 89, 4, 0x76F988DA);
  }

  lemma Entries24()
    requires Numbered(24, 97) && Numbered(25, 101) && Numbered(26, 103) && Numbered(27, 107)
    ensures Entries(24, 28)
  {
    Entry(24, 97, 4, 0x983E5152);
    Entry(25, 101, 4, 0xA831C66D);
    Entry(26, 103, 4, 0xB00327C8);
    Entry(27, 107, 4, 0xBF597FC7);
  }

  lemma Entries28()
    requires Numbered(28, 109) && Numbered(29, 113) && Numbered(30, 127) && Numbered(31, 131)
    ensures Entries(28, 32)
  {
    Entry(28, 109, 4, 0xC6E00BF3);
    Entry(29, 113, 4, 0xD5A79147);
    Entry(30, 127, 5, 0x06CA6351);
    Entry(31, 131, 5, 0x14292967);
  }

  lemma Entries32()
    requires Numbered(32, 137) && Numbered(33, 139) && Numbered(34, 149) && Numbered(35, 151)
    ensures Entries(32, 36)
  {
    Entry(32, 137, 5, 0x27B70A85);
    Entry(33, 139, 5, 0x2E1B2138);
    Entry(34, 149, 5, 0x4D2C6DFC);
    Entry(35, 151, 5, 0x53380D13);
  }

  lemma Entries36()
    requires Numbered(36, 157) && Numbered(37, 163) && Numbered(38, 167) && Numbered(39, 173)
    ensures Entries(36, 40)
  {
    Entry(36, 157, 5, 0x650A7354);
    Entry(37, 163, 5, 0x766A0ABB);
    Entry(38, 167, 5, 0x81C2C92E);
    Entry(39, 173, 5, 0x92722C85);
  }

  lemma Entries40()
    requires Numbered(40, 179) && Numbered(41, 181) && Numbered(42, 191) && Numbered(43, 193)
    ensures Entries(40, 44)
  {
    Entry(40, 179, 5, 0xA2BFE8A1);
    Entry(41, 181, 5, 0xA81A664B);
    Entry(42, 191, 5, 0xC24B8B70);
    Entry(43, 193, 5, 0xC76C51A3);
  }

  lemma Entries44()
    requires Numbered(44, 197) && Numbered(45, 199) && Numbered(46, 211) && Numbered(47, 223)
    ensures Entries(44, 48)
  {
    Entry(44, 197, 5, 0xD192E819);
    Entry(45, 199, 5, 0xD6990624);
    Entry(46, 211, 5, 0xF40E3585);
    Entry(47, 223, 6, 0x106AA070);
  }

  lemma Entries48()
    requires Numbered(48, 227) && Numbered(49, 229) && Numbered(50, 233) && Numbered(51, 239)
    ensures Entries(48, 52)
  {
    Entry(48, 227, 6, 0x19A4C116);
    Entry(49, 229, 6, 0x1E376C08);
    Entry(50, 233, 6, 0x2748774C);
    Entry(51, 239, 6, 0x34B0BCB5);
  }

  lemma Entries52()
    requires Numbered(52, 241) && Numbered(53, 251) && Numbered(54, 257) && Numbered(55, 263)
    ensures Entries(52, 56)
  {
    Entry(52, 241, 6, 0x391C0CB3);
    Entry(53, 251, 6, 0x4ED8AA4A);
    Entry(54, 257, 6, 0x5B9CCA4F);
    Entry(55, 263, 6, 0x682E6FF3);
  }

  lemma Entries56()
    requires Numbered(56, 269) && Numbered(57, 271) && Numbered(58, 277) && Numbered(59, 281)
    ensures Entries(56, 60)
  {
    Entry(56, 269, 6, 0x748F82EE);
    Entry(57, 271, 6, 0x78A5636F);
    Entry(58, 277, 6, 0x84C87814);
    Entry(59, 281, 6, 0x8CC70208);
  }

  lemma Entries60()
    requires Numbered(60, 283) && Numbered(61, 293) && Numbered(62, 307) && Numbered(63, 311)
    ensures Entries(60, 64)
  {
    Entry(60, 283, 6, 0x90BEFFFA);
    Entry(61, 293, 6, 0xA4506CEB);
    Entry(62, 307, 6, 0xBEF9A3F7);
    Entry(63, 311, 6, 0xC67178F2);
  }

  lemma Row0()
    requires Numbered(0, 2)
    ensures Numbered(8, 23) && Entries(0, 8)
  {
    Primes0();
    Entries0();
    Entries4();
  }

  lemma Row8()
    requires Numbered(8, 23)
    ensures Numbered(16, 59) && Entries(8, 16)
  {
    Primes8();
    Entries8();
    Entries12();
  }

  lemma Row16()
    requires Numbered(16, 59)
    ensures Numbered(24, 97) && Entries(16, 24)
  {
    Primes16();
    Entries16();
    Entries20();
  }

  lemma Row24()
    requires Numbered(24, 97)
    ensures Numbered(32, 137) && Entries(24, 32)
  {
    Primes24();
    Entries24();
    Entries28();
  }

  lemma Row32()
    requires Numbered(32, 137)
    ensures Numbered(40, 179) && Entries(32, 40)
  {
    Primes32();
    Entries32();
    Entries36();
  }

  lemma Row40()
    requires Numbered(40, 179)
    ensures Numbered(48, 227) && Entries(40, 48)
  {
    Primes40();
    Entries40();
    Entries44();
  }

  lemma Row48()
    requires Numbered(48, 227)
    ensures Numbered(56, 269) && Entries(48, 56)
  {
    Primes48();
    Entries48();
    Entries52();
  }

  lemma Row56()
    requires Numbered(56, 269)
    ensures Numbered(64, 313) && Entries(56, 64)
  {
    Primes56();
    Entries56();
    Entries60();
  }

  /** `K[t]` is the first 32 bits of the fractional part of the cube root of prime number `t`. */
  lemma KIsCubeRoot(t: nat)
    requires t < 64
    ensures ContinuesCubeRoot(t, Sha2Spec.K(t))
  {
    FirstPrime();
    Row0();
    Row8();
    Row16();
    Row24();
    Row32();
    Row40();
    Row48();
    Row56();
  }

  // Sections 5.3.2 and 5.3.3

  predicate SquareRootOf(p: nat, q: nat, w: Word) {
    Square(q * TWO32 + w) <= p * TWO64 < Square(q * TWO32 + w + 1)
  }

  /** Here `q` is the integer part and the first 32 bits of the fractional part. */
  predicate LongSquareRootOf(p: nat, q: nat, w: Word) {
    Square(q * TWO32 + w) <= p * TWO128 < Square(q * TWO32 + w + 1)
  }

  ghost predicate ContinuesRoot(t: nat, w: Word) {
    exists p, q :: Numbered(t, p) && SquareRootOf(p, q, w)
  }

  ghost predicate ContinuesLongRoot(t: nat, w: Word) {
    exists p, q :: Numbered(t, p) && LongSquareRootOf(p, q, w)
  }

  /** For SHA-256, the first 32 bits of the fractional parts of the square roots of the first eight primes. */
  lemma IV256IsSquareRoots()
    ensures var iv := Sha2Spec.IV256;
      && ContinuesRoot(0, iv.a) && ContinuesRoot(1, iv.b) && ContinuesRoot(2, iv.c) && ContinuesRoot(3, iv.d)
      && ContinuesRoot(4, iv.e) && ContinuesRoot(5, iv.f) && ContinuesRoot(6, iv.g) && ContinuesRoot(7, iv.h)
  {
    FirstPrime();
    Primes0();
    assert SquareRootOf(2, 1, 0x6A09E667);
    assert SquareRootOf(3, 1, 0xBB67AE85);
    assert SquareRootOf(5, 2, 0x3C6EF372);
    assert SquareRootOf(7, 2, 0xA54FF53A);
    assert SquareRootOf(11, 3, 0x510E527F);
    assert SquareRootOf(13, 3, 0x9B05688C);
    assert SquareRootOf(17, 4, 0x1F83D9AB);
    assert SquareRootOf(19, 4, 0x5BE0CD19);
  }

  /** For SHA-224, the second 32 bits for the ninth to the sixteenth. */
  lemma IV224IsSquareRoots()
    ensures var iv := Sha2Spec.IV224;
      && ContinuesLongRoot(8, iv.a) && ContinuesLongRoot(9, iv.b) && ContinuesLongRoot(10, iv.c)
      && ContinuesLongRoot(11, iv.d) && ContinuesLongRoot(12, iv.e) && ContinuesLongRoot(13, iv.f)
      && ContinuesLongRoot(14, iv.g) && ContinuesLongRoot(15, iv.h)
  {
    FirstPrime();
    Primes0();
    Primes8();
    assert LongSquareRootOf(23, 0x4CBBB9D5D, 0xC1059ED8);
    assert LongSquareRootOf(29, 0x5629A292A, 0x367CD507);
    assert LongSquareRootOf(31, 0x59159015A, 0x3070DD17);
    assert LongSquareRootOf(37, 0x6152FECD8, 0xF70E5939);
    assert LongSquareRootOf(41, 0x667332667, 0xFFC00B31);
    assert LongSquareRootOf(43, 0x68EB44A87, 0x68581511);
    assert LongSquareRootOf(47, 0x6DB0C2E0D, 0x64F98FA7);
    assert LongSquareRootOf(53, 0x747B5481D, 0xBEFA4FA4);
  }

  // SHA-1

  /** Section 4.2.1: 2^30 times the square roots of 2, 3, 5 and 10. */
  lemma Sha1KIsSquareRoots(t: nat)
    requires t < 80
    ensures var k, n := Sha1Spec.K(t), if t < 20 then 2 else if t < 40 then 3 else if t < 60 then 5 else 10;
      Square(k) <= n * TWO60 < Square(k + 1)
  {
  }

  function LittleBytes(w: Word): (s: seq<Byte>)
    ensures |s| == 4
  {
    [w % 0x100, w / 0x100 % 0x100, w / 0x10000 % 0x100, w / 0x1000000]
  }

  /** The bytes 01, 23 up to EF, FE, DC down to 10, and F0, E1, D2, C3. */
  function Counting01(i: nat): int {
    if i < 8 then 0x01 + 0x22 * i else if i < 16 then 0xFE - 0x22 * (i - 8) else 0xF0 - 0x0F * (i - 16)
  }

  ghost predicate Counts(w: Word, i: nat) {
    forall j :: 0 <= j < 4 ==> LittleBytes(w)[j] == Counting01(i + j)
  }

  /** Section 5.3.1: in little-endian order, the bytes count up and down. */
  lemma Sha1IVCounts()
    ensures var iv := Sha1Spec.IV;
      Counts(iv.a, 0) && Counts(iv.b, 4) && Counts(iv.c, 8) && Counts(iv.d, 12) && Counts(iv.e, 16)
  {
  }

  // The amounts of the rotations

  /** A rotation moves the lowest bits, of which there are `p` patterns, above the others. */
  predicate Rotates(x: Word, p: nat, y: Word)
    requires p > 0
  {
    TWO32 % p == 0 && y == x / p + x % p * (TWO32 / p)
  }

  lemma RotrRotates(x: Word, n: nat, p: nat)
    requires n <= 32 && p == Pow2(n)
    ensures Rotates(x, p, Rotr(x, n))
  {
    RotrIsSum(x, n);
    Pow2Sum(n, 32 - n);
    WordSize();
    DivModOf(TWO32, p, Pow2(32 - n), 0);
  }

  lemma Powers()
    ensures Pow2(2) == 4 && Pow2(5) == 0x20 && Pow2(6) == 0x40 && Pow2(7) == 0x80 && Pow2(11) == 0x800
    ensures Pow2(13) == 0x2000 && Pow2(17) == 0x2_0000 && Pow2(18) == 0x4_0000 && Pow2(19) == 0x8_0000
    ensures Pow2(22) == 0x40_0000 && Pow2(25) == 0x200_0000 && Pow2(27) == 0x800_0000 && Pow2(30) == 0x4000_0000
  {
    assert Pow2(8) == 0x100 && Pow2(16) == 0x1_0000 && Pow2(24) == 0x100_0000;
  }

  predicate BigSigma(x: Word, a: Word, b: Word, c: Word, p: nat, q: nat, r: nat, y: Word)
    requires p > 0 && q > 0 && r > 0
  {
    Rotates(x, p, a) && Rotates(x, q, b) && Rotates(x, r, c) && y == Xor(Xor(a, b), c)
  }

  /** `x / s` is a shift. */
  predicate SmallSigma(x: Word, a: Word, b: Word, p: nat, q: nat, s: nat, y: Word)
    requires p > 0 && q > 0 && s > 0
  {
    Rotates(x, p, a) && Rotates(x, q, b) && y == Xor(Xor(a, b), x / s)
  }

  /** Section 4.1.2, with powers of two for the amounts: 2, 13 and 22, ... */
  lemma BigSigma0Is(x: Word)
    ensures exists a, b, c :: BigSigma(x, a, b, c, 4, 0x2000, 0x40_0000, Sha2Spec.BigSigma0(x))
  {
    Powers();
    RotrRotates(x, 2, 4);
    RotrRotates(x, 13, 0x2000);
    RotrRotates(x, 22, 0x40_0000);
    assert BigSigma(x, Rotr(x, 2), Rotr(x, 13), Rotr(x, 22), 4, 0x2000, 0x40_0000, Sha2Spec.BigSigma0(x));
  }

  /** ... 6, 11 and 25, ... */
  lemma BigSigma1Is(x: Word)
    ensures exists a, b, c :: BigSigma(x, a, b, c, 0x40, 0x800, 0x200_0000, Sha2Spec.BigSigma1(x))
  {
    Powers();
    RotrRotates(x, 6, 0x40);
    RotrRotates(x, 11, 0x800);
    RotrRotates(x, 25, 0x200_0000);
    assert BigSigma(x, Rotr(x, 6), Rotr(x, 11), Rotr(x, 25), 0x40, 0x800, 0x200_0000, Sha2Spec.BigSigma1(x));
  }

  /** ... 7, 18 and 3, and 17, 19 and 10. */
  lemma SmallSigma0Is(x: Word)
    ensures exists a, b :: SmallSigma(x, a, b, 0x80, 0x4_0000, 8, Sha2Spec.SmallSigma0(x))
  {
    Powers();
    RotrRotates(x, 7, 0x80);
    RotrRotates(x, 18, 0x4_0000);
    assert SmallSigma(x, Rotr(x, 7), Rotr(x, 18), 0x80, 0x4_0000, 8, Sha2Spec.SmallSigma0(x));
  }

  lemma SmallSigma1Is(x: Word)
    ensures exists a, b :: SmallSigma(x, a, b, 0x2_0000, 0x8_0000, 0x400, Sha2Spec.SmallSigma1(x))
  {
    Powers();
    RotrRotates(x, 17, 0x2_0000);
    RotrRotates(x, 19, 0x8_0000);
    assert SmallSigma(x, Rotr(x, 17), Rotr(x, 19), 0x2_0000, 0x8_0000, 0x400, Sha2Spec.SmallSigma1(x));
  }

  /** Section 6.1.2 for SHA-1, with quotients: a round rotates `a` by 5 and `b` by 30 to the left. */
  lemma Sha1RoundIs(v: Sha1Spec.Regs, t: nat, w: Word)
    ensures var v' := Sha1Spec.Round(v, t, w);
      && v'.a == (v.a / 0x800_0000 + v.a % 0x800_0000 * 0x20 + Sha1Spec.F(t, v.b, v.c, v.d) + v.e + Sha1Spec.K(t) + w) % TWO32
      && v'.b == v.a && v'.c == v.b / 4 + v.b % 4 * 0x4000_0000 && v'.d == v.c && v'.e == v.d
  {
    Powers();
    RotlIsRotr(v.a, 5);
    RotrRotates(v.a, 27, 0x800_0000);
    RotlIsRotr(v.b, 30);
    RotrRotates(v.b, 2, 4);
    SumOfFive(Rotl(v.a, 5), Sha1Spec.F(t, v.b, v.c, v.d), v.e, Sha1Spec.K(t), w);
  }

  lemma SumOfFive(a: Word, b: Word, c: Word, d: Word, e: Word)
    ensures Plus(Plus(Plus(Plus(a, b), c), d), e) == (a + b + c + d + e) % TWO32
  {
    Wraps(a + b, c);
    Wraps(a + b + c, d);
    Wraps(a + b + c + d, e);
  }

  lemma Wraps(n: nat, x: Word)
    ensures (n % TWO32 + x) % TWO32 == (n + x) % TWO32
  {
  }
}
