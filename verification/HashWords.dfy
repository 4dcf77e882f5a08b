/** What the SHA-1 and SHA-2 models share: 32-bit words, padding, and messages that come in pieces. */

/** Bytes, 32-bit words and the operations on them. */
module HashWords {
  import opened Counting

  const TWO32: nat := 0x1_0000_0000

  type Byte = x: int | 0 <= x < 0x100

  /** A 32-bit word; sums wrap around. */
  type Word = x: int | 0 <= x < TWO32

  function Plus(x: Word, y: Word): Word {
    (x + y) % TWO32
  }

  // The bitwise operations, on the `n` low bits.

  function AndBits(n: nat, x: nat, y: nat): (r: nat)
    ensures r < Pow2(n)
  {
    if n == 0 then 0 else (if x % 2 == 1 && y % 2 == 1 then 1 else 0) + 2 * AndBits(n - 1, x / 2, y / 2)
  }

  function OrBits(n: nat, x: nat, y: nat): (r: nat)
    ensures r < Pow2(n)
  {
    if n == 0 then 0 else (if x % 2 == 1 || y % 2 == 1 then 1 else 0) + 2 * OrBits(n - 1, x / 2, y / 2)
  }

  function XorBits(n: nat, x: nat, y: nat): (r: nat)
    ensures r < Pow2(n)
  {
    if n == 0 then 0 else (if x % 2 != y % 2 then 1 else 0) + 2 * XorBits(n - 1, x / 2, y / 2)
  }

  function NotBits(n: nat, x: nat): (r: nat)
    ensures r < Pow2(n)
  {
    if n == 0 then 0 else (1 - x % 2) + 2 * NotBits(n - 1, x / 2)
  }

  lemma WordSize()
    ensures Pow2(32) == TWO32
  {
    assert Pow2(8) == 256;
    assert Pow2(16) == 65536;
    assert Pow2(24) == 16777216;
  }

  function And(x: Word, y: Word): Word { WordSize(); AndBits(32, x, y) }
  function Or(x: Word, y: Word): Word { WordSize(); OrBits(32, x, y) }
  function Xor(x: Word, y: Word): Word { WordSize(); XorBits(32, x, y) }
  function Not(x: Word): Word { WordSize(); NotBits(32, x) }

  /** A right shift, with `p` = 2^n. */
  function Shr(x: Word, p: nat): Word
    requires p > 0
  {
    x / p
  }

  const TOP: nat := 0x8000_0000

  /** Rotation right by `n` bits, one at a time. */
  function Rotr(x: Word, n: nat): Word {
    if n == 0 then x
    else
      var y := Rotr(x, n - 1);
      y / 2 + y % 2 * TOP
  }

  /** Rotation left by `n` bits. */
  function Rotl(x: Word, n: nat): Word {
    if n == 0 then x
    else
      var y := Rotl(x, n - 1);
      y % TOP * 2 + y / TOP
  }

  lemma {:induction false} Pow2Sum(m: nat, n: nat)
    ensures Pow2(m + n) == Pow2(m) * Pow2(n)
  {
    if m > 0 {
      Pow2Sum(m - 1, n);
      assert Pow2(m + n) == 2 * (Pow2(m - 1) * Pow2(n));
    }
  }

  lemma Distribute(x: nat, y: nat, r: nat)
    ensures (x + y) * r == x * r + y * r
  {
  }

  lemma DivModBounds(x: nat, p: nat)
    requires p > 0
    ensures 0 <= x / p && 0 <= x % p < p && x == p * (x / p) + x % p
  {
  }

  /** One step of a rotation, with `x` == p * (2 * h + b) + m and b a bit. */
  lemma NextShift(p: nat, r: nat, h: nat, b: nat, m: nat, x: nat, y: nat)
    requires m < p && p * r == TOP && b < 2
    requires x == p * (2 * h + b) + m && y == 2 * h + b + m * (2 * r)
    ensures y / 2 + y % 2 * TOP == x / (2 * p) + x % (2 * p) * r
  {
    var mr, low := m * r, if b == 1 then p + m else m;
    Distribute(p, m, r);
    assert y == 2 * (h + mr) + b by {
      Distribute(r, r, m);
    }
    assert x == (2 * p) * h + low by {
      assert p * (2 * h + b) == (2 * p) * h + p * b;
    }
    DivModOf(x, 2 * p, h, low);
  }

  lemma HalfWord()
    ensures Pow2(31) == TOP
  {
    WordSize();
    assert Pow2(32) == 2 * Pow2(31);
  }

  lemma {:induction false} RotrIsSum(x: Word, n: nat)
    requires n <= 32
    ensures Rotr(x, n) == x / Pow2(n) + x % Pow2(n) * Pow2(32 - n)
  {
    if n > 0 {
      RotrIsSum(x, n - 1);
      Pow2Sum(n - 1, 32 - n);
      HalfWord();
      assert Pow2(32 - (n - 1)) == 2 * Pow2(32 - n);
      var p := Pow2(n - 1);
      DivModBounds(x, p);
      NextShift(p, Pow2(32 - n), x / p / 2, x / p % 2, x % p, x, Rotr(x, n - 1));
    }
  }

  lemma {:induction false} OrZero(n: nat, y: nat)
    requires y < Pow2(n)
    ensures OrBits(n, 0, y) == y
  {
    if n > 0 {
      OrZero(n - 1, y / 2);
    }
  }

  /** Joining `k` low bits to a number that has none of them. */
  lemma {:induction false} OrIsSum(n: nat, k: nat, x: nat, q: nat)
    requires k <= n && x < Pow2(k) && q * Pow2(k) < Pow2(n)
    ensures OrBits(n, x, q * Pow2(k)) == x + q * Pow2(k)
  {
    if k == 0 {
      OrZero(n, q);
    } else {
      var y := q * Pow2(k - 1);
      assert q * Pow2(k) == 2 * y;
      OrIsSum(n - 1, k - 1, x / 2, q);
    }
  }

  /** A left shift, with `p` = 2^n. */
  function Shl(x: Word, p: nat): Word {
    x * p % TWO32
  }

  lemma ShlIsProduct(x: Word, p: nat, r: nat)
    requires p > 0 && r > 0 && p * r == TWO32
    ensures Shl(x, p) == x % r * p
  {
    var q, m := x / r, x % r;
    assert x * p == TWO32 * q + m * p by {
      assert x == r * q + m;
      assert (r * q + m) * p == (p * r) * q + m * p;
    }
    MulGap(p, m, r);
    DivModOf(x * p, TWO32, q, m * p);
  }

  lemma MulAtLeast(p: nat, r: nat, q: nat)
    requires r <= q
    ensures p * r <= p * q
  {
    assert p * q == p * r + p * (q - r);
  }

  lemma QuotientBelow(x: nat, p: nat, r: nat)
    requires p > 0 && x < p * r
    ensures x / p < r
  {
    if r <= x / p {
      MulAtLeast(p, r, x / p);
    }
  }

  /** Both shifts of a rotation by `n` bits, with `m` = 32 - n. */
  lemma JoinShifts(x: Word, n: nat, m: nat)
    requires n + m == 32
    ensures OrBits(32, Shr(x, Pow2(n)), Shl(x, Pow2(m))) == x / Pow2(n) + x % Pow2(n) * Pow2(m)
  {
    var p, r := Pow2(n), Pow2(m);
    DivModBounds(x, p);
    var high: nat, low: nat := x / p, x % p;
    assert p * r == TWO32 == Pow2(32) by {
      Pow2Sum(n, m);
      WordSize();
    }
    ShlIsProduct(x, r, p);
    QuotientBelow(x, p, r);
    OrIsSum(32, m, high, low);
  }

  /** The macros rotate by joining two shifts. */
  lemma RotrIsShifts(x: Word, n: nat)
    requires n <= 32
    ensures Rotr(x, n) == Or(Shr(x, Pow2(n)), Shl(x, Pow2(32 - n)))
  {
    RotrIsSum(x, n);
    JoinShifts(x, n, 32 - n);
  }

  lemma {:induction false} RotrAdd(x: Word, m: nat, n: nat)
    ensures Rotr(x, m + n) == Rotr(Rotr(x, m), n)
  {
    if n > 0 {
      RotrAdd(x, m, n - 1);
    }
  }

  lemma RotrOne(x: Word)
    ensures Rotr(x, 1) == x / 2 + x % 2 * TOP
  {
    assert Rotr(x, 0) == x;
  }

  lemma StepBack(z: Word, y: Word)
    requires y == z % TOP * 2 + z / TOP
    ensures y / 2 + y % 2 * TOP == z
  {
    assert z / TOP < 2;
  }

  lemma {:induction false} RotrUndoesRotl(x: Word, n: nat)
    ensures Rotr(Rotl(x, n), n) == x
  {
    if n > 0 {
      RotrUndoesRotl(x, n - 1);
      StepBack(Rotl(x, n - 1), Rotl(x, n));
      RotrOne(Rotl(x, n));
      RotrAdd(Rotl(x, n), 1, n - 1);
    }
  }

  lemma FullTurn(x: Word)
    ensures Rotr(x, 32) == x
  {
    RotrIsSum(x, 32);
    WordSize();
  }

  /** A rotation left is a rotation right by the other bits. */
  lemma RotlIsRotr(x: Word, n: nat)
    requires n <= 32
    ensures Rotl(x, n) == Rotr(x, 32 - n)
  {
    RotrUndoesRotl(x, n);
    RotrAdd(Rotl(x, n), n, 32 - n);
    FullTurn(Rotl(x, n));
  }

  /** ... and so two joined shifts as well. */
  lemma RotlIsShifts(x: Word, n: nat)
    requires n <= 32
    ensures Rotl(x, n) == Or(Shl(x, Pow2(n)), Shr(x, Pow2(32 - n)))
  {
    RotlIsRotr(x, n);
    RotrIsShifts(x, 32 - n);
    OrSwap(32, Shl(x, Pow2(n)), Shr(x, Pow2(32 - n)));
  }

  // Sections 4.1.1 and 4.1.2 of FIPS 180-4

  function Ch(x: Word, y: Word, z: Word): Word { Xor(And(x, y), And(Not(x), z)) }
  function Maj(x: Word, y: Word, z: Word): Word { Xor(Xor(And(x, y), And(x, z)), And(y, z)) }

  lemma AndLow(n: nat, x: nat, y: nat)
    requires n > 0
    ensures AndBits(n, x, y) % 2 == (if x % 2 == 1 && y % 2 == 1 then 1 else 0)
    ensures AndBits(n, x, y) / 2 == AndBits(n - 1, x / 2, y / 2)
  {
  }

  lemma OrLow(n: nat, x: nat, y: nat)
    requires n > 0
    ensures OrBits(n, x, y) % 2 == (if x % 2 == 1 || y % 2 == 1 then 1 else 0)
    ensures OrBits(n, x, y) / 2 == OrBits(n - 1, x / 2, y / 2)
  {
  }

  lemma XorLow(n: nat, x: nat, y: nat)
    requires n > 0
    ensures XorBits(n, x, y) % 2 == (if x % 2 != y % 2 then 1 else 0)
    ensures XorBits(n, x, y) / 2 == XorBits(n - 1, x / 2, y / 2)
  {
  }

  lemma NotLow(n: nat, x: nat)
    requires n > 0
    ensures NotBits(n, x) % 2 == 1 - x % 2
    ensures NotBits(n, x) / 2 == NotBits(n - 1, x / 2)
  {
  }

  lemma {:induction false} MajBits(n: nat, x: nat, y: nat, z: nat)
    ensures OrBits(n, AndBits(n, x, y), AndBits(n, z, OrBits(n, x, y)))
         == XorBits(n, XorBits(n, AndBits(n, x, y), AndBits(n, x, z)), AndBits(n, y, z))
  {
    if n > 0 {
      AndLow(n, x, y);
      AndLow(n, x, z);
      AndLow(n, y, z);
      OrLow(n, x, y);
      AndLow(n, z, OrBits(n, x, y));
      XorLow(n, AndBits(n, x, y), AndBits(n, x, z));
      MajBits(n - 1, x / 2, y / 2, z / 2);
    }
  }

  lemma {:induction false} ChBits(n: nat, x: nat, y: nat, z: nat)
    ensures XorBits(n, z, AndBits(n, x, XorBits(n, y, z))) == XorBits(n, AndBits(n, x, y), AndBits(n, NotBits(n, x), z))
  {
    if n > 0 {
      XorLow(n, y, z);
      AndLow(n, x, XorBits(n, y, z));
      AndLow(n, x, y);
      NotLow(n, x);
      AndLow(n, NotBits(n, x), z);
      ChBits(n - 1, x / 2, y / 2, z / 2);
    }
  }

  /** The last `k` bits and the others are masked on their own. */
  lemma {:induction false} AndJoin(k: nat, n: nat, x: nat, xs: nat, y: nat, ys: nat)
    requires x < Pow2(k) && y < Pow2(k)
    ensures AndBits(k + n, x + Pow2(k) * xs, y + Pow2(k) * ys) == AndBits(k, x, y) + Pow2(k) * AndBits(n, xs, ys)
  {
    if k > 0 {
      AndJoin(k - 1, n, x / 2, xs, y / 2, ys);
      HalveJoined(x, Pow2(k - 1), xs);
      HalveJoined(y, Pow2(k - 1), ys);
      HalveJoined(0, Pow2(k - 1), AndBits(n, xs, ys));
    }
  }

  lemma HalveJoined(x: nat, p: nat, xs: nat)
    ensures (x + 2 * p * xs) / 2 == x / 2 + p * xs && (x + 2 * p * xs) % 2 == x % 2
  {
    assert x + 2 * p * xs == x + 2 * (p * xs);
  }

  lemma {:induction false} OrJoin(k: nat, n: nat, x: nat, xs: nat, y: nat, ys: nat)
    requires x < Pow2(k) && y < Pow2(k)
    ensures OrBits(k + n, x + Pow2(k) * xs, y + Pow2(k) * ys) == OrBits(k, x, y) + Pow2(k) * OrBits(n, xs, ys)
  {
    if k > 0 {
      OrJoin(k - 1, n, x / 2, xs, y / 2, ys);
      HalveJoined(x, Pow2(k - 1), xs);
      HalveJoined(y, Pow2(k - 1), ys);
      HalveJoined(0, Pow2(k - 1), OrBits(n, xs, ys));
    }
  }

  lemma {:induction false} OrSwap(n: nat, x: nat, y: nat)
    ensures OrBits(n, x, y) == OrBits(n, y, x)
  {
    if n > 0 {
      OrSwap(n - 1, x / 2, y / 2);
    }
  }

  lemma {:induction false} AndOnes(n: nat, x: nat)
    requires x < Pow2(n)
    ensures AndBits(n, x, Pow2(n) - 1) == x
  {
    if n > 0 {
      AndOnes(n - 1, x / 2);
    }
  }

  lemma {:induction false} AndZero(n: nat, x: nat)
    ensures AndBits(n, x, 0) == 0
  {
    if n > 0 {
      AndZero(n - 1, x / 2);
    }
  }

  const BLOCK: nat := 64

  function BigEndian(b: seq<Byte>, i: nat): Word
    requires i + 4 <= |b|
  {
    var b0: int, b1: int, b2: int, b3: int := b[i], b[i + 1], b[i + 2], b[i + 3];
    b0 * 0x1000000 + b1 * 0x10000 + b2 * 0x100 + b3
  }

  /** The four big-endian bytes of a word. */
  function WordBytes(w: Word): (s: seq<Byte>)
    ensures |s| == 4
  {
    [w / 0x1000000, w / 0x10000 % 0x100, w / 0x100 % 0x100, w % 0x100]
  }

  /** A 64-bit big-endian count, modulo 2^64. */
  function LongCountBytes(n: nat): (s: seq<Byte>)
    ensures |s| == 8
  {
    WordBytes(n / TWO32 % TWO32) + WordBytes(n % TWO32)
  }

  function Zeros(n: nat): (s: seq<Byte>)
    ensures |s| == n
  {
    seq(n, _ => 0)
  }

  /** Section 5.1.1 of FIPS 180-4: how many zero bytes follow the byte 0x80. */
  function ZeroCount(length: nat): (z: nat)
    ensures z < BLOCK && (length + 1 + z + 8) % BLOCK == 0
  {
    (119 - length % BLOCK) % BLOCK
  }

  /** Section 5.1.1 of FIPS 180-4, with the length that goes into the last eight bytes. */
  function Pad(msg: seq<Byte>, length: nat): (s: seq<Byte>)
    ensures |s| % BLOCK == 0
  {
    msg + [0x80] + Zeros(ZeroCount(|msg|)) + LongCountBytes(length * 8)
  }
}

/** Reading a message in pieces: facts that do not depend on the compression function. */
module Pieces {
  import opened Counting
  import opened HashWords

  const TWO64: nat := 0x1_0000_0000_0000_0000

  /** Two 32-bit counters hold a 64-bit count. */
  lemma CountersAdd(low: Word, high: Word, n: nat, k: Word)
    requires low + TWO32 * high == n % TWO64
    ensures var low' := (low + k) % TWO32;
      low' + TWO32 * ((high + if low' < k then 1 else 0) % TWO32) == (n + k) % TWO64
  {
    var sum := low + TWO32 * high + k;
    assert (n + k) % TWO64 == sum % TWO64;
  }

  /** The length in bits, from counters that hold the length in bytes. */
  lemma BitCount(low: Word, high: Word, n: nat)
    requires low + TWO32 * high == n % TWO64
    ensures n * 8 % TWO32 == Shl(low, 8)
    ensures n * 8 / TWO32 % TWO32 == low / 0x2000_0000 + high % 0x2000_0000 * 8
  {
    var k := n / TWO64;
    assert n * 8 == low * 8 + TWO32 * (high * 8) + TWO64 * (8 * k);
    var top, rest := low / 0x2000_0000, low % 0x2000_0000;
    DivModOf(n * 8, TWO32, top + high * 8 + TWO32 * (8 * k), rest * 8);
    var q, m := high / 0x2000_0000, high % 0x2000_0000;
    assert top + high * 8 + TWO32 * (8 * k) == TWO32 * (q + 8 * k) + (top + m * 8);
    DivModOf(top + high * 8 + TWO32 * (8 * k), TWO32, q + 8 * k, top + m * 8);
  }

  lemma JoinedCount(low: Word, high: Word)
    ensures Or(Shr(low, 0x2000_0000), Shl(high, 8)) == low / 0x2000_0000 + high % 0x2000_0000 * 8
  {
    ShlIsProduct(high, 8, 0x2000_0000);
    WordSize();
    assert Pow2(3) == 8;
    OrIsSum(32, 3, low / 0x2000_0000, high % 0x2000_0000);
  }

  lemma WordOfBytes(w: Word)
    ensures w / 0x1000000 * 0x1000000 + w / 0x10000 % 0x100 * 0x10000 + w / 0x100 % 0x100 * 0x100 + w % 0x100 == w
  {
    var a := w / 0x100;
    var b := a / 0x100;
    assert b == w / 0x10000 && b / 0x100 == w / 0x1000000;
  }

  /** The bytes of a word, the first of which counts most, are read back as the word. */
  lemma WordReadBack(w: Word)
    ensures BigEndian(WordBytes(w), 0) == w
    ensures WordBytes(w)[0] * 0x1000000 <= w && WordBytes(w)[3] == w % 0x100
  {
    WordOfBytes(w);
  }

  lemma WordBytesInjective(x: Word, y: Word)
    requires WordBytes(x) == WordBytes(y)
    ensures x == y
  {
    WordOfBytes(x);
    WordOfBytes(y);
    var p, q := WordBytes(x), WordBytes(y);
    assert p[0] == q[0] && p[1] == q[1] && p[2] == q[2] && p[3] == q[3];
  }

  lemma LongOfWords(x: nat)
    ensures x % TWO64 == x % TWO32 + TWO32 * (x / TWO32 % TWO32)
  {
    var h := x / TWO32;
    DivModOf(x, TWO64, h / TWO32, x % TWO32 + TWO32 * (h % TWO32));
  }

  lemma LongCountInjective(x: nat, y: nat)
    ensures LongCountBytes(x) == LongCountBytes(y) <==> x % TWO64 == y % TWO64
  {
    var x1: Word, x0: Word := x / TWO32 % TWO32, x % TWO32;
    var y1: Word, y0: Word := y / TWO32 % TWO32, y % TWO32;
    LongOfWords(x);
    LongOfWords(y);
    if LongCountBytes(x) == LongCountBytes(y) {
      assert LongCountBytes(x)[..4] == WordBytes(x1) && LongCountBytes(x)[4..] == WordBytes(x0);
      assert LongCountBytes(y)[..4] == WordBytes(y1) && LongCountBytes(y)[4..] == WordBytes(y0);
      WordBytesInjective(x1, y1);
      WordBytesInjective(x0, y0);
    } else {
      assert x1 != y1 || x0 != y0;
    }
  }

  lemma SamePadding(msg: seq<Byte>, m: nat, n: nat)
    ensures Pad(msg, m) == Pad(msg, n) <==> LongCountBytes(m * 8) == LongCountBytes(n * 8)
  {
    var front := msg + [0x80] + Zeros(ZeroCount(|msg|));
    assert Pad(msg, m)[|front|..] == LongCountBytes(m * 8);
    assert Pad(msg, n)[|front|..] == LongCountBytes(n * 8);
  }

  lemma Vanishes(x: nat, k: nat)
    ensures (x + TWO32 * k) % TWO64 == x % TWO64 <==> k % TWO32 == 0
  {
    var q, r := k / TWO32, k % TWO32;
    assert TWO32 * k == TWO64 * q + TWO32 * r;
    assert (x + TWO32 * k) % TWO64 == (x + TWO32 * r) % TWO64;
  }

  /** Two lengths, 2^32 * k bits apart, give the same padding exactly when the difference vanishes from 64 bits. */
  lemma SamePaddingIff(msg: seq<Byte>, m: nat, n: nat, k: nat)
    requires n * 8 == m * 8 + TWO32 * k
    ensures Pad(msg, m) == Pad(msg, n) <==> k % TWO32 == 0
  {
    SamePadding(msg, m, n);
    LongCountInjective(m * 8, n * 8);
    Vanishes(m * 8, k);
  }

  lemma TwoParts(m: seq<Byte>, all: seq<Byte>, k: nat)
    requires k <= |all|
    ensures (m + all[..k]) + all[k..] == m + all
  {
  }

  lemma TailSize(hashed: seq<Byte>, tail: seq<Byte>)
    requires |hashed| % BLOCK == 0 && |tail| < BLOCK
    ensures |hashed + tail| % BLOCK == |tail|
  {
    DivModOf(|hashed + tail|, BLOCK, |hashed| / BLOCK, |tail|);
  }

  lemma BlockMoves(hashed: seq<Byte>, tail: seq<Byte>, data: seq<Byte>, rest: seq<Byte>)
    requires tail == [] && data <= rest
    ensures ((hashed + data) + tail) + rest[|data|..] == (hashed + tail) + rest
  {
  }

  lemma WholeBlocks(hashed: seq<Byte>, tail: seq<Byte>)
    requires |hashed| % BLOCK == 0 && |tail| < BLOCK && |hashed + tail| % BLOCK == 0
    ensures hashed + tail == hashed
  {
  }

  lemma FirstThenRest<T>(before: seq<T>, s: seq<T>)
    requires s != []
    ensures (before + [s[0]]) + s[1..] == before + s
  {
  }

  function Concat(chunks: seq<seq<Byte>>): seq<Byte> {
    if chunks == [] then [] else Concat(chunks[..|chunks| - 1]) + chunks[|chunks| - 1]
  }

  /** `memcpy` */
  method Copy(buffer: array<Byte>, at: nat, bytes: seq<Byte>)
    requires at + |bytes| <= buffer.Length
    modifies buffer
    ensures buffer[..] == old(buffer[..at]) + bytes + old(buffer[at + |bytes|..])
  {
    forall i | 0 <= i < |bytes| {
      buffer[at + i] := bytes[i];
    }
  }

  method PutWord(w: Word, output: array<Byte>, i: nat)
    requires i + 4 <= output.Length
    modifies output
    ensures output[..i + 4] == old(output[..i]) + WordBytes(w)
  {
    Copy(output, i, WordBytes(w));
  }

  method PutFour(w0: Word, w1: Word, w2: Word, w3: Word, output: array<Byte>)
    requires 16 <= output.Length
    modifies output
    ensures output[..16] == WordBytes(w0) + WordBytes(w1) + WordBytes(w2) + WordBytes(w3)
  {
    PutWord(w0, output, 0);
    PutWord(w1, output, 4);
    PutWord(w2, output, 8);
    PutWord(w3, output, 12);
  }
}
