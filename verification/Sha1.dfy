/** SHA-1: the definition of FIPS 180-4, and `rktio_sha1.c` on a little-endian machine. */

module Sha1Spec {
  import opened HashWords

  // Section 4.1.1 of FIPS 180-4

  function Parity(x: Word, y: Word, z: Word): Word {
    Xor(Xor(x, y), z)
  }

  function F(t: nat, x: Word, y: Word, z: Word): Word {
    if t < 20 then Ch(x, y, z) else if 40 <= t < 60 then Maj(x, y, z) else Parity(x, y, z)
  }

  // Section 4.2.1

  function K(t: nat): Word {
    if t < 20 then 0x5A827999 else if t < 40 then 0x6ED9EBA1 else if t < 60 then 0x8F1BBCDC else 0xCA62C1D6
  }

  /** The working variables, and the hash value. */
  datatype Regs = Regs(a: Word, b: Word, c: Word, d: Word, e: Word)

  // Section 5.3.1

  const IV := Regs(0x67452301, 0xEFCDAB89, 0x98BADCFE, 0x10325476, 0xC3D2E1F0)

  // Section 6.1.2

  /** The first `n` words of the message schedule. */
  function Schedule(block: seq<Byte>, n: nat): (w: seq<Word>)
    requires |block| == BLOCK && n <= 80
    ensures |w| == n
  {
    if n == 0 then []
    else
      var w := Schedule(block, n - 1);
      var t := n - 1;
      w + [if t < 16 then BigEndian(block, 4 * t)
           else Rotl(Xor(Xor(Xor(w[t - 3], w[t - 8]), w[t - 14]), w[t - 16]), 1)]
  }

  lemma {:induction false} SchedulePrefix(block: seq<Byte>, m: nat, n: nat)
    requires |block| == BLOCK && m <= n <= 80
    ensures Schedule(block, n)[..m] == Schedule(block, m)
  {
    if m < n {
      SchedulePrefix(block, m, n - 1);
      assert Schedule(block, n)[..m] == Schedule(block, n - 1)[..m];
    }
  }

  /** The words of the whole schedule, in terms of each other. */
  lemma ScheduledWord(block: seq<Byte>, t: nat)
    requires |block| == BLOCK && t < 80
    ensures var w := Schedule(block, 80);
      w[t] == if t < 16 then BigEndian(block, 4 * t)
              else Rotl(Xor(Xor(Xor(w[t - 3], w[t - 8]), w[t - 14]), w[t - 16]), 1)
  {
    var w := Schedule(block, 80);
    SchedulePrefix(block, t + 1, 80);
    SchedulePrefix(block, t, 80);
    assert w[t] == w[..t + 1][t];
    if t >= 16 {
      assert w[..t][t - 3] == w[t - 3] && w[..t][t - 8] == w[t - 8];
      assert w[..t][t - 14] == w[t - 14] && w[..t][t - 16] == w[t - 16];
    }
  }

  function Round(r: Regs, t: nat, w: Word): Regs {
    var temp := Plus(Plus(Plus(Plus(Rotl(r.a, 5), F(t, r.b, r.c, r.d)), r.e), K(t)), w);
    Regs(temp, r.a, Rotl(r.b, 30), r.c, r.d)
  }

  function Rounds(r: Regs, w: seq<Word>, n: nat): Regs
    requires n <= |w|
  {
    if n == 0 then r else Round(Rounds(r, w, n - 1), n - 1, w[n - 1])
  }

  function AddRegs(x: Regs, y: Regs): Regs {
    Regs(Plus(x.a, y.a), Plus(x.b, y.b), Plus(x.c, y.c), Plus(x.d, y.d), Plus(x.e, y.e))
  }

  function Compress(r: Regs, block: seq<Byte>): Regs
    requires |block| == BLOCK
  {
    AddRegs(r, Rounds(r, Schedule(block, 80), 80))
  }

  function HashBlocks(r: Regs, m: seq<Byte>): Regs
    requires |m| % BLOCK == 0
    decreases |m|
  {
    if m == [] then r else Compress(HashBlocks(r, m[..|m| - BLOCK]), m[|m| - BLOCK..])
  }

  function Digest(r: Regs): (d: seq<Byte>)
    ensures |d| == 20
  {
    WordBytes(r.a) + WordBytes(r.b) + WordBytes(r.c) + WordBytes(r.d) + WordBytes(r.e)
  }

  /** The hash of a whole message, with the length that its padding records. */
  function HashWithLength(msg: seq<Byte>, length: nat): seq<Byte> {
    Digest(HashBlocks(IV, Pad(msg, length)))
  }

  function Hash(msg: seq<Byte>): seq<Byte> {
    HashWithLength(msg, |msg|)
  }
}

/** The words of a block: loaded in the machine's byte order, swapped and replaced in place. */
module Sha1Words {
  import opened Counting
  import opened HashWords
  import opened Sha1Spec

  /** A word of the block as a little-endian machine reads it. */
  function LittleEndian(b: seq<Byte>, i: nat): Word
    requires i + 4 <= |b|
  {
    Four(b[i], b[i + 1], b[i + 2], b[i + 3])
  }

  /** Four bytes, the lowest first. */
  function Four(b0: Byte, b1: Byte, b2: Byte, b3: Byte): Word {
    b0 + 0x100 * (b1 + 0x100 * (b2 + 0x100 * b3))
  }

  lemma OneByte(b: Byte)
    ensures AndBits(8, b, 0xFF) == b && AndBits(8, b, 0) == 0
    ensures OrBits(8, b, 0) == b && OrBits(8, 0, b) == b
  {
    assert Pow2(8) == 0x100;
    AndOnes(8, b);
    AndZero(8, b);
    OrZero(8, b);
    OrSwap(8, b, 0);
  }

  // Bitwise operations go byte by byte.

  lemma AndByte(n: nat, m: nat, x: Byte, xs: nat, x': nat, y: Byte, ys: nat, y': nat)
    requires m == 8 + n && x' == x + 0x100 * xs && y' == y + 0x100 * ys
    ensures AndBits(m, x', y') == AndBits(8, x, y) + 0x100 * AndBits(n, xs, ys)
  {
    assert Pow2(8) == 0x100;
    AndJoin(8, n, x, xs, y, ys);
  }

  lemma AndFour(x0: Byte, x1: Byte, x2: Byte, x3: Byte, y0: Byte, y1: Byte, y2: Byte, y3: Byte)
    ensures And(Four(x0, x1, x2, x3), Four(y0, y1, y2, y3)) ==
      AndBits(8, x0, y0) + 0x100 * (AndBits(8, x1, y1) + 0x100 * (AndBits(8, x2, y2) + 0x100 * AndBits(8, x3, y3)))
  {
    var xs, ys := x2 + 0x100 * x3, y2 + 0x100 * y3;
    var xss, yss := x1 + 0x100 * xs, y1 + 0x100 * ys;
    AndByte(8, 16, x2, x3, xs, y2, y3, ys);
    AndByte(16, 24, x1, xs, xss, y1, ys, yss);
    AndByte(24, 32, x0, xss, Four(x0, x1, x2, x3), y0, yss, Four(y0, y1, y2, y3));
  }

  lemma OrByte(n: nat, m: nat, x: Byte, xs: nat, x': nat, y: Byte, ys: nat, y': nat)
    requires m == 8 + n && x' == x + 0x100 * xs && y' == y + 0x100 * ys
    ensures OrBits(m, x', y') == OrBits(8, x, y) + 0x100 * OrBits(n, xs, ys)
  {
    assert Pow2(8) == 0x100;
    OrJoin(8, n, x, xs, y, ys);
  }

  lemma OrFour(x0: Byte, x1: Byte, x2: Byte, x3: Byte, y0: Byte, y1: Byte, y2: Byte, y3: Byte)
    ensures Or(Four(x0, x1, x2, x3), Four(y0, y1, y2, y3)) ==
      OrBits(8, x0, y0) + 0x100 * (OrBits(8, x1, y1) + 0x100 * (OrBits(8, x2, y2) + 0x100 * OrBits(8, x3, y3)))
  {
    var xs, ys := x2 + 0x100 * x3, y2 + 0x100 * y3;
    var xss, yss := x1 + 0x100 * xs, y1 + 0x100 * ys;
    OrByte(8, 16, x2, x3, xs, y2, y3, ys);
    OrByte(16, 24, x1, xs, xss, y1, ys, yss);
    OrByte(24, 32, x0, xss, Four(x0, x1, x2, x3), y0, yss, Four(y0, y1, y2, y3));
  }

  lemma SmallPowers()
    ensures Pow2(8) == 0x100 && Pow2(24) == 0x1000000
  {
    assert Pow2(8) == 0x100;
    assert Pow2(16) == 0x10000;
  }

  lemma RotrBy(x: Word, n: nat, p: nat, r: nat, q: nat, m: nat)
    requires n <= 32 && p == Pow2(n) && r == Pow2(32 - n) && m < p && x == p * q + m
    ensures Rotr(x, n) == q + m * r
  {
    RotrIsSum(x, n);
    DivModOf(x, p, q, m);
  }

  lemma RotateByEight(b0: Byte, b1: Byte, b2: Byte, b3: Byte)
    ensures Rotl(Four(b0, b1, b2, b3), 8) == Four(b3, b0, b1, b2)
  {
    var x := Four(b0, b1, b2, b3);
    RotlIsRotr(x, 8);
    SmallPowers();
    RotrBy(x, 24, 0x1000000, 0x100, b3, b0 + 0x100 * (b1 + 0x100 * b2));
  }

  lemma RotateBy24(b0: Byte, b1: Byte, b2: Byte, b3: Byte)
    ensures Rotl(Four(b0, b1, b2, b3), 24) == Four(b1, b2, b3, b0)
  {
    var x := Four(b0, b1, b2, b3);
    RotlIsRotr(x, 24);
    SmallPowers();
    RotrBy(x, 8, 0x100, 0x1000000, b1 + 0x100 * (b2 + 0x100 * b3), b0);
  }

  /** What `blk0` computes. */
  function Swapped(x: Word): Word {
    Or(And(Rotl(x, 24), 0xFF00FF00), And(Rotl(x, 8), 0x00FF00FF))
  }

  lemma SwappedFour(b0: Byte, b1: Byte, b2: Byte, b3: Byte)
    ensures Swapped(Four(b0, b1, b2, b3)) == Four(b3, b2, b1, b0)
  {
    RotateByEight(b0, b1, b2, b3);
    RotateBy24(b0, b1, b2, b3);
    assert Four(0, 0xFF, 0, 0xFF) == 0xFF00FF00 && Four(0xFF, 0, 0xFF, 0) == 0x00FF00FF;
    AndFour(b1, b2, b3, b0, 0, 0xFF, 0, 0xFF);
    AndFour(b3, b0, b1, b2, 0xFF, 0, 0xFF, 0);
    OneByte(b0);
    OneByte(b1);
    OneByte(b2);
    OneByte(b3);
    assert And(Four(b1, b2, b3, b0), 0xFF00FF00) == Four(0, b2, 0, b0);
    assert And(Four(b3, b0, b1, b2), 0x00FF00FF) == Four(b3, 0, b1, 0);
    OrFour(0, b2, 0, b0, b3, 0, b1, 0);
  }

  /** The swap turns the machine's order into the standard's. */
  lemma SwapIsBigEndian(b: seq<Byte>, i: nat)
    requires i + 4 <= |b|
    ensures Swapped(LittleEndian(b, i)) == BigEndian(b, i)
  {
    SwappedFour(b[i], b[i + 1], b[i + 2], b[i + 3]);
  }

  // The circular schedule: sixteen words, of which round `t` replaces one.

  /** The last round before `t` that replaced slot `s`. */
  function LastAt(t: nat, s: nat): (j: nat)
    requires s < 16 && s < t
    ensures j < t
  {
    if (t - 1) % 16 == s then t - 1 else LastAt(t - 1, s)
  }

  lemma {:induction false} LastAtIs(t: nat, j: nat)
    requires j < t <= j + 16
    ensures LastAt(t, j % 16) == j
  {
    if j < t - 1 {
      LastAtIs(t - 1, j);
    }
  }

  /** What slot `s` holds before round `t`: a word as it was loaded, or the last word computed there. */
  function Slot(data: seq<Byte>, t: nat, s: nat): Word
    requires |data| == BLOCK && t <= 80 && s < 16
  {
    if t <= s then LittleEndian(data, 4 * s) else Schedule(data, 80)[LastAt(t, s)]
  }

  ghost predicate Slots(l: seq<Word>, data: seq<Byte>, t: nat) {
    |data| == BLOCK && t <= 80 && |l| == 16 && forall s :: 0 <= s < 16 ==> l[s] == Slot(data, t, s)
  }

  lemma SlotsStep(l: seq<Word>, data: seq<Byte>, t: nat, w: Word)
    requires Slots(l, data, t) && t < 80 && w == Schedule(data, 80)[t]
    ensures Slots(l[t % 16 := w], data, t + 1)
  {
    var l' := l[t % 16 := w];
    forall s | 0 <= s < 16
      ensures l'[s] == Slot(data, t + 1, s)
    {
      if t == s {
        assert t % 16 == s;
      }
    }
  }

  lemma WordStillThere(l: seq<Word>, data: seq<Byte>, t: nat, u: nat, s: nat)
    requires Slots(l, data, t) && 16 <= t && t - 16 <= u < t && s == u % 16
    ensures l[s] == Schedule(data, 80)[u]
  {
    LastAtIs(t, u);
    assert l[s] == Slot(data, t, s);
  }

  /** The four words that round `t` needs are still there. */
  lemma StillThere(l: seq<Word>, data: seq<Byte>, t: nat)
    requires Slots(l, data, t) && 16 <= t < 80
    ensures l[(t + 13) % 16] == Schedule(data, 80)[t - 3] && l[(t + 8) % 16] == Schedule(data, 80)[t - 8]
    ensures l[(t + 2) % 16] == Schedule(data, 80)[t - 14] && l[t % 16] == Schedule(data, 80)[t - 16]
  {
    Back(t, 3);
    Back(t, 8);
    Back(t, 14);
    Back(t, 16);
    WordStillThere(l, data, t, t - 3, (t + 13) % 16);
    WordStillThere(l, data, t, t - 8, (t + 8) % 16);
    WordStillThere(l, data, t, t - 14, (t + 2) % 16);
    WordStillThere(l, data, t, t - 16, t % 16);
  }

  lemma Back(t: nat, k: nat)
    requires k <= 16 <= t
    ensures (t + (16 - k)) % 16 == (t - k) % 16
  {
    var q, r := (t - k) / 16, (t - k) % 16;
    DivModOf(t + (16 - k), 16, q + 1, r);
  }

  lemma LoadedWord(l: seq<Word>, data: seq<Byte>, t: nat)
    requires Slots(l, data, t) && t < 16
    ensures Swapped(l[t]) == Schedule(data, 80)[t]
  {
    ScheduledWord(data, t);
    SwapIsBigEndian(data, 4 * t);
    assert l[t] == Slot(data, t, t);
  }

  lemma FirstSlotsStep(l: seq<Word>, data: seq<Byte>, t: nat, w: Word)
    requires Slots(l, data, t) && t < 16 && w == Schedule(data, 80)[t]
    ensures Slots(l[t := w], data, t + 1)
  {
    assert t % 16 == t;
    SlotsStep(l, data, t, w);
  }

  method Blk0(l: array<Word>, i: nat, ghost data: seq<Byte>) returns (w: Word)
    requires l.Length == 16 && i < 16 && Slots(l[..], data, i)
    modifies l
    ensures Slots(l[..], data, i + 1) && w == Schedule(data, 80)[i]
  {
    LoadedWord(l[..], data, i);
    w := Swapped(l[i]);
    FirstSlotsStep(l[..], data, i, w);
    l[i] := w;
  }

  method Blk(l: array<Word>, i: nat, ghost data: seq<Byte>) returns (w: Word)
    requires l.Length == 16 && 16 <= i < 80 && Slots(l[..], data, i)
    modifies l
    ensures Slots(l[..], data, i + 1) && w == Schedule(data, 80)[i]
  {
    ScheduledWord(data, i);
    StillThere(l[..], data, i);
    w := Rotl(Xor(Xor(Xor(l[(i + 13) % 16], l[(i + 8) % 16]), l[(i + 2) % 16]), l[i % 16]), 1);
    SlotsStep(l[..], data, i, w);
    l[i % 16] := w;
  }
}

/** `SHA1_Transform`: eighty unrolled rounds, in which the variables change roles. */
module Sha1Transform {
  import opened HashWords
  import opened Sha1Spec
  import opened Sha1Words

  lemma {:induction false} ChForm(n: nat, w: nat, x: nat, y: nat)
    ensures XorBits(n, AndBits(n, w, XorBits(n, x, y)), y) == XorBits(n, AndBits(n, w, x), AndBits(n, NotBits(n, w), y))
  {
    if n > 0 {
      XorLow(n, x, y);
      AndLow(n, w, XorBits(n, x, y));
      AndLow(n, w, x);
      NotLow(n, w);
      AndLow(n, NotBits(n, w), y);
      ChForm(n - 1, w / 2, x / 2, y / 2);
    }
  }

  lemma {:induction false} MajForm(n: nat, w: nat, x: nat, y: nat)
    ensures OrBits(n, AndBits(n, OrBits(n, w, x), y), AndBits(n, w, x))
         == XorBits(n, XorBits(n, AndBits(n, w, x), AndBits(n, w, y)), AndBits(n, x, y))
  {
    if n > 0 {
      AndLow(n, w, x);
      AndLow(n, w, y);
      AndLow(n, x, y);
      OrLow(n, w, x);
      AndLow(n, OrBits(n, w, x), y);
      XorLow(n, AndBits(n, w, x), AndBits(n, w, y));
      MajForm(n - 1, w / 2, x / 2, y / 2);
    }
  }

  /** The macros' shortened bit functions are the standard's. */
  lemma FormsAreStandard(w: Word, x: Word, y: Word)
    ensures Xor(And(w, Xor(x, y)), y) == Ch(w, x, y)
    ensures Or(And(Or(w, x), y), And(w, x)) == Maj(w, x, y)
  {
    WordSize();
    ChForm(32, w, x, y);
    MajForm(32, w, x, y);
  }

  /** The macros add the five terms in another order. */
  lemma SumOrder(z: Word, f: Word, w: Word, k: Word, r: Word)
    ensures Plus(z, Plus(Plus(Plus(f, w), k), r)) == Plus(Plus(Plus(Plus(r, f), z), k), w)
  {
    PlusModulo(f + w, k);
    PlusModulo(f + w + k, r);
    PlusModulo(f + w + k + r, z);
    PlusModulo(r + f, z);
    PlusModulo(r + f + z, k);
    PlusModulo(r + f + z + k, w);
  }

  lemma PlusModulo(n: nat, x: Word)
    ensures Plus(n % TWO32, x) == Plus(x, n % TWO32) == (n + x) % TWO32
  {
  }

  /** The five variables before round `i`, in the roles of that round, and the circular schedule. */
  ghost predicate At(v: Word, w: Word, x: Word, y: Word, z: Word, l: seq<Word>, h: Regs, data: seq<Byte>, i: nat) {
    Slots(l, data, i) && Regs(v, w, x, y, z) == Rounds(h, Schedule(data, 80), i)
  }

  /** What the five macros have in common. */
  method Mix(v: Word, w: Word, x: Word, y: Word, z: Word, f: Word, word: Word, k: Word,
             ghost h: Regs, ghost data: seq<Byte>, ghost i: nat)
    returns (w': Word, z': Word)
    requires |data| == BLOCK && i < 80 && Regs(v, w, x, y, z) == Rounds(h, Schedule(data, 80), i)
    requires f == F(i, w, x, y) && word == Schedule(data, 80)[i] && k == K(i)
    ensures Regs(z', v, w', x, y) == Rounds(h, Schedule(data, 80), i + 1)
  {
    SumOrder(z, f, word, k, Rotl(v, 5));
    z' := Plus(z, Plus(Plus(Plus(f, word), k), Rotl(v, 5)));
    w' := Rotl(w, 30);
  }

  method R0(v: Word, w: Word, x: Word, y: Word, z: Word, i: nat, l: array<Word>, ghost h: Regs, ghost data: seq<Byte>)
    returns (w': Word, z': Word)
    requires l.Length == 16 && i < 16 && At(v, w, x, y, z, l[..], h, data, i)
    modifies l
    ensures At(z', v, w', x, y, l[..], h, data, i + 1)
  {
    FormsAreStandard(w, x, y);
    var word := Blk0(l, i, data);
    w', z' := Mix(v, w, x, y, z, Xor(And(w, Xor(x, y)), y), word, 0x5A827999, h, data, i);
  }

  method R1(v: Word, w: Word, x: Word, y: Word, z: Word, i: nat, l: array<Word>, ghost h: Regs, ghost data: seq<Byte>)
    returns (w': Word, z': Word)
    requires l.Length == 16 && 16 <= i < 20 && At(v, w, x, y, z, l[..], h, data, i)
    modifies l
    ensures At(z', v, w', x, y, l[..], h, data, i + 1)
  {
    FormsAreStandard(w, x, y);
    var word := Blk(l, i, data);
    w', z' := Mix(v, w, x, y, z, Xor(And(w, Xor(x, y)), y), word, 0x5A827999, h, data, i);
  }

  method R2(v: Word, w: Word, x: Word, y: Word, z: Word, i: nat, l: array<Word>, ghost h: Regs, ghost data: seq<Byte>)
    returns (w': Word, z': Word)
    requires l.Length == 16 && 20 <= i < 40 && At(v, w, x, y, z, l[..], h, data, i)
    modifies l
    ensures At(z', v, w', x, y, l[..], h, data, i + 1)
  {
    var word := Blk(l, i, data);
    w', z' := Mix(v, w, x, y, z, Xor(Xor(w, x), y), word, 0x6ED9EBA1, h, data, i);
  }

  method R3(v: Word, w: Word, x: Word, y: Word, z: Word, i: nat, l: array<Word>, ghost h: Regs, ghost data: seq<Byte>)
    returns (w': Word, z': Word)
    requires l.Length == 16 && 40 <= i < 60 && At(v, w, x, y, z, l[..], h, data, i)
    modifies l
    ensures At(z', v, w', x, y, l[..], h, data, i + 1)
  {
    FormsAreStandard(w, x, y);
    var word := Blk(l, i, data);
    w', z' := Mix(v, w, x, y, z, Or(And(Or(w, x), y), And(w, x)), word, 0x8F1BBCDC, h, data, i);
  }

  method R4(v: Word, w: Word, x: Word, y: Word, z: Word, i: nat, l: array<Word>, ghost h: Regs, ghost data: seq<Byte>)
    returns (w': Word, z': Word)
    requires l.Length == 16 && 60 <= i < 80 && At(v, w, x, y, z, l[..], h, data, i)
    modifies l
    ensures At(z', v, w', x, y, l[..], h, data, i + 1)
  {
    var word := Blk(l, i, data);
    w', z' := Mix(v, w, x, y, z, Xor(Xor(w, x), y), word, 0xCA62C1D6, h, data, i);
  }

  // Five rounds bring every variable back to its role.

  method FiveR0(a0: Word, b0: Word, c0: Word, d0: Word, e0: Word, i: nat, l: array<Word>,
                ghost h: Regs, ghost data: seq<Byte>)
    returns (a: Word, b: Word, c: Word, d: Word, e: Word)
    requires l.Length == 16 && i <= 11 && At(a0, b0, c0, d0, e0, l[..], h, data, i)
    modifies l
    ensures At(a, b, c, d, e, l[..], h, data, i + 5)
  {
    a, b, c, d, e := a0, b0, c0, d0, e0;
    b, e := R0(a, b, c, d, e, i, l, h, data);
    a, d := R0(e, a, b, c, d, i + 1, l, h, data);
    e, c := R0(d, e, a, b, c, i + 2, l, h, data);
    d, b := R0(c, d, e, a, b, i + 3, l, h, data);
    c, a := R0(b, c, d, e, a, i + 4, l, h, data);
  }

  method FiveR1(a0: Word, b0: Word, c0: Word, d0: Word, e0: Word, i: nat, l: array<Word>,
                ghost h: Regs, ghost data: seq<Byte>)
    returns (a: Word, b: Word, c: Word, d: Word, e: Word)
    requires l.Length == 16 && i == 15 && At(a0, b0, c0, d0, e0, l[..], h, data, i)
    modifies l
    ensures At(a, b, c, d, e, l[..], h, data, i + 5)
  {
    a, b, c, d, e := a0, b0, c0, d0, e0;
    b, e := R0(a, b, c, d, e, i, l, h, data);
    a, d := R1(e, a, b, c, d, i + 1, l, h, data);
    e, c := R1(d, e, a, b, c, i + 2, l, h, data);
    d, b := R1(c, d, e, a, b, i + 3, l, h, data);
    c, a := R1(b, c, d, e, a, i + 4, l, h, data);
  }

  method FiveR2(a0: Word, b0: Word, c0: Word, d0: Word, e0: Word, i: nat, l: array<Word>,
                ghost h: Regs, ghost data: seq<Byte>)
    returns (a: Word, b: Word, c: Word, d: Word, e: Word)
    requires l.Length == 16 && 20 <= i <= 35 && At(a0, b0, c0, d0, e0, l[..], h, data, i)
    modifies l
    ensures At(a, b, c, d, e, l[..], h, data, i + 5)
  {
    a, b, c, d, e := a0, b0, c0, d0, e0;
    b, e := R2(a, b, c, d, e, i, l, h, data);
    a, d := R2(e, a, b, c, d, i + 1, l, h, data);
    e, c := R2(d, e, a, b, c, i + 2, l, h, data);
    d, b := R2(c, d, e, a, b, i + 3, l, h, data);
    c, a := R2(b, c, d, e, a, i + 4, l, h, data);
  }

  method FiveR3(a0: Word, b0: Word, c0: Word, d0: Word, e0: Word, i: nat, l: array<Word>,
                ghost h: Regs, ghost data: seq<Byte>)
    returns (a: Word, b: Word, c: Word, d: Word, e: Word)
    requires l.Length == 16 && 40 <= i <= 55 && At(a0, b0, c0, d0, e0, l[..], h, data, i)
    modifies l
    ensures At(a, b, c, d, e, l[..], h, data, i + 5)
  {
    a, b, c, d, e := a0, b0, c0, d0, e0;
    b, e := R3(a, b, c, d, e, i, l, h, data);
    a, d := R3(e, a, b, c, d, i + 1, l, h, data);
    e, c := R3(d, e, a, b, c, i + 2, l, h, data);
    d, b := R3(c, d, e, a, b, i + 3, l, h, data);
    c, a := R3(b, c, d, e, a, i + 4, l, h, data);
  }

  method FiveR4(a0: Word, b0: Word, c0: Word, d0: Word, e0: Word, i: nat, l: array<Word>,
                ghost h: Regs, ghost data: seq<Byte>)
    returns (a: Word, b: Word, c: Word, d: Word, e: Word)
    requires l.Length == 16 && 60 <= i <= 75 && At(a0, b0, c0, d0, e0, l[..], h, data, i)
    modifies l
    ensures At(a, b, c, d, e, l[..], h, data, i + 5)
  {
    a, b, c, d, e := a0, b0, c0, d0, e0;
    b, e := R4(a, b, c, d, e, i, l, h, data);
    a, d := R4(e, a, b, c, d, i + 1, l, h, data);
    e, c := R4(d, e, a, b, c, i + 2, l, h, data);
    d, b := R4(c, d, e, a, b, i + 3, l, h, data);
    c, a := R4(b, c, d, e, a, i + 4, l, h, data);
  }

  method Twenty0(a0: Word, b0: Word, c0: Word, d0: Word, e0: Word, l: array<Word>, ghost h: Regs, ghost data: seq<Byte>)
    returns (a: Word, b: Word, c: Word, d: Word, e: Word)
    requires l.Length == 16 && At(a0, b0, c0, d0, e0, l[..], h, data, 0)
    modifies l
    ensures At(a, b, c, d, e, l[..], h, data, 20)
  {
    a, b, c, d, e := FiveR0(a0, b0, c0, d0, e0, 0, l, h, data);
    a, b, c, d, e := FiveR0(a, b, c, d, e, 5, l, h, data);
    a, b, c, d, e := FiveR0(a, b, c, d, e, 10, l, h, data);
    a, b, c, d, e := FiveR1(a, b, c, d, e, 15, l, h, data);
  }

  method Twenty1(a0: Word, b0: Word, c0: Word, d0: Word, e0: Word, l: array<Word>, ghost h: Regs, ghost data: seq<Byte>)
    returns (a: Word, b: Word, c: Word, d: Word, e: Word)
    requires l.Length == 16 && At(a0, b0, c0, d0, e0, l[..], h, data, 20)
    modifies l
    ensures At(a, b, c, d, e, l[..], h, data, 40)
  {
    a, b, c, d, e := FiveR2(a0, b0, c0, d0, e0, 20, l, h, data);
    a, b, c, d, e := FiveR2(a, b, c, d, e, 25, l, h, data);
    a, b, c, d, e := FiveR2(a, b, c, d, e, 30, l, h, data);
    a, b, c, d, e := FiveR2(a, b, c, d, e, 35, l, h, data);
  }

  method Twenty2(a0: Word, b0: Word, c0: Word, d0: Word, e0: Word, l: array<Word>, ghost h: Regs, ghost data: seq<Byte>)
    returns (a: Word, b: Word, c: Word, d: Word, e: Word)
    requires l.Length == 16 && At(a0, b0, c0, d0, e0, l[..], h, data, 40)
    modifies l
    ensures At(a, b, c, d, e, l[..], h, data, 60)
  {
    a, b, c, d, e := FiveR3(a0, b0, c0, d0, e0, 40, l, h, data);
    a, b, c, d, e := FiveR3(a, b, c, d, e, 45, l, h, data);
    a, b, c, d, e := FiveR3(a, b, c, d, e, 50, l, h, data);
    a, b, c, d, e := FiveR3(a, b, c, d, e, 55, l, h, data);
  }

  method Twenty3(a0: Word, b0: Word, c0: Word, d0: Word, e0: Word, l: array<Word>, ghost h: Regs, ghost data: seq<Byte>)
    returns (a: Word, b: Word, c: Word, d: Word, e: Word)
    requires l.Length == 16 && At(a0, b0, c0, d0, e0, l[..], h, data, 60)
    modifies l
    ensures At(a, b, c, d, e, l[..], h, data, 80)
  {
    a, b, c, d, e := FiveR4(a0, b0, c0, d0, e0, 60, l, h, data);
    a, b, c, d, e := FiveR4(a, b, c, d, e, 65, l, h, data);
    a, b, c, d, e := FiveR4(a, b, c, d, e, 70, l, h, data);
    a, b, c, d, e := FiveR4(a, b, c, d, e, 75, l, h, data);
  }

  function View(state: seq<Word>): Regs
    requires |state| == 5
  {
    Regs(state[0], state[1], state[2], state[3], state[4])
  }

  /** The block as a little-endian machine sees it through the union. */
  method Load(buffer: seq<Byte>) returns (l: array<Word>)
    requires |buffer| == BLOCK
    ensures fresh(l) && l.Length == 16 && Slots(l[..], buffer, 0)
  {
    l := new Word[16](_ => 0);
    var i := 0;
    while i < 16
      invariant 0 <= i <= 16
      invariant forall s :: 0 <= s < i ==> l[s] == LittleEndian(buffer, 4 * s)
    {
      l[i] := LittleEndian(buffer, 4 * i);
      i := i + 1;
    }
  }

  /** `SHA1_Transform` */
  method Transform(state: array<Word>, buffer: seq<Byte>)
    requires state.Length == 5 && |buffer| == BLOCK
    modifies state
    ensures View(state[..]) == Compress(View(old(state[..])), buffer)
  {
    ghost var h := View(state[..]);
    var l := Load(buffer);
    var a, b, c, d, e := Twenty0(state[0], state[1], state[2], state[3], state[4], l, h, buffer);
    a, b, c, d, e := Twenty1(a, b, c, d, e, l, h, buffer);
    a, b, c, d, e := Twenty2(a, b, c, d, e, l, h, buffer);
    a, b, c, d, e := Twenty3(a, b, c, d, e, l, h, buffer);
    state[0] := Plus(state[0], a);
    state[1] := Plus(state[1], b);
    state[2] := Plus(state[2], c);
    state[3] := Plus(state[3], d);
    state[4] := Plus(state[4], e);
  }
}

/** The bit counters of `rktio_sha1_ctx_t`. */
module Sha1Counters {
  import opened Counting
  import opened HashWords
  import opened Pieces

  /**
   * An update of `len` bytes carries once too often when `len << 3` does not fit 32 bits, because it
   * is compared with the low counter in the width of `len`, and the low counter did not wrap around.
   */
  function Excess(size: nat, len: nat): nat {
    if TWO32 <= len * 8 % TWO64 && size * 8 % TWO32 + len * 8 % TWO32 < TWO32 then 1 else 0
  }

  lemma ShortIsExact(size: nat, len: nat)
    requires len < 0x2000_0000
    ensures Excess(size, len) == 0
  {
  }

  /** The counters hold the number of bits, modulo 2^64, but for the carries in excess. */
  ghost predicate Counts(low: Word, high: Word, extra: nat, size: nat) {
    low + TWO32 * high == (size * 8 + TWO32 * extra) % TWO64
  }

  lemma LowCounter(low: Word, high: Word, extra: nat, size: nat)
    requires Counts(low, high, extra, size)
    ensures low == size * 8 % TWO32
  {
    DivModOf(size * 8 + TWO32 * extra, TWO32, size * 8 / TWO32 + extra, size * 8 % TWO32);
    LongOfWords(size * 8 + TWO32 * extra);
  }

  lemma WordsOf(low: Word, high: Word, n: nat)
    requires low + TWO32 * high == n % TWO64
    ensures low == n % TWO32 && high == n / TWO32 % TWO32
  {
    LongOfWords(n);
  }

  /** The comparison sees the carry, and the excess. */
  lemma CarrySeen(low: Word, size: nat, len: nat, low': Word)
    requires low == size * 8 % TWO32 && low' == (low + len * 8 % TWO64) % TWO32
    ensures var k := len * 8 % TWO32;
      var seen := if low' < len * 8 % TWO64 then 1 else 0;
      low + k == low' + TWO32 * (seen - Excess(size, len))
  {
    LowSum(low, len, low');
    LongOfWords(len * 8);
  }

  /** The count that the two statements of `SHA1_Update` leave in the counters. */
  lemma CountStep(
    low: Word, high: Word, extra: nat, size: nat, len: nat, bits: nat, low': Word, high': Word, seen: nat)
    requires Counts(low, high, extra, size) && bits == len * 8 % TWO64
    requires low' == (low + bits) % TWO32 && seen == if low' < bits then 1 else 0
    requires high' == (high + seen + len / 0x2000_0000) % TWO32
    ensures Counts(low', high', extra + Excess(size, len), size + len)
  {
    LowCounter(low, high, extra, size);
    CarrySeen(low, size, len, low');
    var n, n' := size * 8 + TWO32 * extra, (size + len) * 8 + TWO32 * (extra + Excess(size, len));
    LengthInBits(len);
    WrappedSum(low, high, n, low', high', seen + len / 0x2000_0000, n');
  }

  lemma TwoSteps(high: Word, seen: nat, high': Word, more: nat)
    requires seen < 2 && high' == (high + seen) % TWO32
    ensures (high' + more) % TWO32 == (high + seen + more) % TWO32
  {
    var sum := high + seen;
    var q, r := (high' + more) / TWO32, (high' + more) % TWO32;
    DivModOf(sum + more, TWO32, sum / TWO32 + q, r);
  }

  lemma LengthInBits(len: nat)
    ensures len * 8 == TWO32 * (len / 0x2000_0000) + len * 8 % TWO32
  {
    DivModOf(len * 8, TWO32, len / 0x2000_0000, len % 0x2000_0000 * 8);
  }

  lemma LowSum(low: Word, len: nat, low': Word)
    requires low' == (low + len * 8 % TWO64) % TWO32
    ensures low' == (low + len * 8 % TWO32) % TWO32
  {
    var b := len * 8 % TWO64;
    assert b % TWO32 == len * 8 % TWO32 by {
      LongOfWords(len * 8);
    }
    SumModulo(low, b);
  }

  lemma SumModulo(low: Word, b: nat)
    ensures (low + b) % TWO32 == (low + b % TWO32) % TWO32
  {
    var c, q := low + b % TWO32, b / TWO32;
    DivModOf(low + b, TWO32, q + c / TWO32, c % TWO32);
  }

  lemma WrappedSum(low: Word, high: Word, n: nat, low': Word, high': Word, step: nat, n': nat)
    requires low + TWO32 * high == n % TWO64 && high' == (high + step) % TWO32
    requires n' - n == low' - low + TWO32 * step
    ensures low' + TWO32 * high' == n' % TWO64
  {
    var q, w := n / TWO64, (high + step) / TWO32;
    assert n' == TWO64 * (q + w) + (low' + TWO32 * high');
    DivModOf(n', TWO64, q + w, low' + TWO32 * high');
  }
}

/** The context of `rktio_sha1_ctx_t`, with its three operations. */
module Sha1Contexts {
  import opened Counting
  import opened Sequences
  import opened HashWords
  import opened Pieces
  import opened Sha1Counters
  import opened Sha1Spec
  import Sha1Transform

  /** The hash value after the whole blocks of a message. */
  ghost predicate Hashed(state: array<Word>, iv: Regs, m: seq<Byte>)
    reads state
  {
    && state.Length == 5 && |m| % BLOCK == 0
    && Sha1Transform.View(state[..]) == HashBlocks(iv, m)
  }

  lemma HashOneMore(r: Regs, m: seq<Byte>, data: seq<Byte>)
    requires |m| % BLOCK == 0 && |data| == BLOCK
    ensures |m + data| % BLOCK == 0 && HashBlocks(r, m + data) == Compress(HashBlocks(r, m), data)
  {
    var all := m + data;
    assert all[..|all| - BLOCK] == m && all[|all| - BLOCK..] == data;
  }

  method Absorb(state: array<Word>, ghost iv: Regs, ghost m: seq<Byte>, data: seq<Byte>)
    requires Hashed(state, iv, m) && |data| == BLOCK
    modifies state
    ensures Hashed(state, iv, m + data)
  {
    HashOneMore(iv, m, data);
    Sha1Transform.Transform(state, data);
  }

  class Sha1 {
    var count0: Word
    var count1: Word
    const state: array<Word>
    const buffer: array<Byte>

    /** The bytes so far: whole blocks, in the hash value, and a last piece, in the buffer. */
    ghost var hashed: seq<Byte>
    ghost var tail: seq<Byte>
    /** How many carries too many the counters took. */
    ghost var extra: nat
    ghost const iv: Regs

    ghost function Msg(): seq<Byte>
      reads this`hashed, this`tail
    {
      hashed + tail
    }

    ghost predicate Shape() {
      state.Length == 5 && buffer.Length == BLOCK && (state as object) != buffer
    }

    ghost predicate Holds()
      requires Shape()
      reads this`hashed, this`tail, state, buffer
    {
      Hashed(state, iv, hashed) && |tail| < BLOCK && buffer[..|tail|] == tail
    }

    ghost predicate Valid()
      reads this, state, buffer
    {
      Shape() && Holds() && Counts(count0, count1, extra, |hashed| + |tail|)
    }

    /** `SHA1_Init` */
    constructor ()
      ensures Valid() && fresh(state) && fresh(buffer)
      ensures iv == IV && Msg() == [] && extra == 0
    {
      state := new Word[] [IV.a, IV.b, IV.c, IV.d, IV.e];
      buffer := new Byte[BLOCK](_ => 0);
      count0, count1 := 0, 0;
      hashed, tail, extra, iv := [], [], 0, IV;
    }

    /** The size of the last piece. */
    method Left(ghost size: nat) returns (left: nat)
      requires Shape() && Holds() && Counts(count0, count1, extra, size) && size == |hashed| + |tail|
      ensures left == |tail|
    {
      LowCounter(count0, count1, extra, size);
      LeftOver(|hashed|, |tail|, count0);
      left := count0 / 8 % BLOCK;
    }

    /** The counters step by `len` bytes, at most what a 64-bit size can say. */
    method Count(len: nat, ghost size: nat)
      requires Counts(count0, count1, extra, size) && len < TWO64
      modifies this`count0, this`count1, this`extra
      ensures Counts(count0, count1, extra, size + len)
      ensures extra == old(extra) + Excess(size, len)
    {
      var bits, seen := len * 8 % TWO64, 0;
      count0 := (count0 + bits) % TWO32;
      if count0 < bits {
        seen := 1;
        count1 := (count1 + 1) % TWO32;
      }
      TwoSteps(old(count1), seen, count1, len / 0x2000_0000);
      count1 := (count1 + len / 0x2000_0000) % TWO32;
      CountStep(old(count0), old(count1), extra, size, len, bits, count0, count1, seen);
      extra := extra + Excess(size, len);
    }

    /** The buffer is filled up and hashed. */
    method TopUp(j: nat, head: seq<Byte>)
      requires Shape() && Holds() && j == |tail| && j + |head| == BLOCK
      modifies this`hashed, this`tail, state, buffer
      ensures Holds() && Msg() == old(Msg()) + head && tail == []
    {
      Copy(buffer, j, head);
      assert buffer[..] == tail + head;
      Absorb(state, iv, hashed, buffer[..]);
      Associate(hashed, tail, head);
      hashed, tail := hashed + (tail + head), [];
    }

    /** Whole blocks are hashed where they are. */
    method Blocks(data: seq<Byte>) returns (rest: seq<Byte>)
      requires Shape() && Holds() && tail == []
      modifies this`hashed, state
      ensures Holds() && Msg() + rest == old(Msg()) + data && |rest| < BLOCK
    {
      rest := data;
      while |rest| >= BLOCK
        invariant Holds() && Msg() + rest == old(Msg()) + data
      {
        var block := rest[..BLOCK];
        BlockMoves(hashed, tail, block, rest);
        Absorb(state, iv, hashed, block);
        hashed, rest := hashed + block, rest[BLOCK..];
      }
    }

    /** The last piece stays in the buffer. */
    method Keep(j: nat, rest: seq<Byte>)
      requires Shape() && Holds() && j == |tail| && j + |rest| < BLOCK
      modifies this`tail, buffer
      ensures Holds() && Msg() == old(Msg()) + rest
    {
      Associate(hashed, tail, rest);
      Copy(buffer, j, rest);
      tail := tail + rest;
    }

    method Take(data: seq<Byte>, j: nat)
      requires Shape() && Holds() && j == |tail|
      modifies this`hashed, this`tail, state, buffer
      ensures Holds() && Msg() == old(Msg()) + data
    {
      if j + |data| > 63 {
        var head, rest := data[..64 - j], data[64 - j..];
        ghost var m := Msg();
        TopUp(j, head);
        TakeRest(rest);
        TwoParts(m, data, 64 - j);
      } else {
        Keep(j, data);
      }
    }

    method TakeRest(data: seq<Byte>)
      requires Shape() && Holds() && tail == []
      modifies this`hashed, this`tail, state, buffer
      ensures Holds() && Msg() == old(Msg()) + data
    {
      var rest := Blocks(data);
      Keep(0, rest);
    }

    /** `SHA1_Update` */
    method Update(data: seq<Byte>)
      requires Valid() && |data| < TWO64
      modifies this, state, buffer
      ensures Valid() && Msg() == old(Msg()) + data
      ensures extra == old(extra) + Excess(|old(Msg())|, |data|)
    {
      ghost var m := Msg();
      assert |m| == |hashed| + |tail|;
      CountAndTake(data, |hashed| + |tail|);
      SizeOfMsg(m, data);
    }

    method CountAndTake(data: seq<Byte>, ghost size: nat)
      requires Shape() && Holds() && Counts(count0, count1, extra, size) && size == |hashed| + |tail|
      requires |data| < TWO64
      modifies this, state, buffer
      ensures Holds() && Msg() == old(Msg()) + data
      ensures Counts(count0, count1, extra, size + |data|)
      ensures extra == old(extra) + Excess(size, |data|)
    {
      var j := Left(size);
      Count(|data|, size);
      Take(data, j);
    }

    lemma SizeOfMsg(before: seq<Byte>, data: seq<Byte>)
      requires Msg() == before + data
      ensures |hashed| + |tail| == |before| + |data|
    {
      assert |Msg()| == |hashed| + |tail|;
    }

    /** One byte of padding. */
    method PadByte(b: Byte)
      requires Valid()
      modifies this, state, buffer
      ensures Valid() && Msg() == old(Msg()) + [b] && extra == old(extra)
    {
      ShortIsExact(|Msg()|, 1);
      Update([b]);
    }

    /** The test of the padding loop. */
    method AtCount() returns (at: bool)
      requires Valid()
      ensures at <==> Distance(|Msg()|) == 0
    {
      AtCountIs(hashed, tail, count0, extra, count1);
      at := And(count0, 504) == 448;
    }

    method PadZero(ghost front: seq<Byte>, ghost z: nat, ghost wanted: nat)
      requires Valid() && Padded(Msg(), front, z, wanted) && Distance(|Msg()|) != 0
      modifies this, state, buffer
      ensures Valid() && extra == old(extra) && Padded(Msg(), front, z + 1, wanted)
    {
      PaddedMore(Msg(), front, z, wanted);
      PadByte(0);
    }

    method PadFirst(ghost msg: seq<Byte>)
      requires Valid() && Msg() == msg
      modifies this, state, buffer
      ensures Valid() && extra == old(extra) && Padded(Msg(), msg + [0x80], 0, ZeroCount(|msg|))
    {
      FirstDistance(|msg|);
      PadByte(0x80);
    }

    /** The padding, a byte at a time, up to 56 bytes into a block. */
    method PadOut()
      requires Valid()
      modifies this, state, buffer
      ensures Valid() && extra == old(extra)
      ensures Msg() == old(Msg()) + [0x80] + Zeros(ZeroCount(old(|Msg()|)))
    {
      ghost var z, front, wanted := 0, Msg() + [0x80], ZeroCount(|Msg()|);
      PadFirst(Msg());
      var at := AtCount();
      while !at
        invariant Valid() && extra == old(extra) && Padded(Msg(), front, z, wanted)
        invariant at <==> Distance(|Msg()|) == 0
        decreases wanted - z
      {
        PadZero(front, z, wanted);
        z := z + 1;
        at := AtCount();
      }
    }

    method PadAndCount(ghost length: nat)
      requires Valid() && length == |Msg()| + 0x2000_0000 * extra
      modifies this, state, buffer
      ensures Valid() && Msg() == Pad(old(Msg()), length)
    {
      var finalcount := WordBytes(count1) + WordBytes(count0);
      WordsOf(count0, count1, length * 8);
      PadOut();
      Update(finalcount);
    }

    /** `SHA1_Final` */
    method Final(digest: array<Byte>, ghost length: nat)
      requires Valid() && length == |Msg()| + 0x2000_0000 * extra
      requires digest.Length == 20 && digest != buffer && (digest as object) != state
      modifies this, state, buffer, digest
      ensures digest[..] == Digest(HashBlocks(iv, Pad(old(Msg()), length)))
      ensures count0 == count1 == 0 && buffer[..] == Zeros(BLOCK)
    {
      PadAndCount(length);
      WholeBlocks(hashed, tail);
      PutDigest(state, digest);
      Wipe();
    }

    /** The variables are cleared, and one more block is hashed to overwrite the workspace. */
    method Wipe()
      requires Shape()
      modifies this`count0, this`count1, state, buffer
      ensures count0 == count1 == 0 && buffer[..] == Zeros(BLOCK)
    {
      forall i | 0 <= i < BLOCK {
        buffer[i] := 0;
      }
      forall i | 0 <= i < 5 {
        state[i] := 0;
      }
      count0, count1 := 0, 0;
      Sha1Transform.Transform(state, buffer[..]);
    }
  }

  /** How many bytes there are to 56 bytes into a block. */
  function Distance(size: nat): (d: nat)
    ensures d < BLOCK
  {
    var left := size % BLOCK;
    if left <= 56 then 56 - left else 120 - left
  }

  lemma FirstDistance(size: nat)
    ensures Distance(size + 1) == ZeroCount(size)
  {
    NextRemainder(size);
  }

  lemma NextRemainder(size: nat)
    ensures (size + 1) % BLOCK == if size % BLOCK == 63 then 0 else size % BLOCK + 1
  {
    var q, r := size / BLOCK, size % BLOCK;
    if r == 63 {
      DivModOf(size + 1, BLOCK, q + 1, 0);
    } else {
      DivModOf(size + 1, BLOCK, q, r + 1);
    }
  }

  lemma NextDistance(size: nat)
    requires Distance(size) != 0
    ensures Distance(size + 1) == Distance(size) - 1
  {
    NextRemainder(size);
  }

  /** Of the zeros that the padding wants after `front`, `z` are there. */
  ghost predicate Padded(m: seq<Byte>, front: seq<Byte>, z: nat, wanted: nat) {
    m == front + Zeros(z) && z + Distance(|m|) == wanted
  }

  lemma PaddedMore(m: seq<Byte>, front: seq<Byte>, z: nat, wanted: nat)
    requires Padded(m, front, z, wanted) && Distance(|m|) != 0
    ensures Padded(m + [0], front, z + 1, wanted)
  {
    NextDistance(|m|);
  }

  /** The bits of 504 are those of the byte count within a block. */
  lemma MaskedCount(low: Word)
    ensures And(low, 504) == low / 8 % BLOCK * 8
  {
    var bytes := low / 8;
    MaskParts(low % 8, bytes, bytes % BLOCK, bytes / BLOCK, low);
  }

  lemma MaskPowers()
    ensures Pow2(3) == 8 && Pow2(6) == BLOCK
  {
    assert Pow2(3) == 8;
  }

  lemma MaskParts(bits: nat, bytes: nat, inBlock: nat, blocks: nat, low: nat)
    requires bits < 8 && low == bits + 8 * bytes && inBlock < BLOCK && bytes == inBlock + BLOCK * blocks
    ensures AndBits(32, low, 504) == inBlock * 8
  {
    MaskPowers();
    AndJoin(3, 29, bits, bytes, 0, 63);
    AndZero(3, bits);
    MaskBlock(inBlock, blocks, bytes);
  }

  lemma MaskBlock(inBlock: nat, blocks: nat, bytes: nat)
    requires inBlock < BLOCK && bytes == inBlock + BLOCK * blocks
    ensures AndBits(29, bytes, 63) == inBlock
  {
    MaskPowers();
    AndJoin(6, 23, inBlock, blocks, 63, 0);
    AndOnes(6, inBlock);
    AndZero(23, blocks);
  }

  lemma AtCountIs(hashed: seq<Byte>, tail: seq<Byte>, low: Word, extra: nat, high: Word)
    requires Counts(low, high, extra, |hashed| + |tail|) && |hashed| % BLOCK == 0 && |tail| < BLOCK
    ensures And(low, 504) == 448 <==> Distance(|hashed + tail|) == 0
  {
    MaskedCount(low);
    LowCounter(low, high, extra, |hashed| + |tail|);
    LeftOver(|hashed|, |tail|, low);
  }

  method PutDigest(state: array<Word>, digest: array<Byte>)
    requires state.Length == 5 && digest.Length == 20 && (digest as object) != state
    modifies digest
    ensures digest[..] == Digest(Sha1Transform.View(state[..]))
  {
    PutFour(state[0], state[1], state[2], state[3], digest);
    PutWord(state[4], digest, 16);
    assert digest[..] == digest[..20];
  }

  lemma LeftOver(hashed: nat, left: nat, low: Word)
    requires hashed % BLOCK == 0 && left < BLOCK && low == (hashed + left) * 8 % TWO32
    ensures low / 8 % BLOCK == left == (hashed + left) % BLOCK
  {
    var size := hashed + left;
    var q, r := size / 0x2000_0000, size % 0x2000_0000;
    DivModOf(size * 8, TWO32, q, r * 8);
    assert low / 8 == r;
    assert size % BLOCK == left;
    LowBitsStay(size);
  }

  lemma LowBitsStay(size: nat)
    ensures size % 0x2000_0000 % BLOCK == size % BLOCK
  {
    var q, r := size / 0x2000_0000, size % 0x2000_0000;
    DivModOf(size, BLOCK, 0x80_0000 * q + r / BLOCK, r % BLOCK);
  }
}

/** Hashing a message that arrives in pieces. */
module Sha1Runs {
  import opened HashWords
  import opened Pieces
  import opened Sha1Contexts
  import opened Sha1Counters
  import opened Sha1Spec

  /** The carries in excess over a whole run. */
  function Extras(chunks: seq<seq<Byte>>): nat {
    if chunks == [] then 0
    else
      var before := chunks[..|chunks| - 1];
      Extras(before) + Excess(|Concat(before)|, |chunks[|chunks| - 1]|)
  }

  /** The length that the padding records. */
  function Counted(chunks: seq<seq<Byte>>): nat {
    |Concat(chunks)| + 0x2000_0000 * Extras(chunks)
  }

  lemma {:induction false} ShortPiecesCountRight(chunks: seq<seq<Byte>>)
    requires forall c <- chunks :: |c| < 0x2000_0000
    ensures Extras(chunks) == 0
  {
    if chunks != [] {
      ShortPiecesCountRight(chunks[..|chunks| - 1]);
      ShortIsExact(|Concat(chunks[..|chunks| - 1])|, |chunks[|chunks| - 1]|);
    }
  }

  lemma ShortPiecesHash(chunks: seq<seq<Byte>>)
    ensures (forall c <- chunks :: |c| < 0x2000_0000) ==>
              HashWithLength(Concat(chunks), Counted(chunks)) == Hash(Concat(chunks))
  {
    if forall c <- chunks :: |c| < 0x2000_0000 {
      ShortPiecesCountRight(chunks);
    }
  }

  lemma OneMorePiece(chunks: seq<seq<Byte>>, c: seq<Byte>)
    ensures Concat(chunks + [c]) == Concat(chunks) + c
    ensures Extras(chunks + [c]) == Extras(chunks) + Excess(|Concat(chunks)|, |c|)
  {
    assert (chunks + [c])[..|chunks|] == chunks;
  }

  /** A context that has taken in these pieces. */
  ghost predicate Took(ctx: Sha1, chunks: seq<seq<Byte>>)
    reads ctx, ctx.state, ctx.buffer
  {
    ctx.Valid() && ctx.Msg() == Concat(chunks) && ctx.extra == Extras(chunks)
  }

  method UpdateOne(ctx: Sha1, ghost taken: seq<seq<Byte>>, c: seq<Byte>)
    requires Took(ctx, taken) && |c| < TWO64
    modifies ctx, ctx.state, ctx.buffer
    ensures Took(ctx, taken + [c])
  {
    OneMorePiece(taken, c);
    ctx.Update(c);
  }

  /** One update for each piece. */
  method UpdateAll(ctx: Sha1, chunks: seq<seq<Byte>>, ghost taken: seq<seq<Byte>>)
    requires Took(ctx, taken) && forall c <- chunks :: |c| < TWO64
    modifies ctx, ctx.state, ctx.buffer
    ensures Took(ctx, taken + chunks)
    decreases |chunks|
  {
    if chunks == [] {
      assert taken + chunks == taken;
    } else {
      UpdateOne(ctx, taken, chunks[0]);
      FirstThenRest(taken, chunks);
      UpdateAll(ctx, chunks[1..], taken + [chunks[0]]);
    }
  }

  method FinishRun(ctx: Sha1, ghost chunks: seq<seq<Byte>>) returns (digest: seq<Byte>)
    requires Took(ctx, chunks)
    modifies ctx, ctx.state, ctx.buffer
    ensures digest == Digest(HashBlocks(ctx.iv, Pad(Concat(chunks), Counted(chunks))))
  {
    var output := new Byte[20](_ => 0);
    ctx.Final(output, Counted(chunks));
    digest := output[..];
  }

  /**
   * Initialize, update with each piece, finish. The digest is that of the concatenation, whatever the
   * pieces are, with a length field that is exact when every piece is shorter than 2^29 bytes.
   */
  method DigestOf(chunks: seq<seq<Byte>>) returns (digest: seq<Byte>)
    requires forall c <- chunks :: |c| < TWO64
    ensures digest == HashWithLength(Concat(chunks), Counted(chunks))
    ensures (forall c <- chunks :: |c| < 0x2000_0000) ==> digest == Hash(Concat(chunks))
  {
    var ctx := new Sha1();
    UpdateAll(ctx, chunks, []);
    assert [] + chunks == chunks;
    digest := FinishRun(ctx, chunks);
    ShortPiecesHash(chunks);
  }

  /** Exactly when the padding, and so the input of the compression function, is the standard's. */
  lemma PaddedRightIff(chunks: seq<seq<Byte>>)
    ensures Pad(Concat(chunks), Counted(chunks)) == Pad(Concat(chunks), |Concat(chunks)|)
            <==> Extras(chunks) % TWO32 == 0
  {
    SamePaddingIff(Concat(chunks), |Concat(chunks)|, Counted(chunks), Extras(chunks));
  }

  /** One piece of 2^29 bytes is enough for a wrong length field. */
  lemma LongPieceMiscounts(piece: seq<Byte>)
    requires |piece| == 0x2000_0000
    ensures Pad(piece, Counted([piece])) != Pad(piece, |piece|)
  {
    assert [piece][..0] == [];
    assert Concat([piece]) == piece && Extras([piece]) == 1;
    PaddedRightIff([piece]);
  }
}
