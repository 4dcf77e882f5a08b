/** SHA-224 and SHA-256: the definitions of FIPS 180-4, and `rktio_sha2.c`. */

module Sha2Spec {
  import opened HashWords

  // Section 4.1.2 of FIPS 180-4

  function BigSigma0(x: Word): Word { Xor(Xor(Rotr(x, 2), Rotr(x, 13)), Rotr(x, 22)) }
  function BigSigma1(x: Word): Word { Xor(Xor(Rotr(x, 6), Rotr(x, 11)), Rotr(x, 25)) }
  function SmallSigma0(x: Word): Word { Xor(Xor(Rotr(x, 7), Rotr(x, 18)), Shr(x, 0x8)) }
  function SmallSigma1(x: Word): Word { Xor(Xor(Rotr(x, 17), Rotr(x, 19)), Shr(x, 0x400)) }

  // Section 4.2.2

  function KRow(i: nat): (row: seq<Word>)
    ensures |row| == 8
  {
    match i
    case 0 => [0x428A2F98, 0x71374491, 0xB5C0FBCF, 0xE9B5DBA5, 0x3956C25B, 0x59F111F1, 0x923F82A4, 0xAB1C5ED5]
    case 1 => [0xD807AA98, 0x12835B01, 0x243185BE, 0x550C7DC3, 0x72BE5D74, 0x80DEB1FE, 0x9BDC06A7, 0xC19BF174]
    case 2 => [0xE49B69C1, 0xEFBE4786, 0x0FC19DC6, 0x240CA1CC, 0x2DE92C6F, 0x4A7484AA, 0x5CB0A9DC, 0x76F988DA]
    case 3 => [0x983E5152, 0xA831C66D, 0xB00327C8, 0xBF597FC7, 0xC6E00BF3, 0xD5A79147, 0x06CA6351, 0x14292967]
    case 4 => [0x27B70A85, 0x2E1B2138, 0x4D2C6DFC, 0x53380D13, 0x650A7354, 0x766A0ABB, 0x81C2C92E, 0x92722C85]
    case 5 => [0xA2BFE8A1, 0xA81A664B, 0xC24B8B70, 0xC76C51A3, 0xD192E819, 0xD6990624, 0xF40E3585, 0x106AA070]
    case 6 => [0x19A4C116, 0x1E376C08, 0x2748774C, 0x34B0BCB5, 0x391C0CB3, 0x4ED8AA4A, 0x5B9CCA4F, 0x682E6FF3]
    case _ => [0x748F82EE, 0x78A5636F, 0x84C87814, 0x8CC70208, 0x90BEFFFA, 0xA4506CEB, 0xBEF9A3F7, 0xC67178F2]
  }

  function K(t: nat): Word {
    KRow(t / 8)[t % 8]
  }

  /** The working variables, and the hash value. */
  datatype Regs = Regs(a: Word, b: Word, c: Word, d: Word, e: Word, f: Word, g: Word, h: Word)

  // Sections 5.3.2 and 5.3.3

  const IV224 := Regs(0xC1059ED8, 0x367CD507, 0x3070DD17, 0xF70E5939, 0xFFC00B31, 0x68581511, 0x64F98FA7, 0xBEFA4FA4)
  const IV256 := Regs(0x6A09E667, 0xBB67AE85, 0x3C6EF372, 0xA54FF53A, 0x510E527F, 0x9B05688C, 0x1F83D9AB, 0x5BE0CD19)

  function Initial(is224: bool): Regs {
    if is224 then IV224 else IV256
  }

  // Section 6.2.2

  /** The first `n` words of the message schedule. */
  function Schedule(block: seq<Byte>, n: nat): (w: seq<Word>)
    requires |block| == BLOCK && n <= 64
    ensures |w| == n
  {
    if n == 0 then []
    else
      var w := Schedule(block, n - 1);
      var t := n - 1;
      w + [if t < 16 then BigEndian(block, 4 * t)
           else Plus(Plus(Plus(SmallSigma1(w[t - 2]), w[t - 7]), SmallSigma0(w[t - 15])), w[t - 16])]
  }

  lemma {:induction false} SchedulePrefix(block: seq<Byte>, m: nat, n: nat)
    requires |block| == BLOCK && m <= n <= 64
    ensures Schedule(block, n)[..m] == Schedule(block, m)
  {
    if m < n {
      SchedulePrefix(block, m, n - 1);
      assert Schedule(block, n)[..m] == Schedule(block, n - 1)[..m];
    }
  }

  /** The words of the whole schedule, in terms of each other. */
  lemma ScheduledWord(block: seq<Byte>, t: nat)
    requires |block| == BLOCK && t < 64
    ensures var w := Schedule(block, 64);
      w[t] == if t < 16 then BigEndian(block, 4 * t)
              else Plus(Plus(Plus(SmallSigma1(w[t - 2]), w[t - 7]), SmallSigma0(w[t - 15])), w[t - 16])
  {
    var w := Schedule(block, 64);
    SchedulePrefix(block, t + 1, 64);
    SchedulePrefix(block, t, 64);
    assert w[t] == w[..t + 1][t];
    if t >= 16 {
      assert w[..t][t - 2] == w[t - 2] && w[..t][t - 7] == w[t - 7];
      assert w[..t][t - 15] == w[t - 15] && w[..t][t - 16] == w[t - 16];
    }
  }

  function T1(h: Word, e: Word, f: Word, g: Word, k: Word, w: Word): Word {
    Plus(Plus(Plus(Plus(h, BigSigma1(e)), Ch(e, f, g)), k), w)
  }

  function T2(a: Word, b: Word, c: Word): Word {
    Plus(BigSigma0(a), Maj(a, b, c))
  }

  function Shift(r: Regs, t1: Word, t2: Word): Regs {
    Regs(Plus(t1, t2), r.a, r.b, r.c, Plus(r.d, t1), r.e, r.f, r.g)
  }

  function Round(r: Regs, k: Word, w: Word): Regs {
    Shift(r, T1(r.h, r.e, r.f, r.g, k, w), T2(r.a, r.b, r.c))
  }

  function Rounds(r: Regs, w: seq<Word>, n: nat): Regs
    requires n <= |w|
  {
    if n == 0 then r else Round(Rounds(r, w, n - 1), K(n - 1), w[n - 1])
  }

  function AddRegs(x: Regs, y: Regs): Regs {
    Regs(Plus(x.a, y.a), Plus(x.b, y.b), Plus(x.c, y.c), Plus(x.d, y.d),
         Plus(x.e, y.e), Plus(x.f, y.f), Plus(x.g, y.g), Plus(x.h, y.h))
  }

  function Compress(r: Regs, block: seq<Byte>): Regs
    requires |block| == BLOCK
  {
    AddRegs(r, Rounds(r, Schedule(block, 64), 64))
  }

  function HashBlocks(r: Regs, m: seq<Byte>): Regs
    requires |m| % BLOCK == 0
    decreases |m|
  {
    if m == [] then r else Compress(HashBlocks(r, m[..|m| - BLOCK]), m[|m| - BLOCK..])
  }

  function Digest(is224: bool, r: Regs): (d: seq<Byte>)
    ensures |d| == if is224 then 28 else 32
  {
    WordBytes(r.a) + WordBytes(r.b) + WordBytes(r.c) + WordBytes(r.d)
    + WordBytes(r.e) + WordBytes(r.f) + WordBytes(r.g) + (if is224 then [] else WordBytes(r.h))
  }

  /** The hash of a whole message, with the length that its padding records. */
  function HashWithLength(is224: bool, msg: seq<Byte>, length: nat): seq<Byte> {
    Digest(is224, HashBlocks(Initial(is224), Pad(msg, length)))
  }

  /** SHA-224 or SHA-256 of a message. */
  function Hash(is224: bool, msg: seq<Byte>): seq<Byte> {
    HashWithLength(is224, msg, |msg|)
  }
}

/** `mbedtls_internal_sha256_process`: the unrolled rounds over `A` and `W`. */
module Sha2Process {
  import opened Counting
  import opened HashWords
  import opened Sha2Spec

  // the macros

  function ROTR(x: Word, n: nat): Word
    requires n <= 32
  {
    Or(Shr(x, Pow2(n)), Shl(x, Pow2(32 - n)))
  }

  function SHR(x: Word, n: nat): Word { Shr(x, Pow2(n)) }

  function S0(x: Word): Word { Xor(Xor(ROTR(x, 7), ROTR(x, 18)), SHR(x, 3)) }
  function S1(x: Word): Word { Xor(Xor(ROTR(x, 17), ROTR(x, 19)), SHR(x, 10)) }
  function S2(x: Word): Word { Xor(Xor(ROTR(x, 2), ROTR(x, 13)), ROTR(x, 22)) }
  function S3(x: Word): Word { Xor(Xor(ROTR(x, 6), ROTR(x, 11)), ROTR(x, 25)) }

  /** The four macros with shifts are the standard's functions. */
  lemma ShiftsAreStandard(x: Word)
    ensures S0(x) == SmallSigma0(x) && S1(x) == SmallSigma1(x)
    ensures S2(x) == BigSigma0(x) && S3(x) == BigSigma1(x)
  {
    RotrIsShifts(x, 7);
    RotrIsShifts(x, 18);
    RotrIsShifts(x, 17);
    RotrIsShifts(x, 19);
    RotrIsShifts(x, 2);
    RotrIsShifts(x, 13);
    RotrIsShifts(x, 22);
    RotrIsShifts(x, 6);
    RotrIsShifts(x, 11);
    RotrIsShifts(x, 25);
    assert Pow2(3) == 8 && Pow2(10) == 0x400;
  }

  function F0(x: Word, y: Word, z: Word): Word { Or(And(x, y), And(z, Or(x, y))) }
  function F1(x: Word, y: Word, z: Word): Word { Xor(z, And(x, Xor(y, z))) }

  /** The two shortened bit functions are the standard's. */
  lemma MacrosAreStandard(x: Word, y: Word, z: Word)
    ensures F0(x, y, z) == Maj(x, y, z)
    ensures F1(x, y, z) == Ch(x, y, z)
  {
    WordSize();
    MajBits(32, x, y, z);
    ChBits(32, x, y, z);
  }

  /** The working variables when `A[r]` plays the part of `a`. */
  function View(s: seq<Word>, r: nat): Regs
    requires |s| == 8 && r < 8
  {
    match r
    case 0 => Regs(s[0], s[1], s[2], s[3], s[4], s[5], s[6], s[7])
    case 1 => Regs(s[1], s[2], s[3], s[4], s[5], s[6], s[7], s[0])
    case 2 => Regs(s[2], s[3], s[4], s[5], s[6], s[7], s[0], s[1])
    case 3 => Regs(s[3], s[4], s[5], s[6], s[7], s[0], s[1], s[2])
    case 4 => Regs(s[4], s[5], s[6], s[7], s[0], s[1], s[2], s[3])
    case 5 => Regs(s[5], s[6], s[7], s[0], s[1], s[2], s[3], s[4])
    case 6 => Regs(s[6], s[7], s[0], s[1], s[2], s[3], s[4], s[5])
    case _ => Regs(s[7], s[0], s[1], s[2], s[3], s[4], s[5], s[6])
  }

  /** What the macro `P` does to the array, with its eight entries given by index. */
  function AfterP(s: seq<Word>, a: nat, b: nat, c: nat, d: nat, e: nat, f: nat, g: nat, h: nat, x: Word, k: Word): seq<Word>
    requires |s| == 8 && a < 8 && b < 8 && c < 8 && d < 8 && e < 8 && f < 8 && g < 8 && h < 8
  {
    var t1 := T1(s[h], s[e], s[f], s[g], k, x);
    s[d := Plus(s[d], t1)][h := Plus(t1, T2(s[a], s[b], s[c]))]
  }

  method P(A: array<Word>, a: nat, b: nat, c: nat, d: nat, e: nat, f: nat, g: nat, h: nat, x: Word, k: Word)
    requires A.Length == 8 && a < 8 && b < 8 && c < 8 && d < 8 && e < 8 && f < 8 && g < 8 && h < 8 && d != h
    modifies A
    ensures A[..] == AfterP(old(A[..]), a, b, c, d, e, f, g, h, x, k)
  {
    var temp1 := Plus(Plus(Plus(Plus(A[h], S3(A[e])), F1(A[e], A[f], A[g])), k), x);
    var temp2 := Plus(S2(A[a]), F0(A[a], A[b], A[c]));
    ShiftsAreStandard(A[e]);
    ShiftsAreStandard(A[a]);
    MacrosAreStandard(A[e], A[f], A[g]);
    MacrosAreStandard(A[a], A[b], A[c]);
    A[d] := Plus(A[d], temp1);
    A[h] := Plus(temp1, temp2);
  }

  /** The macro as it is used: `A[r]` is the first of the eight, in order. */
  function Turn(s: seq<Word>, r: nat, x: Word, k: Word): seq<Word>
    requires |s| == 8 && r < 8
  {
    match r
    case 0 => AfterP(s, 0, 1, 2, 3, 4, 5, 6, 7, x, k)
    case 1 => AfterP(s, 1, 2, 3, 4, 5, 6, 7, 0, x, k)
    case 2 => AfterP(s, 2, 3, 4, 5, 6, 7, 0, 1, x, k)
    case 3 => AfterP(s, 3, 4, 5, 6, 7, 0, 1, 2, x, k)
    case 4 => AfterP(s, 4, 5, 6, 7, 0, 1, 2, 3, x, k)
    case 5 => AfterP(s, 5, 6, 7, 0, 1, 2, 3, 4, x, k)
    case 6 => AfterP(s, 6, 7, 0, 1, 2, 3, 4, 5, x, k)
    case _ => AfterP(s, 7, 0, 1, 2, 3, 4, 5, 6, x, k)
  }

  /** A turn of the register names does what shifting the registers does. */
  lemma TurnIsRound(s: seq<Word>, r: nat, x: Word, k: Word)
    requires |s| == 8 && r < 8
    ensures View(Turn(s, r, x, k), if r == 0 then 7 else r - 1) == Round(View(s, r), k, x)
  {
  }

  /** The first `n` words of the schedule are in `W`. */
  ghost predicate Filled(W: array<Word>, block: seq<Byte>, n: nat)
    requires W.Length == 64 && |block| == BLOCK && n <= 64
    reads W
  {
    forall t :: 0 <= t < n ==> W[t] == Schedule(block, 64)[t]
  }

  /** The macro `R` */
  method R(W: array<Word>, t: nat, ghost block: seq<Byte>) returns (w: Word)
    requires W.Length == 64 && |block| == BLOCK && 16 <= t < 64 && Filled(W, block, t)
    modifies W
    ensures Filled(W, block, t + 1) && w == Schedule(block, 64)[t]
  {
    ScheduledWord(block, t);
    ShiftsAreStandard(W[t - 2]);
    ShiftsAreStandard(W[t - 15]);
    w := Plus(Plus(Plus(S1(W[t - 2]), W[t - 7]), S0(W[t - 15])), W[t - 16]);
    W[t] := w;
  }

  /** One use of `P`: the registers move on by one round. */
  method Step(A: array<Word>, r: nat, x: Word, t: nat, ghost r0: Regs, ghost w: seq<Word>)
    requires A.Length == 8 && r < 8 && t < 64 && |w| == 64 && x == w[t]
    requires View(A[..], r) == Rounds(r0, w, t)
    modifies A
    ensures View(A[..], if r == 0 then 7 else r - 1) == Rounds(r0, w, t + 1)
  {
    TurnIsRound(A[..], r, x, K(t));
    match r {
      case 0 => P(A, 0, 1, 2, 3, 4, 5, 6, 7, x, K(t));
      case 1 => P(A, 1, 2, 3, 4, 5, 6, 7, 0, x, K(t));
      case 2 => P(A, 2, 3, 4, 5, 6, 7, 0, 1, x, K(t));
      case 3 => P(A, 3, 4, 5, 6, 7, 0, 1, 2, x, K(t));
      case 4 => P(A, 4, 5, 6, 7, 0, 1, 2, 3, x, K(t));
      case 5 => P(A, 5, 6, 7, 0, 1, 2, 3, 4, x, K(t));
      case 6 => P(A, 6, 7, 0, 1, 2, 3, 4, 5, x, K(t));
      case _ => P(A, 7, 0, 1, 2, 3, 4, 5, 6, x, K(t));
    }
  }

  /** `mbedtls_internal_sha256_process` */
  method Process(state: array<Word>, data: seq<Byte>)
    requires state.Length == 8 && |data| == BLOCK
    modifies state
    ensures View(state[..], 0) == Compress(View(old(state[..]), 0), data)
  {
    ghost var h, w := View(state[..], 0), Schedule(data, 64);
    var W := new Word[64](_ => 0);
    var A := Copy(state);
    FirstWords(W, data);
    FirstRounds(A, W, h, data);
    MoreRounds(A, W, h, data);
    AddState(state, A);
  }

  method Copy(state: array<Word>) returns (A: array<Word>)
    requires state.Length == 8
    ensures fresh(A) && A[..] == state[..]
  {
    A := new Word[8](_ => 0);
    var i := 0;
    while i < 8
      invariant 0 <= i <= 8 && A[..i] == state[..i]
    {
      A[i] := state[i];
      i := i + 1;
    }
    assert A[..] == state[..];
  }

  method FirstWords(W: array<Word>, data: seq<Byte>)
    requires W.Length == 64 && |data| == BLOCK
    modifies W
    ensures Filled(W, data, 16)
  {
    var i := 0;
    while i < 16
      invariant 0 <= i <= 16 && Filled(W, data, i)
    {
      ScheduledWord(data, i);
      W[i] := BigEndian(data, 4 * i);
      i := i + 1;
    }
  }

  /** Four uses of `P`, whose first register is `A[r]`. */
  method FourSteps(A: array<Word>, W: array<Word>, r: nat, t: nat, ghost h: Regs, ghost data: seq<Byte>)
    requires A.Length == 8 && W.Length == 64 && A != W && |data| == BLOCK
    requires (r == 0 || r == 4) && t + 4 <= 64 && Filled(W, data, t + 4)
    requires View(A[..], r) == Rounds(h, Schedule(data, 64), t)
    modifies A
    ensures View(A[..], if r == 0 then 4 else 0) == Rounds(h, Schedule(data, 64), t + 4)
  {
    ghost var w := Schedule(data, 64);
    if r == 0 {
      Step(A, 0, W[t], t, h, w);
      Step(A, 7, W[t + 1], t + 1, h, w);
      Step(A, 6, W[t + 2], t + 2, h, w);
      Step(A, 5, W[t + 3], t + 3, h, w);
    } else {
      Step(A, 4, W[t], t, h, w);
      Step(A, 3, W[t + 1], t + 1, h, w);
      Step(A, 2, W[t + 2], t + 2, h, w);
      Step(A, 1, W[t + 3], t + 3, h, w);
    }
  }

  method FirstRounds(A: array<Word>, W: array<Word>, ghost h: Regs, data: seq<Byte>)
    requires A.Length == 8 && W.Length == 64 && A != W && |data| == BLOCK
    requires View(A[..], 0) == h && Filled(W, data, 16)
    modifies A
    ensures View(A[..], 0) == Rounds(h, Schedule(data, 64), 16)
  {
    var i := 0;
    while i < 16
      invariant i in {0, 8, 16}
      invariant View(A[..], 0) == Rounds(h, Schedule(data, 64), i)
    {
      FourSteps(A, W, 0, i, h, data);
      FourSteps(A, W, 4, i + 4, h, data);
      i := i + 8;
    }
  }

  /** One use of `P` on a word that `R` computes. */
  method NextStep(A: array<Word>, W: array<Word>, r: nat, t: nat, ghost h: Regs, ghost data: seq<Byte>)
    requires A.Length == 8 && W.Length == 64 && A != W && |data| == BLOCK && r < 8 && 16 <= t < 64
    requires Filled(W, data, t) && View(A[..], r) == Rounds(h, Schedule(data, 64), t)
    modifies A, W
    ensures Filled(W, data, t + 1)
    ensures View(A[..], if r == 0 then 7 else r - 1) == Rounds(h, Schedule(data, 64), t + 1)
  {
    var x := R(W, t, data);
    Step(A, r, x, t, h, Schedule(data, 64));
  }

  method TwoNextSteps(A: array<Word>, W: array<Word>, r: nat, t: nat, ghost h: Regs, ghost data: seq<Byte>)
    requires A.Length == 8 && W.Length == 64 && A != W && |data| == BLOCK && 0 < r < 8 && 16 <= t <= 62
    requires Filled(W, data, t) && View(A[..], if r == 7 then 0 else r + 1) == Rounds(h, Schedule(data, 64), t)
    modifies A, W
    ensures Filled(W, data, t + 2) && View(A[..], r - 1) == Rounds(h, Schedule(data, 64), t + 2)
  {
    NextStep(A, W, if r == 7 then 0 else r + 1, t, h, data);
    NextStep(A, W, r, t + 1, h, data);
  }

  method FourNextSteps(A: array<Word>, W: array<Word>, r: nat, t: nat, ghost h: Regs, ghost data: seq<Byte>)
    requires A.Length == 8 && W.Length == 64 && A != W && |data| == BLOCK && 3 <= r < 8 && 16 <= t <= 60
    requires Filled(W, data, t) && View(A[..], if r == 7 then 0 else r + 1) == Rounds(h, Schedule(data, 64), t)
    modifies A, W
    ensures Filled(W, data, t + 4) && View(A[..], r - 3) == Rounds(h, Schedule(data, 64), t + 4)
  {
    TwoNextSteps(A, W, r, t, h, data);
    TwoNextSteps(A, W, r - 2, t + 2, h, data);
  }

  method MoreRounds(A: array<Word>, W: array<Word>, ghost h: Regs, ghost data: seq<Byte>)
    requires A.Length == 8 && W.Length == 64 && A != W && |data| == BLOCK
    requires View(A[..], 0) == Rounds(h, Schedule(data, 64), 16) && Filled(W, data, 16)
    modifies A, W
    ensures View(A[..], 0) == Rounds(h, Schedule(data, 64), 64)
  {
    var i := 16;
    while i < 64
      invariant i in {16, 24, 32, 40, 48, 56, 64}
      invariant Filled(W, data, i)
      invariant View(A[..], 0) == Rounds(h, Schedule(data, 64), i)
    {
      FourNextSteps(A, W, 7, i, h, data);
      FourNextSteps(A, W, 3, i + 4, h, data);
      i := i + 8;
    }
  }

  method AddState(state: array<Word>, A: array<Word>)
    requires state.Length == 8 && A.Length == 8 && state != A
    modifies state
    ensures View(state[..], 0) == AddRegs(View(old(state[..]), 0), View(A[..], 0))
  {
    var i := 0;
    while i < 8
      invariant 0 <= i <= 8
      invariant forall j :: 0 <= j < i ==> state[j] == Plus(old(state[j]), A[j])
      invariant forall j :: i <= j < 8 ==> state[j] == old(state[j])
    {
      state[i] := Plus(state[i], A[i]);
      i := i + 1;
    }
  }
}

/** The context of `rktio_sha2_ctx_t`, with its three operations. */
module Sha2Contexts {
  import opened Counting
  import opened Sequences
  import opened HashWords
  import opened Pieces
  import opened Sha2Spec
  import Sha2Process

  /** The hash value after the whole blocks of a message. */
  ghost predicate Hashed(state: array<Word>, iv: Regs, m: seq<Byte>)
    reads state
  {
    && state.Length == 8 && |m| % BLOCK == 0
    && Sha2Process.View(state[..], 0) == HashBlocks(iv, m)
  }

  lemma HashOneMore(r: Regs, m: seq<Byte>, data: seq<Byte>)
    requires |m| % BLOCK == 0 && |data| == BLOCK
    ensures |m + data| % BLOCK == 0 && HashBlocks(r, m + data) == Compress(HashBlocks(r, m), data)
  {
    var all := m + data;
    assert all[..|all| - BLOCK] == m && all[|all| - BLOCK..] == data;
  }

  method Absorb(state: array<Word>, ghost iv: Regs, ghost m: seq<Byte>, data: seq<Byte>)
    requires Hashed(state, iv, m) && |data| == BLOCK
    modifies state
    ensures Hashed(state, iv, m + data)
  {
    HashOneMore(iv, m, data);
    Sha2Process.Process(state, data);
  }

  /** The counters hold the length of the message, modulo 2^64, but for what they missed. */
  ghost predicate Counts(low: Word, high: Word, lost: nat, size: nat) {
    TWO32 * lost <= size && low + TWO32 * high == (size - TWO32 * lost) % TWO64
  }

  lemma LowBitsOfCount(low: Word, high: Word, hashed: nat, left: nat, lost: nat)
    requires Counts(low, high, lost, hashed + left) && hashed % BLOCK == 0 && left < BLOCK
    ensures low % BLOCK == left
  {
    var size := hashed + left;
    var q := (size - TWO32 * lost) / TWO64;
    DivModOf(size, BLOCK, hashed / BLOCK, left);
    DivModOf(size, BLOCK, 0x400_0000 * (lost + high + TWO32 * q) + low / BLOCK, low % BLOCK);
  }

  /** The step of the counters. */
  lemma CountsAdd(low: Word, high: Word, lost: nat, size: nat, ilen: nat, k: Word, low': Word, high': Word)
    requires Counts(low, high, lost, size) && k == ilen % TWO32 && low' == (low + k) % TWO32
    requires high' == if low' < k then (high + 1) % TWO32 else high
    ensures Counts(low', high', lost + ilen / TWO32, size + ilen)
  {
    CountersAdd(low, high, size - TWO32 * lost, k);
    assert ilen == TWO32 * (ilen / TWO32) + k;
  }

  class Sha2 {
    var total0: Word
    var total1: Word
    const state: array<Word>
    const buffer: array<Byte>
    const is224: bool

    /** The bytes so far: whole blocks, in the hash value, and a last piece, in the buffer. */
    ghost var hashed: seq<Byte>
    ghost var tail: seq<Byte>
    /** How many times 2^32 bytes the counters missed. */
    ghost var lost: nat
    ghost const iv: Regs

    ghost function Msg(): seq<Byte>
      reads this`hashed, this`tail
    {
      hashed + tail
    }

    ghost predicate Shape() {
      state.Length == 8 && buffer.Length == BLOCK && (state as object) != buffer
    }

    ghost predicate Holds()
      requires Shape()
      reads this`hashed, this`tail, state, buffer
    {
      Hashed(state, iv, hashed) && |tail| < BLOCK && buffer[..|tail|] == tail
    }

    ghost predicate Valid()
      reads this, state, buffer
    {
      Shape() && Holds() && Counts(total0, total1, lost, |hashed| + |tail|)
    }

    /** `rktio_sha2_init` */
    constructor (is224: bool)
      ensures Valid() && fresh(state) && fresh(buffer)
      ensures this.is224 == is224 && iv == Initial(is224) && Msg() == [] && lost == 0
    {
      total0, total1 := 0, 0;
      var v := Initial(is224);
      state := new Word[] [v.a, v.b, v.c, v.d, v.e, v.f, v.g, v.h];
      buffer := new Byte[BLOCK](_ => 0);
      this.is224 := is224;
      hashed, tail, lost, iv := [], [], 0, v;
    }

    /** The size of the last piece. */
    method Left() returns (left: nat)
      requires Valid()
      ensures left == |tail|
    {
      LowBitsOfCount(total0, total1, |hashed|, |tail|, lost);
      left := total0 % BLOCK;
    }

    /** The counters step by `ilen` as a 32-bit number. */
    method Count(ilen: nat, ghost size: nat)
      requires Counts(total0, total1, lost, size)
      modifies this`total0, this`total1, this`lost
      ensures Counts(total0, total1, lost, size + ilen) && lost == old(lost) + ilen / TWO32
    {
      var k: Word := ilen % TWO32;
      total0 := (total0 + k) % TWO32;
      if total0 < k {
        total1 := (total1 + 1) % TWO32;
      }
      CountsAdd(old(total0), old(total1), lost, size, ilen, k, total0, total1);
      lost := lost + ilen / TWO32;
    }

    /** The buffer is filled up and hashed. */
    method TopUp(left: nat, head: seq<Byte>)
      requires Shape() && Holds() && left == |tail| && left + |head| == BLOCK
      modifies this`hashed, this`tail, state, buffer
      ensures Holds() && Msg() == old(Msg()) + head && tail == []
    {
      Copy(buffer, left, head);
      assert buffer[..] == tail + head;
      Absorb(state, iv, hashed, buffer[..]);
      Associate(hashed, tail, head);
      hashed, tail := hashed + (tail + head), [];
    }

    /** Whole blocks are hashed where they are, unless the buffer is still waiting to be filled. */
    method Blocks(input: seq<Byte>) returns (rest: seq<Byte>)
      requires Shape() && Holds() && (tail == [] || |input| < BLOCK)
      modifies this`hashed, state
      ensures Holds() && Msg() + rest == old(Msg()) + input
      ensures |rest| < BLOCK && (|input| < BLOCK ==> rest == input)
    {
      rest := input;
      while |rest| >= BLOCK
        invariant Holds() && Msg() + rest == old(Msg()) + input
        invariant |input| < BLOCK ==> rest == input
      {
        var data := rest[..BLOCK];
        BlockMoves(hashed, tail, data, rest);
        Absorb(state, iv, hashed, data);
        hashed, rest := hashed + data, rest[BLOCK..];
      }
    }

    /** The last piece stays in the buffer. */
    method Keep(left: nat, rest: seq<Byte>)
      requires Shape() && Holds() && left == |tail| && left + |rest| < BLOCK
      modifies this`tail, buffer
      ensures Holds() && Msg() == old(Msg()) + rest
    {
      Associate(hashed, tail, rest);
      if |rest| > 0 {
        Copy(buffer, left, rest);
      }
      tail := tail + rest;
    }

    method Take(input: seq<Byte>, left: nat, fill: nat)
      requires Shape() && Holds() && left == |tail| && left + fill == BLOCK
      modifies this`hashed, this`tail, state, buffer
      ensures Holds() && Msg() == old(Msg()) + input
    {
      if left != 0 && |input| >= fill {
        var head, rest := input[..fill], input[fill..];
        ghost var m := Msg();
        TopUp(left, head);
        TakeRest(rest, 0);
        TwoParts(m, input, fill);
      } else {
        TakeRest(input, left);
      }
    }

    method TakeRest(input: seq<Byte>, left: nat)
      requires Shape() && Holds() && left == |tail| && (left == 0 || left + |input| < BLOCK)
      modifies this`hashed, this`tail, state, buffer
      ensures Holds() && Msg() == old(Msg()) + input
    {
      var rest := Blocks(input);
      Keep(left, rest);
    }

    /** `mbedtls_sha256_update_ret` */
    method Update(input: seq<Byte>)
      requires Valid()
      modifies this, state, buffer
      ensures Valid() && Msg() == old(Msg()) + input && lost == old(lost) + |input| / TWO32
    {
      if |input| != 0 {
        ghost var m := Msg();
        CountAndTake(input, |m|);
        SizeOfMsg(m, input);
      }
    }

    method CountAndTake(input: seq<Byte>, ghost size: nat)
      requires Valid() && size == |hashed| + |tail|
      modifies this, state, buffer
      ensures Holds() && Msg() == old(Msg()) + input && lost == old(lost) + |input| / TWO32
      ensures Counts(total0, total1, lost, size + |input|)
    {
      var left := Left();
      Count(|input|, size);
      Take(input, left, BLOCK - left);
    }

    lemma SizeOfMsg(before: seq<Byte>, input: seq<Byte>)
      requires Msg() == before + input
      ensures |hashed| + |tail| == |before| + |input|
    {
      assert |Msg()| == |hashed| + |tail|;
    }

    /** The length in bits, as far as the counters know it. */
    method LengthBytes(ghost length: nat, ghost size: nat) returns (msglen: seq<Byte>)
      requires Counts(total0, total1, lost, size) && length + TWO32 * lost == size
      ensures msglen == LongCountBytes(length * 8)
    {
      var high := Or(Shr(total0, 0x2000_0000), Shl(total1, 8));
      var low := Shl(total0, 8);
      LengthWords(total0, total1, lost, length, size, high, low);
      msglen := WordBytes(high) + WordBytes(low);
    }

    /** The padding and the length go through two more updates. */
    method PadAndCount(ghost length: nat)
      requires Valid() && length + TWO32 * lost == |Msg()|
      modifies this, state, buffer
      ensures Valid() && Msg() == Pad(old(Msg()), length)
    {
      assert |Msg()| == |hashed| + |tail|;
      var msglen := LengthBytes(length, |hashed| + |tail|);
      var last := Left();
      TailSize(hashed, tail);
      PaddingCut(Msg(), length, last);
      Update(PADDING[..PadLength(last)]);
      Update(msglen);
    }

    /** `mbedtls_sha256_finish_ret` */
    method Finish(output: array<Byte>, ghost length: nat)
      requires Valid() && length + TWO32 * lost == |Msg()|
      requires output.Length == (if is224 then 28 else 32) && output != buffer && (output as object) != state
      modifies this, state, buffer, output
      ensures output[..] == Digest(is224, HashBlocks(iv, Pad(old(Msg()), length)))
    {
      PadAndCount(length);
      WholeBlocks(hashed, tail);
      PutDigest(state, is224, output);
    }
  }

  lemma LengthWords(low: Word, high: Word, lost: nat, length: nat, size: nat, high': Word, low': Word)
    requires Counts(low, high, lost, size) && size == length + TWO32 * lost
    requires high' == Or(Shr(low, 0x2000_0000), Shl(high, 8)) && low' == Shl(low, 8)
    ensures WordBytes(high') + WordBytes(low') == LongCountBytes(length * 8)
  {
    JoinedCount(low, high);
    BitCount(low, high, length);
  }

  const PADDING: seq<Byte> := [0x80] + Zeros(63)

  function PadLength(last: nat): (n: nat)
    requires last < BLOCK
    ensures n <= 64
  {
    if last < 56 then 56 - last else 120 - last
  }

  lemma PadLengthIs(size: nat)
    ensures PadLength(size % BLOCK) == 1 + ZeroCount(size)
  {
  }

  lemma PaddingCut(m: seq<Byte>, length: nat, last: nat)
    requires last == |m| % BLOCK
    ensures m + PADDING[..PadLength(last)] + LongCountBytes(length * 8) == Pad(m, length)
  {
    PadLengthIs(|m|);
    assert PADDING[..PadLength(last)] == [0x80] + Zeros(ZeroCount(|m|));
  }

  method PutDigest(state: array<Word>, is224: bool, output: array<Byte>)
    requires state.Length == 8 && output.Length == (if is224 then 28 else 32) && (output as object) != state
    modifies output
    ensures output[..] == Digest(is224, Sha2Process.View(state[..], 0))
  {
    PutFour(state[0], state[1], state[2], state[3], output);
    PutWord(state[4], output, 16);
    PutWord(state[5], output, 20);
    PutWord(state[6], output, 24);
    assert output[..28] == Digest(true, Sha2Process.View(state[..], 0));
    if !is224 {
      PutWord(state[7], output, 28);
      assert output[..] == output[..32];
    } else {
      assert output[..] == output[..28];
    }
  }
}

/** Hashing a message that arrives in pieces. */
module Sha2Runs {
  import opened Counting
  import opened HashWords
  import opened Pieces
  import opened Sha2Spec
  import opened Sha2Contexts

  /** How many times 2^32 bytes the 32-bit lengths of the pieces leave out. */
  function Missed(chunks: seq<seq<Byte>>): nat {
    if chunks == [] then 0 else Missed(chunks[..|chunks| - 1]) + |chunks[|chunks| - 1]| / TWO32
  }

  lemma {:induction false} MissedFits(chunks: seq<seq<Byte>>)
    ensures TWO32 * Missed(chunks) <= |Concat(chunks)|
  {
    if chunks != [] {
      MissedFits(chunks[..|chunks| - 1]);
    }
  }

  /** The length that the counters reach. */
  function Counted(chunks: seq<seq<Byte>>): nat {
    MissedFits(chunks);
    |Concat(chunks)| - TWO32 * Missed(chunks)
  }

  lemma {:induction false} SmallPiecesMissNothing(chunks: seq<seq<Byte>>)
    requires forall c <- chunks :: |c| < TWO32
    ensures Missed(chunks) == 0
  {
    if chunks != [] {
      SmallPiecesMissNothing(chunks[..|chunks| - 1]);
    }
  }

  /** With short pieces, the length is right. */
  lemma ShortPiecesHash(is224: bool, chunks: seq<seq<Byte>>)
    ensures (forall c <- chunks :: |c| < TWO32) ==>
              HashWithLength(is224, Concat(chunks), Counted(chunks)) == Hash(is224, Concat(chunks))
  {
    if forall c <- chunks :: |c| < TWO32 {
      SmallPiecesMissNothing(chunks);
    }
  }

  lemma OneMorePiece(chunks: seq<seq<Byte>>, c: seq<Byte>)
    ensures Concat(chunks + [c]) == Concat(chunks) + c
    ensures Missed(chunks + [c]) == Missed(chunks) + |c| / TWO32
  {
    assert (chunks + [c])[..|chunks|] == chunks;
  }

  /** A context that has taken in these pieces. */
  ghost predicate Took(ctx: Sha2, chunks: seq<seq<Byte>>)
    reads ctx, ctx.state, ctx.buffer
  {
    ctx.Valid() && ctx.Msg() == Concat(chunks) && ctx.lost == Missed(chunks)
  }

  method UpdateOne(ctx: Sha2, ghost taken: seq<seq<Byte>>, c: seq<Byte>)
    requires Took(ctx, taken)
    modifies ctx, ctx.state, ctx.buffer
    ensures Took(ctx, taken + [c])
  {
    OneMorePiece(taken, c);
    ctx.Update(c);
  }

  /** One update for each piece. */
  method UpdateAll(ctx: Sha2, chunks: seq<seq<Byte>>, ghost taken: seq<seq<Byte>>)
    requires Took(ctx, taken)
    modifies ctx, ctx.state, ctx.buffer
    ensures Took(ctx, taken + chunks)
    decreases |chunks|
  {
    if chunks == [] {
      assert taken + chunks == taken;
    } else {
      UpdateOne(ctx, taken, chunks[0]);
      FirstThenRest(taken, chunks);
      UpdateAll(ctx, chunks[1..], taken + [chunks[0]]);
    }
  }

  method FinishRun(ctx: Sha2, ghost chunks: seq<seq<Byte>>) returns (digest: seq<Byte>)
    requires Took(ctx, chunks)
    modifies ctx, ctx.state, ctx.buffer
    ensures digest == Digest(ctx.is224, HashBlocks(ctx.iv, Pad(Concat(chunks), Counted(chunks))))
  {
    var output := new Byte[if ctx.is224 then 28 else 32](_ => 0);
    ctx.Finish(output, Counted(chunks));
    digest := output[..];
  }

  /**
   * Initialize, update with each piece, finish. The digest is that of the concatenation, whatever the
   * pieces are, with a length field that is exact when every piece is shorter than 2^32 bytes.
   */
  method DigestOf(is224: bool, chunks: seq<seq<Byte>>) returns (digest: seq<Byte>)
    ensures digest == HashWithLength(is224, Concat(chunks), Counted(chunks))
    ensures (forall c <- chunks :: |c| < TWO32) ==> digest == Hash(is224, Concat(chunks))
  {
    var ctx := new Sha2(is224);
    UpdateAll(ctx, chunks, []);
    assert [] + chunks == chunks;
    digest := FinishRun(ctx, chunks);
    ShortPiecesHash(is224, chunks);
  }

  lemma EighthOf(k: nat)
    ensures 8 * k % TWO32 == 0 <==> k % 0x2000_0000 == 0
  {
    var q, r := k / 0x2000_0000, k % 0x2000_0000;
    DivModOf(8 * k, TWO32, q, 8 * r);
  }

  /** Exactly when the padding, and so the input of the compression function, is the standard's. */
  lemma PaddedRightIff(chunks: seq<seq<Byte>>)
    ensures Pad(Concat(chunks), Counted(chunks)) == Pad(Concat(chunks), |Concat(chunks)|)
            <==> Missed(chunks) % 0x2000_0000 == 0
  {
    EighthOf(Missed(chunks));
    SamePaddingIff(Concat(chunks), Counted(chunks), |Concat(chunks)|, 8 * Missed(chunks));
  }

  /** One piece of 2^32 bytes is enough for a wrong length field. */
  lemma LongPieceMiscounts(piece: seq<Byte>)
    requires |piece| == TWO32
    ensures Pad(piece, Counted([piece])) != Pad(piece, |piece|)
  {
    assert [piece][..0] == [];
    assert Concat([piece]) == piece && Missed([piece]) == 1;
    PaddedRightIff([piece]);
  }
}
