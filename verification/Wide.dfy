/** The UTF-8-ish / UTF-16-ish conversions of `rktio_wide.c`. Both directions
    admit unpaired surrogates, so that every sequence of 16-bit units has a
    byte form. Masks and shifts of the non-negative values involved are written
    as remainders and quotients by powers of two, and `|` of disjoint bit fields
    as a sum. */
module WideChars {
  import opened Options

  type Byte = x: int | 0 <= x < 0x100
  type Unit = x: int | 0 <= x < 0x10000

  const MAX_CODE := 0x10FFFF

  type Code = x: int | 0 <= x <= MAX_CODE

  // ---- one code ----

  /** The bytes written for one code. */
  function EncodeCode(wc: Code): (s: seq<Byte>)
    ensures 1 <= |s| <= 4
  {
    if wc < 0x80 then [wc]
    else if wc < 0x800 then [0xC0 + wc / 0x40, 0x80 + wc % 0x40]
    else if wc < 0x10000 then [0xE0 + wc / 0x1000, 0x80 + wc / 0x40 % 0x40, 0x80 + wc % 0x40]
    else [0xF0 + wc / 0x40000, 0x80 + wc / 0x1000 % 0x40, 0x80 + wc / 0x40 % 0x40, 0x80 + wc % 0x40]
  }

  /** `state`, `nextbits` and `v`: how many continuation bytes are due, the bits the
      next one must intersect (0 for none, else 0x20 or 0x30), and the code so far. */
  datatype Partial = Partial(state: nat, nextbits: int, v: nat)

  const START := Partial(0, 0, 0)

  datatype Step = Reject | More(p: Partial) | Output(v: nat)

  /** `sc & nextbits`, for a continuation byte `sc` */
  predicate Intersects(sc: Byte, nextbits: int) {
    (nextbits == 0x20 && sc % 0x40 / 0x20 != 0) || (nextbits == 0x30 && sc % 0x40 / 0x10 != 0)
  }

  /** One turn of the decoding loop, up to the point where it would output `v`. */
  function Feed(p: Partial, sc: Byte): Step {
    if sc < 0x80 then
      if p.state != 0 then Reject else Output(sc)
    else if sc / 0x40 == 2 then
      if p.state == 0 then Reject
      else if p.nextbits == 0 || Intersects(sc, p.nextbits) then
        var v := p.v * 0x40 + sc % 0x40;
        if p.state > 1 then More(Partial(p.state - 1, 0, v))
        else if v > MAX_CODE then Reject
        else Output(v)
      else Reject
    else if p.state != 0 then Reject
    else if sc / 0x20 == 6 then
      if sc % 0x20 / 2 != 0 then More(Partial(1, 0, sc % 0x20)) else Reject
    else if sc / 0x10 == 14 then
      More(Partial(2, if sc % 0x10 == 0 then 0x20 else 0, sc % 0x10))
    else if sc / 8 == 30 then
      if sc % 8 <= 4 then More(Partial(3, if sc % 8 == 0 then 0x30 else 0, sc % 8)) else Reject
    else Reject
  }

  /** Feeding bytes until the first code, which must come with the last byte. */
  function FeedAll(p: Partial, s: seq<Byte>): Step
    decreases |s|
  {
    if s == [] then More(p)
    else
      match Feed(p, s[0])
      case Reject => Reject
      case Output(v) => if |s| == 1 then Output(v) else Reject
      case More(p') => FeedAll(p', s[1..])
  }

  lemma FeedMore(p: Partial, p': Partial, s: seq<Byte>)
    requires |s| > 1 && Feed(p, s[0]) == More(p')
    ensures FeedAll(p, s) == FeedAll(p', s[1..])
  {
  }

  // Splitting a code into the fields of its bytes, and joining them again.

  lemma Split3(wc: Code)
    requires 0x800 <= wc < 0x10000
    ensures 0 <= wc / 0x1000 < 0x10 && (wc / 0x1000 == 0 ==> wc / 0x40 % 0x40 >= 0x20)
    ensures wc / 0x1000 * 0x40 + wc / 0x40 % 0x40 == wc / 0x40
  {
  }

  lemma Split4(wc: Code)
    requires 0x10000 <= wc
    ensures 0 <= wc / 0x40000 <= 4 && (wc / 0x40000 == 0 ==> wc / 0x1000 % 0x40 >= 0x10)
    ensures wc / 0x40000 * 0x40 + wc / 0x1000 % 0x40 == wc / 0x1000
    ensures wc / 0x1000 * 0x40 + wc / 0x40 % 0x40 == wc / 0x40
  {
  }

  lemma Join3(a: nat, b: nat, c: nat)
    requires a < 0x10 && b < 0x40 && c < 0x40 && (a == 0 ==> b >= 0x20)
    ensures var wc := (a * 0x40 + b) * 0x40 + c;
      0x800 <= wc < 0x10000 && wc / 0x1000 == a && wc / 0x40 % 0x40 == b && wc % 0x40 == c
  {
  }

  lemma Join4(a: nat, b: nat, c: nat, d: nat)
    requires a <= 4 && b < 0x40 && c < 0x40 && d < 0x40 && (a == 0 ==> b >= 0x10)
    ensures var wc := ((a * 0x40 + b) * 0x40 + c) * 0x40 + d;
      0x10000 <= wc && wc / 0x40000 == a && wc / 0x1000 % 0x40 == b && wc / 0x40 % 0x40 == c && wc % 0x40 == d
  {
  }

  lemma FeedLead3(b: Byte, a: nat)
    requires a < 0x10 && b == 0xE0 + a
    ensures Feed(START, b) == More(Partial(2, if a == 0 then 0x20 else 0, a))
  {
  }

  lemma FeedLead4(b: Byte, a: nat)
    requires a <= 4 && b == 0xF0 + a
    ensures Feed(START, b) == More(Partial(3, if a == 0 then 0x30 else 0, a))
  {
  }

  lemma FeedNext(p: Partial, b: Byte, c: nat)
    requires p.state > 0 && c < 0x40 && b == 0x80 + c
    requires p.nextbits == 0 || (p.nextbits == 0x20 && c >= 0x20) || (p.nextbits == 0x30 && c >= 0x10)
    ensures p.state > 1 ==> Feed(p, b) == More(Partial(p.state - 1, 0, p.v * 0x40 + c))
    ensures p.state == 1 && p.v * 0x40 + c <= MAX_CODE ==> Feed(p, b) == Output(p.v * 0x40 + c)
  {
  }

  lemma FeedEncoded3(wc: Code)
    requires 0x800 <= wc < 0x10000
    ensures FeedAll(START, EncodeCode(wc)) == Output(wc)
  {
    var s, a := EncodeCode(wc), wc / 0x1000;
    Split3(wc);
    FeedLead3(s[0], a);
    var p := Partial(2, if a == 0 then 0x20 else 0, a);
    FeedMore(START, p, s);
    FeedNext(p, s[1], wc / 0x40 % 0x40);
    FeedMore(p, Partial(1, 0, wc / 0x40), s[1..]);
    FeedNext(Partial(1, 0, wc / 0x40), s[2], wc % 0x40);
  }

  lemma FeedEncoded4(wc: Code)
    requires 0x10000 <= wc
    ensures FeedAll(START, EncodeCode(wc)) == Output(wc)
  {
    var s, a := EncodeCode(wc), wc / 0x40000;
    Split4(wc);
    FeedLead4(s[0], a);
    var p := Partial(3, if a == 0 then 0x30 else 0, a);
    FeedMore(START, p, s);
    FeedNext(p, s[1], wc / 0x1000 % 0x40);
    FeedMore(p, Partial(2, 0, wc / 0x1000), s[1..]);
    FeedNext(Partial(2, 0, wc / 0x1000), s[2], wc / 0x40 % 0x40);
    FeedMore(Partial(2, 0, wc / 0x1000), Partial(1, 0, wc / 0x40), s[1..][1..]);
    FeedNext(Partial(1, 0, wc / 0x40), s[3], wc % 0x40);
  }

  /** The decoder recovers a code from its bytes... */
  lemma FeedEncoded(wc: Code)
    ensures FeedAll(START, EncodeCode(wc)) == Output(wc)
  {
    if 0x80 <= wc < 0x800 {
      FeedMore(START, Partial(1, 0, wc / 0x40), EncodeCode(wc));
    } else if 0x800 <= wc < 0x10000 {
      FeedEncoded3(wc);
    } else if 0x10000 <= wc {
      FeedEncoded4(wc);
    }
  }

  /** Inside a sequence only continuation bytes are accepted. */
  lemma {:induction false} FedTail(p: Partial, s: seq<Byte>, wc: nat)
    requires p.state > 0 && FeedAll(p, s) == Output(wc)
    ensures |s| == p.state && wc <= MAX_CODE
    ensures s[0] / 0x40 == 2 && (p.nextbits == 0 || Intersects(s[0], p.nextbits))
    ensures p.state == 1 ==> wc == p.v * 0x40 + s[0] % 0x40
    ensures p.state > 1 ==> FeedAll(Partial(p.state - 1, 0, p.v * 0x40 + s[0] % 0x40), s[1..]) == Output(wc)
    decreases |s|
  {
    if p.state > 1 {
      FedTail(Partial(p.state - 1, 0, p.v * 0x40 + s[0] % 0x40), s[1..], wc);
    }
  }

  lemma LeadFed(b: Byte)
    requires b >= 0x80 && Feed(START, b).More?
    ensures var p := Feed(START, b).p;
      || (p.state == 1 && p.nextbits == 0 && 2 <= p.v < 0x20 && b == 0xC0 + p.v)
      || (p.state == 2 && p.nextbits == (if p.v == 0 then 0x20 else 0) && p.v < 0x10 && b == 0xE0 + p.v)
      || (p.state == 3 && p.nextbits == (if p.v == 0 then 0x30 else 0) && p.v <= 4 && b == 0xF0 + p.v)
  {
  }

  lemma NextFed(b: Byte, nextbits: int)
    requires b / 0x40 == 2
    ensures b == 0x80 + b % 0x40
    ensures Intersects(b, nextbits) <==> (nextbits == 0x20 && b % 0x40 >= 0x20) || (nextbits == 0x30 && b % 0x40 >= 0x10)
  {
  }

  lemma Fed2(s: seq<Byte>, wc: nat)
    requires |s| == 2 && FeedAll(START, s) == Output(wc)
    ensures wc <= MAX_CODE && s == EncodeCode(wc)
  {
    var p1 := Feed(START, s[0]).p;
    LeadFed(s[0]);
    FedTail(p1, s[1..], wc);
    NextFed(s[1], 0);
  }

  lemma Fed3(s: seq<Byte>, wc: nat)
    requires |s| == 3 && FeedAll(START, s) == Output(wc)
    ensures wc <= MAX_CODE && s == EncodeCode(wc)
  {
    var p1 := Feed(START, s[0]).p;
    LeadFed(s[0]);
    FedTail(p1, s[1..], wc);
    NextFed(s[1], p1.nextbits);
    FedTail(Partial(1, 0, p1.v * 0x40 + s[1] % 0x40), s[1..][1..], wc);
    NextFed(s[2], 0);
    Join3(p1.v, s[1] % 0x40, s[2] % 0x40);
  }

  lemma Fed4(s: seq<Byte>, wc: nat)
    requires |s| == 4 && FeedAll(START, s) == Output(wc)
    ensures wc <= MAX_CODE && s == EncodeCode(wc)
  {
    var p1 := Feed(START, s[0]).p;
    LeadFed(s[0]);
    FedTail(p1, s[1..], wc);
    NextFed(s[1], p1.nextbits);
    var p2 := Partial(2, 0, p1.v * 0x40 + s[1] % 0x40);
    FedTail(p2, s[1..][1..], wc);
    NextFed(s[2], 0);
    FedTail(Partial(1, 0, p2.v * 0x40 + s[2] % 0x40), s[1..][1..][1..], wc);
    NextFed(s[3], 0);
    Join4(p1.v, s[1] % 0x40, s[2] % 0x40, s[3] % 0x40);
  }

  /** ... and accepts no other bytes for it. */
  lemma EncodedFed(s: seq<Byte>, wc: nat)
    requires FeedAll(START, s) == Output(wc)
    ensures wc <= MAX_CODE && s == EncodeCode(wc)
  {
    if s[0] >= 0x80 {
      FedTail(Feed(START, s[0]).p, s[1..], wc);
      if |s| == 2 {
        Fed2(s, wc);
      } else if |s| == 3 {
        Fed3(s, wc);
      } else {
        Fed4(s, wc);
      }
    }
  }
}

/** Whole strings: the decoder with its pending surrogate, and the encoder. */
module WideStrings {
  import opened Sequences
  import opened Options
  import opened WideChars

  predicate IsLead(u: int) { 0xD800 <= u < 0xDC00 }
  predicate IsTrail(u: int) { 0xDC00 <= u < 0xE000 }

  // ---- encoding ----

  /** How many units the code at the head of `us` takes: a lead surrogate pairs
      with a trail one that follows it directly, and with nothing else. */
  function HeadLength(us: seq<Unit>): (n: nat)
    requires us != []
    ensures 1 <= n <= |us|
  {
    if IsLead(us[0]) && |us| > 1 && IsTrail(us[1]) then 2 else 1
  }

  /** The code at the head of `us`; pairs combine as in section 2.2 of RFC 2781. */
  function HeadCode(us: seq<Unit>): (wc: Code)
    requires us != []
  {
    if HeadLength(us) == 2 then
      var wc: int, low: int := us[0] - 0xD800, us[1] - 0xDC00;
      wc * 0x400 + low + 0x10000
    else us[0]
  }

  function Encode(us: seq<Unit>): (s: seq<Byte>)
    decreases |us|
  {
    if us == [] then [] else EncodeCode(HeadCode(us)) + Encode(us[HeadLength(us)..])
  }

  // ---- decoding ----

  /** A lead surrogate is held back (non-zero `pending`) until what follows is known. */
  function Flush(pending: Unit): (us: seq<Unit>) {
    if pending != 0 then [pending] else []
  }

  /** The units output for code `v`, and the surrogate pending afterwards; None is rejection. */
  function Emit(v: Code, pending: Unit): (r: Option<(seq<Unit>, Unit)>) {
    if v > 0xFFFF then
      Some((Flush(pending) + [0xD800 + (v - 0x10000) / 0x400, 0xDC00 + (v - 0x10000) % 0x400], 0))
    else if IsTrail(v) && pending != 0 then None
    else if IsLead(v) then Some((Flush(pending), v))
    else Some((Flush(pending) + [v], 0))
  }

  function Prepend(a: seq<Unit>, r: Option<seq<Unit>>): Option<seq<Unit>> {
    match r
    case None => None
    case Some(us) => Some(a + us)
  }

  function DecodeFrom(s: seq<Byte>, p: Partial, pending: Unit): (r: Option<seq<Unit>>)
    decreases |s|
  {
    if s == [] then
      if p.state != 0 then None else Some(Flush(pending))
    else
      match Feed(p, s[0])
      case Reject => None
      case More(p') => DecodeFrom(s[1..], p', pending)
      case Output(v) =>
        match Emit(v, pending)
        case None => None
        case Some((us, pending')) => Prepend(us, DecodeFrom(s[1..], START, pending'))
  }

  function Decode(s: seq<Byte>): (r: Option<seq<Unit>>) {
    DecodeFrom(s, START, 0)
  }

  /** What follows once the code `v` has been read. */
  function Continue(v: Code, pending: Unit, rest: seq<Byte>): Option<seq<Unit>> {
    match Emit(v, pending)
    case None => None
    case Some((us, pending')) => Prepend(us, DecodeFrom(rest, START, pending'))
  }

  lemma {:induction false} DecodeCode(p: Partial, c: seq<Byte>, v: Code, rest: seq<Byte>, pending: Unit)
    requires FeedAll(p, c) == Output(v)
    ensures DecodeFrom(c + rest, p, pending) == Continue(v, pending, rest)
    decreases |c|
  {
    assert (c + rest)[1..] == c[1..] + rest;
    match Feed(p, c[0]) {
      case More(p') => DecodeCode(p', c[1..], v, rest, pending);
      case Output(_) => assert c[1..] + rest == rest;
      case Reject =>
    }
  }

  /** A decoding that goes through reads a whole code first. */
  lemma {:induction false} CodeDecoded(s: seq<Byte>, p: Partial, pending: Unit) returns (n: nat, v: nat)
    requires DecodeFrom(s, p, pending).Some?
    requires s != [] || p.state != 0
    ensures 1 <= n <= |s| && FeedAll(p, s[..n]) == Output(v)
    decreases |s|
  {
    match Feed(p, s[0]) {
      case More(p') =>
        MoreWaits(p, s[0]);
        var n', v' := CodeDecoded(s[1..], p', pending);
        n, v := n' + 1, v';
        assert s[..n][1..] == s[1..][..n'];
      case Output(w) =>
        n, v := 1, w;
    }
  }

  lemma MoreWaits(p: Partial, b: Byte)
    requires Feed(p, b).More?
    ensures Feed(p, b).p.state != 0
  {
  }

  /** `us` is what remains to be output while `pending` is held back. */
  ghost predicate Outstanding(us: seq<Unit>, pending: Unit, tail: seq<Unit>) {
    us == Flush(pending) + tail && (pending != 0 ==> IsLead(pending) && (tail == [] || !IsTrail(tail[0])))
  }

  lemma PairSplit(v: Code)
    requires v > 0xFFFF
    ensures 0 <= (v - 0x10000) / 0x400 < 0x400
    ensures (v - 0x10000) / 0x400 * 0x400 + (v - 0x10000) % 0x400 + 0x10000 == v
  {
  }

  lemma PairJoin(h: nat, l: nat)
    requires h < 0x400 && l < 0x400
    ensures var v := h * 0x400 + l + 0x10000;
      0xFFFF < v <= MAX_CODE && (v - 0x10000) / 0x400 == h && (v - 0x10000) % 0x400 == l
  {
  }

  /** Emitting the head code of `tail` outputs its units, but for a lead surrogate held back. */
  lemma EmitHead(tail: seq<Unit>, pending: Unit) returns (us: seq<Unit>, pending': Unit)
    requires tail != [] && Outstanding(Flush(pending) + tail, pending, tail)
    ensures Emit(HeadCode(tail), pending) == Some((us, pending'))
    ensures us + (Flush(pending') + tail[HeadLength(tail)..]) == Flush(pending) + tail
    ensures Outstanding(Flush(pending') + tail[HeadLength(tail)..], pending', tail[HeadLength(tail)..])
  {
    if HeadLength(tail) == 2 {
      PairJoin(tail[0] - 0xD800, tail[1] - 0xDC00);
    }
    us, pending' := Emit(HeadCode(tail), pending).value.0, Emit(HeadCode(tail), pending).value.1;
    assert us + Flush(pending') == Flush(pending) + tail[..HeadLength(tail)];
    assert tail == tail[..HeadLength(tail)] + tail[HeadLength(tail)..];
  }

  lemma {:induction false} DecodeEncoded(tail: seq<Unit>, pending: Unit)
    requires Outstanding(Flush(pending) + tail, pending, tail)
    ensures DecodeFrom(Encode(tail), START, pending) == Some(Flush(pending) + tail)
    decreases |tail|
  {
    if tail == [] {
      assert Flush(pending) + tail == Flush(pending);
    } else {
      var v, n := HeadCode(tail), HeadLength(tail);
      FeedEncoded(v);
      DecodeCode(START, EncodeCode(v), v, Encode(tail[n..]), pending);
      var us, pending' := EmitHead(tail, pending);
      DecodeEncoded(tail[n..], pending');
    }
  }

  /** Conversely, the units output for a code are again read as that code. */
  lemma HeadEmitted(v: Code, pending: Unit, more: seq<Unit>) returns (tail: seq<Unit>)
    requires Emit(v, pending).Some? && (pending != 0 ==> IsLead(pending))
    requires Emit(v, pending).value.1 != 0 ==> more == [] || !IsTrail(more[0])
    ensures tail != [] && HeadCode(tail) == v && tail[HeadLength(tail)..] == more
    ensures Flush(pending) + tail == Emit(v, pending).value.0 + (Flush(Emit(v, pending).value.1) + more)
    ensures pending != 0 ==> !IsTrail(tail[0])
  {
    if v > 0xFFFF {
      PairSplit(v);
      tail := [0xD800 + (v - 0x10000) / 0x400, 0xDC00 + (v - 0x10000) % 0x400] + more;
    } else {
      tail := [v] + more;
    }
  }

  lemma {:induction false} EncodeDecoded(s: seq<Byte>, pending: Unit) returns (tail: seq<Unit>)
    requires DecodeFrom(s, START, pending).Some? && (pending != 0 ==> IsLead(pending))
    ensures Outstanding(DecodeFrom(s, START, pending).value, pending, tail)
    ensures Encode(tail) == s
    decreases |s|
  {
    if s == [] {
      tail := [];
    } else {
      var n, v := CodeDecoded(s, START, pending);
      EncodedFed(s[..n], v);
      assert s == s[..n] + s[n..];
      DecodeCode(START, s[..n], v, s[n..], pending);
      var more := EncodeDecoded(s[n..], Emit(v, pending).value.1);
      tail := HeadEmitted(v, pending, more);
    }
  }

  /** The codec is a bijection between all unit sequences and the accepted byte
      strings: a byte string decodes to `us` exactly when it is the encoding of `us`. */
  lemma DecodesIffEncoded(s: seq<Byte>, us: seq<Unit>)
    ensures Decode(s) == Some(us) <==> Encode(us) == s
  {
    DecodeEncoded(us, 0);
    assert Flush(0) + us == us;
    if Decode(s) == Some(us) {
      var tail := EncodeDecoded(s, 0);
      assert Flush(0) + tail == tail;
    }
  }

  // ---- standard text ----

  /** The bytes of the code `c` in UTF-8, as in section 3 of RFC 3629. */
  predicate InUtf8(s: seq<Byte>, c: nat) {
    match |s|
    case 1 => c < 0x80 && s[0] == c
    case 2 => 0x80 <= c < 0x800 && Two(s[0], s[1], c)
    case 3 => 0x800 <= c < 0x10000 && Three(s[0], s[1], s[2], c)
    case 4 => 0x10000 <= c <= 0x10FFFF && Four(s[0], s[1], s[2], s[3], c)
    case _ => false
  }

  predicate Two(a: int, b: int, c: nat) {
    0xC0 <= a && 0x80 <= b <= 0xBF && c == (a - 0xC0) * 0x40 + (b - 0x80)
  }

  predicate Three(a: int, b: int, d: int, c: nat) {
    && 0xE0 <= a && 0x80 <= b <= 0xBF && 0x80 <= d <= 0xBF
    && c == ((a - 0xE0) * 0x40 + (b - 0x80)) * 0x40 + (d - 0x80)
  }

  predicate Four(a: int, b: int, d: int, e: int, c: nat) {
    && 0xF0 <= a && 0x80 <= b <= 0xBF && 0x80 <= d <= 0xBF && 0x80 <= e <= 0xBF
    && c == (((a - 0xF0) * 0x40 + (b - 0x80)) * 0x40 + (d - 0x80)) * 0x40 + (e - 0x80)
  }

  /** Its units in UTF-16, as in section 2.2 of RFC 2781. */
  predicate InUtf16(us: seq<Unit>, c: nat) {
    match |us|
    case 1 => us[0] == c && !(0xD800 <= c <= 0xDFFF)
    case 2 => Pair(us[0], us[1], c)
    case _ => false
  }

  predicate Pair(high: int, low: int, c: nat) {
    0xD800 <= high <= 0xDBFF && 0xDC00 <= low <= 0xDFFF && c == 0x10000 + (high - 0xD800) * 0x400 + (low - 0xDC00)
  }

  lemma Utf8IsEncodeCode(s: seq<Byte>, c: nat)
    requires InUtf8(s, c)
    ensures c <= MAX_CODE && s == EncodeCode(c)
  {
    if |s| == 2 {
      assert c / 0x40 == s[0] as int - 0xC0;
    } else if |s| == 3 {
      Join3(s[0] as int - 0xE0, s[1] as int - 0x80, s[2] as int - 0x80);
    } else if |s| == 4 {
      Join4(s[0] as int - 0xF0, s[1] as int - 0x80, s[2] as int - 0x80, s[3] as int - 0x80);
    }
  }

  lemma Utf16IsHead(us: seq<Unit>, c: nat, rest: seq<Unit>)
    requires InUtf16(us, c)
    ensures HeadCode(us + rest) == c && HeadLength(us + rest) == |us| && (us + rest)[|us|..] == rest
  {
  }

  function Flat<T>(parts: seq<seq<T>>): seq<T> {
    if parts == [] then [] else parts[0] + Flat(parts[1..])
  }

  lemma {:induction false} StandardEncoded(cs: seq<nat>, bytes: seq<seq<Byte>>, units: seq<seq<Unit>>)
    requires |bytes| == |units| == |cs|
    requires forall i :: 0 <= i < |cs| ==> InUtf8(bytes[i], cs[i]) && InUtf16(units[i], cs[i])
    ensures Encode(Flat(units)) == Flat(bytes)
  {
    if cs != [] {
      StandardEncoded(cs[1..], bytes[1..], units[1..]);
      Utf8IsEncodeCode(bytes[0], cs[0]);
      Utf16IsHead(units[0], cs[0], Flat(units[1..]));
    }
  }

  /** On the text of any sequence of codes, the codec is that of the two standards. */
  lemma StandardText(cs: seq<nat>, bytes: seq<seq<Byte>>, units: seq<seq<Unit>>)
    requires |bytes| == |units| == |cs|
    requires forall i :: 0 <= i < |cs| ==> InUtf8(bytes[i], cs[i]) && InUtf16(units[i], cs[i])
    ensures Encode(Flat(units)) == Flat(bytes) && Decode(Flat(bytes)) == Some(Flat(units))
  {
    StandardEncoded(cs, bytes, units);
    DecodesIffEncoded(Flat(bytes), Flat(units));
  }

  // ---- the loops ----

  /** The decoder's loop variables; `nextbits` and `v` mean nothing outside a sequence. */
  function Current(state: nat, nextbits: int, v: nat): Partial {
    if state == 0 then START else Partial(state, nextbits, v)
  }

  /** What has been output, and what the rest of the input will add to it. */
  ghost predicate Decoding(s: seq<Byte>, i: nat, p: Partial, pending: Unit, done: seq<Unit>) {
    i <= |s| && Decode(s) == Prepend(done, DecodeFrom(s[i..], p, pending))
  }

  lemma DecodingBegins(s: seq<Byte>)
    ensures Decoding(s, 0, START, 0, [])
  {
    assert s[0..] == s;
    assert Decode(s).Some? ==> [] + Decode(s).value == Decode(s).value;
  }

  lemma DecodingFeeds(s: seq<Byte>, i: nat, p: Partial, pending: Unit, done: seq<Unit>)
    requires Decoding(s, i, p, pending, done) && i < |s|
    ensures Feed(p, s[i]).Reject? ==> Decode(s) == None
    ensures Feed(p, s[i]).More? ==> Decoding(s, i + 1, Feed(p, s[i]).p, pending, done)
    ensures Feed(p, s[i]).Output? ==> Decode(s) == Prepend(done, Continue(Feed(p, s[i]).v, pending, s[i + 1..]))
  {
    assert s[i..][1..] == s[i + 1..];
  }

  lemma DecodingEmits(s: seq<Byte>, i: nat, v: Code, pending: Unit, done: seq<Unit>)
    requires i < |s| && Decode(s) == Prepend(done, Continue(v, pending, s[i + 1..]))
    ensures Emit(v, pending).None? ==> Decode(s) == None
    ensures Emit(v, pending).Some? ==>
      Decoding(s, i + 1, START, Emit(v, pending).value.1, done + Emit(v, pending).value.0)
    ensures Decode(s).Some? ==> |done| + |Emit(v, pending).value.0| + |Flush(Emit(v, pending).value.1)| <= |Decode(s).value|
  {
    if Emit(v, pending).Some? {
      var (us, pending') := Emit(v, pending).value;
      var rest := DecodeFrom(s[i + 1..], START, pending');
      if rest.Some? {
        FlushedFirst(s[i + 1..], START, pending');
        assert done + (us + rest.value) == (done + us) + rest.value;
      }
    }
  }

  lemma {:induction false} FlushedFirst(s: seq<Byte>, p: Partial, pending: Unit)
    requires DecodeFrom(s, p, pending).Some?
    ensures |Flush(pending)| <= |DecodeFrom(s, p, pending).value|
    decreases |s|
  {
    if s != [] {
      match Feed(p, s[0]) {
        case More(p') => FlushedFirst(s[1..], p', pending);
        case Output(v) => FlushedFirst(s[1..], START, Emit(v, pending).value.1);
      }
    }
  }

  /** The part of the loop that reads a byte: -1 rejects, 0 goes on, and 1 outputs `v`. */
  method FeedByte(state0: nat, nextbits0: int, v0: nat, sc: Byte)
    returns (outcome: int, state: nat, nextbits: int, v: nat)
    requires state0 == 0 ==> nextbits0 == 0
    ensures state == 0 ==> nextbits == 0 || outcome < 0
    ensures match Feed(Current(state0, nextbits0, v0), sc)
      case Reject => outcome < 0
      case More(p) => outcome == 0 && Current(state, nextbits, v) == p
      case Output(w) => outcome == 1 && state == 0 && v == w && v <= MAX_CODE
  {
    state, nextbits, v := state0, nextbits0, v0;
    if sc < 0x80 {
      if state != 0 {
        return -1, state, nextbits, v; // in a sequence, but didn't continue
      }
      v := sc;
    } else if sc / 0x40 == 2 {
      if state != 0 {
        if nextbits == 0 || Intersects(sc, nextbits) {
          v := v * 0x40 + sc % 0x40;
          nextbits := 0;
          state := state - 1;
          if state != 0 {
            return 0, state, nextbits, v;
          }
          if v > MAX_CODE {
            return -1, state, nextbits, v;
          }
        } else {
          return -1, state, nextbits, v; // missing required bits
        }
      } else {
        return -1, state, nextbits, v; // not in a sequence
      }
    } else if state != 0 {
      return -1, state, nextbits, v; // already in a sequence
    } else {
      if sc / 0x20 == 6 {
        if sc % 0x20 / 2 != 0 {
          return 0, 1, nextbits, sc % 0x20;
        }
      } else if sc / 0x10 == 14 {
        v := sc % 0x10;
        if v == 0 {
          nextbits := 0x20;
        }
        return 0, 2, nextbits, v;
      } else if sc / 8 == 30 {
        v := sc % 8;
        if v <= 4 {
          if v == 0 {
            nextbits := 0x30;
          }
          return 0, 3, nextbits, v;
        }
      }
      return -1, state, nextbits, v;
    }
    outcome := 1;
  }

  /** The part of the loop that outputs `v`, at index `j`. */
  method OutputCode(us: array?<Unit>, j: nat, v: Code, pending: Unit) returns (ok: bool, j': nat, pending': Unit)
    requires us != null && Emit(v, pending).Some? ==> j + |Emit(v, pending).value.0| <= us.Length
    modifies us
    ensures ok <==> Emit(v, pending).Some?
    ensures ok ==> j' == j + |Emit(v, pending).value.0| && pending' == Emit(v, pending).value.1
    ensures ok && us != null ==> us[..] == old(us[..j]) + Emit(v, pending).value.0 + old(us[j'..])
  {
    j', pending' := j, pending;
    if v > 0xFFFF {
      if pending' != 0 {
        if us != null {
          us[j'] := pending'; // accept previously written unpaired surrogate
        }
        j' := j' + 1;
        pending' := 0;
      }
      if us != null {
        var w := v - 0x10000;
        us[j'] := 0xD800 + w / 0x400;
        us[j' + 1] := 0xDC00 + w % 0x400;
      }
      j' := j' + 1;
      j' := j' + 1;
    } else {
      if 0xD800 <= v <= 0xDFFF && pending' != 0 && IsTrail(v) {
        return false, j', pending'; // this would look like a surrogate pair
      }
      if pending' != 0 {
        if us != null {
          us[j'] := pending';
        }
        j' := j' + 1;
        pending' := 0;
      }
      if IsLead(v) {
        pending' := v; // not accepted yet
      } else {
        if us != null {
          us[j'] := v;
        }
        j' := j' + 1;
      }
    }
    ok := true;
  }

  /** Measures when `us` is null, and else fills it. */
  method Utf8ishToUtf16ish(s: seq<Byte>, us: array?<Unit>) returns (r: int)
    requires us != null ==> Decode(s).Some? && |Decode(s).value| <= us.Length
    modifies us
    ensures r == if Decode(s).Some? then |Decode(s).value| else -1
    ensures us != null ==> us[..] == Decode(s).value + old(us[r..])
  {
    var state, nextbits, v, j, i := 0, 0, 0, 0, 0;
    var pending: Unit := 0;
    ghost var done: seq<Unit> := [];
    DecodingBegins(s);
    while i < |s|
      invariant 0 <= i <= |s| && state >= 0 && v >= 0
      invariant j == |done| && Decoding(s, i, Current(state, nextbits, v), pending, done)
      invariant state == 0 ==> nextbits == 0
      invariant us != null ==> j <= us.Length && us[..] == done + old(us[j..])
      decreases |s| - i
    {
      ghost var p := Current(state, nextbits, v);
      DecodingFeeds(s, i, p, pending, done);
      var outcome;
      outcome, state, nextbits, v := FeedByte(state, nextbits, v, s[i]);
      if outcome < 0 {
        return -1;
      }
      if outcome == 0 {
        i := i + 1;
        continue;
      }
      DecodingEmits(s, i, v, pending, done);
      ghost var e := Emit(v, pending);
      var ok;
      ok, j, pending := OutputCode(us, j, v, pending);
      if !ok {
        return -1;
      }
      i := i + 1;
      done := done + e.value.0;
    }
    if pending != 0 {
      if us != null {
        us[j] := pending;
      }
      j := j + 1;
    }
    if state != 0 {
      return -1;
    }
    r := j;
  }

  /** What has been output, and what the units from `i` on will add to it. */
  ghost predicate Encoding(us: seq<Unit>, i: nat, done: seq<Byte>) {
    i <= |us| && Encode(us) == done + Encode(us[i..])
  }

  lemma EncodingBegins(us: seq<Unit>)
    ensures Encoding(us, 0, [])
  {
    assert us[0..] == us;
  }

  lemma EncodingEnds(us: seq<Unit>, i: nat, done: seq<Byte>)
    requires Encoding(us, i, done) && i == |us|
    ensures done == Encode(us)
  {
    assert us[i..] == [];
  }

  lemma EncodingStep(us: seq<Unit>, i: nat, done: seq<Byte>, n: nat, e: seq<Byte>)
    requires i < |us| && Encoding(us, i, done)
    requires n == HeadLength(us[i..]) && e == EncodeCode(HeadCode(us[i..]))
    ensures Encoding(us, i + n, done + e) && |done + e| <= |Encode(us)|
  {
    assert us[i..][n..] == us[i + n..];
    assert Encode(us[i..]) == e + Encode(us[i + n..]);
    Associate(done, e, Encode(us[i + n..]));
  }

  /** The buffer, if there is one, starts with `done`, and the rest is as it `was`. */
  ghost predicate FilledTo(s: array?<Byte>, done: seq<Byte>, was: seq<Byte>)
    reads s
  {
    s != null ==> s.Length == |was| && |done| <= |was| && s[..] == done + was[|done|..]
  }

  /** Measures when `s` is null, and else fills it. */
  method Utf16ishToUtf8ish(us: seq<Unit>, s: array?<Byte>) returns (j: nat)
    requires s != null ==> |Encode(us)| <= s.Length
    modifies s
    ensures j == |Encode(us)|
    ensures s != null ==> s[..] == Encode(us) + old(s[j..])
  {
    j := 0;
    var i := 0;
    ghost var done: seq<Byte>, was: seq<Byte> := [], if s != null then s[..] else [];
    EncodingBegins(us);
    while i < |us|
      invariant j == |done| && Encoding(us, i, done) && FilledTo(s, done, was)
      decreases |us| - i
    {
      i, j, done := EncodeOne(us, i, s, j, done, was);
    }
    EncodingEnds(us, i, done);
  }

  method EncodeOne(us: seq<Unit>, i: nat, s: array?<Byte>, j: nat, ghost done: seq<Byte>, ghost was: seq<Byte>)
      returns (i': nat, j': nat, ghost done': seq<Byte>)
    requires i < |us| && j == |done| && Encoding(us, i, done) && FilledTo(s, done, was)
    requires s != null ==> |Encode(us)| <= s.Length
    modifies s
    ensures i < i' <= |us| && j' == |done'| && Encoding(us, i', done') && FilledTo(s, done', was)
  {
    var wc, n := ReadCode(us, i);
    done' := done + EncodeCode(wc);
    EncodingStep(us, i, done, n, EncodeCode(wc));
    j' := PutCode(wc, s, j, done, was);
    i' := i + n;
  }

  method PutCode(wc: Code, s: array?<Byte>, j: nat, ghost done: seq<Byte>, ghost was: seq<Byte>) returns (j': nat)
    requires j == |done| && FilledTo(s, done, was)
    requires s != null ==> |done + EncodeCode(wc)| <= s.Length
    modifies s
    ensures j' == |done + EncodeCode(wc)| && FilledTo(s, done + EncodeCode(wc), was)
  {
    assert s != null ==> s[..j] == done;
    j' := WriteCode(wc, s, j);
  }

  /** The part of the loop that unparses surrogates. */
  method ReadCode(us: seq<Unit>, i: nat) returns (wc: Code, n: nat)
    requires i < |us|
    ensures wc == HeadCode(us[i..]) && n == HeadLength(us[i..])
  {
    var w: int := us[i];
    n := 1;
    if w / 0x800 == 27 {
      if w / 0x400 != 54 {
        // count as one
      } else if i + 1 >= |us| || us[i + 1] / 0x400 != 55 {
        // let the misplaced surrogate through
      } else {
        n := 2;
        var low: int := us[i + 1];
        w := w % 0x400 * 0x400 + low % 0x400;
        w := w + 0x10000;
      }
    }
    wc := w;
  }

  /** The codes of five and six bytes never arise. */
  method WriteCode(wc: Code, s: array?<Byte>, j: nat) returns (j': nat)
    requires s != null ==> j + |EncodeCode(wc)| <= s.Length
    modifies s
    ensures j' == j + |EncodeCode(wc)|
    ensures s != null ==> s[..] == old(s[..j]) + EncodeCode(wc) + old(s[j'..])
  {
    if s == null {
      if wc < 0x80 {
        j' := j + 1;
      } else if wc < 0x800 {
        j' := j + 2;
      } else if wc < 0x10000 {
        j' := j + 3;
      } else {
        j' := j + 4;
      }
    } else {
      if wc < 0x80 {
        s[j] := wc;
        j' := j + 1;
      } else if wc < 0x800 {
        s[j], s[j + 1] := 0xC0 + wc / 0x40, 0x80 + wc % 0x40;
        j' := j + 2;
      } else if wc < 0x10000 {
        s[j], s[j + 1], s[j + 2] := 0xE0 + wc / 0x1000, 0x80 + wc / 0x40 % 0x40, 0x80 + wc % 0x40;
        j' := j + 3;
      } else {
        s[j], s[j + 1], s[j + 2], s[j + 3] :=
          0xF0 + wc / 0x40000, 0x80 + wc / 0x1000 % 0x40, 0x80 + wc / 0x40 % 0x40, 0x80 + wc % 0x40;
        j' := j + 4;
      }
    }
  }
}

/** NUL-terminated strings, converted by measuring first and then filling. */
module WideBuffers {
  import opened Options
  import opened WideChars
  import opened WideStrings

  const MAX_IDEAL_BUFFER_SIZE := 4096

  /** `wide_buffer` and `wide_buffer_size` of the `rktio_t` record. */
  class WideBuffer {
    var wideBuffer: array?<Unit>
    var wideBufferSize: nat

    ghost predicate Valid()
      reads this
    {
      wideBufferSize == if wideBuffer == null then 0 else wideBuffer.Length
    }

    constructor ()
      ensures Valid()
    {
      wideBuffer, wideBufferSize := null, 0;
    }

    /** `rktio_convert_to_wchar` on the bytes `s` and their terminator; null is
        `RKTIO_ERROR_INVALID_PATH`. */
    method ConvertToWchar(s: seq<Byte>, doCopy: bool) returns (ws: array?<Unit>)
      requires Valid()
      modifies this, wideBuffer
      ensures Valid()
      ensures ws == null <==> Decode(s + [0]).None?
      ensures ws != null ==>
        |Decode(s + [0]).value| <= ws.Length && ws[..|Decode(s + [0]).value|] == Decode(s + [0]).value
      ensures ws != null ==> fresh(ws) || (!doCopy && ws == old(wideBuffer))
      ensures ws == null || doCopy ==> unchanged(this)
    {
      var len := Utf8ishToUtf16ish(s + [0], null);
      if len < 0 {
        return null;
      }
      if doCopy {
        ws := new Unit[len];
      } else if len > wideBufferSize {
        wideBufferSize := len;
        ws := new Unit[len];
        wideBuffer := ws;
      } else if len < MAX_IDEAL_BUFFER_SIZE && wideBufferSize > MAX_IDEAL_BUFFER_SIZE {
        wideBufferSize := MAX_IDEAL_BUFFER_SIZE;
        ws := new Unit[MAX_IDEAL_BUFFER_SIZE];
        wideBuffer := ws;
      } else {
        TerminatorDecodes(s);
        ws := wideBuffer;
      }
      len := Utf8ishToUtf16ish(s + [0], ws);
    }
  }

  /** `rktio_convert_from_wchar`: the units up to the first NUL, with it. */
  method ConvertFromWchar(ws: array<Unit>) returns (s: array<Byte>)
    requires 0 in ws[..]
    ensures fresh(s)
    ensures exists l: nat :: l < ws.Length && ws[l] == 0 && 0 !in ws[..l] && s[..] == Encode(ws[..l] + [0])
  {
    var l := 0;
    while ws[l] != 0
      invariant 0 <= l < ws.Length && 0 !in ws[..l]
      decreases ws.Length - l
    {
      l := l + 1;
    }
    assert ws[..l + 1] == ws[..l] + [0];
    var len := Utf16ishToUtf8ish(ws[..l + 1], null);
    s := new Byte[len];
    len := Utf16ishToUtf8ish(ws[..l + 1], s);
  }

  lemma {:induction false} EncodeNul(us: seq<Unit>)
    ensures Encode(us + [0]) == Encode(us) + [0]
    decreases |us|
  {
    if us == [] {
      assert Encode([0]) == EncodeCode(0) + Encode([0][1..]);
    } else {
      var n := HeadLength(us);
      assert HeadLength(us + [0]) == n && HeadCode(us + [0]) == HeadCode(us);
      assert (us + [0])[n..] == us[n..] + [0];
      EncodeNul(us[n..]);
    }
  }

  lemma {:induction false} NulsAgree(us: seq<Unit>)
    ensures 0 in us ==> 0 in Encode(us)
    ensures Encode(us) != [] && Encode(us)[|Encode(us)| - 1] == 0 ==> us[|us| - 1] == 0
    decreases |us|
  {
    if us != [] {
      var n := HeadLength(us);
      NulsAgree(us[n..]);
      if us[0] == 0 {
        assert Encode(us)[0] == 0;
      } else if 0 in us {
        assert us == us[..n] + us[n..];
      }
    }
  }

  lemma TerminatorDecodes(s: seq<Byte>)
    requires Decode(s + [0]).Some?
    ensures Decode(s + [0]).value != []
  {
    DecodesIffEncoded(s + [0], Decode(s + [0]).value);
  }

  lemma SameBeforeNul(a: seq<Byte>, b: seq<Byte>)
    requires a + [0] == b + [0]
    ensures a == b
  {
    assert a == (a + [0])[..|a|];
  }

  lemma EncodesTerminated(s: seq<Byte>, us: seq<Unit>) returns (body: seq<Unit>)
    requires Encode(us) == s + [0]
    ensures us == body + [0] && Encode(body) == s
  {
    NulsAgree(us);
    assert (s + [0])[|s|] == 0;
    body := us[..|us| - 1];
    assert us == body + [0];
    EncodeNul(body);
    SameBeforeNul(Encode(body), s);
  }

  /** Converting a C string to wide and back returns it: the terminator and no
      other unit becomes NUL, so nothing is cut off on the way back. */
  lemma CStringRoundTrip(s: seq<Byte>, us: seq<Unit>) returns (body: seq<Unit>)
    requires 0 !in s && Decode(s + [0]) == Some(us)
    ensures us == body + [0] && 0 !in body
    ensures Encode(us) == s + [0]
    ensures Decode(s) == Some(body)
  {
    DecodesIffEncoded(s + [0], us);
    body := EncodesTerminated(s, us);
    NulsAgree(body);
    DecodesIffEncoded(s, body);
  }
}
