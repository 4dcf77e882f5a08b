/** Text mode on Windows (`rktio_fd.c`): newlines are CR LF outside, and a CR may have to wait for its LF. */
module TextCoding {
  import opened Counting
  import opened Options

  /** A byte as the client sees it, and whether it stands for CR LF. */
  datatype Byte = Byte(c: char, converted: bool)

  function Encode(s: string): string {
    if s == [] then [] else (if s[0] == '\n' then ['\r', '\n'] else [s[0]]) + Encode(s[1..])
  }

  function Decode(s: string): seq<Byte> {
    if s == [] then []
    else if |s| > 1 && s[0] == '\r' && s[1] == '\n' then [Byte('\n', true)] + Decode(s[2..])
    else [Byte(s[0], false)] + Decode(s[1..])
  }

  /** The bytes of a client's text, as reading them back should give them. */
  function Text(s: string): (t: seq<Byte>)
    ensures |t| == |s|
  {
    if s == [] then [] else [Byte(s[0], s[0] == '\n')] + Text(s[1..])
  }

  lemma EncodeFirst(s: string)
    ensures s != [] ==> Encode(s) != [] && Encode(s)[0] == if s[0] == '\n' then '\r' else s[0]
  {
  }

  /** Every text comes back, and only the newlines are marked as converted. */
  lemma {:induction false} DecodeEncoded(s: string)
    ensures Decode(Encode(s)) == Text(s)
  {
    if s != [] {
      var rest := Encode(s[1..]);
      DecodeEncoded(s[1..]);
      EncodeFirst(s[1..]);
      if s[0] == '\n' {
        assert Encode(s)[2..] == rest;
      } else {
        assert Encode(s)[1..] == rest;
        assert |Encode(s)| > 1 ==> Encode(s)[1] == rest[0] != '\n';
      }
    }
  }

  lemma {:induction false} EncodeParts(s: string, t: string)
    ensures Encode(s + t) == Encode(s) + Encode(t)
  {
    if s == [] {
      assert s + t == t;
    } else {
      assert (s + t)[1..] == s[1..] + t;
      EncodeParts(s[1..], t);
    }
  }

  /** A stream may be decoded in two parts if they do not divide a CR LF. */
  predicate Divides(s: string, t: string) {
    s != [] && s[|s| - 1] == '\r' && t != [] && t[0] == '\n'
  }

  lemma {:induction false} DecodeParts(s: string, t: string)
    requires !Divides(s, t)
    ensures Decode(s + t) == Decode(s) + Decode(t)
    decreases |s|
  {
    if s == [] {
      assert s + t == t;
    } else if |s| > 1 && s[0] == '\r' && s[1] == '\n' {
      assert (s + t)[2..] == s[2..] + t;
      DecodeParts(s[2..], t);
    } else {
      assert (s + t)[1..] == s[1..] + t;
      DecodeParts(s[1..], t);
    }
  }

  /** Otherwise the two parts give one byte more. */
  lemma {:induction false} DecodeDivided(s: string, t: string)
    requires Divides(s, t)
    ensures |Decode(s)| + |Decode(t)| == |Decode(s + t)| + 1
    decreases |s|
  {
    if |s| == 1 {
      assert s[1..] == [] && (s + t)[2..] == t[1..];
      assert Decode(t) == [Byte('\n', false)] + Decode(t[1..]);
    } else if s[0] == '\r' && s[1] == '\n' {
      assert (s + t)[2..] == s[2..] + t;
      DecodeDivided(s[2..], t);
    } else {
      assert (s + t)[1..] == s[1..] + t;
      DecodeDivided(s[1..], t);
    }
  }

  // Output

  const WINDOW: nat := 4096

  function Newlines(s: string): nat {
    if s == [] then 0 else Newlines(s[..|s| - 1]) + if s[|s| - 1] == '\n' then 1 else 0
  }

  lemma {:induction false} EncodedLength(s: string)
    ensures |Encode(s)| == |s| + Newlines(s)
    ensures Newlines(s) == 0 <==> '\n' !in s
  {
    if s != [] {
      var front, last := s[..|s| - 1], s[|s| - 1];
      assert s == front + [last] && [last][1..] == [];
      EncodedLength(front);
      EncodeParts(front, [last]);
    }
  }

  lemma {:induction false} EncodeNothing(s: string)
    requires '\n' !in s
    ensures Encode(s) == s
  {
    if s != [] {
      assert s[0] in s;
      EncodeNothing(s[1..]);
    }
  }

  /** What the text to write is cut down to. */
  function Window(s: string): string {
    if |s| > WINDOW then s[..WINDOW] else s
  }

  /** What is handed to the system for a text: without a newline at the start, all of it. */
  function Sent(orig: string): string {
    if '\n' in Window(orig) then Encode(Window(orig)) else orig
  }

  /** That is the first 4096 bytes, when there are more and one of these is a newline. */
  lemma SentExactly(s: string)
    ensures |s| <= 4096 ==> Sent(s) == Encode(s)
    ensures |s| > 4096 ==> Sent(s) == if '\n' in s[..4096] then Encode(s[..4096]) else s
  {
    if '\n' !in s {
      EncodeNothing(s);
    }
  }

  lemma EncodeOneMore(s: string, i: nat)
    requires i < |s|
    ensures Encode(s[..i + 1]) == Encode(s[..i]) + if s[i] == '\n' then ['\r', '\n'] else [s[i]]
    ensures Newlines(s[..i + 1]) == Newlines(s[..i]) + if s[i] == '\n' then 1 else 0
    ensures |Encode(s[..i + 1])| <= |Encode(s)|
  {
    assert s[..i + 1] == s[..i] + [s[i]] && [s[i]][1..] == [];
    assert s[..i + 1][..i] == s[..i];
    EncodeParts(s[..i], [s[i]]);
    assert s == s[..i + 1] + s[i + 1..];
    EncodeParts(s[..i + 1], s[i + 1..]);
  }

  method CountNewlines(buffer: string) returns (newlines: nat)
    ensures newlines == Newlines(buffer)
  {
    newlines := 0;
    var i := 0;
    while i < |buffer|
      invariant 0 <= i <= |buffer| && newlines == Newlines(buffer[..i])
    {
      EncodeOneMore(buffer, i);
      if buffer[i] == '\n' {
        newlines := newlines + 1;
      }
      i := i + 1;
    }
    assert buffer[..i] == buffer;
  }

  /** `adjust_output_text` */
  method AdjustOutputText(buffer: string) returns (out: string, changed: bool)
    ensures changed <==> '\n' in Window(buffer)
    ensures out == Sent(buffer)
  {
    var text := if |buffer| > WINDOW then buffer[..WINDOW] else buffer;
    var newlines := CountNewlines(text);
    EncodedLength(text);
    if newlines == 0 {
      return buffer, false;
    }
    var newBuffer := new char[|text| + newlines](_ => '\0');
    var i, j := 0, 0;
    while i < |text|
      invariant 0 <= i <= |text| && j == |Encode(text[..i])| <= newBuffer.Length
      invariant newBuffer[..j] == Encode(text[..i])
    {
      EncodeOneMore(text, i);
      ghost var before := newBuffer[..j];
      if text[i] == '\n' {
        newBuffer[j] := '\r';
        newBuffer[j + 1] := '\n';
        j := j + 2;
      } else {
        newBuffer[j] := text[i];
        j := j + 1;
      }
      assert newBuffer[..|before|] == before;
      i := i + 1;
    }
    assert text[..i] == text;
    out, changed := newBuffer[..], true;
  }

  /** What is handed to the system for a text is its encoding unless the first newline comes after the window. */
  lemma OutputRightIff(buffer: string)
    ensures (exists k :: 0 <= k <= |buffer| && Sent(buffer) == Encode(buffer[..k]) && (k == |buffer| || k == WINDOW))
            <==> ('\n' in Window(buffer) || '\n' !in buffer)
  {
    if '\n' in Window(buffer) {
      var k := if |buffer| > WINDOW then WINDOW else |buffer|;
      assert buffer[..k] == Window(buffer);
    } else if '\n' !in buffer {
      EncodeNothing(buffer);
      assert buffer[..|buffer|] == buffer;
    } else {
      forall k | 0 <= k <= |buffer| && (k == |buffer| || k == WINDOW)
        ensures buffer != Encode(buffer[..k])
      {
        EncodedLength(buffer[..k]);
        if k == |buffer| {
          assert buffer[..k] == buffer;
        } else {
          assert buffer[..k] == Window(buffer);
        }
      }
    }
  }

  /** `recount_output_text`: how many bytes of the text the written bytes stand for, rounded up. */
  method RecountOutputText(orig: string, wrote: nat) returns (i: nat)
    requires wrote <= |Encode(orig)|
    ensures i <= |orig| && wrote <= |Encode(orig[..i])| <= wrote + 1
    ensures i > 0 ==> |Encode(orig[..i - 1])| < wrote
  {
    var j := 0;
    i := 0;
    assert orig[..|orig|] == orig;
    while j < wrote
      invariant 0 <= i <= |orig| && j == |Encode(orig[..i])| <= wrote + 1
      invariant i > 0 ==> |Encode(orig[..i - 1])| < wrote
      decreases |orig| - i
    {
      EncodeOneMore(orig, i);
      if orig[i] == '\n' {
        j := j + 2;
      } else {
        j := j + 1;
      }
      i := i + 1;
    }
  }

  /** At the boundary of a character, that is the exact inverse. */
  lemma RecountInverts(orig: string, i: nat, k: nat)
    requires i <= |orig| && k <= |orig|
    requires var wrote := |Encode(orig[..k])|;
      wrote <= |Encode(orig[..i])| && (i > 0 ==> |Encode(orig[..i - 1])| < wrote)
    ensures i == k
  {
    if k < i {
      EncodeGrows(orig, k, i - 1);
    } else if i < k {
      EncodeGrows(orig, i, k);
      EncodeOneMore(orig, i);
      EncodeGrows(orig, i + 1, k);
    }
  }

  lemma EncodeGrows(s: string, i: nat, k: nat)
    requires i <= k <= |s|
    ensures |Encode(s[..i])| <= |Encode(s[..k])|
  {
    assert s[..k] == s[..i] + s[i..k];
    EncodeParts(s[..i], s[i..k]);
  }

  /** Between CR and LF, the LF counts as written although it is not. */
  lemma RecountInsideNewline(orig: string, i: nat, wrote: nat)
    requires 0 < i <= |orig| && |Encode(orig[..i - 1])| < wrote < |Encode(orig[..i])|
    ensures orig[i - 1] == '\n' && wrote <= |Encode(orig)| && Encode(orig)[wrote - 1] == '\r'
  {
    EncodeOneMore(orig, i - 1);
    assert orig == orig[..i] + orig[i..];
    EncodeParts(orig[..i], orig[i..]);
    assert Encode(orig)[wrote - 1] == Encode(orig[..i])[wrote - 1];
  }

  /** So the count tells what was written if and only if no LF is cut off from its CR. */
  lemma CountRightIff(orig: string, i: nat, wrote: nat)
    requires i <= |orig| && wrote <= |Encode(orig[..i])| <= wrote + 1 && wrote <= |Encode(orig)|
    requires i > 0 ==> |Encode(orig[..i - 1])| < wrote
    ensures Encode(orig[..i]) == Encode(orig)[..wrote] <==> wrote == |Encode(orig)| || Encode(orig)[wrote] != '\n'
  {
    var done, rest := Encode(orig[..i]), Encode(orig[i..]);
    assert orig == orig[..i] + orig[i..];
    EncodeParts(orig[..i], orig[i..]);
    if wrote == |done| {
      EncodeFirst(orig[i..]);
    } else if i > 0 {
      EncodeOneMore(orig, i - 1);
    }
  }

  /**
   * The next size to try when the system refuses a write. The test that is meant to keep CR and LF
   * together looks at one byte twice, so it never holds.
   */
  function Halved(buffer: string, towrite: nat): (n: int)
    requires towrite <= |buffer|
    ensures n == towrite / 2
  {
    var half := towrite / 2;
    if half > 0 && buffer[half - 1] == '\r' && buffer[half - 1] == '\n' then half - 1 else half
  }

  /** What `refused` refusals leave of `n` bytes. */
  function Cut(n: nat, refused: nat): (c: nat)
    ensures c <= n
  {
    if refused == 0 then n else Cut(n, refused - 1) / 2
  }

  lemma {:induction false} CutIsQuotient(n: nat, k: nat)
    ensures Cut(n, k) == n / Pow2(k)
  {
    if k > 0 {
      CutIsQuotient(n, k - 1);
      var d, q := Pow2(k - 1), Cut(n, k - 1);
      HalfQuotient(n, d, q / 2, q % 2, n % d);
    }
  }

  lemma HalfQuotient(n: nat, d: nat, h: nat, b: nat, r: nat)
    requires b < 2 && r < d && n == d * (2 * h + b) + r
    ensures n / (2 * d) == h
  {
    assert d * (2 * h + b) == 2 * d * h + d * b;
    DivModOf(n, 2 * d, h, d * b + r);
  }

  lemma {:induction false} StaysZero(n: nat, k: nat, m: nat)
    requires k <= m && Cut(n, k) == 0
    ensures Cut(n, m) == 0
  {
    if k < m {
      StaysZero(n, k, m - 1);
    }
  }

  function Least(a: nat, b: nat): nat {
    if a <= b then a else b
  }

  /** What a write leaves in the file when the system refuses `refused` sizes and then takes up to `taken` bytes. */
  function Written(buffer: string, refused: nat, taken: nat): Option<string> {
    if refused > 0 && Cut(|buffer|, refused) == 0 then None
    else Some(buffer[..Least(Cut(|buffer|, refused), taken)])
  }

  /** The write fails when halving gets to zero, and otherwise takes as much as is left, or as the system does. */
  lemma WrittenExactly(buffer: string, refused: nat, taken: nat)
    ensures var out := Written(buffer, refused, taken);
      && (out == None <==> refused > 0 && |buffer| / Pow2(refused) == 0)
      && (out.Some? ==> out.value <= buffer)
      && (out.Some? && taken <= |buffer| / Pow2(refused) ==> |out.value| == taken)
      && (out.Some? && taken > |buffer| / Pow2(refused) ==> |out.value| == |buffer| / Pow2(refused))
  {
    CutIsQuotient(|buffer|, refused);
  }

  /** The loop around `WriteFile`, which gives up when a size of zero is reached. */
  method WriteHalving(buffer: string, refused: nat, taken: nat) returns (out: Option<string>)
    ensures out == Written(buffer, refused, taken)
  {
    var towrite, k := |buffer|, 0;
    while k < refused
      invariant 0 <= k <= refused && towrite == Cut(|buffer|, k)
      invariant k > 0 ==> towrite > 0
    {
      towrite := Halved(buffer, towrite);
      k := k + 1;
      if towrite == 0 {
        StaysZero(|buffer|, k, refused);
        return None;
      }
    }
    out := Some(buffer[..Least(towrite, taken)]);
  }

  /** Writing to a file in text mode: what the file gets, and how many bytes of the text that is said to be. */
  method WriteText(orig: string, refused: nat, taken: nat) returns (out: Option<string>, count: nat)
    ensures out == Written(Sent(orig), refused, taken) && count <= |orig|
    ensures out.Some? ==> (out.value == Encode(orig[..count]) <==> WholeNewlines(orig, |out.value|))
  {
    var buffer, changed := AdjustOutputText(orig);
    out := WriteHalving(buffer, refused, taken);
    count := 0;
    if out.Some? {
      if changed {
        count := RecountWindow(orig, |out.value|);
      } else {
        count := |out.value|;
        EncodeSameIff(out.value);
      }
    }
  }

  /** The count for an encoded window. */
  method RecountWindow(orig: string, wrote: nat) returns (i: nat)
    requires wrote <= |Encode(Window(orig))|
    ensures i <= |orig|
    ensures Encode(orig[..i]) == Encode(Window(orig))[..wrote] <==>
            wrote == |Encode(Window(orig))| || Encode(Window(orig))[wrote] != '\n'
  {
    WindowEncoded(orig);
    i := RecountOutputText(orig, wrote);
    RecountInWindow(orig, i, wrote);
    CountRightIff(Window(orig), i, wrote);
  }

  /** No newline is divided where the output ends, or escaped the encoding because it is past the window. */
  predicate WholeNewlines(orig: string, wrote: nat) {
    if '\n' in Window(orig) then wrote >= |Sent(orig)| || Sent(orig)[wrote] != '\n'
    else wrote <= |orig| && '\n' !in orig[..wrote]
  }

  lemma WindowEncoded(orig: string)
    ensures |Encode(Window(orig))| <= |Encode(orig)|
  {
    assert orig[..|orig|] == orig;
    EncodeGrows(orig, |Window(orig)|, |orig|);
  }

  lemma RecountInWindow(orig: string, i: nat, wrote: nat)
    requires i <= |orig| && wrote <= |Encode(Window(orig))|
    requires i > 0 ==> |Encode(orig[..i - 1])| < wrote
    ensures i <= |Window(orig)| && orig[..i] == Window(orig)[..i]
    ensures i > 0 ==> orig[..i - 1] == Window(orig)[..i - 1]
  {
    if i > |Window(orig)| {
      EncodeGrows(orig, WINDOW, i - 1);
    }
  }

  lemma EncodeSameIff(s: string)
    ensures Encode(s) == s <==> '\n' !in s
  {
    EncodedLength(s);
    if '\n' !in s {
      EncodeNothing(s);
    }
  }

  /** One refusal loses the LF in "a", newline, "bc". */
  lemma HalvingLosesNewline(orig: string)
    requires orig == "a\nbc"
    ensures Encode(orig)[..|Encode(orig)| / 2] == "a\r" && !WholeNewlines(orig, |Encode(orig)| / 2)
  {
    EncodeOneMore(orig, 0);
    EncodeOneMore(orig, 1);
    EncodeOneMore(orig, 2);
    EncodeOneMore(orig, 3);
    assert orig[..4] == orig && orig[..0] == [];
    assert Encode(orig) == "a\r\nbc" && orig[1] in orig;
  }
}

module TextReading {
  import opened Sequences
  import opened Options
  import opened TextCoding

  /** One call: the room in the buffer, and what the system reads into it. */
  datatype ReadCall = ReadCall(len: nat, chunk: string)

  function Waiting(pending: Option<char>): string {
    if pending.Some? then [pending.value] else []
  }

  /** With one byte of room, a byte that waits is delivered without reading unless it is a CR. */
  predicate Possible(pending: Option<char>, r: ReadCall) {
    && r.len > 0
    && |r.chunk| <= match pending
       case None => r.len
       case Some(b) => if r.len > 1 then r.len - 1 else if b == '\r' then 1 else 0
  }

  /** What a call delivers, and the byte that waits after it. */
  function Step(pending: Option<char>, r: ReadCall): (seq<Byte>, Option<char>)
    requires Possible(pending, r)
  {
    var raw := Waiting(pending) + r.chunk;
    if pending.None? && raw != [] && raw[|raw| - 1] == '\r' then (Decode(raw[..|raw| - 1]), Some('\r'))
    else if pending == Some('\r') && r.len == 1 && |raw| == 2 && raw[1] != '\n' then
      ([Byte('\r', false)], Some(raw[1]))
    else (Decode(raw), None)
  }

  /** A call that began with a waiting byte delivers a CR at its end, and an LF follows. */
  predicate Splits(pending: Option<char>, r: ReadCall, rest: string)
    requires Possible(pending, r)
  {
    pending.Some? && Step(pending, r).1.None? && Divides(Waiting(pending) + r.chunk, rest)
  }

  lemma OneCall(pending: Option<char>, r: ReadCall, rest: string)
    requires Possible(pending, r)
    ensures var (out, pending') := Step(pending, r);
      var before, after := Decode(Waiting(pending) + r.chunk + rest), Decode(Waiting(pending') + rest);
      if Splits(pending, r, rest) then |out| + |after| == |before| + 1 else out + after == before
  {
    var raw := Waiting(pending) + r.chunk;
    var (out, pending') := Step(pending, r);
    assert Waiting(pending) + r.chunk + rest == raw + rest;
    if pending.None? && raw != [] && raw[|raw| - 1] == '\r' {
      var front := raw[..|raw| - 1];
      assert raw + rest == front + (['\r'] + rest);
      DecodeParts(front, ['\r'] + rest);
    } else if pending'.Some? {
      assert raw == ['\r', raw[1]];
      assert (raw + rest)[1..] == [raw[1]] + rest;
    } else {
      assert Waiting(pending') + rest == rest;
      if Divides(raw, rest) {
        DecodeDivided(raw, rest);
      } else {
        DecodeParts(raw, rest);
      }
    }
  }

  // Whole streams

  function Chunks(calls: seq<ReadCall>): string {
    if calls == [] then [] else calls[0].chunk + Chunks(calls[1..])
  }

  predicate AllPossible(pending: Option<char>, calls: seq<ReadCall>)
    decreases |calls|
  {
    calls == [] || (Possible(pending, calls[0]) && AllPossible(Step(pending, calls[0]).1, calls[1..]))
  }

  function Run(pending: Option<char>, calls: seq<ReadCall>): (seq<Byte>, Option<char>)
    requires AllPossible(pending, calls)
    decreases |calls|
  {
    if calls == [] then ([], pending)
    else
      var (out, next) := Step(pending, calls[0]);
      var (more, last) := Run(next, calls[1..]);
      (out + more, last)
  }

  /** How many newlines the calls divide, with `rest` still unread at the end. */
  function Divided(pending: Option<char>, calls: seq<ReadCall>, rest: string): nat
    requires AllPossible(pending, calls)
    decreases |calls|
  {
    if calls == [] then 0
    else
      (if Splits(pending, calls[0], Chunks(calls[1..]) + rest) then 1 else 0)
      + Divided(Step(pending, calls[0]).1, calls[1..], rest)
  }

  /** Every divided newline costs one byte, and without one the stream is decoded as a whole. */
  lemma {:induction false} RunDecodes(pending: Option<char>, calls: seq<ReadCall>, rest: string)
    requires AllPossible(pending, calls)
    ensures var (out, last) := Run(pending, calls);
      var whole, after := Decode(Waiting(pending) + (Chunks(calls) + rest)), Decode(Waiting(last) + rest);
      && |out| + |after| == |whole| + Divided(pending, calls, rest)
      && (Divided(pending, calls, rest) == 0 ==> out + after == whole)
    decreases |calls|
  {
    if calls == [] {
      assert Chunks(calls) + rest == rest;
    } else {
      var (out, next) := Step(pending, calls[0]);
      var (more, last) := Run(next, calls[1..]);
      var later := Chunks(calls[1..]) + rest;
      OneCall(pending, calls[0], later);
      RunDecodes(next, calls[1..], rest);
      Associate(calls[0].chunk, Chunks(calls[1..]), rest);
      Associate(Waiting(pending), calls[0].chunk, later);
      Associate(out, more, Decode(Waiting(last) + rest));
    }
  }

  lemma NothingAdded(s: string)
    ensures Waiting(None) + (s + []) == s && s + [] == s
  {
  }

  /** The bytes of all calls together are the decoded stream exactly when no call divides a newline. */
  lemma StreamDecodedIff(calls: seq<ReadCall>)
    requires AllPossible(None, calls)
    ensures var (out, last) := Run(None, calls);
      out + Decode(Waiting(last)) == Decode(Chunks(calls)) <==> Divided(None, calls, []) == 0
  {
    var (out, last) := Run(None, calls);
    RunDecodes(None, calls, []);
    NothingAdded(Chunks(calls));
    NothingAdded(Waiting(last));
  }

  /** Calls for one byte each; while a CR waits, only the end of the stream makes one come back empty. */
  predicate OneByteReads(pending: Option<char>, calls: seq<ReadCall>)
    requires AllPossible(pending, calls)
    decreases |calls|
  {
    calls == [] ||
    (&& calls[0].len == 1
     && (pending == Some('\r') && calls[0].chunk == [] ==> Chunks(calls[1..]) == [])
     && OneByteReads(Step(pending, calls[0]).1, calls[1..]))
  }

  lemma {:induction false} OneByteReadsDivideNothing(pending: Option<char>, calls: seq<ReadCall>)
    requires AllPossible(pending, calls) && OneByteReads(pending, calls)
    ensures Divided(pending, calls, []) == 0
    decreases |calls|
  {
    if calls != [] {
      OneByteReadsDivideNothing(Step(pending, calls[0]).1, calls[1..]);
      var raw := Waiting(pending) + calls[0].chunk;
      assert pending.Some? && calls[0].chunk == [] ==> raw == [pending.value];
      assert pending.Some? && |calls[0].chunk| == 1 ==> raw == [pending.value, calls[0].chunk[0]];
    }
  }

  /** Reading byte by byte gives the decoded stream. */
  lemma OneByteReadsDecode(calls: seq<ReadCall>)
    requires AllPossible(None, calls) && OneByteReads(None, calls)
    ensures var (out, last) := Run(None, calls); out + Decode(Waiting(last)) == Decode(Chunks(calls))
  {
    OneByteReadsDivideNothing(None, calls);
    StreamDecodedIff(calls);
  }

  /** A call with room for more than the waiting byte can divide a newline: the CR is delivered, and the LF with it. */
  lemma WaitingByteDivides()
    ensures var calls := [ReadCall(2, "a\r"), ReadCall(2, "\r"), ReadCall(2, "\n")];
      AllPossible(None, calls) && Divided(None, calls, []) == 1
  {
    var c0, c1, c2 := ReadCall(2, "a\r"), ReadCall(2, "\r"), ReadCall(2, "\n");
    var calls := [c0, c1, c2];
    assert calls[1..] == [c1, c2] && [c1, c2][1..] == [c2] && [c2][1..] == [];
    assert Step(None, c0).1 == Some('\r');
    assert Waiting(Some('\r')) + c1.chunk == "\r\r";
    assert Step(Some('\r'), c1).1 == None;
    assert Chunks([c2]) + [] == "\n";
    assert Step(None, c2).1 == None;
  }
}

/** The buffer that is decoded in place, and the byte that waits. */
module TextInput {
  import opened Sequences
  import opened Options
  import opened TextCoding
  import opened TextReading

  /** The first bytes of the buffer and of the flags, as the client sees them. */
  ghost predicate Delivered(buffer: array<char>, isConverted: array?<bool>, j: nat, out: seq<Byte>)
    reads buffer, isConverted
  {
    && j == |out| <= buffer.Length && Room(isConverted, j)
    && (forall k :: 0 <= k < j ==> out[k].c == buffer[k])
    && (isConverted != null ==> forall k :: 0 <= k < j ==> out[k].converted == isConverted[k])
  }

  /** A client that does not want the flags passes null. */
  predicate Room(isConverted: array?<bool>, n: nat) {
    isConverted != null ==> n <= isConverted.Length
  }

  lemma DecodeOneMore(s: string, i: nat, done: seq<Byte>)
    requires i < |s| && done + Decode(s[i..]) == Decode(s)
    ensures var crlf := i + 1 < |s| && s[i] == '\r' && s[i + 1] == '\n';
      if crlf then (done + [Byte('\n', true)]) + Decode(s[i + 2..]) == Decode(s)
      else (done + [Byte(s[i], false)]) + Decode(s[i + 1..]) == Decode(s)
  {
    var t := s[i..];
    assert t[1..] == s[i + 1..];
    if i + 1 < |s| && s[i] == '\r' && s[i + 1] == '\n' {
      assert t[2..] == s[i + 2..];
      Associate(done, [Byte('\n', true)], Decode(s[i + 2..]));
    } else {
      Associate(done, [Byte(s[i], false)], Decode(s[i + 1..]));
    }
  }

  /** One more byte is delivered. */
  method Put(buffer: array<char>, isConverted: array?<bool>, j: nat, c: char, converted: bool, ghost done: seq<Byte>)
    requires Delivered(buffer, isConverted, j, done) && j < buffer.Length && Room(isConverted, j + 1)
    modifies buffer, isConverted
    ensures Delivered(buffer, isConverted, j + 1, done + [Byte(c, converted)])
    ensures forall k :: 0 <= k < buffer.Length && k != j ==> buffer[k] == old(buffer[k])
  {
    if isConverted != null {
      isConverted[j] := converted;
    }
    buffer[j] := c;
  }

  /** The loop of `adjust_input_text`, which writes behind where it reads. */
  method DecodeInPlace(buffer: array<char>, isConverted: array?<bool>, got: nat) returns (j: nat)
    requires got <= buffer.Length && Room(isConverted, got)
    modifies buffer, isConverted
    ensures Delivered(buffer, isConverted, j, Decode(old(buffer[..got])))
  {
    ghost var s, done: seq<Byte> := buffer[..got], [];
    var i := 0;
    j := 0;
    while i + 1 < got
      invariant j <= i <= got && forall k :: i <= k < got ==> buffer[k] == s[k]
      invariant Delivered(buffer, isConverted, j, done) && done + Decode(s[i..]) == Decode(s)
    {
      DecodeOneMore(s, i, done);
      var crlf := buffer[i] == '\r' && buffer[i + 1] == '\n';
      var c := if crlf then '\n' else buffer[i];
      Put(buffer, isConverted, j, c, crlf, done);
      done := done + [Byte(c, crlf)];
      j := j + 1;
      i := if crlf then i + 2 else i + 1;
    }
    if i < got {
      assert buffer[i] == s[i];
      DecodeOneMore(s, i, done);
      Put(buffer, isConverted, j, buffer[i], false, done);
      done := done + [Byte(s[i], false)];
      j := j + 1;
      i := i + 1;
    }
    assert s[i..] == [];
  }

  class TextFd {
    var hasPendingByte: bool
    var pendingByte: char

    function Pending(): Option<char>
      reads this
    {
      if hasPendingByte then Some(pendingByte) else None
    }

    constructor ()
      ensures Pending() == None
    {
      hasPendingByte, pendingByte := false, '\0';
    }

    /** `adjust_input_text`: a CR at the end is held back, except after a byte that had waited. */
    method AdjustInputText(buffer: array<char>, isConverted: array?<bool>, got: nat, offset: nat) returns (j: nat)
      requires got <= buffer.Length && Room(isConverted, got)
      modifies this, buffer, isConverted
      ensures var raw := old(buffer[..got]);
        var held := raw != [] && raw[|raw| - 1] == '\r' && offset == 0;
        && Delivered(buffer, isConverted, j, Decode(if held then raw[..|raw| - 1] else raw))
        && Pending() == if held then Some('\r') else old(Pending())
    {
      var n := got;
      if got > 0 && buffer[got - 1] == '\r' && offset == 0 {
        pendingByte := '\r';
        hasPendingByte := true;
        n := got - 1;
      }
      assert buffer[..n] == buffer[..got][..n];
      j := DecodeInPlace(buffer, isConverted, n);
    }

    /** `adjust_input_text_for_pending_cr` */
    method AdjustForPendingCr(buffer: array<char>, isConverted: array?<bool>, got: nat) returns (j: nat)
      requires Pending() == Some('\r') && got <= 1 <= buffer.Length && Room(isConverted, 1)
      modifies this, buffer, isConverted
      ensures j == 1
      ensures var r := ReadCall(1, old(buffer[..got]));
        && Delivered(buffer, isConverted, j, Step(old(Pending()), r).0)
        && Pending() == Step(old(Pending()), r).1
    {
      PendingCr(buffer[..got]);
      j := 1;
      if got == 0 {
        Put(buffer, isConverted, 0, '\r', false, []);
        hasPendingByte := false;
      } else if buffer[0] == '\n' {
        hasPendingByte := false;
        Put(buffer, isConverted, 0, '\n', true, []);
      } else {
        pendingByte := buffer[0];
        Put(buffer, isConverted, 0, '\r', false, []);
      }
    }

    /** `ReadFile` into the buffer */
    method Fill(buffer: array<char>, at: nat, chunk: string)
      requires at + |chunk| <= buffer.Length
      modifies buffer
      ensures buffer[..at + |chunk|] == old(buffer[..at]) + chunk
    {
      forall i | 0 <= i < |chunk| {
        buffer[at + i] := chunk[i];
      }
    }

    /** `do_read_converted` for a regular file in text mode, where `chunk` is what the system delivers, if it can. */
    method ReadConverted(buffer: array<char>, isConverted: array?<bool>, len: nat, chunk: Option<string>)
        returns (r: int)
      requires len <= buffer.Length && Room(isConverted, len)
      requires chunk.Some? ==> if len == 0 then chunk.value == [] else Possible(Pending(), ReadCall(len, chunk.value))
      modifies this, buffer, isConverted
      ensures r >= READ_ERROR
      ensures r == READ_ERROR <==> chunk == None && Reads(old(Pending()), len)
      ensures r == READ_ERROR ==> Pending() == if len > 1 then None else old(Pending())
      ensures r == READ_EOF <==> chunk == Some([]) && old(Pending()) == None
      ensures r >= 0 && len == 0 ==> r == 0 && Pending() == old(Pending())
      ensures r != READ_ERROR && len > 0 ==>
                Pending() == Step(old(Pending()), Call(old(Pending()), len, chunk)).1
      ensures r >= 0 && len > 0 ==>
                Delivered(buffer, isConverted, r, Step(old(Pending()), Call(old(Pending()), len, chunk)).0)
    {
      var offset := 0;
      if hasPendingByte {
        if len == 0 {
          return 0;
        }
        buffer[0] := pendingByte;
        if len == 1 {
          r := ReadOne(buffer, isConverted, chunk);
          return;
        }
        hasPendingByte := false;
        offset := 1;
      }
      if chunk == None {
        return READ_ERROR;
      }
      Fill(buffer, offset, chunk.value);
      var got := offset + |chunk.value|;
      assert buffer[..got] == Waiting(old(Pending())) + chunk.value;
      if got == 0 {
        return READ_EOF;
      }
      r := AdjustInputText(buffer, isConverted, got, offset);
    }

    /** The case of a waiting byte that is in the buffer, and no room for another. */
    method ReadOne(buffer: array<char>, isConverted: array?<bool>, chunk: Option<string>) returns (r: int)
      requires hasPendingByte && 1 <= buffer.Length && Room(isConverted, 1) && buffer[0] == pendingByte
      requires chunk.Some? ==> Possible(Pending(), ReadCall(1, chunk.value))
      modifies this, buffer, isConverted
      ensures r == 1 || r == READ_ERROR
      ensures r == READ_ERROR <==> chunk == None && Reads(old(Pending()), 1)
      ensures r == READ_ERROR ==> Pending() == old(Pending())
      ensures r == 1 ==>
                && Pending() == Step(old(Pending()), Call(old(Pending()), 1, chunk)).1
                && Delivered(buffer, isConverted, r, Step(old(Pending()), Call(old(Pending()), 1, chunk)).0)
    {
      if pendingByte != '\r' {
        if isConverted != null {
          isConverted[0] := false;
        }
        hasPendingByte := false;
        OneByte(pendingByte);
        return 1;
      }
      if chunk == None {
        return READ_ERROR;
      }
      Fill(buffer, 0, chunk.value);
      assert buffer[..|chunk.value|] == chunk.value;
      r := AdjustForPendingCr(buffer, isConverted, |chunk.value|);
    }
  }

  const READ_EOF: int := -1
  const READ_ERROR: int := -2

  /** Whether the system is asked at all. */
  predicate Reads(pending: Option<char>, len: nat) {
    pending.Some? ==> len > 1 || (len == 1 && pending == Some('\r'))
  }

  function Call(pending: Option<char>, len: nat, chunk: Option<string>): (r: ReadCall)
    requires len > 0 && (chunk.Some? ==> Possible(pending, ReadCall(len, chunk.value)))
    ensures Possible(pending, r)
  {
    ReadCall(len, if Reads(pending, len) && chunk.Some? then chunk.value else [])
  }

  lemma OneByte(c: char)
    ensures Decode([c]) == [Byte(c, false)] && [c] + [] == [c]
  {
    assert [c][1..] == [];
  }

  lemma PendingCr(chunk: string)
    requires |chunk| <= 1
    ensures Step(Some('\r'), ReadCall(1, chunk)) ==
      if chunk == [] then ([Byte('\r', false)], None)
      else if chunk[0] == '\n' then ([Byte('\n', true)], None)
      else ([Byte('\r', false)], Some(chunk[0]))
  {
    if chunk == [] {
      OneByte('\r');
      assert Waiting(Some('\r')) + chunk == ['\r'];
    } else {
      var raw := Waiting(Some('\r')) + chunk;
      assert raw == ['\r', chunk[0]] && raw[2..] == [];
      assert [Byte('\n', true)] + Decode(raw[2..]) == [Byte('\n', true)];
    }
  }
}
