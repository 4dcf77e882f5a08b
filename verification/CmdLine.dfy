/**
 * Windows command lines: `cmdline_protect`, the join in `do_spawnv`, and the rules by which a
 * program that uses the Microsoft C run-time takes its arguments apart.
 */
module CommandLines {
  import opened Sequences
  /** What the reader makes of `""` inside quotes, which differs among versions of the run-time. */
  datatype Doubled = Ignored | KeepsQuoting | EndsQuoting

  predicate Blank(c: char) {
    c == ' ' || c == '\t'
  }

  function Slashes(n: nat): (s: string)
    ensures |s| == n
  {
    seq(n, _ => '\\')
  }

  function Prepend(s: string, r: (string, string)): (string, string) {
    (s + r.0, r.1)
  }

  /**
   * One argument, and what follows it. `n` backslashes have been read and not delivered: before a
   * quote every two of them make one, and an odd one makes the quote literal.
   */
  function Arg(t: string, quoted: bool, n: nat, rule: Doubled): (r: (string, string))
    ensures |r.1| <= |t| && (t != [] && (quoted || !Blank(t[0])) ==> |r.1| < |t|)
    decreases |t|
  {
    if t == [] || (!quoted && Blank(t[0])) then (Slashes(n), t)
    else if t[0] == '\\' then Arg(t[1..], quoted, n + 1, rule)
    else if t[0] != '"' then Prepend(Slashes(n) + [t[0]], Arg(t[1..], quoted, 0, rule))
    else if n % 2 == 1 then Prepend(Slashes(n / 2) + ['"'], Arg(t[1..], quoted, 0, rule))
    else if quoted && rule != Ignored && |t| > 1 && t[1] == '"' then
      Prepend(Slashes(n / 2) + ['"'], Arg(t[2..], rule == KeepsQuoting, 0, rule))
    else Prepend(Slashes(n / 2), Arg(t[1..], !quoted, 0, rule))
  }

  /** The arguments of a command line. */
  function Args(t: string, rule: Doubled): seq<string>
    decreases |t|
  {
    if t == [] then []
    else if Blank(t[0]) then Args(t[1..], rule)
    else
      var (arg, rest) := Arg(t, false, 0, rule);
      [arg] + Args(rest, rule)
  }

  /** The inside of a protected argument, of which `n` backslashes have just been written. */
  function Inside(s: string, n: nat): string {
    if s == [] then Slashes(n)
    else if s[0] == '"' then Slashes(n) + ['"', '\\', '"', '"'] + Inside(s[1..], 0)
    else if s[0] == '\\' then ['\\'] + Inside(s[1..], n + 1)
    else [s[0]] + Inside(s[1..], 0)
  }

  predicate NeedsQuotes(s: string, isSpace: char -> bool) {
    exists i :: 0 <= i < |s| && (isSpace(s[i]) || s[i] == '\'' || s[i] == '"')
  }

  function Protected(s: string, isSpace: char -> bool): string {
    if s == [] then "\"\""
    else if NeedsQuotes(s, isSpace) then ['"'] + Inside(s, 0) + ['"']
    else s
  }

  function Joined(args: seq<string>): string {
    if args == [] then [] else if |args| == 1 then args[0] else args[0] + [' '] + Joined(args[1..])
  }

  // Reading back

  /** What may follow a protected argument: the end, or the space of the join. */
  predicate Follows(rest: string) {
    rest == [] || rest[0] == ' '
  }

  lemma {:induction false} ReadSlashes(k: nat, t: string, quoted: bool, n: nat, rule: Doubled)
    ensures Arg(Slashes(k) + t, quoted, n, rule) == Arg(t, quoted, n + k, rule)
  {
    if k == 0 {
      assert Slashes(0) + t == t;
    } else {
      assert (Slashes(k) + t)[1..] == Slashes(k - 1) + t;
      ReadSlashes(k - 1, t, quoted, n + 1, rule);
    }
  }

  /** A quote after twice `n` backslashes, if not a doubled one, delivers `n` and toggles the quoting. */
  lemma ReadDelimiter(n: nat, t: string, quoted: bool, rule: Doubled)
    requires quoted ==> t == [] || t[0] != '"'
    ensures Arg(Slashes(n) + (['"'] + t), quoted, n, rule) == Prepend(Slashes(n), Arg(t, !quoted, 0, rule))
  {
    ReadSlashes(n, ['"'] + t, quoted, n, rule);
    assert (n + n) % 2 == 0 && (n + n) / 2 == n;
    assert (['"'] + t)[1..] == t;
  }

  lemma PrependTwice(a: string, b: string, r: (string, string))
    ensures Prepend(a, Prepend(b, r)) == Prepend(a + b, r)
  {
    assert a + (b + r.0) == (a + b) + r.0;
  }

  lemma ReadSlash(t: string, quoted: bool, n: nat, rule: Doubled)
    ensures Arg(['\\'] + t, quoted, n, rule) == Arg(t, quoted, n + 1, rule)
  {
    assert (['\\'] + t)[1..] == t;
  }

  lemma ReadEscaped(t: string, quoted: bool, rule: Doubled)
    ensures Arg(['"'] + t, quoted, 1, rule) == Prepend(['"'], Arg(t, quoted, 0, rule))
  {
    assert (['"'] + t)[1..] == t;
    assert Slashes(0) + ['"'] == ['"'];
  }

  lemma ReadOther(c: char, t: string, quoted: bool, n: nat, rule: Doubled)
    requires c != '\\' && c != '"' && (quoted || !Blank(c))
    ensures Arg([c] + t, quoted, n, rule) == Prepend(Slashes(n) + [c], Arg(t, quoted, 0, rule))
  {
    assert ([c] + t)[1..] == t;
  }

  /** What is written for a quote: a delimiter, an escaped quote and a delimiter. */
  lemma ReadQuote(n: nat, more: string, rule: Doubled)
    ensures Arg(Slashes(n) + (['"'] + (['\\'] + (['"'] + (['"'] + more)))), true, n, rule)
         == Prepend(Slashes(n) + ['"'], Arg(more, true, 0, rule))
  {
    var r := Arg(more, true, 0, rule);
    ReadDelimiter(n, ['\\'] + (['"'] + (['"'] + more)), true, rule);
    ReadSlash(['"'] + (['"'] + more), false, 0, rule);
    ReadEscaped(['"'] + more, false, rule);
    ReadDelimiter(0, more, false, rule);
    assert Slashes(0) + (['"'] + more) == ['"'] + more;
    PrependTwice(['"'], Slashes(0), r);
    PrependTwice(Slashes(n), ['"'] + Slashes(0), r);
    assert Slashes(n) + (['"'] + Slashes(0)) == Slashes(n) + ['"'];
  }

  lemma OneDelivered(n: nat, s: string, r: (string, string))
    requires s != []
    ensures Prepend(Slashes(n) + [s[0]], Prepend(Slashes(0) + s[1..], r)) == Prepend(Slashes(n) + s, r)
  {
    PrependTwice(Slashes(n) + [s[0]], Slashes(0) + s[1..], r);
    assert (Slashes(n) + [s[0]]) + (Slashes(0) + s[1..]) == Slashes(n) + s;
  }

  lemma WrittenFor(s: string, n: nat, tail: string)
    requires s != []
    ensures var c := s[0];
      Inside(s, n) + tail ==
        if c == '"' then Slashes(n) + (['"'] + (['\\'] + (['"'] + (['"'] + (Inside(s[1..], 0) + tail)))))
        else [c] + (Inside(s[1..], if c == '\\' then n + 1 else 0) + tail)
  {
  }

  /** Inside quotes, reading undoes protecting. */
  lemma {:induction false} ReadInside(s: string, n: nat, rest: string, rule: Doubled)
    requires Follows(rest)
    ensures Arg(Inside(s, n) + (['"'] + rest), true, n, rule) == Prepend(Slashes(n) + s, Arg(rest, false, 0, rule))
  {
    if s == [] {
      ReadDelimiter(n, rest, true, rule);
      assert Slashes(n) + s == Slashes(n);
    } else {
      var k := if s[0] == '\\' then n + 1 else 0;
      var more := Inside(s[1..], k) + (['"'] + rest);
      ReadInside(s[1..], k, rest, rule);
      WrittenFor(s, n, ['"'] + rest);
      if s[0] == '\\' {
        ReadSlash(more, true, n, rule);
        assert Slashes(n + 1) + s[1..] == Slashes(n) + s;
      } else {
        OneDelivered(n, s, Arg(rest, false, 0, rule));
        if s[0] == '"' {
          ReadQuote(n, more, rule);
        } else {
          ReadOther(s[0], more, true, n, rule);
        }
      }
    }
  }

  /** Without blanks and quotes, an argument reads as itself. */
  lemma {:induction false} ReadPlain(s: string, n: nat, rest: string, rule: Doubled)
    requires Follows(rest) && forall c <- s :: !Blank(c) && c != '"'
    ensures Arg(s + rest, false, n, rule) == (Slashes(n) + s, rest)
  {
    if s == [] {
      assert s + rest == rest && Slashes(n) + s == Slashes(n);
    } else {
      assert s + rest == [s[0]] + (s[1..] + rest) && s[0] in s;
      if s[0] == '\\' {
        ReadSlash(s[1..] + rest, false, n, rule);
        ReadPlain(s[1..], n + 1, rest, rule);
        assert Slashes(n + 1) + s[1..] == Slashes(n) + s;
      } else {
        ReadOther(s[0], s[1..] + rest, false, n, rule);
        ReadPlain(s[1..], 0, rest, rule);
        assert (Slashes(n) + [s[0]]) + (Slashes(0) + s[1..]) == Slashes(n) + s;
      }
    }
  }

  /** `isspace` includes at least the two characters that separate arguments, and not these two. */
  predicate CoversBlanks(isSpace: char -> bool) {
    isSpace(' ') && isSpace('\t') && !isSpace('"') && !isSpace('\\')
  }

  /** A protected argument reads as the original, and nothing of what follows is taken. */
  lemma ReadProtected(s: string, isSpace: char -> bool, rest: string, rule: Doubled)
    requires CoversBlanks(isSpace) && Follows(rest)
    ensures Arg(Protected(s, isSpace) + rest, false, 0, rule) == (s, rest)
    ensures Protected(s, isSpace) != [] && !Blank(Protected(s, isSpace)[0])
  {
    if s == [] || NeedsQuotes(s, isSpace) {
      ReadQuoted(s, rest, rule);
    } else {
      forall c | c in s
        ensures !Blank(c) && c != '"'
      {
        var i :| 0 <= i < |s| && s[i] == c;
      }
      ReadPlain(s, 0, rest, rule);
      assert Slashes(0) + s == s;
    }
  }

  lemma ReadQuoted(s: string, rest: string, rule: Doubled)
    requires Follows(rest)
    ensures Arg((['"'] + Inside(s, 0) + ['"']) + rest, false, 0, rule) == (s, rest)
  {
    var text := Inside(s, 0) + (['"'] + rest);
    assert (['"'] + Inside(s, 0) + ['"']) + rest == ['"'] + text;
    ReadInside(s, 0, rest, rule);
    assert (['"'] + text)[1..] == text;
    assert Arg(rest, false, 0, rule) == (Slashes(0), rest);
    assert Slashes(0) + ((Slashes(0) + s) + Slashes(0)) == s;
  }

  function ProtectedAll(args: seq<string>, isSpace: char -> bool): (r: seq<string>)
    ensures |r| == |args|
  {
    if args == [] then [] else [Protected(args[0], isSpace)] + ProtectedAll(args[1..], isSpace)
  }

  /** The reader takes a joined command line apart into the arguments that went into it. */
  lemma {:induction false} ReadJoined(args: seq<string>, isSpace: char -> bool, rule: Doubled)
    requires CoversBlanks(isSpace)
    ensures Args(Joined(ProtectedAll(args, isSpace)), rule) == args
  {
    if args != [] {
      var all := ProtectedAll(args, isSpace);
      var rest := if |args| == 1 then [] else [' '] + Joined(all[1..]);
      assert all[1..] == ProtectedAll(args[1..], isSpace);
      assert Joined(all) == all[0] + rest;
      ReadProtected(args[0], isSpace, rest, rule);
      ReadJoined(args[1..], isSpace, rule);
      if |args| > 1 {
        assert rest[1..] == Joined(all[1..]);
      }
    }
  }

  // The two passes of `cmdline_protect`

  /** What the first pass adds to `has_quote`. */
  function QuoteCost(s: string, slashes: nat): nat {
    if s == [] then 0
    else if s[0] == '"' then 1 + 2 * slashes + QuoteCost(s[1..], 0)
    else QuoteCost(s[1..], if s[0] == '\\' then slashes + 1 else 0)
  }

  /** What the first pass leaves in `was_slash`. */
  function LastSlashes(s: string, slashes: nat): nat {
    if s == [] then slashes else LastSlashes(s[1..], if s[0] == '\\' then slashes + 1 else 0)
  }

  /** The bytes written are no more than the first pass has counted. */
  lemma {:induction false} InsideFits(s: string, n: nat)
    ensures |Inside(s, n)| <= |s| + 3 * QuoteCost(s, n) + LastSlashes(s, n)
  {
    if s != [] {
      InsideFits(s[1..], if s[0] == '\\' then n + 1 else 0);
    }
  }

  lemma {:induction false} NoQuoteNoCost(s: string, n: nat)
    ensures QuoteCost(s, n) == 0 <==> '"' !in s
  {
    if s != [] {
      NoQuoteNoCost(s[1..], if s[0] == '\\' then n + 1 else 0);
      assert s == [s[0]] + s[1..];
    }
  }

  predicate HasSpace(s: string, isSpace: char -> bool) {
    exists i :: 0 <= i < |s| && (isSpace(s[i]) || s[i] == '\'')
  }

  method Measure(s: string, isSpace: char -> bool) returns (hasSpace: bool, hasQuote: nat, wasSlash: nat)
    requires CoversBlanks(isSpace)
    ensures hasSpace == HasSpace(s, isSpace)
    ensures hasQuote == QuoteCost(s, 0) && wasSlash == LastSlashes(s, 0)
  {
    hasSpace, hasQuote, wasSlash := false, 0, 0;
    var ds := 0;
    while ds < |s|
      invariant 0 <= ds <= |s|
      invariant hasSpace == exists i :: 0 <= i < ds && (isSpace(s[i]) || s[i] == '\'')
      invariant hasQuote + QuoteCost(s[ds..], wasSlash) == QuoteCost(s, 0)
      invariant LastSlashes(s[ds..], wasSlash) == LastSlashes(s, 0)
    {
      assert s[ds..][1..] == s[ds + 1..];
      if isSpace(s[ds]) || s[ds] == '\'' {
        hasSpace := true;
        wasSlash := 0;
      } else if s[ds] == '"' {
        hasQuote := hasQuote + 1 + 2 * wasSlash;
        wasSlash := 0;
      } else if s[ds] == '\\' {
        wasSlash := wasSlash + 1;
      } else {
        wasSlash := 0;
      }
      ds := ds + 1;
    }
  }

  /** The text that has been written is extended. */
  method Write(naya: array<char>, p: nat, text: string) returns (p': nat)
    requires p + |text| <= naya.Length
    modifies naya
    ensures p' == p + |text| && naya[..p'] == old(naya[..p]) + text
  {
    forall i | 0 <= i < |text| {
      naya[p + i] := text[i];
    }
    p' := p + |text|;
  }

  /** The second pass, with every byte inside the buffer. */
  method Fill(s: string, naya: array<char>) returns (p: nat)
    requires |Inside(s, 0)| + 3 <= naya.Length
    modifies naya
    ensures p < naya.Length && naya[..p] == ['"'] + Inside(s, 0) + ['"']
  {
    p := Write(naya, 0, ['"']);
    var i, wroteSlash := 0, 0;
    ghost var done: string := [];
    while i < |s|
      invariant 0 <= i <= |s| && p == 1 + |done| <= naya.Length && naya[..p] == ['"'] + done
      invariant done + Inside(s[i..], wroteSlash) == Inside(s, 0)
    {
      ghost var piece := if s[i] == '"' then Slashes(wroteSlash) + ['"', '\\', '"', '"'] else [s[i]];
      FillStep(s, i, wroteSlash, done, piece);
      if s[i] == '"' {
        p := Write(naya, p, Slashes(wroteSlash));
        p := Write(naya, p, ['"', '\\', '"', '"']);
        wroteSlash := 0;
      } else if s[i] == '\\' {
        p := Write(naya, p, ['\\']);
        wroteSlash := wroteSlash + 1;
      } else {
        p := Write(naya, p, [s[i]]);
        wroteSlash := 0;
      }
      done := done + piece;
      i := i + 1;
    }
    p := Write(naya, p, Slashes(wroteSlash));
    p := Write(naya, p, ['"']);
  }

  lemma FillStep(s: string, i: nat, n: nat, done: string, piece: string)
    requires i < |s| && done + Inside(s[i..], n) == Inside(s, 0)
    requires piece == if s[i] == '"' then Slashes(n) + ['"', '\\', '"', '"'] else [s[i]]
    ensures (done + piece) + Inside(s[i + 1..], if s[i] == '\\' then n + 1 else 0) == Inside(s, 0)
    ensures |done + piece| <= |Inside(s, 0)|
  {
    var rest := Inside(s[i + 1..], if s[i] == '\\' then n + 1 else 0);
    assert s[i..][1..] == s[i + 1..];
    assert Inside(s[i..], n) == piece + rest;
    Associate(done, piece, rest);
  }

  /** `cmdline_protect` */
  method CmdlineProtect(s: string, isSpace: char -> bool) returns (r: string)
    requires CoversBlanks(isSpace)
    ensures r == Protected(s, isSpace)
  {
    if s == [] {
      return "\"\"";
    }
    var hasSpace, hasQuote, wasSlash := Measure(s, isSpace);
    NoQuoteNoCost(s, 0);
    assert hasSpace || hasQuote > 0 <==> NeedsQuotes(s, isSpace);
    if hasSpace || hasQuote > 0 {
      InsideFits(s, 0);
      var naya := new char[|s| + 3 + 3 * hasQuote + wasSlash](_ => '\0');
      var p := Fill(s, naya);
      r := naya[..p];
    } else {
      r := s;
    }
  }

  function TotalLength(args: seq<string>): nat {
    if args == [] then 0 else |args[0]| + 1 + TotalLength(args[1..])
  }

  /** Each argument with a space after it. */
  function Spaced(args: seq<string>): (s: string)
    ensures |s| == TotalLength(args)
  {
    if args == [] then [] else args[0] + [' '] + Spaced(args[1..])
  }

  lemma {:induction false} SpacedIsJoined(args: seq<string>)
    requires args != []
    ensures Spaced(args) == Joined(args) + [' ']
  {
    if |args| == 1 {
      assert Spaced(args[1..]) == [];
    } else {
      SpacedIsJoined(args[1..]);
      assert Spaced(args) == args[0] + [' '] + (Joined(args[1..]) + [' ']);
    }
  }

  /** The loop of `do_spawnv` that joins the arguments. */
  method Join(argv: seq<string>) returns (cmdline: string)
    requires argv != []
    ensures cmdline == Joined(argv)
  {
    var len, i := 0, 0;
    while i < |argv|
      invariant 0 <= i <= |argv| && len + TotalLength(argv[i..]) == TotalLength(argv)
    {
      assert argv[i..][1..] == argv[i + 1..];
      len := len + |argv[i]| + 1;
      i := i + 1;
    }
    var text := new char[len](_ => '\0');
    len, i := 0, 0;
    ghost var done: string := [];
    while i < |argv|
      invariant 0 <= i <= |argv| && len == |done| <= text.Length && text[..len] == done
      invariant done + Spaced(argv[i..]) == Spaced(argv)
    {
      assert argv[i..][1..] == argv[i + 1..];
      JoinStep(argv, i, done);
      len := Write(text, len, argv[i]);
      len := Write(text, len, [' ']);
      done := done + (argv[i] + [' ']);
      i := i + 1;
    }
    SpacedIsJoined(argv);
    assert done == Joined(argv) + [' '];
    cmdline := text[..len - 1];
    assert cmdline == done[..len - 1];
  }

  lemma JoinStep(argv: seq<string>, i: nat, done: string)
    requires i < |argv| && done + Spaced(argv[i..]) == Spaced(argv)
    ensures (done + (argv[i] + [' '])) + Spaced(argv[i + 1..]) == Spaced(argv)
    ensures |done| + |argv[i]| + 1 <= TotalLength(argv)
  {
    var piece, rest := argv[i] + [' '], Spaced(argv[i + 1..]);
    assert argv[i..][1..] == argv[i + 1..];
    assert Spaced(argv[i..]) == piece + rest;
    Associate(done, piece, rest);
  }

  /** From an argument list to a command line that reads as the same list, under every rule for `""`. */
  method SpawnLine(argv: seq<string>, isSpace: char -> bool) returns (cmdline: string)
    requires argv != [] && CoversBlanks(isSpace)
    ensures forall rule :: Args(cmdline, rule) == argv
  {
    var newArgv := [];
    var i := 0;
    while i < |argv|
      invariant 0 <= i <= |argv| && |newArgv| == i
      invariant newArgv + ProtectedAll(argv[i..], isSpace) == ProtectedAll(argv, isSpace)
    {
      assert argv[i..][1..] == argv[i + 1..];
      var arg := CmdlineProtect(argv[i], isSpace);
      ghost var more := ProtectedAll(argv[i + 1..], isSpace);
      assert newArgv + ([arg] + more) == (newArgv + [arg]) + more;
      newArgv := newArgv + [arg];
      i := i + 1;
    }
    assert newArgv == ProtectedAll(argv, isSpace);
    cmdline := Join(newArgv);
    forall rule
      ensures Args(cmdline, rule) == argv
    {
      ReadJoined(argv, isSpace, rule);
    }
  }
}
