/** `NormalizePath`, which rewrites a path with three regular expressions until none of them applies. */
module Paths {
  /** The first slash at or after `i`, or the end. */
  function NextSlash(p: string, i: nat): (j: nat)
    requires i <= |p|
    ensures i <= j <= |p| && (j < |p| ==> p[j] == '/') && forall k :: i <= k < j ==> p[k] != '/'
    decreases |p| - i
  {
    if i == |p| || p[i] == '/' then i else NextSlash(p, i + 1)
  }

  // The matches of the three expressions

  predicate DoubleAt(p: string, i: nat) {
    i + 1 < |p| && p[i] == '/' && p[i + 1] == '/'
  }

  predicate DotAt(p: string, i: nat) {
    i + 1 < |p| && p[i] == '/' && p[i + 1] == '.' && (i + 2 < |p| ==> p[i + 2] == '/')
  }

  predicate UpAt(p: string, i: nat) {
    i < |p| && p[i] == '/' &&
    var j := NextSlash(p, i + 1);
    j + 2 < |p| && p[j + 1] == '.' && p[j + 2] == '.' && (j + 3 < |p| ==> p[j + 3] == '/')
  }

  /** Where a match of the third expression ends. */
  function UpEnd(p: string, i: nat): (end: nat)
    requires UpAt(p, i)
    ensures i + 2 < end <= |p| && (end < |p| ==> p[end] == '/')
  {
    NextSlash(p, i + 1) + 3
  }

  predicate NoDouble(p: string) {
    forall i :: 0 <= i < |p| ==> !DoubleAt(p, i)
  }

  predicate NoDot(p: string) {
    forall i :: 0 <= i < |p| ==> !DotAt(p, i)
  }

  predicate NoUp(p: string) {
    forall i :: 0 <= i < |p| ==> !UpAt(p, i)
  }

  /** The first match at or after `i`, or the end. */
  function FirstDot(p: string, i: nat): (k: nat)
    requires i <= |p|
    ensures i <= k <= |p| && (k < |p| ==> DotAt(p, k)) && forall m :: i <= m < k ==> !DotAt(p, m)
    decreases |p| - i
  {
    if i == |p| || DotAt(p, i) then i else FirstDot(p, i + 1)
  }

  function FirstUp(p: string, i: nat): (k: nat)
    requires i <= |p|
    ensures i <= k <= |p| && (k < |p| ==> UpAt(p, k)) && forall m :: i <= m < k ==> !UpAt(p, m)
    decreases |p| - i
  {
    if i == |p| || UpAt(p, i) then i else FirstUp(p, i + 1)
  }

  /** From slash `i`, the text up to `end` goes; if a slash is there, it takes the place of the first. */
  function Cut(p: string, i: nat, end: nat): (q: string)
    requires i < end <= |p| && p[i] == '/' && (end < |p| ==> p[end] == '/')
    ensures |q| < |p| || (end == |p| == i + 1)
  {
    if end < |p| then p[..i] + p[end..] else p[..i + 1]
  }

  /** The first expression is global: every run of slashes becomes one. */
  function Squeeze(p: string): (q: string)
    ensures |q| <= |p| && (|q| == |p| ==> q == p)
  {
    if p == [] then []
    else if DoubleAt(p, 0) then Squeeze(p[1..])
    else [p[0]] + Squeeze(p[1..])
  }

  /** One call of `replace`: the second and third expressions replace the leftmost match. */
  function Replace(rule: nat, p: string): (q: string)
    ensures q == p || |q| < |p|
  {
    if rule == 0 then Squeeze(p)
    else if rule == 1 then
      var i := FirstDot(p, 0);
      if i == |p| then p else Cut(p, i, i + 2)
    else
      var i := FirstUp(p, 0);
      if i == |p| then p else Cut(p, i, UpEnd(p, i))
  }

  /** The inner loop. */
  function Fixed(rule: nat, p: string): string
    decreases |p|
  {
    var q := Replace(rule, p);
    if q == p then p else Fixed(rule, q)
  }

  function Normalize(p: string): string {
    Fixed(2, Fixed(1, Fixed(0, p)))
  }

  function FixedFrom(rule: nat, p: string): string
    decreases 3 - rule
  {
    if rule >= 3 then p else FixedFrom(rule + 1, Fixed(rule, p))
  }

  method NormalizePath(path: string) returns (r: string)
    ensures r == Normalize(path)
  {
    r := path;
    var i := 0;
    while i < 3
      invariant 0 <= i <= 3 && FixedFrom(i, r) == FixedFrom(0, path)
    {
      var tmp := Replace(i, r);
      while tmp != r
        invariant tmp == Replace(i, r) && FixedFrom(i, r) == FixedFrom(0, path)
        decreases |r|
      {
        r := tmp;
        tmp := Replace(i, r);
      }
      i := i + 1;
    }
  }

  // Nothing is left to rewrite

  lemma {:induction false} SqueezedFirst(p: string)
    ensures p != [] ==> Squeeze(p) != [] && Squeeze(p)[0] == p[0]
  {
    if p != [] && DoubleAt(p, 0) {
      SqueezedFirst(p[1..]);
    }
  }

  lemma {:induction false} SqueezedNoDouble(p: string)
    ensures NoDouble(Squeeze(p))
  {
    if p != [] {
      SqueezedNoDouble(p[1..]);
      SqueezedFirst(p[1..]);
      if !DoubleAt(p, 0) {
        var q, s := Squeeze(p), Squeeze(p[1..]);
        forall i | 0 <= i < |q|
          ensures !DoubleAt(q, i)
        {
          if i > 0 {
            assert !DoubleAt(s, i - 1);
          }
        }
      }
    }
  }

  lemma {:induction false} NoDoubleSqueezed(p: string)
    requires NoDouble(p)
    ensures Squeeze(p) == p
  {
    if p != [] {
      assert !DoubleAt(p, 0);
      forall i | 0 <= i < |p[1..]|
        ensures !DoubleAt(p[1..], i)
      {
        assert !DoubleAt(p, i + 1);
      }
      NoDoubleSqueezed(p[1..]);
    }
  }

  /** A cut before a slash brings no two slashes together. */
  lemma CutKeepsNoDouble(p: string, i: nat, end: nat)
    requires NoDouble(p) && i < end <= |p| && p[i] == '/' && (end < |p| ==> p[end] == '/')
    ensures NoDouble(Cut(p, i, end))
  {
    var q := Cut(p, i, end);
    forall k | 0 <= k < |q|
      ensures !DoubleAt(q, k)
    {
      if end < |p| && k >= i {
        assert !DoubleAt(p, k - i + end);
      } else {
        assert !DoubleAt(p, k);
      }
    }
  }

  lemma CutKeepsNoDot(p: string, i: nat, end: nat)
    requires NoDot(p) && i < end <= |p| && p[i] == '/' && (end < |p| ==> p[end] == '/')
    ensures NoDot(Cut(p, i, end))
  {
    var q := Cut(p, i, end);
    forall k | 0 <= k < |q|
      ensures !DotAt(q, k)
    {
      if end < |p| && k >= i {
        assert !DotAt(p, k - i + end);
      } else {
        assert !DotAt(p, k);
      }
    }
  }

  lemma {:induction false} DotsGone(p: string)
    requires NoDouble(p)
    ensures NoDouble(Fixed(1, p)) && NoDot(Fixed(1, p))
    decreases |p|
  {
    var i := FirstDot(p, 0);
    if i < |p| {
      CutKeepsNoDouble(p, i, i + 2);
      DotsGone(Cut(p, i, i + 2));
    }
  }

  lemma {:induction false} UpsGone(p: string)
    requires NoDouble(p) && NoDot(p)
    ensures NoDouble(Fixed(2, p)) && NoDot(Fixed(2, p)) && NoUp(Fixed(2, p))
    decreases |p|
  {
    var i := FirstUp(p, 0);
    if i < |p| {
      var end := UpEnd(p, i);
      CutKeepsNoDouble(p, i, end);
      CutKeepsNoDot(p, i, end);
      UpsGone(Cut(p, i, end));
    }
  }

  lemma SqueezedOnce(p: string)
    ensures Fixed(0, p) == Squeeze(p) && NoDouble(Fixed(0, p))
  {
    SqueezedNoDouble(p);
    NoDoubleSqueezed(Squeeze(p));
  }

  /** None of the three expressions matches the result, for any path. */
  lemma NothingLeft(p: string)
    ensures var r := Normalize(p); NoDouble(r) && NoDot(r) && NoUp(r)
  {
    SqueezedOnce(p);
    DotsGone(Fixed(0, p));
    UpsGone(Fixed(1, Fixed(0, p)));
  }

  /** A path that none of them matches is already normal. */
  lemma AlreadyNormal(p: string)
    requires NoDouble(p) && NoDot(p) && NoUp(p)
    ensures Normalize(p) == p
  {
    NoDoubleSqueezed(p);
  }

  lemma Idempotent(p: string)
    ensures Normalize(Normalize(p)) == Normalize(p)
  {
    NothingLeft(p);
    AlreadyNormal(Normalize(p));
  }

  // What a path means

  /** The names from the root down, and whether the path asks for a directory. */
  datatype Target = Target(names: seq<string>, directory: bool)

  predicate IsName(segment: string) {
    segment != "" && segment != "." && segment != ".."
  }

  /** One segment: at the root, `..` stays there. */
  function Enter(names: seq<string>, segment: string): seq<string> {
    if segment == "" || segment == "." then names
    else if segment == ".." then if names == [] then [] else names[..|names| - 1]
    else names + [segment]
  }

  function Resolve(p: string, names: seq<string>): Target
    decreases |p|
  {
    var j := NextSlash(p, 0);
    var next := Enter(names, p[..j]);
    if j == |p| then Target(next, !IsName(p)) else Resolve(p[j + 1..], next)
  }

  /** A path may be cut at any of its slashes. */
  lemma {:induction false} ResolveParts(a: string, b: string, names: seq<string>)
    ensures Resolve(a + ['/'] + b, names) == Resolve(b, Resolve(a, names).names)
    decreases |a|
  {
    var p, j := a + ['/'] + b, NextSlash(a, 0);
    assert p[j] == '/' && forall k :: 0 <= k < j ==> p[k] == a[k];
    assert NextSlash(p, 0) == j;
    assert p[..j] == a[..j];
    if j == |a| {
      assert p[j + 1..] == b;
    } else {
      assert p[j + 1..] == a[j + 1..] + ['/'] + b;
      ResolveParts(a[j + 1..], b, Enter(names, a[..j]));
    }
  }

  lemma ResolveSegment(segment: string, names: seq<string>)
    requires '/' !in segment
    ensures Resolve(segment, names) == Target(Enter(names, segment), !IsName(segment))
  {
    assert NextSlash(segment, 0) == |segment|;
    assert segment[..|segment|] == segment;
  }

  /** Segments that lead from where `a` leads to where it leads from `names'`. */
  ghost predicate Leads(a: string, gone: string, names: seq<string>, names': seq<string>) {
    Resolve(gone, Resolve(a, names).names) == Target(Resolve(a, names').names, true)
  }

  lemma LeadsInside(a: string, gone: string, b: string, names: seq<string>, names': seq<string>)
    requires Leads(a, gone, names, names')
    ensures Resolve((a + ['/'] + gone) + ['/'] + b, names) == Resolve(a + ['/'] + b, names')
  {
    ResolveParts(a, gone, names);
    ResolveParts(a + ['/'] + gone, b, names);
    ResolveParts(a, b, names');
  }

  lemma LeadsAtEnd(a: string, gone: string, names: seq<string>, names': seq<string>)
    requires Leads(a, gone, names, names')
    ensures Resolve(a + ['/'] + gone, names) == Resolve(a + ['/'], names')
  {
    ResolveParts(a, gone, names);
    ResolveParts(a, [], names');
    assert a + ['/'] + [] == a + ['/'];
    ResolveSegment([], Resolve(a, names').names);
  }

  /** So they can be cut out. */
  lemma CutMeans(p: string, i: nat, end: nat, gone: string, names: seq<string>, names': seq<string>)
    requires i < end <= |p| && p[i] == '/' && (end < |p| ==> p[end] == '/') && gone == p[i + 1..end]
    requires Leads(p[..i], gone, names, names')
    ensures Resolve(p, names) == Resolve(Cut(p, i, end), names')
  {
    CutParts(p, i, end);
    if end < |p| {
      LeadsInside(p[..i], gone, p[end + 1..], names, names');
    } else {
      LeadsAtEnd(p[..i], gone, names, names');
    }
  }

  lemma SlashAt(p: string, i: nat)
    requires i < |p| && p[i] == '/'
    ensures p == p[..i] + ['/'] + p[i + 1..]
  {
  }

  lemma CutParts(p: string, i: nat, end: nat)
    requires i < end <= |p| && p[i] == '/' && (end < |p| ==> p[end] == '/')
    ensures end < |p| ==> p == (p[..i] + ['/'] + p[i + 1..end]) + ['/'] + p[end + 1..]
    ensures end < |p| ==> Cut(p, i, end) == p[..i] + ['/'] + p[end + 1..]
    ensures end == |p| ==> p == p[..i] + ['/'] + p[i + 1..end] && Cut(p, i, end) == p[..i] + ['/']
  {
    SlashAt(p[..end], i);
    assert p[..end][..i] == p[..i] && p[..end][i + 1..] == p[i + 1..end];
    if end < |p| {
      SlashAt(p, end);
      assert p[end..] == ['/'] + p[end + 1..];
    }
  }

  lemma {:induction false} DotsMeanNothing(p: string, names: seq<string>)
    ensures Resolve(Fixed(1, p), names) == Resolve(p, names)
    decreases |p|
  {
    var i := FirstDot(p, 0);
    if i < |p| {
      assert p[i + 1..i + 2] == ".";
      ResolveSegment(".", Resolve(p[..i], names).names);
      CutMeans(p, i, i + 2, ".", names, names);
      DotsMeanNothing(Cut(p, i, i + 2), names);
    }
  }

  lemma {:induction false} SqueezeSkips(a: string, b: string)
    requires '/' !in a
    ensures Squeeze(a + b) == a + Squeeze(b)
  {
    if a == [] {
      assert a + b == b;
    } else {
      assert a[0] in a && (a + b)[1..] == a[1..] + b;
      SqueezeSkips(a[1..], b);
    }
  }

  lemma {:induction false} SqueezeMeansNothing(p: string, names: seq<string>)
    ensures Resolve(Squeeze(p), names) == Resolve(p, names)
    decreases |p|
  {
    var j := NextSlash(p, 0);
    if j == |p| {
      SqueezeSkips(p, []);
      assert p + [] == p;
    } else if j == 0 {
      SqueezeMeansNothing(p[1..], names);
      assert p[..0] == "";
      if DoubleAt(p, 0) {
        assert Resolve(p, names) == Resolve(p[1..], names);
      } else {
        var q := Squeeze(p[1..]);
        assert NextSlash(['/'] + q, 0) == 0 && (['/'] + q)[..0] == "" && (['/'] + q)[1..] == q;
      }
    } else {
      var a, b := p[..j], p[j..];
      assert p == a + b;
      SqueezeSkips(a, b);
      SqueezedFirst(b);
      SqueezeMeansNothing(b, Enter(names, a));
      SlashAfter(a, b, names);
      SlashAfter(a, Squeeze(b), names);
    }
  }

  lemma SlashAfter(a: string, b: string, names: seq<string>)
    requires '/' !in a && b != [] && b[0] == '/'
    ensures Resolve(a + b, names) == Resolve(b, Enter(names, a))
  {
    assert a + b == a + ['/'] + b[1..];
    ResolveParts(a, b[1..], names);
    ResolveSegment(a, names);
    assert b[..0] == "";
  }

  /** The slash before `i`, where slash `first` is one. */
  function PreviousSlash(p: string, i: nat, first: nat): (k: nat)
    requires first < i <= |p| && p[first] == '/'
    ensures first <= k < i && p[k] == '/' && forall m :: k < m < i ==> p[m] != '/'
    decreases i
  {
    if p[i - 1] == '/' then i - 1 else PreviousSlash(p, i - 1, first)
  }

  /** Where `..` comes after `..`, the first of them follows something that it cancels. */
  lemma UpBefore(p: string, i: nat) returns (k: nat)
    requires p != [] && p[0] == '/' && UpAt(p, i) && p[i + 1..NextSlash(p, i + 1)] == ".." && i > 0
    ensures k < i && UpAt(p, k)
  {
    var j := NextSlash(p, i + 1);
    var segment := p[i + 1..j];
    assert segment[0] == p[i + 1] && segment[1] == p[i + 2] && j == i + 3;
    k := PreviousSlash(p, i, 0);
    assert NextSlash(p, k + 1) == i;
  }

  /** The leftmost match drops a name with the `..` after it, or a `..` at the root. */
  lemma LeftmostUp(p: string, i: nat)
    requires p != [] && p[0] == '/' && NoDouble(p) && NoDot(p) && i == FirstUp(p, 0) < |p|
    ensures var segment := p[i + 1..NextSlash(p, i + 1)];
      segment != "" && segment != "." && (segment == ".." ==> i == 0)
  {
    var j := NextSlash(p, i + 1);
    var segment := p[i + 1..j];
    assert !DoubleAt(p, i) && !DotAt(p, i);
    assert j == i + 1 <==> segment == "";
    assert j == i + 2 ==> p[i + 1] != '.' && segment == [p[i + 1]];
    if segment == ".." && i > 0 {
      var k := UpBefore(p, i);
    }
  }

  /** The names that are left `k` levels up. */
  function Up(names: seq<string>, k: nat): (left: seq<string>)
    ensures k == 0 ==> left == names
  {
    if k >= |names| then [] else names[..|names| - k]
  }

  lemma NameThenUp(segment: string, at: seq<string>)
    requires '/' !in segment && segment != "" && segment != "."
    ensures Resolve(segment + ['/'] + "..", at) == Target(if segment == ".." then Up(at, 2) else at, true)
  {
    ResolveParts(segment, "..", at);
    ResolveSegment(segment, at);
    ResolveSegment("..", Enter(at, segment));
  }

  lemma UpText(p: string, i: nat)
    requires UpAt(p, i)
    ensures var j := NextSlash(p, i + 1); p[i + 1..UpEnd(p, i)] == p[i + 1..j] + ['/'] + ".."
  {
  }

  /** The match is two `..` at the root. */
  predicate Pair(p: string, i: nat)
    requires i < |p|
  {
    i == 0 && p[1..NextSlash(p, 1)] == ".."
  }

  /** How often that happens. */
  function Pairs(p: string): nat
    decreases |p|
  {
    var i := FirstUp(p, 0);
    if i == |p| then 0
    else (if Pair(p, i) then 1 else 0) + Pairs(Cut(p, i, UpEnd(p, i)))
  }

  /** `r` is what is left of `p`, seen from `k` levels up. */
  ghost predicate Same(p: string, names: seq<string>, r: string, k: nat) {
    Resolve(p, names) == Resolve(r, Up(names, k))
  }

  lemma UpLeads(p: string, i: nat, names: seq<string>, k: nat)
    requires p != [] && p[0] == '/' && NoDouble(p) && NoDot(p) && i == FirstUp(p, 0) < |p|
    requires k == if Pair(p, i) then 2 else 0
    ensures Leads(p[..i], p[i + 1..NextSlash(p, i + 1)] + ['/'] + "..", names, Up(names, k))
  {
    LeftmostUp(p, i);
    if i == 0 {
      ResolveSegment(p[..0], names);
      ResolveSegment(p[..0], Up(names, k));
    }
    NameThenUp(p[i + 1..NextSlash(p, i + 1)], Resolve(p[..i], names).names);
  }

  lemma UpMeans(p: string, i: nat, names: seq<string>, k: nat)
    requires p != [] && p[0] == '/' && NoDouble(p) && NoDot(p) && i == FirstUp(p, 0) < |p|
    requires k == if Pair(p, i) then 2 else 0
    ensures Same(p, names, Cut(p, i, UpEnd(p, i)), k)
  {
    var j := NextSlash(p, i + 1);
    UpLeads(p, i, names, k);
    UpText(p, i);
    CutMeans(p, i, UpEnd(p, i), p[i + 1..j] + ['/'] + "..", names, Up(names, k));
  }

  lemma UpStep(p: string, i: nat, q: string)
    requires i == FirstUp(p, 0) < |p| && q == Cut(p, i, UpEnd(p, i))
    ensures |q| < |p| && Fixed(2, p) == Fixed(2, q)
    ensures 2 * Pairs(p) == (if Pair(p, i) then 2 else 0) + 2 * Pairs(q)
  {
    assert Replace(2, p) == q;
  }

  /** What the third loop relies on. */
  predicate Rooted(p: string) {
    p != [] && p[0] == '/' && NoDouble(p) && NoDot(p)
  }

  lemma UpStaysRooted(p: string, i: nat) returns (q: string)
    requires Rooted(p) && i < |p| && UpAt(p, i)
    ensures Rooted(q) && q == Cut(p, i, UpEnd(p, i))
  {
    var end := UpEnd(p, i);
    q := Cut(p, i, end);
    CutKeepsNoDouble(p, i, end);
    CutKeepsNoDot(p, i, end);
  }

  lemma NoUpStep(p: string, names: seq<string>)
    requires FirstUp(p, 0) == |p|
    ensures Fixed(2, p) == p && Pairs(p) == 0 && Same(p, names, p, 0)
  {
    assert Up(names, 0) == names;
  }

  lemma SameStep(p: string, names: seq<string>, q: string, a: nat, after: seq<string>, r: string, b: nat, n: nat)
    requires Same(p, names, q, a) && after == Up(names, a) && Same(q, after, r, b) && n == a + b
    ensures Same(p, names, r, n)
  {
    assert Up(Up(names, a), b) == Up(names, a + b);
  }

  /** One replacement by the third expression. */
  lemma OneUp(p: string, names: seq<string>) returns (q: string, k: nat)
    requires Rooted(p) && FirstUp(p, 0) < |p|
    ensures Rooted(q) && Same(p, names, q, k)
    ensures |q| < |p| && Fixed(2, p) == Fixed(2, q) && 2 * Pairs(p) == k + 2 * Pairs(q)
  {
    var i := FirstUp(p, 0);
    q := UpStaysRooted(p, i);
    k := if Pair(p, i) then 2 else 0;
    UpMeans(p, i, names, k);
    UpStep(p, i, q);
  }

  lemma {:induction false} UpsMean(p: string, names: seq<string>, r: string, n: nat)
    requires Rooted(p) && r == Fixed(2, p) && n == 2 * Pairs(p)
    ensures Rooted(r) && Same(p, names, r, n)
    decreases |p|
  {
    if FirstUp(p, 0) < |p| {
      var q, k := OneUp(p, names);
      var after, m := Up(names, k), n - k;
      UpsMean(q, after, r, m);
      SameStep(p, names, q, k, after, r, m, n);
    } else {
      NoUpStep(p, names);
    }
  }

  lemma {:induction false} FixedKeepsRoot(p: string)
    requires p != [] && p[0] == '/'
    ensures Fixed(1, p) != [] && Fixed(1, p)[0] == '/'
    decreases |p|
  {
    var i := FirstDot(p, 0);
    if i < |p| {
      FixedKeepsRoot(Cut(p, i, i + 2));
    }
  }

  /** From the root or from any other directory. */
  lemma RootedMeans(p: string, names: seq<string>)
    requires p != [] && p[0] == '/'
    ensures var r, k := Normalize(p), 2 * Pairs(Fixed(1, Fixed(0, p)));
      r != [] && r[0] == '/' && Same(p, names, r, k)
  {
    var q := Fixed(0, p);
    SqueezedOnce(p);
    SqueezedFirst(p);
    SqueezeMeansNothing(p, names);
    DotsMeanNothing(q, names);
    DotsGone(q);
    FixedKeepsRoot(q);
    UpsMean(Fixed(1, q), names, Fixed(2, Fixed(1, q)), 2 * Pairs(Fixed(1, q)));
  }

  /** A path from the root keeps its meaning. */
  lemma KeepsMeaning(p: string)
    requires p != [] && p[0] == '/'
    ensures var r := Normalize(p); r != [] && r[0] == '/' && Resolve(r, []) == Resolve(p, [])
  {
    RootedMeans(p, []);
  }

  // What the result looks like

  /** The segment that starts after a slash. */
  function Segment(p: string, a: nat): string
    requires 0 < a <= |p| && p[a - 1] == '/'
  {
    p[a..NextSlash(p, a)]
  }

  /** Only the segment after the first slash may be `..`, and only the last may be empty. */
  lemma Shape(p: string, a: nat)
    requires var r := Normalize(p); 0 < a <= |r| && r[a - 1] == '/'
    ensures var r := Normalize(p);
      && Segment(r, a) != "."
      && (Segment(r, a) == "" ==> a == |r|)
      && (Segment(r, a) == ".." ==> a == NextSlash(r, 0) + 1)
  {
    NothingLeft(p);
    NormalSegment(Normalize(p), a);
  }

  lemma NormalSegment(r: string, a: nat)
    requires NoDouble(r) && NoDot(r) && NoUp(r) && 0 < a <= |r| && r[a - 1] == '/'
    ensures Segment(r, a) != "." && (Segment(r, a) == "" ==> a == |r|)
    ensures Segment(r, a) == ".." ==> a == NextSlash(r, 0) + 1
  {
    SegmentText(r, a);
    assert !DotAt(r, a - 1) && !DoubleAt(r, a - 1);
    if Segment(r, a) == ".." && a - 1 > NextSlash(r, 0) {
      var k := PreviousSlash(r, a - 1, NextSlash(r, 0));
      assert NextSlash(r, k + 1) == a - 1;
      assert UpAt(r, k);
    }
  }

  lemma SegmentText(r: string, a: nat)
    requires 0 < a <= |r| && r[a - 1] == '/'
    ensures Segment(r, a) == "" ==> a == |r| || r[a] == '/'
    ensures Segment(r, a) == "." ==> a < |r| && r[a] == '.' && (a + 1 < |r| ==> r[a + 1] == '/')
    ensures Segment(r, a) == ".." ==>
              a + 1 < |r| && r[a] == '.' && r[a + 1] == '.' && (a + 2 < |r| ==> r[a + 2] == '/')
  {
    var b := NextSlash(r, a);
    assert forall k :: a <= k < b ==> r[k] == Segment(r, a)[k - a];
  }

  // A path that does not start with a slash

  /** How far up a path leads from where it starts, and the names that it then adds. */
  datatype Place = Place(ups: nat, names: seq<string>)

  function Move(at: Place, segment: string): Place {
    if segment == "" || segment == "." then at
    else if segment != ".." then at.(names := at.names + [segment])
    else if at.names == [] then at.(ups := at.ups + 1)
    else at.(names := at.names[..|at.names| - 1])
  }

  function Walk(p: string, at: Place): Place
    decreases |p|
  {
    var j := NextSlash(p, 0);
    var next := Move(at, p[..j]);
    if j == |p| then next else Walk(p[j + 1..], next)
  }

  function Ups(p: string): nat {
    Walk(p, Place(0, [])).ups
  }

  function From(base: seq<string>, at: Place): seq<string> {
    Up(base, at.ups) + at.names
  }

  lemma EnterMoves(base: seq<string>, at: Place, segment: string)
    ensures Enter(From(base, at), segment) == From(base, Move(at, segment))
  {
    if segment == ".." && at.names == [] {
      assert From(base, at) == Up(base, at.ups);
    }
  }

  lemma {:induction false} WalkResolves(p: string, base: seq<string>, at: Place)
    ensures Resolve(p, From(base, at)).names == From(base, Walk(p, at))
    decreases |p|
  {
    var j := NextSlash(p, 0);
    EnterMoves(base, at, p[..j]);
    if j < |p| {
      WalkResolves(p[j + 1..], base, Move(at, p[..j]));
    }
  }

  /** How many names a path leaves, from a directory that is `n` deep. */
  lemma Depth(p: string, base: seq<string>)
    ensures |Resolve(p, base).names| == Left(Ups(p), |base|) + |Walk(p, Place(0, [])).names|
  {
    WalkResolves(p, base, Place(0, []));
    assert From(base, Place(0, [])) == base;
  }

  /** What is left of a directory's depth, `ups` levels up. */
  function Left(ups: nat, depth: nat): nat {
    if ups >= depth then 0 else depth - ups
  }

  lemma {:induction false} SameDirectory(p: string, a: seq<string>, b: seq<string>)
    ensures Resolve(p, a).directory == Resolve(p, b).directory
    decreases |p|
  {
    var j := NextSlash(p, 0);
    if j < |p| {
      SameDirectory(p[j + 1..], Enter(a, p[..j]), Enter(b, p[..j]));
    }
  }

  /** Where a path leads depends on the levels that it goes up and those that there are. */
  lemma SameFromUp(r: string, names: seq<string>, k: nat)
    ensures Resolve(r, Up(names, k)) == Resolve(r, names) <==>
            Left(Ups(r), Left(k, |names|)) == Left(Ups(r), |names|)
  {
    var at := Place(0, []);
    WalkResolves(r, names, at);
    WalkResolves(r, Up(names, k), at);
    Depth(r, names);
    Depth(r, Up(names, k));
    SameDirectory(r, names, Up(names, k));
    assert From(names, at) == names && From(Up(names, k), at) == Up(names, k);
  }

  lemma UpsDiffer(p: string, r: string, k: nat, base: seq<string>)
    requires Same(p, base, r, k) && Same(p, [], r, k) && |base| >= Ups(p) + k + Ups(r)
    ensures Ups(p) == k + Ups(r)
  {
    Depth(p, base);
    Depth(r, Up(base, k));
    Depth(p, []);
    Depth(r, Up([], k));
  }

  lemma WalkSegment(r: string, a: nat, at: Place)
    requires 0 < a <= |r| && r[a - 1] == '/'
    ensures var b, next := NextSlash(r, a), Move(at, Segment(r, a));
      Walk(r[a..], at) == if b == |r| then next else Walk(r[b + 1..], next)
  {
    var b, tail := NextSlash(r, a), r[a..];
    forall k | 0 <= k < b - a
      ensures tail[k] != '/'
    {
      assert tail[k] == r[a + k];
    }
    NextSlashIs(tail, 0, b - a);
    assert tail[..b - a] == Segment(r, a);
    assert b < |r| ==> tail[b - a + 1..] == r[b + 1..];
  }

  /** From there on, no segment is `..`. */
  predicate NamesFrom(r: string, a: nat)
    requires 0 < a <= |r|
  {
    forall k :: a <= k <= |r| && r[k - 1] == '/' ==> Segment(r, k) != ".."
  }

  lemma {:induction false} NoUpsFrom(r: string, a: nat, at: Place)
    requires 0 < a <= |r| && r[a - 1] == '/' && NamesFrom(r, a)
    ensures Walk(r[a..], at).ups == at.ups
    decreases |r| - a
  {
    var b := NextSlash(r, a);
    WalkSegment(r, a, at);
    if b < |r| {
      NoUpsFrom(r, b + 1, Move(at, Segment(r, a)));
    }
  }

  lemma NormalUps(r: string)
    requires r != [] && r[0] == '/' && NoDouble(r) && NoDot(r) && NoUp(r)
    ensures Ups(r) <= 1
  {
    var b := NextSlash(r, 1);
    WalkSegment(r, 1, Place(0, []));
    assert r[..0] == "";
    if b < |r| {
      forall k | b + 1 <= k <= |r| && r[k - 1] == '/'
        ensures Segment(r, k) != ".."
      {
        NormalSegment(r, k);
      }
      NoUpsFrom(r, b + 1, Move(Place(0, []), Segment(r, 1)));
    }
  }

  /** What normalization forgets: `..` cancels `..`, which only makes no difference at the root, or next to it. */
  predicate Harmless(ups: nat, depth: nat) {
    ups <= 1 || depth == 0 || (depth == 1 && ups % 2 == 1)
  }

  lemma LeftSame(ups: nat, more: nat, pairs: nat, depth: nat)
    requires ups == 2 * pairs + more && more <= 1
    ensures Left(more, Left(2 * pairs, depth)) == Left(more, depth) <==> Harmless(ups, depth)
  {
  }

  lemma RootedUps(p: string, r: string, pairs: nat)
    requires p != [] && p[0] == '/' && r == Normalize(p) && pairs == Pairs(Fixed(1, Fixed(0, p)))
    ensures r != [] && r[0] == '/' && Ups(p) == 2 * pairs + Ups(r) && Ups(r) <= 1
  {
    var base := seq(Ups(p) + 2 * pairs + Ups(r), _ => "");
    RootedMeans(p, base);
    RootedMeans(p, []);
    UpsDiffer(p, r, 2 * pairs, base);
    NothingLeft(p);
    NormalUps(r);
  }

  lemma RootedKeptIff(p: string, names: seq<string>, r: string)
    requires p != [] && p[0] == '/' && r == Normalize(p)
    ensures r != [] && r[0] == '/'
    ensures Resolve(r, names) == Resolve(p, names) <==> Harmless(Ups(p), |names|)
  {
    var pairs := Pairs(Fixed(1, Fixed(0, p)));
    RootedMeans(p, names);
    RootedUps(p, r, pairs);
    SameFromUp(r, names, 2 * pairs);
    LeftSame(Ups(p), Ups(r), pairs, |names|);
  }

  // Text before the first slash is out of reach of the expressions

  lemma NextSlashIs(p: string, i: nat, j: nat)
    requires i <= j <= |p| && (j < |p| ==> p[j] == '/') && forall k :: i <= k < j ==> p[k] != '/'
    ensures NextSlash(p, i) == j
  {
  }

  lemma NextSlashAfter(a: string, p: string, i: nat)
    requires i <= |p|
    ensures NextSlash(a + p, |a| + i) == |a| + NextSlash(p, i)
  {
    var q, j := a + p, NextSlash(p, i);
    forall k | |a| + i <= k < |a| + j
      ensures q[k] != '/'
    {
      assert q[k] == p[k - |a|];
    }
    NextSlashIs(q, |a| + i, |a| + j);
  }

  lemma MatchAfter(a: string, p: string, i: nat)
    requires i < |p|
    ensures DotAt(a + p, |a| + i) <==> DotAt(p, i)
    ensures UpAt(a + p, |a| + i) <==> UpAt(p, i)
  {
    NextSlashAfter(a, p, i + 1);
  }

  lemma NoMatchBefore(a: string, p: string, i: nat)
    requires '/' !in a && i < |a|
    ensures !DotAt(a + p, i) && !UpAt(a + p, i)
  {
    assert (a + p)[i] in a;
  }

  lemma FirstDotAfter(a: string, p: string)
    requires '/' !in a
    ensures FirstDot(a + p, 0) == |a| + FirstDot(p, 0)
  {
    var q, d := a + p, FirstDot(p, 0);
    forall i | 0 <= i < |a| + d
      ensures !DotAt(q, i)
    {
      if i < |a| {
        NoMatchBefore(a, p, i);
      } else {
        MatchAfter(a, p, i - |a|);
      }
    }
    if d < |p| {
      MatchAfter(a, p, d);
    }
  }

  lemma FirstUpAfter(a: string, p: string)
    requires '/' !in a
    ensures FirstUp(a + p, 0) == |a| + FirstUp(p, 0)
  {
    var q, u := a + p, FirstUp(p, 0);
    forall i | 0 <= i < |a| + u
      ensures !UpAt(q, i)
    {
      if i < |a| {
        NoMatchBefore(a, p, i);
      } else {
        MatchAfter(a, p, i - |a|);
      }
    }
    if u < |p| {
      MatchAfter(a, p, u);
    }
  }

  lemma CutAfter(a: string, p: string, i: nat, end: nat, q: string, k: nat, end': nat)
    requires i < end <= |p| && p[i] == '/' && (end < |p| ==> p[end] == '/')
    requires q == a + p && k == |a| + i && end' == |a| + end
    ensures q[k] == '/' && (end' < |q| ==> q[end'] == '/')
    ensures Cut(q, k, end') == a + Cut(p, i, end)
  {
    assert end < |p| ==> q[..k] == a + p[..i] && q[end'..] == p[end..];
  }

  lemma DotReplaced(p: string, i: nat)
    requires i == FirstDot(p, 0) < |p|
    ensures Replace(1, p) == Cut(p, i, i + 2)
  {
  }

  lemma DotReplacedAfter(a: string, p: string, q: string)
    requires '/' !in a && q == a + p
    ensures Replace(1, q) == a + Replace(1, p)
  {
    FirstDotAfter(a, p);
    var i, k := FirstDot(p, 0), FirstDot(q, 0);
    if i < |p| {
      DotReplaced(p, i);
      DotReplaced(q, k);
      CutAfter(a, p, i, i + 2, q, k, k + 2);
    }
  }

  lemma UpEndAfter(a: string, p: string, i: nat, q: string, k: nat)
    requires UpAt(p, i) && q == a + p && k == |a| + i
    ensures UpAt(q, k) && UpEnd(q, k) == |a| + UpEnd(p, i)
  {
    MatchAfter(a, p, i);
    NextSlashAfter(a, p, i + 1);
  }

  lemma UpReplaced(p: string, i: nat, end: nat)
    requires i == FirstUp(p, 0) < |p| && end == UpEnd(p, i)
    ensures Replace(2, p) == Cut(p, i, end)
  {
  }

  lemma UpReplacedAfter(a: string, p: string, q: string)
    requires '/' !in a && q == a + p
    ensures Replace(2, q) == a + Replace(2, p)
  {
    FirstUpAfter(a, p);
    var i, k := FirstUp(p, 0), FirstUp(q, 0);
    if i < |p| {
      UpEndAfter(a, p, i, q, k);
      UpReplaced(p, i, UpEnd(p, i));
      UpReplaced(q, k, UpEnd(q, k));
      CutAfter(a, p, i, UpEnd(p, i), q, k, UpEnd(q, k));
    }
  }

  lemma SameAfter(a: string, p: string, q: string)
    ensures a + p == a + q <==> p == q
  {
    assert (a + p)[|a|..] == p && (a + q)[|a|..] == q;
  }

  lemma {:induction false} FixedAfter(rule: nat, a: string, p: string)
    requires '/' !in a && (rule == 1 || rule == 2)
    ensures Fixed(rule, a + p) == a + Fixed(rule, p)
    decreases |p|
  {
    var q := Replace(rule, p);
    if rule == 1 {
      DotReplacedAfter(a, p, a + p);
    } else {
      UpReplacedAfter(a, p, a + p);
    }
    SameAfter(a, p, q);
    if q != p {
      FixedAfter(rule, a, q);
    }
  }

  lemma NormalizeAfter(a: string, p: string)
    requires '/' !in a
    ensures Normalize(a + p) == a + Normalize(p)
  {
    SqueezedOnce(a + p);
    SqueezedOnce(p);
    SqueezeSkips(a, p);
    FixedAfter(1, a, Squeeze(p));
    FixedAfter(2, a, Fixed(1, Squeeze(p)));
  }

  /**
   * From any directory, a path keeps its meaning exactly when it leads up at most once from where its
   * first segment leads, or when that is the root, or next to the root and the number is odd.
   */
  lemma KeptIff(p: string, names: seq<string>)
    ensures var j := NextSlash(p, 0);
      Resolve(Normalize(p), names) == Resolve(p, names) <==> Harmless(Ups(p[j..]), |Enter(names, p[..j])|)
  {
    var j := NextSlash(p, 0);
    var a, rest := p[..j], p[j..];
    assert p == a + rest;
    NormalizeAfter(a, rest);
    if rest == [] {
      NoDoubleSqueezed(rest);
      assert Normalize(rest) == [] && Normalize(p) == p;
    } else {
      RootedKeptIff(rest, Enter(names, a), Normalize(rest));
      SlashAfter(a, rest, names);
      SlashAfter(a, Normalize(rest), names);
    }
  }

  // The page's root

  /** Where the text after the last slash starts. */
  function TailAt(path: string): (t: nat)
    ensures t <= |path| && (t > 0 ==> path[t - 1] == '/') && forall k :: t <= k < |path| ==> path[k] != '/'
  {
    if path == [] || path[|path| - 1] == '/' then |path| else TailAt(path[..|path| - 1])
  }

  /** `path.replace(/[^\/]*$/, relative)`, for a replacement without `$` */
  function ReplaceTail(path: string, relative: string): string {
    path[..TailAt(path)] + relative
  }

  /** A normal path asks for a directory when it ends with a slash; the other such path is `/..`. */
  lemma DirectoryText(r: string, names: seq<string>)
    requires r != [] && r[0] == '/' && NoDouble(r) && NoDot(r) && NoUp(r)
    ensures Resolve(r, names).directory <==> r[|r| - 1] == '/' || r == "/.."
  {
    var t := TailAt(r);
    assert t > 0;
    assert NextSlash(r, t) == |r| && Segment(r, t) == r[t..];
    NormalSegment(r, t);
    assert r == r[..t - 1] + ['/'] + r[t..];
    ResolveParts(r[..t - 1], r[t..], names);
    ResolveSegment(r[t..], Resolve(r[..t - 1], names).names);
    assert r[t..] == ".." ==> r == ['/'] + r[1..];
    assert r[t..] == "" <==> t == |r|;
  }

  /**
   * The path that `SetPLTRoot` stores is where `relative` leads from the directory of the page. It
   * ends with a slash when that is a directory, but for `/..`.
   */
  lemma StoredRoot(path: string, relative: string)
    requires path != [] && path[0] == '/'
    ensures TailAt(path) > 0
    ensures var r, directory := Normalize(ReplaceTail(path, relative)), Resolve(path[..TailAt(path) - 1], []).names;
      && r != [] && r[0] == '/'
      && Resolve(r, []) == Resolve(relative, directory)
      && (r[|r| - 1] == '/' <==> Resolve(relative, directory).directory && r != "/..")
  {
    var t := TailAt(path);
    assert t > 0;
    var p := ReplaceTail(path, relative);
    assert p == path[..t - 1] + ['/'] + relative;
    ResolveParts(path[..t - 1], relative, []);
    KeepsMeaning(p);
    NothingLeft(p);
    DirectoryText(Normalize(p), []);
  }

  /** Without a slash at its start, a path can lose its meaning: `..` after `..` is taken for a name. */
  lemma RelativeLosesMeaning(p: string, q: string)
    requires p == "a/../../b" && q == "a/b"
    ensures Normalize(p) == q && Resolve(p, []).names == ["b"] && Resolve(q, []).names == ["a", "b"]
  {
    RelativeResult(p, q);
    var up, b := "..", "b";
    var once := up + ['/'] + b;
    var twice := up + ['/'] + once;
    RelativeMeaning("a", b, up, once, twice);
    assert p == "a" + ['/'] + twice && q == "a" + ['/'] + b;
  }

  lemma RelativeResult(p: string, q: string)
    requires p == "a/../../b" && q == "a/b"
    ensures Normalize(p) == q
  {
    assert NoDouble(p) && NoDot(p);
    assert p[2] == '.' && p[3] == '.' && p[4] == '/';
    assert NextSlash(p, 2) == 4;
    assert p[5] == '.' && p[6] == '.' && p[7] == '/';
    assert UpAt(p, 1) && !UpAt(p, 0) && FirstUp(p, 1) == 1;
    assert FirstUp(p, 0) == 1;
    assert Cut(p, 1, 7) == q;
    NoDoubleSqueezed(p);
    assert Fixed(1, p) == p;
    assert NextSlash(q, 2) == 3 && NoUp(q);
    assert Fixed(2, q) == q && Fixed(2, p) == q;
  }

  lemma ResolveFirst(segment: string, rest: string, names: seq<string>)
    requires '/' !in segment
    ensures Resolve(segment + ['/'] + rest, names) == Resolve(rest, Enter(names, segment))
  {
    ResolveParts(segment, rest, names);
    ResolveSegment(segment, names);
  }

  lemma RelativeMeaning(a: string, b: string, up: string, once: string, twice: string)
    requires '/' !in a && '/' !in b && IsName(a) && IsName(b)
    requires up == ".." && once == up + ['/'] + b && twice == up + ['/'] + once
    ensures Resolve(a + ['/'] + twice, []).names == [b]
    ensures Resolve(a + ['/'] + b, []).names == [a, b]
  {
    ResolveFirst(a, twice, []);
    assert Enter([], a) == [a];
    ResolveFirst(up, once, [a]);
    ResolveFirst(up, b, []);
    ResolveSegment(b, []);
    ResolveFirst(a, b, []);
    ResolveSegment(b, [a]);
  }
}
