/** The poll() variant of `rktio_poll_set.c`: descriptors and the events to wait for, merged in order of descriptor. */
module PollEntries {
  datatype Bit = PollIn | PollOut

  /** `struct pollfd`; `events` is a set of bits. */
  datatype Entry = Entry(fd: int, events: set<Bit>)

  /** What a list of entries means: whether it waits for this event of this descriptor. */
  ghost predicate Waits(s: seq<Entry>, fd: int, bit: Bit) {
    exists e :: e in s && e.fd == fd && bit in e.events
  }

  ghost predicate SameWaits(s: seq<Entry>, t: seq<Entry>) {
    forall fd, bit :: Waits(s, fd, bit) <==> Waits(t, fd, bit)
  }

  ghost predicate Distinct(s: seq<Entry>) {
    forall i, j :: 0 <= i < j < |s| ==> s[i].fd != s[j].fd
  }

  ghost predicate StrictlySorted(s: seq<Entry>) {
    forall i, j :: 0 <= i < j < |s| ==> s[i].fd < s[j].fd
  }

  ghost predicate NoneEmpty(s: seq<Entry>) {
    forall e <- s :: e.events != {}
  }

  // rktio_fdset and rktio_fdclr

  lemma WaitsAfterUpdate(s: seq<Entry>, i: nat, e: Entry, fd: int, bit: Bit)
    requires Distinct(s) && i < |s| && e.fd == s[i].fd
    ensures Waits(s[i := e], fd, bit) <==> if fd == e.fd then bit in e.events else Waits(s, fd, bit)
    ensures fd == e.fd ==> (Waits(s, fd, bit) <==> bit in s[i].events)
  {
    var t := s[i := e];
    assert t[i] in t && s[i] in s;
    if Waits(t, fd, bit) {
      var x :| x in t && x.fd == fd && bit in x.events;
      var k :| 0 <= k < |t| && t[k] == x;
      assert k != i ==> s[k] in s;
    }
    if Waits(s, fd, bit) {
      var x :| x in s && x.fd == fd && bit in x.events;
      var k :| 0 <= k < |s| && s[k] == x;
      assert k != i ==> t[k] in t;
    }
  }

  lemma WaitsAfterAppend(s: seq<Entry>, e: Entry, fd: int, bit: Bit)
    ensures Waits(s + [e], fd, bit) <==> Waits(s, fd, bit) || (fd == e.fd && bit in e.events)
  {
    var t := s + [e];
    assert t[|s|] in t;
    if Waits(s, fd, bit) {
      var x :| x in s && x.fd == fd && bit in x.events;
      assert x in t;
    }
  }

  // rktio_clean_fd_set

  function Cleaned(s: seq<Entry>): seq<Entry> {
    if s == [] then []
    else
      var t, e := Cleaned(s[..|s| - 1]), s[|s| - 1];
      if e.events != {} then t + [e] else t
  }

  lemma {:induction false} CleanedKeepsOrder(s: seq<Entry>)
    ensures |Cleaned(s)| <= |s| && NoneEmpty(Cleaned(s))
    ensures forall e <- Cleaned(s) :: e in s
    ensures Distinct(s) ==> Distinct(Cleaned(s))
    ensures StrictlySorted(s) ==> StrictlySorted(Cleaned(s))
  {
    if s != [] {
      var front, t, e := s[..|s| - 1], Cleaned(s[..|s| - 1]), s[|s| - 1];
      CleanedKeepsOrder(front);
      forall i | 0 <= i < |t|
        ensures exists k :: 0 <= k < |s| - 1 && s[k] == t[i]
      {
        assert t[i] in front;
        var k :| 0 <= k < |front| && front[k] == t[i];
        assert s[k] == t[i];
      }
    }
  }

  lemma {:induction false} CleanedWaits(s: seq<Entry>, fd: int, bit: Bit)
    ensures Waits(Cleaned(s), fd, bit) <==> Waits(s, fd, bit)
  {
    if s != [] {
      var front, e := s[..|s| - 1], s[|s| - 1];
      assert s == front + [e];
      CleanedWaits(front, fd, bit);
      WaitsAfterAppend(front, e, fd, bit);
      WaitsAfterAppend(Cleaned(front), e, fd, bit);
    }
  }

  // qsort with cmp_fd

  function Insert(e: Entry, s: seq<Entry>): seq<Entry> {
    if s == [] then [e] else if e.fd <= s[0].fd then [e] + s else [s[0]] + Insert(e, s[1..])
  }

  function Sorted(s: seq<Entry>): seq<Entry> {
    if s == [] then [] else Insert(s[0], Sorted(s[1..]))
  }

  lemma SmallestFirst(e: Entry, s: seq<Entry>)
    requires StrictlySorted(s) && forall x <- s :: e.fd < x.fd
    ensures StrictlySorted([e] + s)
  {
  }

  lemma {:induction false} InsertAdds(e: Entry, s: seq<Entry>)
    ensures multiset(Insert(e, s)) == multiset(s) + multiset{e}
  {
    if s != [] && e.fd > s[0].fd {
      InsertAdds(e, s[1..]);
      assert s == [s[0]] + s[1..];
    }
  }

  lemma {:induction false} InsertIsSorted(e: Entry, s: seq<Entry>)
    requires StrictlySorted(s) && forall x <- s :: x.fd != e.fd
    ensures StrictlySorted(Insert(e, s))
  {
    if s == [] {
      assert Insert(e, s) == [e];
    } else if e.fd <= s[0].fd {
      assert s[0] in s;
      SmallestFirst(e, s);
    } else {
      InsertIsSorted(e, s[1..]);
      InsertAdds(e, s[1..]);
      var t := Insert(e, s[1..]);
      assert s == [s[0]] + s[1..];
      forall x <- t
        ensures s[0].fd < x.fd
      {
        assert x in multiset(t);
        if x != e {
          assert x in s[1..];
        }
      }
      SmallestFirst(s[0], t);
    }
  }

  /** Sorting rearranges the entries, and with distinct descriptors the order is strict. */
  lemma {:induction false} SortedIsSorted(s: seq<Entry>)
    requires Distinct(s)
    ensures StrictlySorted(Sorted(s)) && multiset(Sorted(s)) == multiset(s)
  {
    if s != [] {
      var t := Sorted(s[1..]);
      assert s == [s[0]] + s[1..];
      SortedIsSorted(s[1..]);
      forall x <- t
        ensures x.fd != s[0].fd
      {
        assert x in multiset(t) && x in s[1..];
        var k :| 0 <= k < |s[1..]| && s[1..][k] == x;
        assert s[k + 1] == x;
      }
      InsertIsSorted(s[0], t);
      InsertAdds(s[0], t);
    }
  }

  lemma SortedKeepsMeaning(s: seq<Entry>)
    requires Distinct(s)
    ensures |Sorted(s)| == |s| && SameWaits(s, Sorted(s)) && (NoneEmpty(s) ==> NoneEmpty(Sorted(s)))
  {
    SortedIsSorted(s);
    var t := Sorted(s);
    assert |multiset(t)| == |t| && |multiset(s)| == |s|;
    assert forall e :: e in t <==> e in s by {
      forall e
        ensures e in t <==> e in s
      {
        assert e in t <==> e in multiset(t);
        assert e in s <==> e in multiset(s);
      }
    }
  }

  // The merge

  function Merged(s: seq<Entry>, t: seq<Entry>): seq<Entry>
    decreases |s| + |t|
  {
    if s == [] then t
    else if t == [] then s
    else if s[0].fd == t[0].fd then [Entry(s[0].fd, s[0].events + t[0].events)] + Merged(s[1..], t[1..])
    else if s[0].fd < t[0].fd then [s[0]] + Merged(s[1..], t)
    else [t[0]] + Merged(s, t[1..])
  }

  lemma {:induction false} MergedIsSorted(s: seq<Entry>, t: seq<Entry>)
    requires StrictlySorted(s) && StrictlySorted(t)
    ensures StrictlySorted(Merged(s, t)) && |Merged(s, t)| <= |s| + |t|
    ensures forall e <- Merged(s, t) :: (s != [] && s[0].fd <= e.fd) || (t != [] && t[0].fd <= e.fd)
    decreases |s| + |t|
  {
    if s != [] && t != [] {
      if s[0].fd == t[0].fd {
        MergedIsSorted(s[1..], t[1..]);
        SmallestFirst(Entry(s[0].fd, s[0].events + t[0].events), Merged(s[1..], t[1..]));
      } else if s[0].fd < t[0].fd {
        MergedIsSorted(s[1..], t);
        SmallestFirst(s[0], Merged(s[1..], t));
      } else {
        MergedIsSorted(s, t[1..]);
        SmallestFirst(t[0], Merged(s, t[1..]));
      }
    }
  }

  lemma WaitsSplit(e: Entry, s: seq<Entry>, fd: int, bit: Bit)
    ensures Waits([e] + s, fd, bit) <==> (fd == e.fd && bit in e.events) || Waits(s, fd, bit)
  {
    var t := [e] + s;
    assert t[0] in t;
    if Waits(s, fd, bit) {
      var x :| x in s && x.fd == fd && bit in x.events;
      assert x in t;
    }
  }

  /** The merge waits for exactly what either list waits for. */
  lemma {:induction false} MergedWaits(s: seq<Entry>, t: seq<Entry>, fd: int, bit: Bit)
    ensures Waits(Merged(s, t), fd, bit) <==> Waits(s, fd, bit) || Waits(t, fd, bit)
    decreases |s| + |t|
  {
    if s == [] || t == [] {
      assert !Waits([], fd, bit);
    } else {
      assert s == [s[0]] + s[1..] && t == [t[0]] + t[1..];
      WaitsSplit(s[0], s[1..], fd, bit);
      WaitsSplit(t[0], t[1..], fd, bit);
      if s[0].fd == t[0].fd {
        MergedWaits(s[1..], t[1..], fd, bit);
        WaitsSplit(Entry(s[0].fd, s[0].events + t[0].events), Merged(s[1..], t[1..]), fd, bit);
      } else if s[0].fd < t[0].fd {
        MergedWaits(s[1..], t, fd, bit);
        WaitsSplit(s[0], Merged(s[1..], t), fd, bit);
      } else {
        MergedWaits(s, t[1..], fd, bit);
        WaitsSplit(t[0], Merged(s, t[1..]), fd, bit);
      }
    }
  }

  lemma {:induction false} MergedNoneEmpty(s: seq<Entry>, t: seq<Entry>)
    requires NoneEmpty(s) && NoneEmpty(t)
    ensures NoneEmpty(Merged(s, t))
    decreases |s| + |t|
  {
    if s != [] && t != [] {
      assert s[0] in s && t[0] in t;
      assert exists bit :: bit in s[0].events;
      if s[0].fd == t[0].fd {
        MergedNoneEmpty(s[1..], t[1..]);
      } else if s[0].fd < t[0].fd {
        MergedNoneEmpty(s[1..], t);
      } else {
        MergedNoneEmpty(s, t[1..]);
      }
    }
  }
}

module PollSets {
  import opened PollEntries

  const PFD_EXTRA_SPACE: nat := 1

  /** `find_fd_pos` */
  method FindFdPos(pfd: array<Entry>, count: nat, n: int) returns (pos: int)
    requires count <= pfd.Length
    ensures pos == -1 ==> forall i :: 0 <= i < count ==> pfd[i].fd != n
    ensures pos != -1 ==> 0 <= pos < count && pfd[pos].fd == n
  {
    var i := 0;
    while i < count
      invariant 0 <= i <= count && forall k :: 0 <= k < i ==> pfd[k].fd != n
    {
      if pfd[i].fd == n {
        return i;
      }
      i := i + 1;
    }
    return -1;
  }

  /** `qsort` on the first entries */
  method Qsort(pfd: array<Entry>, count: nat)
    requires count <= pfd.Length
    modifies pfd
    ensures pfd[..count] == Sorted(old(pfd[..count]))
    ensures Distinct(old(pfd[..count])) ==> StrictlySorted(pfd[..count]) && SameWaits(old(pfd[..count]), pfd[..count])
    ensures Distinct(old(pfd[..count])) && NoneEmpty(old(pfd[..count])) ==> NoneEmpty(pfd[..count])
  {
    ghost var s := pfd[..count];
    var sorted := Sorted(pfd[..count]);
    SortedLength(s);
    forall i | 0 <= i < count {
      pfd[i] := sorted[i];
    }
    assert pfd[..count] == sorted;
    if Distinct(s) {
      SortedIsSorted(s);
      SortedKeepsMeaning(s);
    }
  }

  lemma {:induction false} SortedLength(s: seq<Entry>)
    ensures |Sorted(s)| == |s|
  {
    if s != [] {
      SortedLength(s[1..]);
      InsertLength(s[0], Sorted(s[1..]));
    }
  }

  lemma {:induction false} InsertLength(e: Entry, s: seq<Entry>)
    ensures |Insert(e, s)| == |s| + 1
  {
    if s != [] && e.fd > s[0].fd {
      InsertLength(e, s[1..]);
    }
  }

  method Store(pfds: array<Entry>, j: nat, e: Entry)
    requires j < pfds.Length
    modifies pfds
    ensures pfds[..j + 1] == old(pfds[..j]) + [e]
  {
    pfds[j] := e;
  }

  /** The three merging loops of `rktio_merge_fd_sets`. */
  method MergeInto(a: array<Entry>, c: nat, b: array<Entry>, sc: nat, pfds: array<Entry>) returns (j: nat)
    requires c <= a.Length && sc <= b.Length && c + sc <= pfds.Length && pfds != a && pfds != b
    modifies pfds
    ensures j <= c + sc && pfds[..j] == Merged(a[..c], b[..sc])
  {
    var i, si := 0, 0;
    j := 0;
    ghost var s, t := a[..c], b[..sc];
    while i < c && si < sc
      invariant 0 <= i <= c && 0 <= si <= sc && j <= i + si
      invariant s == a[..c] && t == b[..sc]
      invariant pfds[..j] + Merged(s[i..], t[si..]) == Merged(s, t)
    {
      ghost var done, more := pfds[..j], Merged(s[i..], t[si..]);
      assert s[i..][1..] == s[i + 1..] && t[si..][1..] == t[si + 1..];
      var e: Entry;
      if a[i].fd == b[si].fd {
        e := Entry(a[i].fd, a[i].events + b[si].events);
        i := i + 1;
        si := si + 1;
      } else if a[i].fd < b[si].fd {
        e := Entry(a[i].fd, a[i].events);
        i := i + 1;
      } else {
        e := Entry(b[si].fd, b[si].events);
        si := si + 1;
      }
      Store(pfds, j, e);
      MoveOne(done, more, e, Merged(s[i..], t[si..]));
      j := j + 1;
    }
    ghost var done := pfds[..j];
    assert i == c || si == sc;
    j := CopyRest(a, i, c, pfds, j);
    j := CopyRest(b, si, sc, pfds, j);
    assert a[i..c] == s[i..] && b[si..sc] == t[si..];
    OneSideLeft(done, s[i..], t[si..]);
  }

  lemma OneSideLeft(done: seq<Entry>, s: seq<Entry>, t: seq<Entry>)
    requires s == [] || t == []
    ensures (done + s) + t == done + Merged(s, t)
  {
  }

  method CopyRest(src: array<Entry>, from: nat, count: nat, pfds: array<Entry>, j0: nat) returns (j: nat)
    requires from <= count <= src.Length && src != pfds && j0 + (count - from) <= pfds.Length
    modifies pfds
    ensures j == j0 + (count - from) && pfds[..j] == old(pfds[..j0]) + src[from..count]
  {
    j := j0;
    var i := from;
    while i < count
      invariant from <= i <= count && j == j0 + (i - from)
      invariant pfds[..j] == old(pfds[..j0]) + src[from..i]
    {
      Store(pfds, j, Entry(src[i].fd, src[i].events));
      i := i + 1;
      j := j + 1;
    }
  }

  lemma MoveOne(done: seq<Entry>, more: seq<Entry>, e: Entry, rest: seq<Entry>)
    requires more == [e] + rest
    ensures (done + [e]) + rest == done + more
  {
  }

  class PollSet {
    var pfd: array<Entry>
    var size: nat
    var count: nat
    var skipSleep: bool

    ghost predicate Valid()
      reads this, pfd
    {
      && 0 < size && pfd.Length == size + PFD_EXTRA_SPACE && count <= size
      && Distinct(pfd[..count])
    }

    ghost function Entries(): seq<Entry>
      requires count <= pfd.Length
      reads this`pfd, this`count, pfd
    {
      pfd[..count]
    }

    /** `alloc_fdset_arrays` */
    constructor ()
      ensures Valid() && fresh(pfd) && Entries() == [] && !skipSleep
    {
      pfd := new Entry[32 + PFD_EXTRA_SPACE];
      size, count, skipSleep := 32, 0, false;
    }

    /** `rktio_fdclr`: one of the three sets shares these entries with its own flag, or none. */
    method FdClr(n: int, flag: set<Bit>)
      requires Valid()
      modifies pfd
      ensures Valid()
      ensures forall fd, bit :: Waits(Entries(), fd, bit) <==> Waits(old(Entries()), fd, bit) && !(fd == n && bit in flag)
    {
      if flag == {} {
        return;
      }
      var pos := FindFdPos(pfd, count, n);
      ghost var s := Entries();
      if pos >= 0 {
        ghost var e := Entry(n, s[pos].events - (s[pos].events * flag));
        pfd[pos] := pfd[pos].(events := pfd[pos].events - (pfd[pos].events * flag));
        assert Entries() == s[pos := e];
        forall fd, bit
          ensures Waits(Entries(), fd, bit) <==> Waits(s, fd, bit) && !(fd == n && bit in flag)
        {
          WaitsAfterUpdate(s, pos, e, fd, bit);
        }
      } else {
        forall fd, bit
          ensures Waits(s, fd, bit) ==> fd != n
        {
        }
      }
    }

    /** The entries get room for one more. */
    method Grow()
      requires Valid()
      modifies this`pfd, this`size
      ensures Valid() && count < size && Entries() == old(Entries())
      ensures pfd == old(pfd) || fresh(pfd)
    {
      if count >= size {
        ghost var s := Entries();
        var bigger := new Entry[2 * size + PFD_EXTRA_SPACE];
        forall i | 0 <= i < count {
          bigger[i] := pfd[i];
        }
        assert bigger[..count] == s;
        pfd := bigger;
        size := 2 * size;
      }
    }

    /** `rktio_fdset` */
    method FdSet(n: int, flag: set<Bit>)
      requires Valid()
      modifies this, pfd
      ensures Valid() && skipSleep == old(skipSleep)
      ensures forall fd, bit :: Waits(Entries(), fd, bit) <==> Waits(old(Entries()), fd, bit) || (fd == n && bit in flag)
    {
      if flag == {} {
        return;
      }
      var pos := FindFdPos(pfd, count, n);
      ghost var s := Entries();
      if pos >= 0 {
        ghost var e := Entry(n, s[pos].events + flag);
        pfd[pos] := pfd[pos].(events := pfd[pos].events + flag);
        assert Entries() == s[pos := e];
        forall fd, bit
          ensures Waits(Entries(), fd, bit) <==> Waits(s, fd, bit) || (fd == n && bit in flag)
        {
          WaitsAfterUpdate(s, pos, e, fd, bit);
        }
      } else {
        Append(n, flag);
        forall fd, bit
          ensures Waits(Entries(), fd, bit) <==> Waits(s, fd, bit) || (fd == n && bit in flag)
        {
          WaitsAfterAppend(s, Entry(n, flag), fd, bit);
        }
      }
    }

    method Append(n: int, flag: set<Bit>)
      requires Valid() && forall i :: 0 <= i < count ==> pfd[i].fd != n
      modifies this`pfd, this`size, this`count, pfd
      ensures Valid() && Entries() == old(Entries()) + [Entry(n, flag)]
    {
      ghost var s := Entries();
      Grow();
      pfd[count] := Entry(n, flag);
      count := count + 1;
      assert Entries() == s + [Entry(n, flag)];
    }

    /** `rktio_clean_fd_set`: entries without events go, and the others keep their order and their meaning. */
    method Clean()
      requires Valid()
      modifies this`count, pfd
      ensures Valid() && NoneEmpty(Entries()) && count <= old(count)
      ensures Entries() == Cleaned(old(Entries())) && SameWaits(old(Entries()), Entries())
    {
      ghost var s := Entries();
      var n, i, j := count, 0, 0;
      while i < n
        invariant 0 <= j <= i <= n == count
        invariant pfd[..j] == Cleaned(s[..i])
        invariant forall k :: i <= k < n ==> pfd[k] == s[k]
      {
        assert s[..i + 1][..i] == s[..i];
        if pfd[i].events != {} {
          if j < i {
            pfd[j] := pfd[i];
          }
          j := j + 1;
        }
        i := i + 1;
      }
      assert s[..i] == s;
      CleanedKeepsOrder(s);
      forall fd, bit
        ensures Waits(Cleaned(s), fd, bit) <==> Waits(s, fd, bit)
      {
        CleanedWaits(s, fd, bit);
      }
      count := j;
    }

    method SortEntries()
      requires Valid() && NoneEmpty(Entries())
      modifies pfd
      ensures Valid() && NoneEmpty(Entries()) && StrictlySorted(Entries()) && SameWaits(old(Entries()), Entries())
    {
      Qsort(pfd, count);
    }

    /** The merged entries replace the old ones, in a new array if they need one. */
    method Install(pfds: array<Entry>, nc: nat, j: nat)
      requires Valid() && j <= nc && pfds.Length == nc + PFD_EXTRA_SPACE && pfds != pfd && StrictlySorted(pfds[..j])
      modifies this`pfd, this`size, this`count, pfd
      ensures Valid() && Entries() == old(pfds[..j]) && (pfd == old(pfd) || pfd == pfds)
    {
      if nc > size {
        pfd := pfds;
        size := nc;
      } else {
        forall i | 0 <= i < j {
          pfd[i] := pfds[i];
        }
        assert pfd[..j] == old(pfds[..j]);
      }
      count := j;
    }

    /**
     * `rktio_merge_fd_sets`: afterwards this set waits for what either set waited for, with one entry
     * for each descriptor, in order.
     */
    method Merge(src: PollSet)
      requires Valid() && src.Valid() && src != this && src.pfd != pfd
      modifies this, pfd, src`count, src.pfd
      ensures Valid() && src.Valid() && SameWaits(old(src.Entries()), src.Entries())
      ensures forall fd, bit ::
                Waits(Entries(), fd, bit) <==> Waits(old(Entries()), fd, bit) || Waits(old(src.Entries()), fd, bit)
      ensures NoneEmpty(Entries()) && (src.count > 0 ==> StrictlySorted(Entries()))
      ensures skipSleep == (old(skipSleep) || old(src.skipSleep))
    {
      Clean();
      src.Clean();
      if src.skipSleep {
        skipSleep := true;
      }
      if src.count == 0 {
        forall fd, bit
          ensures !Waits(old(src.Entries()), fd, bit)
        {
          assert !Waits(src.Entries(), fd, bit);
        }
        return;
      }
      SortEntries();
      src.SortEntries();
      MergeSorted(src);
    }

    method MergeSorted(src: PollSet)
      requires Valid() && src.Valid() && src != this && src.pfd != pfd
      requires StrictlySorted(Entries()) && StrictlySorted(src.Entries()) && NoneEmpty(Entries()) && NoneEmpty(src.Entries())
      modifies this`pfd, this`size, this`count, pfd
      ensures Valid() && StrictlySorted(Entries()) && NoneEmpty(Entries())
      ensures pfd == old(pfd) || fresh(pfd)
      ensures forall fd, bit ::
                Waits(Entries(), fd, bit) <==> Waits(old(Entries()), fd, bit) || Waits(src.Entries(), fd, bit)
    {
      ghost var s, t := Entries(), src.Entries();
      var nc := count + src.count;
      var pfds := new Entry[nc + PFD_EXTRA_SPACE];
      var j := MergeInto(pfd, count, src.pfd, src.count, pfds);
      MergedIsSorted(s, t);
      MergedNoneEmpty(s, t);
      Install(pfds, nc, j);
      forall fd, bit
        ensures Waits(Entries(), fd, bit) <==> Waits(s, fd, bit) || Waits(t, fd, bit)
      {
        MergedWaits(s, t, fd, bit);
      }
    }
  }
}
