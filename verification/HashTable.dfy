/** The open-addressing table of `rktio_hash.c`: vacated slots, an odd probe
    step, and a grow/shrink rehash that can nest. */

/** Probe arithmetic. Sizes are powers of two, so `x & (size - 1)` is `x % size`. */
module Probing {
  import opened Counting

  predicate PowerOfTwo(n: nat) {
    n == 1 || (n > 1 && n % 2 == 0 && PowerOfTwo(n / 2))
  }

  lemma Doubling(n: nat)
    requires PowerOfTwo(n)
    ensures PowerOfTwo(2 * n)
  {
    assert (2 * n) / 2 == n;
  }

  /** `hc = key & mask` */
  function Start(key: nat, size: nat): (s: nat)
    requires size > 0
    ensures s < size
  {
    key % size
  }

  /** `d = ((key >> 3) & mask) | 0x1` */
  function Step(key: nat, size: nat): (d: nat)
    requires size > 0
    ensures d % 2 == 1
  {
    var d := (key / 8) % size;
    if d % 2 == 0 then d + 1 else d
  }

  /** The slot looked at by the probe for `key` after `j` steps. */
  function Slot(key: nat, size: nat, j: nat): (s: nat)
    requires size > 0
    ensures s < size
  {
    (Start(key, size) + j * Step(key, size)) % size
  }

  lemma SlotZero(key: nat, size: nat)
    requires size > 0
    ensures Slot(key, size, 0) == Start(key, size)
  {
    DivModOf(Start(key, size), size, 0, Start(key, size));
  }

  lemma SlotNext(key: nat, size: nat, j: nat)
    requires size > 0
    ensures (Slot(key, size, j) + Step(key, size)) % size == Slot(key, size, j + 1)
  {
    var x, d := Start(key, size) + j * Step(key, size), Step(key, size);
    assert Start(key, size) + (j + 1) * d == x + d;
    ModAbsorb(x, d, size);
  }

  lemma ModAbsorb(x: nat, d: nat, n: nat)
    requires n > 0
    ensures (x % n + d) % n == (x + d) % n
  {
    var q, r := x / n, x % n;
    assert x + d == (r + d) + n * q;
    ModShift(r + d, q, n);
  }

  lemma {:induction false} ModShift(a: nat, q: nat, n: nat)
    requires n > 0
    ensures (a + n * q) % n == a % n
    decreases q
  {
    if q > 0 {
      ModShift(a, q - 1, n);
      assert a + n * q == (a + n * (q - 1)) + n;
      ModAddOne(a + n * (q - 1), n);
    }
  }

  lemma ModAddOne(a: nat, n: nat)
    requires n > 0
    ensures (a + n) % n == a % n
  {
    var q, r := a / n, a % n;
    assert a + n == n * (q + 1) + r;
    DivModOf(a + n, n, q + 1, r);
  }

  /** An odd factor cannot make a product divisible by a power of two. */
  lemma {:induction false} OddFactor(m: nat, d: nat, n: nat, q: nat)
    requires PowerOfTwo(n) && d % 2 == 1 && m * d == n * q
    ensures m % n == 0
    decreases n
  {
    if n > 1 {
      var h := n / 2;
      assert n * q == 2 * (h * q);
      if m % 2 == 1 {
        OddTimesOdd(m, d);
      }
      var k := m / 2;
      assert m * d == 2 * (k * d) by { assert m == 2 * k; }
      OddFactor(k, d, h, q);
      Doubled(k, h);
    }
  }

  lemma Doubled(k: nat, h: nat)
    requires h > 0 && k % h == 0
    ensures (2 * k) % (2 * h) == 0
  {
    var c := k / h;
    assert 2 * k == (2 * h) * c + 0;
    DivModOf(2 * k, 2 * h, c, 0);
  }

  lemma OddTimesOdd(m: nat, d: nat)
    requires m % 2 == 1 && d % 2 == 1
    ensures (m * d) % 2 == 1
  {
    var a, b := m / 2, d / 2;
    assert m * d == 2 * (a * d + b) + 1 by {
      assert m == 2 * a + 1 && d == 2 * b + 1;
      assert m * d == 2 * a * d + d;
    }
  }

  /** No slot is met twice within `size` steps. */
  lemma SlotsDistinct(key: nat, size: nat, i: nat, j: nat)
    requires PowerOfTwo(size)
    requires i < j < size
    ensures Slot(key, size, i) != Slot(key, size, j)
  {
    if Slot(key, size, i) == Slot(key, size, j) {
      SameSlotDivides(Start(key, size), Step(key, size), size, i, j);
      DivModOf(j - i, size, 0, j - i);
    }
  }

  lemma SameSlotDivides(s: nat, d: nat, n: nat, i: nat, j: nat)
    requires PowerOfTwo(n) && d % 2 == 1 && i < j
    requires (s + i * d) % n == (s + j * d) % n
    ensures (j - i) % n == 0
  {
    var x, y := s + i * d, (j - i) * d;
    assert s + j * d == x + y;
    var q := CommonRemainder(x, y, n);
    OddFactor(j - i, d, n, q);
  }

  lemma CommonRemainder(x: nat, y: nat, n: nat) returns (q: nat)
    requires n > 0 && x % n == (x + y) % n
    ensures y == n * q
  {
    var a, b := x / n, (x + y) / n;
    assert y == n * b - n * a == n * (b - a);
    if b < a {
      MulGap(n, b, a);
    }
    q := b - a;
  }

  lemma BackAtStart(key: nat, size: nat)
    requires size > 0
    ensures Slot(key, size, size) == Slot(key, size, 0)
  {
    var s, d := Start(key, size), Step(key, size);
    ModShift(s, d, size);
    SlotZero(key, size);
    assert Slot(key, size, size) == (s + size * d) % size;
  }

  /** After exactly `size` steps the probe is back at its start. */
  lemma FullCycle(key: nat, size: nat)
    requires PowerOfTwo(size)
    ensures Slot(key, size, size) == Slot(key, size, 0)
    ensures forall j :: 0 < j < size ==> Slot(key, size, j) != Slot(key, size, 0)
  {
    BackAtStart(key, size);
    forall j | 0 < j < size ensures Slot(key, size, j) != Slot(key, size, 0) {
      SlotsDistinct(key, size, 0, j);
    }
  }

  /** One turn of a probe loop: the next slot, and when it is the start again. */
  lemma ScanStep(key: nat, size: nat, j: nat)
    requires PowerOfTwo(size) && j < size
    ensures (Slot(key, size, j) + Step(key, size)) % size == Slot(key, size, j + 1)
    ensures Slot(key, size, j + 1) == Start(key, size) <==> j + 1 == size
  {
    SlotNext(key, size, j);
    SlotZero(key, size);
    FullCycle(key, size);
  }

  ghost function Visited(key: nat, size: nat, n: nat): (v: set<nat>)
    requires size > 0
  {
    set j: nat | j < n :: Slot(key, size, j)
  }

  ghost function Below(n: nat): set<nat> {
    if n == 0 then {} else Below(n - 1) + {n - 1}
  }

  lemma {:induction false} BelowSize(n: nat)
    ensures |Below(n)| == n
    ensures forall i: nat :: i in Below(n) <==> i < n
  {
    if n > 0 {
      BelowSize(n - 1);
    }
  }

  lemma {:induction false} VisitedSize(key: nat, size: nat, n: nat)
    requires PowerOfTwo(size) && n <= size
    ensures |Visited(key, size, n)| == n
  {
    if n > 0 {
      VisitedSize(key, size, n - 1);
      var s := Slot(key, size, n - 1);
      forall j: nat | j < n - 1 ensures Slot(key, size, j) != s {
        SlotsDistinct(key, size, j, n - 1);
      }
      assert Visited(key, size, n) == Visited(key, size, n - 1) + {s};
    } else {
      assert Visited(key, size, n) == {};
    }
  }

  /** The first `size` probes are a permutation of the slots. */
  lemma ProbeVisitsEverySlot(key: nat, size: nat, s: nat)
    requires PowerOfTwo(size) && s < size
    ensures exists j: nat :: j < size && Slot(key, size, j) == s
    ensures forall i: nat, j: nat :: i < j < size ==> Slot(key, size, i) != Slot(key, size, j)
  {
    forall i: nat, j: nat | i < j < size ensures Slot(key, size, i) != Slot(key, size, j) {
      SlotsDistinct(key, size, i, j);
    }
    VisitedSize(key, size, size);
    BelowSize(size);
    SubsetOfSameSize(Visited(key, size, size), Below(size));
    assert s in Visited(key, size, size);
  }
}

/** What an array of buckets stands for, and what one write to it does. */
module BucketArrays {
  import opened Counting
  import opened Options
  import opened Probing

  /** A bucket is filled (`v` present), vacated (key -1) or, as calloc leaves it,
      unused (key 0). */
  datatype Bucket<+V> = Bucket(key: int, v: Option<V>) {
    predicate Filled() { v.Some? }
    predicate Unused() { key == 0 && v.None? }
    predicate Vacated() { key == -1 && v.None? }
    predicate WellFormed() { (Filled() && key >= 0) || Unused() || Vacated() }
  }

  /** No unused bucket on the first `n` steps of the probe for `key`. */
  ghost predicate Open<V>(b: seq<Bucket<V>>, key: nat, n: nat)
    requires |b| > 0
  {
    forall j: nat :: j < n ==> !b[Slot(key, |b|, j)].Unused()
  }

  /** `key` is not in any of the buckets of the first `n` steps of its probe. */
  ghost predicate Missed<V>(b: seq<Bucket<V>>, key: nat, n: nat)
    requires |b| > 0
  {
    forall j: nat :: j < n ==> b[Slot(key, |b|, j)].key != key
  }

  /** Every bucket of the first `n` steps of the probe is filled. */
  ghost predicate AllFilled<V>(b: seq<Bucket<V>>, key: nat, n: nat)
    requires |b| > 0
  {
    forall j: nat :: j < n ==> b[Slot(key, |b|, j)].Filled()
  }

  /** Bucket `i` is met on its own key's probe at step `j`, through filled or
      vacated buckets only. */
  ghost predicate ReachedAt<V>(b: seq<Bucket<V>>, i: nat, j: nat)
    requires i < |b| && b[i].Filled() && b[i].key >= 0
  {
    j < |b| && Slot(b[i].key, |b|, j) == i && Open(b, b[i].key, j)
  }

  ghost function FilledSlots<V>(b: seq<Bucket<V>>): (s: set<nat>)
    ensures forall i: nat :: i in s <==> i < |b| && b[i].Filled()
  {
    set i: nat | i < |b| && b[i].Filled()
  }

  ghost predicate Distinct<V>(b: seq<Bucket<V>>) {
    forall i: nat, j: nat :: i < j < |b| && b[i].Filled() && b[j].Filled() ==> b[i].key != b[j].key
  }

  ghost predicate Reachable<V>(b: seq<Bucket<V>>) {
    forall i: nat :: i < |b| && b[i].Filled() ==> b[i].key >= 0 && exists j: nat :: ReachedAt(b, i, j)
  }

  ghost predicate Holds<V>(b: seq<Bucket<V>>, i: nat, m: map<int, V>) {
    i < |b| && b[i].Filled() && b[i].key in m && m[b[i].key] == b[i].v.value
  }

  ghost predicate SameEntries<V>(b: seq<Bucket<V>>, m: map<int, V>) {
    && (forall i: nat :: i < |b| && b[i].Filled() ==> Holds(b, i, m))
    && (forall k :: k in m ==> exists i: nat :: Holds(b, i, m) && b[i].key == k)
  }

  /** The buckets are a well-formed representation of the finite map `m`. */
  ghost predicate Represents<V>(b: seq<Bucket<V>>, m: map<int, V>) {
    && PowerOfTwo(|b|)
    && (forall i: nat :: i < |b| ==> b[i].WellFormed())
    && Distinct(b)
    && Reachable(b)
    && SameEntries(b, m)
    && |FilledSlots(b)| == |m|
  }

  /** The probe for `key` meets `key` before any value-less bucket. */
  ghost predicate FoundFirst<V>(b: seq<Bucket<V>>, key: nat)
    requires |b| > 0
  {
    exists j: nat :: j < |b| && AllFilled(b, key, j) && b[Slot(key, |b|, j)].Filled() && b[Slot(key, |b|, j)].key == key
  }

  /** The entries of the buckets at index `i` and up. */
  ghost function EntriesFrom<V>(b: seq<Bucket<V>>, i: nat): (m: map<int, V>)
    requires i <= |b|
    decreases |b| - i
  {
    if i == |b| then map[]
    else if b[i].Filled() then EntriesFrom(b, i + 1)[b[i].key := b[i].v.value]
    else EntriesFrom(b, i + 1)
  }

  lemma {:induction false} EntriesFromWithin<V>(b: seq<Bucket<V>>, i: nat, m: map<int, V>)
    requires i <= |b| && SameEntries(b, m)
    ensures EntriesFrom(b, i).Keys <= m.Keys && |EntriesFrom(b, i)| <= |m|
    ensures forall k :: k in EntriesFrom(b, i) ==> EntriesFrom(b, i)[k] == m[k]
    ensures forall p: nat :: i <= p < |b| && b[p].Filled() ==> b[p].key in EntriesFrom(b, i)
    decreases |b| - i
  {
    if i < |b| {
      EntriesFromWithin(b, i + 1, m);
      if b[i].Filled() {
        assert Holds(b, i, m);
        assert EntriesFrom(b, i).Keys == EntriesFrom(b, i + 1).Keys + {b[i].key};
      }
    }
    SubsetNotLarger(EntriesFrom(b, i).Keys, m.Keys);
  }

  lemma {:induction false} EntriesFromLater<V>(b: seq<Bucket<V>>, i: nat, p: nat)
    requires p < i <= |b| && Distinct(b) && b[p].Filled()
    ensures b[p].key !in EntriesFrom(b, i)
    decreases |b| - i
  {
    if i < |b| {
      EntriesFromLater(b, i + 1, p);
    }
  }

  /** What the reinsertion loop of `do_rehash` needs at bucket `i`. */
  lemma NextEntry<V>(b: seq<Bucket<V>>, i: nat, m: map<int, V>)
    requires i < |b| && Represents(b, m)
    ensures b[i].Filled() ==>
      && b[i].key >= 0 && b[i].key !in EntriesFrom(b, i + 1)
      && |EntriesFrom(b, i + 1)| + 1 <= |m|
      && EntriesFrom(b, i) == EntriesFrom(b, i + 1)[b[i].key := b[i].v.value]
    ensures !b[i].Filled() ==> EntriesFrom(b, i) == EntriesFrom(b, i + 1)
  {
    if b[i].Filled() {
      EntriesFromLater(b, i + 1, i);
    }
    EntriesFromWithin(b, i, m);
  }

  lemma AllEntries<V>(b: seq<Bucket<V>>, m: map<int, V>)
    requires SameEntries(b, m)
    ensures EntriesFrom(b, 0) == m
  {
    EntriesFromWithin(b, 0, m);
    forall k | k in m.Keys ensures k in EntriesFrom(b, 0).Keys {
      var i: nat :| Holds(b, i, m) && b[i].key == k;
    }
    SameMap(EntriesFrom(b, 0), m);
  }

  lemma SameMap<V>(e: map<int, V>, m: map<int, V>)
    requires e.Keys == m.Keys
    requires forall k :: k in e.Keys ==> e[k] == m[k]
    ensures e == m
  {
    forall k | k in e.Keys ensures e[k] == m[k] {}
  }

  /** What calloc leaves. */
  function Fresh<V>(n: nat): (b: seq<Bucket<V>>)
    ensures |b| == n
  {
    seq(n, _ => Bucket(0, None))
  }

  lemma FreshRepresentsEmpty<V>(n: nat)
    requires PowerOfTwo(n)
    ensures Represents<V>(Fresh(n), map[])
  {
    assert FilledSlots<V>(Fresh(n)) == {};
  }

  /** `v` goes into the first bucket of the probe for `key` that has no value, or into that of `key` before it. */
  ghost predicate Stored<V>(b: seq<Bucket<V>>, b': seq<Bucket<V>>, key: nat, v: V)
    requires |b| > 0
  {
    exists j: nat :: StoredAt(b, b', key, v, j)
  }

  ghost predicate StoredAt<V>(b: seq<Bucket<V>>, b': seq<Bucket<V>>, key: nat, v: V, j: nat)
    requires |b| > 0
  {
    var s := Slot(key, |b|, j);
    && j < |b| && AllFilled(b, key, j) && Missed(b, key, j)
    && (b[s].Filled() ==> b[s].key == key)
    && b' == b[s := Bucket(key, Some(v))]
  }

  /** The bucket of `key` is vacated. */
  ghost predicate Taken<V>(b: seq<Bucket<V>>, b': seq<Bucket<V>>, key: nat) {
    exists i: nat :: i < |b| && b[i].Filled() && b[i].key == key && b' == b[i := Bucket(-1, None)]
  }

  lemma NoneFilledMeansEmpty<V>(b: seq<Bucket<V>>, m: map<int, V>)
    requires Represents(b, m)
    requires forall i: nat :: i < |b| ==> !b[i].Filled()
    ensures m == map[]
  {
    assert FilledSlots(b) == {};
  }

  lemma PresentIsReached<V>(b: seq<Bucket<V>>, m: map<int, V>, key: nat) returns (j: nat)
    requires Represents(b, m) && key in m
    ensures j < |b| && Open(b, key, j)
    ensures b[Slot(key, |b|, j)].Filled() && b[Slot(key, |b|, j)].key == key
  {
    var i: nat :| Holds(b, i, m) && b[i].key == key;
    j :| ReachedAt(b, i, j);
  }

  /** A probe that has missed `key` and stands at an unused bucket proves absence. */
  lemma UnusedMeansAbsent<V>(b: seq<Bucket<V>>, m: map<int, V>, key: nat, n: nat)
    requires Represents(b, m)
    requires Missed(b, key, n) && b[Slot(key, |b|, n)].Unused()
    ensures key !in m
  {
    if key in m {
      var j := PresentIsReached(b, m, key);
    }
  }

  /** So does a probe that has come round to its start. */
  lemma FullScanMeansAbsent<V>(b: seq<Bucket<V>>, m: map<int, V>, key: nat)
    requires Represents(b, m)
    requires Missed(b, key, |b|)
    ensures key !in m
  {
    if key in m {
      var j := PresentIsReached(b, m, key);
    }
  }

  /** With a free bucket anywhere, no probe meets only filled buckets. */
  lemma ProbeFindsRoom<V>(b: seq<Bucket<V>>, m: map<int, V>, key: nat)
    requires Represents(b, m) && |m| < |b|
    ensures !AllFilled(b, key, |b|)
  {
    if AllFilled(b, key, |b|) {
      FullMeansLoaded(b, key);
    }
  }

  lemma FullMeansLoaded<V>(b: seq<Bucket<V>>, key: nat)
    requires PowerOfTwo(|b|) && AllFilled(b, key, |b|)
    ensures |FilledSlots(b)| == |b|
  {
    forall s: nat | s < |b| ensures b[s].Filled() {
      ProbeVisitsEverySlot(key, |b|, s);
    }
    BelowSize(|b|);
    assert FilledSlots(b) == Below(|b|);
  }

  /** If an absent-or-found-first key stops at a value-less bucket, it is absent. */
  lemma StopsMeansAbsent<V>(b: seq<Bucket<V>>, m: map<int, V>, key: nat, n: nat)
    requires |b| > 0 && (key in m ==> FoundFirst(b, key))
    requires AllFilled(b, key, n) && Missed(b, key, n) && !b[Slot(key, |b|, n)].Filled()
    ensures key !in m
  {
  }

  /** Writes that cut no probe: an unused bucket may be written, none may appear. */
  ghost predicate KeepsOpen<V>(b: seq<Bucket<V>>, b': seq<Bucket<V>>) {
    |b| == |b'| && forall i: nat :: i < |b| && b'[i].Unused() ==> b[i].Unused()
  }

  lemma OpenKept<V>(b: seq<Bucket<V>>, b': seq<Bucket<V>>, key: nat, n: nat)
    requires |b| > 0 && KeepsOpen(b, b') && Open(b, key, n)
    ensures Open(b', key, n)
  {
  }

  lemma ReachableKept<V>(b: seq<Bucket<V>>, b': seq<Bucket<V>>, s: nat)
    requires s < |b| && KeepsOpen(b, b') && Reachable(b)
    requires forall i: nat :: i < |b| && i != s ==> b'[i] == b[i]
    requires b'[s].Filled() ==> b'[s].key >= 0 && exists j: nat :: ReachedAt(b', s, j)
    ensures Reachable(b')
  {
    forall i: nat | i < |b'| && b'[i].Filled() ensures b'[i].key >= 0 && exists j: nat :: ReachedAt(b', i, j) {
      if i != s {
        var j: nat :| ReachedAt(b, i, j);
        OpenKept(b, b', b[i].key, j);
        assert ReachedAt(b', i, j);
      }
    }
  }

  lemma WriteCounts<V>(b: seq<Bucket<V>>, s: nat, x: Bucket<V>)
    requires s < |b|
    ensures x.Filled() && !b[s].Filled() ==> |FilledSlots(b[s := x])| == |FilledSlots(b)| + 1
    ensures x.Filled() && b[s].Filled() ==> |FilledSlots(b[s := x])| == |FilledSlots(b)|
    ensures !x.Filled() && b[s].Filled() ==> |FilledSlots(b[s := x])| == |FilledSlots(b)| - 1
  {
    if x.Filled() {
      assert FilledSlots(b[s := x]) == FilledSlots(b) + {s};
    } else {
      assert FilledSlots(b[s := x]) == FilledSlots(b) - {s};
    }
  }

  lemma InsertEntries<V>(b: seq<Bucket<V>>, m: map<int, V>, s: nat, key: nat, v: V)
    requires SameEntries(b, m) && Distinct(b) && key !in m
    requires s < |b| && !b[s].Filled()
    ensures SameEntries(b[s := Bucket(key, Some(v))], m[key := v])
    ensures Distinct(b[s := Bucket(key, Some(v))])
  {
    var b', m' := b[s := Bucket(key, Some(v))], m[key := v];
    forall i: nat | i < |b'| && b'[i].Filled() ensures Holds(b', i, m') && (i != s ==> b'[i].key != key) {
      assert i != s ==> Holds(b, i, m);
    }
    forall k | k in m' ensures exists i: nat :: Holds(b', i, m') && b'[i].key == k {
      if k == key {
        assert Holds(b', s, m');
      } else {
        var i: nat :| Holds(b, i, m) && b[i].key == k;
        assert Holds(b', i, m');
      }
    }
  }

  /** Filling the first value-less bucket of the probe for an absent key adds the key. */
  lemma InsertRepresents<V>(b: seq<Bucket<V>>, m: map<int, V>, key: nat, n: nat, v: V)
    requires Represents(b, m) && key !in m
    requires n < |b| && AllFilled(b, key, n) && !b[Slot(key, |b|, n)].Filled()
    ensures Represents(b[Slot(key, |b|, n) := Bucket(key, Some(v))], m[key := v])
  {
    var s := Slot(key, |b|, n);
    var b' := b[s := Bucket(key, Some(v))];
    InsertEntries(b, m, s, key, v);
    assert ReachedAt(b', s, n);
    ReachableKept(b, b', s);
    WriteCounts(b, s, b'[s]);
  }

  lemma UpdateEntries<V>(b: seq<Bucket<V>>, m: map<int, V>, s: nat, v: V)
    requires SameEntries(b, m) && Distinct(b)
    requires s < |b| && b[s].Filled()
    ensures SameEntries(b[s := b[s].(v := Some(v))], m[b[s].key := v])
    ensures b[s].key in m
  {
    var b', m' := b[s := b[s].(v := Some(v))], m[b[s].key := v];
    assert Holds(b, s, m);
    forall i: nat | i < |b'| && b'[i].Filled() ensures Holds(b', i, m') {
      assert Holds(b, i, m);
    }
    forall k | k in m' ensures exists i: nat :: Holds(b', i, m') && b'[i].key == k {
      var i: nat :| Holds(b, i, m) && b[i].key == k;
      assert Holds(b', i, m');
    }
  }

  /** Overwriting the value of a filled bucket updates its key. */
  lemma UpdateRepresents<V>(b: seq<Bucket<V>>, m: map<int, V>, s: nat, v: V)
    requires Represents(b, m) && s < |b| && b[s].Filled()
    ensures Represents(b[s := b[s].(v := Some(v))], m[b[s].key := v])
  {
    var b' := b[s := b[s].(v := Some(v))];
    UpdateEntries(b, m, s, v);
    var j: nat :| ReachedAt(b, s, j);
    OpenKept(b, b', b[s].key, j);
    assert ReachedAt(b', s, j);
    ReachableKept(b, b', s);
    WriteCounts(b, s, b'[s]);
    assert m[b[s].key := v].Keys == m.Keys;
  }

  lemma VacateEntries<V>(b: seq<Bucket<V>>, m: map<int, V>, s: nat)
    requires SameEntries(b, m) && Distinct(b)
    requires s < |b| && b[s].Filled()
    ensures SameEntries(b[s := Bucket(-1, None)], m - {b[s].key})
    ensures b[s].key in m && Distinct(b[s := Bucket(-1, None)])
  {
    var b', m' := b[s := Bucket(-1, None)], m - {b[s].key};
    assert Holds(b, s, m);
    forall i: nat | i < |b'| && b'[i].Filled() ensures Holds(b', i, m') {
      assert Holds(b, i, m);
    }
    forall k | k in m' ensures exists i: nat :: Holds(b', i, m') && b'[i].key == k {
      var i: nat :| Holds(b, i, m) && b[i].key == k;
      assert Holds(b', i, m');
    }
  }

  /** Vacating an unused bucket changes no entry. */
  lemma VacateUnused<V>(b: seq<Bucket<V>>, m: map<int, V>, s: nat, b': seq<Bucket<V>>)
    requires Represents(b, m) && s < |b| && b[s].Unused() && b' == b[s := Bucket(-1, None)]
    ensures Represents(b', m)
  {
    ReachableKept(b, b', s);
    SameFilled(b, b');
    UnusedEntries(b, m, s, b');
  }

  lemma SameFilled<V>(b: seq<Bucket<V>>, b': seq<Bucket<V>>)
    requires |b| == |b'| && forall i: nat :: i < |b| ==> b[i] == b'[i] || (!b[i].Filled() && !b'[i].Filled())
    ensures FilledSlots(b) == FilledSlots(b') && (Distinct(b) ==> Distinct(b'))
  {
  }

  lemma UnusedEntries<V>(b: seq<Bucket<V>>, m: map<int, V>, s: nat, b': seq<Bucket<V>>)
    requires SameEntries(b, m) && s < |b| && !b[s].Filled() && b' == b[s := Bucket(-1, None)]
    ensures SameEntries(b', m)
  {
    forall i: nat | i < |b| && b'[i].Filled() ensures Holds(b', i, m) {
      assert Holds(b, i, m);
    }
    forall k | k in m ensures exists i: nat :: Holds(b', i, m) && b'[i].key == k {
      var i: nat :| Holds(b, i, m) && b[i].key == k;
      assert Holds(b', i, m);
    }
  }

  /** A probe for the absent key 0 that comes round meets no unused bucket. */
  lemma NoUnusedLeft<V>(b: seq<Bucket<V>>)
    requires PowerOfTwo(|b|) && Missed(b, 0, |b|)
    ensures forall i: nat :: i < |b| ==> !b[i].Unused()
  {
    forall i: nat | i < |b|
      ensures !b[i].Unused()
    {
      ProbeVisitsEverySlot(0, |b|, i);
    }
  }

  /** Vacating a filled bucket removes its key and cuts no probe. */
  lemma VacateRepresents<V>(b: seq<Bucket<V>>, m: map<int, V>, s: nat)
    requires Represents(b, m) && s < |b| && b[s].Filled()
    ensures Represents(b[s := Bucket(-1, None)], m - {b[s].key})
    ensures |m - {b[s].key}| == |m| - 1
  {
    var b' := b[s := Bucket(-1, None)];
    VacateEntries(b, m, s);
    ReachableKept(b, b', s);
    WriteCounts(b, s, b'[s]);
    assert (m - {b[s].key}).Keys == m.Keys - {b[s].key};
  }
}

module HashTables {
  import opened Counting
  import opened Options
  import opened Probing
  import opened BucketArrays

  /** Keys are non-negative and values non-NULL, as the C file demands. */
  class HashTable<V> {
    var buckets: array?<Bucket<V>>
    var size: nat
    var count: int
    ghost var M: map<int, V>

    /** Everything `Valid` says except the load bound. */
    ghost predicate Shape()
      reads this, buckets
    {
      if buckets == null then size == 0 && count == 0 && M == map[]
      else buckets.Length == size >= 16 && Represents(buckets[..], M) && count == |M|
    }

    ghost predicate Valid()
      reads this, buckets
    {
      Shape() && (buckets != null ==> 2 * count < size)
    }

    lemma KeysNonNegative(k: int)
      requires Shape() && k in M
      ensures k >= 0
    {
      var i: nat :| Holds(buckets[..], i, M) && buckets[i].key == k;
    }

    ghost function Buckets(): seq<Bucket<V>>
      reads this, buckets
    {
      if buckets == null then [] else buckets[..]
    }

    /** The same array as before, in which buckets have at most been vacated. */
    ghost predicate OnlyVacated(was: array?<Bucket<V>>, wasSize: nat, b: seq<Bucket<V>>)
      reads this, buckets
    {
      && buckets == was && size == wasSize && |Buckets()| == |b|
      && forall i: nat :: i < |b| && Buckets()[i].Filled() ==> Buckets()[i] == b[i]
    }

    ghost predicate EmptyBelow(i: nat)
      reads this, buckets
    {
      forall j: nat :: j < i && j < |Buckets()| ==> !Buckets()[j].Filled()
    }

    lemma FilledIsPresent(i: nat)
      requires Shape() && buckets != null && i < size
      ensures buckets[i].Filled() ==> buckets[i].key in M
    {
      ghost var b := buckets[..];
      assert b[i].Filled() ==> Holds(b, i, M);
    }

    lemma ScanSkips(i: nat)
      requires buckets != null && i < buckets.Length && !buckets[i].Filled() && EmptyBelow(i)
      ensures EmptyBelow(i + 1)
    {
    }

    /** A scan that removes what it finds leaves no filled bucket behind it. */
    lemma ScanEmpties(i: nat, key: int, was: array?<Bucket<V>>, wasSize: nat, b: seq<Bucket<V>>)
      requires Shape() && OnlyVacated(was, wasSize, b) && i < |b| && key !in M
      requires (forall j: nat :: j < i ==> !b[j].Filled()) && b[i].key == key
      ensures EmptyBelow(i + 1)
    {
      FilledIsPresent(i);
    }

    lemma NoneFilled()
      requires Shape() && EmptyBelow(size)
      ensures M == map[]
    {
      if buckets != null {
        assert Buckets() == buckets[..];
        assert forall i: nat :: i < size ==> Buckets()[i] == buckets[..][i];
        NoneFilledMeansEmpty(buckets[..], M);
      }
    }

    constructor ()
      ensures Valid() && M == map[] && buckets == null
    {
      buckets, size, count, M := null, 0, 0, map[];
    }

    method IsEmpty() returns (r: bool)
      requires Valid()
      ensures r <==> M == map[]
    {
      r := count == 0;
    }

    /** `rktio_hash_get_key`: the key in bucket `i`, or -1. */
    method GetKey(i: nat) returns (key: int)
      requires Shape() && i < size
      ensures buckets != null
      ensures key == if buckets[i].Filled() then buckets[i].key else -1
      ensures key != -1 ==> key >= 0 && key in M
    {
      ghost var b := buckets[..];
      assert b[i].Filled() ==> Holds(b, i, M);
      key := if buckets[i].v.Some? then buckets[i].key else -1;
    }

    /** The scan shared by `Get` and `Remove`: it stops at a bucket with key `key`, or
        else at an unused bucket or where it began. */
    method FindKey(key: nat) returns (hc: nat, found: bool)
      requires Shape() && buckets != null
      ensures hc < size
      ensures found ==> buckets[hc].key == key
      ensures key in M ==> found && buckets[hc].v == Some(M[key])
      ensures key !in M && found ==> buckets[hc].Unused()
      ensures key !in M ==> (found <==> key == 0 && HasUnused())
    {
      ghost var b := buckets[..];
      hc := Start(key, size);
      var initHc, d := hc, Step(key, size);
      ghost var j: nat := 0;
      SlotZero(key, size);
      while true
        invariant j < size && hc == Slot(key, size, j)
        invariant Missed(b, key, j)
        decreases size - j
      {
        if buckets[hc].key == key {
          if buckets[hc].Filled() {
            assert Holds(b, hc, M);
          } else {
            UnusedMeansAbsent(b, M, key, j);
            assert Buckets()[hc].Unused();
          }
          return hc, true;
        } else if buckets[hc].v.Some? || buckets[hc].key == -1 {
          ScanStep(key, size, j);
          hc := (hc + d) % size;
          if hc == initHc {
            FullScanMeansAbsent(b, M, key);
            if key == 0 {
              NoUnusedLeft(b);
            }
            return hc, false;
          }
          j := j + 1;
        } else {
          UnusedMeansAbsent(b, M, key, j);
          return hc, false;
        }
      }
    }

    method Get(key: nat) returns (r: Option<V>)
      requires Shape()
      ensures r == if key in M then Some(M[key]) else None
    {
      if buckets == null {
        return None;
      }
      var hc, found := FindKey(key);
      r := if found then buckets[hc].v else None;
    }

    /** The write of `Remove`. */
    method Vacate(hc: nat)
      requires Shape() && buckets != null && hc < size && buckets[hc].Filled()
      modifies this, buckets
      ensures Shape() && buckets == old(buckets) && size == old(size) && count == old(count) - 1
      ensures buckets[..] == old(buckets[..])[hc := Bucket(-1, None)]
      ensures M == old(M) - {old(buckets[hc].key)}
    {
      ghost var b := buckets[..];
      VacateRepresents(b, M, hc);
      M := M - {buckets[hc].key};
      buckets[hc] := Bucket(-1, None);
      count := count - 1;
      assert buckets[..] == b[hc := Bucket(-1, None)];
    }

    /** The write for an unused bucket, which the scan takes for the key 0. */
    method VacateFree(hc: nat)
      requires Shape() && buckets != null && hc < size && buckets[hc].Unused()
      modifies this`count, buckets
      ensures Represents(buckets[..], M) && count == |M| - 1
    {
      ghost var b := buckets[..];
      VacateUnused(b, M, hc, b[hc := Bucket(-1, None)]);
      buckets[hc] := Bucket(-1, None);
      count := count - 1;
      assert buckets[..] == b[hc := Bucket(-1, None)];
    }

    /**
     * The removal up to its rehash, for every key. The scan takes an unused bucket for the key 0, and
     * then the count drops although no entry has gone.
     */
    method RemoveFirst(key: nat) returns (found: bool)
      requires Valid()
      modifies this, buckets
      ensures buckets == old(buckets) && size == old(size)
      ensures found <==> key in old(M) || (key == 0 && old(HasUnused()))
      ensures count == old(count) - (if found then 1 else 0) && M == old(M) - {key}
      ensures key in old(M) ==> Shape() && Taken(old(Buckets()), Buckets(), key)
      ensures !found ==> Valid() && Buckets() == old(Buckets())
      ensures found && key !in old(M) ==> Represents(Buckets(), M)
    {
      if buckets == null {
        return false;
      }
      var hc;
      hc, found := FindKey(key);
      if found && buckets[hc].v.Some? {
        Vacate(hc);
      } else if found {
        VacateFree(hc);
      }
    }

    ghost predicate HasUnused()
      reads this, buckets
    {
      exists i: nat :: i < |Buckets()| && Buckets()[i].Unused()
    }

    /** Removing an absent key 0 is outside the contract; see `RemoveFirst`. */
    method Remove(key: nat, dontRehash: bool)
      requires Valid()
      requires key in M || key != 0
      modifies this, buckets
      ensures Valid() && (buckets == old(buckets) || fresh(buckets))
      ensures M == old(M) - {key}
      ensures dontRehash || key !in old(M) ==> OnlyVacated(old(buckets), old(size), old(Buckets()))
      ensures key in old(M) && (dontRehash || old(size) < 32) ==> Taken(old(Buckets()), Buckets(), key)
    {
      var found := RemoveFirst(key);
      if found {
        if !dontRehash {
          if 4 * count <= size {
            DoRehash(size / 2);
          }
        }
      }
    }

    /** Reinsert every entry into `newSize` fresh buckets. Refilling a shrunken
        table exactly to half grows it again, inside the loop. */
    method DoRehash(newSize: nat)
      requires Shape() && buckets != null && 2 * count <= newSize
      requires newSize < 16 ==> Valid()
      requires newSize >= 16 ==> PowerOfTwo(newSize)
      modifies this, buckets
      ensures Valid() && (buckets == old(buckets) || fresh(buckets))
      ensures M == old(M) && (newSize < 16 ==> Buckets() == old(Buckets()))
      decreases if 2 * count >= newSize then 3 else 1
    {
      if newSize >= 16 {
        var oldBuckets, i := buckets, size;
        ghost var b, m := buckets[..], M;
        Restart(newSize);
        while i > 0
          invariant 0 <= i <= |b| && oldBuckets[..] == b
          invariant Valid() && buckets != null && buckets != oldBuckets && fresh(buckets)
          invariant M == EntriesFrom(b, i)
          invariant 2 * |m| < newSize ==> size == newSize
        {
          i := i - 1;
          assert oldBuckets[i] == b[i];
          NextEntry(b, i, m);
          if oldBuckets[i].v.Some? {
            Set(oldBuckets[i].key, oldBuckets[i].v.value);
          }
        }
        AllEntries(b, m);
      }
    }

    method Restart(newSize: nat)
      requires newSize >= 16 && PowerOfTwo(newSize)
      modifies this
      ensures Valid() && size == newSize && count == 0 && M == map[]
      ensures buckets != null && fresh(buckets) && buckets[..] == Fresh(newSize)
    {
      size := newSize;
      buckets := new Bucket<V>[newSize](_ => Bucket(0, None));
      count := 0;
      M := map[];
      FreshRepresentsEmpty<V>(newSize);
      assert buckets[..] == Fresh(newSize);
    }

    /** The branch of `Set` for a key that is found. */
    method Overwrite(hc: nat, v: V)
      requires Shape() && buckets != null && hc < size && buckets[hc].Filled()
      modifies this, buckets
      ensures Shape() && buckets == old(buckets) && size == old(size) && count == old(count)
      ensures buckets[..] == old(buckets[..])[hc := Bucket(old(buckets[hc].key), Some(v))]
      ensures M == old(M)[old(buckets[hc].key) := v]
    {
      ghost var b, m := buckets[..], M;
      UpdateRepresents(b, m, hc, v);
      M := M[buckets[hc].key := v];
      buckets[hc] := buckets[hc].(v := Some(v));
      assert buckets[..] == b[hc := b[hc].(v := Some(v))];
      assert Holds(b, hc, m);
      assert M.Keys == m.Keys;
    }

    /** The branch of `Set` for a key that is not found, up to its rehash. */
    method Fill(useHc: nat, key: nat, v: V, ghost j: nat)
      requires Shape() && buckets != null && key !in M
      requires j < size && useHc == Slot(key, size, j)
      requires AllFilled(buckets[..], key, j) && !buckets[useHc].Filled()
      modifies this, buckets
      ensures Shape() && buckets == old(buckets) && size == old(size) && count == old(count) + 1
      ensures buckets[..] == old(buckets[..])[useHc := Bucket(key, Some(v))]
      ensures M == old(M)[key := v]
    {
      ghost var b := buckets[..];
      InsertRepresents(b, M, key, j, v);
      buckets[useHc] := Bucket(key, Some(v));
      M := M[key := v];
      count := count + 1;
      assert buckets[..] == b[useHc := Bucket(key, Some(v))];
    }

    /** The allocation at the head of `Set`. */
    method Allocate()
      requires Valid()
      modifies this
      ensures Valid() && buckets != null && M == old(M) && count == old(count)
      ensures old(buckets) != null ==> unchanged(this)
      ensures old(buckets) == null ==> fresh(buckets) && size == 16
      ensures buckets[..] == old(Allocated())
    {
      if buckets == null {
        size := 16;
        buckets := new Bucket<V>[size](_ => Bucket(0, None));
        FreshRepresentsEmpty<V>(size);
        assert buckets[..] == Fresh(size);
      }
    }

    /** The buckets that a call of `Set` starts with. */
    ghost function Allocated(): seq<Bucket<V>>
      reads this, buckets
    {
      if buckets == null then Fresh(16) else buckets[..]
    }

    /** The scan of `Set`: it stops at `key`, or else at the first value-less bucket. */
    method FindPlace(key: nat) returns (useHc: int, found: bool, ghost j: nat)
      requires Valid() && buckets != null
      ensures j < size && useHc == Slot(key, size, j)
      ensures AllFilled(buckets[..], key, j) && Missed(buckets[..], key, j)
      ensures found <==> buckets[useHc].Filled()
      ensures found ==> buckets[useHc].key == key
    {
      ghost var b := buckets[..];
      var hc: int := Start(key, size);
      var initHc, d := hc, Step(key, size);
      j := 0;
      SlotZero(key, size);
      ProbeFindsRoom(b, M, key);
      while true
        invariant j < size && hc == Slot(key, size, j)
        invariant AllFilled(b, key, j) && Missed(b, key, j)
        decreases size - j
      {
        if buckets[hc].v.Some? {
          if buckets[hc].key == key {
            return hc, true, j;
          } else {
            // a filled bucket never has key -1, so there is no vacated bucket to reuse here
            ScanStep(key, size, j);
            hc := (hc + d) % size;
            j := j + 1;
            if hc == initHc {
              assert false; // `ProbeFindsRoom`: the scan cannot come round
              break;
            }
          }
        } else {
          return hc, false, j;
        }
      }
      useHc, found := -1, false;
    }

    /** A present key must not lie behind a vacated bucket; see `SetKeepsKeysDistinct`. */
    method Set(key: nat, v: V)
      requires Valid()
      requires key in M ==> buckets != null && FoundFirst(buckets[..], key)
      modifies this, buckets
      ensures Valid() && buckets != null && (buckets == old(buckets) || fresh(buckets))
      ensures M == old(M)[key := v]
      ensures 2 * (old(count) + 1) < old(|Allocated()|) ==> Stored(old(Allocated()), buckets[..], key, v)
      decreases if 2 * (count + 1) >= (if buckets == null then 16 else size) then 2 else 0
    {
      Allocate();
      var found := Store(key, v);
      if !found {
        if 2 * count >= size {
          Doubling(size);
          DoRehash(size * 2);
        }
      }
    }

    /** The search of `Set` and its write. */
    method Store(key: nat, v: V) returns (found: bool)
      requires Valid() && buckets != null
      requires key in M ==> FoundFirst(buckets[..], key)
      modifies this, buckets
      ensures Shape() && buckets == old(buckets) && size == old(size)
      ensures M == old(M)[key := v] && (found <==> key in old(M)) && count == old(count) + if found then 0 else 1
      ensures Stored(old(buckets[..]), buckets[..], key, v)
    {
      ghost var b := buckets[..];
      var useHc;
      ghost var j;
      useHc, found, j := FindPlace(key);
      if found {
        FilledIsPresent(useHc);
        Overwrite(useHc, v);
      } else {
        StopsMeansAbsent(b, M, key, j);
        Fill(useHc, key, v, j);
      }
      assert StoredAt(b, buckets[..], key, v, j);
    }
  }

  /** A client's call; only `Lookup` answers. */
  datatype Call<+V> = Lookup(key: nat) | Insert(key: nat, v: V) | Delete(key: nat, dontRehash: bool)

  function After<V>(m: map<int, V>, c: Call<V>): map<int, V> {
    match c
    case Lookup(_) => m
    case Insert(k, v) => m[k := v]
    case Delete(k, _) => m - {k}
  }

  /** Insertions are of absent keys and deletions of present ones, as in `rktio_ltps.c`. */
  ghost predicate Disciplined<V>(m: map<int, V>, cs: seq<Call<V>>)
    decreases |cs|
  {
    cs == [] || (
      && (cs[0].Insert? ==> cs[0].key !in m)
      && (cs[0].Delete? ==> cs[0].key in m)
      && Disciplined(After(m, cs[0]), cs[1..]))
  }

  /** The answers a finite map would give. */
  ghost function MapAnswers<V>(m: map<int, V>, cs: seq<Call<V>>): seq<Option<V>>
    decreases |cs|
  {
    if cs == [] then []
    else if cs[0].Lookup? then [if cs[0].key in m then Some(m[cs[0].key]) else None] + MapAnswers(m, cs[1..])
    else MapAnswers(After(m, cs[0]), cs[1..])
  }

  method Perform<V>(ht: HashTable<V>, c: Call<V>) returns (r: Option<V>)
    requires ht.Valid()
    requires (c.Insert? ==> c.key !in ht.M) && (c.Delete? ==> c.key in ht.M)
    modifies ht, ht.buckets
    ensures ht.Valid() && (ht.buckets == old(ht.buckets) || fresh(ht.buckets))
    ensures ht.M == After(old(ht.M), c)
    ensures c.Lookup? ==> r == if c.key in ht.M then Some(ht.M[c.key]) else None
  {
    r := None;
    match c {
      case Lookup(k) => r := ht.Get(k);
      case Insert(k, v) => ht.Set(k, v);
      case Delete(k, dontRehash) => ht.Remove(k, dontRehash);
    }
  }

  /** Over every disciplined run, the table answers as a finite map. */
  method Run<V>(cs: seq<Call<V>>) returns (answers: seq<Option<V>>)
    requires Disciplined(map[], cs)
    ensures answers == MapAnswers(map[], cs)
  {
    var ht := new HashTable<V>();
    answers := RunOn(ht, cs);
  }

  method RunOn<V>(ht: HashTable<V>, cs: seq<Call<V>>) returns (answers: seq<Option<V>>)
    requires ht.Valid() && Disciplined(ht.M, cs)
    modifies ht, ht.buckets
    ensures answers == MapAnswers(old(ht.M), cs)
    decreases |cs|
  {
    if cs == [] {
      return [];
    }
    var r := Perform(ht, cs[0]);
    var rest := RunOn(ht, cs[1..]);
    answers := if cs[0].Lookup? then [r] + rest else rest;
  }

  /** Where a scan for `key` stops at a value-less bucket, filling it keeps the
      keys distinct exactly when `key` is absent. */
  lemma SetKeepsKeysDistinct<V>(b: seq<Bucket<V>>, m: map<int, V>, key: nat, n: nat, v: V)
    requires Represents(b, m)
    requires n < |b| && AllFilled(b, key, n) && Missed(b, key, n) && !b[Slot(key, |b|, n)].Filled()
    ensures Distinct(b[Slot(key, |b|, n) := Bucket(key, Some(v))]) <==> key !in m
  {
    var s := Slot(key, |b|, n);
    var b' := b[s := Bucket(key, Some(v))];
    if key in m {
      var i: nat :| Holds(b, i, m) && b[i].key == key;
      assert i != s && b'[i].Filled() && b'[s].Filled() && b'[i].key == b'[s].key;
    } else {
      InsertEntries(b, m, s, key, v);
    }
  }

  /** Sixteen buckets after set 0, set 16, remove 0. */
  function BehindVacated<V>(v: V): seq<Bucket<V>> {
    seq(16, i => if i == 0 then Bucket(-1, None) else if i == 3 then Bucket(16, Some(v)) else Bucket(0, None))
  }

  /** The key 0 looks at bucket 0 first. */
  lemma StoreZero<V>(b: seq<Bucket<V>>, b': seq<Bucket<V>>, v: V)
    requires |b| > 0 && Stored(b, b', 0, v) && !b[0].Filled()
    ensures b' == b[0 := Bucket(0, Some(v))]
  {
    SlotZero(0, |b|);
    var j: nat :| StoredAt(b, b', 0, v, j);
  }

  /** A key that is the number of buckets looks there first as well, and then at bucket `d`. */
  lemma ProbesOfSize(n: nat, d: nat)
    requires n > 0 && d == Step(n, n) < n
    ensures Slot(n, n, 0) == 0 && Slot(n, n, 1) == d
  {
    DivModOf(n, n, 1, 0);
    SlotZero(n, n);
    assert 1 * d == d;
    DivModOf(d, n, 0, d);
  }

  lemma StoreSize<V>(b: seq<Bucket<V>>, b': seq<Bucket<V>>, n: nat, v: V, d: nat)
    requires |b| == n > 0 && Stored(b, b', n, v) && d == Step(n, n) < n
    requires b[0].Filled() && b[0].key != n && !b[d].Filled()
    ensures b' == b[d := Bucket(n, Some(v))]
  {
    ProbesOfSize(n, d);
    var j: nat :| StoredAt(b, b', n, v, j);
  }

  lemma Take0<V>(b: seq<Bucket<V>>, u: V, v: V, b': seq<Bucket<V>>)
    requires b == Fresh(16)[0 := Bucket(0, Some(u))][3 := Bucket(16, Some(v))] && Taken(b, b', 0)
    ensures b' == BehindVacated(v)
  {
    var i: nat :| i < |b| && b[i].Filled() && b[i].key == 0 && b' == b[i := Bucket(-1, None)];
    assert i == 0;
  }

  /** These calls leave a table with a key behind a vacated bucket. */
  method VacateBefore<V>(u: V, v: V) returns (ht: HashTable<V>)
    ensures ht.Valid() && ht.buckets != null && ht.Buckets() == BehindVacated(v) && ht.M == map[16 := v]
    ensures fresh(ht) && fresh(ht.buckets)
  {
    ht := new HashTable<V>();
    ht.Set(0, u);
    ghost var b := ht.buckets[..];
    StoreZero(Fresh(16), b, u);
    ht.Set(16, v);
    ghost var b' := ht.buckets[..];
    StepOf16();
    StoreSize(b, b', 16, v, 3);
    ht.Remove(0, false);
    Take0(b', u, v, ht.Buckets());
    OneLeft(map[], u, v);
  }

  lemma StepOf16()
    ensures Step(16, 16) == 3
  {
  }

  lemma OneLeft<V>(m: map<int, V>, u: V, v: V)
    requires m == map[]
    ensures m[0 := u][16 := v] - {0} == map[16 := v]
  {
  }

  /** Removing 0 a second time then makes the table pass for empty, although it still has the key 16. */
  method PassesForEmpty<V>(u: V, v: V) returns (ht: HashTable<V>, found: bool)
    ensures found && ht.count == 0
    ensures ht.M == map[16 := v] && Represents(ht.Buckets(), ht.M)
  {
    ht := VacateBefore(u, v);
    assert ht.Buckets()[1].Unused() && ht.HasUnused();
    found := ht.RemoveFirst(0);
    assert ht.M == map[16 := v];
  }

  lemma BehindVacatedRepresents<V>(v: V)
    ensures Represents(BehindVacated(v), map[16 := v])
  {
    var b, m := BehindVacated(v), map[16 := v];
    assert PowerOfTwo(16) by { assert PowerOfTwo(8) by { assert PowerOfTwo(4); } }
    assert Reachable(b) by {
      assert Slot(16, 16, 0) == 0 && Slot(16, 16, 1) == 3;
      assert ReachedAt(b, 3, 1);
    }
    assert SameEntries(b, m) by { assert Holds(b, 3, m); }
    assert FilledSlots(b) == {3};
  }

  /** There, setting the present key 16 stores it a second time. */
  lemma SetBehindVacatedDuplicates<V>(v: V, w: V)
    ensures Represents(BehindVacated(v), map[16 := v])
    ensures !BehindVacated(v)[Slot(16, 16, 0)].Filled()
    ensures !Distinct(BehindVacated(v)[Slot(16, 16, 0) := Bucket(16, Some(w))])
  {
    BehindVacatedRepresents(v);
    assert Slot(16, 16, 0) == 0;
    SetKeepsKeysDistinct(BehindVacated(v), map[16 := v], 16, 0, w);
  }

  /** A removal of the absent key 0 matches a bucket exactly when some bucket is
      unused; it then leaves the entries as they are, although `count` drops. */
  lemma RemoveAbsentZero<V>(b: seq<Bucket<V>>, m: map<int, V>)
    requires Represents(b, m) && 0 !in m
    ensures (exists n: nat :: n < |b| && b[Slot(0, |b|, n)].key == 0) <==> (exists i: nat :: i < |b| && b[i].Unused())
    ensures forall n: nat :: n < |b| && b[Slot(0, |b|, n)].key == 0 ==>
      Represents(b[Slot(0, |b|, n) := Bucket(-1, None)], m)
  {
    if i: nat :| i < |b| && b[i].Unused() {
      ProbeVisitsEverySlot(0, |b|, i);
    }
    forall n: nat | n < |b| && b[Slot(0, |b|, n)].key == 0
      ensures b[Slot(0, |b|, n)].Unused()
      ensures Represents(b[Slot(0, |b|, n) := Bucket(-1, None)], m)
    {
      var s := Slot(0, |b|, n);
      assert b[s].Filled() ==> Holds(b, s, m);
      VacateUnused(b, m, s, b[s := Bucket(-1, None)]);
    }
  }
}
