/** Filesystem change events over one inotify connection (`rktio_fs_change.c`). */

/** What the kernel has to deliver, and how much of it one read takes. */
module EventQueue {
  /** `sizeof(struct inotify_event)`, and the size of the buffer to begin with */
  const HEADER: nat := 16

  /** An event that waits; `name` is the room its name takes, which is none for a watched file itself. */
  datatype Queued = Queued(wd: int, name: nat) {
    function Size(): nat { HEADER + name }
  }

  datatype Fault = NoFault | Interrupted | Again | Failed | Nothing

  /** What happens between two reads: more events arrive, and the read may fail. */
  datatype Turn = Turn(arrived: seq<Queued>, fault: Fault)

  datatype Supply = Supply(queue: seq<Queued>, turns: seq<Turn>)

  /** How many events fit: `read` delivers as many as it can. */
  function Fit(queue: seq<Queued>, room: nat): (n: nat)
    ensures n <= |queue| && (queue != [] && queue[0].Size() <= room ==> n > 0)
  {
    if queue == [] || queue[0].Size() > room then 0 else 1 + Fit(queue[1..], room - queue[0].Size())
  }

  /** What the buffer is short of. */
  function Missing(queue: seq<Queued>, bsize: nat): nat {
    if queue != [] && queue[0].Size() > bsize then queue[0].Size() - bsize else 0
  }

  /** The next read's queue and fault, and the turns after it. */
  function Head(s: Supply): (seq<Queued>, Fault, seq<Turn>) {
    if s.turns == [] then (s.queue, NoFault, [])
    else (s.queue + s.turns[0].arrived, s.turns[0].fault, s.turns[1..])
  }

  /** The events of each successful read; a buffer that is too small is doubled. */
  function Batches(s: Supply, bsize: nat): (batches: seq<seq<Queued>>)
    requires bsize > 0
    ensures Filled(batches)
    decreases |s.turns|, |s.queue|, Missing(s.queue, bsize)
  {
    var (queue, fault, turns) := Head(s);
    if queue == [] then []
    else match fault
      case NoFault =>
        if queue[0].Size() > bsize then Batches(Supply(queue, turns), 2 * bsize)
        else
          var n := Fit(queue, bsize);
          [queue[..n]] + Batches(Supply(queue[n..], turns), bsize)
      case Interrupted => Batches(Supply(queue, turns), bsize)
      case _ => []
  }

  predicate Filled(batches: seq<seq<Queued>>) {
    forall i :: 0 <= i < |batches| ==> batches[i] != []
  }

  predicate ReadFails(s: Supply, bsize: nat)
    requires bsize > 0
    decreases |s.turns|, |s.queue|, Missing(s.queue, bsize)
  {
    var (queue, fault, turns) := Head(s);
    queue != [] &&
    match fault
    case NoFault =>
      if queue[0].Size() > bsize then ReadFails(Supply(queue, turns), 2 * bsize)
      else ReadFails(Supply(queue[Fit(queue, bsize)..], turns), bsize)
    case Interrupted => ReadFails(Supply(queue, turns), bsize)
    case Failed => true
    case _ => false
  }

  /** Only an error other than EAGAIN, EINTR and EINVAL makes the call fail. */
  lemma {:induction false} FailsOnFailure(s: Supply, bsize: nat)
    requires bsize > 0 && forall k :: 0 <= k < |s.turns| ==> s.turns[k].fault != Failed
    ensures !ReadFails(s, bsize)
    decreases |s.turns|, |s.queue|, Missing(s.queue, bsize)
  {
    var (queue, fault, turns) := Head(s);
    if queue != [] && fault.NoFault? && queue[0].Size() > bsize {
      FailsOnFailure(Supply(queue, turns), 2 * bsize);
    } else if queue != [] && fault.NoFault? {
      FailsOnFailure(Supply(queue[Fit(queue, bsize)..], turns), bsize);
    } else if queue != [] && fault.Interrupted? {
      FailsOnFailure(Supply(queue, turns), bsize);
    }
  }

  /** EAGAIN ends the call without a failure and without an event, EINTR changes nothing. */
  lemma FirstFault(arrived: seq<Queued>, fault: Fault, queue: seq<Queued>, turns: seq<Turn>, bsize: nat)
    requires bsize > 0 && queue + arrived != []
    ensures var s := Supply(queue, [Turn(arrived, fault)] + turns);
      && (fault == Again ==> !ReadFails(s, bsize) && Batches(s, bsize) == [])
      && (fault == Failed ==> ReadFails(s, bsize) && Batches(s, bsize) == [])
      && (fault == Interrupted ==> Batches(s, bsize) == Batches(Supply(queue + arrived, turns), bsize))
      && (fault == Interrupted ==> ReadFails(s, bsize) == ReadFails(Supply(queue + arrived, turns), bsize))
  {
    assert ([Turn(arrived, fault)] + turns)[1..] == turns;
  }

  function Firsts(batches: seq<seq<Queued>>): seq<int>
    requires Filled(batches)
  {
    if batches == [] then [] else [batches[0][0].wd] + Firsts(batches[1..])
  }

  function Wds(queue: seq<Queued>): (wds: seq<int>)
    ensures |wds| == |queue|
  {
    if queue == [] then [] else [queue[0].wd] + Wds(queue[1..])
  }

  function All(batches: seq<seq<Queued>>): seq<int> {
    if batches == [] then [] else Wds(batches[0]) + All(batches[1..])
  }

  /** The watch descriptors that `rin_pull_events` looks at: only the first of each read. */
  function Seen(s: Supply): seq<int> {
    Firsts(Batches(s, HEADER))
  }

  /** All that the kernel has handed over. */
  function HandedOver(s: Supply): seq<int> {
    All(Batches(s, HEADER))
  }

  // When nothing is lost

  predicate Singles(batches: seq<seq<Queued>>) {
    forall i :: 0 <= i < |batches| ==> |batches[i]| == 1
  }

  lemma {:induction false} LostIffMore(batches: seq<seq<Queued>>)
    requires Filled(batches)
    ensures |Firsts(batches)| <= |All(batches)|
    ensures Firsts(batches) == All(batches) <==> Singles(batches)
    ensures |Firsts(batches)| == |All(batches)| <==> Singles(batches)
  {
    if batches != [] {
      var first, rest := batches[0], batches[1..];
      LostIffMore(rest);
      assert batches == [first] + rest;
      assert Singles(batches) <==> |first| == 1 && Singles(rest);
      if |first| == 1 {
        assert first[1..] == [];
        assert Wds(first) == [first[0].wd];
        assert Firsts(batches)[1..] == Firsts(rest) && All(batches)[1..] == All(rest);
      }
    }
  }

  /** No read finds that the event after the first fits what is left of the buffer. */
  predicate NoRoomLeft(s: Supply, bsize: nat)
    requires bsize > 0
    decreases |s.turns|, |s.queue|, Missing(s.queue, bsize)
  {
    var (queue, fault, turns) := Head(s);
    queue == [] ||
    match fault
    case NoFault =>
      if queue[0].Size() > bsize then NoRoomLeft(Supply(queue, turns), 2 * bsize)
      else NextTooBig(queue, bsize) && NoRoomLeft(Supply(queue[1..], turns), bsize)
    case Interrupted => NoRoomLeft(Supply(queue, turns), bsize)
    case _ => true
  }

  predicate NextTooBig(queue: seq<Queued>, bsize: nat)
    requires queue != []
  {
    |queue| == 1 || queue[0].Size() + queue[1].Size() > bsize
  }

  lemma FitsOne(queue: seq<Queued>, bsize: nat)
    requires queue != [] && queue[0].Size() <= bsize
    ensures Fit(queue, bsize) == 1 <==> NextTooBig(queue, bsize)
  {
  }

  lemma {:induction false} SinglesIff(s: Supply, bsize: nat)
    requires bsize > 0
    ensures Singles(Batches(s, bsize)) <==> NoRoomLeft(s, bsize)
    decreases |s.turns|, |s.queue|, Missing(s.queue, bsize)
  {
    var (queue, fault, turns) := Head(s);
    if queue != [] && fault.NoFault? && queue[0].Size() > bsize {
      SinglesIff(Supply(queue, turns), 2 * bsize);
    } else if queue != [] && fault.NoFault? {
      var n := Fit(queue, bsize);
      FitsOne(queue, bsize);
      SinglesIff(Supply(queue[n..], turns), bsize);
      FirstSingle(queue[..n], Batches(Supply(queue[n..], turns), bsize));
    } else if queue != [] && fault.Interrupted? {
      SinglesIff(Supply(queue, turns), bsize);
    }
  }

  lemma FirstSingle(first: seq<Queued>, rest: seq<seq<Queued>>)
    ensures Singles([first] + rest) <==> |first| == 1 && Singles(rest)
  {
    var batches := [first] + rest;
    assert batches[0] == first && batches[1..] == rest;
    if Singles(batches) {
      forall i | 0 <= i < |rest|
        ensures |rest[i]| == 1
      {
        assert batches[i + 1] == rest[i];
      }
    }
  }

  /** An event is lost exactly when some read has room for one more than it looks at. */
  lemma NothingLostIff(s: Supply)
    ensures Seen(s) == HandedOver(s) <==> NoRoomLeft(s, HEADER)
  {
    LostIffMore(Batches(s, HEADER));
    SinglesIff(s, HEADER);
  }

  /** All events that ever wait take the same room. */
  predicate SameSize(s: Supply, size: nat) {
    && (forall i :: 0 <= i < |s.queue| ==> s.queue[i].Size() == size)
    && forall k, i :: 0 <= k < |s.turns| && 0 <= i < |s.turns[k].arrived| ==> s.turns[k].arrived[i].Size() == size
  }

  lemma {:induction false} SameSizeNoRoom(s: Supply, bsize: nat, size: nat)
    requires SameSize(s, size) && 0 < bsize < 2 * size
    ensures NoRoomLeft(s, bsize)
    decreases |s.turns|, |s.queue|, Missing(s.queue, bsize)
  {
    var (queue, fault, turns) := Head(s);
    if s.turns != [] {
      assert SameSize(Supply(queue, turns), size);
    }
    if queue != [] && fault.NoFault? && queue[0].Size() > bsize {
      SameSizeNoRoom(Supply(queue, turns), 2 * bsize, size);
    } else if queue != [] && fault.NoFault? {
      SameSizeNoRoom(Supply(queue[1..], turns), bsize, size);
    } else if queue != [] && fault.Interrupted? {
      SameSizeNoRoom(Supply(queue, turns), bsize, size);
    }
  }

  /** So nothing is lost between watches of files, whose events carry no names. */
  lemma SameSizeNeverLost(s: Supply, size: nat)
    requires SameSize(s, size) && size >= HEADER
    ensures Seen(s) == HandedOver(s)
  {
    SameSizeNoRoom(s, HEADER, size);
    NothingLostIff(s);
  }

  // A queue that is complete from the start

  /** The buffer after doublings that make room for `size`. */
  function Grown(bsize: nat, size: nat): (b: nat)
    requires bsize > 0
    ensures size <= b && bsize <= b && (b == bsize || b < 2 * size)
    decreases if size > bsize then size - bsize else 0
  {
    if size <= bsize then bsize else Grown(2 * bsize, size)
  }

  function Largest(queue: seq<Queued>): nat {
    if queue == [] then 0
    else
      var rest := Largest(queue[1..]);
      if queue[0].Size() >= rest then queue[0].Size() else rest
  }

  lemma {:induction false} GrownTwice(bsize: nat, size: nat, more: nat)
    requires bsize > 0
    ensures Grown(Grown(bsize, size), more) == Grown(bsize, if size >= more then size else more)
    decreases if size > bsize then size - bsize else 0
  {
    if size > bsize {
      GrownTwice(2 * bsize, size, more);
    }
  }

  /** At no place do two neighbours fit a buffer grown for the events up to the first of them. */
  predicate Apart(queue: seq<Queued>, bsize: nat)
    requires bsize > 0
  {
    forall k :: 0 <= k < |queue| - 1 ==> ApartAt(queue, bsize, k)
  }

  predicate ApartAt(queue: seq<Queued>, bsize: nat, k: nat)
    requires bsize > 0 && k < |queue| - 1
  {
    queue[k].Size() + queue[k + 1].Size() > Grown(bsize, Largest(queue[..k + 1]))
  }

  lemma ApartNext(queue: seq<Queued>, bsize: nat, k: nat)
    requires 0 < k < |queue| - 1 && bsize > 0
    ensures ApartAt(queue, bsize, k) <==> ApartAt(queue[1..], Grown(bsize, queue[0].Size()), k - 1)
  {
    var rest := queue[1..];
    assert queue[..k + 1][1..] == rest[..k];
    GrownTwice(bsize, queue[0].Size(), Largest(rest[..k]));
  }

  lemma ApartFirst(queue: seq<Queued>, bsize: nat)
    requires queue != [] && bsize > 0
    ensures var grown := Grown(bsize, queue[0].Size());
      Apart(queue, bsize) <==> NextTooBig(queue, grown) && Apart(queue[1..], grown)
  {
    var grown, rest := Grown(bsize, queue[0].Size()), queue[1..];
    assert queue[..1][1..] == [];
    assert Largest(queue[..1]) == queue[0].Size();
    assert |queue| > 1 ==> (ApartAt(queue, bsize, 0) <==> NextTooBig(queue, grown));
    forall k | 0 < k < |queue| - 1
      ensures ApartAt(queue, bsize, k) <==> ApartAt(rest, grown, k - 1)
    {
      ApartNext(queue, bsize, k);
    }
    if Apart(queue, bsize) {
      forall k | 0 <= k < |rest| - 1
        ensures ApartAt(rest, grown, k)
      {
        assert ApartAt(queue, bsize, k + 1);
      }
    }
  }

  lemma {:induction false} NoRoomIffApart(queue: seq<Queued>, bsize: nat)
    requires bsize > 0
    ensures NoRoomLeft(Supply(queue, []), bsize) <==> Apart(queue, bsize)
    decreases |queue|, Missing(queue, bsize)
  {
    if queue != [] {
      ApartFirst(queue, bsize);
      if queue[0].Size() > bsize {
        NoRoomIffApart(queue, 2 * bsize);
        ApartFirst(queue, 2 * bsize);
      } else {
        NoRoomIffApart(queue[1..], bsize);
      }
    }
  }

  /** So for such a queue the sizes alone decide. */
  lemma QueueLostIff(queue: seq<Queued>)
    ensures Seen(Supply(queue, [])) == HandedOver(Supply(queue, [])) <==> Apart(queue, HEADER)
  {
    NothingLostIff(Supply(queue, []));
    NoRoomIffApart(queue, HEADER);
  }

  /** A named event makes the buffer grow to 64, and then a nameless one comes along unseen. */
  lemma NamelessIsLost(a: int, b: int)
    ensures var s := Supply([Queued(a, 32), Queued(b, 0)], []);
      Seen(s) == [a] && HandedOver(s) == [a, b]
  {
    var queue := [Queued(a, 32), Queued(b, 0)];
    assert Fit(queue[1..], 16) == 1 + Fit(queue[1..][1..], 0);
    assert Fit(queue, 64) == 2;
    assert queue[..2] == queue && queue[2..] == [] && queue[1..] == [Queued(b, 0)];
    var none: seq<Queued> := [];
    assert Batches(Supply(none, []), 64) == [];
    assert Batches(Supply(queue, []), 64) == [queue];
    assert Batches(Supply(queue, []), HEADER) == Batches(Supply(queue, []), 32) == [queue];
    assert |queue[1..][1..]| == 0;
    assert Wds(queue) == [a] + Wds(queue[1..]) == [a, b];
    var batches: seq<seq<Queued>> := [queue];
    assert batches[1..] == [];
    assert Firsts(batches) == [a] && All(batches) == [a, b];
  }
}

/** The table of watch descriptors. */
module WatchSlots {
  import opened EventQueue

  /** `rin_wd_t`: `wd` is -1 when the slot is free, and when its event has fired. */
  datatype Slot = Slot(wd: int, refcount: nat, val: bool)

  function Fired(slot: Slot): Slot {
    slot.(wd := -1, val := true)
  }

  /** Slots in use have either a watch descriptor of their own or an event, and never both. */
  ghost predicate Tidy(s: seq<Slot>) {
    && (forall i :: 0 <= i < |s| ==> if s[i].refcount == 0 then s[i].wd == -1 else (s[i].wd == -1 <==> s[i].val))
    && Distinct(s)
  }

  ghost predicate Distinct(s: seq<Slot>) {
    forall i, j :: 0 <= i < j < |s| && s[i].wd == s[j].wd ==> s[i].wd == -1
  }

  /** The number of slots in use. */
  function Used(s: seq<Slot>): nat {
    if s == [] then 0 else Used(s[..|s| - 1]) + if s[|s| - 1].refcount > 0 then 1 else 0
  }

  lemma {:induction false} UsedAfter(s: seq<Slot>, i: nat, slot: Slot)
    requires i < |s|
    ensures Used(s[i := slot]) ==
      Used(s) - (if s[i].refcount > 0 then 1 else 0) + if slot.refcount > 0 then 1 else 0
  {
    var before := s[..|s| - 1];
    if i == |s| - 1 {
      assert s[i := slot][..|s| - 1] == before;
    } else {
      assert s[i := slot][..|s| - 1] == before[i := slot];
      UsedAfter(before, i, slot);
    }
  }

  lemma {:induction false} AllInUse(s: seq<Slot>)
    requires forall i :: 0 <= i < |s| ==> s[i].refcount > 0
    ensures Used(s) == |s|
  {
    if s != [] {
      AllInUse(s[..|s| - 1]);
    }
  }

  lemma {:induction false} SameUse(s: seq<Slot>, s': seq<Slot>)
    requires |s| == |s'| && forall i :: 0 <= i < |s| ==> s[i].refcount == s'[i].refcount
    ensures Used(s) == Used(s')
  {
    if s != [] {
      SameUse(s[..|s| - 1], s'[..|s| - 1]);
    }
  }

  lemma {:induction false} FreeAdded(s: seq<Slot>, more: seq<Slot>)
    requires forall i :: 0 <= i < |more| ==> more[i].refcount == 0
    ensures Used(s + more) == Used(s)
  {
    if more == [] {
      assert s + more == s;
    } else {
      assert (s + more)[..|s + more| - 1] == s + more[..|more| - 1];
      FreeAdded(s, more[..|more| - 1]);
    }
  }

  /** `rin_find_wd` */
  method FindWd(wd: int, wds: array<Slot>) returns (p: int)
    ensures p == -1 ==> forall i :: 0 <= i < wds.Length ==> wds[i].wd != wd
    ensures p != -1 ==> 0 <= p < wds.Length && wds[p].wd == wd
  {
    var i := 0;
    while i < wds.Length
      invariant 0 <= i <= wds.Length && forall k :: 0 <= k < i ==> wds[k].wd != wd
    {
      if wds[i].wd == wd {
        return i;
      }
      i := i + 1;
    }
    return -1;
  }

  /** `rin_add_wd`, which finds a slot when one is free. */
  method AddWd(wd: int, wds: array<Slot>) returns (p: nat)
    requires Tidy(wds[..]) && wd != -1 && Used(wds[..]) < wds.Length
    modifies wds
    ensures p < wds.Length && old(wds[p].wd == wd || wds[p].refcount == 0)
    ensures wds[..] == old(wds[..])[p := Slot(wd, old(wds[p].refcount) + 1, false)]
    ensures Tidy(wds[..]) && Used(wds[..]) == old(Used(wds[..])) + if wds[p].refcount == 1 then 1 else 0
  {
    p := 0;
    var i := 0;
    while i < wds.Length
      invariant 0 <= i <= wds.Length && forall k :: 0 <= k < i ==> wds[k].wd != wd
    {
      if wds[i].wd == wd {
        UsedAfter(wds[..], i, Slot(wd, wds[i].refcount + 1, false));
        wds[i] := wds[i].(refcount := wds[i].refcount + 1);
        return i;
      }
      i := i + 1;
    }
    i := 0;
    while i < wds.Length
      invariant 0 <= i <= wds.Length && forall k :: 0 <= k < i ==> wds[k].refcount > 0
    {
      if wds[i].refcount == 0 {
        UsedAfter(wds[..], i, Slot(wd, 1, false));
        wds[i] := Slot(wd, 1, false);
        return i;
      }
      i := i + 1;
    }
    AllInUse(wds[..]);
    assert false;
  }

  /** What events with these descriptors do to the slots. */
  ghost predicate Advanced(s: seq<Slot>, s': seq<Slot>, seen: seq<int>) {
    && |s| == |s'|
    && forall i :: 0 <= i < |s| ==> AdvancedSlot(s[i], s'[i], seen)
  }

  ghost predicate AdvancedSlot(a: Slot, b: Slot, seen: seq<int>) {
    && b.refcount == a.refcount
    && (a.wd != -1 ==> b == if a.wd in seen then Fired(a) else a)
    && (a.wd == -1 ==> b.wd == -1 && (a.val ==> b.val))
  }

  lemma StillTidy(s: seq<Slot>, s': seq<Slot>, seen: seq<int>)
    requires Tidy(s) && Advanced(s, s', seen)
    ensures forall i :: 0 <= i < |s| && (s[i].wd != -1 || s[i].val) ==>
              s'[i] == if s[i].wd in seen then Fired(s[i]) else s[i]
    ensures forall i :: 0 <= i < |s| && s[i].refcount > 0 ==> (s'[i].wd == -1 <==> s'[i].val)
    ensures Distinct(s') && Used(s') == Used(s)
  {
    SameUse(s, s');
    forall i | 0 <= i < |s|
      ensures s'[i].wd == -1 || s'[i].wd == s[i].wd
    {
      assert AdvancedSlot(s[i], s'[i], seen);
    }
    forall i | 0 <= i < |s| && (s[i].wd != -1 || s[i].val)
      ensures s'[i] == if s[i].wd in seen then Fired(s[i]) else s[i]
    {
      assert AdvancedSlot(s[i], s'[i], seen);
    }
  }

  lemma AdvancedMore(s: seq<Slot>, s': seq<Slot>, s'': seq<Slot>, seen: seq<int>, wd: int)
    requires Distinct(s) && Advanced(s, s', seen) && Advanced(s', s'', [wd])
    ensures Advanced(s, s'', seen + [wd])
  {
    forall i | 0 <= i < |s|
      ensures AdvancedSlot(s[i], s''[i], seen + [wd])
    {
      assert AdvancedSlot(s[i], s'[i], seen) && AdvancedSlot(s'[i], s''[i], [wd]);
    }
  }

  lemma AdvancedDistinct(s: seq<Slot>, s': seq<Slot>, seen: seq<int>)
    requires Distinct(s) && Advanced(s, s', seen)
    ensures Distinct(s')
  {
    forall i | 0 <= i < |s|
      ensures s'[i].wd == -1 || s'[i].wd == s[i].wd
    {
      assert AdvancedSlot(s[i], s'[i], seen);
    }
  }

  /** One event: the slot of its watch descriptor fires. */
  method Fire(wd: int, wds: array<Slot>) returns (hit: bool)
    requires Distinct(wds[..])
    modifies wds
    ensures Advanced(old(wds[..]), wds[..], [wd]) && (!hit ==> wds[..] == old(wds[..]))
    ensures hit <==> exists i :: 0 <= i < wds.Length && old(wds[i].wd) == wd
  {
    var p := FindWd(wd, wds);
    hit := p != -1;
    if hit {
      wds[p] := Fired(wds[p]);
    }
  }

  /** `rin_pull_events`; the result is -1, 0 or 1. */
  method PullEvents(wds: array<Slot>, supply: Supply) returns (got: int)
    requires Distinct(wds[..])
    modifies wds
    ensures Advanced(old(wds[..]), wds[..], Seen(supply))
    ensures got == -1 <==> ReadFails(supply, HEADER)
    ensures got == 0 || got == 1 || got == -1
    ensures got == 0 ==> wds[..] == old(wds[..])
  {
    got := 0;
    var bsize, queue, turns, more := HEADER, supply.queue, supply.turns, true;
    ghost var seen: seq<int> := [];
    while more
      invariant bsize > 0 && got in {-1, 0, 1} && (got == -1 ==> !more)
      invariant seen + (if more then Firsts(Batches(Supply(queue, turns), bsize)) else []) == Seen(supply)
      invariant (if more then ReadFails(Supply(queue, turns), bsize) else got == -1) == ReadFails(supply, HEADER)
      invariant Advanced(old(wds[..]), wds[..], seen)
      invariant got == 0 ==> wds[..] == old(wds[..])
      decreases more, |turns|, |queue|, Missing(queue, bsize)
    {
      ghost var s := Supply(queue, turns);
      var fault := NoFault;
      if turns != [] {
        queue, fault, turns := queue + turns[0].arrived, turns[0].fault, turns[1..];
      }
      assert (queue, fault, turns) == Head(s);
      if queue == [] {
        more := false; // `poll` finds nothing
      } else if fault.NoFault? && queue[0].Size() > bsize {
        bsize := 2 * bsize; // EINVAL
      } else if fault.NoFault? {
        var wd := queue[0].wd;
        ghost var before := wds[..];
        AdvancedDistinct(old(wds[..]), before, seen);
        var hit := Fire(wd, wds);
        AdvancedMore(old(wds[..]), before, wds[..], seen, wd);
        got := if hit then 1 else got;
        SeenOne(s, queue, turns, bsize, seen);
        queue := queue[Fit(queue, bsize)..];
        seen := seen + [wd];
      } else if fault.Failed? {
        got, more := -1, false;
      } else if !fault.Interrupted? {
        more := false;
      }
    }
  }

  /** The slot whose event came along unseen does not fire, now or at a later pull. */
  lemma LostForGood(s: seq<Slot>, s': seq<Slot>, i: nat, a: int, later: seq<Slot>, turns: seq<Turn>)
    requires i < |s| && s[i].wd != -1 && s[i].wd != a
    requires Advanced(s, s', Seen(Supply([Queued(a, 32), Queued(s[i].wd, 0)], [])))
    requires s[i].wd !in Seen(Supply([], turns)) && Advanced(s', later, Seen(Supply([], turns)))
    ensures s[i].wd in HandedOver(Supply([Queued(a, 32), Queued(s[i].wd, 0)], []))
    ensures later[i] == s'[i] == s[i]
  {
    NamelessIsLost(a, s[i].wd);
    assert AdvancedSlot(s[i], s'[i], [a]);
    assert AdvancedSlot(s'[i], later[i], Seen(Supply([], turns)));
  }

  lemma SeenOne(s: Supply, queue: seq<Queued>, turns: seq<Turn>, bsize: nat, seen: seq<int>)
    requires bsize > 0 && Head(s) == (queue, NoFault, turns) && queue != [] && queue[0].Size() <= bsize
    ensures var after := Supply(queue[Fit(queue, bsize)..], turns);
      seen + Firsts(Batches(s, bsize)) == seen + [queue[0].wd] + Firsts(Batches(after, bsize))
  {
    var n := Fit(queue, bsize);
    var rest := Batches(Supply(queue[n..], turns), bsize);
    assert Batches(s, bsize) == [queue[..n]] + rest;
    assert ([queue[..n]] + rest)[1..] == rest;
  }
}

module ChangeTrackers {
  import opened EventQueue
  import opened WatchSlots

  /** `rktio_fs_change_t`: its `fd` field is one more than `slot`. */
  class Tracker {
    const slot: nat
    var done: bool

    constructor (slot: nat)
      ensures this.slot == slot && !done
    {
      this.slot, done := slot, false;
    }
  }

  /** The trackers among these that share slot `i`. */
  ghost function Holders(open: set<Tracker>, i: nat): set<Tracker> {
    set t | t in open && t.slot == i
  }

  lemma HoldersAdd(open: set<Tracker>, t: Tracker, i: nat)
    requires t !in open
    ensures |Holders(open + {t}, i)| == |Holders(open, i)| + if t.slot == i then 1 else 0
  {
    if t.slot == i {
      assert Holders(open + {t}, i) == Holders(open, i) + {t};
    } else {
      assert Holders(open + {t}, i) == Holders(open, i);
    }
  }

  /** Each reference count is the number of trackers on its slot. */
  ghost predicate Counted(s: seq<Slot>, open: set<Tracker>) {
    && (forall t <- open :: t.slot < |s|)
    && forall i :: 0 <= i < |s| ==> s[i].refcount == |Holders(open, i)|
  }

  lemma CountedAdd(s: seq<Slot>, open: set<Tracker>, t: Tracker, slot: Slot)
    requires Counted(s, open) && t !in open && t.slot < |s| && slot.refcount == s[t.slot].refcount + 1
    ensures Counted(s[t.slot := slot], open + {t})
  {
    forall i | 0 <= i < |s|
      ensures s[t.slot := slot][i].refcount == |Holders(open + {t}, i)|
    {
      HoldersAdd(open, t, i);
    }
  }

  lemma CountedRemove(s: seq<Slot>, s': seq<Slot>, open: set<Tracker>, t: Tracker)
    requires Counted(s, open) && t in open && |s'| == |s|
    requires forall i :: 0 <= i < |s| ==> s'[i].refcount == s[i].refcount - if i == t.slot then 1 else 0
    ensures Counted(s', open - {t})
  {
    var rest := open - {t};
    assert open == rest + {t};
    forall i | 0 <= i < |s|
      ensures s'[i].refcount == |Holders(rest, i)|
    {
      HoldersAdd(rest, t, i);
    }
  }

  /** Only the counts matter. */
  lemma CountedSame(s: seq<Slot>, s': seq<Slot>, open: set<Tracker>)
    requires Counted(s, open) && |s'| == |s| && forall i :: 0 <= i < |s| ==> s'[i].refcount == s[i].refcount
    ensures Counted(s', open)
  {
  }

  lemma CountedPositive(s: seq<Slot>, open: set<Tracker>, t: Tracker)
    requires Counted(s, open) && t in open
    ensures s[t.slot].refcount > 0
  {
    assert t in Holders(open, t.slot);
  }

  function TotalRefs(s: seq<Slot>): nat {
    if s == [] then 0 else TotalRefs(s[..|s| - 1]) + s[|s| - 1].refcount
  }

  /** So the reference counts add up to the number of trackers. */
  lemma {:induction false} RefsAreTrackers(s: seq<Slot>, open: set<Tracker>)
    requires Counted(s, open)
    ensures TotalRefs(s) == |open|
  {
    if s == [] {
      assert open == {};
    } else {
      var n := |s| - 1;
      var last := Holders(open, n);
      var rest := open - last;
      forall i | 0 <= i < n
        ensures Holders(rest, i) == Holders(open, i)
      {
      }
      RefsAreTrackers(s[..n], rest);
      assert open == rest + last;
    }
  }

  lemma GrownStaysGood(s: seq<Slot>, more: seq<Slot>, open: set<Tracker>)
    requires Tidy(s) && Counted(s, open)
    requires forall i :: 0 <= i < |more| ==> more[i].wd == -1 && more[i].refcount == 0
    ensures Tidy(s + more) && Counted(s + more, open) && Used(s + more) == Used(s) <= |s|
  {
    FreeAdded(s, more);
    UsedFits(s);
    forall i | |s| <= i < |s + more|
      ensures (s + more)[i].refcount == |Holders(open, i)|
    {
      assert Holders(open, i) == {};
    }
  }

  class Inotify {
    /** `wds`, of which the length is `size` */
    var wds: array<Slot>
    var count: nat
    var got: bool

    /** The trackers that have not been released. */
    ghost var open: set<Tracker>

    ghost predicate Valid()
      reads this, wds, open
    {
      && Tidy(wds[..]) && Counted(wds[..], open)
      && count == Used(wds[..])
      && forall t <- open :: !t.done
    }

    constructor ()
      ensures Valid() && open == {} && fresh(wds) && wds.Length == 0
    {
      wds := new Slot[0];
      count, got := 0, false;
      open := {};
    }

    /** The event of this tracker has arrived. */
    ghost predicate Arrived(t: Tracker)
      requires t.slot < wds.Length
      reads this, wds
    {
      wds[t.slot].val
    }

    /** A full table grows, and the indices that trackers hold stay good. */
    method Grow()
      requires Valid()
      modifies this`wds
      ensures Valid() && count < wds.Length && fresh(wds)
      ensures old(wds.Length) <= wds.Length && wds[..old(wds.Length)] == old(wds[..])
    {
      var size := wds.Length;
      ghost var s := wds[..];
      var bigger := new Slot[if size > 0 then 2 * size else 32];
      forall i | 0 <= i < size {
        bigger[i] := wds[i];
      }
      forall i | size <= i < bigger.Length {
        bigger[i] := bigger[i].(wd := -1, refcount := 0);
      }
      ghost var more := bigger[size..];
      GrownStaysGood(s, more, open);
      wds := bigger;
      assert wds[..] == s + more;
      assert wds[..size] == s;
    }

    /** A tracker on the slot for `wd`. */
    method AddTracker(wd: int) returns (t: Tracker)
      requires Valid() && wd != -1 && count < wds.Length
      modifies this`count, this`open, wds
      ensures Valid() && fresh(t) && open == old(open) + {t}
      ensures wds[t.slot].wd == wd && !Arrived(t)
      ensures forall i :: 0 <= i < wds.Length && t.slot != i ==> wds[i] == old(wds[i])
    {
      ghost var before := wds[..];
      var p := AddWd(wd, wds);
      if wds[p].refcount == 1 {
        count := count + 1;
      }
      t := new Tracker(p);
      CountedAdd(before, open, t, wds[p]);
      open := open + {t};
    }

    /** `do_inotify_add` for what `inotify_add_watch` returned, and the tracker that `rktio_fs_change` makes. */
    method Add(wd: int) returns (t: Tracker?)
      requires Valid()
      modifies this, wds
      ensures Valid() && old(wds.Length) <= wds.Length && (fresh(wds) || wds == old(wds))
      ensures t == null <==> wd == -1
      ensures t == null ==> open == old(open)
      ensures t != null ==> fresh(t) && open == old(open) + {t} && wds[t.slot].wd == wd && !Arrived(t)
      ensures forall i :: 0 <= i < old(wds.Length) && (t == null || t.slot != i) ==> wds[i] == old(wds[i])
    {
      UsedFits(wds[..]);
      if count == wds.Length {
        Grow();
      }
      if wd == -1 {
        t := null;
      } else {
        t := AddTracker(wd);
      }
    }

    /** Events are pulled, and `got` tells other trackers that something has come. */
    method Pull(supply: Supply) returns (r: int)
      requires Distinct(wds[..])
      modifies this`got, wds
      ensures Advanced(old(wds[..]), wds[..], Seen(supply))
      ensures r == -1 || r == 0 || r == 1
      ensures r == -1 <==> ReadFails(supply, HEADER)
      ensures got == (old(got) || r == 1) && (r == 0 ==> wds[..] == old(wds[..]))
    {
      r := PullEvents(wds, supply);
      if r > 0 {
        got := true;
      }
    }

    /** The slot loses its last tracker; events are pulled in case its watch descriptor gets reused. */
    method Vacate(p: nat, supply: Supply)
      requires Tidy(wds[..]) && p < wds.Length && wds[p].refcount == 1 && count == Used(wds[..])
      modifies this`got, this`count, wds
      ensures Tidy(wds[..]) && count == Used(wds[..]) && wds[p].refcount == 0
      ensures var seen := if old(wds[p].wd) == -1 then [] else Seen(supply);
        forall i :: 0 <= i < wds.Length && i != p ==> AdvancedSlot(old(wds[i]), wds[i], seen)
      ensures old(got) ==> got
      ensures got || ReadFails(supply, HEADER) || forall i :: 0 <= i < wds.Length && i != p ==> wds[i] == old(wds[i])
    {
      ghost var before, seen: seq<int> := wds[..], [];
      if wds[p].wd != -1 {
        wds[p] := wds[p].(wd := -1);
        seen := Seen(supply);
        var r := Pull(supply);
      }
      VacatedTidy(before, wds[..], p, seen);
      count := count - 1;
      wds[p] := wds[p].(refcount := wds[p].refcount - 1);
    }

    /** `do_inotify_remove` */
    method Remove(p: nat, supply: Supply)
      requires Tidy(wds[..]) && p < wds.Length && wds[p].refcount > 0 && count == Used(wds[..])
      modifies this`got, this`count, wds
      ensures Tidy(wds[..]) && count == Used(wds[..]) && wds[p].refcount == old(wds[p].refcount) - 1
      ensures old(wds[p].refcount) > 1 ==> wds[..] == old(wds[..])[p := wds[p]] && wds[p].val == old(wds[p].val)
      ensures exists seen :: (seen == [] || seen == Seen(supply)) && OthersAdvanced(old(wds[..]), wds[..], p, seen)
      ensures old(got) ==> got
      ensures got || ReadFails(supply, HEADER) || forall i :: 0 <= i < wds.Length && i != p ==> wds[i] == old(wds[i])
    {
      if wds[p].refcount == 1 {
        ghost var before, seen := wds[..], if wds[p].wd == -1 then [] else Seen(supply);
        Vacate(p, supply);
        assert OthersAdvanced(before, wds[..], p, seen);
      } else {
        ghost var before := wds[..];
        UsedAfter(before, p, before[p].(refcount := before[p].refcount - 1));
        wds[p] := wds[p].(refcount := wds[p].refcount - 1);
        assert OthersAdvanced(before, wds[..], p, []);
      }
    }

    /** `fs_change_release`: the tracker is done, and no other one is affected but by events. */
    method Release(t: Tracker, supply: Supply)
      requires Valid() && (t in open || t.done)
      modifies this`got, this`count, this`open, wds, t
      ensures Valid() && t.done && open == old(open) - {t}
      ensures old(got) ==> got
      ensures forall u <- open :: StaysOrArrives(old(wds[u.slot]), wds[u.slot], Seen(supply))
      ensures got || ReadFails(supply, HEADER) || forall u <- open :: Arrived(u) == old(Arrived(u))
    {
      if t.done {
        return;
      }
      CountedPositive(wds[..], open, t);
      ghost var before := wds[..];
      Remove(t.slot, supply);
      ghost var seen :| (seen == [] || seen == Seen(supply)) && OthersAdvanced(before, wds[..], t.slot, seen);
      RefsAfterRemove(before, wds[..], t.slot, seen);
      CountedRemove(before, wds[..], open, t);
      t.done := true;
      open := open - {t};
      forall u <- open
        ensures StaysOrArrives(before[u.slot], wds[u.slot], Seen(supply))
      {
        CountedPositive(wds[..], open, u);
        assert u.slot != t.slot ==> AdvancedSlot(before[u.slot], wds[u.slot], seen);
      }
    }

    /** Pending events are pulled, which may fire slots but releases no tracker. */
    method PullAll(supply: Supply) returns (r: int)
      requires Valid()
      modifies this`got, wds
      ensures Valid() && (r == -1 <==> ReadFails(supply, HEADER)) && -1 <= r <= 1
      ensures forall u <- open :: Arrived(u) <==> old(Arrived(u) || wds[u.slot].wd in Seen(supply))
      ensures forall u <- open :: wds[u.slot].wd != -1 ==> wds[u.slot].wd == old(wds[u.slot].wd)
      ensures old(got) ==> got
      ensures got || ReadFails(supply, HEADER) || forall u <- open :: Arrived(u) == old(Arrived(u))
    {
      ghost var before := wds[..];
      r := Pull(supply);
      StillTidy(before, wds[..], Seen(supply));
      forall i | 0 <= i < wds.Length
        ensures wds[i].refcount == before[i].refcount && (before[i].refcount == 0 ==> wds[i].wd == -1)
      {
        assert AdvancedSlot(before[i], wds[i], Seen(supply));
      }
      CountedSame(before, wds[..], open);
      forall u <- open
        ensures before[u.slot].refcount > 0
      {
        CountedPositive(before, open, u);
      }
    }

    /**
     * `rktio_poll_fs_change_ready`: a tracker becomes ready exactly when the event of its slot has
     * been pulled, now or earlier, by a poll for this or for any other tracker.
     */
    method Poll(t: Tracker, pulled: Supply, released: Supply) returns (r: PollResult)
      requires Valid() && (t in open || t.done)
      modifies this`got, this`count, this`open, wds, t
      ensures Valid() && open == (if t.done then old(open) - {t} else old(open))
      ensures r == PollError <==> !old(t.done) && ReadFails(pulled, HEADER)
      ensures r != PollError ==> (r == Ready <==> t.done)
      ensures r != PollError && !old(t.done) ==>
                (t.done <==> old(wds[t.slot].val || wds[t.slot].wd in Seen(pulled)))
      ensures forall u <- open :: Arrived(u) ==> old(Arrived(u) || wds[u.slot].wd in Seen(pulled) + Seen(released))
      ensures old(t.done) || forall u <- open :: old(Arrived(u) || wds[u.slot].wd in Seen(pulled)) ==> Arrived(u)
      ensures old(got) ==> got
      ensures got || ReadFails(pulled, HEADER) || ReadFails(released, HEADER) || forall u <- open :: Arrived(u) == old(Arrived(u))
    {
      r := NotReady;
      if !t.done {
        var p := PullAll(pulled);
        if p < 0 {
          return PollError;
        }
        if wds[t.slot].val {
          Release(t, released);
        }
      }
      if t.done {
        r := Ready;
      }
    }

    /** `do_inotify_fd`: whether to poll again at once, because events came for trackers that were not asked about. */
    method PollAgain() returns (again: bool)
      modifies this`got
      ensures again == old(got) && !got
    {
      again := got;
      if again {
        got := false;
      }
    }
  }

  datatype PollResult = Ready | NotReady | PollError

  /** The table accounts for every tracker that has not been released. */
  lemma TableAccounts(s: Inotify)
    requires s.Valid()
    ensures TotalRefs(s.wds[..]) == |s.open| && s.count == Used(s.wds[..])
    ensures forall t <- s.open :: s.wds[t.slot].refcount > 0 && (s.wds[t.slot].wd == -1 <==> s.Arrived(t))
    ensures forall t, u :: t in s.open && u in s.open && s.wds[t.slot].wd == s.wds[u.slot].wd != -1 ==> t.slot == u.slot
  {
    RefsAreTrackers(s.wds[..], s.open);
    forall t <- s.open
      ensures s.wds[t.slot].refcount > 0
    {
      CountedPositive(s.wds[..], s.open, t);
    }
  }

  /** A slot that is in use changes only when its event is seen. */
  ghost predicate StaysOrArrives(a: Slot, b: Slot, seen: seq<int>) {
    && (a.val ==> b.val)
    && (b.val && !a.val ==> a.wd in seen)
  }

  lemma RefsAfterRemove(s: seq<Slot>, s': seq<Slot>, p: nat, seen: seq<int>)
    requires p < |s| && OthersAdvanced(s, s', p, seen) && s'[p].refcount == s[p].refcount - 1
    ensures forall i :: 0 <= i < |s| ==> s'[i].refcount == s[i].refcount - if i == p then 1 else 0
  {
    forall i | 0 <= i < |s| && i != p
      ensures s'[i].refcount == s[i].refcount
    {
      assert AdvancedSlot(s[i], s'[i], seen);
    }
  }

  ghost predicate OthersAdvanced(s: seq<Slot>, s': seq<Slot>, p: nat, seen: seq<int>) {
    |s| == |s'| && forall i :: 0 <= i < |s| && i != p ==> AdvancedSlot(s[i], s'[i], seen)
  }

  lemma VacatedTidy(s: seq<Slot>, m: seq<Slot>, p: nat, seen: seq<int>)
    requires Tidy(s) && p < |s| && s[p].refcount == 1 && Advanced(s[p := s[p].(wd := -1)], m, seen)
    ensures var s' := m[p := m[p].(refcount := 0)];
      && Tidy(s') && Used(s') == Used(s) - 1
      && forall i :: 0 <= i < |s| && i != p ==> AdvancedSlot(s[i], s'[i], seen)
  {
    var middle := s[p := s[p].(wd := -1)];
    var s' := m[p := m[p].(refcount := 0)];
    assert forall i :: 0 <= i < |s| ==> AdvancedSlot(middle[i], m[i], seen);
    SameUse(s, m);
    UsedAfter(m, p, s'[p]);
    forall i | 0 <= i < |s|
      ensures if s'[i].refcount == 0 then s'[i].wd == -1 else (s'[i].wd == -1 <==> s'[i].val)
      ensures s'[i].wd == -1 || s'[i].wd == s[i].wd
    {
      assert AdvancedSlot(middle[i], m[i], seen);
    }
  }

  lemma {:induction false} UsedFits(s: seq<Slot>)
    ensures Used(s) <= |s|
  {
    if s != [] {
      UsedFits(s[..|s| - 1]);
    }
  }
}
