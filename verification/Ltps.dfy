/** The long-term poll set of `rktio_ltps.c`, in its epoll form. */
module EpollModel {

  /** EPOLLIN and EPOLLOUT of a registration. */
  datatype Interest = Interest(input: bool, output: bool)

  datatype Events = Events(input: bool, output: bool, hup: bool, err: bool)

  datatype Kind = Input | Output | HangUp | Failure

  /** What is the case with a descriptor, whether or not it is asked for. */
  datatype Ready = Ready(fd: int, kind: Kind)

  predicate Anything(ev: Events) {
    ev.input || ev.output || ev.hup || ev.err
  }

  /** Only masked events, and HUP and ERR, are reported. */
  function Reported(ready: set<Ready>, interest: map<int, Interest>, fd: int): Events
    requires fd in interest
  {
    Events(Ready(fd, Input) in ready && interest[fd].input, Ready(fd, Output) in ready && interest[fd].output,
           Ready(fd, HangUp) in ready, Ready(fd, Failure) in ready)
  }

  /** The kernel's side: fd to interest mask. The one failure is EPERM, for an fd that cannot be watched at all. */
  class Epoll {
    var interest: map<int, Interest>
    /** What is ready, and which descriptors are refused, is up to the world outside. */
    var ready: set<Ready>
    var refuses: set<int>

    constructor ()
      ensures interest == map[]
    {
      interest := map[];
    }

    /** `EPOLL_CTL_ADD`; false is EPERM. */
    method Add(fd: int, i: Interest) returns (ok: bool)
      requires fd !in interest
      modifies this`interest
      ensures ok <==> fd !in refuses
      ensures interest == if ok then old(interest)[fd := i] else old(interest)
    {
      ok := fd !in refuses;
      if ok {
        interest := interest[fd := i];
      }
    }

    /** `EPOLL_CTL_MOD` */
    method Mod(fd: int, i: Interest)
      requires fd in interest
      modifies this`interest
      ensures interest == old(interest)[fd := i]
    {
      interest := interest[fd := i];
    }

    /** `EPOLL_CTL_DEL` */
    method Del(fd: int)
      requires fd in interest
      modifies this`interest
      ensures interest == old(interest) - {fd}
    {
      interest := interest - {fd};
    }

    /** `epoll_wait` for at most one descriptor, without blocking. What is ready stays so, and more may have become it. */
    method Wait() returns (some: bool, fd: int, ev: Events)
      modifies this`ready
      ensures old(ready) <= ready
      ensures some ==> fd in interest && ev == Reported(ready, interest, fd) && Anything(ev)
      ensures !some ==> forall k :: k in interest ==> !Anything(Reported(ready, interest, k))
    {
      var more: set<Ready> := *;
      ready := ready + more;
      var due := set k | k in interest.Keys && Anything(Reported(ready, interest, k));
      assert forall k :: k in interest.Keys && Anything(Reported(ready, interest, k)) ==> k in due;
      some, fd, ev := due != {}, 0, Events(false, false, false, false);
      if some {
        fd :| fd in due;
        ev := Reported(ready, interest, fd);
      }
    }
  }
}

module HandlePlaces {

  datatype AutoMode = HandleNone | HandleZero | HandleFree

  class Handle {
    var autoMode: AutoMode
    var data: int // 0 is NULL
    var next: Handle? // in signaled chain

    constructor ()
      ensures autoMode == HandleNone && data == 0 && next == null
    {
      autoMode, data, next := HandleNone, 0, null;
    }
  }

  class HandlePair {
    var readHandle: Handle?
    var writeHandle: Handle?

    constructor ()
      ensures readHandle == null && writeHandle == null
    {
      readHandle, writeHandle := null, null;
    }
  }

  /** `c` is the list that starts at `h`. */
  ghost predicate Chained(h: Handle?, c: seq<Handle>)
    reads c
  {
    if c == [] then h == null
    else
      && h == c[0] && c[|c| - 1].next == null
      && forall i {:trigger c[i].next} :: 0 <= i < |c| - 1 ==> c[i].next == c[i + 1]
  }

  lemma ChainedTail(h: Handle, c: seq<Handle>)
    requires Chained(h, c)
    ensures c != [] && Chained(h.next, c[1..])
  {
    if |c| > 1 {
      assert c[0].next == c[1];
    }
  }

  lemma ChainedCons(s: Handle, c: seq<Handle>)
    requires Chained(s.next, c)
    ensures Chained(s, [s] + c)
  {
    forall i | 0 <= i < |c| ensures ([s] + c)[i].next == ([s] + c)[i + 1] {
      assert i > 0 ==> c[i - 1].next == c[i];
    }
  }

  ghost function Elements(c: seq<Handle>): set<Handle> {
    set h | h in c
  }

  ghost predicate NoRepeats(c: seq<Handle>) {
    forall i, j :: 0 <= i < j < |c| ==> c[i] != c[j]
  }

  datatype Side = Reads | Writes

  /** The `read_handle` or the `write_handle` of the pair for `fd`. */
  datatype Slot = Slot(fd: int, side: Side)

  /** Where the handles are: in slots, on the signaled list, or retired, which is
      returned to the client, zeroed or freed. */
  datatype Places = Places(slots: map<Slot, Handle>, chain: seq<Handle>, retired: set<Handle>, created: set<Handle>)

  const NOWHERE: Places := Places(map[], [], {}, {})

  ghost predicate Injective<K>(m: map<K, Handle>) {
    forall i, j :: i in m && j in m && i != j ==> m[i] != m[j]
  }

  /** Every handle ever created is in exactly one place. */
  ghost predicate Placed(p: Places) {
    && p.created == p.slots.Values + Elements(p.chain) + p.retired
    && p.slots.Values !! Elements(p.chain)
    && p.slots.Values !! p.retired
    && Elements(p.chain) !! p.retired
    && NoRepeats(p.chain) && Injective(p.slots)
  }

  type Settled = p: Places | Placed(p) ghost witness NOWHERE

  function Fill(p: Places, k: Slot, s: Handle): Places {
    p.(slots := p.slots[k := s], created := p.created + {s})
  }

  /** A new handle whose descriptor cannot be watched. */
  function FreedAtOnce(p: Places, s: Handle): Places {
    p.(created := p.created + {s}, retired := p.retired + {s})
  }

  function Vacate(p: Places, k: Slot): Places {
    p.(slots := p.slots - {k})
  }

  /** A handle without an automatic mode, which is one of `none`, waits to be asked for; any other is zeroed or freed. */
  function Signal(p: Places, s: Handle, none: set<Handle>): Places {
    if s in none then p.(chain := [s] + p.chain) else p.(retired := p.retired + {s})
  }

  /** A handle leaves the slot `k`, if one is there, and is signaled. */
  function SignalSlot(p: Places, k: Slot, none: set<Handle>): Places {
    if k in p.slots then Signal(Vacate(p, k), p.slots[k], none) else p
  }

  /** Both handles of the pair for `fd` leave, the reading one first. */
  function SignalPair(p: Places, fd: int, none: set<Handle>): Places {
    SignalSlot(SignalSlot(p, Slot(fd, Reads), none), Slot(fd, Writes), none)
  }

  ghost function FromEnd(c: seq<Handle>, i: nat): Handle
    requires i < |c|
  {
    c[|c| - 1 - i]
  }

  /** `c'` is `c` with more handles in front. */
  ghost predicate Extends(c: seq<Handle>, c': seq<Handle>) {
    |c| <= |c'| && forall i: nat :: i < |c| ==> FromEnd(c', i) == FromEnd(c, i)
  }

  function SignalAll(p: Places, ks: seq<Slot>, none: set<Handle>): Places {
    if ks == [] then p else SignalSlot(SignalAll(p, ks[..|ks| - 1], none), ks[|ks| - 1], none)
  }

  /** From `p` to `q`, handles only left their slots and were signaled. */
  ghost predicate OnlySignaled(p: Places, q: Places, none: set<Handle>) {
    q.created == p.created && exists ks :: q == SignalAll(p, ks, none)
  }

  lemma NothingSignaled(p: Places, none: set<Handle>)
    ensures OnlySignaled(p, p, none)
  {
    assert p == SignalAll(p, [], none);
  }

  lemma OneMoreSignaled(p: Places, q: Places, k: Slot, none: set<Handle>)
    requires OnlySignaled(p, q, none)
    ensures OnlySignaled(p, SignalSlot(q, k, none), none)
  {
    var ks :| q == SignalAll(p, ks, none);
    assert (ks + [k])[..|ks|] == ks;
    assert SignalSlot(q, k, none) == SignalAll(p, ks + [k], none);
  }

  /** The handles that have left their slots between `p` and `q`. */
  ghost function Gone(p: Places, q: Places): set<Handle> {
    p.slots.Values - q.slots.Values
  }

  /** Of those that have gone, the ones in `none` are on the list and the others retired, and nothing else is new there. */
  ghost predicate Delivered(p: Places, q: Places, none: set<Handle>) {
    && q.slots.Values <= p.slots.Values
    && Extends(p.chain, q.chain)
    && Elements(q.chain) == Elements(p.chain) + Gone(p, q) * none
    && q.retired == p.retired + (Gone(p, q) - none)
  }

  lemma SlotDelivered(p: Places, k: Slot, none: set<Handle>)
    requires Placed(p)
    ensures Delivered(p, SignalSlot(p, k, none), none) && Placed(SignalSlot(p, k, none))
  {
    if k in p.slots {
      Signaled(p, k, none);
      RemovedValue(p.slots, k);
      assert Gone(p, SignalSlot(p, k, none)) == {p.slots[k]};
      assert Elements([p.slots[k]] + p.chain) == Elements(p.chain) + {p.slots[k]};
    }
  }

  lemma {:induction false} AllDelivered(p: Places, ks: seq<Slot>, none: set<Handle>)
    requires Placed(p)
    ensures Delivered(p, SignalAll(p, ks, none), none) && Placed(SignalAll(p, ks, none))
  {
    if ks != [] {
      var q := SignalAll(p, ks[..|ks| - 1], none);
      var r := SignalAll(p, ks, none);
      AllDelivered(p, ks[..|ks| - 1], none);
      SlotDelivered(q, ks[|ks| - 1], none);
      assert Gone(p, r) == Gone(p, q) + Gone(q, r);
    }
  }

  /** A signaled handle waits on the list, or is retired if it has an automatic mode; no other handle comes there. */
  lemma WhereSignaled(p: Places, q: Places, none: set<Handle>)
    requires Placed(p) && OnlySignaled(p, q, none)
    ensures q.slots.Values <= p.slots.Values && Extends(p.chain, q.chain) && p.retired <= q.retired
    ensures forall h :: h in p.slots.Values && h !in q.slots.Values ==> if h in none then h in q.chain else h in q.retired
    ensures forall h :: h in q.chain && h !in p.chain ==> h in p.slots.Values && h !in q.slots.Values && h in none
    ensures forall h :: h in q.retired && h !in p.retired ==> h in p.slots.Values && h !in q.slots.Values && h !in none
  {
    var ks :| q == SignalAll(p, ks, none);
    AllDelivered(p, ks, none);
    forall h | h in p.slots.Values && h !in q.slots.Values && h in none ensures h in q.chain {
      assert h in Gone(p, q) * none;
      assert h in Elements(q.chain);
    }
    forall h | h in q.chain && h !in p.chain ensures h in Gone(p, q) * none {
      assert h in Elements(q.chain);
    }
  }

  /** What the client then finds on the list. */
  lemma ListedExactly(p: Places, q: Places, none: set<Handle>)
    requires Placed(p) && OnlySignaled(p, q, none)
    ensures NoRepeats(q.chain)
    ensures forall h ::
      h in q.chain <==> h in p.chain || (h in p.slots.Values && h !in q.slots.Values && h in none)
  {
    var ks :| q == SignalAll(p, ks, none);
    AllDelivered(p, ks, none);
    WhereSignaled(p, q, none);
    forall h | h in p.chain ensures h in q.chain {
      assert h in Elements(p.chain);
      assert h in Elements(q.chain);
    }
  }

  /** The first `n` handles of the list have been returned. */
  ghost function Returned(p: Places, n: nat): Places
    requires n <= |p.chain|
  {
    p.(chain := p.chain[n..], retired := p.retired + Elements(p.chain[..n]))
  }

  /** After `handles`, `s` has come, or null at the end. */
  ghost predicate Collected(p: Places, handles: seq<Handle>, s: Handle?, q: Places) {
    && handles <= p.chain
    && if s == null then handles == p.chain && q == Returned(p, |handles|)
       else handles + [s] <= p.chain && q == Returned(p, |handles| + 1)
  }

  lemma ReturnedNone(p: Places)
    ensures Returned(p, 0) == p
  {
    assert Elements(p.chain[..0]) == {};
  }

  lemma ReturnedOneMore(p: Places, n: nat)
    requires n < |p.chain|
    ensures var q := Returned(p, n);
      q.chain != [] && q.chain[0] == p.chain[n]
      && q.(chain := q.chain[1..], retired := q.retired + {p.chain[n]}) == Returned(p, n + 1)
  {
    assert p.chain[n..][1..] == p.chain[n + 1..];
    assert p.chain[..n + 1] == p.chain[..n] + [p.chain[n]];
    assert Elements(p.chain[..n + 1]) == Elements(p.chain[..n]) + {p.chain[n]};
  }

  /** Polling reports whether it has signaled. */
  ghost predicate Progress(p: Places, q: Places, hit: bool) {
    if hit then |q.slots| < |p.slots| else q == p
  }

  lemma RemovedValue<K>(m: map<K, Handle>, k: K)
    requires Injective(m) && k in m
    ensures Injective(m - {k})
    ensures (m - {k}).Values == m.Values - {m[k]}
  {
    forall h | h in m.Values - {m[k]} ensures h in (m - {k}).Values {
      var j :| j in m && m[j] == h;
      assert j in m - {k};
    }
  }

  lemma AddedValue<K>(m: map<K, Handle>, k: K, s: Handle)
    requires Injective(m) && k !in m && s !in m.Values
    ensures Injective(m[k := s])
    ensures m[k := s].Values == m.Values + {s}
  {
    var m' := m[k := s];
    forall h | h in m.Values + {s} ensures h in m'.Values {
      if h != s {
        var j :| j in m && m[j] == h;
        assert m'[j] == h;
      } else {
        assert m'[k] == s;
      }
    }
  }

  lemma Filled(p: Places, k: Slot, s: Handle)
    requires Placed(p) && s !in p.created && k !in p.slots
    ensures Placed(Fill(p, k, s))
  {
    AddedValue(p.slots, k, s);
  }

  lemma FilledOnly(p: Places, k: Slot, s: Handle)
    requires k !in p.slots
    ensures Fill(p, k, s).slots - {k} == p.slots
    ensures Vacate(Fill(p, k, s), k).(retired := p.retired + {s}) == FreedAtOnce(p, s)
  {
  }

  lemma Signaled(p: Places, k: Slot, none: set<Handle>)
    requires Placed(p) && k in p.slots
    ensures p.slots[k] !in p.chain
    ensures Placed(SignalSlot(p, k, none))
  {
    var s := p.slots[k];
    RemovedValue(p.slots, k);
    assert s in p.slots.Values;
    assert Elements([s] + p.chain) == Elements(p.chain) + {s};
    assert s !in p.chain by { assert s !in Elements(p.chain); }
  }

  lemma Dequeued(p: Places)
    requires Placed(p) && p.chain != []
    ensures Placed(p.(chain := p.chain[1..], retired := p.retired + {p.chain[0]}))
    ensures Elements(p.chain) == Elements(p.chain[1..]) + {p.chain[0]}
  {
    assert Elements(p.chain) == Elements(p.chain[1..]) + {p.chain[0]} by {
      assert p.chain == [p.chain[0]] + p.chain[1..];
    }
  }
}

module LongTermPollSets {
  import opened Counting
  import opened Options
  import opened HashTables
  import opened EpollModel
  import opened HandlePlaces

  datatype Mode =
    | CreateRead | CreateWrite | CheckRead | CheckWrite | Remove
    | CreateVnode | CheckVnode | RemoveVnode

  datatype Error = NoError | NotFound | Removed | Unsupported | PosixError

  predicate Creating(m: Mode) { m.CreateRead? || m.CreateWrite? || m.CreateVnode? }
  predicate Removing(m: Mode) { m.Remove? || m.RemoveVnode? }

  function SideOf(m: Mode): Side {
    if m.CreateWrite? || m.CheckWrite? then Writes else Reads
  }

  ghost predicate DistinctPairs(m: map<int, HandlePair>) {
    forall i, j :: i in m && j in m && i != j ==> m[i] != m[j]
  }

  lemma DistinctAdded(m: map<int, HandlePair>, key: int, v: HandlePair)
    requires DistinctPairs(m) && forall k :: k in m ==> m[k] != v
    ensures DistinctPairs(m[key := v])
  {
  }

  function InSlot(m: map<Slot, Handle>, k: Slot): Handle? {
    if k in m then m[k] else null
  }

  predicate Occupied(slots: map<Slot, Handle>, fd: int) {
    Slot(fd, Reads) in slots || Slot(fd, Writes) in slots
  }

  /** The kernel's mask of each fd is exactly what its non-NULL handles ask for. */
  ghost predicate KernelAgrees(interest: map<int, Interest>, slots: map<Slot, Handle>) {
    && (forall k :: k in interest <==> Occupied(slots, k))
    && (forall k :: k in interest ==> interest[k] == Interest(Slot(k, Reads) in slots, Slot(k, Writes) in slots))
  }

  /** The slots that an event on `fd` leaves alone: HUP and ERR are for both sides. */
  function Left(slots: map<Slot, Handle>, fd: int, ev: Events): map<Slot, Handle> {
    var slots1 := if ev.input || ev.hup || ev.err then slots - {Slot(fd, Reads)} else slots;
    if ev.output || ev.hup || ev.err then slots1 - {Slot(fd, Writes)} else slots1
  }

  /** Input is for the reading side, output for the writing one, and HUP and ERR are for both. */
  lemma LeftExactly(slots: map<Slot, Handle>, fd: int, ev: Events)
    ensures forall k ::
      k in Left(slots, fd, ev) <==> (
        && k in slots
        && !(k.fd == fd && (ev.hup || ev.err || (if k.side.Reads? then ev.input else ev.output))))
  {
    forall k: Slot | k.fd == fd ensures k == Slot(fd, Reads) || k == Slot(fd, Writes) {
      match k.side {
        case Reads =>
        case Writes =>
      }
    }
  }

  /** What the handle in that slot waits for is ready, or the descriptor has failed. */
  predicate Due(ready: set<Ready>, k: Slot) {
    || Ready(k.fd, HangUp) in ready || Ready(k.fd, Failure) in ready
    || (if k.side.Reads? then Ready(k.fd, Input) in ready else Ready(k.fd, Output) in ready)
  }

  /** The slots that have been left were due. */
  ghost predicate DueOnly(before: map<Slot, Handle>, slots: map<Slot, Handle>, ready: set<Ready>) {
    && (forall k :: k in slots ==> k in before)
    && (forall k :: k in before && k !in slots ==> Due(ready, k))
  }

  ghost predicate NoneDue(slots: map<Slot, Handle>, ready: set<Ready>) {
    forall k :: k in slots ==> !Due(ready, k)
  }

  lemma MoreReady(before: map<Slot, Handle>, slots: map<Slot, Handle>, ready: set<Ready>, ready': set<Ready>)
    requires DueOnly(before, slots, ready) && ready <= ready'
    ensures DueOnly(before, slots, ready')
  {
  }

  /** A reported event is for slots that are due. */
  lemma ReportedDue(before: map<Slot, Handle>, slots: map<Slot, Handle>, ready: set<Ready>,
                    interest: map<int, Interest>, fd: int)
    requires DueOnly(before, slots, ready) && fd in interest
    ensures DueOnly(before, Left(slots, fd, Reported(ready, interest, fd)), ready)
  {
    LeftExactly(slots, fd, Reported(ready, interest, fd));
  }

  /** When nothing is reported, no handle that is left is due. */
  lemma UnreportedNotDue(slots: map<Slot, Handle>, ready: set<Ready>, interest: map<int, Interest>)
    requires KernelAgrees(interest, slots)
    requires forall k :: k in interest ==> !Anything(Reported(ready, interest, k))
    ensures NoneDue(slots, ready)
  {
    forall k | k in slots ensures !Due(ready, k) {
      assert k == Slot(k.fd, k.side);
      match k.side {
        case Reads => assert k.fd in interest && interest[k.fd].input;
        case Writes => assert k.fd in interest && interest[k.fd].output;
      }
    }
  }

  /** The mask of every other descriptor is right. */
  ghost predicate AgreesBut(interest: map<int, Interest>, slots: map<Slot, Handle>, key: int) {
    && (forall k :: k != key ==> (k in interest <==> Occupied(slots, k)))
    && (forall k :: k in interest && k != key ==>
      interest[k] == Interest(Slot(k, Reads) in slots, Slot(k, Writes) in slots))
  }

  lemma LeftKeepsOthers(interest: map<int, Interest>, slots: map<Slot, Handle>, fd: int, ev: Events)
    requires KernelAgrees(interest, slots)
    ensures AgreesBut(interest, Left(slots, fd, ev), fd)
    ensures forall k :: k != fd ==> (Occupied(Left(slots, fd, ev), k) <==> Occupied(slots, k))
  {
  }

  /** An event within the mask, or a HUP or ERR, is for some handle that is there. */
  lemma LeftIsFewer(interest: map<int, Interest>, slots: map<Slot, Handle>, fd: int, ev: Events)
    requires KernelAgrees(interest, slots) && fd in interest
    requires (ev.input ==> interest[fd].input) && (ev.output ==> interest[fd].output)
    requires Anything(ev)
    ensures |Left(slots, fd, ev)| < |slots|
  {
    var left := Left(slots, fd, ev);
    var gone := if Slot(fd, Reads) in slots && (ev.input || ev.hup || ev.err) then Slot(fd, Reads) else Slot(fd, Writes);
    assert gone in slots && gone !in left;
    assert left.Keys <= slots.Keys - {gone};
    SubsetNotLarger(left.Keys, slots.Keys - {gone});
  }

  /** Creation returns the handle that is there, or else a new one `h` if the descriptor
      can be watched; if it cannot, `h` is freed at once and null is returned. */
  ghost predicate Creates(p: Places, q: Places, k: Slot, s: Handle?, h: Handle?) {
    if k in p.slots then s == p.slots[k] && q == p
    else h != null && (if s == null then q == FreedAtOnce(p, h) else s == h && q == Fill(p, k, h))
  }

  /**
   * What adding or looking up does, where `none` are the handles without an automatic mode: lookups and
   * removals need a pair, and creating never fails but for the descriptor of the set itself.
   */
  ghost predicate Adds(
    p: Places, q: Places, key: int, mode: Mode, none: set<Handle>, s: Handle?, err: Error, h: Handle?)
  {
    match err
    case PosixError => s == null && q == p
    case Unsupported => s == null && q == p
    case NotFound => s == null && q == p && !Creating(mode) && !Occupied(p.slots, key)
    case Removed =>
      && Removing(mode) && s == null && Occupied(p.slots, key)
      && q == SignalPair(p, key, none) && !Occupied(q.slots, key)
    case NoError =>
      if Creating(mode) then Creates(p, q, Slot(key, SideOf(mode)), s, h)
      else !Removing(mode) && Occupied(p.slots, key) && s == InSlot(p.slots, Slot(key, SideOf(mode))) && q == p
  }

  /** The handle is in that slot, and the kernel reports what it waits for. */
  ghost predicate Watches(slots: map<Slot, Handle>, interest: map<int, Interest>, k: Slot, s: Handle) {
    && k in slots && slots[k] == s && k.fd in interest
    && if k.side.Reads? then interest[k.fd].input else interest[k.fd].output
  }

  /**
   * What is created or found for input is in the reading slot, and for output in the writing slot. A
   * handle is always created, except for a descriptor that is refused; only the other modes need a pair.
   */
  ghost predicate Answers(
    slots: map<Slot, Handle>, interest: map<int, Interest>, key: int, mode: Mode, s: Handle?, err: Error, refused: bool)
  {
    match mode
    case CreateRead => err.NoError? && if s == null then refused else Watches(slots, interest, Slot(key, Reads), s)
    case CreateVnode => err.NoError? && if s == null then refused else Watches(slots, interest, Slot(key, Reads), s)
    case CreateWrite => err.NoError? && if s == null then refused else Watches(slots, interest, Slot(key, Writes), s)
    case CheckRead => (err.NoError? || err.NotFound?) && s == InSlot(slots, Slot(key, Reads))
    case CheckVnode => (err.NoError? || err.NotFound?) && s == InSlot(slots, Slot(key, Reads))
    case CheckWrite => (err.NoError? || err.NotFound?) && s == InSlot(slots, Slot(key, Writes))
    case Remove => (err.Removed? || err.NotFound?) && s == null
    case RemoveVnode => (err.Removed? || err.NotFound?) && s == null
  }

  lemma AddsAnswers(p: Places, q: Places, key: int, mode: Mode, none: set<Handle>, s: Handle?, err: Error, h: Handle?,
                    interest: map<int, Interest>, refused: bool)
    requires Adds(p, q, key, mode, none, s, err, h) && KernelAgrees(interest, q.slots)
    requires !err.PosixError? && !err.Unsupported? && (Creating(mode) && s == null ==> refused)
    ensures Answers(q.slots, interest, key, mode, s, err, refused)
  {
  }

  /** A check finds what was created for its side. */
  lemma CheckFindsCreated(p: Places, q: Places, r: Places, key: int, create: Mode, check: Mode,
                          none: set<Handle>, s: Handle, h: Handle?, none': set<Handle>, s': Handle?, err: Error)
    requires Adds(p, q, key, create, none, s, NoError, h) && Adds(q, r, key, check, none', s', err, null)
    requires err.NoError? || err.NotFound? || err.Removed?
    requires if create.CreateWrite? then check.CheckWrite? else Creating(create) && (check.CheckRead? || check.CheckVnode?)
    ensures err.NoError? && s' == s
  {
  }

  /** A slot is filled, and the mask says so. */  /** A slot is filled, and the mask says so. */
  lemma KernelGains(interest: map<int, Interest>, slots: map<Slot, Handle>, k: Slot, mask: Interest)
    requires k in slots && KernelAgrees(interest, slots - {k})
    requires mask == Interest(Slot(k.fd, Reads) in slots, Slot(k.fd, Writes) in slots)
    ensures KernelAgrees(interest[k.fd := mask], slots)
  {
    match k.side {
      case Reads =>
      case Writes =>
    }
    StillOccupied(slots, k);
  }

  lemma StillOccupied(slots: map<Slot, Handle>, k: Slot)
    ensures forall fd :: fd != k.fd ==> (Occupied(slots - {k}, fd) <==> Occupied(slots, fd))
  {
  }

  class Ltps {
    var fd: int
    var signaled: Handle?
    const fdHandles: HashTable<HandlePair>
    const epoll: Epoll
    ghost var at: Settled // where all handles are
    ghost var pairs: set<HandlePair> // all there have been

    /** The hash table holds the pairs, and the pairs hold the handles. */
    ghost predicate Tabled()
      reads this`at, this`pairs, fdHandles, fdHandles.buckets, pairs
    {
      && fdHandles.Valid() && DistinctPairs(fdHandles.M)
      && (forall k :: Occupied(at.slots, k) ==> k in fdHandles.M)
      && (forall k :: k in fdHandles.M ==> fdHandles.M[k] in pairs)
      && (forall k :: k in fdHandles.M ==>
        && fdHandles.M[k].readHandle == InSlot(at.slots, Slot(k, Reads))
        && fdHandles.M[k].writeHandle == InSlot(at.slots, Slot(k, Writes)))
    }

    /** The same, but for the pair of `key`. */
    ghost predicate TabledBut(key: int)
      reads this`at, this`pairs, fdHandles, fdHandles.buckets, pairs
    {
      && fdHandles.Valid() && DistinctPairs(fdHandles.M) && key in fdHandles.M
      && (forall k :: Occupied(at.slots, k) ==> k in fdHandles.M)
      && (forall k :: k in fdHandles.M ==> fdHandles.M[k] in pairs)
      && (forall k :: k in fdHandles.M && k != key ==>
        && fdHandles.M[k].readHandle == InSlot(at.slots, Slot(k, Reads))
        && fdHandles.M[k].writeHandle == InSlot(at.slots, Slot(k, Writes)))
    }

    /** The linked list is `at.chain`. */
    ghost predicate ListOk()
      reads this`at, this`signaled, at.chain
    {
      Chained(signaled, at.chain)
    }

    /** The handles that have no automatic mode. */
    ghost function Unset(hs: set<Handle>): set<Handle>
      reads hs`autoMode
    {
      set h | h in hs && h.autoMode.HandleNone?
    }

    /** Since `p`, handles have only been signaled. */
    ghost predicate Since(p: Places, none: set<Handle>)
      reads this`at, at.created`autoMode
    {
      OnlySignaled(p, at, none) && none == Unset(at.created)
    }

    lemma SinceNow()
      ensures Since(at, Unset(at.created))
    {
      NothingSignaled(at, Unset(at.created));
    }

    /** No pair in the table is empty. */
    ghost predicate NoEmptyPair()
      reads this`at, fdHandles
    {
      forall k :: k in fdHandles.M ==> Occupied(at.slots, k)
    }

    ghost predicate NoEmptyPairBut(key: int)
      reads this`at, fdHandles
    {
      forall k :: k in fdHandles.M ==> k == key || Occupied(at.slots, k)
    }

    ghost predicate Valid()
      reads this`at, this`signaled, fdHandles, fdHandles.buckets, this`pairs, pairs, at.chain, epoll`interest
    {
      Tabled() && ListOk() && NoEmptyPair() && KernelAgrees(epoll.interest, at.slots)
    }

    constructor ()
      ensures Valid() && at == NOWHERE
      ensures fresh(fdHandles) && fresh(epoll) && fdHandles.buckets == null
    {
      fd, signaled := -1, null;
      fdHandles := new HashTable<HandlePair>();
      epoll := new Epoll();
      at, pairs := NOWHERE, {};
    }

    /** `ltps_signal_handle`, for the handle of the slot `k`, which it leaves. */
    method SignalHandle(s: Handle, ghost k: Slot)
      requires ListOk() && k in at.slots && at.slots[k] == s
      modifies this`signaled, this`at, s`next, s`data
      ensures ListOk() && at == SignalSlot(old(at), k, Unset(at.created))
      ensures if s.autoMode.HandleNone? then signaled == s && s.next == old(signaled) else signaled == old(signaled)
      ensures s.data == if s.autoMode.HandleZero? then 0 else old(s.data)
    {
      ghost var chain, none := at.chain, Unset(at.created);
      assert s in at.slots.Values;
      Signaled(at, k, none);
      at := SignalSlot(at, k, none);
      match s.autoMode {
        case HandleNone =>
          s.next := signaled;
          assert forall i :: 0 <= i < |chain| ==> chain[i] != s;
          ChainedCons(s, chain);
          signaled := s;
        case HandleZero =>
          s.data := 0;
        case HandleFree =>
          // free(s)
      }
    }

    /** `rktio_ltps_get_signaled_handle`; null is `RKTIO_ERROR_LTPS_NOT_FOUND`. */
    method GetSignaledHandle() returns (s: Handle?)
      requires ListOk()
      modifies this`signaled, this`at
      ensures ListOk()
      ensures old(at).chain == [] ==> s == null && at == old(at)
      ensures old(at).chain != [] ==>
        Elements(old(at).chain) == Elements(old(at).chain[1..]) + {old(at).chain[0]}
      ensures old(at).chain != [] ==>
        s == old(at).chain[0] && at == old(at).(chain := old(at).chain[1..], retired := old(at).retired + {s})
    {
      s := signaled;
      if s != null {
        ChainedTail(s, at.chain);
        Dequeued(at);
        signaled := s.next;
        at := at.(chain := at.chain[1..], retired := at.retired + {s});
      }
    }

    /** `v->read_handle = s` or `v->write_handle = s`, for a new handle. */
    method FillSlot(key: nat, v: HandlePair, side: Side, s: Handle)
      requires Tabled() && ListOk() && key in fdHandles.M && fdHandles.M[key] == v
      requires Slot(key, side) !in at.slots && s !in at.created
      modifies this`at, v
      ensures Tabled() && ListOk() && at == Fill(old(at), Slot(key, side), s)
    {
      Filled(at, Slot(key, side), s);
      if side.Reads? {
        v.readHandle := s;
      } else {
        v.writeHandle := s;
      }
      at := Fill(at, Slot(key, side), s);
      forall k | k in fdHandles.M
        ensures fdHandles.M[k].readHandle == InSlot(at.slots, Slot(k, Reads))
        ensures fdHandles.M[k].writeHandle == InSlot(at.slots, Slot(k, Writes))
      {
      }
    }

    /** A new handle leaves its slot again and is freed. */
    method UnfillSlot(key: nat, v: HandlePair, side: Side)
      requires Tabled() && ListOk() && key in fdHandles.M && fdHandles.M[key] == v
      requires Slot(key, side) in at.slots
      modifies this`at, v
      ensures Tabled() && ListOk() && at == SignalSlot(old(at), Slot(key, side), {})
    {
      Signaled(at, Slot(key, side), {});
      if side.Reads? {
        v.readHandle := null;
      } else {
        v.writeHandle := null;
      }
      at := SignalSlot(at, Slot(key, side), {});
    }

    /** `rktio_hash_remove` of a pair whose handles are gone */
    method DropPair(key: nat, dontRehash: bool)
      requires TabledBut(key) && ListOk() && !Occupied(at.slots, key)
      modifies fdHandles, fdHandles.buckets
      ensures Tabled() && ListOk() && fdHandles.M == old(fdHandles.M) - {key}
      ensures fdHandles.buckets == old(fdHandles.buckets) || fresh(fdHandles.buckets)
      ensures dontRehash ==> fdHandles.OnlyVacated(old(fdHandles.buckets), old(fdHandles.size), old(fdHandles.Buckets()))
    {
      fdHandles.Remove(key, dontRehash);
    }

    // epoll_ctl, none of which touches the table or the handles

    method CtlAdd(key: nat, i: Interest) returns (ok: bool)
      requires Tabled() && ListOk() && key !in epoll.interest
      modifies epoll`interest
      ensures Tabled() && ListOk() && (ok <==> key !in epoll.refuses)
      ensures epoll.interest == if ok then old(epoll.interest)[key := i] else old(epoll.interest)
    {
      ok := epoll.Add(key, i);
    }

    method CtlMod(key: nat, i: Interest)
      requires Tabled() && ListOk() && key in epoll.interest
      modifies epoll`interest
      ensures Tabled() && ListOk()
      ensures epoll.interest == old(epoll.interest)[key := i]
    {
      epoll.Mod(key, i);
    }

    method CtlDel(key: nat)
      requires Tabled() && ListOk() && key in epoll.interest
      modifies epoll`interest
      ensures Tabled() && ListOk()
      ensures epoll.interest == old(epoll.interest) - {key}
    {
      assert (epoll as object) != fdHandles && (epoll as object) != this && (epoll as object) !in pairs;
      epoll.Del(key);
    }

    /** Register `key` for a newly filled slot, along with what is registered already. */
    method Watch(key: nat, v: HandlePair, side: Side) returns (ok: bool)
      requires Tabled() && ListOk() && NoEmptyPair() && key in fdHandles.M && fdHandles.M[key] == v
      requires Slot(key, side) in at.slots
      requires KernelAgrees(epoll.interest, at.slots - {Slot(key, side)})
      modifies epoll`interest
      ensures Tabled() && ListOk() && NoEmptyPair()
      ensures ok ==> KernelAgrees(epoll.interest, at.slots)
      ensures !ok ==> key in epoll.refuses && epoll.interest == old(epoll.interest) && !Occupied(at.slots - {Slot(key, side)}, key)
    {
      var already := if side.Reads? then v.writeHandle != null else v.readHandle != null;
      var mask := Interest(side.Reads? || already, side.Writes? || already);
      KernelGains(epoll.interest, at.slots, Slot(key, side), mask);
      if already {
        CtlMod(key, mask);
        ok := true;
      } else {
        ok := CtlAdd(key, mask);
      }
    }

    /** EPERM: the fd cannot be watched, so `h` leaves its slot again, is freed, and its pair goes. */
    method Undo(key: nat, v: HandlePair, side: Side, h: Handle)
      requires Tabled() && ListOk() && NoEmptyPair() && key in fdHandles.M && fdHandles.M[key] == v
      requires Slot(key, side) in at.slots && at.slots[Slot(key, side)] == h
      requires !Occupied(at.slots - {Slot(key, side)}, key)
      requires KernelAgrees(epoll.interest, at.slots - {Slot(key, side)})
      modifies this`at, v, fdHandles, fdHandles.buckets
      ensures Valid()
      ensures at == Vacate(old(at), Slot(key, side)).(retired := old(at).retired + {h})
      ensures fdHandles.buckets == old(fdHandles.buckets) || fresh(fdHandles.buckets)
    {
      StillOccupied(at.slots, Slot(key, side));
      UnfillSlot(key, v, side);
      DropIfEmpty(key, v);
    }

    method DropIfEmpty(key: nat, v: HandlePair)
      requires Tabled() && ListOk() && key in fdHandles.M && fdHandles.M[key] == v && !Occupied(at.slots, key)
      requires NoEmptyPairBut(key)
      requires KernelAgrees(epoll.interest, at.slots)
      modifies fdHandles, fdHandles.buckets
      ensures Valid() && (fdHandles.buckets == old(fdHandles.buckets) || fresh(fdHandles.buckets))
    {
      if v.readHandle == null && v.writeHandle == null {
        DropPair(key, false);
      }
    }

    method WatchOrUndo(key: nat, v: HandlePair, side: Side, h: Handle) returns (ok: bool)
      requires Tabled() && ListOk() && NoEmptyPair() && key in fdHandles.M && fdHandles.M[key] == v
      requires Slot(key, side) in at.slots && at.slots[Slot(key, side)] == h
      requires KernelAgrees(epoll.interest, at.slots - {Slot(key, side)})
      modifies this`at, v, epoll`interest, fdHandles, fdHandles.buckets
      ensures Valid() && (fdHandles.buckets == old(fdHandles.buckets) || fresh(fdHandles.buckets))
      ensures ok ==> at == old(at)
      ensures !ok ==> at == Vacate(old(at), Slot(key, side)).(retired := old(at).retired + {h}) && key in epoll.refuses
    {
      ok := Watch(key, v, side);
      if ok {
        return;
      }
      Undo(key, v, side, h);
    }

    /** The creating branches of `rktio_ltps_add`; null when the fd cannot be watched. */
    method CreateHandle(key: nat, v: HandlePair, side: Side) returns (s: Handle?, ghost h: Handle)
      requires Tabled() && ListOk() && key in fdHandles.M && fdHandles.M[key] == v
      requires NoEmptyPairBut(key)
      requires Slot(key, side) !in at.slots && KernelAgrees(epoll.interest, at.slots)
      modifies this`at, v, epoll`interest, fdHandles, fdHandles.buckets
      ensures Valid() && (fdHandles.buckets == old(fdHandles.buckets) || fresh(fdHandles.buckets))
      ensures fresh(h) && h.autoMode.HandleNone?
      ensures s != null ==> s == h && at == Fill(old(at), Slot(key, side), h)
      ensures s == null ==> at == FreedAtOnce(old(at), h) && key in epoll.refuses
    {
      var n := NewHandle(key, v, side);
      h := n;
      var ok := WatchOrUndo(key, v, side, n);
      s := if ok then n else null;
    }

    method NewHandle(key: nat, v: HandlePair, side: Side) returns (h: Handle)
      requires Tabled() && ListOk() && key in fdHandles.M && fdHandles.M[key] == v
      requires NoEmptyPairBut(key)
      requires Slot(key, side) !in at.slots && KernelAgrees(epoll.interest, at.slots)
      modifies this`at, v
      ensures Tabled() && ListOk() && NoEmptyPair() && KernelAgrees(epoll.interest, at.slots - {Slot(key, side)})
      ensures fresh(h) && h.autoMode.HandleNone? && at == Fill(old(at), Slot(key, side), h)
      ensures Vacate(at, Slot(key, side)).(retired := at.retired + {h}) == FreedAtOnce(old(at), h)
    {
      h := new Handle();
      FilledOnly(at, Slot(key, side), h);
      FillSlot(key, v, side, h);
    }

    /** `s = v->read_handle; if (s) ltps_signal_handle(lt, s);`, leaving `v` alone */
    method SignalFrom(key: nat, s: Handle?, side: Side, ghost p: Places, ghost none: set<Handle>)
      requires TabledBut(key) && ListOk() && s == InSlot(at.slots, Slot(key, side)) && Since(p, none)
      modifies this`signaled, this`at, at.created`next, at.created`data
      ensures TabledBut(key) && ListOk() && Since(p, none)
      ensures at == SignalSlot(old(at), Slot(key, side), none)
      ensures at.slots == old(at).slots - {Slot(key, side)}
    {
      if s != null {
        OneMoreSignaled(p, at, Slot(key, side), none);
        SignalHandle(s, Slot(key, side));
        UnsetKept(at.created);
      }
    }

    method SignalBoth(key: nat, v: HandlePair, ghost p: Places, ghost none: set<Handle>)
      requires Tabled() && ListOk() && key in fdHandles.M && fdHandles.M[key] == v && Since(p, none)
      modifies this`signaled, this`at, at.created`next, at.created`data
      ensures TabledBut(key) && ListOk() && Since(p, none)
      ensures at == SignalPair(old(at), key, none)
      ensures at.slots == old(at).slots - {Slot(key, Reads)} - {Slot(key, Writes)}
    {
      SignalFrom(key, v.readHandle, Reads, p, none);
      SignalFrom(key, v.writeHandle, Writes, p, none);
    }

    lemma KernelForgets(interest: map<int, Interest>, slots: map<Slot, Handle>, key: int)
      requires KernelAgrees(interest, slots)
      ensures KernelAgrees(interest - {key}, slots - {Slot(key, Reads)} - {Slot(key, Writes)})
    {
    }

    /** The removing branch of `rktio_ltps_add`: both handles of the pair are signaled. */
    method RemovePair(key: nat, v: HandlePair)
      requires Valid() && key in fdHandles.M && fdHandles.M[key] == v
      modifies this`signaled, this`at, at.created`next, at.created`data, epoll`interest, fdHandles, fdHandles.buckets
      ensures Valid() && (fdHandles.buckets == old(fdHandles.buckets) || fresh(fdHandles.buckets))
      ensures at == SignalPair(old(at), key, old(Unset(at.created)))
      ensures OnlySignaled(old(at), at, old(Unset(at.created))) && !Occupied(at.slots, key)
    {
      SinceNow();
      SignalBoth(key, v, at, Unset(at.created));
      KernelForgets(epoll.interest, old(at).slots, key);
      DropPair(key, false);
      CtlDel(key);
    }

    method LookupPair(key: nat) returns (v: HandlePair?)
      requires Tabled() && NoEmptyPair()
      ensures v != null <==> Occupied(at.slots, key)
      ensures v != null ==> key in fdHandles.M && fdHandles.M[key] == v
      ensures v == null ==> key !in fdHandles.M
    {
      var r := fdHandles.Get(key);
      v := if r.Some? then r.value else null;
    }

    /** A new pair enters the table, still empty. */
    method InsertPair(key: nat) returns (v: HandlePair)
      requires Tabled() && ListOk() && key !in fdHandles.M
      modifies fdHandles, fdHandles.buckets, this`pairs
      ensures Tabled() && ListOk() && fresh(v) && fdHandles.M == old(fdHandles.M)[key := v]
      ensures pairs == old(pairs) + {v}
      ensures fdHandles.buckets == old(fdHandles.buckets) || fresh(fdHandles.buckets)
    {
      v := new HandlePair();
      NotePair(v);
      SetPair(key, v);
    }

    ghost method NotePair(v: HandlePair)
      requires Tabled() && ListOk()
      modifies this`pairs
      ensures Tabled() && ListOk() && pairs == old(pairs) + {v}
    {
      assert forall k :: k in fdHandles.M ==> fdHandles.M[k] in pairs + {v};
      pairs := pairs + {v};
    }

    /** `ltps_hash_set` of an empty pair that is not in the table */
    method SetPair(key: nat, v: HandlePair)
      requires Tabled() && ListOk() && key !in fdHandles.M
      requires v in pairs && v.readHandle == v.writeHandle == null
      requires forall k :: k in fdHandles.M ==> fdHandles.M[k] != v
      modifies fdHandles, fdHandles.buckets
      ensures Tabled() && ListOk() && fdHandles.M == old(fdHandles.M)[key := v]
      ensures fdHandles.buckets == old(fdHandles.buckets) || fresh(fdHandles.buckets)
    {
      DistinctAdded(fdHandles.M, key, v);
      fdHandles.Set(key, v);
    }

    /** The `RKTIO_LTPS_CREATE_...` modes. */
    method AddCreate(key: nat, side: Side) returns (s: Handle?, ghost h: Handle?)
      requires Valid()
      modifies this`at, this`pairs, pairs, epoll`interest, fdHandles, fdHandles.buckets
      ensures Valid() && (fdHandles.buckets == old(fdHandles.buckets) || fresh(fdHandles.buckets))
      ensures Creates(old(at), at, Slot(key, side), s, h) && (h != null ==> fresh(h))
      ensures s == null ==> key in epoll.refuses
    {
      h := null;
      var v := LookupPair(key);
      if v == null {
        v := InsertPair(key);
      }
      s := if side.Reads? then v.readHandle else v.writeHandle;
      if s == null {
        s, h := CreateHandle(key, v, side);
      }
    }

    /** The epoll descriptor is made on first use. */
    method OpenEpoll() returns (ok: bool)
      requires Valid()
      modifies this`fd
      ensures Valid() && (ok <==> fd >= 0) && (old(fd) >= 0 ==> fd == old(fd))
    {
      if fd < 0 {
        fd := *;
      }
      ok := fd >= 0;
    }

    /** The modes that need a pair to be there. */
    method AddExisting(key: nat, mode: Mode) returns (s: Handle?, err: Error)
      requires Valid() && !Creating(mode)
      modifies this`signaled, this`at, at.created`next, at.created`data, epoll`interest, fdHandles, fdHandles.buckets
      ensures Valid() && (fdHandles.buckets == old(fdHandles.buckets) || fresh(fdHandles.buckets))
      ensures !err.PosixError? && !err.Unsupported?
      ensures Adds(old(at), at, key, mode, old(Unset(at.created)), s, err, null)
    {
      s, err := null, NoError;
      var v := LookupPair(key);
      if v == null {
        err := NotFound;
      } else if Removing(mode) {
        RemovePair(key, v);
        err := Removed;
      } else {
        s := if SideOf(mode).Reads? then v.readHandle else v.writeHandle;
      }
    }

    /** The rest of `rktio_ltps_add`, once there is an epoll descriptor. */
    method AddOpen(key: nat, mode: Mode) returns (s: Handle?, err: Error, ghost h: Handle?)
      requires Valid()
      modifies this`signaled, this`at, this`pairs, pairs, at.created`next, at.created`data, epoll`interest, fdHandles, fdHandles.buckets
      ensures Valid() && (fdHandles.buckets == old(fdHandles.buckets) || fresh(fdHandles.buckets))
      ensures !err.PosixError? && !err.Unsupported? && (h != null ==> fresh(h))
      ensures Adds(old(at), at, key, mode, old(Unset(at.created)), s, err, h)
      ensures Answers(at.slots, epoll.interest, key, mode, s, err, key in epoll.refuses)
    {
      ghost var p, none := at, Unset(at.created);
      s, err, h := null, NoError, null;
      if Creating(mode) {
        s, h := AddCreate(key, SideOf(mode));
      } else {
        s, err := AddExisting(key, mode);
      }
      AddsAnswers(p, at, key, mode, none, s, err, h, epoll.interest, key in epoll.refuses);
    }

    /** `rktio_ltps_add` for the descriptor `key`, which may be `pending`; `h` is the handle created, if any. */
    method Add(key: nat, pending: bool, mode: Mode) returns (s: Handle?, err: Error, ghost h: Handle?)
      requires Valid()
      modifies this`fd, this`signaled, this`at, this`pairs, pairs, at.created`next, at.created`data, epoll`interest, fdHandles, fdHandles.buckets
      ensures Valid() && (fdHandles.buckets == old(fdHandles.buckets) || fresh(fdHandles.buckets))
      ensures (err.Unsupported? <==> pending) && (err.PosixError? <==> !pending && fd < 0) && (h != null ==> fresh(h))
      ensures old(fd) >= 0 ==> fd == old(fd)
      ensures err.PosixError? || err.Unsupported? || Answers(at.slots, epoll.interest, key, mode, s, err, key in epoll.refuses)
      ensures Adds(old(at), at, key, mode, old(Unset(at.created)), s, err, h)
    {
      s, err, h := null, Unsupported, null;
      if pending {
        return;
      }
      err := PosixError;
      var ok := OpenEpoll();
      UnsetKept(at.created);
      if !ok {
        return;
      }
      s, err, h := AddOpen(key, mode);
    }

    twostate lemma UnsetKept(hs: set<Handle>)
      requires forall h :: h in hs ==> old(allocated(h)) && h.autoMode == old(h.autoMode)
      ensures Unset(hs) == old(Unset(hs))
    {
    }

    /** `v->read_handle = NULL` or `v->write_handle = NULL`, once the handle has been signaled */
    method ClearSlot(key: nat, v: HandlePair, side: Side)
      requires TabledBut(key) && ListOk() && key in fdHandles.M && fdHandles.M[key] == v
      requires Slot(key, side) !in at.slots
      requires side.Reads? ==> v.writeHandle == InSlot(at.slots, Slot(key, Writes))
      requires side.Writes? ==> v.readHandle == InSlot(at.slots, Slot(key, Reads))
      modifies v
      ensures Tabled() && ListOk()
    {
      if side.Reads? {
        v.readHandle := null;
      } else {
        v.writeHandle := null;
      }
    }

    /** The handle in a reported slot is signaled and the slot cleared. */
    method Retire(key: nat, v: HandlePair, side: Side, ghost p: Places, ghost none: set<Handle>) returns (hit: bool)
      requires Tabled() && ListOk() && key in fdHandles.M && fdHandles.M[key] == v && Since(p, none)
      modifies this`signaled, this`at, v, at.created`next, at.created`data
      ensures Tabled() && ListOk() && Since(p, none)
      ensures hit <==> Slot(key, side) in old(at).slots
      ensures at == SignalSlot(old(at), Slot(key, side), none) && at.slots == old(at).slots - {Slot(key, side)}
    {
      var s := if side.Reads? then v.readHandle else v.writeHandle;
      SignalFrom(key, s, side, p, none);
      hit := s != null;
      ClearSlot(key, v, side);
    }

    method RetireEvents(key: nat, v: HandlePair, ev: Events, ghost p: Places, ghost none: set<Handle>)
        returns (hit: bool)
      requires Tabled() && ListOk() && key in fdHandles.M && fdHandles.M[key] == v && Since(p, none)
      modifies this`signaled, this`at, v, at.created`next, at.created`data
      ensures Tabled() && ListOk() && Since(p, none)
      ensures at.slots == Left(old(at).slots, key, ev)
      ensures !hit ==> at.slots == old(at).slots
    {
      hit := RetireIf(key, v, Reads, ev.input || ev.hup || ev.err, false, p, none);
      hit := RetireIf(key, v, Writes, ev.output || ev.hup || ev.err, hit, p, none);
    }

    method RetireIf(key: nat, v: HandlePair, side: Side, reported: bool, hit0: bool,
                    ghost p: Places, ghost none: set<Handle>)
        returns (hit: bool)
      requires Tabled() && ListOk() && key in fdHandles.M && fdHandles.M[key] == v && Since(p, none)
      modifies this`signaled, this`at, v, at.created`next, at.created`data
      ensures Tabled() && ListOk() && Since(p, none)
      ensures at.slots == if reported then old(at).slots - {Slot(key, side)} else old(at).slots
      ensures hit0 ==> hit
      ensures !hit ==> at.slots == old(at).slots
    {
      hit := hit0;
      if reported {
        var hit' := Retire(key, v, side, p, none);
        assert !hit' ==> at.slots == old(at).slots;
        hit := hit || hit';
      }
    }

    /** The mask is brought back in line with the handles that are left. */
    method Rewatch(key: nat, v: HandlePair)
      requires Tabled() && ListOk() && key in fdHandles.M && fdHandles.M[key] == v
      requires NoEmptyPairBut(key)
      requires key in epoll.interest && AgreesBut(epoll.interest, at.slots, key)
      modifies epoll`interest, fdHandles, fdHandles.buckets
      ensures Valid() && (fdHandles.buckets == old(fdHandles.buckets) || fresh(fdHandles.buckets))
    {
      if v.readHandle == null && v.writeHandle == null {
        DropPair(key, false);
        CtlDel(key);
      } else {
        CtlMod(key, Interest(v.readHandle != null, v.writeHandle != null));
      }
    }

    method PollPair(key: nat, v: HandlePair, ev: Events, ghost p: Places, ghost none: set<Handle>) returns (hit: bool)
      requires Valid() && key in fdHandles.M && fdHandles.M[key] == v && key in epoll.interest && Since(p, none)
      modifies this`signaled, this`at, pairs, at.created`next, at.created`data, epoll`interest, fdHandles, fdHandles.buckets
      ensures Valid() && (fdHandles.buckets == old(fdHandles.buckets) || fresh(fdHandles.buckets))
      ensures Since(p, none) && at.slots == Left(old(at).slots, key, ev)
      ensures !hit ==> at.slots == old(at).slots
    {
      ghost var slots := at.slots;
      hit := RetireEvents(key, v, ev, p, none);
      RewatchLeft(key, v, slots, ev, p, none);
    }

    method RewatchLeft(key: nat, v: HandlePair, ghost slots: map<Slot, Handle>, ghost ev: Events,
                       ghost p: Places, ghost none: set<Handle>)
      requires Since(p, none)
      requires Tabled() && ListOk() && key in fdHandles.M && fdHandles.M[key] == v
      requires at.slots == Left(slots, key, ev) && forall k :: k in fdHandles.M ==> Occupied(slots, k)
      requires key in epoll.interest && KernelAgrees(epoll.interest, slots)
      modifies epoll`interest, fdHandles, fdHandles.buckets
      ensures Valid() && (fdHandles.buckets == old(fdHandles.buckets) || fresh(fdHandles.buckets))
      ensures Since(p, none) && at == old(at)
    {
      LeftKeepsOthers(epoll.interest, slots, key, ev);
      Rewatch(key, v);
    }

    /** One reported event always retires a handle, so polling makes progress. */
    method PollOne(key: nat, ev: Events, ghost p: Places, ghost none: set<Handle>) returns (hit: bool)
      requires Valid() && key in epoll.interest && Since(p, none)
      requires (ev.input ==> epoll.interest[key].input) && (ev.output ==> epoll.interest[key].output) && Anything(ev)
      modifies this`signaled, this`at, pairs, at.created`next, at.created`data, epoll`interest, fdHandles, fdHandles.buckets
      ensures Valid() && (fdHandles.buckets == old(fdHandles.buckets) || fresh(fdHandles.buckets))
      ensures Since(p, none) && hit && |at.slots| < |old(at).slots|
      ensures at.slots == Left(old(at).slots, key, ev)
    {
      LeftIsFewer(epoll.interest, at.slots, key, ev);
      hit := PollKey(key, ev, p, none);
    }

    method PollKey(key: nat, ev: Events, ghost p: Places, ghost none: set<Handle>) returns (hit: bool)
      requires Valid() && key in epoll.interest && Since(p, none)
      modifies this`signaled, this`at, pairs, at.created`next, at.created`data, epoll`interest, fdHandles, fdHandles.buckets
      ensures Valid() && (fdHandles.buckets == old(fdHandles.buckets) || fresh(fdHandles.buckets))
      ensures Since(p, none) && at.slots == Left(old(at).slots, key, ev)
      ensures !hit ==> at.slots == old(at).slots
    {
      var v := LookupPair(key);
      hit := PollPair(key, v, ev, p, none);
    }

    /** `rktio_ltps_poll`: drain the events; the live handles bound the loop. */
    method Poll() returns (hit: bool)
      requires Valid()
      modifies this`signaled, this`at, pairs, at.created`next, at.created`data
      modifies epoll`interest, epoll`ready, fdHandles, fdHandles.buckets
      ensures Valid() && (fdHandles.buckets == old(fdHandles.buckets) || fresh(fdHandles.buckets))
      ensures Progress(old(at), at, hit) && OnlySignaled(old(at), at, old(Unset(at.created)))
      // exactly the handles for which something is ready leave their slots, and nothing that was ready is missed
      ensures old(epoll.ready) <= epoll.ready
      ensures fd >= 0 ==> forall k :: k in at.slots <==> k in old(at).slots && !Due(epoll.ready, k)
      ensures fd < 0 ==> at == old(at)
      // a handle that has left its slot waits on the list, or is retired if it has an automatic mode
      ensures forall h :: h in old(at).slots.Values && h !in at.slots.Values ==>
                if h.autoMode.HandleNone? then h in at.chain else h in at.retired
      // and no other handle has come there
      ensures forall h :: h in at.chain && h !in old(at).chain ==>
                h in old(at).slots.Values && h !in at.slots.Values && h.autoMode.HandleNone?
      ensures forall h :: h in at.retired && h !in old(at).retired ==>
                h in old(at).slots.Values && h !in at.slots.Values && !h.autoMode.HandleNone?
    {
      hit := false;
      SinceNow();
      if fd >= 0 {
        hit := Drain();
      }
      WhereSignaled(old(at), at, old(Unset(at.created)));
    }

    /** One turn of the loop; false when no event is left. */
    method PollStep(ghost p: Places, ghost none: set<Handle>) returns (some: bool)
      requires Valid() && Since(p, none) && DueOnly(p.slots, at.slots, epoll.ready)
      modifies this`signaled, this`at, pairs, at.created`next, at.created`data
      modifies epoll`interest, epoll`ready, fdHandles, fdHandles.buckets
      ensures Valid() && (fdHandles.buckets == old(fdHandles.buckets) || fresh(fdHandles.buckets))
      ensures Since(p, none) && Progress(old(at), at, some)
      ensures DueOnly(p.slots, at.slots, epoll.ready) && old(epoll.ready) <= epoll.ready
      ensures !some ==> NoneDue(at.slots, epoll.ready)
    {
      var key, ev;
      some, key, ev := NextEvent(p, none);
      if some {
        HandleEvent(key, ev, p, none);
      }
    }

    method HandleEvent(key: nat, ev: Events, ghost p: Places, ghost none: set<Handle>)
      requires Valid() && key in epoll.interest && Since(p, none)
      requires (ev.input ==> epoll.interest[key].input) && (ev.output ==> epoll.interest[key].output) && Anything(ev)
      requires DueOnly(p.slots, Left(at.slots, key, ev), epoll.ready)
      modifies this`signaled, this`at, pairs, at.created`next, at.created`data, epoll`interest, fdHandles, fdHandles.buckets
      ensures Valid() && (fdHandles.buckets == old(fdHandles.buckets) || fresh(fdHandles.buckets))
      ensures Since(p, none) && |at.slots| < |old(at).slots| && DueOnly(p.slots, at.slots, epoll.ready)
    {
      var hit := PollOne(key, ev, p, none);
    }

    /** `epoll_wait`, and whom the event is for. */
    method NextEvent(ghost p: Places, ghost none: set<Handle>) returns (some: bool, key: int, ev: Events)
      requires Valid() && Since(p, none) && DueOnly(p.slots, at.slots, epoll.ready)
      modifies epoll`ready
      ensures Valid() && Since(p, none) && old(epoll.ready) <= epoll.ready
      ensures some ==> key >= 0 && key in epoll.interest && Anything(ev)
      ensures some ==> (ev.input ==> epoll.interest[key].input) && (ev.output ==> epoll.interest[key].output)
      ensures some ==> DueOnly(p.slots, Left(at.slots, key, ev), epoll.ready)
      ensures !some ==> DueOnly(p.slots, at.slots, epoll.ready) && NoneDue(at.slots, epoll.ready)
    {
      some, key, ev := epoll.Wait();
      MoreReady(p.slots, at.slots, old(epoll.ready), epoll.ready);
      if some {
        ReportedDue(p.slots, at.slots, epoll.ready, epoll.interest, key);
        fdHandles.KeysNonNegative(key);
      } else {
        UnreportedNotDue(at.slots, epoll.ready, epoll.interest);
      }
    }

    method Drain() returns (hit: bool)
      requires Valid()
      modifies this`signaled, this`at, pairs, at.created`next, at.created`data
      modifies epoll`interest, epoll`ready, fdHandles, fdHandles.buckets
      ensures Valid() && (fdHandles.buckets == old(fdHandles.buckets) || fresh(fdHandles.buckets))
      ensures Since(old(at), old(Unset(at.created))) && Progress(old(at), at, hit)
      ensures DueOnly(old(at).slots, at.slots, epoll.ready) && old(epoll.ready) <= epoll.ready
      ensures NoneDue(at.slots, epoll.ready)
    {
      var some := true;
      hit := false;
      ghost var p, none := at, Unset(at.created);
      SinceNow();
      while some
        invariant Valid() && (fdHandles.buckets == old(fdHandles.buckets) || fresh(fdHandles.buckets))
        invariant Since(p, none) && Progress(p, at, hit)
        invariant DueOnly(p.slots, at.slots, epoll.ready) && old(epoll.ready) <= epoll.ready
        invariant !some ==> NoneDue(at.slots, epoll.ready)
        decreases some, |at.slots|
      {
        some := PollStep(p, none);
        hit := hit || some;
      }
    }

    /** One bucket of the scan: both handles of its pair, if it is filled, are signaled. */
    method RemoveBucket(i: nat, ghost p: Places, ghost none: set<Handle>)
      requires Tabled() && ListOk() && Since(p, none)
      requires fdHandles.buckets != null && i < fdHandles.size && fdHandles.EmptyBelow(i)
      modifies this`signaled, this`at, at.created`next, at.created`data, fdHandles, fdHandles.buckets
      ensures Tabled() && ListOk() && Since(p, none)
      ensures fdHandles.buckets == old(fdHandles.buckets) && fdHandles.size == old(fdHandles.size)
      ensures fdHandles.EmptyBelow(i + 1)
    {
      var key := fdHandles.GetKey(i);
      if key != -1 {
        RemoveInPlace(key, i, p, none);
      } else {
        fdHandles.ScanSkips(i);
      }
    }

    method RemoveInPlace(key: nat, ghost i: nat, ghost p: Places, ghost none: set<Handle>)
      requires Tabled() && ListOk() && key in fdHandles.M && Since(p, none)
      requires fdHandles.buckets != null && i < fdHandles.size && fdHandles.EmptyBelow(i)
      requires fdHandles.buckets[i].key == key
      modifies this`signaled, this`at, at.created`next, at.created`data, fdHandles, fdHandles.buckets
      ensures Tabled() && ListOk() && Since(p, none)
      ensures fdHandles.buckets == old(fdHandles.buckets) && fdHandles.size == old(fdHandles.size)
      ensures fdHandles.EmptyBelow(i + 1)
    {
      var v := fdHandles.Get(key);
      SignalBoth(key, v.value, p, none);
      assert !Occupied(at.slots, key);
      DropPair(key, true);
      fdHandles.ScanEmpties(i, key, old(fdHandles.buckets), old(fdHandles.size), old(fdHandles.Buckets()));
    }

    lemma NoneOccupied(slots: map<Slot, Handle>)
      requires forall k :: !Occupied(slots, k)
      ensures slots == map[]
    {
      forall k | k in slots ensures Occupied(slots, k.fd) {
        match k.side {
          case Reads =>
          case Writes =>
        }
      }
    }

    /** `rktio_ltps_remove_all`: every live handle is signaled and the table is emptied;
        the kernel's registrations stay. */
    method RemoveAll()
      requires Tabled() && ListOk()
      modifies this`signaled, this`at, at.created`next, at.created`data, fdHandles, fdHandles.buckets
      ensures Tabled() && ListOk() && OnlySignaled(old(at), at, old(Unset(at.created)))
      ensures at.slots == map[] && fdHandles.M == map[]
      ensures fdHandles.buckets == old(fdHandles.buckets)
    {
      var sz, i := fdHandles.size, 0;
      ghost var p, none := at, Unset(at.created);
      SinceNow();
      while i < sz
        invariant 0 <= i <= sz == fdHandles.size && fdHandles.buckets == old(fdHandles.buckets)
        invariant Tabled() && ListOk() && Since(p, none)
        invariant fdHandles.EmptyBelow(i)
      {
        RemoveBucket(i, p, none);
        i := i + 1;
      }
      fdHandles.NoneFilled();
      NoneOccupied(at.slots);
    }

    /** `rktio_ltps_close`: every handle still on the list is freed, so that all the
        handles there have been end up retired. */
    method Close()
      requires Valid()
      modifies this`signaled, this`at, at.created`next, at.created`data, fdHandles, fdHandles.buckets
      ensures at.created == old(at).created == at.retired && at.slots == map[] && at.chain == []
    {
      RemoveAll();
      var freed := Collect();
    }

    /** Asking until null comes: the handles are those on the list, the newest first. */
    method Collect() returns (handles: seq<Handle>)
      requires ListOk()
      modifies this`signaled, this`at
      ensures ListOk() && handles == old(at).chain && at == Returned(old(at), |handles|)
    {
      ghost var p := at;
      handles := [];
      ReturnedNone(p);
      var s := Ask(p, []);
      while s != null
        invariant ListOk() && Collected(p, handles, s, at)
        decreases |p.chain| - |handles|, s != null
      {
        handles := handles + [s];
        s := Ask(p, handles);
      }
    }

    method Ask(ghost p: Places, ghost handles: seq<Handle>) returns (s: Handle?)
      requires ListOk() && handles <= p.chain && at == Returned(p, |handles|)
      modifies this`signaled, this`at
      ensures ListOk() && Collected(p, handles, s, at)
    {
      if |handles| < |p.chain| {
        ReturnedOneMore(p, |handles|);
      }
      s := GetSignaledHandle();
    }

    /** What a poll has signaled is what the client then gets, and each handle once. */
    method PollAndCollect() returns (handles: seq<Handle>)
      requires Valid()
      modifies this`signaled, this`at, pairs, at.created`next, at.created`data
      modifies epoll`interest, epoll`ready, fdHandles, fdHandles.buckets
      ensures NoRepeats(handles) && at.chain == [] && Elements(handles) <= at.retired
      ensures forall h ::
        h in handles <==> (
          || h in old(at).chain
          || (h in old(at).slots.Values && h !in at.slots.Values && h in old(Unset(at.created))))
    {
      ghost var p, none := at, Unset(at.created);
      var hit := Poll();
      ListedExactly(p, at, none);
      handles := Collect();
    }
  }
}
