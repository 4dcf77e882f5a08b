/**
 * The record behind a blocking open (`rktio_file.c`): one thread opens the file, while others hold
 * references to the record, and whoever leaves last frees it.
 */
module OpenProtocol {
  import opened Options

  /**
   * Where the opening thread stands. Its cleanup handler is in place from the start until `Cleaning`,
   * which is entered by `pthread_cleanup_pop`, or by a cancellation; a thread is cancelled only once.
   */
  datatype Phase =
    | Started                                 // the record's `ready` is not set yet
    | Ready                                   // it is, but `fd` still has the zero of `calloc`
    | Opening                                 // in `open`
    | Returned(result: int)                   // from `open`, with a descriptor or -1
    | Stored                                  // `fd` is set
    | Cleaning(byCancel: bool)                // the handler waits for the lock
    | Finishing(last: bool, byCancel: bool)   // `done` is set; `last` when there were no references
    | Freeing(byCancel: bool)                 // the last one has closed the descriptor
    | Exited

  /**
   * The record, and what has happened to it. `cancelled` tells that `pthread_cancel` has been called;
   * `finishing` that a release has found itself last, and whether it will close the descriptor.
   */
  datatype State = State(
    phase: Phase, ready: bool, done: bool, fd: int, refcount: int,
    refs: nat, cancelled: bool, finishing: Option<bool>,
    obtained: int, handed: nat, closed: seq<int>, freed: nat, misused: bool)

  const INIT := State(Started, false, false, 0, 1, 1, false, None, -1, 0, [], 0, false)

  datatype Event =
    | Publish
    | Arm
    | OpenReturns(result: int)
    | Store
    | EnterCleanup
    | CancelActs
    | CleanupLocked
    | CleanupRest
    | CleanupFree
    | Retain
    | Poll
    | Release
    | FinishRelease

  /** The handler runs, and not because of a cancellation. */
  predicate RunsHandler(phase: Phase) {
    match phase
    case Cleaning(byCancel) => !byCancel
    case Finishing(_, byCancel) => !byCancel
    case Freeing(byCancel) => !byCancel
    case _ => false
  }

  /**
   * When a cancellation can take effect. `masked` is what the comments in `do_open_in_thread` ask for;
   * as it is written, the thread can be cancelled at any time.
   */
  predicate Cancellable(phase: Phase, masked: bool) {
    phase.Opening? || (!masked && (phase.Ready? || phase.Returned? || phase.Stored? || RunsHandler(phase)))
  }

  predicate Enabled(s: State, e: Event, masked: bool) {
    match e
    case Publish => s.phase.Started?
    case Arm => s.phase.Ready?
    case OpenReturns(result) => s.phase.Opening? && result >= -1
    case Store => s.phase.Returned?
    case EnterCleanup => s.phase.Stored?
    case CancelActs => s.cancelled && Cancellable(s.phase, masked)
    case CleanupLocked => s.phase.Cleaning?
    case CleanupRest => s.phase.Finishing?
    case CleanupFree => s.phase.Freeing?
    case Retain => s.ready && s.refs > 0
    case Poll => s.ready && s.refs > 0
    case Release => s.ready && s.refs > 0
    case FinishRelease => s.finishing.Some?
  }

  /** Whether an event reads or writes the record. */
  predicate Touches(s: State, e: Event) {
    match e
    case EnterCleanup => false
    case CancelActs => false
    case CleanupRest => s.phase.Finishing? && s.phase.last
    case _ => true
  }

  function Close(s: State): State {
    if s.fd != -1 then s.(closed := s.closed + [s.fd]) else s
  }

  /** `do_pending_open_release`, up to its unlock. */
  function Drop(s: State, closing: bool): State
    requires s.refs > 0
  {
    var t := s.(refcount := s.refcount - 1, refs := s.refs - 1);
    if t.done && t.refcount == 0 then t.(finishing := Some(closing))
    else if t.refcount == 0 then t.(cancelled := true)
    else t
  }

  function Effect(s: State, e: Event, masked: bool): State
    requires Enabled(s, e, masked)
  {
    match e
    case Publish => s.(phase := Ready, ready := true)
    case Arm => s.(phase := Opening, fd := -1)
    case OpenReturns(result) => s.(phase := Returned(result), obtained := result)
    case Store => s.(phase := Stored, fd := s.phase.result)
    case EnterCleanup => s.(phase := Cleaning(false))
    case CancelActs => s.(phase := if RunsHandler(s.phase) then Exited else Cleaning(true))
    case CleanupLocked => s.(phase := Finishing(s.refcount == 0, s.phase.byCancel), done := true)
    case CleanupRest => if s.phase.last then Close(s).(phase := Freeing(s.phase.byCancel)) else s.(phase := Exited)
    case CleanupFree => s.(phase := Exited, freed := s.freed + 1)
    case Retain => s.(refcount := s.refcount + 1, refs := s.refs + 1)
    case Poll => if s.done && s.fd != -1 then Drop(s.(handed := s.handed + 1), false) else s
    case Release => Drop(s, true)
    case FinishRelease =>
      (if s.finishing.value then Close(s) else s).(finishing := None, freed := s.freed + 1)
  }

  function Do(s: State, e: Event, masked: bool): State
    requires Enabled(s, e, masked)
  {
    Effect(s, e, masked).(misused := s.misused || (Touches(s, e) && s.freed > 0))
  }

  predicate Legal(s: State, es: seq<Event>, masked: bool)
    decreases |es|
  {
    es == [] || (Enabled(s, es[0], masked) && Legal(Do(s, es[0], masked), es[1..], masked))
  }

  function After(s: State, es: seq<Event>, masked: bool): State
    requires Legal(s, es, masked)
    decreases |es|
  {
    if es == [] then s else After(Do(s, es[0], masked), es[1..], masked)
  }

  /** No step of the run is a bad one. */
  predicate Free(s: State, es: seq<Event>, masked: bool, bad: (State, Event) -> bool)
    requires Legal(s, es, masked)
    decreases |es|
  {
    es == [] || (!bad(s, es[0]) && Free(Do(s, es[0], masked), es[1..], masked, bad))
  }

  /** The thread is gone, and so are all references. */
  predicate Over(s: State) {
    s.phase.Exited? && s.refs == 0 && s.finishing.None?
  }

  // Steps that matter

  /** A cancellation that ends the handler. */
  predicate CutsShort(s: State, e: Event) {
    e.CancelActs? && RunsHandler(s.phase)
  }

  /** A cancellation between a descriptor and its place in the record, or before it is closed. */
  predicate Misplaces(s: State, e: Event) {
    e.CancelActs? &&
    match s.phase
    case Ready => true
    case Returned(result) => result != -1
    case Cleaning(byCancel) => !byCancel && s.obtained != -1
    case Finishing(_, byCancel) => !byCancel && s.obtained != -1
    case _ => false
  }

  /** A poll that takes the descriptor while others have references. */
  predicate TakesShared(s: State, e: Event) {
    e.Poll? && s.done && s.fd != -1 && s.refs > 1
  }

  predicate Wastes(s: State, e: Event) {
    Misplaces(s, e) || TakesShared(s, e)
  }

  /** A reference that is given up after a descriptor has been handed over. */
  predicate DropsAfterHandOver(s: State, e: Event) {
    s.handed > 0 && (e.Release? || (e.Poll? && s.done && s.fd != -1))
  }

  /** The last reference is dropped although the thread is not done. */
  predicate DropsEarly(s: State, e: Event) {
    e.Release? && s.refs == 1 && !s.done
  }
}

module OpenSafety {
  import opened Options
  import opened OpenProtocol

  predicate Past(phase: Phase) {
    phase.Exited? || (phase.Finishing? && !phase.last)
  }

  /** What every step keeps, whatever cancellation does: freed at most once, and never touched afterwards. */
  predicate Lifetime(s: State) {
    && !s.misused && s.freed <= 1 && s.refcount == s.refs
    && (s.freed == 1 || s.finishing.Some? ==> s.refs == 0 && s.done && Past(s.phase))
    && (s.freed == 1 ==> s.finishing.None?) && (s.finishing.Some? ==> s.freed == 0)
    && ((s.phase.Finishing? && s.phase.last) || s.phase.Freeing? ==> s.refs == 0 && s.freed == 0)
  }

  predicate Progress(s: State) {
    && (s.done ==> s.phase.Finishing? || s.phase.Freeing? || s.phase.Exited?)
    && (s.phase.Finishing? || s.phase.Freeing? ==> s.done)
    && (s.ready <==> !s.phase.Started?) && (!s.ready ==> s.refs == 1)
    && (s.cancelled ==> s.refs == 0 && !(s.phase.Finishing? && !s.phase.last) && s.finishing.None?)
    && (s.refs == 0 && !s.done ==> s.cancelled)
    && (s.refs > 0 && s.phase.Exited? ==> s.done)
  }

  /** While anybody can ask for it, the record has the descriptor from `Stored` on. */
  predicate Descriptor(s: State) {
    && s.obtained >= -1
    && (s.phase.Started? || s.phase.Ready? || s.phase.Opening? ==> s.obtained == -1)
    && (s.phase.Started? || s.phase.Ready? ==> s.fd == 0)
    && (s.phase.Opening? || s.phase.Returned? ==> s.fd == -1)
    && (s.phase.Returned? ==> s.obtained == s.phase.result)
    && (s.phase.Stored? || s.phase.Cleaning? || s.done ==> s.fd == s.obtained)
  }

  predicate Unspent(s: State) {
    && (!s.done ==> s.handed == 0 && s.closed == [])
    && ((s.phase.Finishing? && s.phase.last) || s.refs > 0 || s.finishing.Some? ==> s.closed == [])
  }

  predicate Safety(s: State) {
    && Lifetime(s) && Progress(s) && Unspent(s)
    && (s.refs > 0 || s.finishing.Some? ==> Descriptor(s))
  }

  lemma StepKeepsSafety(s: State, e: Event, masked: bool)
    requires Safety(s) && Enabled(s, e, masked)
    ensures Safety(Do(s, e, masked))
  {
  }

  lemma {:induction false} RunKeepsSafety(s: State, es: seq<Event>, masked: bool)
    requires Safety(s) && Legal(s, es, masked)
    ensures Safety(After(s, es, masked))
    decreases |es|
  {
    if es != [] {
      StepKeepsSafety(s, es[0], masked);
      RunKeepsSafety(Do(s, es[0], masked), es[1..], masked);
    }
  }

  /** In every run, masked or as written, the record is freed at most once, only at the end, and never touched after that. */
  lemma NeverFreedTwice(es: seq<Event>, masked: bool)
    requires Legal(INIT, es, masked)
    ensures var s := After(INIT, es, masked);
      && !s.misused && s.freed <= 1
      && (s.refs > 0 || !s.done ==> s.freed == 0)
  {
    RunKeepsSafety(INIT, es, masked);
  }

  // Whether the record is freed at all

  /** Somebody has freed the record, or will. */
  predicate Kept(s: State) {
    Safety(s) && (Past(s.phase) && s.refs == 0 && s.finishing.None? ==> s.freed == 1)
    && (s.phase.Exited? ==> s.done)
  }

  /** Nobody will. */
  predicate Abandoned(s: State) {
    Safety(s) && Over(s) && s.freed == 0
  }

  lemma StepKeepsOrAbandons(s: State, e: Event, masked: bool)
    requires Kept(s) && Enabled(s, e, masked)
    ensures if CutsShort(s, e) then Abandoned(Do(s, e, masked)) else Kept(Do(s, e, masked))
  {
    StepKeepsSafety(s, e, masked);
  }

  lemma NothingFollows(s: State, es: seq<Event>, masked: bool)
    requires Abandoned(s) && Legal(s, es, masked)
    ensures es == []
  {
  }

  lemma {:induction false} RunKeepsOrAbandons(s: State, es: seq<Event>, masked: bool)
    requires Kept(s) && Legal(s, es, masked)
    ensures if Free(s, es, masked, CutsShort) then Kept(After(s, es, masked)) else Abandoned(After(s, es, masked))
    decreases |es|
  {
    if es != [] {
      StepKeepsOrAbandons(s, es[0], masked);
      var t := Do(s, es[0], masked);
      if CutsShort(s, es[0]) {
        NothingFollows(t, es[1..], masked);
      } else {
        RunKeepsOrAbandons(t, es[1..], masked);
      }
    }
  }

  /**
   * When thread and references are gone, the record has been freed if and only if no cancellation has
   * ended the handler that was running already.
   */
  lemma FreedIff(es: seq<Event>, masked: bool)
    requires Legal(INIT, es, masked)
    ensures var s := After(INIT, es, masked);
      Over(s) ==> (s.freed == 1 <==> Free(INIT, es, masked, CutsShort))
  {
    RunKeepsOrAbandons(INIT, es, masked);
  }

  // What becomes of the descriptor

  /** So far, the descriptor is where it should be, and nobody has taken it who shares it. */
  predicate Tidy(s: State) {
    && Safety(s) && Descriptor(s)
    && (s.refs > 0 ==> s.handed == 0) && s.handed <= 1
    && (s.finishing == Some(true) ==> s.handed == 0) && (s.finishing == Some(false) ==> s.handed == 1)
    && (s.obtained == -1 ==> s.handed == 0 && s.closed == [])
    && (s.obtained != -1 && ((s.phase.Finishing? && s.phase.last) || !s.done) ==> s.handed == 0 && s.closed == [])
    && (s.obtained != -1 && (s.phase.Freeing? || s.freed == 1 || Over(s)) ==> s.handed + |s.closed| == 1)
    && (s.closed == [] || s.closed == [s.obtained])
    && (s.phase.Finishing? && !s.phase.last && s.refs == 0 && s.finishing.None? ==> s.freed == 1)
  }

  /** The descriptor has been lost, or another one closed, or it has two uses. */
  predicate Untidy(s: State) {
    && Safety(s)
    && (|| Lost(s) || ClosesZero(s)
        || (s.obtained >= 0 && s.done && s.fd == s.obtained
            && (s.handed > 1 || (s.handed == 1 && (s.refs > 0 || s.finishing == Some(true) || s.closed != [])))))
  }

  predicate Dying(s: State) {
    && s.refs == 0 && s.finishing.None? && s.handed == 0
    && (s.phase == Cleaning(true) || s.phase == Finishing(true, true) || s.phase == Freeing(true) || s.phase.Exited?)
  }

  predicate Lost(s: State) {
    Dying(s) && s.obtained >= 0 && s.closed == [] && (s.fd == -1 || s.phase.Exited?)
  }

  predicate ClosesZero(s: State) {
    Dying(s) && s.obtained == -1 && s.fd == 0 && s.closed == if s.phase.Freeing? || s.phase.Exited? then [0] else []
  }

  /** Each descriptor that `open` returned has one use in the end: handed over, or closed. */
  predicate UsedOnce(s: State) {
    if s.obtained == -1 then s.handed == 0 && s.closed == []
    else s.handed + |s.closed| == 1 && (s.closed == [] || s.closed == [s.obtained])
  }

  lemma StepTidies(s: State, e: Event, masked: bool)
    requires Tidy(s) && Enabled(s, e, masked)
    ensures if Wastes(s, e) then Untidy(Do(s, e, masked)) else Tidy(Do(s, e, masked))
  {
    StepKeepsSafety(s, e, masked);
  }

  lemma UntidyStays(s: State, e: Event, masked: bool)
    requires Untidy(s) && Enabled(s, e, masked)
    ensures Untidy(Do(s, e, masked))
  {
    StepKeepsSafety(s, e, masked);
  }

  lemma {:induction false} RunStaysUntidy(s: State, es: seq<Event>, masked: bool)
    requires Untidy(s) && Legal(s, es, masked)
    ensures Untidy(After(s, es, masked))
    decreases |es|
  {
    if es != [] {
      UntidyStays(s, es[0], masked);
      RunStaysUntidy(Do(s, es[0], masked), es[1..], masked);
    }
  }

  lemma {:induction false} RunTidies(s: State, es: seq<Event>, masked: bool)
    requires Tidy(s) && Legal(s, es, masked)
    ensures if Free(s, es, masked, Wastes) then Tidy(After(s, es, masked)) else Untidy(After(s, es, masked))
    decreases |es|
  {
    if es != [] {
      var t := Do(s, es[0], masked);
      StepTidies(s, es[0], masked);
      if Wastes(s, es[0]) {
        RunStaysUntidy(t, es[1..], masked);
      } else {
        RunTidies(t, es[1..], masked);
      }
    }
  }

  /**
   * In the end, what `open` returned has been handed over or closed exactly once, and nothing else has
   * been closed, if and only if no cancellation came at a wrong moment and no poll took the descriptor
   * while others had references.
   */
  lemma UsedOnceIff(es: seq<Event>, masked: bool)
    requires Legal(INIT, es, masked)
    ensures var s := After(INIT, es, masked);
      Over(s) ==> (UsedOnce(s) <==> Free(INIT, es, masked, Wastes))
  {
    RunTidies(INIT, es, masked);
  }

  // Cancellation masked, as the comments have it

  lemma {:induction false} MaskedIsHarmless(s: State, es: seq<Event>)
    requires Legal(s, es, true)
    ensures Free(s, es, true, CutsShort) && Free(s, es, true, Misplaces)
    ensures Free(s, es, true, Wastes) <==> Free(s, es, true, TakesShared)
    decreases |es|
  {
    if es != [] {
      MaskedIsHarmless(Do(s, es[0], true), es[1..]);
    }
  }

  /** Masked, the record is always freed in the end. */
  lemma FreedExactlyOnce(es: seq<Event>)
    requires Legal(INIT, es, true)
    ensures var s := After(INIT, es, true);
      && !s.misused && s.freed <= 1
      && (Over(s) ==> s.freed == 1)
  {
    NeverFreedTwice(es, true);
    FreedIff(es, true);
    MaskedIsHarmless(INIT, es);
  }

  /** Masked, only sharing can waste the descriptor. */
  lemma MaskedUsedOnceIff(es: seq<Event>)
    requires Legal(INIT, es, true)
    ensures var s := After(INIT, es, true);
      Over(s) ==> (UsedOnce(s) <==> Free(INIT, es, true, TakesShared))
  {
    UsedOnceIff(es, true);
    MaskedIsHarmless(INIT, es);
  }

  // Cancellation as the code is written

  lemma {:induction false} NoEarlyDropNoCancel(s: State, es: seq<Event>, masked: bool)
    requires Safety(s) && !s.cancelled && Legal(s, es, masked) && Free(s, es, masked, DropsEarly)
    ensures Free(s, es, masked, CutsShort) && Free(s, es, masked, Misplaces)
    ensures Free(s, es, masked, Wastes) <==> Free(s, es, masked, TakesShared)
    decreases |es|
  {
    if es != [] {
      StepKeepsSafety(s, es[0], masked);
      assert es[0].Poll? && s.done ==> !Do(s, es[0], masked).cancelled;
      NoEarlyDropNoCancel(Do(s, es[0], masked), es[1..], masked);
    }
  }

  /** Who drops the last reference only when the thread is done needs no masking. */
  lemma SafeAsWritten(es: seq<Event>)
    requires Legal(INIT, es, false) && Free(INIT, es, false, DropsEarly)
    ensures var s := After(INIT, es, false);
      Over(s) ==> s.freed == 1 && (UsedOnce(s) <==> Free(INIT, es, false, TakesShared))
  {
    NoEarlyDropNoCancel(INIT, es, false);
    FreedIff(es, false);
    UsedOnceIff(es, false);
  }

  // Shared records

  predicate NoRetain(es: seq<Event>) {
    forall e <- es :: !e.Retain?
  }

  lemma {:induction false} SingleNeverShares(s: State, es: seq<Event>, masked: bool)
    requires Legal(s, es, masked) && NoRetain(es) && s.refs <= 1
    ensures Free(s, es, masked, TakesShared)
    decreases |es|
  {
    if es != [] {
      assert es[0] in es && forall e <- es[1..] :: e in es;
      SingleNeverShares(Do(s, es[0], masked), es[1..], masked);
    }
  }

  /** With a single reference and masking, the descriptor is always handed over or closed, once. */
  lemma DescriptorAccountedFor(es: seq<Event>)
    requires Legal(INIT, es, true) && NoRetain(es)
    ensures var s := After(INIT, es, true); Over(s) ==> UsedOnce(s)
  {
    SingleNeverShares(INIT, es, true);
    MaskedUsedOnceIff(es);
  }

  /** A reference that stays behind after a hand-over is given up later. */
  lemma {:induction false} LeftoversDrop(s: State, es: seq<Event>, masked: bool)
    requires Safety(s) && s.handed > 0 && s.refs > 0 && Legal(s, es, masked) && After(s, es, masked).refs == 0
    ensures !Free(s, es, masked, DropsAfterHandOver)
    decreases |es|
  {
    var t := Do(s, es[0], masked);
    StepKeepsSafety(s, es[0], masked);
    if t.refs > 0 {
      LeftoversDrop(t, es[1..], masked);
    }
  }

  lemma {:induction false} DropsAreShared(s: State, es: seq<Event>, masked: bool)
    requires Safety(s) && (s.handed == 0 || s.refs == 0) && Legal(s, es, masked) && After(s, es, masked).refs == 0
    ensures Free(s, es, masked, TakesShared) <==> Free(s, es, masked, DropsAfterHandOver)
    decreases |es|
  {
    if es != [] {
      var t := Do(s, es[0], masked);
      StepKeepsSafety(s, es[0], masked);
      if t.handed == 0 || t.refs == 0 {
        DropsAreShared(t, es[1..], masked);
      } else {
        LeftoversDrop(t, es[1..], masked);
      }
    }
  }

  /** The same condition, told by the holders: nobody gives up a reference once the descriptor is handed over. */
  lemma UsedOnceIffNoDropAfterHandOver(es: seq<Event>)
    requires Legal(INIT, es, true)
    ensures var s := After(INIT, es, true);
      Over(s) ==> (UsedOnce(s) <==> Free(INIT, es, true, DropsAfterHandOver))
  {
    MaskedUsedOnceIff(es);
    if Over(After(INIT, es, true)) {
      DropsAreShared(INIT, es, true);
    }
  }

  /** What the thread and the last release have left to do. */
  function Remaining(s: State): nat {
    (match s.phase
     case Started => 9
     case Ready => 8
     case Opening => 7
     case Returned(_) => 6
     case Stored => 5
     case Cleaning(_) => 4
     case Finishing(_, _) => 3
     case Freeing(_) => 2
     case Exited => 0)
    + if s.finishing.Some? then 1 else 0
  }

  /**
   * Nobody waits for ever: with no references left, and no handler cut short, something can happen, and
   * brings the record nearer to being freed.
   */
  lemma NoneLeftBehind(es: seq<Event>, masked: bool) returns (e: Event)
    requires Legal(INIT, es, masked) && Free(INIT, es, masked, CutsShort)
    requires var s := After(INIT, es, masked); s.refs == 0 && s.freed == 0
    ensures var s := After(INIT, es, masked);
      && Enabled(s, e, masked) && !e.OpenReturns? && !CutsShort(s, e)
      && Remaining(Do(s, e, masked)) < Remaining(s) && Do(s, e, masked).refs == 0
  {
    var s := After(INIT, es, masked);
    RunKeepsOrAbandons(INIT, es, masked);
    e := match s.phase
      case Started => Publish
      case Ready => Arm
      case Opening => CancelActs
      case Returned(_) => Store
      case Stored => EnterCleanup
      case Cleaning(_) => CleanupLocked
      case Finishing(_, _) => CleanupRest
      case Freeing(_) => CleanupFree
      case Exited => FinishRelease;
  }

  // Runs in which the conditions fail

  lemma {:induction false} AfterMore(s: State, es: seq<Event>, e: Event, masked: bool)
    requires Legal(s, es, masked) && Enabled(After(s, es, masked), e, masked)
    ensures Legal(s, es + [e], masked) && After(s, es + [e], masked) == Do(After(s, es, masked), e, masked)
    decreases |es|
  {
    if es == [] {
      assert [e][1..] == [] && es + [e] == [e];
    } else {
      assert (es + [e])[1..] == es[1..] + [e];
      AfterMore(Do(s, es[0], masked), es[1..], e, masked);
    }
  }

  /** With cancellation at any time, a cancelled handler leaves the record and the descriptor behind for ever. */
  lemma UnmaskedLeaks() returns (es: seq<Event>, s: State)
    ensures Legal(INIT, es, false) && s == After(INIT, es, false)
    ensures Over(s) && s.freed == 0 && s.obtained == 5 && s.handed == 0 && s.closed == []
  {
    es, s := [], INIT;
    es, s := One(es, s, Publish, false);
    es, s := One(es, s, Arm, false);
    es, s := One(es, s, OpenReturns(5), false);
    es, s := One(es, s, Store, false);
    es, s := One(es, s, EnterCleanup, false);
    es, s := One(es, s, Release, false);
    es, s := One(es, s, CancelActs, false);
  }

  /** Or the thread closes descriptor 0, which it has never opened. */
  lemma UnmaskedClosesZero() returns (es: seq<Event>, s: State)
    ensures Legal(INIT, es, false) && s == After(INIT, es, false)
    ensures s.obtained == -1 && s.closed == [0]
  {
    es, s := [], INIT;
    es, s := One(es, s, Publish, false);
    es, s := One(es, s, Release, false);
    es, s := One(es, s, CancelActs, false);
    es, s := One(es, s, CleanupLocked, false);
    es, s := One(es, s, CleanupRest, false);
  }

  /** Two references can both be handed the same descriptor, even with cancellation masked. */
  lemma SharedIsHandedTwice() returns (es: seq<Event>, s: State)
    ensures Legal(INIT, es, true) && s == After(INIT, es, true)
    ensures s.handed == 2
  {
    es, s := [], INIT;
    es, s := One(es, s, Publish, true);
    es, s := One(es, s, Retain, true);
    es, s := One(es, s, Arm, true);
    es, s := One(es, s, OpenReturns(5), true);
    es, s := One(es, s, Store, true);
    es, s := One(es, s, EnterCleanup, true);
    es, s := One(es, s, CleanupLocked, true);
    es, s := One(es, s, Poll, true);
    es, s := One(es, s, Poll, true);
  }

  lemma One(es: seq<Event>, s: State, e: Event, masked: bool) returns (es': seq<Event>, s': State)
    requires Legal(INIT, es, masked) && s == After(INIT, es, masked) && Enabled(s, e, masked)
    ensures es' == es + [e] && s' == Do(s, e, masked)
    ensures Legal(INIT, es', masked) && s' == After(INIT, es', masked)
  {
    AfterMore(INIT, es, e, masked);
    es', s' := es + [e], Do(s, e, masked);
  }
}

/** The record itself; each method is one step, or several that nothing can come between. */
module OpenRecords {
  import opened Options
  import opened OpenProtocol
  import opened OpenSafety

  datatype PollResult = Blocked | OpenFailed | Opened(fd: int)

  class OpenInThread {
    var ready: bool
    var done: bool
    var fd: int
    var refcount: int

    ghost var state: State
    ghost const masked: bool

    ghost predicate Valid()
      reads this
    {
      && Safety(state)
      && ready == state.ready && done == state.done && fd == state.fd && refcount == state.refcount
    }

    /** The record as `open_via_thread` makes it. */
    constructor (ghost masked: bool)
      ensures Valid() && state == INIT && this.masked == masked
    {
      ready, done, fd, refcount := false, false, 0, 1;
      state, this.masked := INIT, masked;
    }

    /** A step of the thread that leaves the record as it is. */
    ghost method Step(e: Event)
      requires Valid() && Enabled(state, e, masked)
      requires e.OpenReturns? || e.EnterCleanup? || e.CancelActs?
      modifies this`state
      ensures Valid() && state == Do(old(state), e, masked)
    {
      StepKeepsSafety(state, e, masked);
      state := Do(state, e, masked);
    }

    /** `do_open_in_thread` up to `open`, then what it stores. */
    method PublishReady()
      requires Valid() && state.phase.Started?
      modifies this
      ensures Valid() && state == Do(old(state), Publish, masked)
    {
      ready := true;
      StepKeepsSafety(state, Publish, masked);
      state := Do(state, Publish, masked);
    }

    method ArmForOpen()
      requires Valid() && state.phase.Ready?
      modifies this
      ensures Valid() && state == Do(old(state), Arm, masked)
    {
      fd := -1;
      StepKeepsSafety(state, Arm, masked);
      state := Do(state, Arm, masked);
    }

    method StoreFd(result: int)
      requires Valid() && state.phase == Returned(result)
      modifies this
      ensures Valid() && state == Do(old(state), Store, masked)
    {
      fd := result;
      StepKeepsSafety(state, Store, masked);
      state := Do(state, Store, masked);
    }

    /** `cleanup_open_thread`, first with the lock held and then without it. */
    method CleanupWithLock() returns (count: int)
      requires Valid() && state.phase.Cleaning?
      modifies this
      ensures Valid() && state == Do(old(state), CleanupLocked, masked)
      ensures state.phase.Finishing? && (state.phase.last <==> count == 0)
    {
      count := refcount;
      done := true;
      StepKeepsSafety(state, CleanupLocked, masked);
      state := Do(state, CleanupLocked, masked);
    }

    /** The descriptor is closed by the last; `freeing` tells that the record is still to be freed. */
    method CleanupWithoutLock(count: int) returns (closed: seq<int>, freeing: bool)
      requires Valid() && state.phase.Finishing? && (state.phase.last <==> count == 0)
      modifies this`state
      ensures Valid() && state == Do(old(state), CleanupRest, masked) && state.closed == old(state.closed) + closed
      ensures (freeing <==> state.phase.Freeing?) && (!freeing ==> closed == [])
    {
      closed, freeing := [], count == 0;
      if freeing && fd != -1 {
        closed := [fd];
      }
      StepKeepsSafety(state, CleanupRest, masked);
      state := Do(state, CleanupRest, masked);
    }

    /** `free_open_in_thread` at the end of the thread */
    method CleanupFreeing()
      requires Valid() && state.phase.Freeing?
      modifies this`state
      ensures Valid() && state == Do(old(state), CleanupFree, masked) && state.freed == 1 && !state.misused
    {
      StepKeepsSafety(state, CleanupFree, masked);
      state := Do(state, CleanupFree, masked);
    }

    /** `rktio_pending_open_retain` */
    method RetainRecord()
      requires Valid() && Enabled(state, Retain, masked)
      modifies this
      ensures Valid() && state == Do(old(state), Retain, masked)
    {
      refcount := refcount + 1;
      StepKeepsSafety(state, Retain, masked);
      state := Do(state, Retain, masked);
    }

    /** `do_pending_open_release` with the lock held; the thread is to be cancelled when `cancel` is set. */
    method DropWithLock(ghost e: Event) returns (bye: bool, cancel: bool)
      requires Valid() && Enabled(state, e, masked) && (e.Release? || (e.Poll? && done && fd != -1))
      modifies this
      ensures Valid() && state == Do(old(state), e, masked)
      ensures bye <==> state.finishing.Some?
      ensures cancel ==> state.cancelled
      ensures cancel <==> state.refs == 0 && !done
    {
      refcount := refcount - 1;
      bye := done && refcount == 0;
      cancel := !bye && refcount == 0;
      StepKeepsSafety(state, e, masked);
      state := Do(state, e, masked);
    }

    /** The rest of the last release. */
    method FreeRecord(closing: bool) returns (closed: seq<int>)
      requires Valid() && state.finishing == Some(closing)
      modifies this`state
      ensures Valid() && state == Do(old(state), FinishRelease, masked) && state.closed == old(state.closed) + closed
      ensures closed == if closing && fd != -1 then [fd] else []
      ensures state.freed == 1 && !state.misused
    {
      closed := if closing && fd != -1 then [fd] else [];
      StepKeepsSafety(state, FinishRelease, masked);
      state := Do(state, FinishRelease, masked);
    }

    /** `rktio_pending_open_poll`: a result comes only when the thread is done, and a descriptor ends the reference. */
    method PollRecord() returns (r: PollResult)
      requires Valid() && Enabled(state, Poll, masked)
      modifies this
      ensures Valid() && (r.Blocked? <==> !old(state.done))
      ensures r.OpenFailed? <==> old(state.done) && old(state.obtained) == -1
      ensures r.Opened? ==> r.fd == old(state.obtained)
      ensures r.Opened? ==> state.handed == old(state.handed) + 1 && state.refs == old(state.refs) - 1
      ensures !r.Opened? ==> unchanged(this)
      ensures state.freed == (if r.Opened? && old(state.refs) == 1 then 1 else 0) && state.closed == old(state.closed)
    {
      if !done {
        r := Blocked;
      } else if fd == -1 {
        r := OpenFailed;
      } else {
        r := Opened(fd);
        var bye, cancel := DropWithLock(Poll);
        if bye {
          var closed := FreeRecord(false);
        }
      }
    }

    /** `rktio_pending_open_release` */
    method ReleaseRecord() returns (cancel: bool, closed: seq<int>)
      requires Valid() && Enabled(state, Release, masked)
      modifies this
      ensures Valid() && state.refs == old(state.refs) - 1 && state.closed == old(state.closed) + closed
      ensures state.freed == if old(state.refs) == 1 && old(state.done) then 1 else 0
      ensures cancel <==> old(state.refs) == 1 && !old(state.done)
      ensures closed == if state.freed == 1 && state.obtained != -1 then [state.obtained] else []
    {
      closed := [];
      var bye;
      bye, cancel := DropWithLock(Release);
      if bye {
        closed := FreeRecord(true);
      }
    }
  }
}
