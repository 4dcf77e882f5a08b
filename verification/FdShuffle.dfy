/**
 * The child's half of `rktio_process` on Unix: three descriptors, which may already be among 0, 1
 * and 2 and may be equal to each other, become the standard ones.
 */
module ChildDescriptors {
  import opened Options

  /** An open descriptor: the file that it refers to, and its close-on-exec flag. */
  datatype Entry = Entry(file: int, cloexec: bool)

  /** The first descriptor from `from` on that is neither `a` nor `b`. */
  function FirstFree(from: nat, a: int, b: int): (fd: nat)
    ensures from <= fd <= from + 2 && fd != a && fd != b
    ensures (from != a && from != b) <==> fd == from
    ensures fd == from + 2 ==> from in {a, b} && from + 1 in {a, b}
  {
    if from != a && from != b then from
    else if from + 1 != a && from + 1 != b then from + 1
    else from + 2
  }

  /** The error descriptor must leave 0 or 1 before the others arrive there. */
  predicate ErrInTheWay(inFd: nat, outFd: nat, errFd: nat) {
    (errFd == 0 && errFd != inFd) || (errFd == 1 && errFd != outFd)
  }

  /** The output and error descriptors after the error descriptor has moved. */
  function ErrMoved(inFd: nat, outFd: nat, errFd: nat): (nat, nat) {
    if ErrInTheWay(inFd, outFd, errFd) then
      var e := FirstFree(2, inFd, outFd);
      (if outFd == errFd then e else outFd, e)
    else (outFd, errFd)
  }

  /** The orders within 0, 1 and 2 for which there is no temporary there. */
  predicate WrongOrder(inFd: nat, outFd: nat, errFd: nat) {
    || (errFd == 0 && inFd != 0 && (inFd == 2 || outFd == 2))
    || (errFd == 1 && outFd != 1 && (inFd == 2 || outFd == 2))
    || (outFd == 0 && inFd == 1 && (errFd == 1 || errFd == 2))
  }

  /** A descriptor that the moves use on the way. */
  predicate IsTemporary(inFd: nat, outFd: nat, errFd: nat, fd: int) {
    var (o, e) := ErrMoved(inFd, outFd, errFd);
    || (ErrInTheWay(inFd, outFd, errFd) && fd == e)
    || (o == 0 && o != inFd && fd == FirstFree(1, inFd, e))
  }

  /** What a descriptor refers to in the end: this is the whole of what the moves are for. */
  function Redirected(before: map<int, Entry>, inFd: nat, outFd: nat, errFd: nat, fd: int): Option<int>
    requires inFd in before && outFd in before && errFd in before
  {
    if fd == 0 then Some(before[inFd].file)
    else if fd == 1 then Some(before[outFd].file)
    else if fd == 2 then Some(before[errFd].file)
    else if fd in {inFd, outFd, errFd} || IsTemporary(inFd, outFd, errFd, fd) then None
    else if fd in before then Some(before[fd].file)
    else None
  }

  /** The descriptors of a process. */
  class Descriptors {
    var table: map<int, Entry>

    constructor (table: map<int, Entry>)
      ensures this.table == table
    {
      this.table := table;
    }

    function FileAt(fd: int): Option<int>
      reads this
    {
      if fd in table then Some(table[fd].file) else None
    }

    predicate Inherits(fd: int)
      reads this
    {
      fd in table && !table[fd].cloexec
    }

    /** `dup2`: nothing happens when `src` is not open. */
    method Dup2(src: int, target: int)
      requires src != target
      modifies this
      ensures forall fd :: FileAt(fd) == old(if src in table && fd == target then FileAt(src) else FileAt(fd))
      ensures forall fd :: Inherits(fd) == old(if src in table && fd == target then true else Inherits(fd))
    {
      if src in table {
        table := table[target := Entry(table[src].file, false)];
      }
    }

    /** `rktio_reliably_close` */
    method Close(closed: int)
      modifies this
      ensures forall fd :: FileAt(fd) == if fd == closed then None else old(FileAt(fd))
      ensures forall fd :: Inherits(fd) == if fd == closed then false else old(Inherits(fd))
    {
      table := table - {closed};
    }

    /** `reliably_copy_or_move_fd` */
    method CopyOrMove(src: int, target: int, move: bool)
      requires FileAt(src).Some?
      modifies this
      ensures FileAt(target) == old(FileAt(src))
      ensures src != target && move ==> FileAt(src) == None
      ensures forall fd :: fd != target && !(fd == src && move) ==> FileAt(fd) == old(FileAt(fd))
    {
      if src != target {
        Dup2(src, target);
        if move {
          Close(src);
        }
      }
    }

    /** `close_non_standard_fd` */
    method CloseNonStandard(closed: int)
      modifies this
      ensures forall fd :: FileAt(fd) == if fd == closed && fd !in {0, 1, 2} then None else old(FileAt(fd))
    {
      if closed != 0 && closed != 1 && closed != 2 {
        Close(closed);
      }
    }

    /** `disable_fd_cloexec` */
    method DisableCloexec(changed: int)
      modifies this
      ensures forall fd :: FileAt(fd) == old(FileAt(fd))
      ensures forall fd :: Inherits(fd) == old(if fd == changed then fd in table else Inherits(fd))
    {
      if changed in table && table[changed].cloexec {
        table := table[changed := table[changed].(cloexec := false)];
      }
    }

    /** `rktio_close_fds_after_fork` */
    method CloseAfterFork(count: nat, skip1: int, skip2: int, skip3: int)
      modifies this
      ensures forall fd ::
        FileAt(fd) == if 0 <= fd < count && fd !in {skip1, skip2, skip3} then None else old(FileAt(fd))
      ensures forall fd ::
        Inherits(fd) == (!(0 <= fd < count && fd !in {skip1, skip2, skip3}) && old(Inherits(fd)))
    {
      var i := count;
      while i > 0
        invariant 0 <= i <= count
        invariant forall fd ::
          FileAt(fd) == if i <= fd < count && fd !in {skip1, skip2, skip3} then None else old(FileAt(fd))
        invariant forall fd ::
          Inherits(fd) == (!(i <= fd < count && fd !in {skip1, skip2, skip3}) && old(Inherits(fd)))
      {
        i := i - 1;
        if i != skip1 && i != skip2 && i != skip3 {
          Close(i);
        }
      }
    }

    /** The search for a descriptor that is not needed. */
    method Pick(from: nat, a: int, b: int) returns (fd: nat)
      ensures fd == FirstFree(from, a, b)
    {
      fd := from;
      while fd == a || fd == b
        invariant from <= fd <= FirstFree(from, a, b)
        decreases FirstFree(from, a, b) - fd
      {
        fd := fd + 1;
      }
    }

    /** The error descriptor moves out of the way, and the output descriptor with it if they are the same. */
    method MoveErr(inFd: nat, outFd: nat, errFd: nat) returns (out: nat, err: nat)
      requires inFd in table && outFd in table && errFd in table
      modifies this
      ensures (out, err) == ErrMoved(inFd, outFd, errFd)
      ensures !ErrInTheWay(inFd, outFd, errFd) ==> forall fd :: FileAt(fd) == old(FileAt(fd))
      ensures ErrInTheWay(inFd, outFd, errFd) ==> FileAt(err) == old(FileAt(errFd))
      ensures ErrInTheWay(inFd, outFd, errFd) ==> forall fd :: fd != err ==>
                FileAt(fd) == if fd == errFd != inFd then None else old(FileAt(fd))
    {
      out, err := outFd, errFd;
      if (err == 0 && err != inFd) || (err == 1 && err != out) {
        var newErr := Pick(2, inFd, out);
        CopyOrMove(err, newErr, err != inFd);
        if out == err {
          out := newErr;
        }
        err := newErr;
      }
    }

    /** The output descriptor makes room for the input descriptor. */
    method MoveOut(inFd: nat, outFd: nat, errFd: nat) returns (out: nat)
      requires FileAt(outFd).Some?
      modifies this
      ensures out == if outFd == 0 && outFd != inFd then FirstFree(1, inFd, errFd) else outFd
      ensures FileAt(out) == old(FileAt(outFd))
      ensures forall fd :: fd != out ==> FileAt(fd) == if fd == outFd then None else old(FileAt(fd))
    {
      out := outFd;
      if out == 0 && out != inFd {
        var newOut := Pick(1, inFd, errFd);
        CopyOrMove(out, newOut, out != inFd);
        out := newOut;
      }
    }

    /** None of the three is in the way of the one before it. */
    method Place(inFd: nat, out: nat, err: nat)
      requires FileAt(inFd).Some? && FileAt(out).Some? && FileAt(err).Some?
      requires (out == 0 ==> out == inFd) && (err == 0 ==> err == inFd) && (err == 1 ==> err == out)
      modifies this
      ensures FileAt(0) == old(FileAt(inFd)) && FileAt(1) == old(FileAt(out)) && FileAt(2) == old(FileAt(err))
      ensures forall fd :: fd !in {0, 1, 2} ==>
                FileAt(fd) == if fd in {inFd, out, err} then None else old(FileAt(fd))
    {
      CopyOrMove(inFd, 0, inFd != out && inFd != err);
      CopyOrMove(out, 1, out > 0 && out != err);
      CopyOrMove(err, 2, err > 1);
    }

    /** The moves, which end with all three in place and nothing else left of them. */
    method Shuffle(inFd: nat, outFd: nat, errFd: nat)
      requires inFd in table && outFd in table && errFd in table
      modifies this
      ensures forall fd :: FileAt(fd) == Redirected(old(table), inFd, outFd, errFd, fd)
      ensures FileAt(0) == old(FileAt(inFd)) && FileAt(1) == old(FileAt(outFd)) && FileAt(2) == old(FileAt(errFd))
      ensures forall fd :: fd > 2 && fd in {inFd, outFd, errFd} ==> FileAt(fd) == None
      ensures forall fd :: fd < 0 ==> FileAt(fd) == old(FileAt(fd))
      // in no other order is any descriptor above 2 affected
      ensures !WrongOrder(inFd, outFd, errFd) ==>
                forall fd :: fd > 2 && fd !in {inFd, outFd, errFd} ==> FileAt(fd) == old(FileAt(fd))
    {
      BystandersSafeIff(inFd, outFd, errFd);
      var out, err := MoveErr(inFd, outFd, errFd);
      out := MoveOut(inFd, out, err);
      Place(inFd, out, err);
    }

    /** The end of a new pipe that stays with the parent, if there is one. */
    method CloseEnd(end: Option<int>)
      modifies this
      ensures forall fd :: FileAt(fd) == if fd > 2 && end == Some(fd) then None else old(FileAt(fd))
    {
      if end.Some? && end.value >= 0 {
        CloseNonStandard(end.value);
      }
    }
  }

  /** Which descriptors the child keeps: the standard ones, and the others that nothing has closed. */
  function InChild(before: map<int, Entry>, inFd: nat, outFd: nat, errFd: nat, ends: set<Option<int>>, count: nat, fd: int)
    : Option<int>
    requires inFd in before && outFd in before && errFd in before
  {
    if fd > 2 && (fd < count || Some(fd) in ends) then None
    else Redirected(before, inFd, outFd, errFd, fd)
  }

  method CloseEnds(d: Descriptors, inEnd: Option<int>, outEnd: Option<int>, errEnd: Option<int>)
    modifies d
    ensures forall fd :: d.FileAt(fd) == if fd > 2 && Some(fd) in {inEnd, outEnd, errEnd} then None else old(d.FileAt(fd))
  {
    d.CloseEnd(inEnd);
    d.CloseEnd(outEnd);
    d.CloseEnd(errEnd);
  }

  method MakeInheritable(d: Descriptors)
    requires d.FileAt(0).Some? && d.FileAt(1).Some? && d.FileAt(2).Some?
    modifies d
    ensures d.Inherits(0) && d.Inherits(1) && d.Inherits(2) && forall fd :: d.FileAt(fd) == old(d.FileAt(fd))
  {
    d.DisableCloexec(0);
    d.DisableCloexec(1);
    d.DisableCloexec(2);
  }

  /** What the child does with its descriptors between `fork` and `exec`. */
  method ChildSetup(d: Descriptors, inFd: nat, outFd: nat, errFd: nat,
                    inEnd: Option<int>, outEnd: Option<int>, errEnd: Option<int>, count: nat)
    requires inFd in d.table && outFd in d.table && errFd in d.table
    modifies d
    ensures forall fd ::
      d.FileAt(fd) == InChild(old(d.table), inFd, outFd, errFd, {inEnd, outEnd, errEnd}, count, fd)
    ensures d.Inherits(0) && d.Inherits(1) && d.Inherits(2)
    ensures d.FileAt(0) == old(d.FileAt(inFd)) && d.FileAt(1) == old(d.FileAt(outFd)) && d.FileAt(2) == old(d.FileAt(errFd))
    ensures forall fd :: fd > 2 && (fd < count || fd in {inFd, outFd, errFd} || Some(fd) in {inEnd, outEnd, errEnd}) ==>
              d.FileAt(fd) == None
    ensures !WrongOrder(inFd, outFd, errFd) ==>
              forall fd :: fd > 2 && fd >= count && fd !in {inFd, outFd, errFd} && Some(fd) !in {inEnd, outEnd, errEnd} ==>
                d.FileAt(fd) == old(d.FileAt(fd))
  {
    d.Shuffle(inFd, outFd, errFd);
    CloseEnds(d, inEnd, outEnd, errEnd);
    assert d.FileAt(0).Some? && d.FileAt(1).Some? && d.FileAt(2).Some?;
    MakeInheritable(d);
    d.CloseAfterFork(count, 0, 1, 2);
  }

  /**
   * Every other descriptor survives the moves, except that one above 2 is lost in a few cases where
   * 0, 1 and 2 are already taken in the wrong order.
   */
  lemma BystandersSafeIff(inFd: nat, outFd: nat, errFd: nat)
    ensures (forall fd :: fd > 2 ==> !IsTemporary(inFd, outFd, errFd, fd))
            <==> !WrongOrder(inFd, outFd, errFd)
  {
    var (o, e) := ErrMoved(inFd, outFd, errFd);
    if ErrInTheWay(inFd, outFd, errFd) && (inFd == 2 || outFd == 2) {
      assert IsTemporary(inFd, outFd, errFd, e);
    } else if outFd == 0 && inFd == 1 && (errFd == 1 || errFd == 2) {
      assert IsTemporary(inFd, outFd, errFd, 3);
    }
  }

  /** For example, a descriptor 3 meant for the child disappears when 2, 1 and 0 trade places. */
  lemma ThreeIsLost(before: map<int, Entry>)
    requires {0, 1, 2, 3} <= before.Keys
    ensures Redirected(before, 2, 1, 0, 3) == None
  {
    assert IsTemporary(2, 1, 0, 3);
  }
}
