/** The centralized SIGCHLD bookkeeping of `rktio_process.c`: what clients, the
    worker thread and the kernel do to the shared records, one critical section
    at a time. */
module ChildRecords {
  import opened Options

  type Pid = int
  type SignalFd = int

  /** What `waitpid` reports. */
  datatype WaitStatus = Exited(code: int) | Signaled(sig: int) | Other

  /** `extract_child_status` */
  function Extract(w: WaitStatus): int {
    match w
    case Exited(code) => code
    case Signaled(sig) => sig + 128
    case Other => -1
  }

  datatype Record = Record(status: int, done: bool, inGroup: bool, signalFd: Option<SignalFd>)

  /** `child_statuses` and `unused_pid_statuses` by pid, and the group refcounts. */
  datatype Shared = Shared(children: map<Pid, Record>, unused: set<Pid>, groups: multiset<SignalFd>)

  /** The fd whose group refcount a record holds. */
  function Holding(r: Record): Option<SignalFd> {
    if !r.done && r.inGroup then r.signalFd else None
  }

  function Drop(groups: multiset<SignalFd>, fd: Option<SignalFd>): multiset<SignalFd> {
    if fd.Some? then groups - multiset{fd.value} else groups
  }

  /** `add_child_status` */
  function AddStatus(sh: Shared, pid: Pid, status: int): Shared {
    if pid in sh.children then
      var r := sh.children[pid];
      sh.(children := sh.children[pid := r.(status := status, done := true)],
          groups := Drop(sh.groups, if r.inGroup then r.signalFd else None))
    else
      sh.(children := sh.children[pid := Record(status, true, false, None)])
  }

  /** `centralized_register_child` */
  function Register(sh: Shared, pid: Pid, inGroup: bool, fd: SignalFd): Shared {
    if pid in sh.children then sh
    else sh.(children := sh.children[pid := Record(0, false, inGroup, Some(fd))],
             groups := if inGroup then sh.groups + multiset{fd} else sh.groups)
  }

  /** The locked part of `centralized_get_child_status`. */
  function Collect(sh: Shared, pid: Pid): (Shared, Option<int>) {
    if pid in sh.children && sh.children[pid].done
    then (sh.(children := sh.children - {pid}), Some(sh.children[pid].status))
    else (sh, None)
  }

  /** `centralized_done_with_process_id` */
  function DoneWith(sh: Shared, pid: Pid): Shared {
    if pid !in sh.children then sh
    else if sh.children[pid].done then sh.(children := sh.children - {pid})
    else sh.(children := sh.children - {pid}, unused := sh.unused + {pid},
             groups := Drop(sh.groups, Holding(sh.children[pid])))
  }
}

module ChildProtocol {
  import opened Options
  import opened ChildRecords

  datatype Kernel = Running | Zombie(raw: WaitStatus) | Reaped(raw: WaitStatus)

  /** Where the thread that owns a process record stands. */
  datatype Client =
    | Forked                      // not yet registered
    | Idle
    | Reaping(status: int)        // its own waitpid took the status; add_child_status is next
    | Collecting                  // about to look for a collected status
    | Checking                    // do_subprocess_kill, holding the wait lock, before the look
    | Killing                     // the same after an unsuccessful look: about to send the signal
    | Ending(status: int)         // sp->done is set; centralized_ended_child is next
    | Done(status: int)
    | Forgetting                  // forgotten while not done; centralized_ended_child is next
    | Forgotten

  /** Where the worker thread stands; all but `Waiting` hold the wait lock. */
  datatype Worker = Waiting | Scanning | Got(pid: Pid, status: int)

  datatype WaitLock = Free | ByWorker | ByKill(pid: Pid)

  datatype State = State(
    shared: Shared, pending: int, starting: nat,
    kernel: map<Pid, Kernel>, clients: map<Pid, Client>,
    worker: Worker, waitLock: WaitLock)

  const INIT := State(Shared(map[], {}, multiset{}), 0, 0, map[], map[], Waiting, Free)

  datatype Event =
    | StartChild
    | ForkFailed
    | Fork(pid: Pid)
    | RegisterChild(pid: Pid, inGroup: bool, fd: SignalFd)
    | Exit(pid: Pid, raw: WaitStatus)
    | PollWait(pid: Pid)
    | PollAdd(pid: Pid)
    | PollCollect(pid: Pid)
    | KillLock(pid: Pid)
    | KillCollect(pid: Pid)
    | KillSend(pid: Pid)
    | Ended(pid: Pid)
    | Forget(pid: Pid)
    | WorkerWake
    | WorkerUnused(pid: Pid)
    | WorkerGroup(pid: Pid)
    | WorkerAdd
    | WorkerSleep

  predicate At(s: State, pid: Pid, c: Client) {
    pid in s.clients && s.clients[pid] == c
  }

  predicate IsZombie(s: State, pid: Pid) {
    pid in s.kernel && s.kernel[pid].Zombie?
  }

  /** The kernel may give the number to another child: this one is gone, and no record of it is in use. */
  predicate Gone(s: State, pid: Pid) {
    && pid in s.clients && (s.clients[pid].Done? || s.clients[pid].Forgotten?)
    && pid in s.kernel && s.kernel[pid].Reaped?
    && !(s.worker.Got? && s.worker.pid == pid)
  }

  predicate Enabled(s: State, e: Event) {
    match e
    case StartChild => s.waitLock.Free?
    case ForkFailed => s.waitLock.Free? && s.starting > 0
    case Fork(pid) => s.starting > 0 && (pid !in s.clients || Gone(s, pid))
    case RegisterChild(pid, _, _) => At(s, pid, Forked)
    case Exit(pid, _) => pid in s.kernel && s.kernel[pid].Running?
    case PollWait(pid) => At(s, pid, Idle)
    case PollAdd(pid) => pid in s.clients && s.clients[pid].Reaping?
    case PollCollect(pid) => At(s, pid, Collecting)
    case KillLock(pid) => At(s, pid, Idle) && s.waitLock.Free?
    case KillCollect(pid) => At(s, pid, Checking)
    case KillSend(pid) => At(s, pid, Killing)
    case Ended(pid) => pid in s.clients && (s.clients[pid].Ending? || s.clients[pid].Forgetting?) && s.waitLock.Free?
    case Forget(pid) => pid in s.clients && (s.clients[pid].Done? || (s.clients[pid].Idle? && s.waitLock.Free?))
    case WorkerWake => s.worker.Waiting? && s.waitLock.Free?
    case WorkerUnused(pid) => s.worker.Scanning? && pid in s.shared.unused && IsZombie(s, pid)
    case WorkerGroup(pid) => s.worker.Scanning? && s.pending != 0 && IsZombie(s, pid)
    case WorkerAdd => s.worker.Got?
    case WorkerSleep => s.worker.Scanning?
  }

  function Reap(s: State, pid: Pid): map<Pid, Kernel>
    requires IsZombie(s, pid)
  {
    s.kernel[pid := Reaped(s.kernel[pid].raw)]
  }

  function Do(s: State, e: Event): State
    requires Enabled(s, e)
  {
    match e
    case StartChild => s.(pending := s.pending + 1, starting := s.starting + 1)
    case ForkFailed => s.(pending := s.pending - 1, starting := s.starting - 1)
    case Fork(pid) =>
      s.(starting := s.starting - 1, kernel := s.kernel[pid := Running], clients := s.clients[pid := Forked])
    case RegisterChild(pid, inGroup, fd) =>
      s.(shared := Register(s.shared, pid, inGroup, fd), clients := s.clients[pid := Idle])
    case Exit(pid, raw) => s.(kernel := s.kernel[pid := Zombie(raw)])
    case PollWait(pid) =>
      if IsZombie(s, pid)
      then s.(kernel := Reap(s, pid), clients := s.clients[pid := Reaping(Extract(s.kernel[pid].raw))])
      else s.(clients := s.clients[pid := Collecting])
    case PollAdd(pid) =>
      s.(shared := AddStatus(s.shared, pid, s.clients[pid].status), clients := s.clients[pid := Collecting])
    case PollCollect(pid) =>
      var (sh, found) := Collect(s.shared, pid);
      s.(shared := sh, clients := s.clients[pid := if found.Some? then Ending(found.value) else Idle])
    case KillLock(pid) => s.(waitLock := ByKill(pid), clients := s.clients[pid := Checking])
    case KillCollect(pid) =>
      var (sh, found) := Collect(s.shared, pid);
      if found.Some?
      then s.(shared := sh, waitLock := Free, clients := s.clients[pid := Ending(found.value)])
      else s.(clients := s.clients[pid := Killing])
    case KillSend(pid) => s.(waitLock := Free, clients := s.clients[pid := Idle])
    case Ended(pid) =>
      s.(pending := s.pending - 1,
         clients := s.clients[pid := if s.clients[pid].Ending? then Done(s.clients[pid].status) else Forgotten])
    case Forget(pid) =>
      if s.clients[pid].Done? then s.(clients := s.clients[pid := Forgotten])
      else s.(shared := DoneWith(s.shared, pid), clients := s.clients[pid := Forgetting])
    case WorkerWake => s.(worker := Scanning, waitLock := ByWorker)
    case WorkerUnused(pid) =>
      s.(kernel := Reap(s, pid), shared := s.shared.(unused := s.shared.unused - {pid}))
    case WorkerGroup(pid) =>
      s.(kernel := Reap(s, pid), worker := Got(pid, Extract(s.kernel[pid].raw)))
    case WorkerAdd =>
      var pid := s.worker.pid;
      if pid in s.shared.unused
      then s.(worker := Scanning, shared := s.shared.(unused := s.shared.unused - {pid}))
      else s.(worker := Scanning, shared := AddStatus(s.shared, pid, s.worker.status))
    case WorkerSleep => s.(worker := Waiting, waitLock := Free)
  }
}

module ChildSafety {
  import opened Options
  import opened ChildRecords
  import opened ChildProtocol

  /** Everything the state says about one child. */
  datatype View = View(k: Kernel, c: Client, record: Option<Record>, unused: bool, inFlight: Option<int>)

  ghost function Of(s: State, p: Pid): View
    requires p in s.clients && p in s.kernel
  {
    View(s.kernel[p], s.clients[p],
         if p in s.shared.children then Some(s.shared.children[p]) else None,
         p in s.shared.unused,
         if s.worker.Got? && s.worker.pid == p then Some(s.worker.status) else None)
  }

  /** The places where a collected exit status of the child sits. */
  ghost predicate AtWorker(v: View) { v.inFlight.Some? }
  ghost predicate AtClient(v: View) { v.c.Reaping? }
  ghost predicate AtRecord(v: View) { v.record.Some? && v.record.value.done }
  ghost predicate AtHandle(v: View) { v.c.Ending? || v.c.Done? }

  ghost predicate GivenUp(v: View) { v.c.Forgetting? || v.c.Forgotten? }

  /** The kernel's exit status, once taken, is in exactly one place until the client
      gives the child up; a child that is given up waits in the unused list exactly
      until the kernel's status is taken and dropped. */
  ghost predicate StatusKept(v: View) {
    && (AtWorker(v) ==> !AtClient(v) && !AtRecord(v) && !AtHandle(v))
    && (AtClient(v) ==> !AtRecord(v))
    && (AtRecord(v) ==> !AtHandle(v))
    && (AtWorker(v) || AtClient(v) || AtRecord(v) || AtHandle(v) ==> v.k.Reaped?)
    && (v.k.Reaped? && !GivenUp(v) ==> AtWorker(v) || AtClient(v) || AtRecord(v) || AtHandle(v))
    && (GivenUp(v) ==> (v.unused <==> !v.k.Reaped? || AtWorker(v)))
  }

  /** Wherever it is, it is the kernel's. */
  ghost predicate StatusTrue(v: View) {
    v.k.Reaped? ==>
      && (AtWorker(v) ==> v.inFlight.value == Extract(v.k.raw))
      && (AtClient(v) ==> v.c.status == Extract(v.k.raw))
      && (AtRecord(v) ==> v.record.value.status == Extract(v.k.raw))
      && (AtHandle(v) ==> v.c.status == Extract(v.k.raw))
  }

  /** A child is in at most one of the two lists, in `child_statuses` for as long as
      its registered record is not done. */
  ghost predicate OneList(v: View) {
    && (v.record.Some? ==> !v.unused && !GivenUp(v) && !AtHandle(v))
    && (v.unused ==> GivenUp(v))
    && (v.record.None? ==> v.c.Forked? || AtHandle(v) || GivenUp(v))
    && (v.c.Forked? && v.record.Some? ==> v.record.value.done)
  }

  ghost predicate ChildOk(v: View) {
    && StatusKept(v) && StatusTrue(v) && OneList(v)
    && (v.c.Killing? ==> !v.k.Reaped?)
  }

  /** The children whose process record is neither done nor forgotten, counting the
      ones between that point and `centralized_ended_child`. */
  ghost predicate Counted(c: Client) {
    !c.Done? && !c.Forgotten?
  }

  ghost function Pending(clients: map<Pid, Client>): set<Pid> {
    set p | p in clients && Counted(clients[p])
  }

  ghost function Holders(children: map<Pid, Record>, fd: SignalFd): set<Pid> {
    set p | p in children && Holding(children[p]) == Some(fd)
  }

  ghost predicate Locking(s: State) {
    && (s.waitLock.ByWorker? <==> !s.worker.Waiting?)
    && (forall p :: p in s.clients && (s.clients[p].Checking? || s.clients[p].Killing?) ==> s.waitLock == ByKill(p))
    && (s.worker.Got? ==> s.worker.pid in s.clients)
  }

  ghost predicate Inv(s: State) {
    && s.clients.Keys == s.kernel.Keys
    && s.shared.children.Keys <= s.clients.Keys
    && s.shared.unused <= s.clients.Keys
    && Locking(s)
    && (forall p :: p in s.clients ==> ChildOk(Of(s, p)))
    && s.pending == s.starting + |Pending(s.clients)|
    && (forall fd :: s.shared.groups[fd] == |Holders(s.shared.children, fd)|)
  }

  /** The child an event is about, if any. */
  ghost function Subject(s: State, e: Event): Option<Pid>
    requires Enabled(s, e)
  {
    match e
    case StartChild | ForkFailed | WorkerWake | WorkerSleep => None
    case Fork(pid) => Some(pid)
    case RegisterChild(pid, _, _) => Some(pid)
    case Exit(pid, _) => Some(pid)
    case PollWait(pid) => Some(pid)
    case PollAdd(pid) => Some(pid)
    case PollCollect(pid) => Some(pid)
    case KillLock(pid) => Some(pid)
    case KillCollect(pid) => Some(pid)
    case KillSend(pid) => Some(pid)
    case Ended(pid) => Some(pid)
    case Forget(pid) => Some(pid)
    case WorkerUnused(pid) => Some(pid)
    case WorkerGroup(pid) => Some(pid)
    case WorkerAdd => Some(s.worker.pid)
  }

  /** A number that is given out again is in neither list. */
  lemma GoneIsUnlisted(s: State, p: Pid)
    requires Inv(s) && Gone(s, p)
    ensures p !in s.shared.children && p !in s.shared.unused && !Counted(s.clients[p])
  {
    assert ChildOk(Of(s, p));
  }

  lemma OthersUntouched(s: State, e: Event, q: Pid)
    requires Inv(s) && Enabled(s, e) && q in s.clients && Subject(s, e) != Some(q)
    ensures var s' := Do(s, e); q in s'.clients && q in s'.kernel && Of(s', q) == Of(s, q)
  {
  }

  lemma SubjectKept(s: State, e: Event, p: Pid)
    requires Inv(s) && Enabled(s, e) && Subject(s, e) == Some(p)
    ensures var s' := Do(s, e); p in s'.clients && p in s'.kernel && ChildOk(Of(s', p))
  {
    assert p in s.clients ==> ChildOk(Of(s, p));
  }

  lemma KeysKept(s: State, e: Event)
    requires Inv(s) && Enabled(s, e)
    ensures var s' := Do(s, e);
      && s'.clients.Keys == s'.kernel.Keys
      && s'.shared.children.Keys <= s'.clients.Keys
      && s'.shared.unused <= s'.clients.Keys
  {
  }

  lemma LockingKept(s: State, e: Event)
    requires Inv(s) && Enabled(s, e)
    ensures Locking(Do(s, e))
  {
  }

  lemma PendingChanged(clients: map<Pid, Client>, p: Pid, c: Client)
    ensures var before := if p in clients && Counted(clients[p]) then 1 else 0;
      var after := if Counted(c) then 1 else 0;
      |Pending(clients[p := c])| == |Pending(clients)| - before + after
  {
    if Counted(c) {
      assert Pending(clients[p := c]) == Pending(clients) + {p};
    } else {
      assert Pending(clients[p := c]) == Pending(clients) - {p};
    }
  }

  lemma PendingKept(s: State, e: Event)
    requires Inv(s) && Enabled(s, e)
    ensures var s' := Do(s, e); s'.pending == s'.starting + |Pending(s'.clients)|
  {
    var s' := Do(s, e);
    var p := Subject(s, e);
    if p.Some? && p.value in s'.clients {
      PendingChanged(s.clients, p.value, s'.clients[p.value]);
      assert p.value in s.clients ==> s.clients[p.value := s.clients[p.value]] == s.clients;
    }
  }

  lemma HoldersChanged(children: map<Pid, Record>, p: Pid, r: Record, fd: SignalFd)
    ensures var before := if p in children && Holding(children[p]) == Some(fd) then 1 else 0;
      var after := if Holding(r) == Some(fd) then 1 else 0;
      |Holders(children[p := r], fd)| == |Holders(children, fd)| - before + after
  {
    if Holding(r) == Some(fd) {
      assert Holders(children[p := r], fd) == Holders(children, fd) + {p};
    } else {
      assert Holders(children[p := r], fd) == Holders(children, fd) - {p};
    }
  }

  lemma HolderRemoved(children: map<Pid, Record>, p: Pid, fd: SignalFd)
    ensures var before := if p in children && Holding(children[p]) == Some(fd) then 1 else 0;
      |Holders(children - {p}, fd)| == |Holders(children, fd)| - before
  {
    assert Holders(children - {p}, fd) == Holders(children, fd) - {p};
  }

  ghost predicate GroupsExact(sh: Shared) {
    forall fd :: sh.groups[fd] == |Holders(sh.children, fd)|
  }

  lemma HolderCounted(sh: Shared, p: Pid)
    requires GroupsExact(sh) && p in sh.children && Holding(sh.children[p]).Some?
    ensures Holding(sh.children[p]).value in sh.groups
  {
    assert p in Holders(sh.children, Holding(sh.children[p]).value);
  }

  lemma AddStatusGroups(sh: Shared, pid: Pid, status: int)
    requires GroupsExact(sh) && (pid in sh.children ==> !sh.children[pid].done)
    ensures GroupsExact(AddStatus(sh, pid, status))
  {
    forall fd ensures AddStatus(sh, pid, status).groups[fd] == |Holders(AddStatus(sh, pid, status).children, fd)| {
      HoldersChanged(sh.children, pid, AddStatus(sh, pid, status).children[pid], fd);
      if pid in sh.children && Holding(sh.children[pid]).Some? {
        HolderCounted(sh, pid);
      }
    }
  }

  lemma RegisterGroups(sh: Shared, pid: Pid, inGroup: bool, fd: SignalFd)
    requires GroupsExact(sh)
    ensures GroupsExact(Register(sh, pid, inGroup, fd))
  {
    var sh' := Register(sh, pid, inGroup, fd);
    forall g ensures sh'.groups[g] == |Holders(sh'.children, g)| {
      if pid !in sh.children {
        HoldersChanged(sh.children, pid, sh'.children[pid], g);
      }
    }
  }

  lemma CollectGroups(sh: Shared, pid: Pid)
    requires GroupsExact(sh)
    ensures GroupsExact(Collect(sh, pid).0)
  {
    forall g ensures Collect(sh, pid).0.groups[g] == |Holders(Collect(sh, pid).0.children, g)| {
      HolderRemoved(sh.children, pid, g);
    }
  }

  lemma DoneWithGroups(sh: Shared, pid: Pid)
    requires GroupsExact(sh)
    ensures GroupsExact(DoneWith(sh, pid))
  {
    forall g ensures DoneWith(sh, pid).groups[g] == |Holders(DoneWith(sh, pid).children, g)| {
      HolderRemoved(sh.children, pid, g);
      if pid in sh.children && Holding(sh.children[pid]).Some? {
        HolderCounted(sh, pid);
      }
    }
  }

  /** A status is added only to a record that is not done. */
  lemma AddedOnce(s: State, e: Event)
    requires Inv(s) && Enabled(s, e)
    ensures e.PollAdd? && e.pid in s.shared.children ==> !s.shared.children[e.pid].done
    ensures e.WorkerAdd? && s.worker.pid in s.shared.children ==> !s.shared.children[s.worker.pid].done
  {
    if e.PollAdd? {
      assert ChildOk(Of(s, e.pid));
    } else if e.WorkerAdd? {
      assert ChildOk(Of(s, s.worker.pid));
    }
  }

  lemma GroupsKept(s: State, e: Event)
    requires Inv(s) && Enabled(s, e)
    ensures GroupsExact(Do(s, e).shared)
  {
    AddedOnce(s, e);
    match e {
      case RegisterChild(pid, inGroup, fd) => RegisterGroups(s.shared, pid, inGroup, fd);
      case PollAdd(pid) => AddStatusGroups(s.shared, pid, s.clients[pid].status);
      case PollCollect(pid) => CollectGroups(s.shared, pid);
      case KillCollect(pid) => CollectGroups(s.shared, pid);
      case Forget(pid) => DoneWithGroups(s.shared, pid);
      case WorkerAdd => AddStatusGroups(s.shared, s.worker.pid, s.worker.status);
      case _ =>
    }
  }

  lemma StepKeepsInv(s: State, e: Event)
    requires Inv(s) && Enabled(s, e)
    ensures Inv(Do(s, e))
  {
    var s' := Do(s, e);
    KeysKept(s, e);
    LockingKept(s, e);
    PendingKept(s, e);
    GroupsKept(s, e);
    forall q | q in s'.clients ensures ChildOk(Of(s', q)) {
      if Subject(s, e) == Some(q) {
        SubjectKept(s, e, q);
      } else {
        OthersUntouched(s, e, q);
      }
    }
  }
}

/** Consequences over whole runs. */
module ChildRuns {
  import opened Options
  import opened ChildRecords
  import opened ChildProtocol
  import opened ChildSafety

  ghost predicate Legal(s: State, es: seq<Event>)
    decreases |es|
  {
    es == [] || (Enabled(s, es[0]) && Legal(Do(s, es[0]), es[1..]))
  }

  ghost function After(s: State, es: seq<Event>): State
    requires Legal(s, es)
    decreases |es|
  {
    if es == [] then s else After(Do(s, es[0]), es[1..])
  }

  ghost predicate Reachable(s: State) {
    exists es :: Legal(INIT, es) && After(INIT, es) == s
  }

  lemma {:induction false} RunKeepsInv(s: State, es: seq<Event>)
    requires Inv(s) && Legal(s, es)
    ensures Inv(After(s, es))
    decreases |es|
  {
    if es != [] {
      StepKeepsInv(s, es[0]);
      RunKeepsInv(Do(s, es[0]), es[1..]);
    }
  }

  lemma ReachableInv(s: State)
    requires Reachable(s)
    ensures Inv(s)
  {
    var es :| Legal(INIT, es) && After(INIT, es) == s;
    InitInv();
    RunKeepsInv(INIT, es);
  }

  lemma InitInv()
    ensures Inv(INIT)
  {
    assert Pending(INIT.clients) == {};
    assert forall fd :: Holders(INIT.shared.children, fd) == {};
  }

  /** No child is in both lists, and one that still has an open record is in the first. */
  lemma InAtMostOneList(s: State, p: Pid)
    requires Reachable(s) && p in s.clients
    ensures !(p in s.shared.children && p in s.shared.unused)
    ensures s.clients[p].Idle? || s.clients[p].Collecting? || s.clients[p].Killing? ==> p in s.shared.children
  {
    ReachableInv(s);
    assert ChildOk(Of(s, p));
  }

  /** Until the child is forgotten, either the kernel still has its exit status, or
      exactly one of worker, polling client, record and process handle has it, unaltered. */
  lemma StatusNeverLost(s: State, p: Pid)
    requires Reachable(s) && p in s.clients && !s.clients[p].Forgetting? && !s.clients[p].Forgotten?
    ensures p in s.kernel
    ensures s.kernel[p].Reaped? ==>
      var x := Extract(s.kernel[p].raw);
      var places := multiset([s.worker == Got(p, x), s.clients[p] == Reaping(x),
        p in s.shared.children && s.shared.children[p].done && s.shared.children[p].status == x,
        s.clients[p] == Ending(x) || s.clients[p] == Done(x)]);
      places[true] == 1
  {
    ReachableInv(s);
    assert ChildOk(Of(s, p));
  }

  lemma DeliveredStatusIsKernels(s: State, p: Pid)
    requires Reachable(s) && p in s.clients && (s.clients[p].Done? || s.clients[p].Ending?)
    ensures p in s.kernel && s.kernel[p].Reaped? && s.clients[p].status == Extract(s.kernel[p].raw)
    ensures p !in s.shared.children && p !in s.shared.unused
  {
    ReachableInv(s);
    assert ChildOk(Of(s, p));
  }

  /** The wait lock keeps the worker from reaping between the look and the signal, so
      a signal never goes to a pid that the kernel may have given to someone else. */
  lemma KillHitsUnreapedChild(s: State, p: Pid)
    requires Reachable(s) && Enabled(s, KillSend(p))
    ensures p in s.kernel && !s.kernel[p].Reaped?
  {
    ReachableInv(s);
    assert ChildOk(Of(s, p));
  }

  /** `pending_children` and the group refcounts, exactly. */
  lemma CountersExact(s: State)
    requires Reachable(s)
    ensures s.pending == s.starting + |Pending(s.clients)|
    ensures forall fd :: s.shared.groups[fd] == |Holders(s.shared.children, fd)|
  {
    ReachableInv(s);
  }

  ghost predicate HasStatus(s: State, p: Pid) {
    p in s.clients && (s.clients[p].Ending? || s.clients[p].Done?)
  }

  /** How often in a run a status is handed to the process record of `p`. */
  ghost function Deliveries(s: State, es: seq<Event>, p: Pid): nat
    requires Legal(s, es)
    decreases |es|
  {
    if es == [] then 0
    else
      var s' := Do(s, es[0]);
      (if HasStatus(s', p) && !HasStatus(s, p) then 1 else 0) + Deliveries(s', es[1..], p)
  }

  ghost predicate Finished(s: State, p: Pid) {
    p in s.clients && (HasStatus(s, p) || s.clients[p].Forgetting? || s.clients[p].Forgotten?)
  }

  lemma FinishedStays(s: State, e: Event, p: Pid)
    requires Finished(s, p) && Enabled(s, e) && e != Fork(p)
    ensures Finished(Do(s, e), p)
    ensures HasStatus(Do(s, e), p) ==> HasStatus(s, p) && Do(s, e).clients[p].status == s.clients[p].status
  {
  }

  /** How often the number `p` is given to a child. */
  function Forks(es: seq<Event>, p: Pid): nat {
    if es == [] then 0 else (if es[0] == Fork(p) then 1 else 0) + Forks(es[1..], p)
  }

  /** A run delivers one status at most for each child, even when its number has belonged to others before. */
  lemma {:induction false} DeliveredAtMostOnce(s: State, es: seq<Event>, p: Pid)
    requires Legal(s, es)
    ensures Deliveries(s, es, p) <= Forks(es, p) + if p in s.clients && !Finished(s, p) then 1 else 0
    decreases |es|
  {
    if es != [] {
      DeliveredAtMostOnce(Do(s, es[0]), es[1..], p);
      if Finished(s, p) && es[0] != Fork(p) {
        FinishedStays(s, es[0], p);
      }
    }
  }

  /** What is left of the last child with that number never reaches the next one. */
  lemma ReusedStartsClean(s: State, p: Pid)
    requires Reachable(s) && p in s.clients && Enabled(s, Fork(p))
    ensures var s' := Do(s, Fork(p));
      && At(s', p, Forked) && s'.kernel[p].Running?
      && p !in s'.shared.children && p !in s'.shared.unused && !(s'.worker.Got? && s'.worker.pid == p)
  {
    ReachableInv(s);
    GoneIsUnlisted(s, p);
  }

  /** Once a child has ended and the worker is not carrying its status, a poll by its
      owner delivers the status in its own steps, whoever reaped the child. */
  lemma PollDelivers(s: State, p: Pid)
    requires Reachable(s) && At(s, p, Idle)
    requires p in s.kernel && !s.kernel[p].Running? && !(s.worker.Got? && s.worker.pid == p)
    ensures var es := if s.kernel[p].Zombie? then [PollWait(p), PollAdd(p), PollCollect(p)]
                      else [PollWait(p), PollCollect(p)];
      Legal(s, es) && At(After(s, es), p, Ending(Extract(s.kernel[p].raw)))
  {
    ReachableInv(s);
    assert ChildOk(Of(s, p));
    if s.kernel[p].Zombie? {
      PollReapsAndDelivers(s, p);
    } else {
      RunCons(Do(s, PollWait(p)), PollCollect(p), []);
      RunCons(s, PollWait(p), [PollCollect(p)]);
    }
  }

  lemma PollReapsAndDelivers(s: State, p: Pid)
    requires At(s, p, Idle) && p in s.kernel && s.kernel[p].Zombie?
    requires ChildOk(Of(s, p))
    ensures var es := [PollWait(p), PollAdd(p), PollCollect(p)];
      Legal(s, es) && At(After(s, es), p, Ending(Extract(s.kernel[p].raw)))
  {
    var s1 := Do(s, PollWait(p));
    var s2 := Do(s1, PollAdd(p));
    RunCons(s2, PollCollect(p), []);
    RunCons(s1, PollAdd(p), [PollCollect(p)]);
    RunCons(s, PollWait(p), [PollAdd(p), PollCollect(p)]);
  }

  lemma RunCons(s: State, e: Event, es: seq<Event>)
    requires Enabled(s, e) && Legal(Do(s, e), es)
    ensures Legal(s, [e] + es) && After(s, [e] + es) == After(Do(s, e), es)
  {
    assert ([e] + es)[1..] == es;
  }

  // What a status tells about the child

  function NextExit(e: Event, p: Pid, before: Option<WaitStatus>): Option<WaitStatus> {
    match e
    case Fork(pid) => if pid == p then None else before
    case Exit(pid, raw) => if pid == p then Some(raw) else before
    case _ => before
  }

  /** How the child that has the number `p` now has ended, if it has: the last `Exit` since the last `Fork`. */
  function LastExit(es: seq<Event>, p: Pid, before: Option<WaitStatus>): Option<WaitStatus> {
    if es == [] then before else LastExit(es[1..], p, NextExit(es[0], p, before))
  }

  ghost predicate KernelKnows(s: State, p: Pid, ended: Option<WaitStatus>) {
    if p !in s.kernel then ended == None
    else match s.kernel[p]
      case Running => ended == None
      case Zombie(raw) => ended == Some(raw)
      case Reaped(raw) => ended == Some(raw)
  }

  lemma KernelKnowsNext(s: State, e: Event, p: Pid, before: Option<WaitStatus>)
    requires Enabled(s, e) && KernelKnows(s, p, before)
    ensures KernelKnows(Do(s, e), p, NextExit(e, p, before))
  {
  }

  lemma {:induction false} KernelRemembers(s: State, es: seq<Event>, p: Pid, before: Option<WaitStatus>)
    requires Legal(s, es) && KernelKnows(s, p, before)
    ensures KernelKnows(After(s, es), p, LastExit(es, p, before))
    decreases |es|
  {
    if es != [] {
      var now := NextExit(es[0], p, before);
      KernelKnowsNext(s, es[0], p, before);
      KernelRemembers(Do(s, es[0]), es[1..], p, now);
    }
  }

  /** The status that a client gets is the exit code, or 128 and the number of the signal. */
  lemma DeliveredTells(es: seq<Event>, p: Pid)
    requires Legal(INIT, es)
    requires var s := After(INIT, es); p in s.clients && (s.clients[p].Done? || s.clients[p].Ending?)
    ensures var status, ended := After(INIT, es).clients[p].status, LastExit(es, p, None);
      && ended.Some?
      && (ended.value.Exited? ==> status == ended.value.code)
      && (ended.value.Signaled? ==> status == ended.value.sig + 128)
      && (ended.value.Other? ==> status == -1)
  {
    KernelRemembers(INIT, es, p, None);
    DeliveredStatusIsKernels(After(INIT, es), p);
  }

  /** What the kernel can report. */
  predicate Regular(w: WaitStatus) {
    (w.Exited? ==> 0 <= w.code <= 255) && (w.Signaled? ==> w.sig >= 1)
  }

  /** A zero means success; different codes differ, but a code can look like a signal. */
  lemma DeliveredAlikeIff(es: seq<Event>, p: Pid, es': seq<Event>, p': Pid)
    requires Legal(INIT, es) && Legal(INIT, es')
    requires var s := After(INIT, es); p in s.clients && (s.clients[p].Done? || s.clients[p].Ending?)
    requires var s := After(INIT, es'); p' in s.clients && (s.clients[p'].Done? || s.clients[p'].Ending?)
    requires LastExit(es, p, None).Some? ==> Regular(LastExit(es, p, None).value)
    requires LastExit(es', p', None).Some? ==> Regular(LastExit(es', p', None).value)
    ensures LastExit(es, p, None).Some? && LastExit(es', p', None).Some?
    ensures var w, w' := LastExit(es, p, None).value, LastExit(es', p', None).value;
      && (After(INIT, es).clients[p].status == 0 <==> w == Exited(0))
      && (After(INIT, es).clients[p].status == After(INIT, es').clients[p'].status <==>
          || w == w'
          || (w.Exited? && w'.Signaled? && w.code == w'.sig + 128)
          || (w.Signaled? && w'.Exited? && w.sig + 128 == w'.code))
  {
    DeliveredTells(es, p);
    DeliveredTells(es', p');
  }

  // What a record keeps of its registration

  datatype Registration = Registration(inGroup: bool, fd: SignalFd)

  function NextRegistration(e: Event, p: Pid, before: Option<Registration>): Option<Registration> {
    match e
    case Fork(pid) => if pid == p then None else before
    case RegisterChild(pid, g, fd) => if pid == p then Some(Registration(g, fd)) else before
    case _ => before
  }

  /** How the child that has the number `p` now was registered, if it was. */
  function LastRegistration(es: seq<Event>, p: Pid, before: Option<Registration>): Option<Registration> {
    if es == [] then before else LastRegistration(es[1..], p, NextRegistration(es[0], p, before))
  }

  ghost predicate Recorded(s: State, p: Pid, r: Option<Registration>) {
    p in s.shared.children && !s.shared.children[p].done ==>
      && r.Some?
      && s.shared.children[p].inGroup == r.value.inGroup
      && s.shared.children[p].signalFd == Some(r.value.fd)
  }

  lemma {:induction false} RecordRemembers(s: State, es: seq<Event>, p: Pid, before: Option<Registration>)
    requires Inv(s) && Legal(s, es) && Recorded(s, p, before)
    ensures Recorded(After(s, es), p, LastRegistration(es, p, before))
    decreases |es|
  {
    if es != [] {
      var now := NextRegistration(es[0], p, before);
      RecordStep(s, es[0], p, before);
      StepKeepsInv(s, es[0]);
      RecordRemembers(Do(s, es[0]), es[1..], p, now);
    }
  }

  lemma RecordStep(s: State, e: Event, p: Pid, before: Option<Registration>)
    requires Inv(s) && Enabled(s, e) && Recorded(s, p, before)
    ensures Recorded(Do(s, e), p, NextRegistration(e, p, before))
  {
    if Subject(s, e) == Some(p) {
      OwnRecordStep(s, e, p, before);
    } else if p in s.clients {
      OthersUntouched(s, e, p);
      assert Of(Do(s, e), p).record == Of(s, p).record;
    } else {
      KeysKept(s, e);
    }
  }

  lemma OwnRecordStep(s: State, e: Event, p: Pid, before: Option<Registration>)
    requires Inv(s) && Enabled(s, e) && Subject(s, e) == Some(p) && Recorded(s, p, before)
    ensures Recorded(Do(s, e), p, NextRegistration(e, p, before))
  {
    assert p in s.clients ==> ChildOk(Of(s, p));
  }

  /**
   * As long as a child's record is not done, it posts to the handle that the child was registered
   * with, and if that was as one of a group, the handle is among those of the groups.
   */
  lemma RegisteredHolds(es: seq<Event>, p: Pid)
    requires Legal(INIT, es)
    requires var sh := After(INIT, es).shared; p in sh.children && !sh.children[p].done
    ensures var sh, r := After(INIT, es).shared, LastRegistration(es, p, None);
      && r.Some? && sh.children[p].signalFd == Some(r.value.fd)
      && sh.children[p].inGroup == r.value.inGroup
      && (r.value.inGroup ==> r.value.fd in sh.groups)
  {
    var s := After(INIT, es);
    InitInv();
    RunKeepsInv(INIT, es);
    RecordRemembers(INIT, es, p, None);
    if s.shared.children[p].inGroup {
      HolderCounted(s.shared, p);
    }
  }
}

/** The lists and the array behind `Shared`, and the functions that edit them. */
module ChildTables {
  import opened Options
  import opened ChildRecords

  datatype Node = Node(pid: Pid, record: Record)

  datatype GroupFd = GroupFd(fd: SignalFd, refcount: nat)

  ghost predicate DistinctPids(l: seq<Node>) {
    forall i, j :: 0 <= i < j < |l| ==> l[i].pid != l[j].pid
  }

  ghost function ToMap(l: seq<Node>): (m: map<Pid, Record>)
    ensures forall k :: k in m <==> exists i :: 0 <= i < |l| && l[i].pid == k
  {
    if l == [] then map[] else ToMap(l[1..])[l[0].pid := l[0].record]
  }

  lemma {:induction false} ToMapAt(l: seq<Node>, i: nat)
    requires DistinctPids(l) && i < |l|
    ensures ToMap(l)[l[i].pid] == l[i].record
  {
    if i > 0 {
      ToMapAt(l[1..], i - 1);
    }
  }

  lemma {:induction false} ToMapUpdated(l: seq<Node>, i: nat, r: Record)
    requires DistinctPids(l) && i < |l|
    ensures DistinctPids(l[i := l[i].(record := r)])
    ensures ToMap(l[i := l[i].(record := r)]) == ToMap(l)[l[i].pid := r]
  {
    var l', m := l[i := l[i].(record := r)], ToMap(l[1..]);
    if i > 0 {
      ToMapUpdated(l[1..], i - 1, r);
      assert l'[1..] == l[1..][i - 1 := l[1..][i - 1].(record := r)];
      SetTwice(m, l[i].pid, r, l[0].pid, l[0].record);
    } else {
      assert l'[1..] == l[1..];
      assert m[l[0].pid := l[0].record][l[0].pid := r] == m[l[0].pid := r];
    }
  }

  lemma SetTwice(m: map<Pid, Record>, p: Pid, r: Record, q: Pid, r': Record)
    requires p != q
    ensures m[p := r][q := r'] == m[q := r'][p := r]
  {
  }

  lemma DistinctRemoved(l: seq<Node>, i: nat)
    requires DistinctPids(l) && i < |l|
    ensures DistinctPids(l[..i] + l[i + 1..])
  {
  }

  lemma ToMapCons(n: Node, l: seq<Node>)
    ensures ToMap([n] + l) == ToMap(l)[n.pid := n.record]
  {
    assert ([n] + l)[1..] == l;
  }

  lemma {:induction false} ToMapRemoved(l: seq<Node>, i: nat)
    requires DistinctPids(l) && i < |l|
    ensures ToMap(l[..i] + l[i + 1..]) == ToMap(l) - {l[i].pid}
  {
    if i > 0 {
      var rest := l[1..];
      ToMapRemoved(rest, i - 1);
      RemoveThenSet(ToMap(rest), l[i].pid, l[0]);
      ToMapCons(l[0], rest[..i - 1] + rest[i..]);
      RemovedCons(l, i);
    } else {
      assert l[..0] + l[1..] == l[1..];
      RemoveFirst(l);
    }
  }

  lemma RemovedCons(l: seq<Node>, i: nat)
    requires 0 < i < |l|
    ensures l[..i] + l[i + 1..] == [l[0]] + (l[1..][..i - 1] + l[1..][i..])
  {
  }

  lemma RemoveFirst(l: seq<Node>)
    requires DistinctPids(l) && l != []
    ensures ToMap(l[1..]) == ToMap(l) - {l[0].pid}
  {
    assert l[0].pid !in ToMap(l[1..]);
    SetThenRemove(ToMap(l[1..]), l[0].pid, l[0].record);
  }

  lemma SetThenRemove(m: map<Pid, Record>, p: Pid, r: Record)
    requires p !in m
    ensures m[p := r] - {p} == m
  {
  }

  lemma RemoveThenSet(m: map<Pid, Record>, pid: Pid, n: Node)
    requires n.pid != pid
    ensures (m - {pid})[n.pid := n.record] == m[n.pid := n.record] - {pid}
  {
  }

  ghost function Pids(l: seq<Node>): set<Pid> {
    set n | n in l :: n.pid
  }

  lemma PidsCons(n: Node, l: seq<Node>)
    ensures Pids([n] + l) == Pids(l) + {n.pid}
  {
    assert forall k :: k in [n] + l <==> k == n || k in l;
  }

  ghost function Refcounts(g: seq<GroupFd>): multiset<SignalFd> {
    if g == [] then multiset{} else Refcounts(g[1..]) + multiset{}[g[0].fd := g[0].refcount]
  }

  lemma {:induction false} RefcountsUpdated(g: seq<GroupFd>, i: nat, e: GroupFd, x: SignalFd)
    requires i < |g|
    ensures (if g[i].fd == x then g[i].refcount else 0) <= Refcounts(g)[x]
    ensures Refcounts(g[i := e])[x] ==
      Refcounts(g)[x] - (if g[i].fd == x then g[i].refcount else 0) + (if e.fd == x then e.refcount else 0)
  {
    if i > 0 {
      RefcountsUpdated(g[1..], i - 1, e, x);
      assert g[i := e][1..] == g[1..][i - 1 := e];
    } else {
      assert g[i := e][1..] == g[1..];
    }
  }

  lemma RefcountsPlus(g: seq<GroupFd>, i: nat, fd: SignalFd)
    requires i < |g| && (g[i].refcount == 0 || g[i].fd == fd)
    ensures Refcounts(g[i := GroupFd(fd, g[i].refcount + 1)]) == Refcounts(g) + multiset{fd}
  {
    var e := GroupFd(fd, g[i].refcount + 1);
    forall x ensures Refcounts(g[i := e])[x] == (Refcounts(g) + multiset{fd})[x] {
      RefcountsUpdated(g, i, e, x);
    }
  }

  lemma RefcountsTaken(g: seq<GroupFd>, i: nat, fd: SignalFd)
    requires i < |g| && g[i].refcount == 0
    ensures Refcounts(g[i := GroupFd(fd, 1)]) == Refcounts(g) + multiset{fd}
  {
    RefcountsPlus(g, i, fd);
  }

  lemma RefcountsMinus(g: seq<GroupFd>, i: nat, fd: SignalFd)
    requires i < |g| && g[i].refcount != 0 && g[i].fd == fd
    ensures Refcounts(g[i := GroupFd(fd, g[i].refcount - 1)]) == Refcounts(g) - multiset{fd}
  {
    var e := GroupFd(fd, g[i].refcount - 1);
    forall x ensures Refcounts(g[i := e])[x] == (Refcounts(g) - multiset{fd})[x] {
      RefcountsUpdated(g, i, e, x);
    }
  }

  lemma {:induction false} RefcountsGrown(g: seq<GroupFd>, n: nat)
    ensures Refcounts(g + seq(n, _ => GroupFd(0, 0))) == Refcounts(g)
    decreases |g| + n
  {
    var z := seq(n, _ => GroupFd(0, 0));
    if g != [] {
      RefcountsGrown(g[1..], n);
      assert (g + z)[1..] == g[1..] + z;
    } else if n > 0 {
      RefcountsGrown([], n - 1);
      assert (g + z)[1..] == [] + seq(n - 1, _ => GroupFd(0, 0));
    } else {
      assert g + z == [];
    }
  }

  lemma {:induction false} RefcountsAbsent(g: seq<GroupFd>, x: SignalFd)
    requires forall i :: 0 <= i < |g| && g[i].refcount != 0 ==> g[i].fd != x
    ensures Refcounts(g)[x] == 0
  {
    if g != [] {
      RefcountsAbsent(g[1..], x);
    }
  }

  class ChildTable {
    var childStatuses: seq<Node>
    var unusedPidStatuses: seq<Node>
    var signalFds: seq<GroupFd>

    ghost predicate Valid()
      reads this
    {
      DistinctPids(childStatuses)
    }

    ghost function Abs(): Shared
      reads this
    {
      Shared(ToMap(childStatuses), Pids(unusedPidStatuses), Refcounts(signalFds))
    }

    constructor ()
      ensures Valid() && Abs() == Shared(map[], {}, multiset{})
    {
      childStatuses, unusedPidStatuses, signalFds := [], [], [];
    }

    method AddGroupSignalFd(fd: SignalFd)
      modifies this`signalFds
      ensures Refcounts(signalFds) == old(Refcounts(signalFds)) + multiset{fd}
    {
      var i, count := 0, 0;
      ghost var free := 0;
      while i < |signalFds|
        invariant 0 <= i <= |signalFds| && 0 <= count <= i && signalFds == old(signalFds)
        invariant count < i ==> 0 <= free < i && signalFds[free].refcount == 0
      {
        if signalFds[i].refcount != 0 {
          count := count + 1;
          if signalFds[i].fd == fd {
            RefcountsPlus(signalFds, i, fd);
            signalFds := signalFds[i := GroupFd(fd, signalFds[i].refcount + 1)];
            return;
          }
        } else {
          free := i;
        }
        i := i + 1;
      }
      if count == |signalFds| {
        GrowSignalFds();
        free := count;
      }
      UseFreeEntry(fd, free);
    }

    method GrowSignalFds()
      modifies this`signalFds
      ensures |signalFds| > |old(signalFds)| && signalFds[|old(signalFds)|].refcount == 0
      ensures Refcounts(signalFds) == old(Refcounts(signalFds))
    {
      var count := |signalFds|;
      var signalFdCount := (count + 4) * 2;
      RefcountsGrown(signalFds, signalFdCount - count);
      signalFds := signalFds + seq(signalFdCount - count, _ => GroupFd(0, 0));
    }

    method UseFreeEntry(fd: SignalFd, ghost free: nat)
      requires free < |signalFds| && signalFds[free].refcount == 0
      modifies this`signalFds
      ensures Refcounts(signalFds) == old(Refcounts(signalFds)) + multiset{fd}
    {
      var i := 0;
      while i < |signalFds|
        invariant 0 <= i <= free && signalFds == old(signalFds)
      {
        if signalFds[i].refcount == 0 {
          RefcountsTaken(signalFds, i, fd);
          signalFds := signalFds[i := GroupFd(fd, 1)];
          return;
        }
        i := i + 1;
      }
    }

    method RemoveGroupSignalFd(fd: SignalFd)
      modifies this`signalFds
      ensures Refcounts(signalFds) == old(Refcounts(signalFds)) - multiset{fd}
    {
      var i := 0;
      while i < |signalFds|
        invariant 0 <= i <= |signalFds| && signalFds == old(signalFds)
        invariant forall k :: 0 <= k < i && signalFds[k].refcount != 0 ==> signalFds[k].fd != fd
      {
        if signalFds[i].refcount != 0 {
          if signalFds[i].fd == fd {
            RefcountsMinus(signalFds, i, fd);
            signalFds := signalFds[i := GroupFd(fd, signalFds[i].refcount - 1)];
            return;
          }
        }
        i := i + 1;
      }
      RefcountsAbsent(signalFds, fd);
    }

    /** The scans of `child_statuses`. */
    method Find(pid: Pid) returns (i: nat)
      requires Valid()
      ensures i <= |childStatuses|
      ensures i < |childStatuses| ==>
        childStatuses[i].pid == pid && pid in ToMap(childStatuses) && ToMap(childStatuses)[pid] == childStatuses[i].record
      ensures i == |childStatuses| ==> pid !in ToMap(childStatuses)
    {
      i := 0;
      while i < |childStatuses|
        invariant i <= |childStatuses| && forall k :: 0 <= k < i ==> childStatuses[k].pid != pid
      {
        if childStatuses[i].pid == pid {
          ToMapAt(childStatuses, i);
          return;
        }
        i := i + 1;
      }
    }

    /** The handle to which `rktio_signal_received_at` is posted is that of the record, if there is one. */
    method AddChildStatus(pid: Pid, status: int) returns (posted: Option<SignalFd>)
      requires Valid()
      modifies this
      ensures Valid() && Abs() == AddStatus(old(Abs()), pid, status)
      ensures posted == if pid in old(Abs()).children then old(Abs()).children[pid].signalFd else None
    {
      posted := None;
      var i := Find(pid);
      if i == |childStatuses| {
        ghost var l := childStatuses;
        childStatuses := [Node(pid, Record(status, true, false, None))] + childStatuses;
        assert childStatuses[1..] == l;
      } else {
        var r := childStatuses[i].record;
        ToMapUpdated(childStatuses, i, r.(status := status, done := true));
        childStatuses := childStatuses[i := childStatuses[i].(record := r.(status := status, done := true))];
        if r.signalFd.Some? && r.inGroup {
          RemoveGroupSignalFd(r.signalFd.value);
        }
        posted := r.signalFd;
      }
    }

    method RawGetChildStatus(pid: Pid, doneOnly: bool, doRemove: bool) returns (found: bool, status: int)
      requires Valid()
      modifies this`childStatuses
      ensures Valid()
      ensures found <==> pid in old(Abs()).children && (doneOnly ==> old(Abs()).children[pid].done)
      ensures found ==> status == old(Abs()).children[pid].status
      ensures Abs() == if found && doRemove then old(Abs()).(children := old(Abs()).children - {pid}) else old(Abs())
    {
      found, status := false, 0;
      var i := Find(pid);
      if i < |childStatuses| && (!doneOnly || childStatuses[i].record.done) {
        status := childStatuses[i].record.status;
        found := true;
        if doRemove {
          ToMapRemoved(childStatuses, i);
          DistinctRemoved(childStatuses, i);
          childStatuses := childStatuses[..i] + childStatuses[i + 1..];
        }
      }
    }

    method CollectChildStatus(pid: Pid) returns (found: bool, status: int)
      requires Valid()
      modifies this`childStatuses
      ensures Valid()
      ensures Collect(old(Abs()), pid) == (Abs(), if found then Some(status) else None)
    {
      found, status := RawGetChildStatus(pid, true, true);
    }

    method RegisterChild(pid: Pid, inGroup: bool, signalFd: SignalFd) returns (found: bool, status: int)
      requires Valid()
      modifies this
      ensures Valid() && Abs() == Register(old(Abs()), pid, inGroup, signalFd)
      ensures found <==> pid in old(Abs()).children
    {
      found, status := RawGetChildStatus(pid, false, false);
      if !found {
        ghost var l := childStatuses;
        childStatuses := [Node(pid, Record(0, false, inGroup, Some(signalFd)))] + childStatuses;
        assert childStatuses[1..] == l;
        if inGroup {
          AddGroupSignalFd(signalFd);
        }
      }
    }

    method DoneWithProcessId(pid: Pid)
      requires Valid()
      modifies this
      ensures Valid() && Abs() == DoneWith(old(Abs()), pid)
    {
      var i := Find(pid);
      if i < |childStatuses| {
        var r := childStatuses[i].record;
        if !r.done {
          PidsCons(Node(pid, r.(signalFd := None)), unusedPidStatuses);
          unusedPidStatuses := [Node(pid, r.(signalFd := None))] + unusedPidStatuses;
          if r.signalFd.Some? && r.inGroup {
            RemoveGroupSignalFd(r.signalFd.value);
          }
        }
        var found, status := RawGetChildStatus(pid, false, true);
      }
    }

    /** `do_group_signal_fds`: one post for every fd that some record holds. */
    method DoGroupSignalFds() returns (posted: seq<SignalFd>)
      ensures forall fd :: fd in posted <==> fd in Refcounts(signalFds)
    {
      posted := [];
      var i := 0;
      while i < |signalFds|
        invariant 0 <= i <= |signalFds|
        invariant forall fd ::
          fd in posted <==> exists k :: 0 <= k < i && signalFds[k].refcount != 0 && signalFds[k].fd == fd
      {
        if signalFds[i].refcount != 0 {
          posted := posted + [signalFds[i].fd];
        }
        i := i + 1;
      }
      forall fd ensures fd in posted <==> fd in Refcounts(signalFds) {
        if fd in posted {
          var k: nat :| k < |signalFds| && signalFds[k].refcount != 0 && signalFds[k].fd == fd;
          RefcountsUpdated(signalFds, k, signalFds[k], fd);
        } else {
          RefcountsAbsent(signalFds, fd);
        }
      }
    }
  }
}
