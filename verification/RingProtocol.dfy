/** The ring under any number of reading and writing threads: one mutex, two condition variables with
    `notify_one`, spurious wake-ups, and a stop flag raised by a signal handler that does not take the
    mutex. Every test, block, critical section and notification is a step of its own. */
module RingProtocol {
  import opened Bytes
  import opened Ring

  datatype Role = Reader | Writer

  /** Testing, Blocking and Passed hold the mutex: about to evaluate the wait predicate, predicate false
      and about to block, wait finished. Asleep is blocked and unsignalled, Woken has still to re-acquire
      the mutex. */
  datatype Phase = Testing | Blocking | Passed | Asleep | Woken

  datatype Thread = Idle | In(role: Role, phase: Phase)

  datatype State = State(
    ring: Ring,
    stop: bool,
    threads: seq<Thread>,
    args: seq<seq<Byte>>,       // what each writing thread is trying to store
    lock: Option<nat>,
    accepted: seq<seq<Byte>>,   // history of writes that returned true
    completed: seq<seq<Byte>>)  // history of reads that returned true

  datatype Event =
    | Enter(i: nat, role: Role, data: seq<Byte>)
    | Reacquire(i: nat)
    | Test(i: nat)
    | Block(i: nat)
    | Finish(i: nat, wake: Option<nat>)
    | Spurious(i: nat)
    | RaiseStop
    | NotifyAll(role: Role)

  ghost predicate Init(s: State) {
    && Empty(s.ring)
    && !s.stop
    && |s.args| == |s.threads|
    && (forall i :: 0 <= i < |s.threads| ==> s.threads[i] == Idle)
    && s.lock == None
    && s.accepted == [] && s.completed == []
  }

  predicate Holds(t: Thread) {
    t.In? && (t.phase == Testing || t.phase == Blocking || t.phase == Passed)
  }

  /** The predicate passed to `wait`. */
  predicate MayProceed(s: State, role: Role) {
    s.stop || (if role == Reader then s.ring.count != 0 else s.ring.count != s.ring.capacity)
  }

  /** The check after the wait that makes the call return false. */
  predicate GivesUp(s: State, role: Role) {
    s.stop && (if role == Reader then s.ring.count == 0 else s.ring.count == s.ring.capacity)
  }

  function Other(role: Role): Role {
    if role == Reader then Writer else Reader
  }

  /** `notify_one` wakes some sleeper of that role, or nobody if there is none. */
  predicate Notifies(threads: seq<Thread>, role: Role, wake: Option<nat>) {
    if In(role, Asleep) in threads
    then wake.Some? && wake.value < |threads| && threads[wake.value] == In(role, Asleep)
    else wake == None
  }

  ghost predicate Enabled(s: State, e: Event) {
    && s.ring.Shaped() && |s.args| == |s.threads|
    && match e
       case Enter(i, role, data) =>
         && i < |s.threads| && s.threads[i] == Idle && s.lock == None
         && (role == Writer ==> 0 < |data| <= SLOT_SIZE)
       case Reacquire(i) =>
         i < |s.threads| && s.threads[i].In? && s.threads[i].phase == Woken && s.lock == None
       case Test(i) => i < |s.threads| && s.threads[i].In? && s.threads[i].phase == Testing
       case Block(i) => i < |s.threads| && s.threads[i].In? && s.threads[i].phase == Blocking
       case Finish(i, wake) =>
         && i < |s.threads| && s.threads[i].In? && s.threads[i].phase == Passed
         && (s.threads[i].role == Writer ==> |s.args[i]| <= SLOT_SIZE)
         && (if GivesUp(s, s.threads[i].role) then wake == None
             else Notifies(s.threads, Other(s.threads[i].role), wake))
       case Spurious(i) => i < |s.threads| && s.threads[i].In? && s.threads[i].phase == Asleep
       case RaiseStop => true
       case NotifyAll(role) => true
  }

  function Wake(threads: seq<Thread>, wake: Option<nat>): seq<Thread>
    requires wake.Some? ==> wake.value < |threads| && threads[wake.value].In?
  {
    if wake.None? then threads else threads[wake.value := In(threads[wake.value].role, Woken)]
  }

  function WakeAll(threads: seq<Thread>, role: Role): (r: seq<Thread>)
    ensures |r| == |threads|
    ensures forall i :: 0 <= i < |r| ==> r[i] == if threads[i] == In(role, Asleep) then In(role, Woken) else threads[i]
  {
    seq(|threads|, i requires 0 <= i < |threads| =>
      if threads[i] == In(role, Asleep) then In(role, Woken) else threads[i])
  }

  ghost function Apply(s: State, e: Event): State
    requires Enabled(s, e)
  {
    match e
    case Enter(i, role, data) =>
      s.(threads := s.threads[i := In(role, Testing)], args := s.args[i := data], lock := Some(i))
    case Reacquire(i) =>
      s.(threads := s.threads[i := In(s.threads[i].role, Testing)], lock := Some(i))
    case Test(i) =>
      var role := s.threads[i].role;
      s.(threads := s.threads[i := In(role, if MayProceed(s, role) then Passed else Blocking)])
    case Block(i) =>
      s.(threads := s.threads[i := In(s.threads[i].role, Asleep)], lock := None)
    case Finish(i, wake) =>
      var role := s.threads[i].role;
      var after := s.(threads := Wake(s.threads[i := Idle], wake), lock := None);
      if GivesUp(s, role) then after
      else if role == Writer then
        after.(ring := s.ring.Put(s.args[i]), accepted := s.accepted + [s.args[i]])
      else
        after.(ring := s.ring.Take(), completed := s.completed + [s.ring.Slot(s.ring.tail)])
    case Spurious(i) => s.(threads := s.threads[i := In(s.threads[i].role, Woken)])
    case RaiseStop => s.(stop := true)
    case NotifyAll(role) => s.(threads := WakeAll(s.threads, role))
  }

  ghost predicate Next(s: State, s': State) {
    exists e :: Enabled(s, e) && s' == Apply(s, e)
  }

  /** A run: consecutive states related by steps of any threads. */
  ghost predicate Run(trace: seq<State>) {
    && |trace| > 0
    && forall k :: 0 <= k < |trace| - 1 ==> Next(trace[k], trace[k + 1])
  }

  // ---- Mutual exclusion and what each phase knows -----------------------------------------------

  ghost predicate Exclusive(s: State) {
    && |s.args| == |s.threads|
    && (forall i :: 0 <= i < |s.threads| ==> (Holds(s.threads[i]) <==> s.lock == Some(i)))
    && (s.lock.Some? ==> s.lock.value < |s.threads|)
  }

  ghost predicate Justified(s: State)
    requires |s.args| == |s.threads|
  {
    forall i :: 0 <= i < |s.threads| ==> JustifiedAt(s, i)
  }

  ghost predicate JustifiedAt(s: State, i: nat)
    requires |s.args| == |s.threads| && i < |s.threads|
  {
    s.threads[i].In? ==>
      var role, phase := s.threads[i].role, s.threads[i].phase;
      && (role == Writer ==> 0 < |s.args[i]| <= SLOT_SIZE)
      && (phase == Passed ==> MayProceed(s, role))
      && (phase == Blocking ==> s.ring.count == if role == Reader then 0 else s.ring.capacity)
  }

  /** The linearised history: accepted writes are the completed reads followed by the live slots. */
  ghost predicate Fifo(s: State) {
    s.ring.Valid() && s.accepted == s.completed + s.ring.Contents()
  }

  // ---- No lost wake-up --------------------------------------------------------------------------

  /** How many threads are in exactly this state. */
  ghost function Tally(threads: seq<Thread>, t: Thread): nat {
    if threads == [] then 0 else (if threads[0] == t then 1 else 0) + Tally(threads[1..], t)
  }

  ghost function Sleepers(threads: seq<Thread>, role: Role): nat {
    Tally(threads, In(role, Asleep))
  }

  /** Threads of a role that are awake inside the call and have not yet been through the critical section
      or back to sleep. */
  ghost function Active(threads: seq<Thread>, role: Role): nat {
    Tally(threads, In(role, Woken)) + Tally(threads, In(role, Testing)) + Tally(threads, In(role, Passed))
  }

  /** Items a reader could take, or free slots a writer could fill. */
  ghost function Work(s: State, role: Role): int {
    if role == Reader then s.ring.count else s.ring.capacity - s.ring.count
  }

  ghost predicate NoLostWakeup(s: State) {
    forall role :: Sleepers(s.threads, role) > 0 ==> Work(s, role) <= Active(s.threads, role)
  }

  ghost predicate Inv(s: State) {
    Exclusive(s) && Fifo(s) && Justified(s) && NoLostWakeup(s)
  }

  // ---- Preservation -----------------------------------------------------------------------------

  lemma {:induction false} TallyMember(threads: seq<Thread>, t: Thread)
    ensures Tally(threads, t) > 0 <==> t in threads
  {
    if threads != [] {
      TallyMember(threads[1..], t);
      assert threads == [threads[0]] + threads[1..];
    }
  }

  lemma {:induction false} TallyUpdate(threads: seq<Thread>, i: nat, now: Thread, t: Thread)
    requires i < |threads|
    ensures Tally(threads[i := now], t) == Tally(threads, t)
              - (if threads[i] == t then 1 else 0) + (if now == t then 1 else 0)
  {
    if i > 0 {
      TallyUpdate(threads[1..], i - 1, now, t);
      assert threads[i := now][1..] == threads[1..][i - 1 := now];
    } else {
      assert threads[i := now][1..] == threads[1..];
    }
  }

  predicate IsActive(t: Thread, role: Role) {
    t == In(role, Woken) || t == In(role, Testing) || t == In(role, Passed)
  }

  lemma Moved(threads: seq<Thread>, i: nat, now: Thread, role: Role)
    requires i < |threads|
    ensures Sleepers(threads[i := now], role) == Sleepers(threads, role)
              - (if threads[i] == In(role, Asleep) then 1 else 0) + (if now == In(role, Asleep) then 1 else 0)
    ensures Active(threads[i := now], role) == Active(threads, role)
              - (if IsActive(threads[i], role) then 1 else 0) + (if IsActive(now, role) then 1 else 0)
  {
    TallyUpdate(threads, i, now, In(role, Asleep));
    TallyUpdate(threads, i, now, In(role, Woken));
    TallyUpdate(threads, i, now, In(role, Testing));
    TallyUpdate(threads, i, now, In(role, Passed));
  }

  lemma {:induction false} TallyWakeAll(threads: seq<Thread>, woken: Role, t: Thread)
    ensures t == In(woken, Asleep) ==> Tally(WakeAll(threads, woken), t) == 0
    ensures t != In(woken, Asleep) ==> Tally(WakeAll(threads, woken), t) >= Tally(threads, t)
    ensures t != In(woken, Asleep) && t != In(woken, Woken) ==>
              Tally(WakeAll(threads, woken), t) == Tally(threads, t)
  {
    if threads != [] {
      TallyWakeAll(threads[1..], woken, t);
      assert WakeAll(threads, woken)[1..] == WakeAll(threads[1..], woken);
    }
  }

  lemma ExclusiveAt(s: State, e: Event, i: nat)
    requires Exclusive(s) && Enabled(s, e) && i < |s.threads|
    ensures var s' := Apply(s, e);
            |s'.threads| == |s.threads| && (Holds(s'.threads[i]) <==> s'.lock == Some(i))
  {
  }

  lemma ExclusiveStep(s: State, e: Event)
    requires Exclusive(s) && Enabled(s, e)
    ensures Exclusive(Apply(s, e))
  {
    var s' := Apply(s, e);
    assert |s'.threads| == |s.threads| == |s'.args|;
    forall i | 0 <= i < |s.threads| ensures Holds(s'.threads[i]) <==> s'.lock == Some(i) {
      ExclusiveAt(s, e, i);
    }
  }

  lemma FifoStep(s: State, e: Event)
    requires Inv(s) && Enabled(s, e)
    ensures Fifo(Apply(s, e))
  {
    if e.Finish? && !GivesUp(s, s.threads[e.i].role) {
      assert JustifiedAt(s, e.i);
      if s.threads[e.i].role == Writer {
        PutAppends(s.ring, s.args[e.i]);
        Regroup(s.completed, s.ring.Contents(), [s.args[e.i]]);
      } else {
        TakeRemoves(s.ring);
        Regroup(s.completed, [s.ring.Slot(s.ring.tail)], s.ring.Take().Contents());
      }
    }
  }

  lemma Regroup<T>(a: seq<T>, b: seq<T>, c: seq<T>)
    ensures a + b + c == a + (b + c)
  {
  }

  lemma JustifiedStep(s: State, e: Event)
    requires Exclusive(s) && Justified(s) && Enabled(s, e)
    ensures |Apply(s, e).args| == |Apply(s, e).threads| && Justified(Apply(s, e))
  {
    ExclusiveStep(s, e);
    forall i | 0 <= i < |s.threads| ensures JustifiedAt(Apply(s, e), i) {
      JustifiedAtStep(s, e, i);
    }
  }

  lemma JustifiedAtStep(s: State, e: Event, i: nat)
    requires Exclusive(s) && Enabled(s, e) && i < |s.threads| && JustifiedAt(s, i)
    ensures |Apply(s, e).args| == |Apply(s, e).threads| == |s.threads| && JustifiedAt(Apply(s, e), i)
  {
    if e.Finish? {
      assert s.lock == Some(e.i);
    }
  }

  /** The critical section is where a wake-up could get lost: it changes the work of both roles. */
  lemma WakeupAfterFinish(s: State, e: Event, role: Role)
    requires Inv(s) && Enabled(s, e) && e.Finish?
    requires Sleepers(Apply(s, e).threads, role) > 0
    ensures Work(Apply(s, e), role) <= Active(Apply(s, e).threads, role)
  {
    var mine := s.threads[e.i].role;
    assert JustifiedAt(s, e.i);
    FinishCounts(s.threads, e.i, e.wake, role);
    if !GivesUp(s, mine) && role != mine {
      TallyMember(s.threads, In(role, Asleep));
    }
  }

  lemma FinishCounts(threads: seq<Thread>, i: nat, wake: Option<nat>, role: Role)
    requires i < |threads| && threads[i].In? && threads[i].phase == Passed
    requires wake.Some? ==> wake.value < |threads| && threads[wake.value].In? && threads[wake.value].phase == Asleep
    ensures var mine, woken := threads[i].role == role, wake.Some? && threads[wake.value].role == role;
            var after := Wake(threads[i := Idle], wake);
            && Sleepers(after, role) == Sleepers(threads, role) - (if woken then 1 else 0)
            && Active(after, role) == Active(threads, role) - (if mine then 1 else 0) + (if woken then 1 else 0)
  {
    Moved(threads, i, Idle, role);
    if wake.Some? {
      Moved(threads[i := Idle], wake.value, In(threads[wake.value].role, Woken), role);
    }
  }

  lemma WakeupStep(s: State, e: Event)
    requires Inv(s) && Enabled(s, e)
    ensures NoLostWakeup(Apply(s, e))
  {
    var s' := Apply(s, e);
    forall role | Sleepers(s'.threads, role) > 0
      ensures Work(s', role) <= Active(s'.threads, role)
    {
      match e
      case Finish(i, wake) => WakeupAfterFinish(s, e, role);
      case NotifyAll(woken) => WakeupAfterNotify(s, woken, role);
      case RaiseStop =>
      case _ => WakeupAfterMove(s, e, role);
    }
  }

  lemma WakeupAfterNotify(s: State, woken: Role, role: Role)
    requires NoLostWakeup(s) && Sleepers(WakeAll(s.threads, woken), role) > 0
    ensures Work(s, role) <= Active(WakeAll(s.threads, woken), role)
  {
    TallyWakeAll(s.threads, woken, In(role, Asleep));
    TallyWakeAll(s.threads, woken, In(role, Woken));
    TallyWakeAll(s.threads, woken, In(role, Testing));
    TallyWakeAll(s.threads, woken, In(role, Passed));
  }

  /** Steps of one thread outside the critical section; a thread that falls asleep found no work. */
  lemma WakeupAfterMove(s: State, e: Event, role: Role)
    requires Inv(s) && Enabled(s, e) && (e.Enter? || e.Reacquire? || e.Test? || e.Block? || e.Spurious?)
    requires Sleepers(Apply(s, e).threads, role) > 0
    ensures Work(Apply(s, e), role) <= Active(Apply(s, e).threads, role)
  {
    assert JustifiedAt(s, e.i);
    Moved(s.threads, e.i, Apply(s, e).threads[e.i], role);
  }

  lemma InvStep(s: State, s': State)
    requires Inv(s) && Next(s, s')
    ensures Inv(s')
  {
    var e :| Enabled(s, e) && s' == Apply(s, e);
    ExclusiveStep(s, e);
    FifoStep(s, e);
    JustifiedStep(s, e);
    WakeupStep(s, e);
  }

  lemma InvInit(s: State)
    requires Init(s)
    ensures Inv(s)
  {
    forall role ensures Sleepers(s.threads, role) == 0 {
      TallyMember(s.threads, In(role, Asleep));
    }
  }

  /** Every state of every run, for any number of threads and any interleaving. */
  lemma {:induction false} Always(trace: seq<State>, k: nat)
    requires Run(trace) && Init(trace[0]) && k < |trace|
    ensures Inv(trace[k])
  {
    if k == 0 {
      InvInit(trace[0]);
    } else {
      Always(trace, k - 1);
      assert Next(trace[k - 1], trace[k - 1 + 1]);
      InvStep(trace[k - 1], trace[k]);
    }
  }

  // ---- The theorems -----------------------------------------------------------------------------

  /** While somebody sleeps there is at most as much work for the role as threads of it that are awake in the
      call. With the mutex free these are the signalled ones: sleeping readers mean at most as many items as
      signalled readers, sleeping writers at most as many free slots as signalled writers. Readers and writers
      never all sleep. */
  lemma NoLostWakeupEver(trace: seq<State>, k: nat)
    requires Run(trace) && Init(trace[0]) && k < |trace|
    ensures var s := trace[k];
            forall role :: In(role, Asleep) in s.threads ==> Work(s, role) <= Active(s.threads, role)
    ensures var s := trace[k];
            s.lock == None ==>
              && (In(Reader, Asleep) in s.threads ==> s.ring.count <= Tally(s.threads, In(Reader, Woken)))
              && (In(Writer, Asleep) in s.threads ==>
                   s.ring.capacity - s.ring.count <= Tally(s.threads, In(Writer, Woken)))
    ensures var s := trace[k];
            In(Reader, Asleep) in s.threads && In(Writer, Asleep) in s.threads ==>
              exists i :: 0 <= i < |s.threads| && s.threads[i] != Idle
                          && (s.threads[i].phase == Woken || Holds(s.threads[i]))
  {
    var s := trace[k];
    Always(trace, k);
    if s.lock == None {
      UnlockedActive(s, Reader);
      UnlockedActive(s, Writer);
    }
    TallyMember(s.threads, In(Reader, Asleep));
    TallyMember(s.threads, In(Writer, Asleep));
    assert NoLostWakeup(s);
    assert Sleepers(s.threads, Reader) > 0 ==> Work(s, Reader) <= Active(s.threads, Reader);
    assert Sleepers(s.threads, Writer) > 0 ==> Work(s, Writer) <= Active(s.threads, Writer);
    if In(Reader, Asleep) in s.threads && In(Writer, Asleep) in s.threads {
      assert Active(s.threads, Reader) + Active(s.threads, Writer) > 0;
      ActiveThread(s.threads, if Active(s.threads, Reader) > 0 then Reader else Writer);
    }
  }

  lemma UnlockedActive(s: State, role: Role)
    requires Exclusive(s) && s.lock == None
    ensures Active(s.threads, role) == Tally(s.threads, In(role, Woken))
  {
    TallyMember(s.threads, In(role, Testing));
    TallyMember(s.threads, In(role, Passed));
  }

  lemma ActiveThread(threads: seq<Thread>, role: Role)
    requires Active(threads, role) > 0
    ensures exists i :: 0 <= i < |threads| && threads[i] != Idle
                        && (threads[i].phase == Woken || Holds(threads[i]))
  {
    TallyMember(threads, In(role, Woken));
    TallyMember(threads, In(role, Testing));
    TallyMember(threads, In(role, Passed));
    assert In(role, Woken) in threads || In(role, Testing) in threads || In(role, Passed) in threads;
  }

  /** Linearised FIFO in every reachable state, byte for byte, with the head where the code keeps it. */
  lemma FifoEver(trace: seq<State>, k: nat)
    requires Run(trace) && Init(trace[0]) && k < |trace|
    ensures var s := trace[k];
            && s.ring.Valid()
            && s.accepted == s.completed + s.ring.Contents()
            && s.ring.head == (s.ring.tail + s.ring.count) % s.ring.capacity
  {
    Always(trace, k);
    IndexIsModulo(trace[k].ring.tail + trace[k].ring.count, trace[k].ring.capacity);
  }

  /** A write that is let through never touches a live slot, and a read only ever takes a live one. */
  lemma CriticalSectionSafe(trace: seq<State>, k: nat, e: Event, j: nat)
    requires Run(trace) && Init(trace[0]) && k < |trace|
    requires Enabled(trace[k], e) && e.Finish? && !GivesUp(trace[k], trace[k].threads[e.i].role)
    ensures trace[k].ring.Valid()
    ensures trace[k].threads[e.i].role == Reader ==> trace[k].ring.count > 0
    ensures trace[k].threads[e.i].role == Writer ==> trace[k].ring.count < trace[k].ring.capacity
    ensures trace[k].threads[e.i].role == Writer && j < trace[k].ring.count ==>
              var at := Index(trace[k].ring.tail + j, trace[k].ring.capacity);
              Apply(trace[k], e).ring.Shaped() && Apply(trace[k], e).ring.Slot(at) == trace[k].ring.Slot(at)
  {
    Always(trace, k);
    assert JustifiedAt(trace[k], e.i);
    FinishSafe(trace[k], e, j);
  }

  lemma FinishSafe(s: State, e: Event, j: nat)
    requires Enabled(s, e) && e.Finish? && !GivesUp(s, s.threads[e.i].role)
    requires s.ring.Valid() && JustifiedAt(s, e.i)
    ensures Work(s, s.threads[e.i].role) > 0
    ensures s.threads[e.i].role == Writer && j < s.ring.count ==>
              var at := Index(s.ring.tail + j, s.ring.capacity);
              Apply(s, e).ring.Shaped() && Apply(s, e).ring.Slot(at) == s.ring.Slot(at)
  {
    if s.threads[e.i].role == Writer && j < s.ring.count {
      LiveSlotKept(s.ring, s.args[e.i], j);
    }
  }

  lemma LiveSlotKept(r: Ring, data: seq<Byte>, j: nat)
    requires r.Valid() && r.count < r.capacity && |data| <= SLOT_SIZE && j < r.count
    ensures r.Put(data).Shaped()
    ensures var at := Index(r.tail + j, r.capacity); r.Put(data).Slot(at) == r.Slot(at)
  {
    HeadIsFree(r, j);
    PutFrame(r, data, Index(r.tail + j, r.capacity));
  }

  // ---- The stop signal --------------------------------------------------------------------------

  /** After the flag is raised nobody starts to block, so nobody of this role can fall asleep again. */
  ghost predicate Settled(s: State, role: Role) {
    s.stop && forall i :: 0 <= i < |s.threads| ==>
      s.threads[i] != In(role, Asleep) && s.threads[i] != In(role, Blocking)
  }

  /** With the flag up, a step puts a thread to sleep only if it was already about to block. */
  lemma NobodyStartsBlocking(s: State, e: Event, role: Role, i: nat)
    requires s.stop && Enabled(s, e) && i < |s.threads|
    requires s.threads[i] != In(role, Asleep) && s.threads[i] != In(role, Blocking)
    ensures var t := Apply(s, e).threads;
            |t| == |s.threads| && t[i] != In(role, Asleep) && t[i] != In(role, Blocking)
  {
  }

  lemma SettledStep(s: State, s': State, role: Role)
    requires Settled(s, role) && Next(s, s')
    ensures Settled(s', role)
  {
    var e :| Enabled(s, e) && s' == Apply(s, e);
    assert |s'.threads| == |s.threads|;
    forall i | 0 <= i < |s.threads|
      ensures s'.threads[i] != In(role, Asleep) && s'.threads[i] != In(role, Blocking)
    {
      NobodyStartsBlocking(s, e, role, i);
    }
  }

  lemma {:induction false} SettledRun(trace: seq<State>, role: Role, k: nat)
    requires Run(trace) && Settled(trace[0], role) && k < |trace|
    ensures Settled(trace[k], role)
  {
    if k > 0 {
      SettledRun(trace, role, k - 1);
      assert Next(trace[k - 1], trace[k - 1 + 1]);
      SettledStep(trace[k - 1], trace[k], role);
    }
  }

  ghost predicate SleepsLater(s: State, role: Role) {
    exists trace: seq<State>, k: nat ::
      Run(trace) && trace[0] == s && k < |trace| && In(role, Asleep) in trace[k].threads
  }

  /** The handler raises the flag and then notifies without the mutex. From the notification on, some
      thread of the role can sleep through the stop exactly when one is caught between its predicate test
      and its block at that moment. */
  lemma StopMissedExactly(s: State, role: Role)
    requires s.stop && Enabled(s, NotifyAll(role))
    ensures SleepsLater(Apply(s, NotifyAll(role)), role) <==> In(role, Blocking) in s.threads
  {
    var s1 := Apply(s, NotifyAll(role));
    if In(role, Blocking) in s.threads {
      var i :| 0 <= i < |s.threads| && s.threads[i] == In(role, Blocking);
      assert Enabled(s1, Block(i));
      var trace := [s1, Apply(s1, Block(i))];
      assert Next(trace[0], trace[1]);
      assert Run(trace);
      assert trace[1].threads[i] == In(role, Asleep);
    } else {
      assert Settled(s1, role) by {
        assert forall i :: 0 <= i < |s.threads| ==> s.threads[i] in s.threads;
      }
      forall trace: seq<State>, k: nat | Run(trace) && trace[0] == s1 && k < |trace|
        ensures In(role, Asleep) !in trace[k].threads
      {
        SettledRun(trace, role, k);
      }
    }
  }

  // ---- The miss happens -------------------------------------------------------------------------

  /** Some run from a ring just made leads to this state. */
  ghost predicate Reachable(r: Ring, s: State) {
    exists trace: seq<State> :: Run(trace) && Init(trace[0]) && trace[0].ring == r && trace[|trace| - 1] == s
  }

  lemma ReachableStep(r: Ring, s: State, e: Event)
    requires Reachable(r, s) && Enabled(s, e)
    ensures Reachable(r, Apply(s, e))
  {
    var trace: seq<State> :| Run(trace) && Init(trace[0]) && trace[0].ring == r && trace[|trace| - 1] == s;
    var longer := trace + [Apply(s, e)];
    forall k | 0 <= k < |longer| - 1 ensures Next(longer[k], longer[k + 1]) {
      if k < |trace| - 1 {
        assert Next(trace[k], trace[k + 1]);
      }
    }
    assert longer[0] == trace[0] && longer[|longer| - 1] == Apply(s, e);
    assert Run(longer);
  }

  /** One thread, outside the ring, which holds n slots. */
  ghost predicate AtRest(r: Ring, s: State, n: nat) {
    && Reachable(r, s) && s.ring.Valid() && s.ring.count == n && s.ring.capacity == r.capacity
    && s.threads == [Idle] && |s.args| == 1 && s.lock == None && !s.stop
  }

  lemma WriteOnce(r: Ring, s: State, n: nat) returns (s': State)
    requires AtRest(r, s, n) && n < r.capacity
    ensures AtRest(r, s', n + 1)
  {
    ReachableStep(r, s, Enter(0, Writer, [0]));
    var s1 := Apply(s, Enter(0, Writer, [0]));
    ReachableStep(r, s1, Test(0));
    var s2 := Apply(s1, Test(0));
    ReachableStep(r, s2, Finish(0, None));
    s' := Apply(s2, Finish(0, None));
    PutAppends(s2.ring, [0]);
  }

  lemma {:induction false} WriteMany(r: Ring, n: nat) returns (s: State)
    requires Empty(r) && n <= r.capacity
    ensures AtRest(r, s, n)
  {
    if n == 0 {
      s := State(r, false, [Idle], [[]], None, [], []);
      assert Run([s]) && Init([s][0]);
    } else {
      s := WriteMany(r, n - 1);
      s := WriteOnce(r, s, n - 1);
    }
  }

  /** Neither role is safe: from every new ring a run leads to a raised flag and a thread of the role that the
      following notification misses. */
  lemma StopCanBeMissed(r: Ring, role: Role) returns (s: State)
    requires Empty(r)
    ensures Reachable(r, s) && s.stop && Enabled(s, NotifyAll(role))
    ensures SleepsLater(Apply(s, NotifyAll(role)), role)
  {
    s := WriteMany(r, if role == Reader then 0 else r.capacity);
    ReachableStep(r, s, Enter(0, role, [0]));
    s := Apply(s, Enter(0, role, [0]));
    ReachableStep(r, s, Test(0));
    s := Apply(s, Test(0));
    ReachableStep(r, s, RaiseStop);
    s := Apply(s, RaiseStop);
    assert s.threads[0] == In(role, Blocking);
    StopMissedExactly(s, role);
  }
}
