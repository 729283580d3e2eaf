/**
 * Blocking reads against notifications (uio_hv_generic/uio.c, uio_hv_generic/uio_hv_generic.c).
 *
 * Readers are threads inside `uio_read`, notifiers are threads inside `uio_event_notify`, `hv_uio_rescind` or
 * `uio_unregister_device`. Every statement that touches shared state is one step; a wake-up visits the waiters
 * one at a time. A run is any sequence of steps.
 *
 * Counters are kept as totals; the kernel keeps their residues, and every comparison and every value handed to
 * the user is taken modulo 2^32.
 */
module UioEvents {

  const EVENT_MODULUS: nat := 0x1_0000_0000

  datatype Outcome = Delivered(value: nat) | EIO | EFAULT | EAGAIN | ERESTARTSYS

  datatype Task = Running | Interruptible

  datatype Position =
    | Outside
    | Enqueued             // on the wait queue, about to look at info and irq
    | Checked               // both were set
    | Armed                // the task state has been set to interruptible
    | Loaded(value: nat)   // the event counter has been read
    | Copying(value: nat)  // it differed from the listener's count
    | Idle(value: nat)     // it was equal; about to give up or to sleep
    | Asleep(value: nat)   // in schedule(); sleeping as long as the task is interruptible
    | Leaving(outcome: Outcome)

  datatype Reader = Reader(file: nat, position: Position, task: Task)

  datatype Notifier =
    | Quiet
    | Rescinding           // irq has been cleared, the event not yet counted
    | Waking(next: nat)    // about to wake this reader

  /** `info` and `irq` say whether the pointer is set and the number is nonzero; `counts` holds the listeners'
      event counts, `openedAt` their values at open, `delivered` the values handed to each user so far. */
  datatype System = System(
    info: bool, irq: bool, event: nat,
    counts: seq<nat>, readers: seq<Reader>, notifiers: seq<Notifier>,
    rescindNotified: bool, openedAt: seq<nat>, delivered: seq<seq<nat>>)

  /** The steps of a thread in `uio_read`. */
  datatype Move =
    | Enter
    | CheckInfo
    | Arm
    | Load
    | Compare
    | Copy(faults: bool)
    | GiveUp(signal: bool)
    | Schedule
    | Signal
    | Resume
    | Leave

  /** The steps of a notifying thread. */
  datatype Call =
    | Notify           // uio_event_notify counts the event
    | ClearIrq         // hv_uio_rescind
    | NotifyRescind    // uio_event_notify on behalf of hv_uio_rescind
    | ClearInfo        // uio_unregister_device
    | WakeNext         // the wake-up that ends each of them reaches the next waiter

  datatype Action = Read(reader: nat, move: Move) | Raise(notifier: nat, call: Call)

  predicate WellFormed(s: System) {
    && |s.openedAt| == |s.delivered| == |s.counts|
    && forall j :: 0 <= j < |s.readers| ==> s.readers[j].file < |s.counts|
  }

  /** What a reader's own step does to its position and task state. */
  function Moved(s: System, r: Reader, m: Move): (t: Reader)
    requires r.file < |s.counts|
    ensures t.file == r.file
  {
    match (m, r.position)
    case (Enter, Outside) => r.(position := Enqueued)
    case (CheckInfo, Enqueued) => r.(position := if s.info && s.irq then Checked else Leaving(EIO))
    case (Arm, Checked) => r.(position := Armed, task := Interruptible)
    case (Load, Armed) => r.(position := Loaded(s.event))
    case (Compare, Loaded(v)) =>
      if v % EVENT_MODULUS != s.counts[r.file] % EVENT_MODULUS
      then r.(position := Copying(v), task := Running)
      else r.(position := Idle(v))
    case (Copy(faults), Copying(v)) =>
      r.(position := Leaving(if faults then EFAULT else Delivered(v % EVENT_MODULUS)))
    case (GiveUp(signal), Idle(_)) => r.(position := Leaving(if signal then ERESTARTSYS else EAGAIN))
    case (Schedule, Idle(v)) => r.(position := if r.task == Interruptible then Asleep(v) else Enqueued)
    case (Signal, Asleep(_)) => r.(task := Running)
    case (Resume, Asleep(_)) => if r.task == Running then r.(position := Enqueued) else r
    case (Leave, Leaving(_)) => r.(position := Outside, task := Running)
    case _ => r
  }

  predicate Stores(r: Reader, m: Move) {
    m.Copy? && !m.faults && r.position.Copying?
  }

  function ReadStep(s: System, j: nat, m: Move): System
    requires WellFormed(s) && j < |s.readers|
  {
    var r := s.readers[j];
    var t := s.(readers := s.readers[j := Moved(s, r, m)]);
    if Stores(r, m)
    then t.(counts := s.counts[r.file := r.position.value],
            delivered := s.delivered[r.file := s.delivered[r.file] + [r.position.value % EVENT_MODULUS]])
    else t
  }

  /** `wake_up_interruptible` on one waiter. */
  function Woken(r: Reader): Reader {
    if r.position.Outside? then r else r.(task := Running)
  }

  function RaiseStep(s: System, k: nat, c: Call): System
    requires k < |s.notifiers|
  {
    match (c, s.notifiers[k])
    case (Notify, Quiet) => s.(event := s.event + 1, notifiers := s.notifiers[k := Waking(0)])
    case (ClearIrq, Quiet) => s.(irq := false, notifiers := s.notifiers[k := Rescinding])
    case (NotifyRescind, Rescinding) =>
      s.(event := s.event + 1, notifiers := s.notifiers[k := Waking(0)], rescindNotified := true)
    case (ClearInfo, Quiet) => s.(info := false, notifiers := s.notifiers[k := Waking(0)])
    case (WakeNext, Waking(i)) =>
      if i < |s.readers|
      then s.(readers := s.readers[i := Woken(s.readers[i])], notifiers := s.notifiers[k := Waking(i + 1)])
      else s.(notifiers := s.notifiers[k := Quiet])
    case _ => s
  }

  /** One step; an action whose owner is not at the matching statement changes nothing. */
  function Step(s: System, a: Action): (t: System)
    requires WellFormed(s)
    ensures WellFormed(t)
    ensures |t.readers| == |s.readers| && |t.counts| == |s.counts|
    ensures forall j :: 0 <= j < |s.readers| ==> t.readers[j].file == s.readers[j].file
  {
    match a
    case Read(j, m) => if j < |s.readers| then ReadStep(s, j, m) else s
    case Raise(k, c) => if k < |s.notifiers| then RaiseStep(s, k, c) else s
  }

  function Run(s: System, actions: seq<Action>): (t: System)
    requires WellFormed(s)
    ensures WellFormed(t)
    ensures |t.readers| == |s.readers| && |t.counts| == |s.counts|
    ensures forall j :: 0 <= j < |s.readers| ==> t.readers[j].file == s.readers[j].file
    decreases |actions|
  {
    if actions == [] then s else Run(Step(s, actions[0]), actions[1..])
  }

  /** Listeners opened at some counts not ahead of the event counter; nobody is reading or notifying. */
  ghost predicate Initial(s: System) {
    && WellFormed(s)
    && (forall j :: 0 <= j < |s.readers| ==> s.readers[j].position.Outside? && s.readers[j].task == Running)
    && (forall k :: 0 <= k < |s.notifiers| ==> s.notifiers[k].Quiet?)
    && (forall f :: 0 <= f < |s.counts| ==> s.counts[f] == s.openedAt[f] <= s.event && s.delivered[f] == [])
    && !s.rescindNotified
  }

  /** Some notifier has counted its event but has not yet woken reader `j`. */
  ghost predicate WakePending(s: System, j: nat) {
    exists k :: 0 <= k < |s.notifiers| && s.notifiers[k].Waking? && s.notifiers[k].next <= j
  }

  predicate Sleeping(s: System, j: nat)
    requires j < |s.readers|
  {
    s.readers[j].position.Asleep? && s.readers[j].task == Interruptible
  }

  /** No two threads read through the same open file. */
  ghost predicate Exclusive(s: System) {
    forall i, j :: 0 <= i < j < |s.readers| ==> s.readers[i].file != s.readers[j].file
  }

  // ---------------------------------------------------------------------------------------------
  // No lost wake-up
  // ---------------------------------------------------------------------------------------------

  predicate Committed(r: Reader) {
    r.task == Interruptible && (r.position.Loaded? || r.position.Idle? || r.position.Asleep?)
  }

  /** A task that armed itself before loading the counter has seen the latest event or has a wake-up coming. */
  ghost predicate WakeInv(s: System) {
    forall j :: 0 <= j < |s.readers| && Committed(s.readers[j]) ==>
      s.readers[j].position.value == s.event || WakePending(s, j)
  }

  lemma ReadKeepsWakeInv(s: System, i: nat, m: Move)
    requires WellFormed(s) && WakeInv(s) && i < |s.readers|
    ensures WakeInv(ReadStep(s, i, m))
  {
    var t := ReadStep(s, i, m);
    forall j | 0 <= j < |t.readers| && Committed(t.readers[j])
      ensures t.readers[j].position.value == t.event || WakePending(t, j)
    {
      assert Committed(s.readers[j]) ==> WakePending(t, j) || s.readers[j].position.value == s.event by {
        assert WakePending(s, j) ==> WakePending(t, j);
      }
    }
  }

  lemma RaiseKeepsWakeInv(s: System, k: nat, c: Call)
    requires WellFormed(s) && WakeInv(s) && k < |s.notifiers|
    ensures WakeInv(RaiseStep(s, k, c))
  {
    var t := RaiseStep(s, k, c);
    forall j | 0 <= j < |t.readers| && Committed(t.readers[j])
      ensures t.readers[j].position.value == t.event || WakePending(t, j)
    {
      if t.notifiers[k] == Waking(0) {
        assert WakePending(t, j);
      } else if WakePending(s, j) {
        var w :| 0 <= w < |s.notifiers| && s.notifiers[w].Waking? && s.notifiers[w].next <= j;
        assert t.notifiers[w].Waking? && t.notifiers[w].next <= j;
      }
    }
  }

  lemma StepKeepsWakeInv(s: System, a: Action)
    requires WellFormed(s) && WakeInv(s)
    ensures WakeInv(Step(s, a))
  {
    hide WakeInv;
    match a
    case Read(i, m) => if i < |s.readers| { ReadKeepsWakeInv(s, i, m); }
    case Raise(k, c) => if k < |s.notifiers| { RaiseKeepsWakeInv(s, k, c); }
  }

  lemma {:induction false} RunKeepsWakeInv(s: System, actions: seq<Action>)
    requires WellFormed(s) && WakeInv(s)
    ensures WakeInv(Run(s, actions))
    decreases |actions|
  {
    hide WakeInv, Step;
    if actions != [] {
      StepKeepsWakeInv(s, actions[0]);
      RunKeepsWakeInv(Step(s, actions[0]), actions[1..]);
    }
  }

  /** In every run: a reader asleep with no wake-up on its way has seen the latest event. */
  lemma SleeperSawLatest(s: System, actions: seq<Action>, j: nat)
    requires Initial(s) && j < |s.readers|
    requires var t := Run(s, actions); Sleeping(t, j) && !WakePending(t, j)
    ensures var t := Run(s, actions); t.readers[j].position.value == t.event
  {
    RunKeepsWakeInv(s, actions);
  }

  // ---------------------------------------------------------------------------------------------
  // One reading thread per open file
  // ---------------------------------------------------------------------------------------------

  predicate CountOk(p: Position, count: nat, event: nat) {
    && (p.Loaded? || p.Copying? || p.Idle? || p.Asleep? ==> count <= p.value <= event)
    && (p.Idle? || p.Asleep? ==> p.value % EVENT_MODULUS == count % EVENT_MODULUS)
  }

  /** A listener's count is never ahead of what its reader loaded, nor that of the counter; a reader that found
      them equal still finds them equal. */
  ghost predicate CountInv(s: System)
    requires WellFormed(s)
  {
    && (forall f :: 0 <= f < |s.counts| ==> s.counts[f] <= s.event)
    && forall j :: 0 <= j < |s.readers| ==>
         CountOk(s.readers[j].position, s.counts[s.readers[j].file], s.event)
  }

  /** Between the check of irq and the end of the read. */
  predicate PastCheck(p: Position) {
    p.Checked? || p.Armed? || p.Loaded? || p.Idle? || p.Asleep?
  }

  /** Once a rescind has counted its event, no reader past the check has a count that includes it. */
  ghost predicate RescindInv(s: System)
    requires WellFormed(s)
  {
    && (forall k :: 0 <= k < |s.notifiers| && s.notifiers[k].Rescinding? ==> !s.irq)
    && (s.rescindNotified ==>
          && !s.irq
          && forall j :: 0 <= j < |s.readers| && PastCheck(s.readers[j].position) ==>
               s.counts[s.readers[j].file] < s.event)
  }

  ghost predicate FileInv(s: System) {
    WellFormed(s) && Exclusive(s) && CountInv(s) && RescindInv(s)
  }

  /** A read step leaves the other readers and their listeners alone. */
  lemma ReadIsLocal(s: System, i: nat, m: Move, j: nat)
    requires WellFormed(s) && Exclusive(s) && i < |s.readers| && j < |s.readers| && i != j
    ensures var t := ReadStep(s, i, m);
            && |t.readers| == |s.readers| && t.readers[j] == s.readers[j]
            && |t.counts| == |s.counts| && t.counts[s.readers[j].file] == s.counts[s.readers[j].file]
  {}

  lemma ReadKeepsCountInv(s: System, i: nat, m: Move)
    requires FileInv(s) && i < |s.readers|
    ensures WellFormed(ReadStep(s, i, m)) && CountInv(ReadStep(s, i, m))
  {
    hide RescindInv, Exclusive;
    var t := ReadStep(s, i, m);
    assert CountOk(s.readers[i].position, s.counts[s.readers[i].file], s.event);
    assert CountOk(t.readers[i].position, t.counts[t.readers[i].file], t.event);
    forall j | 0 <= j < |t.readers|
      ensures CountOk(t.readers[j].position, t.counts[t.readers[j].file], t.event)
    {
      if j != i { ReadIsLocal(s, i, m, j); }
    }
  }

  lemma ReadKeepsRescindInv(s: System, i: nat, m: Move)
    requires FileInv(s) && i < |s.readers|
    ensures WellFormed(ReadStep(s, i, m)) && RescindInv(ReadStep(s, i, m))
  {
    hide CountInv, Exclusive;
    var t := ReadStep(s, i, m);
    forall j | 0 <= j < |t.readers| && s.rescindNotified && PastCheck(t.readers[j].position)
      ensures t.counts[t.readers[j].file] < t.event
    {
      if j != i { ReadIsLocal(s, i, m, j); }
    }
  }

  lemma ReadKeepsFileInv(s: System, i: nat, m: Move)
    requires FileInv(s) && i < |s.readers|
    ensures FileInv(ReadStep(s, i, m))
  {
    hide CountInv, RescindInv;
    ReadKeepsCountInv(s, i, m);
    ReadKeepsRescindInv(s, i, m);
  }

  lemma RaiseIsRemote(s: System, k: nat, c: Call)
    requires WellFormed(s) && k < |s.notifiers|
    ensures var t := RaiseStep(s, k, c);
            && s.event <= t.event && t.counts == s.counts && t.delivered == s.delivered && t.openedAt == s.openedAt
            && |t.readers| == |s.readers|
            && forall j :: 0 <= j < |s.readers| ==>
                 t.readers[j].position == s.readers[j].position && t.readers[j].file == s.readers[j].file
  {}

  lemma RaiseKeepsFileInv(s: System, k: nat, c: Call)
    requires FileInv(s) && k < |s.notifiers|
    ensures FileInv(RaiseStep(s, k, c))
  {
    var t := RaiseStep(s, k, c);
    RaiseIsRemote(s, k, c);
    assert CountInv(t) by {
      hide RaiseStep, RescindInv;
      forall j | 0 <= j < |t.readers|
        ensures CountOk(t.readers[j].position, t.counts[t.readers[j].file], t.event)
      {
        assert CountOk(s.readers[j].position, s.counts[s.readers[j].file], s.event);
      }
    }
    assert RescindInv(t) by {
      hide CountOk;
    }
    hide CountInv, RescindInv, RaiseStep;
  }

  lemma StepKeepsFileInv(s: System, a: Action)
    requires FileInv(s)
    ensures FileInv(Step(s, a))
  {
    hide Exclusive, CountInv, RescindInv;
    match a
    case Read(i, m) => if i < |s.readers| { ReadKeepsFileInv(s, i, m); }
    case Raise(k, c) => if k < |s.notifiers| { RaiseKeepsFileInv(s, k, c); }
  }

  lemma {:induction false} RunKeepsFileInv(s: System, actions: seq<Action>)
    requires FileInv(s)
    ensures FileInv(Run(s, actions))
    decreases |actions|
  {
    hide Exclusive, CountInv, RescindInv, Step;
    if actions != [] {
      StepKeepsFileInv(s, actions[0]);
      RunKeepsFileInv(Step(s, actions[0]), actions[1..]);
    }
  }

  lemma InitialFileInv(s: System)
    requires Initial(s) && Exclusive(s)
    ensures FileInv(s)
  {}

  /** No wake-up is lost: in every interleaving, if a reader is asleep and no notifier is between its increment
      and its wake-up, the listener's count equals the device's event count. */
  lemma NoLostWakeUp(s: System, actions: seq<Action>, j: nat)
    requires Initial(s) && Exclusive(s) && j < |s.readers|
    requires var t := Run(s, actions); Sleeping(t, j) && !WakePending(t, j)
    ensures var t := Run(s, actions);
            t.counts[t.readers[j].file] % EVENT_MODULUS == t.event % EVENT_MODULUS
  {
    InitialFileInv(s);
    RunKeepsFileInv(s, actions);
    SleeperSawLatest(s, actions, j);
  }

  /** A positive number of unread events that the comparison of the 32-bit counters does not see. */
  predicate LooksRead(unread: int) {
    unread != 0 && unread % EVENT_MODULUS == 0
  }

  /** A rescind leaves no reader asleep once its wake-up has gone out, unless the unread events are a positive multiple
      of 2^32 and so look like none. */
  lemma RescindLeavesNoneAsleep(s: System, actions: seq<Action>, j: nat)
    requires Initial(s) && Exclusive(s) && j < |s.readers|
    requires var t := Run(s, actions);
             && t.rescindNotified && !WakePending(t, j)
             && !LooksRead(t.event - t.counts[t.readers[j].file])
    ensures !Sleeping(Run(s, actions), j)
  {
    hide Run, Initial, WakePending, Exclusive;
    InitialFileInv(s);
    RunKeepsFileInv(s, actions);
    var t := Run(s, actions);
    assert CountOk(t.readers[j].position, t.counts[t.readers[j].file], t.event);
    if Sleeping(t, j) {
      SleeperSawLatest(s, actions, j);
    }
  }

  /** A read that has not begun when irq or info is already gone can only fail with EIO, in every run. */
  lemma {:induction false} LaterReadsFail(s: System, actions: seq<Action>, j: nat)
    requires WellFormed(s) && j < |s.readers| && !(s.info && s.irq)
    requires var p := s.readers[j].position; p.Outside? || p.Enqueued? || p == Leaving(EIO)
    ensures var t := Run(s, actions);
            && !(t.info && t.irq)
            && var p := t.readers[j].position; p.Outside? || p.Enqueued? || p == Leaving(EIO)
    decreases |actions|
  {
    if actions != [] {
      LaterReadsFail(Step(s, actions[0]), actions[1..], j);
    }
  }

  /** Where a reader cannot be put to sleep any more once info is gone: it has not just passed the check, and what it
      does next is to leave, to look at info, or to find itself running. */
  predicate Roused(r: Reader) {
    && !r.position.Checked?
    && (r.task == Running
        || r.position.Outside? || r.position.Enqueued? || r.position.Copying? || r.position.Leaving?)
  }

  lemma {:induction false} RousedStaysAwake(s: System, actions: seq<Action>, j: nat)
    requires WellFormed(s) && j < |s.readers| && !s.info && Roused(s.readers[j])
    ensures !Sleeping(Run(s, actions), j)
    decreases |actions|
  {
    if actions != [] {
      RousedStaysAwake(Step(s, actions[0]), actions[1..], j);
    }
  }

  // ---------------------------------------------------------------------------------------------
  // Event accounting
  // ---------------------------------------------------------------------------------------------

  /** Sum of the differences, modulo 2^32, of successive values. */
  function Differences(first: nat, values: seq<nat>): nat {
    if values == [] then 0
    else Differences(first, values[..|values| - 1])
         + (values[|values| - 1] - LastOf(first, values[..|values| - 1])) % EVENT_MODULUS
  }

  function LastOf(first: nat, values: seq<nat>): nat {
    if values == [] then first else values[|values| - 1]
  }

  /** The values delivered so far add up, modulo 2^32, to the events between open and the last read. */
  ghost predicate Accounted(s: System, f: nat)
    requires WellFormed(s) && f < |s.counts|
  {
    var first := s.openedAt[f] % EVENT_MODULUS;
    && LastOf(first, s.delivered[f]) == s.counts[f] % EVENT_MODULUS
    && (s.openedAt[f] + Differences(first, s.delivered[f])) % EVENT_MODULUS == s.counts[f] % EVENT_MODULUS
  }

  lemma DifferencesAppend(first: nat, values: seq<nat>, v: nat)
    ensures Differences(first, values + [v])
            == Differences(first, values) + (v - LastOf(first, values)) % EVENT_MODULUS
    ensures LastOf(first, values + [v]) == v
  {
    assert (values + [v])[..|values|] == values;
  }

  lemma AddDifference(total: nat, count: nat, v: nat)
    requires total % EVENT_MODULUS == count % EVENT_MODULUS
    ensures (total + (v % EVENT_MODULUS - count % EVENT_MODULUS) % EVENT_MODULUS) % EVENT_MODULUS == v % EVENT_MODULUS
  {}

  lemma StepAccounts(s: System, a: Action, f: nat)
    requires WellFormed(s) && f < |s.counts| && Accounted(s, f)
    ensures Accounted(Step(s, a), f)
  {
    hide Differences, LastOf, Moved;
    if a.Read? && a.reader < |s.readers| && Stores(s.readers[a.reader], a.move)
       && s.readers[a.reader].file == f {
      var v, first := s.readers[a.reader].position.value, s.openedAt[f] % EVENT_MODULUS;
      DifferencesAppend(first, s.delivered[f], v % EVENT_MODULUS);
      AddDifference(s.openedAt[f] + Differences(first, s.delivered[f]), s.counts[f], v);
    }
  }

  lemma {:induction false} RunAccounts(s: System, actions: seq<Action>, f: nat)
    requires WellFormed(s) && f < |s.counts| && Accounted(s, f)
    ensures Accounted(Run(s, actions), f)
    decreases |actions|
  {
    hide Step, Accounted;
    if actions != [] {
      StepAccounts(s, actions[0], f);
      RunAccounts(Step(s, actions[0]), actions[1..], f);
    }
  }

  /** Each listener independently, in every run: modulo 2^32 the differences of the values it read add up to the
      notifications between its open and its last read, however many threads read through it, whatever reads failed
      in between, and however many events were unread. */
  lemma EventsAreAccounted(s: System, actions: seq<Action>, f: nat)
    requires Initial(s) && f < |s.counts|
    ensures var t := Run(s, actions);
            var first := s.openedAt[f] % EVENT_MODULUS;
            && t.openedAt == s.openedAt
            && LastOf(first, t.delivered[f]) == t.counts[f] % EVENT_MODULUS
            && (s.openedAt[f] + Differences(first, t.delivered[f])) % EVENT_MODULUS == t.counts[f] % EVENT_MODULUS
  {
    hide Run, Step;
    RunAccounts(s, actions, f);
    RunKeepsOpenings(s, actions);
  }

  lemma {:induction false} RunKeepsOpenings(s: System, actions: seq<Action>)
    requires WellFormed(s)
    ensures Run(s, actions).openedAt == s.openedAt
    decreases |actions|
  {
    if actions != [] {
      RunKeepsOpenings(Step(s, actions[0]), actions[1..]);
    }
  }

  /** Throughout the run fewer than 2^32 events are unread at this file. */
  ghost predicate Bounded(s: System, actions: seq<Action>, f: nat)
    requires WellFormed(s) && f < |s.counts|
    decreases |actions|
  {
    && s.event - s.counts[f] < EVENT_MODULUS
    && (actions != [] ==> Bounded(Step(s, actions[0]), actions[1..], f))
  }

  /** The sum itself is the number of notifications. */
  ghost predicate Counted(s: System, f: nat)
    requires WellFormed(s) && f < |s.counts|
  {
    s.openedAt[f] + Differences(s.openedAt[f] % EVENT_MODULUS, s.delivered[f]) == s.counts[f]
  }

  lemma ResidueDifference(v: nat, count: nat)
    requires count <= v < count + EVENT_MODULUS
    ensures (v % EVENT_MODULUS - count % EVENT_MODULUS) % EVENT_MODULUS == v - count
  {}

  lemma StepCounts(s: System, a: Action, f: nat)
    requires FileInv(s) && f < |s.counts| && Accounted(s, f) && Counted(s, f)
    requires s.event - s.counts[f] < EVENT_MODULUS
    ensures Counted(Step(s, a), f)
  {
    hide Differences, LastOf, RescindInv, Exclusive, Moved;
    if a.Read? && a.reader < |s.readers| && Stores(s.readers[a.reader], a.move)
       && s.readers[a.reader].file == f {
      var v := s.readers[a.reader].position.value;
      assert CountOk(s.readers[a.reader].position, s.counts[f], s.event);
      ResidueDifference(v, s.counts[f]);
      DifferencesAppend(s.openedAt[f] % EVENT_MODULUS, s.delivered[f], v % EVENT_MODULUS);
    }
  }

  lemma {:induction false} RunCounts(s: System, actions: seq<Action>, f: nat)
    requires FileInv(s) && f < |s.counts| && Accounted(s, f) && Counted(s, f) && Bounded(s, actions, f)
    ensures Counted(Run(s, actions), f)
    decreases |actions|
  {
    hide Exclusive, CountInv, RescindInv, Step, Accounted, Counted;
    if actions != [] {
      StepAccounts(s, actions[0], f);
      StepCounts(s, actions[0], f);
      StepKeepsFileInv(s, actions[0]);
      RunCounts(Step(s, actions[0]), actions[1..], f);
    }
  }

  /** With one reading thread per file and fewer than 2^32 events unread throughout, the sum is exact. */
  lemma EventsAreCounted(s: System, actions: seq<Action>, f: nat)
    requires Initial(s) && Exclusive(s) && f < |s.counts| && Bounded(s, actions, f)
    ensures var t := Run(s, actions);
            && s.openedAt[f] + Differences(s.openedAt[f] % EVENT_MODULUS, t.delivered[f]) == t.counts[f] <= t.event
  {
    InitialFileInv(s);
    RunCounts(s, actions, f);
    RunKeepsFileInv(s, actions);
    RunKeepsOpenings(s, actions);
  }

  /** A read that does not deliver leaves the count as it was. */
  lemma OnlyDeliveryConsumes(s: System, a: Action, f: nat)
    requires WellFormed(s) && f < |s.counts|
    requires Step(s, a).counts[f] != s.counts[f] || Step(s, a).delivered[f] != s.delivered[f]
    ensures a.Read? && a.reader < |s.readers| && s.readers[a.reader].file == f
    ensures Step(s, a).readers[a.reader].position == Leaving(Delivered(Step(s, a).counts[f] % EVENT_MODULUS))
  {
    match a
    case Raise(k, c) => if k < |s.notifiers| { RaiseIsRemote(s, k, c); }
    case Read(_, _) => hide RaiseStep;
  }

  // ---------------------------------------------------------------------------------------------
  // Poll
  // ---------------------------------------------------------------------------------------------

  datatype PollResult = PollError | PollReadable | PollNothing

  /** `uio_poll`. */
  function Poll(s: System, f: nat): PollResult
    requires f < |s.counts|
  {
    if !s.info || !s.irq then PollError
    else if s.counts[f] % EVENT_MODULUS != s.event % EVENT_MODULUS then PollReadable
    else PollNothing
  }

  /** An undisturbed read with O_NONBLOCK. */
  function NonBlockingRead(s: System, j: nat, faults: bool): System
    requires WellFormed(s) && j < |s.readers|
  {
    var s1 := Step(s, Read(j, Enter));
    var s2 := Step(s1, Read(j, CheckInfo));
    var s3 := Step(s2, Read(j, Arm));
    var s4 := Step(s3, Read(j, Load));
    var s5 := Step(s4, Read(j, Compare));
    var s6 := Step(s5, Read(j, Copy(faults)));
    Step(s6, Read(j, GiveUp(false)))
  }

  /** In every state poll reports readable exactly when a non-blocking read would return neither EAGAIN nor EIO,
      and the read then delivers the event count unless the copy faults. */
  lemma PollAgreesWithRead(s: System, j: nat, faults: bool)
    requires WellFormed(s) && j < |s.readers| && s.readers[j].position.Outside?
    ensures var f := s.readers[j].file;
            var t := NonBlockingRead(s, j, faults);
            match Poll(s, f)
            case PollError => t.readers[j].position == Leaving(EIO) && t.counts == s.counts
            case PollNothing => t.readers[j].position == Leaving(EAGAIN) && t.counts == s.counts
            case PollReadable =>
              if faults then t.readers[j].position == Leaving(EFAULT) && t.counts == s.counts
              else && t.readers[j].position == Leaving(Delivered(s.event % EVENT_MODULUS))
                   && t.counts == s.counts[f := s.event]
  {
    var s1 := Step(s, Read(j, Enter));
    var s2 := Step(s1, Read(j, CheckInfo));
    var s3 := Step(s2, Read(j, Arm));
    var s4 := Step(s3, Read(j, Load));
    assert s4.readers[j].position == if s.info && s.irq then Loaded(s.event) else Leaving(EIO);
    assert s4.counts == s.counts && s4.event == s.event;
    var s5 := Step(s4, Read(j, Compare));
    assert s5.counts == s.counts;
    var s6 := Step(s5, Read(j, Copy(faults)));
    assert NonBlockingRead(s, j, faults) == Step(s6, Read(j, GiveUp(false)));
    hide NonBlockingRead;
  }
}
