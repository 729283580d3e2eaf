/**
 * Exactly when the wake-up guarantees hold: runs that violate them where a hypothesis fails.
 */
module UioEventsLimits {
  import opened UioEvents

  lemma {:induction false} RunConcat(s: System, a: seq<Action>, b: seq<Action>)
    requires WellFormed(s)
    ensures Run(s, a + b) == Run(Run(s, a), b)
    decreases |a|
  {
    hide Step;
    if a == [] {
      assert a + b == b;
    } else {
      RunConcat(Step(s, a[0]), a[1..], b);
      assert (a + b)[1..] == a[1..] + b;
    }
  }

  lemma RunOne(s: System, a: Action)
    requires WellFormed(s)
    ensures Run(s, [a]) == Step(s, a)
  {
    hide Step;
    assert [a][1..] == [];
    assert Run(Step(s, a), []) == Step(s, a);
  }

  lemma RunTwo(s: System, a: Action, b: Action)
    requires WellFormed(s)
    ensures Run(s, [a, b]) == Step(Step(s, a), b)
  {
    hide Step;
    assert [a, b][1..] == [b];
    RunOne(Step(s, a), b);
  }

  lemma RunThree(s: System, a: Action, b: Action, c: Action)
    requires WellFormed(s)
    ensures Run(s, [a, b, c]) == Step(Step(Step(s, a), b), c)
  {
    hide Step;
    RunTwo(s, a, b);
    RunOne(Step(Step(s, a), b), c);
    RunConcat(s, [a, b], [c]);
    assert [a, b] + [c] == [a, b, c];
  }

  // ---------------------------------------------------------------------------------------------
  // Blocks of a run
  // ---------------------------------------------------------------------------------------------

  /** Readers may have been woken and events counted, but no reader has moved. */
  ghost predicate OnlyRaised(s: System, t: System) {
    && |t.readers| == |s.readers| && |t.notifiers| == |s.notifiers|
    && t.counts == s.counts && t.info == s.info
    && forall j :: 0 <= j < |s.readers| ==>
         t.readers[j].position == s.readers[j].position && t.readers[j].file == s.readers[j].file
  }

  /** Every task inside a read is running. */
  ghost predicate AllRunning(s: System) {
    forall j :: 0 <= j < |s.readers| && !s.readers[j].position.Outside? ==> s.readers[j].task == Running
  }

  /** A wake-up under way runs to its end: it reaches every waiter it has not reached yet. */
  lemma {:induction false} Drain(s: System, k: nat) returns (actions: seq<Action>)
    requires WellFormed(s) && k < |s.notifiers| && s.notifiers[k].Waking?
    ensures var t := Run(s, actions);
            && OnlyRaised(s, t) && t.notifiers == s.notifiers[k := Quiet]
            && t.event == s.event && t.irq == s.irq && t.rescindNotified == s.rescindNotified
            && (forall j :: 0 <= j < |s.readers| && s.readers[j].task == Running ==> t.readers[j].task == Running)
            && (forall j :: s.notifiers[k].next <= j < |s.readers| && !s.readers[j].position.Outside? ==>
                  t.readers[j].task == Running)
    decreases if s.notifiers[k].next < |s.readers| then |s.readers| - s.notifiers[k].next else 0
  {
    var wake := Raise(k, WakeNext);
    var t := Step(s, wake);
    RunOne(s, wake);
    if s.notifiers[k].next < |s.readers| {
      var rest := Drain(t, k);
      RunConcat(s, [wake], rest);
      actions := [wake] + rest;
    } else {
      actions := [wake];
    }
  }

  /** All of the first `m` notifiers finish their wake-ups. */
  lemma {:induction false} DrainAll(s: System, m: nat) returns (actions: seq<Action>)
    requires WellFormed(s) && m <= |s.notifiers|
    ensures var t := Run(s, actions);
            && OnlyRaised(s, t) && t.event == s.event
            && forall k :: 0 <= k < m ==> !t.notifiers[k].Waking?
  {
    actions := [];
    if m > 0 {
      actions := DrainAll(s, m - 1);
      var t := Run(s, actions);
      if t.notifiers[m - 1].Waking? {
        var rest := Drain(t, m - 1);
        RunConcat(s, actions, rest);
        actions := actions + rest;
      }
    }
  }

  /** `uio_event_notify` from beginning to end, `times` times. */
  lemma {:induction false} Notifications(s: System, k: nat, times: nat) returns (actions: seq<Action>)
    requires WellFormed(s) && k < |s.notifiers| && s.notifiers[k].Quiet?
    ensures var t := Run(s, actions);
            && OnlyRaised(s, t) && t.notifiers == s.notifiers
            && t.event == s.event + times && t.irq == s.irq
            && (times > 0 ==> AllRunning(t))
  {
    actions := [];
    if times > 0 {
      var first := Notifications(s, k, times - 1);
      var t := Run(s, first);
      RunOne(t, Raise(k, Notify));
      var rest := Drain(Step(t, Raise(k, Notify)), k);
      RunConcat(t, [Raise(k, Notify)], rest);
      RunConcat(s, first, [Raise(k, Notify)] + rest);
      actions := first + ([Raise(k, Notify)] + rest);
    }
  }

  /** `hv_uio_rescind` from beginning to end. */
  lemma Rescind(s: System, k: nat) returns (actions: seq<Action>)
    requires WellFormed(s) && k < |s.notifiers| && s.notifiers[k].Quiet?
    ensures var t := Run(s, actions);
            && OnlyRaised(s, t) && t.notifiers == s.notifiers
            && t.event == s.event + 1 && t.rescindNotified && !t.irq && AllRunning(t)
  {
    var first := [Raise(k, ClearIrq), Raise(k, NotifyRescind)];
    RunTwo(s, Raise(k, ClearIrq), Raise(k, NotifyRescind));
    var rest := Drain(Run(s, first), k);
    RunConcat(s, first, rest);
    actions := first + rest;
  }

  /** Reader `j` comes to the given position and all else is as before. */
  ghost predicate OnlyReader(s: System, t: System, j: nat, p: Position)
    requires j < |s.readers|
  {
    && |t.readers| == |s.readers| && t == s.(readers := s.readers[j := t.readers[j]])
    && t.readers[j].file == s.readers[j].file && t.readers[j].position == p
  }

  lemma Entering(s: System, j: nat)
    requires WellFormed(s) && j < |s.readers| && s.readers[j].position.Outside? && s.info && s.irq
    ensures OnlyReader(s, Run(s, [Read(j, Enter), Read(j, CheckInfo)]), j, Checked)
  {
    hide Run;
    RunTwo(s, Read(j, Enter), Read(j, CheckInfo));
  }

  /** The steps from the check of info to the comparison of the counts. */
  function Look(j: nat): seq<Action> {
    [Read(j, Arm), Read(j, Load), Read(j, Compare)]
  }

  /** A reader past the check goes to sleep if its listener's count matches the counter. */
  lemma Committing(s: System, j: nat)
    requires WellFormed(s) && j < |s.readers| && s.readers[j].position.Checked?
    requires s.counts[s.readers[j].file] % EVENT_MODULUS == s.event % EVENT_MODULUS
    ensures var t := Run(s, Look(j) + [Read(j, Schedule)]);
            OnlyReader(s, t, j, Asleep(s.event)) && Sleeping(t, j)
  {
    hide Run;
    RunThree(s, Read(j, Arm), Read(j, Load), Read(j, Compare));
    RunOne(Run(s, Look(j)), Read(j, Schedule));
    RunConcat(s, Look(j), [Read(j, Schedule)]);
  }

  /** Otherwise it is about to copy. */
  lemma Taking(s: System, j: nat)
    requires WellFormed(s) && j < |s.readers| && s.readers[j].position.Checked?
    requires s.counts[s.readers[j].file] % EVENT_MODULUS != s.event % EVENT_MODULUS
    ensures OnlyReader(s, Run(s, Look(j)), j, Copying(s.event))
  {
    hide Run;
    RunThree(s, Read(j, Arm), Read(j, Load), Read(j, Compare));
  }

  /** The copy succeeds and the thread leaves. */
  lemma Delivering(s: System, j: nat)
    requires WellFormed(s) && j < |s.readers| && s.readers[j].position.Copying?
    ensures var t, r := Run(s, [Read(j, Copy(false)), Read(j, Leave)]), s.readers[j];
            && |t.readers| == |s.readers| && |t.counts| == |s.counts|
            && t.readers == s.readers[j := r.(position := Outside, task := Running)]
            && t.counts == s.counts[r.file := r.position.value]
            && t.info == s.info && t.irq == s.irq && t.event == s.event && t.notifiers == s.notifiers
            && t.rescindNotified == s.rescindNotified
  {
    hide Run;
    RunTwo(s, Read(j, Copy(false)), Read(j, Leave));
  }

  function Enters(j: nat): seq<Action> {
    [Read(j, Enter), Read(j, CheckInfo)]
  }

  function Delivers(j: nat): seq<Action> {
    [Read(j, Copy(false)), Read(j, Leave)]
  }

  /** A complete read, if there is anything to read, brings the listener up to date. */
  lemma CatchUp(s: System, i: nat) returns (actions: seq<Action>)
    requires Initial(s) && s.info && s.irq && i < |s.readers|
    ensures var t, f := Run(s, actions), s.readers[i].file;
            && t.readers == s.readers && t.notifiers == s.notifiers && t.info && t.irq && t.event == s.event
            && t.counts[f] % EVENT_MODULUS == t.event % EVENT_MODULUS
  {
    hide Step;
    actions := [];
    if s.counts[s.readers[i].file] % EVENT_MODULUS != s.event % EVENT_MODULUS {
      OutsideAndRunning(s, i);
      Entering(s, i);
      var t1 := Run(s, Enters(i));
      Taking(t1, i);
      var t2 := Run(t1, Look(i));
      Delivering(t2, i);
      RunConcat(s, Enters(i), Look(i));
      RunConcat(s, Enters(i) + Look(i), Delivers(i));
      actions := Enters(i) + Look(i) + Delivers(i);
      assert Run(s, actions).readers == s.readers;
    }
  }

  lemma OutsideAndRunning(s: System, i: nat)
    requires Initial(s) && i < |s.readers|
    ensures s.readers[i] == Reader(s.readers[i].file, Outside, Running)
  {}

  // ---------------------------------------------------------------------------------------------
  // Two threads that read through one open file
  // ---------------------------------------------------------------------------------------------

  /** A state in which readers `i` and `j` of one file have not begun, and the file is up to date. */
  ghost predicate UpToDate(s: System, i: nat, j: nat) {
    && WellFormed(s) && s.info && s.irq && i < |s.readers| && j < |s.readers| && i != j
    && s.readers[i].position.Outside? && s.readers[j].position.Outside?
    && s.readers[i].file == s.readers[j].file
    && s.counts[s.readers[i].file] % EVENT_MODULUS == s.event % EVENT_MODULUS
    && s.notifiers != [] && forall k :: 0 <= k < |s.notifiers| ==> s.notifiers[k].Quiet?
  }

  /** Reader `i` has loaded the counter and not copied yet when one more event arrives. */
  lemma SlowReader(s: System, i: nat, j: nat) returns (actions: seq<Action>)
    requires UpToDate(s, i, j)
    ensures var t := Run(s, actions);
            && OnlyRaised(s.(readers := s.readers[i := t.readers[i]]), t)
            && t.irq && t.notifiers == s.notifiers && t.event == s.event + 2
            && t.readers[i].position == Copying(s.event + 1) && t.readers[i].file == s.readers[i].file
  {
    hide Run, Step;
    Entering(s, i);
    var s1 := Run(s, Enters(i));
    var first := Notifications(s1, 0, 1);
    var s2 := Run(s1, first);
    Taking(s2, i);
    var s3 := Run(s2, Look(i));
    var second := Notifications(s3, 0, 1);
    RunConcat(s, Enters(i), first);
    RunConcat(s, Enters(i) + first, Look(i));
    RunConcat(s, Enters(i) + first + Look(i), second);
    actions := Enters(i) + first + Look(i) + second;
  }

  /** Reader `j` takes all events and comes back to sleep; then the slow reader `i` stores its older value. */
  lemma OvertakesAndSleeps(s: System, i: nat, j: nat) returns (actions: seq<Action>)
    requires WellFormed(s) && s.info && s.irq && i < |s.readers| && j < |s.readers| && i != j
    requires s.readers[i].file == s.readers[j].file && s.readers[j].position.Outside?
    requires s.readers[i].position.Copying?
    requires s.counts[s.readers[j].file] % EVENT_MODULUS != s.event % EVENT_MODULUS
    ensures var t := Run(s, actions);
            && Sleeping(t, j) && t.notifiers == s.notifiers && t.event == s.event
            && t.counts[s.readers[j].file] == s.readers[i].position.value
  {
    hide Run, Step;
    Entering(s, j);
    var s1 := Run(s, Enters(j));
    Taking(s1, j);
    var s2 := Run(s1, Look(j));
    Delivering(s2, j);
    var s3 := Run(s2, Delivers(j));
    Entering(s3, j);
    var s4 := Run(s3, Enters(j));
    Committing(s4, j);
    var s5 := Run(s4, Look(j) + [Read(j, Schedule)]);
    Delivering(s5, i);
    RunConcat(s, Enters(j), Look(j));
    RunConcat(s, Enters(j) + Look(j), Delivers(j));
    RunConcat(s, Enters(j) + Look(j) + Delivers(j), Enters(j));
    RunConcat(s, Enters(j) + Look(j) + Delivers(j) + Enters(j), Look(j) + [Read(j, Schedule)]);
    RunConcat(s, Enters(j) + Look(j) + Delivers(j) + Enters(j) + (Look(j) + [Read(j, Schedule)]), Delivers(i));
    actions := Enters(j) + Look(j) + Delivers(j) + Enters(j) + (Look(j) + [Read(j, Schedule)]) + Delivers(i);
  }

  /** From every initial state with the device present, a notifier and two readers of one file: a run that ends with
      a reader asleep, no wake-up on its way, and exactly one event unread. */
  lemma SharedFileLosesWakeUp(s: System, i: nat, j: nat) returns (actions: seq<Action>)
    requires Initial(s) && s.info && s.irq && s.notifiers != []
    requires i < |s.readers| && j < |s.readers| && i != j && s.readers[i].file == s.readers[j].file
    ensures var t := Run(s, actions);
            Sleeping(t, j) && !WakePending(t, j) && t.event == t.counts[t.readers[j].file] + 1
  {
    hide Run, Step;
    var first := CatchUp(s, i);
    var s1 := Run(s, first);
    var second := SlowReader(s1, i, j);
    var s2 := Run(s1, second);
    var third := OvertakesAndSleeps(s2, i, j);
    RunConcat(s, first, second);
    RunConcat(s, first + second, third);
    actions := first + second + third;
  }

  /** Likewise: a run in which one thread consumes the rescind's event and the other, which had passed the check
      before irq was cleared, sleeps although the rescind has sent its wake-ups. */
  lemma SharedFileSleepsThroughRescind(s: System, i: nat, j: nat) returns (actions: seq<Action>)
    requires Initial(s) && s.info && s.irq && s.notifiers != []
    requires i < |s.readers| && j < |s.readers| && i != j && s.readers[i].file == s.readers[j].file
    ensures var t := Run(s, actions);
            && t.rescindNotified && Sleeping(t, j) && !WakePending(t, j)
            && t.event == t.counts[t.readers[j].file]
  {
    hide Run, Step;
    var first := CatchUp(s, i);
    var s1 := Run(s, first);
    var second := RescindBetween(s1, i, j);
    var s2 := Run(s1, second);
    Taking(s2, i);
    var s3 := Run(s2, Look(i));
    Delivering(s3, i);
    var s4 := Run(s3, Delivers(i));
    Committing(s4, j);
    RunConcat(s, first, second);
    RunConcat(s, first + second, Look(i));
    RunConcat(s, first + second + Look(i), Delivers(i));
    RunConcat(s, first + second + Look(i) + Delivers(i), Look(j) + [Read(j, Schedule)]);
    actions := first + second + Look(i) + Delivers(i) + (Look(j) + [Read(j, Schedule)]);
  }

  /** Both readers pass the check, then the device is rescinded. */
  lemma RescindBetween(s: System, i: nat, j: nat) returns (actions: seq<Action>)
    requires UpToDate(s, i, j)
    ensures var t := Run(s, actions);
            && |t.readers| == |s.readers| && t.notifiers == s.notifiers && t.counts == s.counts
            && t.readers[i].position.Checked? && t.readers[i].file == s.readers[i].file
            && t.readers[j].position.Checked? && t.readers[j].file == s.readers[j].file
            && t.event == s.event + 1 && t.rescindNotified
  {
    hide Run, Step;
    Entering(s, i);
    var s1 := Run(s, Enters(i));
    Entering(s1, j);
    var s2 := Run(s1, Enters(j));
    var rescind := Rescind(s2, 0);
    RunConcat(s, Enters(i), Enters(j));
    RunConcat(s, Enters(i) + Enters(j), rescind);
    actions := Enters(i) + Enters(j) + rescind;
  }

  // ---------------------------------------------------------------------------------------------
  // The exact conditions
  // ---------------------------------------------------------------------------------------------

  /** In every run: a reader asleep with no wake-up on its way has a count equal to the event count. */
  ghost predicate NoWakeUpIsLost(s: System)
    requires WellFormed(s)
  {
    forall actions: seq<Action>, j: nat :: j < |s.readers| ==>
      var t := Run(s, actions);
      Sleeping(t, j) && !WakePending(t, j) ==>
        t.counts[t.readers[j].file] % EVENT_MODULUS == t.event % EVENT_MODULUS
  }

  /** In every run: once a rescind's wake-up has gone out no reader sleeps, unless its unread events are a positive
      multiple of 2^32. */
  ghost predicate RescindWakesAll(s: System)
    requires WellFormed(s)
  {
    forall actions: seq<Action>, j: nat :: j < |s.readers| ==>
      var t := Run(s, actions);
      t.rescindNotified && !WakePending(t, j) && !LooksRead(t.event - t.counts[t.readers[j].file]) ==>
        !Sleeping(t, j)
  }

  /** Nothing can happen to a sleeper: the device is gone from the start, or nobody ever raises an event. */
  predicate Uneventful(s: System) {
    !s.info || !s.irq || s.notifiers == []
  }

  /** Without notifiers every value under way is the event count. */
  ghost predicate StillInv(s: System) {
    && WellFormed(s) && s.notifiers == [] && !s.rescindNotified
    && forall j :: 0 <= j < |s.readers| ==>
         var p := s.readers[j].position;
         && (p.Loaded? || p.Copying? ==> p.value == s.event)
         && (p.Idle? || p.Asleep? ==> s.counts[s.readers[j].file] % EVENT_MODULUS == s.event % EVENT_MODULUS)
  }

  lemma {:induction false} StillRun(s: System, actions: seq<Action>)
    requires StillInv(s)
    ensures StillInv(Run(s, actions))
    decreases |actions|
  {
    if actions != [] {
      StillRun(Step(s, actions[0]), actions[1..]);
    }
  }

  lemma UneventfulRun(s: System, actions: seq<Action>, j: nat)
    requires Initial(s) && Uneventful(s) && j < |s.readers|
    ensures var t := Run(s, actions);
            Sleeping(t, j) ==>
              && !t.rescindNotified
              && t.counts[t.readers[j].file] % EVENT_MODULUS == t.event % EVENT_MODULUS
  {
    hide Run, Step;
    if !s.info || !s.irq {
      LaterReadsFail(s, actions, j);
    } else {
      StillRun(s, actions);
    }
  }

  /** Exactly when no wake-up is lost. */
  lemma NoWakeUpIsLostIff(s: System)
    requires Initial(s)
    ensures NoWakeUpIsLost(s) <==> Exclusive(s) || Uneventful(s)
  {
    hide Run, WakePending, Uneventful;
    if Exclusive(s) {
      forall actions: seq<Action>, j: nat | j < |s.readers| && Sleeping(Run(s, actions), j)
                                            && !WakePending(Run(s, actions), j)
        ensures var t := Run(s, actions); t.counts[t.readers[j].file] % EVENT_MODULUS == t.event % EVENT_MODULUS
      {
        NoLostWakeUp(s, actions, j);
      }
    } else if Uneventful(s) {
      forall actions: seq<Action>, j: nat | j < |s.readers|
        ensures var t := Run(s, actions);
                Sleeping(t, j) ==> t.counts[t.readers[j].file] % EVENT_MODULUS == t.event % EVENT_MODULUS
      {
        UneventfulRun(s, actions, j);
      }
    } else {
      var i, j :| 0 <= i < j < |s.readers| && s.readers[i].file == s.readers[j].file;
      Eventful(s);
      var actions := SharedFileLosesWakeUp(s, i, j);
      assert Sleeping(Run(s, actions), j);
    }
  }

  lemma Eventful(s: System)
    requires !Uneventful(s)
    ensures s.info && s.irq && s.notifiers != []
  {}

  /** Exactly when a rescind leaves no reader asleep. */
  lemma RescindWakesAllIff(s: System)
    requires Initial(s)
    ensures RescindWakesAll(s) <==> Exclusive(s) || Uneventful(s)
  {
    hide Run, WakePending, Uneventful;
    if Exclusive(s) {
      forall actions: seq<Action>, j: nat | j < |s.readers| && Run(s, actions).rescindNotified
          && !WakePending(Run(s, actions), j)
          && !LooksRead(Run(s, actions).event - Run(s, actions).counts[Run(s, actions).readers[j].file])
        ensures !Sleeping(Run(s, actions), j)
      {
        RescindLeavesNoneAsleep(s, actions, j);
      }
    } else if Uneventful(s) {
      forall actions: seq<Action>, j: nat | j < |s.readers|
        ensures var t := Run(s, actions); t.rescindNotified ==> !Sleeping(t, j)
      {
        UneventfulRun(s, actions, j);
      }
    } else {
      var i, j :| 0 <= i < j < |s.readers| && s.readers[i].file == s.readers[j].file;
      Eventful(s);
      var actions := SharedFileSleepsThroughRescind(s, i, j);
      assert Sleeping(Run(s, actions), j);
    }
  }

  /** The bound on unread events is exact too: a listener to which the rescind's event completes a multiple of 2^32
      unread events takes them for none and sleeps. */
  lemma RescindNeedsBound(s: System, j: nat) returns (actions: seq<Action>)
    requires Initial(s) && s.info && s.irq && s.notifiers != [] && j < |s.readers|
    requires LooksRead(s.event + 1 - s.counts[s.readers[j].file])
    ensures var t := Run(s, actions);
            && t.rescindNotified && Sleeping(t, j) && !WakePending(t, j)
            && t.event == s.event + 1 && t.counts == s.counts && t.readers[j].file == s.readers[j].file
  {
    hide Run, Step;
    Entering(s, j);
    var s1 := Run(s, Enters(j));
    var rescind := Rescind(s1, 0);
    var s2 := Run(s1, rescind);
    Committing(s2, j);
    RunConcat(s, Enters(j), rescind);
    RunConcat(s, Enters(j) + rescind, Look(j) + [Read(j, Schedule)]);
    actions := Enters(j) + rescind + (Look(j) + [Read(j, Schedule)]);
  }

  // ---------------------------------------------------------------------------------------------
  // The bare wake-up of unregister
  // ---------------------------------------------------------------------------------------------

  ghost predicate NeverSleepsAgain(s: System, j: nat)
    requires WellFormed(s) && j < |s.readers|
  {
    forall actions: seq<Action> :: !Sleeping(Run(s, actions), j)
  }

  /** A reader past the check goes to sleep with no wake-up on its way, at once if its count matches the counter and
      otherwise after as many notifications as bring the counter round to it. */
  lemma CheckedReaderSleeps(s: System, k: nat, j: nat) returns (actions: seq<Action>)
    requires WellFormed(s) && k < |s.notifiers| && s.notifiers[k].Waking?
    requires j < |s.readers| && s.readers[j].position.Checked?
    ensures var t, count := Run(s, actions), s.counts[s.readers[j].file];
            && Sleeping(t, j) && !WakePending(t, j) && t.info == s.info
            && (count % EVENT_MODULUS == s.event % EVENT_MODULUS ==> t.event == s.event)
  {
    hide Run, Step;
    var count := s.counts[s.readers[j].file];
    var first := Drain(s, k);
    var s1 := Run(s, first);
    var second := Notifications(s1, k, (count - s.event) % EVENT_MODULUS);
    var s2 := Run(s1, second);
    BroughtRound(count, s.event);
    var third := DrainAll(s2, |s2.notifiers|);
    var s3 := Run(s2, third);
    Committing(s3, j);
    RunConcat(s, first, second);
    RunConcat(s, first + second, third);
    RunConcat(s, first + second + third, Look(j) + [Read(j, Schedule)]);
    actions := first + second + third + (Look(j) + [Read(j, Schedule)]);
  }

  lemma BroughtRound(count: nat, event: nat)
    ensures (event + (count - event) % EVENT_MODULUS) % EVENT_MODULUS == count % EVENT_MODULUS
    ensures count % EVENT_MODULUS == event % EVENT_MODULUS ==> (count - event) % EVENT_MODULUS == 0
  {}

  /** Exactly when the wake-up of unregister does its work on reader `j`: unless the reader has just passed the check
      and not yet armed itself, it never sleeps again; otherwise some run puts it to sleep for good. */
  lemma UnregisterWakesIff(s: System, k: nat, j: nat)
    requires WellFormed(s) && !s.info && j < |s.readers| && k < |s.notifiers| && s.notifiers[k] == Waking(j)
    ensures NeverSleepsAgain(Step(s, Raise(k, WakeNext)), j) <==> !s.readers[j].position.Checked?
  {
    hide Run;
    var t := Step(s, Raise(k, WakeNext));
    if s.readers[j].position.Checked? {
      var actions := CheckedReaderSleeps(t, k, j);
      assert Sleeping(Run(t, actions), j);
    } else {
      forall actions: seq<Action>
        ensures !Sleeping(Run(t, actions), j)
      {
        RousedStaysAwake(t, actions, j);
      }
    }
  }

  /** From every initial state with the device present, any reader can be put to sleep on a device that is gone. */
  lemma UnregisterCanLoseItsWakeUp(s: System, k: nat, j: nat) returns (actions: seq<Action>)
    requires Initial(s) && s.info && s.irq && j < |s.readers| && k < |s.notifiers|
    ensures var t := Run(s, actions);
            !t.info && Sleeping(t, j) && !WakePending(t, j)
  {
    hide Run;
    Entering(s, j);
    var s1 := Run(s, Enters(j));
    RunOne(s1, Raise(k, ClearInfo));
    var rest := CheckedReaderSleeps(Step(s1, Raise(k, ClearInfo)), k, j);
    RunConcat(s, Enters(j), [Raise(k, ClearInfo)]);
    RunConcat(s, Enters(j) + [Raise(k, ClearInfo)], rest);
    actions := Enters(j) + [Raise(k, ClearInfo)] + rest;
  }
}
