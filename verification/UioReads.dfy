/**
 * What becomes of a read: how it ends once it is woken or begun, and what each result means.
 */
module UioReads {
  import opened UioEvents
  import opened UioEventsLimits

  /** One round of the loop from the check of info on: it copies if there is anything to read and sleeps if not. */
  function Round(j: nat, faults: bool): seq<Action> {
    [Read(j, CheckInfo), Read(j, Arm), Read(j, Load)] + [Read(j, Compare), Read(j, Copy(faults)), Read(j, Schedule)]
  }

  /** The comparison of the counts decides: sleep if they agree, otherwise deliver unless the copy faults. */
  ghost predicate ComparisonDecides(s: System, t: System, j: nat, faults: bool)
    requires WellFormed(s) && WellFormed(t) && j < |s.readers| && j < |t.readers|
  {
    var r, f := t.readers[j], s.readers[j].file;
    if s.counts[f] % EVENT_MODULUS == s.event % EVENT_MODULUS then
      r.position == Asleep(s.event) && r.task == Interruptible
      && t.counts == s.counts && t.delivered == s.delivered
    else if faults then
      r.position == Leaving(EFAULT) && t.counts == s.counts && t.delivered == s.delivered
    else
      r.position == Leaving(Delivered(s.event % EVENT_MODULUS)) && t.counts == s.counts[f := s.event]
      && t.delivered == s.delivered[f := s.delivered[f] + [s.event % EVENT_MODULUS]]
  }

  /** Nothing changed but reader `j` and what it read. */
  ghost predicate OnlyRead(s: System, t: System, j: nat)
    requires j < |s.readers|
  {
    && t.info == s.info && t.irq == s.irq && t.event == s.event && t.notifiers == s.notifiers
    && |t.readers| == |s.readers| && t.readers == s.readers[j := t.readers[j]]
    && t.readers[j].file == s.readers[j].file
  }

  /** How a round ends when nobody interferes. */
  ghost predicate RoundEnds(s: System, t: System, j: nat, faults: bool)
    requires WellFormed(s) && WellFormed(t) && j < |s.readers|
  {
    && OnlyRead(s, t, j)
    && if !s.info || !s.irq
       then t.readers[j].position == Leaving(EIO) && t.counts == s.counts && t.delivered == s.delivered
       else ComparisonDecides(s, t, j, faults)
  }

  lemma RoundRuns(s: System, j: nat, faults: bool)
    requires WellFormed(s) && j < |s.readers| && s.readers[j].position.Enqueued?
    ensures RoundEnds(s, Run(s, Round(j, faults)), j, faults)
  {
    hide Run;
    var first := [Read(j, CheckInfo), Read(j, Arm), Read(j, Load)];
    RunThree(s, Read(j, CheckInfo), Read(j, Arm), Read(j, Load));
    var t := Run(s, first);
    CheckAndLoad(s, j);
    RunThree(t, Read(j, Compare), Read(j, Copy(faults)), Read(j, Schedule));
    CompareAndEnd(t, j, faults);
    RunConcat(s, first, [Read(j, Compare), Read(j, Copy(faults)), Read(j, Schedule)]);
  }

  lemma CheckAndLoad(s: System, j: nat)
    requires WellFormed(s) && j < |s.readers| && s.readers[j].position.Enqueued?
    ensures var t := Step(Step(Step(s, Read(j, CheckInfo)), Read(j, Arm)), Read(j, Load));
            && OnlyReader(s, t, j, if s.info && s.irq then Loaded(s.event) else Leaving(EIO))
            && (s.info && s.irq ==> t.readers[j].task == Interruptible)
  {}

  lemma CompareAndEnd(s: System, j: nat, faults: bool)
    requires WellFormed(s) && j < |s.readers|
    requires s.readers[j].position.Loaded? || s.readers[j].position == Leaving(EIO)
    requires s.readers[j].position.Loaded? ==>
               s.readers[j].position.value == s.event && s.readers[j].task == Interruptible
    ensures var t := Step(Step(Step(s, Read(j, Compare)), Read(j, Copy(faults))), Read(j, Schedule));
            if s.readers[j].position.Leaving? then t == s
            else OnlyRead(s, t, j) && ComparisonDecides(s, t, j, faults)
  {}

  /** The step with which each reader that is not going to sleep comes back to the top of the loop. */
  function Return(p: Position): Move {
    match p
    case Outside => Enter
    case Asleep(_) => Resume
    case _ => Schedule
  }

  /** A read just begun, a sleeper that has been woken, and a reader woken before it slept. */
  predicate Returns(r: Reader) {
    r.position.Outside? || ((r.position.Asleep? || r.position.Idle?) && r.task == Running)
  }

  /** A blocking read that runs undisturbed once begun or woken: it returns EIO if info or irq is gone, sleeps again if
      the counts agree, and otherwise delivers the event count, unless the copy faults. */
  lemma ReadEnds(s: System, j: nat, faults: bool)
    requires WellFormed(s) && j < |s.readers| && Returns(s.readers[j])
    ensures RoundEnds(s, Run(s, [Read(j, Return(s.readers[j].position))] + Round(j, faults)), j, faults)
  {
    hide Run, Round;
    var back := Read(j, Return(s.readers[j].position));
    RunOne(s, back);
    RoundRuns(Step(s, back), j, faults);
    RunConcat(s, [back], Round(j, faults));
  }

  /** A notification from any state with a sleeping reader extends to a run in which that reader returns: with the new
      event count if its listener's count differs from it modulo 2^32; otherwise it sleeps again. */
  lemma NotificationDelivers(s: System, k: nat, j: nat) returns (actions: seq<Action>)
    requires WellFormed(s) && s.info && s.irq && k < |s.notifiers| && s.notifiers[k].Quiet?
    requires j < |s.readers| && Sleeping(s, j)
    ensures var t, f := Run(s, actions), s.readers[j].file;
            && t.event == s.event + 1 && t.readers[j].file == f
            && if s.counts[f] % EVENT_MODULUS != t.event % EVENT_MODULUS
               then t.readers[j].position == Leaving(Delivered(t.event % EVENT_MODULUS)) && t.counts[f] == t.event
               else Sleeping(t, j) && t.counts[f] == s.counts[f]
  {
    hide Run, Step, Round;
    var wake := Notifications(s, k, 1);
    var t := Run(s, wake);
    ReadEnds(t, j, false);
    RunConcat(s, wake, [Read(j, Resume)] + Round(j, false));
    actions := wake + ([Read(j, Resume)] + Round(j, false));
  }

  /** A rescind likewise makes it return EIO. */
  lemma RescindEndsRead(s: System, k: nat, j: nat) returns (actions: seq<Action>)
    requires WellFormed(s) && k < |s.notifiers| && s.notifiers[k].Quiet?
    requires j < |s.readers| && Sleeping(s, j)
    ensures var t := Run(s, actions);
            t.readers[j].position == Leaving(EIO) && t.counts == s.counts
  {
    hide Run, Step, Round;
    var rescind := Rescind(s, k);
    var t := Run(s, rescind);
    ReadEnds(t, j, false);
    RunConcat(s, rescind, [Read(j, Resume)] + Round(j, false));
    actions := rescind + ([Read(j, Resume)] + Round(j, false));
  }

  /** A signal makes a sleeping reader with nothing to read return ERESTARTSYS, and consumes nothing. */
  lemma SignalEndsRead(s: System, j: nat)
    requires WellFormed(s) && s.info && s.irq && j < |s.readers| && Sleeping(s, j)
    requires s.counts[s.readers[j].file] % EVENT_MODULUS == s.event % EVENT_MODULUS
    ensures var t := Run(s, [Read(j, Signal), Read(j, Resume), Read(j, CheckInfo)]
                            + (Look(j) + [Read(j, GiveUp(true))]));
            OnlyReader(s, t, j, Leaving(ERESTARTSYS))
  {
    hide Run, Step;
    var first := [Read(j, Signal), Read(j, Resume), Read(j, CheckInfo)];
    RunThree(s, Read(j, Signal), Read(j, Resume), Read(j, CheckInfo));
    Signalled(s, j);
    var t := Run(s, first);
    RunThree(t, Read(j, Arm), Read(j, Load), Read(j, Compare));
    RunOne(Run(t, Look(j)), Read(j, GiveUp(true)));
    GivesUp(t, j);
    RunConcat(t, Look(j), [Read(j, GiveUp(true))]);
    RunConcat(s, first, Look(j) + [Read(j, GiveUp(true))]);
  }

  lemma Signalled(s: System, j: nat)
    requires WellFormed(s) && s.info && s.irq && j < |s.readers| && s.readers[j].position.Asleep?
    ensures OnlyReader(s, Step(Step(Step(s, Read(j, Signal)), Read(j, Resume)), Read(j, CheckInfo)), j, Checked)
  {}

  lemma GivesUp(s: System, j: nat)
    requires WellFormed(s) && j < |s.readers| && s.readers[j].position.Checked?
    requires s.counts[s.readers[j].file] % EVENT_MODULUS == s.event % EVENT_MODULUS
    ensures var t := Step(Step(Step(s, Read(j, Arm)), Read(j, Load)), Read(j, Compare));
            OnlyReader(s, Step(t, Read(j, GiveUp(true))), j, Leaving(ERESTARTSYS))
  {}

  /** What each result of a read means: the step that sets it, and the state it was set in. */
  lemma ResultsMean(s: System, a: Action, j: nat)
    requires WellFormed(s) && j < |s.readers|
    requires Step(s, a).readers[j].position.Leaving? && !s.readers[j].position.Leaving?
    ensures a.Read? && a.reader == j
    ensures match Step(s, a).readers[j].position.outcome
            case EAGAIN => a.move == GiveUp(false) && s.readers[j].position.Idle?
            case ERESTARTSYS => a.move == GiveUp(true) && s.readers[j].position.Idle?
            case EFAULT => a.move == Copy(true) && s.readers[j].position.Copying?
            case EIO => a.move == CheckInfo && !(s.info && s.irq)
            case Delivered(v) =>
              && a.move == Copy(false) && s.readers[j].position.Copying?
              && v == s.readers[j].position.value % EVENT_MODULUS
              && v == Step(s, a).counts[s.readers[j].file] % EVENT_MODULUS
  {}

  /** A read that is never non-blocking never returns EAGAIN, and one that no signal reaches never ERESTARTSYS. */
  lemma {:induction false} GivesUpForCause(s: System, actions: seq<Action>, j: nat, signal: bool)
    requires WellFormed(s) && j < |s.readers|
    requires forall i :: 0 <= i < |actions| ==> actions[i] != Read(j, GiveUp(signal))
    requires s.readers[j].position != Leaving(if signal then ERESTARTSYS else EAGAIN)
    ensures Run(s, actions).readers[j].position != Leaving(if signal then ERESTARTSYS else EAGAIN)
    decreases |actions|
  {
    if actions != [] {
      var t := Step(s, actions[0]);
      GivesUpForCause(t, actions[1..], j, signal);
    }
  }

  /** A task that copies to user space or is outside of a read is running: neither may look as if it slept. */
  ghost predicate AwakeInv(s: System) {
    forall j :: 0 <= j < |s.readers| && (s.readers[j].position.Copying? || s.readers[j].position.Outside?) ==>
      s.readers[j].task == Running
  }

  lemma StepKeepsAwake(s: System, a: Action)
    requires WellFormed(s) && AwakeInv(s)
    ensures AwakeInv(Step(s, a))
  {
    match a
    case Read(j, m) =>
      if j < |s.readers| {
        assert Step(s, a).readers == s.readers[j := Moved(s, s.readers[j], m)];
      }
    case Raise(k, c) => if k < |s.notifiers| { RaiseIsRemote(s, k, c); }
  }

  lemma {:induction false} CopiesAwake(s: System, actions: seq<Action>)
    requires WellFormed(s) && AwakeInv(s)
    ensures AwakeInv(Run(s, actions))
    decreases |actions|
  {
    hide Step, AwakeInv;
    if actions != [] {
      StepKeepsAwake(s, actions[0]);
      CopiesAwake(Step(s, actions[0]), actions[1..]);
    }
  }
}
