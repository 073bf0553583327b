/** The compaction scheduler as a protocol between the engine owner and the worker thread. Every
    atomic load, store, channel operation or lock section is one step; runs interleave the two
    sides freely. */
module Scheduler {
  import opened Bytes

  /** A planned job. `clean` records that no earlier job was outstanding when it was planned. */
  datatype Item = Item(clean: bool, priority: int)

  /** Where the owner stands. `maybe_submit_compaction` runs Gate .. Sending, `poll_results` and the
      application of what it returned run Polling .. Applying. */
  datatype Owner =
    | Resting
    | Gate
    | StagedBusy
    | StagedPending
    | TakeStaged
    | Planning
    | SubmitBusy(item: Item)
    | SubmitPending(item: Item)
    | Marking(item: Item)
    | Sending(item: Item)
    | Polling(got: nat)
    | Draining(got: nat)
    | Applying(got: nat)

  datatype Worker = Waiting | Running | Counted | Cleared

  datatype State = State(owner: Owner, worker: Worker, busy: bool, pending: int,
                         queue: nat, results: nat, staged: Option<Item>)

  const INITIAL := State(Resting, Waiting, false, 0, 0, 0, None)

  datatype Action =
    | BeginSubmit
    | BeginPoll
    | Owner(found: Option<int>)  // the priority of the job a planning step finds, if it finds one
    | Work

  /** Results taken from the channel but not yet subtracted from the counter. */
  function InHand(o: Owner): nat {
    match o
    case Polling(n) => n
    case Draining(n) => n
    case _ => 0
  }

  /** Some submitted job is queued, running, finished but undelivered, delivered but undrained, or
      drained but not yet applied. */
  predicate Outstanding(s: State) {
    || s.queue > 0 || s.worker != Waiting || s.results > 0 || InHand(s.owner) > 0
    || (s.owner.Applying? && s.owner.got > 0)
  }

  // ---- Steps -------------------------------------------------------------------

  function OwnerStep(s: State, found: Option<int>): State {
    match s.owner
    case Resting => s
    case Gate => s.(owner := if s.pending > 0 then Resting else StagedBusy)
    case StagedBusy => s.(owner := if s.busy then Planning else StagedPending)
    case StagedPending => s.(owner := if s.pending > 0 then Planning else TakeStaged)
    case TakeStaged =>
      (match s.staged
       case Some(item) => s.(owner := Marking(item), staged := None)
       case None => s.(owner := Planning))
    case Planning => s.(owner := if found.None? then Resting else SubmitBusy(Item(!Outstanding(s), found.value)))
    case SubmitBusy(item) =>
      if s.busy then
        var replace := s.staged.None? || item.priority > s.staged.value.priority;
        s.(owner := Resting, staged := if replace then Some(item) else s.staged)
      else s.(owner := SubmitPending(item))
    case SubmitPending(item) => s.(owner := if s.pending > 0 then Resting else Marking(item))
    case Marking(item) => s.(owner := Sending(item), busy := true)
    case Sending(item) => s.(owner := Resting, queue := s.queue + 1)
    case Polling(n) =>
      if s.results > 0 then s.(owner := Polling(n + 1), results := s.results - 1) else s.(owner := Draining(n))
    case Draining(n) => s.(owner := Applying(n), pending := s.pending - n)
    case Applying(n) => s.(owner := Resting, staged := if n > 0 then None else s.staged)
  }

  /** Count, then clear busy, then send. With `countFirst` off the first two swap. */
  function WorkStep(s: State, countFirst: bool): State {
    match s.worker
    case Waiting => if s.queue > 0 then s.(worker := Running, queue := s.queue - 1) else s
    case Running =>
      if countFirst then s.(worker := Counted, pending := s.pending + 1) else s.(worker := Counted, busy := false)
    case Counted =>
      if countFirst then s.(worker := Cleared, busy := false) else s.(worker := Cleared, pending := s.pending + 1)
    case Cleared => s.(worker := Waiting, results := s.results + 1)
  }

  function Step(s: State, a: Action, countFirst: bool): State {
    match a
    case BeginSubmit => if s.owner == Resting then s.(owner := Gate) else s
    case BeginPoll => if s.owner == Resting then s.(owner := Polling(0)) else s
    case Owner(found) => OwnerStep(s, found)
    case Work => WorkStep(s, countFirst)
  }

  /** The state after any sequence of steps of the two sides. */
  function Run(actions: seq<Action>, countFirst: bool): State
    decreases |actions|
  {
    if actions == [] then INITIAL
    else Step(Run(actions[..|actions| - 1], countFirst), actions[|actions| - 1], countFirst)
  }

  // ---- Safety ------------------------------------------------------------------

  /** The counter is exactly the finished jobs not yet subtracted. */
  predicate CounterExact(s: State) {
    s.pending == s.results + InHand(s.owner) + (if s.worker in {Counted, Cleared} then 1 else 0)
  }

  /** Busy covers a job from the mark to the worker's clear, and there is at most one. */
  predicate BusyExact(s: State) {
    var marked := if s.owner.Sending? then 1 else 0;
    var working := if s.worker in {Running, Counted} then 1 else 0;
    && (s.busy <==> marked + s.queue + working > 0)
    && marked + s.queue + (if s.worker != Waiting then 1 else 0) <= 1
  }

  /** What the owner has learned is still true while it acts on it. */
  predicate OwnerKnows(s: State) {
    match s.owner
    case StagedPending => !s.busy
    case TakeStaged => !Outstanding(s)
    case SubmitPending(item) => !s.busy && (!item.clean ==> Outstanding(s))
    case SubmitBusy(item) => !item.clean ==> Outstanding(s)
    case Marking(item) => !Outstanding(s) && item.clean
    case Sending(item) => !Outstanding(s) && item.clean
    case _ => true
  }

  /** A staged plan exists only while the job it waits behind is outstanding. */
  predicate StagedWaits(s: State) {
    s.staged.Some? ==> Outstanding(s)
  }

  predicate Safe(s: State) {
    CounterExact(s) && BusyExact(s) && OwnerKnows(s) && StagedWaits(s)
  }

  /** The owner is between the gate and the send. */
  predicate Submitting(o: Owner) {
    !o.Resting? && !o.Polling? && !o.Draining? && !o.Applying?
  }

  lemma SubmitStepSafe(s: State, found: Option<int>)
    requires Safe(s) && Submitting(s.owner) && !s.owner.Marking? && !s.owner.Sending?
    ensures Safe(OwnerStep(s, found))
  {
  }

  lemma SendStepSafe(s: State, found: Option<int>)
    requires Safe(s) && (s.owner.Marking? || s.owner.Sending?)
    ensures Safe(OwnerStep(s, found))
  {
  }

  lemma PollStepSafe(s: State, found: Option<int>)
    requires Safe(s) && !Submitting(s.owner)
    ensures Safe(OwnerStep(s, found))
  {
  }

  lemma OwnerStepSafe(s: State, found: Option<int>)
    requires Safe(s)
    ensures Safe(OwnerStep(s, found))
  {
    hide Safe, OwnerStep;
    if !Submitting(s.owner) {
      PollStepSafe(s, found);
    } else if s.owner.Marking? || s.owner.Sending? {
      SendStepSafe(s, found);
    } else {
      SubmitStepSafe(s, found);
    }
  }

  lemma StepSafe(s: State, a: Action)
    requires Safe(s)
    ensures Safe(Step(s, a, true))
  {
    if a.Owner? {
      OwnerStepSafe(s, a.found);
    }
  }

  lemma {:induction false} RunSafe(actions: seq<Action>)
    ensures Safe(Run(actions, true))
    decreases |actions|
  {
    if actions != [] {
      RunSafe(actions[..|actions| - 1]);
      StepSafe(Run(actions[..|actions| - 1], true), actions[|actions| - 1]);
    }
  }

  /** Over every interleaving: the result counter never underflows, and whenever the owner sends a
      job, no earlier job is queued, running or awaiting its drain, and the plan being sent was made
      when that was already so. */
  lemma Interlock(actions: seq<Action>)
    ensures var s := Run(actions, true);
            && s.pending >= InHand(s.owner)
            && (s.owner.Sending? ==> !Outstanding(s) && s.owner.item.clean)
            && s.queue <= 1
  {
    RunSafe(actions);
  }

  /** Consequence: the staged slot is always empty by the time the owner may take from it, so a
      plan staged behind a running job is never the one submitted. */
  lemma StagedNeverSubmitted(actions: seq<Action>)
    ensures var s := Run(actions, true);
            s.owner == TakeStaged ==> s.staged == None
  {
    RunSafe(actions);
  }

  // ---- Why the worker counts first ---------------------------------------------

  ghost predicate Reaches(s: State) {
    exists actions :: Run(actions, false) == s
  }

  lemma ReachInitial()
    ensures Reaches(INITIAL)
  {
    assert Run([], false) == INITIAL;
  }

  lemma ReachStep(s: State, a: Action, s': State)
    requires Reaches(s) && s' == Step(s, a, false)
    ensures Reaches(s')
  {
    var actions :| Run(actions, false) == s;
    assert (actions + [a])[..|actions|] == actions;
    assert Run(actions + [a], false) == s';
  }

  lemma SubmitFirst(queued: State)
    requires queued == INITIAL.(busy := true, queue := 1)
    ensures Reaches(queued)
  {
    var o, item := Owner(Some(0)), Item(true, 0);
    ReachInitial();
    hide Run, Reaches;
    ReachStep(INITIAL, BeginSubmit, INITIAL.(owner := Gate));
    ReachStep(INITIAL.(owner := Gate), o, INITIAL.(owner := StagedBusy));
    ReachStep(INITIAL.(owner := StagedBusy), o, INITIAL.(owner := StagedPending));
    ReachStep(INITIAL.(owner := StagedPending), o, INITIAL.(owner := TakeStaged));
    ReachStep(INITIAL.(owner := TakeStaged), o, INITIAL.(owner := Planning));
    ReachStep(INITIAL.(owner := Planning), o, INITIAL.(owner := SubmitBusy(item)));
    ReachStep(INITIAL.(owner := SubmitBusy(item)), o, INITIAL.(owner := SubmitPending(item)));
    ReachStep(INITIAL.(owner := SubmitPending(item)), o, INITIAL.(owner := Marking(item)));
    ReachStep(INITIAL.(owner := Marking(item)), o, INITIAL.(owner := Sending(item), busy := true));
    ReachStep(INITIAL.(owner := Sending(item), busy := true), o, queued);
  }

  /** The order count, clear, send is needed: clearing busy first lets the owner send a second job
      while the first one's result is uncounted and undelivered. */
  lemma ClearingFirstBreaksInterlock() returns (s: State)
    ensures Reaches(s) && s.owner.Sending? && Outstanding(s)
  {
    hide Run, Reaches;
    var o, item := Owner(Some(0)), Item(false, 0);
    var queued := INITIAL.(busy := true, queue := 1);
    SubmitFirst(queued);
    ReachStep(queued, Work, INITIAL.(busy := true, worker := Running));
    var cleared := INITIAL.(worker := Counted);
    ReachStep(INITIAL.(busy := true, worker := Running), Work, cleared);
    ReachStep(cleared, BeginSubmit, cleared.(owner := Gate));
    ReachStep(cleared.(owner := Gate), o, cleared.(owner := StagedBusy));
    ReachStep(cleared.(owner := StagedBusy), o, cleared.(owner := StagedPending));
    ReachStep(cleared.(owner := StagedPending), o, cleared.(owner := TakeStaged));
    ReachStep(cleared.(owner := TakeStaged), o, cleared.(owner := Planning));
    ReachStep(cleared.(owner := Planning), o, cleared.(owner := SubmitBusy(item)));
    ReachStep(cleared.(owner := SubmitBusy(item)), o, cleared.(owner := SubmitPending(item)));
    ReachStep(cleared.(owner := SubmitPending(item)), o, cleared.(owner := Marking(item)));
    s := cleared.(owner := Sending(item), busy := true);
    ReachStep(cleared.(owner := Marking(item)), o, s);
  }
}
