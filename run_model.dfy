/**
 * mainproc's worker as a state machine on values. A `Worker` is everything
 * the worker and the control surface hold between two of its steps; an
 * `Event` is either the GUI callback delivering a command or one step of the
 * worker. Sleeps are dropped, so any interleaving of the two actors is a
 * sequence of events.
 */
module RunModel {
  import opened Wrappers
  import ControlQueue

  /** `lifeMaxGens`: the generation budget of one run. */
  const MaxGens: nat := 50

  const StartLabel := "Start"
  const StopLabel := "Stop"

  /** Where the worker is: the idle polling loop, or the generation loop of a run. */
  datatype Phase = Idle | InRun

  datatype Worker = Worker(
    phase: Phase,
    running: bool,          // the `running` flag
    gen: nat,               // the loop index `i` of the current or last run
    steps: nat,             // `Step` calls on the current or last run's Life engine
    frames: nat,            // frames uploaded in the current or last run
    controlLabel: string,   // text of the Start/Stop button
    controlEnabled: bool,   // state of the Start/Stop button
    resetEnabled: bool,     // state of the Reset button
    pending: Option<int>,   // the channel's slot
    drops: nat)             // sends reported as blocked

  datatype Event = Command(arg: int) | Tick

  /** After mainproc has registered the callback and enabled the Start button. */
  function Initial(): (w: Worker)
    ensures Inv(w) && w.phase == Idle && w.pending.None? && w.drops == 0
  {
    Worker(Idle, false, 0, 0, 0, StartLabel, true, false, None, 0)
  }

  /** The registered callback: a non-blocking send of its argument. */
  function Deliver(w: Worker, v: int): (r: Worker)
    ensures r == w.(pending := r.pending, drops := r.drops) && r.pending.Some?
    ensures w.pending.Some? ==> r.pending == w.pending && r.drops == w.drops + 1
    ensures w.pending.None? ==> r.pending == Some(v) && r.drops == w.drops
  {
    var o := ControlQueue.Offer(w.pending, v);
    w.(pending := o.slot, drops := w.drops + if o.dropped then 1 else 0)
  }

  /** The worker's next step starts a run. */
  predicate Starts(w: Worker)
  {
    w.phase == Idle && w.pending.Some?
  }

  /** The worker's next step is a generation (the loop condition `running && i < lifeMaxGens` holds). */
  predicate Generates(w: Worker)
  {
    w.phase == InRun && w.running && w.gen < MaxGens
  }

  /** One step of the worker: an idle poll, one generation with its stop poll, or the end of a run. */
  function Advance(w: Worker): (r: Worker)
    ensures Inv(w) ==> Inv(r)
    ensures r.drops == w.drops && r.steps <= w.steps + 1
  {
    match w.phase
    case Idle =>
      if w.pending.None? then w
      else w.(phase := InRun, running := true, gen := 0, steps := 0, frames := 0,
              controlLabel := StopLabel, controlEnabled := true, resetEnabled := true,
              pending := None)
    case InRun =>
      if w.running && w.gen < MaxGens then
        w.(steps := w.steps + 1, frames := w.frames + 1, gen := w.gen + 1,
           running := w.pending.None?, pending := None)
      else
        w.(phase := Idle, running := false,
           controlLabel := StartLabel, controlEnabled := true, resetEnabled := false)
  }

  function Apply(w: Worker, e: Event): Worker
  {
    match e
    case Command(v) => Deliver(w, v)
    case Tick => Advance(w)
  }

  function Exec(w: Worker, evs: seq<Event>): Worker
    decreases evs
  {
    if evs == [] then w else Exec(Apply(w, evs[0]), evs[1..])
  }

  function Ticks(k: nat): (evs: seq<Event>)
    ensures |evs| == k && forall i :: 0 <= i < k ==> evs[i] == Tick
  {
    if k == 0 then [] else [Tick] + Ticks(k - 1)
  }

  function Commands(vs: seq<int>): (evs: seq<Event>)
    ensures |evs| == |vs| && forall i :: 0 <= i < |vs| ==> evs[i] == Command(vs[i])
  {
    if vs == [] then [] else [Command(vs[0])] + Commands(vs[1..])
  }

  /** `Step` calls made along an execution. */
  function StepCalls(w: Worker, evs: seq<Event>): nat
    decreases evs
  {
    if evs == [] then 0
    else (if evs[0].Tick? && Generates(w) then 1 else 0) + StepCalls(Apply(w, evs[0]), evs[1..])
  }

  /** Runs started along an execution. */
  function RunStarts(w: Worker, evs: seq<Event>): nat
    decreases evs
  {
    if evs == [] then 0
    else (if evs[0].Tick? && Starts(w) then 1 else 0) + RunStarts(Apply(w, evs[0]), evs[1..])
  }

  /** Generations the current run may still perform. */
  function Remaining(w: Worker): nat
  {
    if w.phase == InRun && w.running && w.gen <= MaxGens then MaxGens - w.gen else 0
  }

  /**
   * Generations one run performs when `pending` is in the slot as its loop
   * begins and `arrivals[k]` is the command, if any, delivered before the
   * stop poll of generation k.
   */
  function GenerationsRun(pending: Option<int>, arrivals: seq<Option<int>>): (n: nat)
    ensures n <= |arrivals|
    ensures arrivals != [] ==> 1 <= n
    decreases arrivals
  {
    if arrivals == [] then 0
    else if pending.Some? || arrivals[0].Some? then 1
    else 1 + GenerationsRun(None, arrivals[1..])
  }

  /** A value already pending when the loop begins stops the run after its first generation. */
  lemma PendingStopsFirstGeneration(v: int, arrivals: seq<Option<int>>)
    requires arrivals != []
    ensures GenerationsRun(Some(v), arrivals) == 1
  {
  }

  /** With no command at all, a run uses its whole budget. */
  lemma {:induction false} QuietRunUsesBudget(arrivals: seq<Option<int>>)
    requires forall k :: 0 <= k < |arrivals| ==> arrivals[k].None?
    ensures GenerationsRun(None, arrivals) == |arrivals|
    decreases arrivals
  {
    if arrivals != [] {
      QuietRunUsesBudget(arrivals[1..]);
    }
  }

  /** The first command delivered during a run stops it right after the generation it arrived in. */
  lemma {:induction false} FirstCommandStops(arrivals: seq<Option<int>>, k: nat)
    requires k < |arrivals| && arrivals[k].Some?
    requires forall j :: 0 <= j < k ==> arrivals[j].None?
    ensures GenerationsRun(None, arrivals) == k + 1
    decreases k
  {
    if k > 0 {
      FirstCommandStops(arrivals[1..], k - 1);
    }
  }

  /**
   * What holds between any two steps: one frame per `Step`, one `Step` per
   * loop iteration, never more than the budget; while idle the flag is clear
   * and the buttons read Start / disabled, during a run Stop / enabled.
   */
  predicate Inv(w: Worker)
  {
    w.controlEnabled && w.frames == w.steps && w.steps == w.gen && w.gen <= MaxGens &&
    (w.phase == Idle ==> !w.running && w.controlLabel == StartLabel && !w.resetEnabled) &&
    (w.phase == InRun ==> w.controlLabel == StopLabel && w.resetEnabled)
  }

  lemma ExecAppend(w: Worker, a: seq<Event>, b: seq<Event>)
    ensures Exec(w, a + b) == Exec(Exec(w, a), b)
    decreases a
  {
    if a == [] {
      assert a + b == b;
    } else {
      assert (a + b)[0] == a[0] && (a + b)[1..] == a[1..] + b;
      ExecAppend(Apply(w, a[0]), a[1..], b);
    }
  }

  lemma ExecPair(w: Worker, e1: Event, e2: Event)
    ensures Exec(w, [e1, e2]) == Apply(Apply(w, e1), e2)
  {
    assert [e1, e2][0] == e1 && [e1, e2][1..] == [e2];
    assert Exec(w, [e1, e2]) == Exec(Apply(w, e1), [e2]);
    assert [e2][0] == e2 && [e2][1..] == [];
    assert Exec(Apply(w, e1), [e2]) == Exec(Apply(Apply(w, e1), e2), []);
  }

  /** Every execution keeps the invariant. */
  lemma {:induction false} ExecKeepsInv(w: Worker, evs: seq<Event>)
    requires Inv(w)
    ensures Inv(Exec(w, evs))
    decreases evs
  {
    if evs != [] {
      ExecKeepsInv(Apply(w, evs[0]), evs[1..]);
    }
  }

  /** Every state the program reaches has rendered exactly one frame per `Step`, at most `lifeMaxGens` of them. */
  lemma Reachable(evs: seq<Event>)
    ensures var w := Exec(Initial(), evs);
            Inv(w) && w.steps <= MaxGens && w.frames == w.steps
  {
    ExecKeepsInv(Initial(), evs);
  }

  /** While idle, polls of an empty slot change nothing: no run, no `Step`. */
  lemma {:induction false} EmptyPollsIdle(w: Worker, k: nat)
    requires w.phase == Idle && w.pending.None?
    ensures Exec(w, Ticks(k)) == w
    ensures StepCalls(w, Ticks(k)) == 0 && RunStarts(w, Ticks(k)) == 0
  {
    if k > 0 {
      EmptyPollsIdle(w, k - 1);
    }
  }

  /** A command reaching an idle worker is consumed by its next poll, which starts a run. */
  lemma StartCommand(w: Worker, v: int)
    requires Inv(w) && w.phase == Idle && w.pending.None?
    ensures var r := Exec(w, [Command(v), Tick]);
            r.phase == InRun && r.running && r.pending.None? && r.steps == 0 &&
            r.controlLabel == StopLabel && r.resetEnabled && r.drops == w.drops
  {
    ExecPair(w, Command(v), Tick);
  }

  /** A generation that finds a signal in the slot consumes it and clears `running`; otherwise the loop goes on. */
  lemma StopPoll(w: Worker)
    requires Inv(w) && Generates(w)
    ensures Advance(w).steps == w.steps + 1 && Advance(w).pending.None?
    ensures Generates(Advance(w)) <==> w.pending.None? && w.gen + 1 < MaxGens
  {
  }

  /** Commands leave the worker's own state alone. */
  lemma {:induction false} CommandsOnlyFill(w: Worker, vs: seq<int>)
    ensures var r := Exec(w, Commands(vs));
            r == w.(pending := r.pending, drops := r.drops) &&
            (r.pending, r.drops - w.drops) == ControlQueue.SendAll(w.pending, vs) &&
            r.drops >= w.drops
    decreases vs
  {
    if vs != [] {
      CommandsOnlyFill(Deliver(w, vs[0]), vs[1..]);
    }
  }

  /** Once `running` is cleared, the next step ends the run, whatever commands arrive first: no further `Step`. */
  lemma StoppedRunEnds(w: Worker, vs: seq<int>)
    requires Inv(w) && w.phase == InRun && !w.running
    ensures var r := Exec(w, Commands(vs) + [Tick]);
            r.phase == Idle && !r.running && r.steps == w.steps &&
            r.controlLabel == StartLabel && !r.resetEnabled
    ensures StepCalls(w, Commands(vs) + [Tick]) == 0
  {
    CommandsOnlyFill(w, vs);
    ExecAppend(w, Commands(vs), [Tick]);
    NoStepsWhileStopped(w, Commands(vs) + [Tick]);
  }

  /** While the loop condition is false, commands alone cause no `Step` before the next worker step. */
  lemma {:induction false} NoStepsWhileStopped(w: Worker, evs: seq<Event>)
    requires !Generates(w)
    requires forall k :: 0 <= k < |evs| ==> evs[k].Command? || k == |evs| - 1
    ensures StepCalls(w, evs) == 0
    decreases evs
  {
    if evs != [] {
      var w1 := Apply(w, evs[0]);
      if |evs| > 1 {
        assert evs[0].Command?;
        NoStepsWhileStopped(w1, evs[1..]);
      }
    }
  }

  /**
   * Cancellation: a command delivered during a run lets the current
   * generation finish, takes effect at its poll, and the step after that
   * leaves the run, so exactly one more `Step` is made.
   */
  lemma StopWithinOneGeneration(w: Worker, v: int, vs: seq<int>)
    requires Inv(w) && Generates(w)
    ensures var r := Exec(w, [Command(v), Tick] + Commands(vs) + [Tick]);
            r.phase == Idle && r.steps == w.steps + 1 &&
            r.controlLabel == StartLabel && !r.resetEnabled
  {
    var w2 := Advance(Deliver(w, v));
    ExecPair(w, Command(v), Tick);
    ExecAppend(w, [Command(v), Tick], Commands(vs) + [Tick]);
    assert [Command(v), Tick] + Commands(vs) + [Tick] == [Command(v), Tick] + (Commands(vs) + [Tick]);
    StoppedRunEnds(w2, vs);
  }

  /** Without commands, a run performs one generation per step until the budget is spent. */
  lemma {:induction false} Uninterrupted(w: Worker, k: nat)
    requires Inv(w) && w.phase == InRun && w.running && w.pending.None? && w.gen + k <= MaxGens
    ensures Exec(w, Ticks(k)) == w.(gen := w.gen + k, steps := w.steps + k, frames := w.frames + k)
    ensures StepCalls(w, Ticks(k)) == k
    decreases k
  {
    if k > 0 {
      Uninterrupted(Advance(w), k - 1);
    }
  }

  /**
   * One start command and no other: the run performs exactly `lifeMaxGens`
   * generations, one frame each, then returns to idle with the buttons restored.
   */
  lemma FullRun(w: Worker, v: int)
    requires Inv(w) && w.phase == Idle && w.pending.None?
    ensures var r := Exec(w, [Command(v)] + Ticks(MaxGens + 2));
            r.phase == Idle && !r.running && r.pending.None? &&
            r.steps == MaxGens && r.frames == MaxGens &&
            r.controlLabel == StartLabel && !r.resetEnabled
    ensures StepCalls(w, [Command(v)] + Ticks(MaxGens + 2)) == MaxGens
  {
    var w1 := Deliver(w, v);
    var w2 := Advance(w1);
    assert ([Command(v)] + Ticks(MaxGens + 2))[1..] == Ticks(MaxGens + 2);
    assert Ticks(MaxGens + 2) == [Tick] + Ticks(MaxGens + 1);
    assert Ticks(MaxGens + 1) == Ticks(MaxGens) + [Tick] by { TicksSnoc(MaxGens); }
    Uninterrupted(w2, MaxGens);
    ExecAppend(w2, Ticks(MaxGens), [Tick]);
    StepCallsAppend(w2, Ticks(MaxGens), [Tick]);
  }

  lemma {:induction false} TicksSnoc(k: nat)
    ensures Ticks(k + 1) == Ticks(k) + [Tick]
  {
    if k > 0 {
      TicksSnoc(k - 1);
    }
  }

  lemma StepCallsAppend(w: Worker, a: seq<Event>, b: seq<Event>)
    ensures StepCalls(w, a + b) == StepCalls(w, a) + StepCalls(Exec(w, a), b)
    decreases a
  {
    if a == [] {
      assert a + b == b;
    } else {
      assert (a + b)[0] == a[0] && (a + b)[1..] == a[1..] + b;
      StepCallsAppend(Apply(w, a[0]), a[1..], b);
    }
  }

  /** Along any execution, the worker never makes more than `lifeMaxGens` `Step` calls per run. */
  lemma {:induction false} StepBudget(w: Worker, evs: seq<Event>)
    requires Inv(w)
    ensures StepCalls(w, evs) <= MaxGens * RunStarts(w, evs) + Remaining(w)
    decreases evs
  {
    if evs != [] {
      var w1 := Apply(w, evs[0]);
      StepBudget(w1, evs[1..]);
    }
  }

  /**
   * A command that arrives after the last generation's poll is still in the
   * slot when the run ends: the next idle poll takes it as a new start.
   */
  lemma LateSignalRestarts(w: Worker, v: int)
    requires Inv(w) && w.phase == InRun && w.running && w.gen == MaxGens && w.pending.None?
    ensures var r := Exec(w, [Command(v), Tick, Tick]);
            r.phase == InRun && r.running && r.steps == 0 && r.controlLabel == StopLabel
  {
    ExecAppend(w, [Command(v), Tick], [Tick]);
    ExecPair(w, Command(v), Tick);
    assert [Command(v), Tick] + [Tick] == [Command(v), Tick, Tick];
  }
}
