/**
 * mainproc as an object: the worker's variables and the two buttons of the
 * control surface are fields, the channel is a `Channel`, the image is an
 * array of pixels. Each method is one step of the worker (or the callback),
 * and `Snap()` ties the fields to the state machine of RunModel.
 */
module Driver {
  import opened Wrappers
  import opened ControlQueue
  import opened Render
  import opened RunModel

  class Simulation {
    const gridx: nat
    const gridy: nat
    /** `recv` */
    const queue: Channel
    /** `animage` */
    var frame: array2<Rgba>
    var sizex: nat
    var sizey: nat
    var phase: Phase
    var running: bool
    /** the loop index `i` */
    var gen: nat
    /** `Step` calls on this run's Life engine */
    var steps: nat
    /** frames uploaded in this run */
    var frames: nat
    var controlLabel: string
    var controlEnabled: bool
    var resetEnabled: bool

    /** The worker and control-surface state as a RunModel value. */
    function Snap(): Worker
      reads this, queue
    {
      Worker(phase, running, gen, steps, frames, controlLabel, controlEnabled, resetEnabled,
             queue.slot, queue.drops)
    }

    ghost predicate Valid()
      reads this, queue
    {
      Inv(Snap()) &&
      (phase == InRun ==>
         sizex == gridx / Scale && sizey == gridy / Scale &&
         frame.Length0 == Scale * sizex && frame.Length1 == Scale * sizey)
    }

    /**
     * mainproc up to its main loop: an empty channel, the flag clear, the
     * image it was handed, the Start button enabled and Reset disabled.
     */
    constructor (gridx: nat, gridy: nat)
      ensures Valid() && Snap() == Initial()
      ensures this.gridx == gridx && this.gridy == gridy
      ensures fresh(queue) && fresh(frame) && frame.Length0 == gridx && frame.Length1 == gridy
    {
      this.gridx, this.gridy := gridx, gridy;
      queue := new Channel();
      frame := new Rgba[gridx, gridy];
      sizex, sizey := 0, 0;
      phase, running := Idle, false;
      gen, steps, frames := 0, 0, 0;
      controlLabel, controlEnabled, resetEnabled := StartLabel, true, false;
    }

    /** The registered command callback: a non-blocking send that may drop its argument. */
    method Post(arg: int) returns (dropped: bool)
      requires Valid()
      modifies queue
      ensures Valid() && Snap() == Deliver(old(Snap()), arg)
      ensures dropped <==> old(queue.slot).Some?
    {
      dropped := queue.Send(arg);
    }

    /**
     * One pass of the idle loop. An empty slot changes nothing; a value in it
     * is consumed and starts a run: the flag is set, the buttons read Stop /
     * enabled, and a fresh all-black frame of the rounded-down size is made.
     */
    method IdlePoll() returns (started: bool)
      requires Valid() && phase == Idle
      modifies this, queue
      ensures Valid() && Snap() == Advance(old(Snap()))
      ensures started <==> old(queue.slot).Some?
      ensures !started ==> frame == old(frame)
      ensures started ==> fresh(frame) && AllBlack(frame) &&
                          frame.Length0 == FrameSide(gridx) && frame.Length1 == FrameSide(gridy)
    {
      var arg := queue.TryReceive();
      if arg.None? {
        return false;
      }
      started := true;
      running := true;
      controlLabel, controlEnabled := StopLabel, true;
      resetEnabled := true;
      sizex, sizey := gridx / Scale, gridy / Scale;
      frame := NewFrame(sizex, sizey);
      gen, steps, frames := 0, 0, 0;
      phase := InRun;
    }

    /**
     * One iteration of the generation loop: `Step` the engine, whose new
     * cells are `cells`, draw them, upload the frame, then poll for a stop.
     */
    method Generation(cells: array2<bool>)
      requires Valid() && Generates(Snap())
      requires cells.Length0 == sizex && cells.Length1 == sizey
      modifies this, queue, frame
      ensures Valid() && Snap() == Advance(old(Snap()))
      ensures frame == old(frame) && sizex == old(sizex) && sizey == old(sizey)
      ensures Rendered(frame, cells)
    {
      steps := steps + 1;
      DrawGrid(frame, cells);
      frames := frames + 1;
      var arg := queue.TryReceive();
      if arg.Some? {
        running := false;
      }
      gen := gen + 1;
    }

    /** Leaving the generation loop: buttons back to Start / disabled, flag cleared. */
    method FinishRun()
      requires Valid() && phase == InRun && !Generates(Snap())
      modifies this
      ensures Valid() && Snap() == Advance(old(Snap()))
      ensures frame == old(frame)
    {
      controlLabel, controlEnabled := StartLabel, true;
      resetEnabled := false;
      running := false;
      phase := Idle;
    }

    /**
     * A whole run from its first generation to its return to idle, with
     * `arrivals[k]` the command, if any, the GUI delivers during generation k,
     * `late` the command, if any, it delivers after the last stop poll and
     * before the buttons are restored, and `cellsAt[k]` the engine's cells
     * after its k-th `Step`.
     */
    method Run(cellsAt: seq<array2<bool>>, arrivals: seq<Option<int>>, late: Option<int>)
      requires Valid() && phase == InRun && running && gen == 0
      requires |cellsAt| == MaxGens && |arrivals| == MaxGens
      requires forall k :: 0 <= k < MaxGens ==> cellsAt[k].Length0 == sizex && cellsAt[k].Length1 == sizey
      modifies this, queue, frame
      ensures Valid() && phase == Idle && !running && queue.slot == late
      ensures controlLabel == StartLabel && !resetEnabled
      ensures steps == frames == GenerationsRun(old(queue.slot), arrivals)
      ensures 1 <= steps <= MaxGens && frame == old(frame) && Rendered(frame, cellsAt[steps - 1])
    {
      ghost var pending0 := queue.slot;
      while running && gen < MaxGens
        invariant Valid() && phase == InRun
        invariant frame == old(frame) && sizex == old(sizex) && sizey == old(sizey)
        invariant gen == 0 ==> running && queue.slot == pending0
        invariant gen > 0 ==> queue.slot.None? && Rendered(frame, cellsAt[gen - 1])
        invariant (if running then gen + GenerationsRun(queue.slot, arrivals[gen..]) else gen)
                  == GenerationsRun(pending0, arrivals)
        decreases MaxGens - gen
      {
        assert arrivals[gen..][1..] == arrivals[gen + 1..];
        if arrivals[gen].Some? {
          var _ := Post(arrivals[gen].value);
        }
        Generation(cellsAt[gen]);
      }
      if late.Some? {
        var _ := Post(late.value);
      }
      FinishRun();
    }

    /**
     * One pass of mainproc's outer loop: an idle poll and, when it finds a
     * command, the whole run it starts.
     */
    method Cycle(cellsAt: seq<array2<bool>>, arrivals: seq<Option<int>>, late: Option<int>)
      returns (started: bool)
      requires Valid() && phase == Idle
      requires |cellsAt| == MaxGens && |arrivals| == MaxGens
      requires forall k :: 0 <= k < MaxGens ==>
                 cellsAt[k].Length0 == gridx / Scale && cellsAt[k].Length1 == gridy / Scale
      modifies this, queue, frame
      ensures Valid() && phase == Idle && !running
      ensures started <==> old(queue.slot).Some?
      ensures !started ==> Snap() == old(Snap()) && frame == old(frame)
      ensures started ==> queue.slot == late && steps == frames == GenerationsRun(None, arrivals) &&
                          fresh(frame) && frame.Length0 == FrameSide(gridx) &&
                          frame.Length1 == FrameSide(gridy) && Rendered(frame, cellsAt[steps - 1])
    {
      started := IdlePoll();
      if started {
        Run(cellsAt, arrivals, late);
      }
    }
  }
}
