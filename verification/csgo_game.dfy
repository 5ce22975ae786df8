/**
 * The game-tick scheduler of the movement simulator. After Start, game tick k happens at
 * wall-clock time start + k * interval. Each new player input finalizes every tick that
 * precedes it, re-predicts the next tick from the inputs since the last finalized tick, and
 * yields the world state to draw.
 *
 * Times are integers (microseconds); the simulation step size and the timescale are reals
 * and the tick interval is the truncated quotient CsgoGame::Start computes. The world state and
 * the input payload are type parameters: DoTimeStep and the draw interpolation are function
 * parameters the model knows nothing about.
 */
module CsgoGame {
  import opened Wrappers

  datatype PlayerInput<P> = PlayerInput(time: int, payload: P)

  datatype Game<W, P> = Game(
    stepSize: real,          // simulation step size in seconds; 0 until started
    timescale: real,
    interval: int,           // wall-clock microseconds between game ticks
    start: int,              // time point of tick 0
    finalizedId: nat,        // the most recently finalized game tick ...
    finalized: W,            // ... and its world state
    inputs: seq<PlayerInput<P>>,  // inputs since that tick, in chronological order
    predicted: W,            // the latest prediction of the tick after it
    drawn: W,                // the latest drawn world state ...
    drawnTime: int)          // ... and its time point

  /** The constructor: not started, every world state default-constructed. */
  function NewGame<W, P>(def: W): (g: Game<W, P>)
    ensures !HasBeenStarted(g) && g.finalizedId == 0 && g.inputs == []
  {
    Game(0.0, 0.0, 0, 0, 0, def, [], def, def, 0)
  }

  predicate HasBeenStarted<W, P>(g: Game<W, P>)
  {
    g.stepSize > 0.0
  }

  /** The wall-clock time point of a game tick. */
  function TickTime<W, P>(g: Game<W, P>, id: nat): int
  {
    g.start + id * g.interval
  }

  /** The time point at which a game tick ends: that of the tick after it. */
  function TickEnd<W, P>(g: Game<W, P>, id: nat): int
  {
    TickTime(g, id + 1)
  }

  /** The tick interval: 10^6 * step / timescale microseconds, truncated toward zero. */
  function IntervalOf(stepSize: real, timescale: real): (r: int)
    requires stepSize > 0.0 && timescale > 0.0
    ensures r >= 0 && r as real <= 1000000.0 * stepSize / timescale < r as real + 1.0
  {
    (1000000.0 * stepSize / timescale).Floor
  }

  /** DoTimeStep applied k times with no input, starting from w. */
  function EmptySteps<W, P>(w: W, k: nat, stepSize: real, doStep: (W, real, seq<PlayerInput<P>>) -> W): W
  {
    if k == 0 then w else doStep(EmptySteps(w, k - 1, stepSize, doStep), stepSize, [])
  }

  /**
   * Start: remembers the parameters, makes `now` the time point of tick 0, finalizes tick 0
   * as the initial world state with no inputs, and predicts tick 1 from it.
   */
  function Start<W, P>(g: Game<W, P>, stepSize: real, timescale: real, now: int, initial: W,
                       doStep: (W, real, seq<PlayerInput<P>>) -> W): (r: Game<W, P>)
    requires stepSize > 0.0 && timescale > 0.0
    ensures HasBeenStarted(r) && r.finalizedId == 0 && r.inputs == [] && r.finalized == initial
    ensures forall k: nat :: TickTime(r, k) == now + k * IntervalOf(stepSize, timescale)
    ensures r.predicted == doStep(initial, stepSize, [])
  {
    Game(stepSize, timescale, IntervalOf(stepSize, timescale), now, 0, initial, [], doStep(initial, stepSize, []),
         initial, now)
  }

  /**
   * Start accepts any positive step size and timescale, so a step shorter than a
   * microsecond of wall-clock time gives a tick interval of 0: every tick then ends at the
   * start time, and the search for the tick preceding a later input never ends.
   */
  lemma StartAllowsZeroInterval<W, P>(g: Game<W, P>, now: int, initial: W,
                                      doStep: (W, real, seq<PlayerInput<P>>) -> W)
    ensures var r := Start(g, 0.0000001, 1.0, now, initial, doStep);
      && HasBeenStarted(r) && r.interval == 0
      && forall d: nat :: TickEnd(r, d) < now + 1
  {
    var r := Start(g, 0.0000001, 1.0, now, initial, doStep);
    assert IntervalOf(0.0000001, 1.0) == 0;
    forall d: nat ensures TickEnd(r, d) < now + 1 {
      assert TickTime(r, d + 1) == now;
    }
  }

  /**
   * Start with the step rejected when it is shorter than one microsecond of wall-clock
   * time, so that a started game always has a positive tick interval.
   */
  function StartChecked<W, P>(g: Game<W, P>, stepSize: real, timescale: real, now: int, initial: W,
                              doStep: (W, real, seq<PlayerInput<P>>) -> W): (r: Option<Game<W, P>>)
    requires stepSize > 0.0 && timescale > 0.0
    ensures r.None? <==> 1000000.0 * stepSize / timescale < 1.0
    ensures r.Some? ==> HasBeenStarted(r.value) && r.value.interval > 0
    ensures r.Some? ==> r.value == Start(g, stepSize, timescale, now, initial, doStep)
  {
    if IntervalOf(stepSize, timescale) == 0 then None
    else Some(Start(g, stepSize, timescale, now, initial, doStep))
  }

  /** The target tick: the finalized tick the input must follow. */
  predicate IsTargetTick<W, P>(g: Game<W, P>, t: int, d: nat)
  {
    && g.finalizedId <= d
    && TickEnd(g, d) >= t
    && forall j: nat :: g.finalizedId <= j < d ==> TickEnd(g, j) < t
  }

  /** There is at most one target tick. */
  lemma TargetTickUnique<W, P>(g: Game<W, P>, t: int, d1: nat, d2: nat)
    requires IsTargetTick(g, t, d1) && IsTargetTick(g, t, d2)
    ensures d1 == d2
  {
  }

  /** Inputs in chronological order. */
  predicate Chronological<P>(s: seq<PlayerInput<P>>)
  {
    forall i, j :: 0 <= i < j < |s| ==> s[i].time <= s[j].time
  }

  /** What the drawn world state is: the prediction itself when no time separates it from the last draw. */
  function DrawnState<W>(prevDrawn: W, predicted: W, step: int, range: int, interp: (W, W, int, int) -> W): W
  {
    if range == 0 then predicted else interp(prevDrawn, predicted, step, range)
  }

  /**
   * ProcessNewPlayerInput. Before Start it returns the default world state and changes
   * nothing. Otherwise it finds the target tick d, finalizes every tick up to d (the first
   * from the stored prediction, the others by DoTimeStep with no input), appends the input
   * to those since tick d, predicts tick d + 1 from them and interpolates the drawn state.
   */
  method ProcessNewPlayerInput<W, P>(g: Game<W, P>, input: PlayerInput<P>, def: W,
                                     doStep: (W, real, seq<PlayerInput<P>>) -> W,
                                     interp: (W, W, int, int) -> W)
    returns (r: Game<W, P>, drawn: W)
    requires HasBeenStarted(g) ==> g.interval > 0
    requires forall i :: 0 <= i < |g.inputs| ==> g.inputs[i].time <= input.time
    ensures !HasBeenStarted(g) ==> r == g && drawn == def
    ensures HasBeenStarted(g) ==>
      && IsTargetTick(g, input.time, r.finalizedId)
      && r.stepSize == g.stepSize && r.interval == g.interval && r.start == g.start
      && (r.finalizedId == g.finalizedId ==> r.finalized == g.finalized && r.inputs == g.inputs + [input])
      && (r.finalizedId > g.finalizedId ==>
            r.finalized == EmptySteps(g.predicted, r.finalizedId - g.finalizedId - 1, g.stepSize, doStep)
            && r.inputs == [input])
      && r.predicted == doStep(r.finalized, g.stepSize, r.inputs)
      && drawn == DrawnState(g.drawn, r.predicted, input.time - g.drawnTime, TickTime(g, r.finalizedId + 1) - g.drawnTime, interp)
      && r.drawn == drawn && r.drawnTime == input.time
  {
    if !HasBeenStarted(g) {
      return g, def;
    }
    var t := input.time;

    // Step 1: the id of the game tick directly preceding the input
    var d: nat := g.finalizedId;
    while TickEnd(g, d) < t
      invariant g.finalizedId <= d
      invariant forall j: nat :: g.finalizedId <= j < d ==> TickEnd(g, j) < t
      decreases t - TickEnd(g, d)
    {
      d := d + 1;
    }

    // Step 2: finalize the ticks up to d
    var id := g.finalizedId;
    var finalized := g.finalized;
    var inputs := g.inputs;
    if id < d {
      finalized := g.predicted;
      id := id + 1;
      inputs := [];
    }
    while id < d
      invariant g.finalizedId <= id <= d
      invariant id > g.finalizedId ==> finalized == EmptySteps(g.predicted, id - g.finalizedId - 1, g.stepSize, doStep)
      invariant id == g.finalizedId ==> finalized == g.finalized && inputs == g.inputs
      invariant id > g.finalizedId ==> inputs == []
    {
      finalized := doStep(finalized, g.stepSize, []);
      id := id + 1;
    }

    // Step 3: predict the next tick from the inputs since the finalized one
    inputs := inputs + [input];
    var predicted := doStep(finalized, g.stepSize, inputs);
    var next := TickTime(g, id + 1);

    // Step 4: the drawn state
    drawn := DrawnState(g.drawn, predicted, t - g.drawnTime, next - g.drawnTime, interp);
    r := g.(finalizedId := id, finalized := finalized, inputs := inputs, predicted := predicted,
            drawn := drawn, drawnTime := t);
  }

  /** The inputs since the finalized tick stay in chronological order. */
  lemma InputsStayChronological<P>(inputs: seq<PlayerInput<P>>, input: PlayerInput<P>)
    requires Chronological(inputs)
    requires forall i :: 0 <= i < |inputs| ==> inputs[i].time <= input.time
    ensures Chronological(inputs + [input]) && Chronological([input])
  {
  }

  /** Tick time points strictly increase once the game runs with a positive interval. */
  lemma {:induction false} TickTimesIncrease<W, P>(g: Game<W, P>, a: nat, b: nat)
    requires g.interval > 0 && a < b
    ensures TickTime(g, a) < TickTime(g, b)
    decreases b - a
  {
    if a + 1 < b {
      TickTimesIncrease(g, a + 1, b);
    }
    assert TickTime(g, a + 1) == TickTime(g, a) + g.interval;
  }

  /**
   * The target tick is the last tick whose successor is before the input: tick d + 1 is the
   * first tick at or after the input's time.
   */
  lemma TargetTickIsLastBefore<W, P>(g: Game<W, P>, t: int, d: nat)
    requires g.interval > 0 && IsTargetTick(g, t, d) && d > g.finalizedId
    ensures TickTime(g, d) < t <= TickTime(g, d + 1)
  {
    var j: nat := d - 1;
    assert g.finalizedId <= j < d;
    assert TickEnd(g, j) < t;
  }
}
