/**
 * The integer side of one simulation step: the player's input-command counters, the viewing
 * angles taken from the latest input, and the button bitmask and move amounts handed to the
 * movement code. Positions, velocities and the movement physics are floating point and are
 * not modelled; the step reports which of the two movement modes runs and what it is given.
 */
module WorldState {
  import Bits

  /** The console commands a player input can carry: +cmd presses, -cmd releases. */
  datatype Command =
    | PlusForward | PlusBack | PlusMoveLeft | PlusMoveRight | PlusUse
    | PlusJump | PlusDuck | PlusSpeed | PlusAttack | PlusAttack2
    | MinusForward | MinusBack | MinusMoveLeft | MinusMoveRight | MinusUse
    | MinusJump | MinusDuck | MinusSpeed | MinusAttack | MinusAttack2

  /** The player's ten input-command counters. */
  datatype Counter = Forward | Back | MoveLeft | MoveRight | Use | Jump | Duck | Speed | Attack | Attack2

  /** inputCmdActiveCount: the counter a command acts on. */
  function CounterOf(cmd: Command): Counter
  {
    match cmd
    case PlusForward | MinusForward => Forward
    case PlusBack | MinusBack => Back
    case PlusMoveLeft | MinusMoveLeft => MoveLeft
    case PlusMoveRight | MinusMoveRight => MoveRight
    case PlusUse | MinusUse => Use
    case PlusJump | MinusJump => Jump
    case PlusDuck | MinusDuck => Duck
    case PlusSpeed | MinusSpeed => Speed
    case PlusAttack | MinusAttack => Attack
    case PlusAttack2 | MinusAttack2 => Attack2
  }

  predicate IsPlus(cmd: Command)
  {
    cmd.PlusForward? || cmd.PlusBack? || cmd.PlusMoveLeft? || cmd.PlusMoveRight? || cmd.PlusUse?
    || cmd.PlusJump? || cmd.PlusDuck? || cmd.PlusSpeed? || cmd.PlusAttack? || cmd.PlusAttack2?
  }

  /** The +command of a counter. */
  function PlusOf(c: Counter): Command
  {
    match c
    case Forward => PlusForward
    case Back => PlusBack
    case MoveLeft => PlusMoveLeft
    case MoveRight => PlusMoveRight
    case Use => PlusUse
    case Jump => PlusJump
    case Duck => PlusDuck
    case Speed => PlusSpeed
    case Attack => PlusAttack
    case Attack2 => PlusAttack2
  }

  /** The -command of a counter. */
  function MinusOf(c: Counter): Command
  {
    match c
    case Forward => MinusForward
    case Back => MinusBack
    case MoveLeft => MinusMoveLeft
    case MoveRight => MinusMoveRight
    case Use => MinusUse
    case Jump => MinusJump
    case Duck => MinusDuck
    case Speed => MinusSpeed
    case Attack => MinusAttack
    case Attack2 => MinusAttack2
  }

  /**
   * Every command is the +command or the -command of exactly its counter: the two commands
   * of a pair share a counter, and different pairs use different counters.
   */
  lemma CommandPairs(cmd: Command)
    ensures IsPlus(cmd) ==> cmd == PlusOf(CounterOf(cmd))
    ensures !IsPlus(cmd) ==> cmd == MinusOf(CounterOf(cmd))
  {
  }

  lemma CounterOfPair(c: Counter)
    ensures CounterOf(PlusOf(c)) == c && CounterOf(MinusOf(c)) == c
    ensures IsPlus(PlusOf(c)) && !IsPlus(MinusOf(c))
  {
  }

  /** The counters are `unsigned int`: an increment wraps around at 2^32. */
  const UINT_RANGE: nat := 0x1_0000_0000
  type UInt = x: nat | x < UINT_RANGE

  datatype Counters = Counters(
    forward: UInt, back: UInt, moveLeft: UInt, moveRight: UInt, use: UInt,
    jump: UInt, duck: UInt, speed: UInt, attack: UInt, attack2: UInt)

  const ZERO_COUNTERS := Counters(0, 0, 0, 0, 0, 0, 0, 0, 0, 0)

  function Get(cs: Counters, c: Counter): UInt
  {
    match c
    case Forward => cs.forward
    case Back => cs.back
    case MoveLeft => cs.moveLeft
    case MoveRight => cs.moveRight
    case Use => cs.use
    case Jump => cs.jump
    case Duck => cs.duck
    case Speed => cs.speed
    case Attack => cs.attack
    case Attack2 => cs.attack2
  }

  function Set(cs: Counters, c: Counter, v: UInt): (r: Counters)
    ensures Get(r, c) == v
    ensures forall o :: o != c ==> Get(r, o) == Get(cs, o)
  {
    match c
    case Forward => cs.(forward := v)
    case Back => cs.(back := v)
    case MoveLeft => cs.(moveLeft := v)
    case MoveRight => cs.(moveRight := v)
    case Use => cs.(use := v)
    case Jump => cs.(jump := v)
    case Duck => cs.(duck := v)
    case Speed => cs.(speed := v)
    case Attack => cs.(attack := v)
    case Attack2 => cs.(attack2 := v)
  }

  /** One counter step: +cmd increments (wrapping), -cmd decrements only a positive counter. */
  function Bump(v: UInt, plus: bool): (r: UInt)
    ensures plus ==> r == (v + 1) % UINT_RANGE
    ensures !plus ==> r == if v > 0 then v - 1 else 0
  {
    if plus then (v + 1) % UINT_RANGE else if v != 0 then v - 1 else v
  }

  /** Pressing and then releasing a key restores its counter, short of the wrap-around. */
  lemma PressRelease(v: UInt)
    requires v + 1 < UINT_RANGE
    ensures Bump(Bump(v, true), false) == v
    ensures Bump(v, true) != 0
  {
  }

  datatype Vec3 = Vec3(x: real, y: real, z: real)

  /** The player; position, velocity and movement state are left out. */
  datatype Player = Player(
    angles: Vec3,
    stamina: real,
    crouched: bool,
    weaponSlot: nat,
    timeSinceWeaponSwitch: real,
    counters: Counters)

  const CSGO_CVAR_SV_STAMINAMAX: real := 80.0

  /** The player's member initialisers. */
  const DEFAULT_PLAYER := Player(Vec3(0.0, 0.0, 0.0), CSGO_CVAR_SV_STAMINAMAX, false, 0, 100.0, ZERO_COUNTERS)

  lemma DefaultPlayerCounters(c: Counter)
    ensures Get(DEFAULT_PLAYER.counters, c) == 0
    ensures DEFAULT_PLAYER.stamina == 80.0 && !DEFAULT_PLAYER.crouched && DEFAULT_PLAYER.weaponSlot == 0
  {
  }

  datatype PlayerInput = PlayerInput(time: int, commands: seq<Command>, weaponSlot: nat, pitch: real, yaw: real)

  /** Every command of every input, in chronological order. */
  function AllCommands(inputs: seq<PlayerInput>): (cmds: seq<Command>)
    decreases |inputs|
  {
    if inputs == [] then [] else AllCommands(inputs[..|inputs| - 1]) + inputs[|inputs| - 1].commands
  }

  /** The counter update of one command, and whether it is a +attack on a released attack. */
  function Process(cs: Counters, cmd: Command): (r: Counters)
    ensures forall c :: c != CounterOf(cmd) ==> Get(r, c) == Get(cs, c)
    ensures Get(r, CounterOf(cmd)) == Bump(Get(cs, CounterOf(cmd)), IsPlus(cmd))
  {
    var c := CounterOf(cmd);
    Set(cs, c, Bump(Get(cs, c), IsPlus(cmd)))
  }

  /** The counters after processing the commands in order: each counter walks its own pair's steps. */
  function ProcessAll(cs: Counters, cmds: seq<Command>): (r: Counters)
    ensures forall c {:trigger StepsOf(cmds, c)} :: Get(r, c) == Walk(Get(cs, c), StepsOf(cmds, c))
    decreases |cmds|
  {
    if cmds == [] then cs
    else
      var init := cmds[..|cmds| - 1];
      WalkLast();
      Process(ProcessAll(cs, init), cmds[|cmds| - 1])
  }

  /** Walking one more step bumps the counter the walk so far reached. */
  lemma WalkLast()
    ensures forall v, steps: seq<bool>, b :: Walk(v, steps + [b]) == Bump(Walk(v, steps), b)
  {
    forall v, steps: seq<bool>, b ensures Walk(v, steps + [b]) == Bump(Walk(v, steps), b) {
      assert (steps + [b])[..|steps|] == steps;
    }
  }

  /** tryAttack: some +attack arrives while the attack counter is 0. */
  function TryAttack(cs: Counters, cmds: seq<Command>): (r: bool)
    ensures r <==> exists i :: AttackAt(cs, cmds, i)
    decreases |cmds|
  {
    if cmds == [] then false
    else
      var init := cmds[..|cmds| - 1];
      AttackAtInit(cs, cmds, init);
      TryAttack(cs, init) || (cmds[|cmds| - 1] == PlusAttack && Get(ProcessAll(cs, init), Attack) == 0)
  }

  /** Which movement code the step runs and what it hands to it. */
  datatype Movement =
    | NoMap
    | Flying(forward: bool, back: bool, left: bool, right: bool, speed: bool, jump: bool, duck: bool)
    | Walking(buttons: nat, forwardMove: int, sideMove: int, tryAttack: bool)

  const IN_JUMP: nat := 2         // 1 << 1
  const IN_DUCK: nat := 4         // 1 << 2
  const IN_FORWARD: nat := 8      // 1 << 3
  const IN_BACK: nat := 16        // 1 << 4
  const IN_MOVELEFT: nat := 512   // 1 << 9
  const IN_MOVERIGHT: nat := 1024 // 1 << 10
  const IN_SPEED: nat := 131072   // 1 << 17

  function OrIf(b: nat, cond: bool, flag: nat): nat
  {
    if cond then Bits.Or(b, flag) else b
  }

  /** m_nButtons: the OR of the button flags of the held keys. */
  function Buttons(fwd: bool, back: bool, left: bool, right: bool, jump: bool, speed: bool, duck: bool): nat
  {
    var b := OrIf(0, fwd, IN_FORWARD);
    var b := OrIf(b, back, IN_BACK);
    var b := OrIf(b, left, IN_MOVELEFT);
    var b := OrIf(b, right, IN_MOVERIGHT);
    var b := OrIf(b, jump, IN_JUMP);
    var b := OrIf(b, speed, IN_SPEED);
    OrIf(b, duck, IN_DUCK)
  }

  /** An OrIf sets the flag's bits when its condition holds and keeps the others. */
  lemma OrIfBits(b: nat, cond: bool, n: nat, k: nat)
    ensures Bits.Bit(OrIf(b, cond, Bits.Pow2(n)), k) <==> Bits.Bit(b, k) || (cond && k == n)
  {
    if cond {
      Bits.OrBits(b, Bits.Pow2(n), k);
      Bits.BitOfPow2(n, k);
    }
  }

  lemma FlagValues()
    ensures IN_JUMP == Bits.Pow2(1) && IN_DUCK == Bits.Pow2(2) && IN_FORWARD == Bits.Pow2(3)
    ensures IN_BACK == Bits.Pow2(4) && IN_MOVELEFT == Bits.Pow2(9) && IN_MOVERIGHT == Bits.Pow2(10)
    ensures IN_SPEED == Bits.Pow2(17)
  {
    Bits.Pow2Add(10, 7);
  }

  /** Bit k of the button mask is set exactly when k is the bit of a held key. */
  lemma ButtonsBits(fwd: bool, back: bool, left: bool, right: bool, jump: bool, speed: bool, duck: bool, k: nat)
    ensures Bits.Bit(Buttons(fwd, back, left, right, jump, speed, duck), k) <==>
      (fwd && k == 3) || (back && k == 4) || (left && k == 9) || (right && k == 10)
      || (jump && k == 1) || (speed && k == 17) || (duck && k == 2)
  {
    FlagValues();
    Bits.NoBitOfZero(k);
    var b1 := OrIf(0, fwd, IN_FORWARD);
    OrIfBits(0, fwd, 3, k);
    var b2 := OrIf(b1, back, IN_BACK);
    OrIfBits(b1, back, 4, k);
    var b3 := OrIf(b2, left, IN_MOVELEFT);
    OrIfBits(b2, left, 9, k);
    var b4 := OrIf(b3, right, IN_MOVERIGHT);
    OrIfBits(b3, right, 10, k);
    var b5 := OrIf(b4, jump, IN_JUMP);
    OrIfBits(b4, jump, 1, k);
    var b6 := OrIf(b5, speed, IN_SPEED);
    OrIfBits(b5, speed, 17, k);
    OrIfBits(b6, duck, 2, k);
  }

  /** A movement amount: +450 for the positive key, -450 for the negative one. */
  function MoveAmount(plus: bool, minus: bool): (r: int)
    ensures plus && !minus ==> r == 450
    ensures minus && !plus ==> r == -450
    ensures plus == minus ==> r == 0
  {
    (if plus then 450 else 0) - (if minus then 450 else 0)
  }

  /** The movement the counters select: flying while +attack2 is held, walking otherwise. */
  function MovementOf(cs: Counters, tryAttack: bool): Movement
  {
    var fwd, back, left, right := cs.forward != 0, cs.back != 0, cs.moveLeft != 0, cs.moveRight != 0;
    var jump, speed, duck := cs.jump != 0, cs.speed != 0, cs.duck != 0;
    if cs.attack2 != 0 then Flying(fwd, back, left, right, speed, jump, duck)
    else Walking(Buttons(fwd, back, left, right, jump, speed, duck),
                 MoveAmount(fwd, back), MoveAmount(right, left), tryAttack)
  }

  /** In walking mode the button mask holds exactly the bits of the held keys, and the move amounts follow them. */
  lemma WalkingInputs(cs: Counters, tryAttack: bool, k: nat)
    requires cs.attack2 == 0
    ensures var m := MovementOf(cs, tryAttack);
      && m.Walking?
      && (Bits.Bit(m.buttons, k) <==>
            (cs.forward != 0 && k == 3) || (cs.back != 0 && k == 4) || (cs.moveLeft != 0 && k == 9)
            || (cs.moveRight != 0 && k == 10) || (cs.jump != 0 && k == 1) || (cs.speed != 0 && k == 17)
            || (cs.duck != 0 && k == 2))
      && m.forwardMove == MoveAmount(cs.forward != 0, cs.back != 0)
      && m.sideMove == MoveAmount(cs.moveRight != 0, cs.moveLeft != 0)
      && m.tryAttack == tryAttack
  {
    var fwd, back, left, right := cs.forward != 0, cs.back != 0, cs.moveLeft != 0, cs.moveRight != 0;
    var jump, speed, duck := cs.jump != 0, cs.speed != 0, cs.duck != 0;
    assert MovementOf(cs, tryAttack) ==
      Walking(Buttons(fwd, back, left, right, jump, speed, duck), MoveAmount(fwd, back), MoveAmount(right, left), tryAttack);
    ButtonsBits(fwd, back, left, right, jump, speed, duck, k);
  }

  datatype StepResult = StepResult(player: Player, movement: Movement)

  /**
   * DoTimeStep, integer part. Without a loaded map nothing changes. Otherwise the counters
   * process every command in order, the latest input sets the viewing angles, and the
   * movement is selected from the counters after all inputs. The movement code itself is
   * not modelled: `ducked` is the crouch state it leaves behind, which the walking branch
   * copies into the player; the flying branch leaves the crouch state alone.
   */
  function DoTimeStep(p: Player, mapLoaded: bool, inputs: seq<PlayerInput>, ducked: bool): (r: StepResult)
    ensures !mapLoaded ==> r.player == p && r.movement.NoMap?
    ensures mapLoaded ==> r.player.counters == ProcessAll(p.counters, AllCommands(inputs))
    ensures mapLoaded && inputs != [] ==>
      r.player.angles == Vec3(inputs[|inputs| - 1].pitch, inputs[|inputs| - 1].yaw, 0.0)
    ensures inputs == [] ==> r.player.angles == p.angles
    ensures mapLoaded ==> r.movement == MovementOf(r.player.counters, TryAttack(p.counters, AllCommands(inputs)))
    ensures r.player.crouched == (if r.movement.Walking? then ducked else p.crouched)
    ensures r.player.stamina == p.stamina && r.player.weaponSlot == p.weaponSlot
  {
    if !mapLoaded then StepResult(p, NoMap)
    else
      var cmds := AllCommands(inputs);
      var cs := ProcessAll(p.counters, cmds);
      var angles := if inputs != [] then Vec3(inputs[|inputs| - 1].pitch, inputs[|inputs| - 1].yaw, 0.0) else p.angles;
      var m := MovementOf(cs, TryAttack(p.counters, cmds));
      var crouched := if m.Walking? then ducked else p.crouched;
      StepResult(p.(angles := angles, counters := cs, crouched := crouched), m)
  }

  // ---------------------------------------------------------------------------------------
  // Properties of the counters
  // ---------------------------------------------------------------------------------------

  /** Only the counter a command names changes. */
  lemma ProcessFrame(cs: Counters, cmd: Command, c: Counter)
    ensures c != CounterOf(cmd) ==> Get(Process(cs, cmd), c) == Get(cs, c)
    ensures c == CounterOf(cmd) ==> Get(Process(cs, cmd), c) == Bump(Get(cs, c), IsPlus(cmd))
  {
  }

  /** The commands of a sequence that act on counter c, as +1 (true) and -1 (false) steps. */
  function StepsOf(cmds: seq<Command>, c: Counter): seq<bool>
    decreases |cmds|
  {
    if cmds == [] then []
    else
      var init := StepsOf(cmds[..|cmds| - 1], c);
      var last := cmds[|cmds| - 1];
      if CounterOf(last) == c then init + [IsPlus(last)] else init
  }

  /** A counter's walk: start at v, apply each step with Bump. */
  function Walk(v: UInt, steps: seq<bool>): UInt
    decreases |steps|
  {
    if steps == [] then v else Bump(Walk(v, steps[..|steps| - 1]), steps[|steps| - 1])
  }

  /** A counter with no command of its pair in the sequence keeps its value. */
  lemma {:induction false} UntouchedCounter(cs: Counters, cmds: seq<Command>, c: Counter)
    requires forall i :: 0 <= i < |cmds| ==> CounterOf(cmds[i]) != c
    ensures Get(ProcessAll(cs, cmds), c) == Get(cs, c)
    decreases |cmds|
  {
    if cmds != [] {
      UntouchedCounter(cs, cmds[..|cmds| - 1], c);
      ProcessFrame(ProcessAll(cs, cmds[..|cmds| - 1]), cmds[|cmds| - 1], c);
    }
  }

  /** The i-th command is a +attack processed while the attack counter is 0. */
  predicate AttackAt(cs: Counters, cmds: seq<Command>, i: int)
  {
    0 <= i < |cmds| && cmds[i] == PlusAttack && Get(ProcessAll(cs, cmds[..i]), Attack) == 0
  }

  /** Dropping later commands does not change whether an earlier one attacks. */
  lemma AttackAtPrefix(cs: Counters, cmds: seq<Command>, n: nat, i: int)
    requires 0 <= i < n <= |cmds|
    ensures AttackAt(cs, cmds[..n], i) <==> AttackAt(cs, cmds, i)
  {
    assert cmds[..n][i] == cmds[i];
    assert cmds[..n][..i] == cmds[..i];
  }

  /** The commands before the last one attack exactly where the whole sequence does. */
  lemma AttackAtInit(cs: Counters, cmds: seq<Command>, init: seq<Command>)
    requires cmds != [] && init == cmds[..|cmds| - 1]
    ensures (exists i :: AttackAt(cs, cmds, i)) <==>
      (exists i :: AttackAt(cs, init, i)) || (cmds[|init|] == PlusAttack && Get(ProcessAll(cs, init), Attack) == 0)
  {
    var n := |init|;
    forall i | 0 <= i < n ensures AttackAt(cs, init, i) == AttackAt(cs, cmds, i) {
      AttackAtPrefix(cs, cmds, n, i);
    }
    assert AttackAt(cs, cmds, n) <==> cmds[n] == PlusAttack && Get(ProcessAll(cs, init), Attack) == 0;
  }
}
