/**
  `nearcade_init` and `nearcade_shutdown` (src/nearcade.c) over the subsystems they bring up: the
  ledger of the ladder, the uinput handles and the signalling state move together.
 */
module WholeSdk {
  import opened Limits
  import L = Lifecycle
  import D = Devices
  import R = Registry

  /** The stages of the ladder that matter here, by number. */
  const INPUT_STAGE: nat := 2
  const ALL_STAGES: nat := 6

  datatype Sdk = Sdk(life: L.State, input: D.Input, net: R.World)

  /** While the SDK runs, devices come and go and the network calls back. */
  datatype Call = Init(fail: nat, attempt: D.Attempt) | Shutdown | Pad(call: D.Call) | Net(event: R.Event)

  /** What init does to the devices: not reached, tried, or brought up and taken down again. */
  function InputAfterInit(input: D.Input, fail: nat, a: D.Attempt): (r: D.Input)
    requires |input.gp| == MAX_SLOTS
    ensures |r.gp| == MAX_SLOTS
  {
    if fail < INPUT_STAGE then input
    else if fail == INPUT_STAGE || fail >= ALL_STAGES then D.Step(input, D.Init(a))
    else D.Step(D.Step(input, D.Init(a)), D.Shutdown)
  }

  function Step(s: Sdk, c: Call): (r: Sdk)
    requires |s.input.gp| == MAX_SLOTS
    ensures |r.input.gp| == MAX_SLOTS
  {
    match c
    case Init(fail, a) =>
      Sdk(L.Step(true, s.life, L.Init(fail)), InputAfterInit(s.input, fail, a),
          if fail >= ALL_STAGES then R.Step(s.net, R.Start) else s.net)
    case Shutdown =>
      if s.life.running
      then Sdk(L.Step(true, s.life, L.Shutdown), D.Step(s.input, D.Shutdown), R.Step(s.net, R.Stop))
      else s
    case Pad(call) => s.(input := D.Step(s.input, call))
    case Net(event) => s.(net := R.Step(s.net, event))
  }

  /** Init only while stopped, the input stage failing exactly when its device does; the rest only while running. */
  predicate Permitted(s: Sdk, c: Call)
    requires |s.input.gp| == MAX_SLOTS
  {
    match c
    case Init(fail, a) =>
      && !s.life.running
      && (fail >= INPUT_STAGE ==> D.Permitted(s.input, D.Init(a)) && (fail > INPUT_STAGE <==> D.Succeeds(a)))
    case Shutdown => true
    case Pad(call) => s.life.running && (call.Alloc? || call.Free?) && D.Permitted(s.input, call)
    case Net(event) => s.life.running && !event.Start? && !event.Stop? && R.Permitted(s.net, event)
  }

  predicate Feasible(s: Sdk, cs: seq<Call>)
    requires |s.input.gp| == MAX_SLOTS
    decreases |cs|
  {
    cs == [] || (Permitted(s, cs[0]) && Feasible(Step(s, cs[0]), cs[1..]))
  }

  function Run(s: Sdk, cs: seq<Call>): (r: Sdk)
    requires |s.input.gp| == MAX_SLOTS
    ensures |r.input.gp| == MAX_SLOTS
    decreases |cs|
  {
    if cs == [] then s else Run(Step(s, cs[0]), cs[1..])
  }

  function Boot(): (s: Sdk)
    ensures |s.input.gp| == MAX_SLOTS
  {
    Sdk(L.State(false, []), D.Boot(), R.Boot())
  }

  // ---------------------------------------------------------------- the invariant

  /** Stopped: no handle open, nobody connected, no session. */
  ghost predicate Idle(input: D.Input, net: R.World) {
    && input.open == {} && input.stray == 0
    && (input == D.Boot() || (D.Sound(input) && D.Owned(input) == {}))
    && net.server == R.Off() && net.live == map[]
  }

  /** Running: every open handle is known, and the registry is in step. */
  ghost predicate Busy(input: D.Input, net: R.World) {
    D.Sound(input) && D.Lost(input) == {} && R.Inv(net) && net.server.up
  }

  ghost predicate Inv(s: Sdk) {
    && |s.input.gp| == MAX_SLOTS
    && L.Balanced(true, s.life)
    && if s.life.running then Busy(s.input, s.net) else Idle(s.input, s.net)
  }

  lemma InputInit(input: D.Input, net: R.World, fail: nat, a: D.Attempt)
    requires Idle(input, net) && |input.gp| == MAX_SLOTS
    requires fail >= INPUT_STAGE ==> D.Permitted(input, D.Init(a)) && (fail > INPUT_STAGE <==> D.Succeeds(a))
    ensures var r := InputAfterInit(input, fail, a);
            if fail >= ALL_STAGES then D.Sound(r) && D.Lost(r) == {} else Idle(r, net)
  {
    if fail >= INPUT_STAGE {
      D.InitSound(input, a);
      if INPUT_STAGE < fail < ALL_STAGES { D.ShutdownSound(D.Step(input, D.Init(a))); }
    }
  }

  /** One call of init or shutdown keeps the ledger balanced. */
  lemma LifeKeeps(life: L.State, c: L.Call)
    requires L.Balanced(true, life) && !(c.Init? && life.running)
    ensures L.Balanced(true, L.Step(true, life, c))
  {
    L.BalancedIff(true, life, [c]);
    assert [c][1..] == [];
    assert L.Run(true, life, [c]) == L.Run(true, L.Step(true, life, c), []);
  }

  lemma InitKeeps(s: Sdk, fail: nat, a: D.Attempt)
    requires Inv(s) && Permitted(s, Init(fail, a))
    ensures Inv(Step(s, Init(fail, a)))
  {
    LifeKeeps(s.life, L.Init(fail));
    InputInit(s.input, s.net, fail, a);
    if fail >= ALL_STAGES {
      R.QuietInv(s.net.next);
      R.StepKeeps(s.net, R.Start);
    }
  }

  lemma ShutdownKeeps(s: Sdk)
    requires Inv(s) && s.life.running
    ensures Inv(Step(s, Shutdown))
  {
    LifeKeeps(s.life, L.Shutdown);
    D.ShutdownSound(s.input);
  }

  /** A device coming or going, or a callback of the network, while the SDK runs. */
  lemma BusyKeeps(s: Sdk, c: Call)
    requires Inv(s) && Permitted(s, c) && (c.Pad? || c.Net?)
    ensures Inv(Step(s, c))
  {
    match c
    case Pad(call) => D.StepSound(s.input, call);
    case Net(event) =>
      R.StepKeeps(s.net, event);
      StaysUp(s.net, event);
  }

  lemma StepKeeps(s: Sdk, c: Call)
    requires Inv(s) && Permitted(s, c)
    ensures Inv(Step(s, c))
  {
    match c
    case Init(fail, a) => InitKeeps(s, fail, a);
    case Shutdown => if s.life.running { ShutdownKeeps(s); }
    case Pad(_) => BusyKeeps(s, c);
    case Net(_) => BusyKeeps(s, c);
  }

  lemma StaysUp(w: R.World, e: R.Event)
    requires w.server.up && !e.Stop?
    ensures R.Step(w, e).server.up
  {}

  lemma BootInv()
    ensures Inv(Boot())
  {}

  lemma {:induction false} RunKeeps(s: Sdk, cs: seq<Call>)
    requires Inv(s) && Feasible(s, cs)
    ensures Inv(Run(s, cs))
    decreases |cs|
  {
    if cs != [] {
      StepKeeps(s, cs[0]);
      RunKeeps(Step(s, cs[0]), cs[1..]);
    }
  }

  /**
    Over every run in which each successful init is shut down before the next, with any stage
    failing and any devices and viewers coming and going in between: whenever the SDK is stopped
    no uinput handle is open, no close was stray, nobody is in the socket table, no session is
    left and the ledger holds no part; whenever it runs, the ledger holds each part once, every
    open handle is known and the registry is in step.
   */
  lemma StoppedHoldsNothing(cs: seq<Call>)
    requires Feasible(Boot(), cs)
    ensures var s := Run(Boot(), cs);
            && s.input.stray == 0
            && (!s.life.running ==>
                  && s.input.open == {} && s.net.server == R.Off()
                  && L.Apply(multiset{}, s.life.ledger) == L.Holding(multiset{}))
            && (s.life.running ==>
                  && s.input.open == D.Owned(s.input) && R.Inv(s.net)
                  && L.Apply(multiset{}, s.life.ledger) == L.Holding(multiset(L.Stages(true))))
  {
    BootInv();
    RunKeeps(Boot(), cs);
  }
}
