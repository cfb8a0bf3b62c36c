/**
  The `nearcade_init` ladder and `nearcade_shutdown` (src/nearcade.c) as a ledger of subsystems
  brought up and taken down.
 */
module Lifecycle {
  datatype Part = ViewerMutex | SlotsMutex | InputPart | CapturePart | WebRtcPart | SignalingPart

  datatype Change = Up(part: Part) | Down(part: Part)

  /** The stages of init, in order; the last exists only in builds with signalling. */
  function Stages(signaling: bool): (ps: seq<Part>)
    ensures |ps| == if signaling then 6 else 5
  {
    [ViewerMutex, SlotsMutex, InputPart, CapturePart, WebRtcPart] + (if signaling then [SignalingPart] else [])
  }

  function Ups(ps: seq<Part>): seq<Change> {
    seq(|ps|, i requires 0 <= i < |ps| => Up(ps[i]))
  }

  /** Taking parts down in the opposite order. */
  function Unwind(ps: seq<Part>): seq<Change> {
    seq(|ps|, i requires 0 <= i < |ps| => Down(ps[|ps| - 1 - i]))
  }

  function Downs(ps: seq<Part>): seq<Change> {
    seq(|ps|, i requires 0 <= i < |ps| => Down(ps[i]))
  }

  /** The order in which `nearcade_shutdown` takes the parts down. */
  function ShutdownOrder(signaling: bool): seq<Part> {
    [WebRtcPart, CapturePart, InputPart] + (if signaling then [SignalingPart] else []) + [ViewerMutex, SlotsMutex]
  }

  /** What a call to init writes in the ledger when stage `fail` is the first to fail. */
  function InitChanges(signaling: bool, fail: nat): seq<Change> {
    var ps := Stages(signaling);
    if fail >= |ps| then Ups(ps) else Ups(ps[..fail]) + Unwind(ps[..fail])
  }

  datatype State = State(running: bool, ledger: seq<Change>)

  datatype Call = Init(fail: nat) | Shutdown

  function Step(signaling: bool, s: State, c: Call): State {
    match c
    case Init(fail) => State(fail >= |Stages(signaling)|, s.ledger + InitChanges(signaling, fail))
    case Shutdown => if s.running then State(false, s.ledger + Downs(ShutdownOrder(signaling))) else s
  }

  // ---------------------------------------------------------------- the ledger

  datatype Held = Overdrawn | Holding(parts: multiset<Part>)

  function Apply(h: multiset<Part>, log: seq<Change>): Held
    decreases |log|
  {
    if log == [] then Holding(h)
    else match log[0]
      case Up(p) => Apply(h + multiset{p}, log[1..])
      case Down(p) => if p in h then Apply(h - multiset{p}, log[1..]) else Overdrawn
  }

  lemma {:induction false} ApplyConcat(h: multiset<Part>, a: seq<Change>, b: seq<Change>)
    ensures Apply(h, a + b) ==
            match Apply(h, a) case Overdrawn => Overdrawn case Holding(g) => Apply(g, b)
    decreases |a|
  {
    if a == [] {
      assert a + b == b;
    } else {
      assert (a + b)[1..] == a[1..] + b;
      match a[0]
      case Up(p) => ApplyConcat(h + multiset{p}, a[1..], b);
      case Down(p) => if p in h { ApplyConcat(h - multiset{p}, a[1..], b); }
    }
  }

  lemma {:induction false} ApplyUps(h: multiset<Part>, ps: seq<Part>)
    ensures Apply(h, Ups(ps)) == Holding(h + multiset(ps))
    decreases |ps|
  {
    if ps != [] {
      ApplyUps(h + multiset{ps[0]}, ps[1..]);
      assert ps == [ps[0]] + ps[1..];
      assert Ups(ps)[1..] == Ups(ps[1..]);
      assert h + multiset{ps[0]} + multiset(ps[1..]) == h + multiset(ps);
    }
  }

  lemma {:induction false} ApplyUnwind(h: multiset<Part>, ps: seq<Part>)
    ensures Apply(h + multiset(ps), Unwind(ps)) == Holding(h)
    decreases |ps|
  {
    if ps != [] {
      assert ps == [ps[0]] + ps[1..];
      var g := h + multiset{ps[0]};
      assert g + multiset(ps[1..]) == h + multiset(ps);
      assert Unwind(ps) == Unwind(ps[1..]) + [Down(ps[0])];
      ApplyUnwind(g, ps[1..]);
      ApplyConcat(g + multiset(ps[1..]), Unwind(ps[1..]), [Down(ps[0])]);
      assert [Down(ps[0])][1..] == [];
      assert g - multiset{ps[0]} == h;
    }
  }

  lemma {:induction false} ApplyDowns(h: multiset<Part>, ps: seq<Part>)
    ensures Apply(h + multiset(ps), Downs(ps)) == Holding(h)
  {
    if ps != [] {
      assert ps == [ps[0]] + ps[1..];
      var g := h + multiset(ps[1..]);
      assert h + multiset(ps) - multiset{ps[0]} == g;
      assert Downs(ps)[1..] == Downs(ps[1..]);
      ApplyDowns(h, ps[1..]);
    }
  }

  /** Whatever is held, a failing init gives back exactly what it took and a successful one keeps it. */
  lemma InitEffect(signaling: bool, h: multiset<Part>, fail: nat)
    ensures Apply(h, InitChanges(signaling, fail)) ==
            Holding(if fail >= |Stages(signaling)| then h + multiset(Stages(signaling)) else h)
  {
    var ps := Stages(signaling);
    if fail >= |ps| {
      ApplyUps(h, ps);
    } else {
      ApplyUps(h, ps[..fail]);
      ApplyConcat(h, Ups(ps[..fail]), Unwind(ps[..fail]));
      ApplyUnwind(h, ps[..fail]);
    }
  }

  /** What shutdown takes down is what init brought up. */
  lemma SameParts(signaling: bool)
    ensures multiset(Stages(signaling)) == multiset(ShutdownOrder(signaling))
  {}

  lemma ShutdownEffect(signaling: bool, h: multiset<Part>)
    ensures Apply(h + multiset(Stages(signaling)), Downs(ShutdownOrder(signaling))) == Holding(h)
  {
    SameParts(signaling);
    ApplyDowns(h, ShutdownOrder(signaling));
  }

  // ---------------------------------------------------------------- runs

  /** A running SDK holds every part once, a stopped one none, and nothing was released unheld. */
  ghost predicate Balanced(signaling: bool, s: State) {
    Apply(multiset{}, s.ledger) == Holding(Ought(signaling, s))
  }

  /** What a state ought to hold. */
  function Ought(signaling: bool, s: State): multiset<Part> {
    if s.running then multiset(Stages(signaling)) else multiset{}
  }

  /** The ledger holds what it ought to and `excess` besides. */
  ghost predicate HoldsExcess(signaling: bool, s: State, excess: multiset<Part>) {
    Apply(multiset{}, s.ledger) == Holding(Ought(signaling, s) + excess)
  }

  /** What a call adds to the excess: an init while running abandons every part. */
  function Abandoned(signaling: bool, s: State, c: Call): multiset<Part> {
    if c.Init? && s.running then multiset(Stages(signaling)) else multiset{}
  }

  lemma StepExcess(signaling: bool, s: State, c: Call, excess: multiset<Part>)
    requires HoldsExcess(signaling, s, excess)
    ensures HoldsExcess(signaling, Step(signaling, s, c), excess + Abandoned(signaling, s, c))
  {
    assert excess + multiset{} == excess;
    if c.Init? {
      InitExcess(signaling, s, c.fail, excess);
    } else if s.running {
      ApplyConcat(multiset{}, s.ledger, Downs(ShutdownOrder(signaling)));
      ShutdownEffect(signaling, excess);
      assert Ought(signaling, s) + excess == excess + multiset(Stages(signaling));
      assert multiset{} + excess == excess;
    }
  }

  lemma InitExcess(signaling: bool, s: State, fail: nat, excess: multiset<Part>)
    requires HoldsExcess(signaling, s, excess)
    ensures HoldsExcess(signaling, Step(signaling, s, Init(fail)), excess + Ought(signaling, s))
  {
    var h := Ought(signaling, s) + excess;
    ApplyConcat(multiset{}, s.ledger, InitChanges(signaling, fail));
    InitEffect(signaling, h, fail);
    assert h == excess + Ought(signaling, s) == multiset{} + (excess + Ought(signaling, s));
    SumCommutes(h, multiset(Stages(signaling)));
  }

  lemma SumCommutes(a: multiset<Part>, b: multiset<Part>)
    ensures a + b == b + a
  {}

  /** A run abandons parts only by an init while running, and never gets them back. */
  function AbandonedIn(signaling: bool, s: State, cs: seq<Call>): multiset<Part>
    decreases |cs|
  {
    if cs == [] then multiset{}
    else Abandoned(signaling, s, cs[0]) + AbandonedIn(signaling, Step(signaling, s, cs[0]), cs[1..])
  }

  function Run(signaling: bool, s: State, cs: seq<Call>): State
    decreases |cs|
  {
    if cs == [] then s else Run(signaling, Step(signaling, s, cs[0]), cs[1..])
  }

  /** Conservation: after any run the ledger holds what it ought to and everything abandoned. */
  lemma {:induction false} RunExcess(signaling: bool, s: State, cs: seq<Call>, excess: multiset<Part>)
    requires HoldsExcess(signaling, s, excess)
    ensures HoldsExcess(signaling, Run(signaling, s, cs), excess + AbandonedIn(signaling, s, cs))
    decreases |cs|
  {
    if cs == [] {
      assert excess + multiset{} == excess;
    } else {
      var a := Abandoned(signaling, s, cs[0]);
      var s' := Step(signaling, s, cs[0]);
      StepExcess(signaling, s, cs[0], excess);
      RunExcess(signaling, s', cs[1..], excess + a);
      assert excess + a + AbandonedIn(signaling, s', cs[1..]) == excess + (a + AbandonedIn(signaling, s', cs[1..]));
    }
  }

  /** No init of the run happens while the SDK runs. */
  predicate NeverInitTwice(signaling: bool, s: State, cs: seq<Call>)
    decreases |cs|
  {
    cs == [] || (!(cs[0].Init? && s.running) && NeverInitTwice(signaling, Step(signaling, s, cs[0]), cs[1..]))
  }

  lemma {:induction false} AbandonsNothingIff(signaling: bool, s: State, cs: seq<Call>)
    ensures AbandonedIn(signaling, s, cs) == multiset{} <==> NeverInitTwice(signaling, s, cs)
    decreases |cs|
  {
    if cs != [] {
      AbandonsNothingIff(signaling, Step(signaling, s, cs[0]), cs[1..]);
      if cs[0].Init? && s.running {
        assert Stages(signaling)[0] == ViewerMutex;
        assert ViewerMutex in Abandoned(signaling, s, cs[0]);
        assert ViewerMutex in AbandonedIn(signaling, s, cs);
      }
    }
  }

  /**
    The state a run ends in is balanced exactly when the run never initialised while running: one
    such init unbalances that state and every state after it.
   */
  lemma BalancedIff(signaling: bool, s: State, cs: seq<Call>)
    requires Balanced(signaling, s)
    ensures Balanced(signaling, Run(signaling, s, cs)) <==> NeverInitTwice(signaling, s, cs)
  {
    var s', x := Run(signaling, s, cs), AbandonedIn(signaling, s, cs);
    assert Ought(signaling, s) + multiset{} == Ought(signaling, s);
    RunExcess(signaling, s, cs, multiset{});
    assert multiset{} + x == x;
    AbandonsNothingIff(signaling, s, cs);
    ExcessShows(Ought(signaling, s'), x);
  }

  lemma ExcessShows(h: multiset<Part>, x: multiset<Part>)
    ensures h + x == h <==> x == multiset{}
  {
    if x != multiset{} {
      var p :| p in x;
      assert (h + x)[p] > h[p];
    }
  }

  /** The shortest such run, and no shutdown mends it. */
  lemma DoubleInitUnbalances(signaling: bool)
    ensures !Balanced(signaling, Run(signaling, State(false, []), [Init(6), Init(6)]))
    ensures !Balanced(signaling, Run(signaling, State(false, []), [Init(6), Init(6), Shutdown]))
  {
    var s0 := State(false, []);
    var s1 := Step(signaling, s0, Init(6));
    assert s1.running;
    assert [Init(6), Init(6)][1..] == [Init(6)] && [Init(6), Init(6), Shutdown][1..] == [Init(6), Shutdown];
    assert !NeverInitTwice(signaling, s1, [Init(6)]) && !NeverInitTwice(signaling, s1, [Init(6), Shutdown]);
    BalancedIff(signaling, s0, [Init(6), Init(6)]);
    BalancedIff(signaling, s0, [Init(6), Init(6), Shutdown]);
  }

  /** A stopped SDK ignores further shutdowns. */
  lemma {:induction false} ExtraShutdownsDoNothing(signaling: bool, s: State, cs: seq<Call>)
    requires !s.running && forall c <- cs :: c == Shutdown
    ensures Run(signaling, s, cs) == s
    decreases |cs|
  {
    if cs != [] {
      assert cs[0] in cs && forall c <- cs[1..] :: c in cs;
      ExtraShutdownsDoNothing(signaling, s, cs[1..]);
    }
  }

  // ---------------------------------------------------------------- mutexes outlast their users

  predicate IsMutex(p: Part) { p == ViewerMutex || p == SlotsMutex }

  ghost predicate BothMutexes(h: multiset<Part>) { ViewerMutex in h && SlotsMutex in h }

  /** Nothing that uses the mutexes is up without both of them. */
  ghost predicate Guarded(h: multiset<Part>) { (forall p | p in h :: IsMutex(p)) || BothMutexes(h) }

  /** Guarded at every moment of the ledger, not only at its end. */
  ghost predicate AlwaysGuarded(h: multiset<Part>, log: seq<Change>)
    decreases |log|
  {
    && Guarded(h)
    && (log == [] ||
        match log[0]
        case Up(p) => AlwaysGuarded(h + multiset{p}, log[1..])
        case Down(p) => p in h && AlwaysGuarded(h - multiset{p}, log[1..]))
  }

  lemma {:induction false} GuardedConcat(h: multiset<Part>, a: seq<Change>, g: multiset<Part>, b: seq<Change>)
    requires AlwaysGuarded(h, a) && Apply(h, a) == Holding(g) && AlwaysGuarded(g, b)
    ensures AlwaysGuarded(h, a + b)
    decreases |a|
  {
    if a == [] {
      assert a + b == b;
    } else {
      assert (a + b)[1..] == a[1..] + b;
      match a[0]
      case Up(p) => GuardedConcat(h + multiset{p}, a[1..], g, b);
      case Down(p) => GuardedConcat(h - multiset{p}, a[1..], g, b);
    }
  }

  /** With both mutexes up, anything may come up. */
  lemma {:induction false} UpsGuarded(h: multiset<Part>, ps: seq<Part>)
    requires BothMutexes(h)
    ensures AlwaysGuarded(h, Ups(ps))
    decreases |ps|
  {
    if ps != [] {
      assert Ups(ps)[1..] == Ups(ps[1..]);
      UpsGuarded(h + multiset{ps[0]}, ps[1..]);
    }
  }

  /** Bringing up a prefix of the stages: the mutexes come first. */
  lemma StagesUpGuarded(signaling: bool, h: multiset<Part>, n: nat)
    requires Guarded(h) && n <= |Stages(signaling)|
    ensures AlwaysGuarded(h, Ups(Stages(signaling)[..n]))
  {
    var ps := Stages(signaling)[..n];
    var log := Ups(ps);
    if n >= 1 {
      assert log[0] == Up(ViewerMutex);
      var h1 := h + multiset{ViewerMutex};
      if n == 1 {
        assert log[1..] == [];
      } else {
        assert log[1..][0] == Up(SlotsMutex);
        assert log[1..][1..] == Ups(ps[2..]);
        UpsGuarded(h1 + multiset{SlotsMutex}, ps[2..]);
        assert AlwaysGuarded(h1, log[1..]);
      }
    }
  }

  lemma DownFirst(h: multiset<Part>, p: Part, rest: seq<Part>)
    requires Guarded(h + multiset([p] + rest)) && AlwaysGuarded(h + multiset(rest), Downs(rest))
    ensures AlwaysGuarded(h + multiset([p] + rest), Downs([p] + rest))
  {
    assert multiset([p] + rest) == multiset{p} + multiset(rest);
    assert h + multiset([p] + rest) - multiset{p} == h + multiset(rest);
    assert Downs([p] + rest)[1..] == Downs(rest);
  }

  lemma MutexesAddGuard(h: multiset<Part>, last: seq<Part>)
    requires Guarded(h) && forall p <- last :: IsMutex(p)
    ensures Guarded(h + multiset(last))
  {
    forall p | p in h + multiset(last) ensures p in h || p in last {}
  }

  lemma {:induction false} MutexesDownGuarded(h: multiset<Part>, last: seq<Part>)
    requires Guarded(h) && forall p <- last :: IsMutex(p)
    ensures AlwaysGuarded(h + multiset(last), Downs(last))
    decreases |last|
  {
    MutexesAddGuard(h, last);
    if last == [] {
      assert h + multiset(last) == h;
    } else {
      assert last == [last[0]] + last[1..];
      assert forall p <- last[1..] :: p in last;
      MutexesDownGuarded(h, last[1..]);
      DownFirst(h, last[0], last[1..]);
    }
  }

  /** Taking everything down in any order that leaves both mutexes for last. */
  lemma {:induction false} DownsGuarded(h: multiset<Part>, users: seq<Part>, last: seq<Part>)
    requires Guarded(h) && (forall p <- last :: IsMutex(p)) && ViewerMutex in last && SlotsMutex in last
    ensures AlwaysGuarded(h + multiset(users + last), Downs(users + last))
    decreases |users|
  {
    if users == [] {
      assert users + last == last;
      MutexesDownGuarded(h, last);
    } else {
      var rest := users[1..] + last;
      assert users + last == [users[0]] + rest;
      DownsGuarded(h, users[1..], last);
      assert ViewerMutex in users + last && SlotsMutex in users + last;
      DownFirst(h, users[0], rest);
    }
  }

  /** The first stages are the mutexes. */
  predicate MutexesFirst(ps: seq<Part>) {
    && (|ps| >= 1 ==> ps[0] == ViewerMutex)
    && (|ps| >= 2 ==> ps[1] == SlotsMutex)
  }

  lemma FirstGuarded(h: multiset<Part>, ps: seq<Part>)
    requires Guarded(h) && MutexesFirst(ps)
    ensures Guarded(h + multiset(ps))
  {
    if |ps| < 2 {
      MutexesAddGuard(h, ps);
    } else {
      assert ps[0] in ps && ps[1] in ps;
    }
  }

  /** The stages back in the opposite order: the users of the mutexes, then the mutexes. */
  lemma {:induction false} UnwindGuarded(h: multiset<Part>, ps: seq<Part>)
    requires Guarded(h) && MutexesFirst(ps)
    ensures AlwaysGuarded(h + multiset(ps), Unwind(ps))
    decreases |ps|
  {
    FirstGuarded(h, ps);
    if ps != [] {
      var n := |ps| - 1;
      assert ps == ps[..n] + [ps[n]];
      assert h + multiset(ps) - multiset{ps[n]} == h + multiset(ps[..n]);
      assert Unwind(ps)[1..] == Unwind(ps[..n]);
      UnwindGuarded(h, ps[..n]);
    }
  }

  lemma InitGuarded(signaling: bool, h: multiset<Part>, fail: nat)
    requires Guarded(h)
    ensures AlwaysGuarded(h, InitChanges(signaling, fail))
  {
    var ps := Stages(signaling);
    if fail >= |ps| {
      StagesUpGuarded(signaling, h, |ps|);
      assert ps[..|ps|] == ps;
    } else {
      StagesUpGuarded(signaling, h, fail);
      UnwindGuarded(h, ps[..fail]);
      ApplyUps(h, ps[..fail]);
      GuardedConcat(h, Ups(ps[..fail]), h + multiset(ps[..fail]), Unwind(ps[..fail]));
    }
  }

  lemma ShutdownGuarded(signaling: bool, h: multiset<Part>)
    requires Guarded(h)
    ensures AlwaysGuarded(h + multiset(Stages(signaling)), Downs(ShutdownOrder(signaling)))
  {
    var users := [WebRtcPart, CapturePart, InputPart] + (if signaling then [SignalingPart] else []);
    SameParts(signaling);
    DownsGuarded(h, users, [ViewerMutex, SlotsMutex]);
  }

  /** Where a ledger stands between calls: it holds what it ought to and a guarded excess. */
  ghost predicate Steady(signaling: bool, s: State, excess: multiset<Part>) {
    HoldsExcess(signaling, s, excess) && Guarded(excess) && AlwaysGuarded(multiset{}, s.ledger)
  }

  lemma StagesHoldMutexes(signaling: bool)
    ensures ViewerMutex in multiset(Stages(signaling)) && SlotsMutex in multiset(Stages(signaling))
  {
    assert Stages(signaling)[0] == ViewerMutex && Stages(signaling)[1] == SlotsMutex;
  }

  lemma OughtGuarded(signaling: bool, s: State, excess: multiset<Part>)
    requires Guarded(excess)
    ensures Guarded(Ought(signaling, s) + excess) && Guarded(excess + Ought(signaling, s))
  {
    StagesHoldMutexes(signaling);
    assert s.running || Ought(signaling, s) + excess == excess == excess + Ought(signaling, s);
  }

  lemma StepSteady(signaling: bool, s: State, c: Call, excess: multiset<Part>)
    requires Steady(signaling, s, excess)
    ensures Steady(signaling, Step(signaling, s, c), excess + Abandoned(signaling, s, c))
  {
    var h := Ought(signaling, s) + excess;
    StepExcess(signaling, s, c, excess);
    OughtGuarded(signaling, s, excess);
    assert excess + multiset{} == excess;
    if c.Init? {
      InitGuarded(signaling, h, c.fail);
      GuardedConcat(multiset{}, s.ledger, h, InitChanges(signaling, c.fail));
    } else if s.running {
      ShutdownGuarded(signaling, excess);
      assert h == excess + multiset(Stages(signaling));
      GuardedConcat(multiset{}, s.ledger, h, Downs(ShutdownOrder(signaling)));
    }
  }

  lemma {:induction false} RunSteady(signaling: bool, s: State, cs: seq<Call>, excess: multiset<Part>)
    requires Steady(signaling, s, excess)
    ensures AlwaysGuarded(multiset{}, Run(signaling, s, cs).ledger)
    decreases |cs|
  {
    if cs != [] {
      StepSteady(signaling, s, cs[0], excess);
      RunSteady(signaling, Step(signaling, s, cs[0]), cs[1..], excess + Abandoned(signaling, s, cs[0]));
    }
  }

  /**
    Over every run, at every moment inside every call, whichever stage fails: no part that uses
    the two mutexes is up unless both are.  They come up before their users and go down after.
   */
  lemma MutexesOutlastUsers(signaling: bool, cs: seq<Call>)
    ensures AlwaysGuarded(multiset{}, Run(signaling, State(false, []), cs).ledger)
  {
    RunSteady(signaling, State(false, []), cs, multiset{});
  }

  // ---------------------------------------------------------------- the calls themselves

  /** The part of `g_state` that init and shutdown own, with the ledger of what they did. */
  class Ladder {
    const signaling: bool
    var running: bool
    var ledger: seq<Change>

    ghost function View(): State
      reads this
    {
      State(running, ledger)
    }

    constructor (signaling: bool)
      ensures View() == State(false, []) && this.signaling == signaling
      ensures Balanced(signaling, View())
    {
      this.signaling, running, ledger := signaling, false, [];
    }

    /** `nearcade_init`, rung by rung; stage `fail` is the first that fails. */
    method Init(fail: nat) returns (ok: bool)
      modifies this
      ensures View() == Step(signaling, old(View()), Call.Init(fail))
      ensures ok == running
      ensures ok <==> fail > 5 || (fail == 5 && !signaling)
      ensures ok ==> ledger == old(ledger) + [Up(ViewerMutex), Up(SlotsMutex), Up(InputPart), Up(CapturePart), Up(WebRtcPart)]
                               + (if signaling then [Up(SignalingPart)] else [])
    {
      running, ok := false, false;
      Rung(signaling, fail);
      if fail == 0 { return; }
      var done := [Up(ViewerMutex)];
      if fail == 1 {
        Record(done, [Down(ViewerMutex)], fail);
        return;
      }
      done := done + [Up(SlotsMutex)];
      if fail == 2 {
        Record(done, [Down(SlotsMutex), Down(ViewerMutex)], fail);
        return;
      }
      done := done + [Up(InputPart)];
      if fail == 3 {
        Record(done, [Down(InputPart), Down(SlotsMutex), Down(ViewerMutex)], fail);
        return;
      }
      done := done + [Up(CapturePart)];
      if fail == 4 {
        Record(done, [Down(CapturePart), Down(InputPart), Down(SlotsMutex), Down(ViewerMutex)], fail);
        return;
      }
      done := done + [Up(WebRtcPart)];
      if signaling {
        if fail == 5 {
          Record(done, [Down(WebRtcPart), Down(CapturePart), Down(InputPart), Down(SlotsMutex), Down(ViewerMutex)], fail);
          return;
        }
        done := done + [Up(SignalingPart)];
      }
      ledger := ledger + done;
      running, ok := true, true;
    }

    /** What a failed init leaves in the ledger: the stages done, then undone. */
    method Record(done: seq<Change>, undone: seq<Change>, ghost fail: nat)
      requires fail <= 5 && done == ALL_UPS[..fail] && undone == ALL_DOWNS[5 - fail..]
      modifies this`ledger
      ensures ledger == old(ledger) + (ALL_UPS[..fail] + ALL_DOWNS[5 - fail..])
    {
      ledger := ledger + (done + undone);
    }

    /** `nearcade_shutdown`. */
    method Shutdown()
      modifies this
      ensures View() == Step(signaling, old(View()), Call.Shutdown)
      ensures !running && (!old(running) ==> ledger == old(ledger))
      ensures old(running) ==> ledger == old(ledger) + [Down(WebRtcPart), Down(CapturePart), Down(InputPart)]
                                         + (if signaling then [Down(SignalingPart)] else [])
                                         + [Down(ViewerMutex), Down(SlotsMutex)]
    {
      if !running { return; }
      running := false;
      var done := [Down(WebRtcPart), Down(CapturePart), Down(InputPart)];
      if signaling { done := done + [Down(SignalingPart)]; }
      done := done + [Down(ViewerMutex), Down(SlotsMutex)];
      assert done == Downs(ShutdownOrder(signaling));
      ledger := ledger + done;
    }
  }

  const ALL_UPS := [Up(ViewerMutex), Up(SlotsMutex), Up(InputPart), Up(CapturePart), Up(WebRtcPart)]
  const ALL_DOWNS := [Down(WebRtcPart), Down(CapturePart), Down(InputPart), Down(SlotsMutex), Down(ViewerMutex)]

  /** The ledger lines of each rung of the ladder. */
  lemma Rung(signaling: bool, fail: nat)
    ensures InitChanges(signaling, fail) ==
            if fail <= 4 || (fail == 5 && signaling) then ALL_UPS[..fail] + ALL_DOWNS[5 - fail..]
            else ALL_UPS + (if signaling then [Up(SignalingPart)] else [])
  {
    var ps := Stages(signaling);
    if fail < |ps| {
      assert Ups(ps[..fail]) == ALL_UPS[..fail];
      assert Unwind(ps[..fail]) == ALL_DOWNS[5 - fail..];
    } else {
      assert Ups(ps) == ALL_UPS + (if signaling then [Up(SignalingPart)] else []);
    }
  }
}
