/**
  The uinput device table of src/input_linux.c as a resource machine: which kernel handles are
  open, which of them the table still knows, and which closes hit a handle that was not open.
 */
module Devices {
  import opened Limits

  /**
    `open` holds the handles the module opened and nobody closed; `stray` counts closes of
    handles it did not have open.
   */
  datatype Input = Input(kbm: int, gp: seq<int>, open: set<int>, stray: nat)

  /** What the kernel answers when a device is created: the handle, then the write, then the ioctl. */
  datatype Attempt = Attempt(fd: int, writeOk: bool, createOk: bool)

  datatype Call = Init(attempt: Attempt) | Shutdown | Alloc(slot: nat, attempt: Attempt) | Free(slot: nat)

  function NoPads(): (gp: seq<int>)
    ensures |gp| == MAX_SLOTS && forall i | 0 <= i < |gp| :: gp[i] == -1
  {
    seq(MAX_SLOTS, _ => -1)
  }

  /** Static storage before the first `input_init`: every entry of the table reads 0. */
  function Boot(): (s: Input)
    ensures |s.gp| == MAX_SLOTS && forall i | 0 <= i < |s.gp| :: s.gp[i] == 0
  {
    Input(-1, seq(MAX_SLOTS, _ => 0), {}, 0)
  }

  predicate Succeeds(a: Attempt) { a.fd >= 0 && a.writeOk && a.createOk }

  /** The status of an attempt: refused by the kernel, refused by the device, or made. */
  function Outcome(a: Attempt): (rc: int)
    ensures rc == 0 <==> a.fd >= 0 && a.writeOk && a.createOk
    ensures rc == -2 <==> a.fd < 0
    ensures rc == -3 <==> a.fd >= 0 && !(a.writeOk && a.createOk)
  {
    if a.fd < 0 then ERR_PERMISSION else if Succeeds(a) then OK else ERR_NO_DEVICE
  }

  function CloseFd(s: Input, fd: int): Input {
    if fd in s.open then Input(s.kbm, s.gp, s.open - {fd}, s.stray)
    else Input(s.kbm, s.gp, s.open, s.stray + 1)
  }

  /** Destroy the device of a slot, if the table has one. */
  function Vacate(s: Input, slot: nat): (r: Input)
    requires slot < |s.gp|
    ensures |r.gp| == |s.gp|
  {
    if s.gp[slot] < 0 then s
    else
      var c := CloseFd(s, s.gp[slot]);
      Input(c.kbm, c.gp[slot := -1], c.open, c.stray)
  }

  function VacateFrom(s: Input, slot: nat): (r: Input)
    requires slot <= |s.gp|
    ensures |r.gp| == |s.gp|
    decreases |s.gp| - slot
  {
    if slot == |s.gp| then s else VacateFrom(Vacate(s, slot), slot + 1)
  }

  function DropKeyboard(s: Input): Input {
    if s.kbm < 0 then s
    else
      var c := CloseFd(s, s.kbm);
      Input(-1, c.gp, c.open, c.stray)
  }

  function Step(s: Input, c: Call): (r: Input)
    requires |s.gp| == MAX_SLOTS
    ensures |r.gp| == MAX_SLOTS
  {
    match c
    case Init(a) =>
      if Succeeds(a) then Input(a.fd, NoPads(), s.open + {a.fd}, s.stray)
      else Input(-1, NoPads(), s.open, s.stray)
    case Shutdown => DropKeyboard(VacateFrom(s, 0))
    case Alloc(slot, a) =>
      if slot >= MAX_SLOTS then s
      else
        var v := Vacate(s, slot);
        if Succeeds(a) then Input(v.kbm, v.gp[slot := a.fd], v.open + {a.fd}, v.stray) else v
    case Free(slot) => if slot >= MAX_SLOTS then s else Vacate(s, slot)
  }

  /** The kernel never hands out a handle that is open. */
  predicate Permitted(s: Input, c: Call)
    requires |s.gp| == MAX_SLOTS
  {
    match c
    case Init(a) => a.fd < 0 || a.fd !in s.open
    case Alloc(slot, a) => slot < MAX_SLOTS ==> a.fd < 0 || a.fd !in Vacate(s, slot).open
    case Free(_) => true
    case Shutdown => true
  }

  predicate Feasible(s: Input, cs: seq<Call>)
    requires |s.gp| == MAX_SLOTS
    decreases |cs|
  {
    cs == [] || (Permitted(s, cs[0]) && Feasible(Step(s, cs[0]), cs[1..]))
  }

  function Run(s: Input, cs: seq<Call>): (r: Input)
    requires |s.gp| == MAX_SLOTS
    ensures |r.gp| == MAX_SLOTS
    decreases |cs|
  {
    if cs == [] then s else Run(Step(s, cs[0]), cs[1..])
  }

  // ---------------------------------------------------------------- ownership

  /** The handles the table knows. */
  function Owned(s: Input): set<int> {
    (set i | 0 <= i < |s.gp| && s.gp[i] >= 0 :: s.gp[i]) + (if s.kbm >= 0 then {s.kbm} else {})
  }

  /** Open handles the table has forgotten. */
  function Lost(s: Input): set<int> { s.open - Owned(s) }

  /** Known handles are open and pairwise distinct, and every close hit an open handle. */
  ghost predicate Sound(s: Input) {
    && |s.gp| == MAX_SLOTS
    && Owned(s) <= s.open
    && (forall i, j | 0 <= i < j < |s.gp| && s.gp[i] == s.gp[j] :: s.gp[i] < 0)
    && (s.kbm >= 0 ==> s.kbm !in s.gp)
    && s.stray == 0
  }

  lemma OwnedHas(s: Input, i: nat)
    requires i < |s.gp| && s.gp[i] >= 0
    ensures s.gp[i] in Owned(s)
  {}

  lemma VacateOwned(s: Input, slot: nat)
    requires Sound(s) && slot < MAX_SLOTS && s.gp[slot] >= 0
    ensures Owned(Vacate(s, slot)) == Owned(s) - {s.gp[slot]}
  {
    var v := Vacate(s, slot);
    assert v.gp == s.gp[slot := -1] && v.kbm == s.kbm;
    forall x ensures x in Owned(v) <==> x in Owned(s) && x != s.gp[slot] {
      if x in Owned(s) && x != s.gp[slot] && x != s.kbm {
        var i :| 0 <= i < |s.gp| && s.gp[i] == x;
        assert v.gp[i] == x;
      }
    }
  }

  lemma VacateSound(s: Input, slot: nat)
    requires Sound(s) && slot < MAX_SLOTS
    ensures var v := Vacate(s, slot);
            && Sound(v) && Lost(v) == Lost(s) && v.gp[slot] < 0 && v.kbm == s.kbm
            && (forall i | 0 <= i < MAX_SLOTS && i != slot :: v.gp[i] == s.gp[i])
            && Owned(v) == Owned(s) - (if s.gp[slot] >= 0 then {s.gp[slot]} else {})
  {
    if s.gp[slot] >= 0 {
      OwnedHas(s, slot);
      VacateOwned(s, slot);
      assert Vacate(s, slot).gp == s.gp[slot := -1];
    }
  }

  /** A new handle in an empty place of the table. */
  lemma PlaceSound(s: Input, slot: nat, fd: int)
    requires Sound(s) && slot < MAX_SLOTS && s.gp[slot] < 0 && fd >= 0 && fd !in s.open
    ensures var p := Input(s.kbm, s.gp[slot := fd], s.open + {fd}, s.stray);
            Sound(p) && Lost(p) == Lost(s)
  {
    var p := Input(s.kbm, s.gp[slot := fd], s.open + {fd}, s.stray);
    forall i | 0 <= i < |s.gp| && s.gp[i] >= 0 ensures s.gp[i] != fd { OwnedHas(s, i); }
    assert s.kbm >= 0 ==> s.kbm in Owned(s);
    forall x ensures x in Owned(p) <==> x in Owned(s) || x == fd {
      if x in Owned(s) && x != s.kbm {
        var i :| 0 <= i < |s.gp| && s.gp[i] == x;
        assert p.gp[i] == x;
      }
      if x == fd { assert p.gp[slot] == x; }
    }
  }

  lemma {:induction false} VacateFromSound(s: Input, slot: nat)
    requires Sound(s) && slot <= MAX_SLOTS
    ensures var v := VacateFrom(s, slot);
            && Sound(v) && Lost(v) == Lost(s) && v.kbm == s.kbm
            && (forall i | 0 <= i < slot :: v.gp[i] == s.gp[i])
            && (forall i | slot <= i < MAX_SLOTS :: v.gp[i] < 0)
    decreases MAX_SLOTS - slot
  {
    if slot < MAX_SLOTS {
      VacateSound(s, slot);
      VacateFromSound(Vacate(s, slot), slot + 1);
    }
  }

  lemma ShutdownSound(s: Input)
    requires Sound(s)
    ensures var r := Step(s, Shutdown);
            Sound(r) && Owned(r) == {} && r.open == Lost(s)
  {
    VacateFromSound(s, 0);
    var v := VacateFrom(s, 0);
    assert v.kbm >= 0 ==> v.kbm in Owned(v);
  }

  /** What one call may lose: everything known, when the table is initialised over it. */
  function Forgotten(s: Input, c: Call): set<int> { if c.Init? then Owned(s) else {} }

  lemma InitSound(s: Input, a: Attempt)
    requires s.stray == 0 && |s.gp| == MAX_SLOTS && Permitted(s, Init(a))
    ensures var r := Step(s, Init(a));
            && Sound(r) && Owned(r) == (if Succeeds(a) then {a.fd} else {})
            && Lost(r) == s.open
  {
    var r := Step(s, Init(a));
    assert r.gp == NoPads();
    assert Owned(r) == if Succeeds(a) then {a.fd} else {};
  }

  lemma AllocSound(s: Input, slot: nat, a: Attempt)
    requires Sound(s) && slot < MAX_SLOTS && Permitted(s, Alloc(slot, a))
    ensures Sound(Step(s, Alloc(slot, a))) && Lost(Step(s, Alloc(slot, a))) == Lost(s)
  {
    VacateSound(s, slot);
    if Succeeds(a) { PlaceSound(Vacate(s, slot), slot, a.fd); }
  }

  /** A successful alloc installs the new handle and closes the old one; a failed one only closes. */
  lemma AllocInstalls(s: Input, slot: nat, a: Attempt)
    requires Sound(s) && slot < MAX_SLOTS && Permitted(s, Alloc(slot, a))
    ensures var r, was := Step(s, Alloc(slot, a)), (if s.gp[slot] >= 0 then {s.gp[slot]} else {});
            && (if Succeeds(a) then r.gp[slot] == a.fd else r.gp[slot] < 0)
            && r.open == s.open - was + (if Succeeds(a) then {a.fd} else {})
            && r.kbm == s.kbm && forall i | 0 <= i < MAX_SLOTS && i != slot :: r.gp[i] == s.gp[i]
  {
    VacateSound(s, slot);
    if s.gp[slot] >= 0 { OwnedHas(s, slot); }
  }

  /** An init leaves the new keyboard handle, or none, and an empty table; what was open stays open. */
  lemma InitInstalls(s: Input, a: Attempt)
    requires |s.gp| == MAX_SLOTS
    ensures var r := Step(s, Init(a));
            && r.kbm == (if Outcome(a) == 0 then a.fd else -1)
            && |r.gp| == 16 && (forall i | 0 <= i < 16 :: r.gp[i] == -1)
            && r.open == s.open + (if Outcome(a) == 0 then {a.fd} else {}) && r.stray == s.stray
  {
    assert s.open + {} == s.open;
  }

  /** A free closes the handle of its own slot, if there is one, and touches nothing else. */
  lemma FreeRemoves(s: Input, slot: nat)
    requires Sound(s)
    ensures var r := Step(s, Free(slot));
            && r.kbm == s.kbm && r.stray == 0 && |r.gp| == |s.gp| == 16
            && (forall i | 0 <= i < 16 :: r.gp[i] == if i == slot && s.gp[i] >= 0 then -1 else s.gp[i])
            && r.open == s.open - (if slot < 16 && s.gp[slot] >= 0 then {s.gp[slot]} else {})
  {
    if slot < MAX_SLOTS {
      VacateSound(s, slot);
      if s.gp[slot] >= 0 { OwnedHas(s, slot); }
    }
  }

  /** A shutdown closes every handle the table knows and leaves it empty. */
  lemma ShutdownRemoves(s: Input)
    requires Sound(s)
    ensures var r := Step(s, Shutdown);
            && r.kbm < 0 && (forall i | 0 <= i < |r.gp| :: r.gp[i] < 0)
            && r.open == s.open - Owned(s) && r.stray == 0
  {
    VacateFromSound(s, 0);
    ShutdownSound(s);
  }

  /** Every call keeps the table sound and loses exactly that. */
  lemma StepSound(s: Input, c: Call)
    requires Sound(s) && Permitted(s, c)
    ensures Sound(Step(s, c))
    ensures Lost(Step(s, c)) == Lost(s) + Forgotten(s, c)
  {
    match c
    case Init(a) => InitSound(s, a);
    case Shutdown => ShutdownSound(s);
    case Alloc(slot, a) => if slot < MAX_SLOTS { AllocSound(s, slot, a); }
    case Free(slot) => if slot < MAX_SLOTS { VacateSound(s, slot); }
  }

  // ---------------------------------------------------------------- runs

  /** Everything a run forgets. */
  function ForgottenIn(s: Input, cs: seq<Call>): set<int>
    requires |s.gp| == MAX_SLOTS
    decreases |cs|
  {
    if cs == [] then {} else Forgotten(s, cs[0]) + ForgottenIn(Step(s, cs[0]), cs[1..])
  }

  /** Conservation: what is open is what the table knows plus what was forgotten. */
  lemma {:induction false} RunConserves(s: Input, cs: seq<Call>)
    requires Sound(s) && Feasible(s, cs)
    ensures Sound(Run(s, cs))
    ensures Lost(Run(s, cs)) == Lost(s) + ForgottenIn(s, cs)
    decreases |cs|
  {
    if cs != [] {
      StepSound(s, cs[0]);
      RunConserves(Step(s, cs[0]), cs[1..]);
    }
  }

  /** No `input_init` of the run happens while the table still knows a handle. */
  predicate InitsWhenEmpty(s: Input, cs: seq<Call>)
    requires |s.gp| == MAX_SLOTS
    decreases |cs|
  {
    cs == [] || ((cs[0].Init? ==> Owned(s) == {}) && InitsWhenEmpty(Step(s, cs[0]), cs[1..]))
  }

  lemma {:induction false} ForgetsNothingIff(s: Input, cs: seq<Call>)
    requires |s.gp| == MAX_SLOTS
    ensures ForgottenIn(s, cs) == {} <==> InitsWhenEmpty(s, cs)
    decreases |cs|
  {
    if cs != [] { ForgetsNothingIff(Step(s, cs[0]), cs[1..]); }
  }

  /** Open handles are exactly the known ones after a run iff it never initialises over any. */
  lemma NothingLeaksIff(s: Input, cs: seq<Call>)
    requires Sound(s) && Lost(s) == {} && Feasible(s, cs)
    ensures Run(s, cs).open == Owned(Run(s, cs)) <==> InitsWhenEmpty(s, cs)
  {
    RunConserves(s, cs);
    ForgetsNothingIff(s, cs);
  }

  /** The shortest leak: two inits in a row lose the first keyboard handle. */
  lemma DoubleInitLeaks()
    ensures var s := Run(Boot(), [Init(Attempt(3, true, true)), Init(Attempt(4, true, true))]);
            3 in s.open && Owned(s) == {4} && Lost(s) == {3}
  {
    var a, b := Attempt(3, true, true), Attempt(4, true, true);
    var s1 := Step(Boot(), Init(a));
    InitSound(Boot(), a);
    InitSound(s1, b);
    assert [Init(a), Init(b)][1..] == [Init(b)] && [Init(b)][1..] == [];
    assert Run(s1, [Init(b)]) == Run(Step(s1, Init(b)), []) == Step(s1, Init(b));
    assert Run(Boot(), [Init(a), Init(b)]) == Run(s1, [Init(b)]);
  }

  /** The caller's discipline: a successful init is followed by a shutdown before the next init. */
  predicate Bracketed(cs: seq<Call>, down: bool)
    decreases |cs|
  {
    cs == [] ||
    match cs[0]
    case Init(a) => down && Bracketed(cs[1..], !Succeeds(a))
    case Shutdown => Bracketed(cs[1..], true)
    case Alloc(_, _) => Bracketed(cs[1..], false)
    case Free(_) => Bracketed(cs[1..], down)
  }

  lemma {:induction false} BracketedInits(s: Input, cs: seq<Call>, down: bool)
    requires Sound(s) && Feasible(s, cs) && Bracketed(cs, down) && (down ==> Owned(s) == {})
    ensures InitsWhenEmpty(s, cs)
    decreases |cs|
  {
    if cs != [] {
      StepSound(s, cs[0]);
      match cs[0]
      case Init(a) =>
        InitSound(s, a);
        BracketedInits(Step(s, cs[0]), cs[1..], !Succeeds(a));
      case Alloc(_, _) => BracketedInits(Step(s, cs[0]), cs[1..], false);
      case Free(slot) =>
        if slot < MAX_SLOTS { VacateSound(s, slot); }
        BracketedInits(Step(s, cs[0]), cs[1..], down);
      case Shutdown =>
        ShutdownSound(s);
        BracketedInits(Step(s, cs[0]), cs[1..], true);
    }
  }

  /**
    From static storage: after a first init and any bracketed calls, with any failures, the open
    handles are exactly the known ones, all distinct, and no close was stray; after a final
    shutdown nothing is open.
   */
  lemma BracketedRunIsClean(a: Attempt, cs: seq<Call>)
    requires Feasible(Boot(), [Init(a)] + cs) && Bracketed(cs, !Succeeds(a))
    ensures var s := Run(Boot(), [Init(a)] + cs);
            && Sound(s) && s.open == Owned(s)
            && (cs != [] && cs[|cs| - 1] == Shutdown ==> s.open == {})
  {
    var s1 := Step(Boot(), Init(a));
    assert ([Init(a)] + cs)[1..] == cs;
    InitSound(Boot(), a);
    BracketedInits(s1, cs, !Succeeds(a));
    NothingLeaksIff(s1, cs);
    RunConserves(s1, cs);
    if cs != [] && cs[|cs| - 1] == Shutdown { EndsEmpty(s1, cs); }
  }

  lemma {:induction false} EndsEmpty(s: Input, cs: seq<Call>)
    requires Sound(s) && Feasible(s, cs) && cs != [] && cs[|cs| - 1] == Shutdown
    ensures Owned(Run(s, cs)) == {}
    decreases |cs|
  {
    StepSound(s, cs[0]);
    if |cs| == 1 {
      ShutdownSound(s);
      assert cs[1..] == [];
    } else {
      EndsEmpty(Step(s, cs[0]), cs[1..]);
    }
  }

  // ---------------------------------------------------------------- before the first init

  /** A call that never reaches the table. */
  predicate Harmless(c: Call) { (c.Alloc? || c.Free?) && c.slot >= MAX_SLOTS }

  /** Nothing but harmless calls comes before the first init. */
  predicate StartsSafely(cs: seq<Call>)
    decreases |cs|
  {
    cs == [] || cs[0].Init? || (Harmless(cs[0]) && StartsSafely(cs[1..]))
  }

  lemma {:induction false} StrayOnlyGrows(s: Input, cs: seq<Call>)
    requires |s.gp| == MAX_SLOTS
    ensures Run(s, cs).stray >= s.stray
    decreases |cs|
  {
    if cs != [] {
      StrayStep(s, cs[0]);
      StrayOnlyGrows(Step(s, cs[0]), cs[1..]);
    }
  }

  lemma {:induction false} StrayFrom(s: Input, slot: nat)
    requires slot <= |s.gp|
    ensures VacateFrom(s, slot).stray >= s.stray
    decreases |s.gp| - slot
  {
    if slot < |s.gp| { StrayFrom(Vacate(s, slot), slot + 1); }
  }

  lemma StrayStep(s: Input, c: Call)
    requires |s.gp| == MAX_SLOTS
    ensures Step(s, c).stray >= s.stray
  {
    StrayFrom(s, 0);
  }

  lemma BootHazard(c: Call)
    requires !c.Init? && !Harmless(c)
    ensures Step(Boot(), c).stray >= 1
  {
    assert Vacate(Boot(), 0).stray == 1;
    StrayFrom(Vacate(Boot(), 0), 1);
  }

  /**
    The table reads 0 before the first init, so an earlier free, alloc or shutdown closes
    descriptor 0, which the module never opened.  A run from static storage makes no stray close
    exactly when its first call that reaches the table is an init.
   */
  lemma {:induction false} NoStrayCloseIff(cs: seq<Call>)
    requires Feasible(Boot(), cs)
    ensures Run(Boot(), cs).stray == 0 <==> StartsSafely(cs)
    decreases |cs|
  {
    if cs != [] {
      var s1 := Step(Boot(), cs[0]);
      if cs[0].Init? {
        InitSound(Boot(), cs[0].attempt);
        RunConserves(s1, cs[1..]);
      } else if Harmless(cs[0]) {
        NoStrayCloseIff(cs[1..]);
      } else {
        BootHazard(cs[0]);
        StrayOnlyGrows(s1, cs[1..]);
      }
    }
  }

  /** The concrete case: freeing slot 0 before any init. */
  lemma FreeBeforeInitIsStray()
    ensures Run(Boot(), [Free(0)]).stray == 1
  {
    assert [Free(0)][1..] == [];
    assert Run(Boot(), [Free(0)]) == Run(Step(Boot(), Free(0)), []);
  }
}
