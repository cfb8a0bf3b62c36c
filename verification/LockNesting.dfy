/**
  Which operation takes which lock under which: again a function that reads the answer off a
  skeleton, exact for every checked piece of code, and what it says of each operation.
 */
module LockNesting {
  import opened LockOrder
  import opened LockUse

  /** Some execution, entered with `held`, takes `inner` while it holds `outer`. */
  predicate CanNest(c: Code, held: Stack, base: Stack, outer: Mutex, inner: Mutex)
    decreases c
  {
    match c
    case Lock(m) => m == inner && outer in Elems(held)
    case Then(a, b) =>
      || CanNest(a, held, base, outer, inner)
      || (Check(a, held, base).Falls? && CanNest(b, Check(a, held, base).locks, base, outer, inner))
    case Either(a, b) => CanNest(a, held, base, outer, inner) || CanNest(b, held, base, outer, inner)
    case Repeat(a) => CanNest(a, held, base, outer, inner)
    case Call(a) => CanNest(a, held, held, outer, inner)
    case _ => false
  }

  /** Action `k` of the trace takes `inner` while `outer` is held. */
  predicate NestsAt(t: seq<Action>, k: nat, held: set<Mutex>, outer: Mutex, inner: Mutex) {
    && k < |t| && t[k] == Acquire(inner)
    && After(held, t[..k]).Holding? && outer in After(held, t[..k]).locks
  }

  // ---------------------------------------------------------------- the function is exact

  lemma NestsInFirst(t: seq<Action>, k: nat, j: nat, held: set<Mutex>, outer: Mutex, inner: Mutex)
    requires j < k <= |t|
    ensures NestsAt(t, j, held, outer, inner) <==> NestsAt(t[..k], j, held, outer, inner)
  {
    assert t[..k][..j] == t[..j];
  }

  lemma NestsInSecond(t: seq<Action>, k: nat, j: nat, held: set<Mutex>, mid: set<Mutex>, outer: Mutex, inner: Mutex)
    requires k <= j < |t| && After(held, t[..k]) == Holding(mid)
    ensures NestsAt(t, j, held, outer, inner) <==> NestsAt(t[k..], j - k, mid, outer, inner)
  {
    assert t[..j][..k] == t[..k] && t[..j][k..] == t[k..][..j - k];
    AfterSplit(held, t[..j], k);
  }

  lemma {:induction false} FallsIfChecked(c: Code, held: Stack, base: Stack)
    requires Check(c, held, base).Falls?
    ensures CanFall(c)
  {
    match c
    case Then(a, b) =>
      FallsIfChecked(a, held, base);
      FallsIfChecked(b, Check(a, held, base).locks, base);
    case Either(a, b) =>
      if Check(a, held, base).Falls? { FallsIfChecked(a, held, base); } else { FallsIfChecked(b, held, base); }
    case _ =>
  }

  /** Two pieces of code, one after the other: the nesting is in one of them. */
  lemma {:induction false} NestsInEither(c: Code, a: Code, b: Code, held: Stack, mid: Stack, base: Stack, t: seq<Action>, k: nat,
                                         returned: bool, j: nat, outer: Mutex, inner: Mutex)
    requires c == Then(a, b) || (c == Repeat(a) && b == c && k > 0)
    requires k <= |t| && Runs(a, t[..k], false) && Runs(b, t[k..], returned)
    requires Ascending(held) && Check(a, held, base) == Falls(mid) && Check(b, mid, base) != Bad
    requires NestsAt(t, j, Elems(held), outer, inner)
    ensures CanNest(a, held, base, outer, inner) || CanNest(b, mid, base, outer, inner)
    decreases c, |t|, 0
  {
    CheckSound(a, held, base, t[..k], false);
    if j < k {
      NestsInFirst(t, k, j, Elems(held), outer, inner);
      NestsOnlyIf(a, held, base, t[..k], false, j, outer, inner);
    } else {
      NestsInSecond(t, k, j, Elems(held), Elems(mid), outer, inner);
      NestsOnlyIf(b, mid, base, t[k..], returned, j - k, outer, inner);
    }
  }

  lemma FallsIfRun(c: Code, held: Stack, base: Stack, t: seq<Action>)
    requires Runs(c, t, false) && Ascending(held) && Check(c, held, base) != Bad
    ensures Check(c, held, base).Falls?
  {
    CheckSound(c, held, base, t, false);
  }

  lemma {:induction false} NestsInThen(a: Code, b: Code, held: Stack, base: Stack, t: seq<Action>, returned: bool, j: nat,
                                       outer: Mutex, inner: Mutex)
    requires Runs(Then(a, b), t, returned) && Ascending(held) && Check(Then(a, b), held, base) != Bad
    requires NestsAt(t, j, Elems(held), outer, inner)
    ensures CanNest(Then(a, b), held, base, outer, inner)
    decreases Then(a, b), |t|, 1
  {
    var c := Then(a, b);
    if returned && Runs(a, t, true) {
      NestsOnlyIf(a, held, base, t, true, j, outer, inner);
    } else {
      var k :| 0 <= k <= |t| && Runs(a, t[..k], false) && Runs(b, t[k..], returned);
      FallsIfRun(a, held, base, t[..k]);
      NestsInEither(c, a, b, held, Check(a, held, base).locks, base, t, k, returned, j, outer, inner);
    }
  }

  lemma {:induction false} NestsInRepeat(a: Code, held: Stack, base: Stack, t: seq<Action>, returned: bool, j: nat,
                                         outer: Mutex, inner: Mutex)
    requires Runs(Repeat(a), t, returned) && Ascending(held) && Check(Repeat(a), held, base) != Bad
    requires NestsAt(t, j, Elems(held), outer, inner)
    ensures CanNest(Repeat(a), held, base, outer, inner)
    decreases Repeat(a), |t|, 1
  {
    var c := Repeat(a);
    if returned && Runs(a, t, true) {
      NestsOnlyIf(a, held, base, t, true, j, outer, inner);
    } else {
      var k :| 0 < k <= |t| && Runs(a, t[..k], false) && Runs(c, t[k..], returned);
      FallsIfRun(a, held, base, t[..k]);
      NestsInEither(c, a, c, held, held, base, t, k, returned, j, outer, inner);
    }
  }

  lemma {:induction false} NestsInCall(a: Code, held: Stack, base: Stack, t: seq<Action>, returned: bool, j: nat,
                                       outer: Mutex, inner: Mutex)
    requires Runs(Call(a), t, returned) && Ascending(held) && Check(Call(a), held, base) != Bad
    requires NestsAt(t, j, Elems(held), outer, inner)
    ensures CanNest(Call(a), held, base, outer, inner)
    decreases Call(a), |t|, 1
  {
    if Runs(a, t, false) {
      NestsOnlyIf(a, held, held, t, false, j, outer, inner);
    } else {
      NestsOnlyIf(a, held, held, t, true, j, outer, inner);
    }
  }

  lemma {:induction false} NestsInBranch(a: Code, b: Code, held: Stack, base: Stack, t: seq<Action>, returned: bool, j: nat,
                                         outer: Mutex, inner: Mutex)
    requires Runs(Either(a, b), t, returned) && Ascending(held) && Check(Either(a, b), held, base) != Bad
    requires NestsAt(t, j, Elems(held), outer, inner)
    ensures CanNest(Either(a, b), held, base, outer, inner)
    decreases Either(a, b), |t|, 1
  {
    if Runs(a, t, returned) {
      NestsOnlyIf(a, held, base, t, returned, j, outer, inner);
    } else {
      NestsOnlyIf(b, held, base, t, returned, j, outer, inner);
    }
  }

  lemma {:induction false} NestsOnlyIf(c: Code, held: Stack, base: Stack, t: seq<Action>, returned: bool, j: nat, outer: Mutex, inner: Mutex)
    requires Runs(c, t, returned) && Ascending(held) && Check(c, held, base) != Bad
    requires NestsAt(t, j, Elems(held), outer, inner)
    ensures CanNest(c, held, base, outer, inner)
    decreases c, |t|, 2
  {
    match c
    case Lock(_) => assert t[..0] == [];
    case Then(a, b) => NestsInThen(a, b, held, base, t, returned, j, outer, inner);
    case Either(a, b) => NestsInBranch(a, b, held, base, t, returned, j, outer, inner);
    case Repeat(a) => NestsInRepeat(a, held, base, t, returned, j, outer, inner);
    case Call(a) => NestsInCall(a, held, base, t, returned, j, outer, inner);
  }

  lemma {:induction false} NestsIf(c: Code, held: Stack, base: Stack, outer: Mutex, inner: Mutex) returns (x: Execution, j: nat)
    requires CanNest(c, held, base, outer, inner) && Ascending(held) && Check(c, held, base) != Bad
    ensures Executes(c, x) && NestsAt(x.trace, j, Elems(held), outer, inner)
    decreases c, 0
  {
    match c
    case Lock(_) =>
      x, j := Execution([Acquire(inner)], false), 0;
      assert x.trace[..0] == [];
    case Then(a, b) =>
      if CanNest(a, held, base, outer, inner) {
        var y;
        y, j := NestsIf(a, held, base, outer, inner);
        x := ThenRuns(a, y, b);
        assert y.trace == x.trace[..|y.trace|];
        NestsInFirst(x.trace, |y.trace|, j, Elems(held), outer, inner);
      } else {
        x, j := NestsBehind(a, b, held, base, outer, inner);
      }
    case Either(a, b) =>
      if CanNest(a, held, base, outer, inner) {
        x, j := NestsIf(a, held, base, outer, inner);
      } else {
        x, j := NestsIf(b, held, base, outer, inner);
      }
    case Repeat(a) =>
      x, j := NestsIf(a, held, base, outer, inner);
      if !x.returned { RunsOnce(a, x.trace); }
    case Call(a) =>
      var y;
      y, j := NestsIf(a, held, held, outer, inner);
      x := Execution(y.trace, false);
  }

  lemma {:induction false} NestsBehind(a: Code, b: Code, held: Stack, base: Stack, outer: Mutex, inner: Mutex)
    returns (x: Execution, j: nat)
    requires Ascending(held) && Check(Then(a, b), held, base) != Bad && Check(a, held, base).Falls?
    requires CanNest(b, Check(a, held, base).locks, base, outer, inner)
    ensures Executes(Then(a, b), x) && NestsAt(x.trace, j, Elems(held), outer, inner)
    decreases b, 1
  {
    var mid := Check(a, held, base).locks;
    FallsIfChecked(a, held, base);
    var y := SomeExecution(a);
    CheckSound(a, held, base, y.trace, false);
    var z, i := NestsIf(b, mid, base, outer, inner);
    RunsThen(a, b, y.trace, z.trace, z.returned);
    x, j := Execution(y.trace + z.trace, z.returned), |y.trace| + i;
    assert x.trace[..|y.trace|] == y.trace && x.trace[|y.trace|..] == z.trace;
    NestsInSecond(x.trace, |y.trace|, j, Elems(held), Elems(mid), outer, inner);
  }

  /** Some call of the code takes `inner` while it holds `outer`. */
  ghost predicate Nesting(c: Code, outer: Mutex, inner: Mutex) {
    exists t, j :: Runs(Call(c), t, false) && NestsAt(t, j, {}, outer, inner)
  }

  /** The function is exact for every piece of code that passes the check. */
  lemma NestingIffCan(c: Code, outer: Mutex, inner: Mutex)
    requires Clean(c, Empty)
    ensures Nesting(c, outer, inner) <==> CanNest(c, Empty, Empty, outer, inner)
  {
    if CanNest(c, Empty, Empty, outer, inner) {
      var x, j := NestsIf(c, Empty, Empty, outer, inner);
      assert Runs(Call(c), x.trace, false) && NestsAt(x.trace, j, {}, outer, inner);
    }
    forall t, j: nat | Runs(Call(c), t, false) && NestsAt(t, j, {}, outer, inner)
      ensures CanNest(c, Empty, Empty, outer, inner)
    {
      NestsOnlyIf(Call(c), Empty, Empty, t, false, j, outer, inner);
    }
  }

  // ---------------------------------------------------------------- the operations

  /** What each operation nests, read off the source. */
  predicate NestsIn(op: Operation, outer: Mutex, inner: Mutex) {
    match op
    case OpSendH264 => outer == SessionLock && CalledBack(inner)
    case OpViewerLeft => outer == SessionLock && CalledBack(inner)
    case OpHandleSignaling => outer == SessionLock && CalledBack(inner)
    case OpWebRtcShutdown => outer == SessionLock && CalledBack(inner)
    case OpClosed => outer == SessionLock && CalledBack(inner)
    case OpReceive => outer == SessionLock && CalledBack(inner)
    case OpService => outer == SessionLock && CalledBack(inner)
    case OpSignalingShutdown => outer == SessionLock && CalledBack(inner)
    case OpInit => outer == SessionLock && CalledBack(inner)
    case OpShutdown => outer == SessionLock && CalledBack(inner)
    case OpDisconnect => outer == ViewerLock && (inner == SlotsLock || inner == InputLock)
    case _ => false
  }

  lemma {:induction false} HeldWasTaken(held: set<Mutex>, t: seq<Action>, m: Mutex)
    requires After(held, t).Holding? && m in After(held, t).locks
    ensures m in held || Acquire(m) in t
    decreases |t|
  {
    if t != [] {
      HeldWasTaken(if t[0].Acquire? then held + {t[0].m} else held - {t[0].m}, t[1..], m);
    }
  }

  /** A nesting is one of the five, of two locks that the code takes. */
  lemma NestsWhatItTakes(c: Code, outer: Mutex, inner: Mutex)
    requires Clean(c, Empty) && Nesting(c, outer, inner)
    ensures Nests(outer, inner) && Takes(c, outer) && Takes(c, inner)
  {
    var t, j: nat :| Runs(Call(c), t, false) && NestsAt(t, j, {}, outer, inner);
    CheckSound(Call(c), Empty, Empty, t, false);
    AfterSplit({}, t, j);
    assert t[j..][0] == Acquire(inner);
    HeldWasTaken({}, t[..j], outer);
    assert Acquire(outer) in t && Acquire(inner) in t;
  }

  /** `if (...) return; lock; ...` in a function entered with `held`. */
  lemma GuardedLockNests(l: Mutex, rest: Code, held: Stack, outer: Mutex)
    requires outer in Elems(held)
    ensures CanNest(Then(Guard(), Then(Lock(l), rest)), held, held, outer, l)
  {
    assert CanNest(Then(Lock(l), rest), held, held, outer, l);
    assert Check(Guard(), held, held) == Falls(held);
  }

  lemma FireEventNests(held: Stack, outer: Mutex)
    requires outer in Elems(held)
    ensures CanNest(FireEvent(), held, held, outer, QueueLock)
  {
    GuardedLockNests(QueueLock, Done(QueueLock), held, outer);
    assert CanNest(Either(Call(EventCallback()), Skip), held, held, outer, QueueLock);
    assert Check(Guard(), held, held) == Falls(held);
  }

  lemma GamepadNests(held: Stack, outer: Mutex)
    requires outer in Elems(held)
    ensures CanNest(SubmitGamepad(), held, held, outer, InputLock)
  {
    GuardedLockNests(InputLock, Then(Bail(InputLock), Then(Bail(InputLock), Done(InputLock))), held, outer);
  }

  lemma OneOfThreeNests(a: Code, b: Code, c: Code, held: Stack, base: Stack, outer: Mutex, inner: Mutex)
    requires || CanNest(a, held, held, outer, inner)
             || CanNest(b, held, held, outer, inner)
             || CanNest(c, held, held, outer, inner)
    ensures CanNest(Repeat(Either(Call(a), Either(Call(b), Call(c)))), held, base, outer, inner)
  {
    var bc := Either(Call(b), Call(c));
    assert CanNest(bc, held, base, outer, inner) <==>
           CanNest(b, held, held, outer, inner) || CanNest(c, held, held, outer, inner);
    assert CanNest(Either(Call(a), bc), held, base, outer, inner);
  }

  /** Called with a lock held, the library nests under it whatever it takes. */
  lemma LibraryNests(held: Stack, base: Stack, outer: Mutex, inner: Mutex)
    requires outer in Elems(held) && CalledBack(inner)
    ensures CanNest(LibraryCallbacks(), held, base, outer, inner)
  {
    if inner == QueueLock {
      FireEventNests(held, outer);
    } else if inner == WsLock {
      GuardedLockNests(WsLock, Done(WsLock), held, outer);
      assert CanNest(Send(), held, held, outer, inner);
    } else {
      GamepadNests(held, outer);
      assert CanNest(ReceivedInput(), held, held, outer, inner);
    }
    OneOfThreeNests(FireEvent(), Send(), ReceivedInput(), held, base, outer, inner);
  }

  /** The code nests every lock that the library takes under the sessions' lock. */
  predicate NestsLibrary(c: Code, inner: Mutex) { CanNest(c, Empty, Empty, SessionLock, inner) }

  lemma LockedLibraryNests(last: Code, inner: Mutex)
    requires CalledBack(inner)
    ensures NestsLibrary(Then(Lock(SessionLock), Then(LibraryCallbacks(), last)), inner)
  {
    var held := Push(SessionLock, Empty);
    LibraryNests(held, Empty, SessionLock, inner);
    assert CanNest(Then(LibraryCallbacks(), last), held, Empty, SessionLock, inner);
  }

  lemma LaterNests(a: Code, b: Code, inner: Mutex)
    requires Check(a, Empty, Empty) == Falls(Empty) && NestsLibrary(b, inner)
    ensures NestsLibrary(Then(a, b), inner)
  {}

  lemma HandleNests(inner: Mutex)
    requires CalledBack(inner)
    ensures NestsLibrary(HandleSignaling(), inner)
  {
    var l := SessionLock;
    var held := Push(l, Empty);
    LibraryNests(held, Empty, l, inner);
    var b0 := Then(LibraryCallbacks(), Then(Bail(l), Done(l)));
    assert CanNest(b0, held, Empty, l, inner);
    BailNests(b0, inner);
    var b1 := Then(Bail(l), b0);
    BailNests(b1, inner);
    var b2 := Then(Bail(l), b1);
    BailNests(b2, inner);
    var b3 := Then(Bail(l), b2);
    BailNests(b3, inner);
    var locked := Then(Lock(l), Then(Bail(l), b3));
    assert NestsLibrary(locked, inner);
    LaterNests(Guard(), locked, inner);
    LaterNests(Guard(), Then(Guard(), locked), inner);
  }

  lemma BailNests(rest: Code, inner: Mutex)
    requires CanNest(rest, Push(SessionLock, Empty), Empty, SessionLock, inner)
    ensures CanNest(Then(Bail(SessionLock), rest), Push(SessionLock, Empty), Empty, SessionLock, inner)
  {
    assert Check(Then(Unlock(SessionLock), Return), Push(SessionLock, Empty), Empty) == Ends;
    assert Check(Bail(SessionLock), Push(SessionLock, Empty), Empty) == Falls(Push(SessionLock, Empty));
  }

  /** `lock; unlock; rest` */
  lemma UnlockedNests(rest: Code, inner: Mutex)
    requires NestsLibrary(rest, inner)
    ensures NestsLibrary(Then(Lock(WsLock), Then(Unlock(WsLock), rest)), inner)
    ensures NestsLibrary(Then(Lock(WsLock), Then(Bail(WsLock), Then(Unlock(WsLock), rest))), inner)
  {
    var held := Push(WsLock, Empty);
    var unlocks := Then(Unlock(WsLock), rest);
    assert CanNest(unlocks, held, Empty, SessionLock, inner);
    assert Check(Then(Unlock(WsLock), Return), held, Empty) == Ends;
    assert Check(Bail(WsLock), held, Empty) == Falls(held);
    assert CanNest(Then(Bail(WsLock), unlocks), held, Empty, SessionLock, inner);
  }

  lemma SendFrameNests(inner: Mutex)
    requires CalledBack(inner)
    ensures NestsLibrary(SendH264(), inner)
  {
    LockedLibraryNests(Done(SessionLock), inner);
    LaterNests(Guard(), Then(Lock(SessionLock), Then(LibraryCallbacks(), Done(SessionLock))), inner);
  }

  lemma LeavingNests(inner: Mutex)
    requires CalledBack(inner)
    ensures NestsLibrary(ViewerLeft(), inner) && NestsLibrary(WebRtcShutdown(), inner)
  {
    LockedLibraryNests(Unlock(SessionLock), inner);
  }

  lemma ClosedNests(inner: Mutex)
    requires CalledBack(inner)
    ensures NestsLibrary(OnClosed(), inner) && NestsLibrary(SignalingShutdown(), inner)
  {
    LeavingNests(inner);
    var leaves := Either(Call(ViewerLeft()), Skip);
    assert NestsLibrary(leaves, inner);
    UnlockedNests(leaves, inner);
    var closes := Repeat(Call(OnClosed()));
    assert NestsLibrary(closes, inner);
    UnlockedNests(closes, inner);
  }

  lemma ReceiveNests(inner: Mutex)
    requires CalledBack(inner)
    ensures NestsLibrary(OnReceive(), inner)
  {
    HandleNests(inner);
    var handles := Either(Call(HandleSignaling()), Skip);
    assert NestsLibrary(handles, inner);
    assert NestsLibrary(CallOut(), inner);
    UnlockedNests(CallOut(), inner);
  }

  lemma ServiceNests(inner: Mutex)
    requires CalledBack(inner)
    ensures NestsLibrary(ServiceThread(), inner)
  {
    ClosedNests(inner);
    OneOfThreeNests(OnEstablished(), OnClosed(), OnReceive(), Empty, Empty, SessionLock, inner);
    var calls := Repeat(Either(Call(OnEstablished()), Either(Call(OnClosed()), Call(OnReceive()))));
    LaterNests(Guard(), calls, inner);
    UnlockedNests(Then(Guard(), calls), inner);
  }

  lemma UnwindNests(inner: Mutex)
    requires CalledBack(inner)
    ensures NestsLibrary(Unwind(), inner)
  {
    LeavingNests(inner);
    assert NestsLibrary(Call(WebRtcShutdown()), inner);
  }

  lemma InitNests(inner: Mutex)
    requires CalledBack(inner)
    ensures NestsLibrary(SdkInit(), inner)
  {
    UnwindNests(inner);
    var unwinds := Then(Call(Unwind()), Return);
    assert NestsLibrary(unwinds, inner);
    var last := Then(Either(unwinds, Skip), Return);
    assert NestsLibrary(last, inner);
    InputOpsClean();
    var undo := Then(Call(InputShutdown()), Return);
    assert Check(undo, Empty, Empty) == Ends;
    LaterNests(Either(undo, Skip), last, inner);
    LaterNests(Guard(), Then(Either(undo, Skip), last), inner);
  }

  lemma ShutdownNests(inner: Mutex)
    requires CalledBack(inner)
    ensures NestsLibrary(SdkShutdown(), inner)
  {
    UnwindNests(inner);
    assert NestsLibrary(Then(Call(Unwind()), Call(SignalingShutdown())), inner);
    LaterNests(Guard(), Then(Call(Unwind()), Call(SignalingShutdown())), inner);
  }

  lemma DisconnectNests(inner: Mutex)
    requires inner == SlotsLock || inner == InputLock
    ensures CanNest(Disconnect(), Empty, Empty, ViewerLock, inner)
  {
    var l := ViewerLock;
    var held := Push(l, Empty);
    var frees := Then(Call(FreeSlot()), Call(SlotRelease()));
    FreeingClean(held);
    GuardedLockNests(InputLock, Done(InputLock), held, l);
    GuardedLockNests(SlotsLock, Then(Bail(SlotsLock), Done(SlotsLock)), held, l);
    assert CanNest(frees, held, Empty, l, inner);
    LockedLoopNests(l, frees, inner);
  }

  /** `if (...) return; lock; while (...) if (...) body; unlock; return;` */
  lemma LockedLoopNests(l: Mutex, body: Code, inner: Mutex)
    requires CanNest(body, Push(l, Empty), Empty, l, inner)
    ensures CanNest(Then(Guard(), Then(Lock(l), Then(Repeat(Either(body, Skip)), Done(l)))), Empty, Empty, l, inner)
  {
    var loop := Repeat(Either(body, Skip));
    assert CanNest(loop, Push(l, Empty), Empty, l, inner);
    assert CanNest(Then(Lock(l), Then(loop, Done(l))), Empty, Empty, l, inner);
  }

  // ---------------------------------------------------------------- the two that nest nothing

  predicate NestsNothing(c: Code, outer: Mutex, inner: Mutex) { !CanNest(c, Empty, Empty, outer, inner) }

  lemma NeitherNests(a: Code, b: Code, outer: Mutex, inner: Mutex)
    requires NestsNothing(a, outer, inner) && NestsNothing(b, outer, inner)
    requires Check(a, Empty, Empty) == Falls(Empty)
    ensures NestsNothing(Then(a, b), outer, inner)
  {}

  lemma LockedLastNestsNothing(before: Code, l: Mutex, outer: Mutex, inner: Mutex)
    requires NestsNothing(before, outer, inner) && Check(before, Empty, Empty) == Falls(Empty)
    ensures NestsNothing(Then(before, Then(Lock(l), Done(l))), outer, inner)
  {
    UnlockedNestsNothing(l, Return, outer, inner);
    NeitherNests(before, Then(Lock(l), Done(l)), outer, inner);
  }

  lemma GuardedCallNestsNothing(callee: Code, outer: Mutex, inner: Mutex)
    requires NestsNothing(callee, outer, inner) && Clean(callee, Empty)
    ensures NestsNothing(Then(Guard(), Then(Call(callee), Return)), outer, inner)
  {
    var calls := Then(Call(callee), Return);
    NeitherNests(Call(callee), Return, outer, inner);
    assert NestsNothing(Guard(), outer, inner) && Check(Guard(), Empty, Empty) == Falls(Empty);
    NeitherNests(Guard(), calls, outer, inner);
  }

  /** Creating a session calls the library before it locks. */
  lemma CreateNestsNothing(outer: Mutex, inner: Mutex)
    ensures NestsNothing(CreateSession(), outer, inner)
  {
    LibraryAloneNestsNothing(outer, inner);
    LibraryClean(Empty, Empty);
    LockedLastNestsNothing(LibraryCallbacks(), SessionLock, outer, inner);
  }

  lemma JoinNestsNothing(outer: Mutex, inner: Mutex)
    ensures NestsNothing(ViewerJoined(), outer, inner)
  {
    CreateNestsNothing(outer, inner);
    CreateClean();
    GuardedCallNestsNothing(CreateSession(), outer, inner);
  }

  lemma EstablishedNestsNothing(outer: Mutex, inner: Mutex)
    ensures NestsNothing(OnEstablished(), outer, inner)
  {
    JoinNestsNothing(outer, inner);
    var joins := Either(Call(ViewerJoined()), Skip);
    assert NestsNothing(joins, outer, inner);
    UnlockedNestsNothing(WsLock, joins, outer, inner);
  }

  lemma UnlockedNestsNothing(l: Mutex, rest: Code, outer: Mutex, inner: Mutex)
    requires NestsNothing(rest, outer, inner)
    ensures NestsNothing(Then(Lock(l), Then(Unlock(l), rest)), outer, inner)
  {
    assert !CanNest(Then(Unlock(l), rest), Push(l, Empty), Empty, outer, inner);
  }

  lemma LibraryAloneNestsNothing(outer: Mutex, inner: Mutex)
    ensures NestsNothing(LibraryCallbacks(), outer, inner)
  {
    LibraryClean(Empty, Empty);
    if CanNest(LibraryCallbacks(), Empty, Empty, outer, inner) {
      NestingIffCan(LibraryCallbacks(), outer, inner);
      NestsWhatItTakes(LibraryCallbacks(), outer, inner);
      TakesIffCan(LibraryCallbacks(), outer);
      LibraryTakes(outer);
      assert false;
    }
  }

  // ---------------------------------------------------------------- the theorem

  /** What an operation can nest at most. */
  lemma NestsAtMost(op: Operation, outer: Mutex, inner: Mutex)
    requires Nesting(Body(op), outer, inner)
    ensures Nests(outer, inner) && Uses(op, outer) && Uses(op, inner)
  {
    EveryOperationClean(op);
    NestsWhatItTakes(Body(op), outer, inner);
    LocksTaken(op, outer);
    LocksTaken(op, inner);
  }

  lemma NestsAtLeast(op: Operation, outer: Mutex, inner: Mutex)
    requires NestsIn(op, outer, inner)
    ensures CanNest(Body(op), Empty, Empty, outer, inner)
  {
    match op
    case OpSendH264 => SendFrameNests(inner);
    case OpViewerLeft => LeavingNests(inner);
    case OpHandleSignaling => HandleNests(inner);
    case OpWebRtcShutdown => LeavingNests(inner);
    case OpClosed => ClosedNests(inner);
    case OpReceive => ReceiveNests(inner);
    case OpService => ServiceNests(inner);
    case OpSignalingShutdown => ClosedNests(inner);
    case OpInit => InitNests(inner);
    case OpShutdown => ShutdownNests(inner);
    case OpDisconnect => DisconnectNests(inner);
  }

  /** What an operation nests at most is in the table, but for the two that join a viewer. */
  lemma OnlyListed(op: Operation, outer: Mutex, inner: Mutex)
    requires Nests(outer, inner) && Uses(op, outer) && Uses(op, inner) && !op.OpViewerJoined? && !op.OpEstablished?
    ensures NestsIn(op, outer, inner)
  {}

  lemma JoiningNestsNothing(op: Operation, outer: Mutex, inner: Mutex)
    requires op.OpViewerJoined? || op.OpEstablished?
    ensures NestsNothing(Body(op), outer, inner)
  {
    match op
    case OpViewerJoined => JoinNestsNothing(outer, inner);
    case OpEstablished => EstablishedNestsNothing(outer, inner);
  }

  lemma NestsOnlyListed(op: Operation, outer: Mutex, inner: Mutex)
    requires Nesting(Body(op), outer, inner)
    ensures NestsIn(op, outer, inner)
  {
    NestsAtMost(op, outer, inner);
    if op.OpViewerJoined? || op.OpEstablished? {
      EveryOperationClean(op);
      NestingIffCan(Body(op), outer, inner);
      JoiningNestsNothing(op, outer, inner);
      assert false;
    } else {
      OnlyListed(op, outer, inner);
    }
  }

  /** Some execution of the operation takes `inner` under `outer` exactly when the table says so. */
  lemma LocksNested(op: Operation, outer: Mutex, inner: Mutex)
    ensures Nesting(Body(op), outer, inner) <==> NestsIn(op, outer, inner)
  {
    if NestsIn(op, outer, inner) {
      NestsAtLeast(op, outer, inner);
      EveryOperationClean(op);
      NestingIffCan(Body(op), outer, inner);
    }
    if Nesting(Body(op), outer, inner) { NestsOnlyListed(op, outer, inner); }
  }

  /** Some execution of some operation takes `inner` while it holds `outer`. */
  ghost predicate Occurs(outer: Mutex, inner: Mutex) {
    exists op :: Nesting(Body(op), outer, inner)
  }

  /** The five nestings are exactly those that occur. */
  lemma NestingsThatOccur(outer: Mutex, inner: Mutex)
    ensures Occurs(outer, inner) <==> Nests(outer, inner)
  {
    forall op | Nesting(Body(op), outer, inner) ensures Nests(outer, inner) { NestsAtMost(op, outer, inner); }
    if Nests(outer, inner) {
      var op := if outer == ViewerLock then OpDisconnect else OpSendH264;
      LocksNested(op, outer, inner);
      assert Nesting(Body(op), outer, inner);
    }
  }
}
