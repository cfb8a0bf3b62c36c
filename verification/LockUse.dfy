/**
  Which operation takes which lock: a function that reads the answer off a locking skeleton, exact
  for every piece of code, and what it says of each operation.
 */
module LockUse {
  import opened LockOrder

  /** Some execution falls out of the code without a return. */
  predicate CanFall(c: Code) {
    match c
    case Return => false
    case Then(a, b) => CanFall(a) && CanFall(b)
    case Either(a, b) => CanFall(a) || CanFall(b)
    case _ => true
  }

  /** Some execution takes the lock. */
  predicate CanTake(c: Code, m: Mutex) {
    match c
    case Lock(n) => n == m
    case Then(a, b) => CanTake(a, m) || (CanFall(a) && CanTake(b, m))
    case Either(a, b) => CanTake(a, m) || CanTake(b, m)
    case Repeat(a) => CanTake(a, m)
    case Call(a) => CanTake(a, m)
    case _ => false
  }

  datatype Execution = Execution(trace: seq<Action>, returned: bool)

  ghost predicate Executes(c: Code, x: Execution) { Runs(c, x.trace, x.returned) }

  /** Every piece of code can be executed, and falls through if it can. */
  lemma {:induction false} SomeExecution(c: Code) returns (x: Execution)
    ensures Executes(c, x) && (CanFall(c) ==> !x.returned)
    decreases c, 0
  {
    match c
    case Skip => x := Execution([], false);
    case Lock(m) => x := Execution([Acquire(m)], false);
    case Unlock(m) => x := Execution([Release(m)], false);
    case Return => x := Execution([], true);
    case Then(a, b) =>
      var y := SomeExecution(a);
      x := ThenRuns(a, y, b);
    case Either(a, b) =>
      if CanFall(a) || !CanFall(b) { x := SomeExecution(a); } else { x := SomeExecution(b); }
    case Repeat(_) => x := Execution([], false);
    case Call(a) =>
      var y := SomeExecution(a);
      x := Execution(y.trace, false);
  }

  /** An execution of the first part goes on into the second unless it returned. */
  lemma {:induction false} ThenRuns(a: Code, y: Execution, b: Code) returns (x: Execution)
    requires Executes(a, y)
    ensures Executes(Then(a, b), x) && y.trace <= x.trace
    ensures !y.returned && CanFall(b) ==> !x.returned
    decreases b, 1
  {
    if y.returned {
      x := y;
    } else {
      var z := SomeExecution(b);
      RunsThen(a, b, y.trace, z.trace, z.returned);
      x := Execution(y.trace + z.trace, z.returned);
    }
  }

  /** Only code that can take a lock ever does. */
  lemma {:induction false} TakesOnlyIf(c: Code, m: Mutex, t: seq<Action>, returned: bool)
    requires Runs(c, t, returned)
    ensures Acquire(m) in t ==> CanTake(c, m)
    ensures !returned ==> CanFall(c)
    decreases c, |t|
  {
    match c
    case Then(a, b) =>
      if returned && Runs(a, t, true) {
        TakesOnlyIf(a, m, t, true);
      } else {
        var k :| 0 <= k <= |t| && Runs(a, t[..k], false) && Runs(b, t[k..], returned);
        TakesOnlyIf(a, m, t[..k], false);
        TakesOnlyIf(b, m, t[k..], returned);
        assert t == t[..k] + t[k..];
      }
    case Either(a, b) =>
      if Runs(a, t, returned) { TakesOnlyIf(a, m, t, returned); } else { TakesOnlyIf(b, m, t, returned); }
    case Repeat(a) =>
      if t == [] && !returned {
      } else if returned && Runs(a, t, true) {
        TakesOnlyIf(a, m, t, true);
      } else {
        var k :| 0 < k <= |t| && Runs(a, t[..k], false) && Runs(c, t[k..], returned);
        TakesOnlyIf(a, m, t[..k], false);
        TakesOnlyIf(c, m, t[k..], returned);
        assert t == t[..k] + t[k..];
      }
    case Call(a) =>
      if Runs(a, t, false) { TakesOnlyIf(a, m, t, false); } else { TakesOnlyIf(a, m, t, true); }
    case _ =>
  }

  /** Code that can take a lock does so in some execution. */
  lemma {:induction false} TakesIf(c: Code, m: Mutex) returns (x: Execution)
    requires CanTake(c, m)
    ensures Executes(c, x) && Acquire(m) in x.trace
    decreases c
  {
    match c
    case Lock(_) => x := Execution([Acquire(m)], false);
    case Then(a, b) =>
      if CanTake(a, m) {
        var y := TakesIf(a, m);
        x := ThenRuns(a, y, b);
        assert y.trace == x.trace[..|y.trace|];
      } else {
        var y := SomeExecution(a);
        var z := TakesIf(b, m);
        RunsThen(a, b, y.trace, z.trace, z.returned);
        x := Execution(y.trace + z.trace, z.returned);
      }
    case Either(a, b) => if CanTake(a, m) { x := TakesIf(a, m); } else { x := TakesIf(b, m); }
    case Repeat(a) =>
      x := TakesIf(a, m);
      if !x.returned { RunsOnce(a, x.trace); }
    case Call(a) =>
      var y := TakesIf(a, m);
      x := Execution(y.trace, false);
  }

  /** Some execution of a call of the code takes the lock. */
  ghost predicate Takes(c: Code, m: Mutex) {
    exists t :: Runs(Call(c), t, false) && Acquire(m) in t
  }

  /** The two functions above are exact, for every piece of code. */
  lemma TakesIffCan(c: Code, m: Mutex)
    ensures Takes(c, m) <==> CanTake(c, m)
  {
    if CanTake(c, m) {
      var x := TakesIf(c, m);
      assert Runs(Call(c), x.trace, false);
    }
    forall t | Runs(Call(c), t, false) && Acquire(m) in t ensures CanTake(c, m) {
      TakesOnlyIf(Call(c), m, t, false);
    }
  }

  // ---------------------------------------------------------------- the operations

  /** The locks that what the library calls back may take. */
  predicate CalledBack(m: Mutex) { m == InputLock || m == WsLock || m == QueueLock }

  predicate UnderSession(m: Mutex) { m == SessionLock || CalledBack(m) }

  /** The locks of each operation, read off the source. */
  predicate Uses(op: Operation, m: Mutex) {
    match op
    case OpEventCallback => m == QueueLock
    case OpPollEvent => m == QueueLock
    case OpFireEvent => m == QueueLock
    case OpSlotClaim => m == SlotsLock
    case OpSlotRelease => m == SlotsLock
    case OpInputShutdown => m == InputLock
    case OpAllocSlot => m == InputLock
    case OpFreeSlot => m == InputLock
    case OpSubmitGamepad => m == InputLock
    case OpSubmitKbm => m == InputLock
    case OpFlushSlot => m == InputLock
    case OpSend => m == WsLock
    case OpReceivedInput => m == InputLock || m == QueueLock
    case OpDisconnect => m == ViewerLock || m == SlotsLock || m == InputLock
    case OpViewerSetting => m == ViewerLock
    case _ => m == SessionLock || m == InputLock || m == WsLock || m == QueueLock
  }

  lemma QueueAndSendTake(m: Mutex)
    ensures CanTake(EventCallback(), m) <==> m == QueueLock
    ensures CanTake(PollEvent(), m) <==> m == QueueLock
    ensures CanTake(Send(), m) <==> m == WsLock
  {}

  lemma SlotOnesTake(m: Mutex)
    ensures CanTake(SlotClaim(), m) <==> m == SlotsLock
    ensures CanTake(SlotRelease(), m) <==> m == SlotsLock
  {}

  lemma SettingTakes(m: Mutex)
    ensures CanTake(ViewerSetting(), m) <==> m == ViewerLock
  {}

  lemma AnyOfThreeTakes(a: Code, b: Code, c: Code, m: Mutex)
    ensures CanTake(Repeat(Either(Call(a), Either(Call(b), Call(c)))), m) <==>
            CanTake(a, m) || CanTake(b, m) || CanTake(c, m)
  {
    var bc := Either(Call(b), Call(c));
    assert CanTake(bc, m) <==> CanTake(b, m) || CanTake(c, m);
    assert CanTake(Either(Call(a), bc), m) <==> CanTake(a, m) || CanTake(bc, m);
  }

  lemma BothTake(a: Code, b: Code, m: Mutex)
    ensures CanTake(Then(Call(a), Call(b)), m) <==> CanTake(a, m) || CanTake(b, m)
  {}

  lemma InputOnesTake(m: Mutex)
    ensures CanTake(InputShutdown(), m) <==> m == InputLock
    ensures CanTake(AllocSlot(), m) <==> m == InputLock
    ensures CanTake(FreeSlot(), m) <==> m == InputLock
    ensures CanTake(SubmitGamepad(), m) <==> m == InputLock
    ensures CanTake(SubmitKbm(), m) <==> m == InputLock
    ensures CanTake(FlushSlot(), m) <==> m == InputLock
  {}

  lemma FireEventTakes(m: Mutex)
    ensures CanTake(FireEvent(), m) <==> m == QueueLock
  {
    QueueAndSendTake(m);
  }

  lemma ReceivedInputTakes(m: Mutex)
    ensures CanTake(ReceivedInput(), m) <==> m == InputLock || m == QueueLock
  {
    InputOnesTake(m);
    FireEventTakes(m);
    BothTake(SubmitGamepad(), FireEvent(), m);
  }

  lemma LibraryTakes(m: Mutex)
    ensures CanTake(LibraryCallbacks(), m) <==> CalledBack(m)
  {
    FireEventTakes(m);
    QueueAndSendTake(m);
    ReceivedInputTakes(m);
    AnyOfThreeTakes(FireEvent(), Send(), ReceivedInput(), m);
  }

  /** Code that locks the sessions and lets the library call back. */
  lemma LockedLibraryTakes(last: Code, m: Mutex)
    requires !CanTake(last, m)
    ensures CanTake(Then(Lock(SessionLock), Then(LibraryCallbacks(), last)), m) <==> UnderSession(m)
  {
    LibraryTakes(m);
    ThenTakes(LibraryCallbacks(), last, m);
    ThenTakes(Lock(SessionLock), Then(LibraryCallbacks(), last), m);
  }

  lemma ViewerLeftTakes(m: Mutex)
    ensures CanTake(ViewerLeft(), m) <==> UnderSession(m)
  {
    LockedLibraryTakes(Unlock(SessionLock), m);
  }

  lemma WebRtcShutdownTakes(m: Mutex)
    ensures CanTake(WebRtcShutdown(), m) <==> UnderSession(m)
  {
    LockedLibraryTakes(Unlock(SessionLock), m);
  }

  lemma SendFrameTakes(m: Mutex)
    ensures CanTake(SendH264(), m) <==> UnderSession(m)
  {
    LockedLibraryTakes(Done(SessionLock), m);
    LockThenTakes(SessionLock, Then(Lock(SessionLock), Then(LibraryCallbacks(), Done(SessionLock))), m);
  }

  lemma ClosedTakes(m: Mutex)
    ensures CanTake(OnClosed(), m) <==> UnderSession(m)
  {
    ViewerLeftTakes(m);
    UnlockedCallTakes(ViewerLeft(), m);
  }

  /** `lock; unlock; if (...) callee();` */
  lemma UnlockedCallTakes(callee: Code, m: Mutex)
    ensures CanTake(Then(Lock(WsLock), Then(Unlock(WsLock), Either(Call(callee), Skip))), m) <==>
            m == WsLock || CanTake(callee, m)
  {
    var calls := Either(Call(callee), Skip);
    assert CanTake(calls, m) <==> CanTake(callee, m);
    LockThenTakes(WsLock, calls, m);
    LockThenTakes(WsLock, Then(Unlock(WsLock), calls), m);
  }

  lemma SignalingShutdownTakes(m: Mutex)
    ensures CanTake(SignalingShutdown(), m) <==> UnderSession(m)
  {
    ClosedTakes(m);
    var closes := Repeat(Call(OnClosed()));
    assert CanTake(closes, m) <==> CanTake(OnClosed(), m);
    LockThenTakes(WsLock, closes, m);
    LockThenTakes(WsLock, Then(Unlock(WsLock), closes), m);
  }

  lemma CreateTakes(m: Mutex)
    ensures CanTake(CreateSession(), m) <==> UnderSession(m)
  {
    LibraryTakes(m);
    var locks := Then(Lock(SessionLock), Done(SessionLock));
    assert CanTake(locks, m) <==> m == SessionLock;
    ThenTakes(LibraryCallbacks(), locks, m);
  }

  lemma JoinTakes(m: Mutex)
    ensures CanTake(ViewerJoined(), m) <==> UnderSession(m)
  {
    CreateTakes(m);
    ThenTakes(Call(CreateSession()), Return, m);
    LockThenTakes(WsLock, Then(Call(CreateSession()), Return), m);
  }

  lemma EstablishedTakes(m: Mutex)
    ensures CanTake(OnEstablished(), m) <==> UnderSession(m)
  {
    JoinTakes(m);
    UnlockedCallTakes(ViewerJoined(), m);
  }

  lemma LockThenTakes(l: Mutex, rest: Code, m: Mutex)
    ensures CanTake(Then(Lock(l), rest), m) <==> m == l || CanTake(rest, m)
    ensures CanTake(Then(Bail(l), rest), m) <==> CanTake(rest, m)
    ensures CanTake(Then(Guard(), rest), m) <==> CanTake(rest, m)
    ensures CanTake(Then(Unlock(l), rest), m) <==> CanTake(rest, m)
  {
    QuietBranches(l, m);
    ThenTakes(Lock(l), rest, m);
    ThenTakes(Bail(l), rest, m);
    ThenTakes(Guard(), rest, m);
    ThenTakes(Unlock(l), rest, m);
  }

  lemma QuietBranches(l: Mutex, m: Mutex)
    ensures !CanTake(Bail(l), m) && CanFall(Bail(l)) && !CanTake(Guard(), m) && CanFall(Guard())
  {
    assert !CanTake(Then(Unlock(l), Return), m);
  }

  lemma ThenTakes(a: Code, b: Code, m: Mutex)
    ensures CanTake(Then(a, b), m) <==> CanTake(a, m) || (CanFall(a) && CanTake(b, m))
  {}

  lemma HandleTakes(m: Mutex)
    ensures CanTake(HandleSignaling(), m) <==> UnderSession(m)
  {
    var l := SessionLock;
    LibraryTakes(m);
    var after := Then(LibraryCallbacks(), Then(Bail(l), Done(l)));
    assert CanTake(after, m) <==> CalledBack(m);
    var b1 := Then(Bail(l), after);
    var b2 := Then(Bail(l), b1);
    var b3 := Then(Bail(l), b2);
    var b4 := Then(Bail(l), b3);
    var locked := Then(Lock(l), b4);
    LockThenTakes(l, after, m);
    LockThenTakes(l, b1, m);
    LockThenTakes(l, b2, m);
    LockThenTakes(l, b3, m);
    LockThenTakes(l, b4, m);
    LockThenTakes(l, locked, m);
    LockThenTakes(l, Then(Guard(), locked), m);
  }

  lemma CallOutTakes(m: Mutex)
    ensures CanTake(CallOut(), m) <==> UnderSession(m)
  {
    HandleTakes(m);
    FireEventTakes(m);
    var handles := Either(Call(HandleSignaling()), Skip);
    assert CanTake(handles, m) <==> CanTake(HandleSignaling(), m);
    ThenTakes(handles, Call(FireEvent()), m);
  }

  lemma ReceiveTakes(m: Mutex)
    ensures CanTake(OnReceive(), m) <==> UnderSession(m)
  {
    CallOutTakes(m);
    LockThenTakes(WsLock, CallOut(), m);
    LockThenTakes(WsLock, Then(Unlock(WsLock), CallOut()), m);
    LockThenTakes(WsLock, Then(Bail(WsLock), Then(Unlock(WsLock), CallOut())), m);
  }

  lemma ServiceTakes(m: Mutex)
    ensures CanTake(ServiceThread(), m) <==> UnderSession(m)
  {
    EstablishedTakes(m);
    ClosedTakes(m);
    ReceiveTakes(m);
    AnyOfThreeTakes(OnEstablished(), OnClosed(), OnReceive(), m);
    PollThenTakes(Repeat(Either(Call(OnEstablished()), Either(Call(OnClosed()), Call(OnReceive())))), m);
  }

  /** `while (1) { lock; unlock; if (...) break; calls }` */
  lemma PollThenTakes(calls: Code, m: Mutex)
    ensures CanTake(Repeat(Then(Lock(WsLock), Then(Unlock(WsLock), Then(Guard(), calls)))), m) <==>
            m == WsLock || CanTake(calls, m)
  {
    LockThenTakes(WsLock, calls, m);
    LockThenTakes(WsLock, Then(Guard(), calls), m);
    LockThenTakes(WsLock, Then(Unlock(WsLock), Then(Guard(), calls)), m);
  }

  lemma UnwindTakes(m: Mutex)
    ensures CanTake(Unwind(), m) <==> UnderSession(m)
  {
    WebRtcShutdownTakes(m);
    InputOnesTake(m);
    BothTake(WebRtcShutdown(), InputShutdown(), m);
  }

  /** `if (...) { undo(); return; }` */
  lemma UndoTakes(undo: Code, rest: Code, m: Mutex)
    ensures CanTake(Then(Either(Then(Call(undo), Return), Skip), rest), m) <==> CanTake(undo, m) || CanTake(rest, m)
  {
    var undone := Then(Call(undo), Return);
    assert CanTake(undone, m) <==> CanTake(undo, m);
    var branch := Either(undone, Skip);
    assert CanTake(branch, m) <==> CanTake(undone, m);
    assert CanFall(Skip) && CanFall(branch);
    ThenTakes(branch, rest, m);
  }

  lemma InitTakes(m: Mutex)
    ensures CanTake(SdkInit(), m) <==> UnderSession(m)
  {
    UnwindTakes(m);
    InputOnesTake(m);
    var inner := Then(Either(Then(Call(Unwind()), Return), Skip), Return);
    UndoTakes(Unwind(), Return, m);
    UndoTakes(InputShutdown(), inner, m);
    LockThenTakes(WsLock, Then(Either(Then(Call(InputShutdown()), Return), Skip), inner), m);
  }

  lemma ShutdownTakes(m: Mutex)
    ensures CanTake(SdkShutdown(), m) <==> UnderSession(m)
  {
    UnwindTakes(m);
    SignalingShutdownTakes(m);
    BothTake(Unwind(), SignalingShutdown(), m);
    LockThenTakes(WsLock, Then(Call(Unwind()), Call(SignalingShutdown())), m);
  }

  lemma LoopTakes(body: Code, l: Mutex, m: Mutex)
    ensures CanTake(Then(Repeat(Either(body, Skip)), Done(l)), m) <==> CanTake(body, m)
  {
    var once := Either(body, Skip);
    assert CanTake(once, m) <==> CanTake(body, m);
    assert CanTake(Repeat(once), m) <==> CanTake(once, m);
  }

  lemma DisconnectTakes(m: Mutex)
    ensures CanTake(Disconnect(), m) <==> m == ViewerLock || m == SlotsLock || m == InputLock
  {
    SlotOnesTake(m);
    InputOnesTake(m);
    BothTake(FreeSlot(), SlotRelease(), m);
    var frees := Then(Call(FreeSlot()), Call(SlotRelease()));
    var rest := Then(Repeat(Either(frees, Skip)), Done(ViewerLock));
    LoopTakes(frees, ViewerLock, m);
    LockThenTakes(ViewerLock, rest, m);
    LockThenTakes(ViewerLock, Then(Lock(ViewerLock), rest), m);
  }

  // ---------------------------------------------------------------- the theorem

  /** Some execution of the operation takes the lock exactly when the table says so. */
  ghost predicate AsListed(op: Operation, m: Mutex) { Takes(Body(op), m) <==> Uses(op, m) }

  lemma InputLocks(op: Operation, m: Mutex)
    requires op.OpInputShutdown? || op.OpAllocSlot? || op.OpFreeSlot?
    ensures AsListed(op, m)
  {
    InputOnesTake(m);
    TakesIffCan(Body(op), m);
  }

  lemma PadLocks(op: Operation, m: Mutex)
    requires op.OpSubmitGamepad? || op.OpSubmitKbm? || op.OpFlushSlot?
    ensures AsListed(op, m)
  {
    InputOnesTake(m);
    TakesIffCan(Body(op), m);
  }

  lemma EventCallbackLocks(op: Operation, m: Mutex)
    requires op == OpEventCallback
    ensures AsListed(op, m)
  {
    QueueAndSendTake(m);
    TakesIffCan(Body(op), m);
  }

  lemma PollEventLocks(op: Operation, m: Mutex)
    requires op == OpPollEvent
    ensures AsListed(op, m)
  {
    QueueAndSendTake(m);
    TakesIffCan(Body(op), m);
  }

  lemma SendLocks(op: Operation, m: Mutex)
    requires op == OpSend
    ensures AsListed(op, m)
  {
    QueueAndSendTake(m);
    TakesIffCan(Body(op), m);
  }

  lemma FireEventLocks(op: Operation, m: Mutex)
    requires op == OpFireEvent
    ensures AsListed(op, m)
  {
    FireEventTakes(m);
    TakesIffCan(Body(op), m);
  }

  lemma ReceivedInputLocks(op: Operation, m: Mutex)
    requires op == OpReceivedInput
    ensures AsListed(op, m)
  {
    ReceivedInputTakes(m);
    TakesIffCan(Body(op), m);
  }

  lemma SlotClaimLocks(op: Operation, m: Mutex)
    requires op == OpSlotClaim
    ensures AsListed(op, m)
  {
    SlotOnesTake(m);
    TakesIffCan(Body(op), m);
  }

  lemma SlotReleaseLocks(op: Operation, m: Mutex)
    requires op == OpSlotRelease
    ensures AsListed(op, m)
  {
    SlotOnesTake(m);
    TakesIffCan(Body(op), m);
  }

  lemma ViewerSettingLocks(op: Operation, m: Mutex)
    requires op == OpViewerSetting
    ensures AsListed(op, m)
  {
    SettingTakes(m);
    TakesIffCan(Body(op), m);
  }

  lemma DisconnectLocks(op: Operation, m: Mutex)
    requires op == OpDisconnect
    ensures AsListed(op, m)
  {
    DisconnectTakes(m);
    TakesIffCan(Body(op), m);
  }

  lemma SendH264Locks(op: Operation, m: Mutex)
    requires op == OpSendH264
    ensures AsListed(op, m)
  {
    SendFrameTakes(m);
    TakesIffCan(Body(op), m);
  }

  lemma ViewerJoinedLocks(op: Operation, m: Mutex)
    requires op == OpViewerJoined
    ensures AsListed(op, m)
  {
    JoinTakes(m);
    TakesIffCan(Body(op), m);
  }

  lemma ViewerLeftLocks(op: Operation, m: Mutex)
    requires op == OpViewerLeft
    ensures AsListed(op, m)
  {
    ViewerLeftTakes(m);
    TakesIffCan(Body(op), m);
  }

  lemma HandleSignalingLocks(op: Operation, m: Mutex)
    requires op == OpHandleSignaling
    ensures AsListed(op, m)
  {
    HandleTakes(m);
    TakesIffCan(Body(op), m);
  }

  lemma WebRtcShutdownLocks(op: Operation, m: Mutex)
    requires op == OpWebRtcShutdown
    ensures AsListed(op, m)
  {
    WebRtcShutdownTakes(m);
    TakesIffCan(Body(op), m);
  }

  lemma EstablishedLocks(op: Operation, m: Mutex)
    requires op == OpEstablished
    ensures AsListed(op, m)
  {
    EstablishedTakes(m);
    TakesIffCan(Body(op), m);
  }

  lemma ClosedLocks(op: Operation, m: Mutex)
    requires op == OpClosed
    ensures AsListed(op, m)
  {
    ClosedTakes(m);
    TakesIffCan(Body(op), m);
  }

  lemma ReceiveLocks(op: Operation, m: Mutex)
    requires op == OpReceive
    ensures AsListed(op, m)
  {
    ReceiveTakes(m);
    TakesIffCan(Body(op), m);
  }

  lemma ServiceLocks(op: Operation, m: Mutex)
    requires op == OpService
    ensures AsListed(op, m)
  {
    ServiceTakes(m);
    TakesIffCan(Body(op), m);
  }

  lemma SignalingShutdownLocks(op: Operation, m: Mutex)
    requires op == OpSignalingShutdown
    ensures AsListed(op, m)
  {
    SignalingShutdownTakes(m);
    TakesIffCan(Body(op), m);
  }

  lemma InitLocks(op: Operation, m: Mutex)
    requires op == OpInit
    ensures AsListed(op, m)
  {
    InitTakes(m);
    TakesIffCan(Body(op), m);
  }

  lemma ShutdownLocks(op: Operation, m: Mutex)
    requires op == OpShutdown
    ensures AsListed(op, m)
  {
    ShutdownTakes(m);
    TakesIffCan(Body(op), m);
  }

  /** Exactly which locks some execution of each operation takes. */
  lemma LocksTaken(op: Operation, m: Mutex)
    ensures Takes(Body(op), m) <==> Uses(op, m)
  {
    assert AsListed(op, m) by {
      match op
      case OpInputShutdown => InputLocks(op, m);
      case OpAllocSlot => InputLocks(op, m);
      case OpFreeSlot => InputLocks(op, m);
      case OpSubmitGamepad => PadLocks(op, m);
      case OpSubmitKbm => PadLocks(op, m);
      case OpFlushSlot => PadLocks(op, m);
      case OpEventCallback => EventCallbackLocks(op, m);
      case OpPollEvent => PollEventLocks(op, m);
      case OpSend => SendLocks(op, m);
      case OpFireEvent => FireEventLocks(op, m);
      case OpReceivedInput => ReceivedInputLocks(op, m);
      case OpSlotClaim => SlotClaimLocks(op, m);
      case OpSlotRelease => SlotReleaseLocks(op, m);
      case OpViewerSetting => ViewerSettingLocks(op, m);
      case OpDisconnect => DisconnectLocks(op, m);
      case OpSendH264 => SendH264Locks(op, m);
      case OpViewerJoined => ViewerJoinedLocks(op, m);
      case OpViewerLeft => ViewerLeftLocks(op, m);
      case OpHandleSignaling => HandleSignalingLocks(op, m);
      case OpWebRtcShutdown => WebRtcShutdownLocks(op, m);
      case OpEstablished => EstablishedLocks(op, m);
      case OpClosed => ClosedLocks(op, m);
      case OpReceive => ReceiveLocks(op, m);
      case OpService => ServiceLocks(op, m);
      case OpSignalingShutdown => SignalingShutdownLocks(op, m);
      case OpInit => InitLocks(op, m);
      case OpShutdown => ShutdownLocks(op, m);
    }
  }
}
