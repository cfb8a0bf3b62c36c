/**
  Lock discipline.  The locking skeleton of every operation is written in a small language of
  control flow; a static check of the skeletons is proved sound, and any number of threads
  running checked operations, in any interleaving, never deadlock.
 */
module LockOrder {
  datatype Mutex = ViewerLock | SessionLock | SlotsLock | InputLock | WsLock | QueueLock

  /** Which lock may be taken while which is held: nothing else is ever nested. */
  predicate Nests(outer: Mutex, inner: Mutex) {
    match outer
    case ViewerLock => inner == SlotsLock || inner == InputLock
    case SessionLock => inner == InputLock || inner == WsLock || inner == QueueLock
    case _ => false
  }

  /** An order every nesting goes up in. */
  function Rank(m: Mutex): (r: nat)
    ensures r < 6
  {
    match m
    case ViewerLock => 0
    case SessionLock => 1
    case SlotsLock => 2
    case InputLock => 3
    case WsLock => 4
    case QueueLock => 5
  }

  datatype Code =
    | Skip
    | Lock(m: Mutex)
    | Unlock(m: Mutex)
    | Return
    | Then(first: Code, second: Code)
    | Either(left: Code, right: Code)
    | Repeat(body: Code)
    | Call(callee: Code)

  datatype Action = Acquire(m: Mutex) | Release(m: Mutex)

  /** `t` is the locking trace of one execution of `c`; `returned` says it ended in a return. */
  ghost predicate Runs(c: Code, t: seq<Action>, returned: bool)
    decreases c, |t|
  {
    match c
    case Skip => t == [] && !returned
    case Lock(m) => t == [Acquire(m)] && !returned
    case Unlock(m) => t == [Release(m)] && !returned
    case Return => t == [] && returned
    case Then(a, b) =>
      || (returned && Runs(a, t, true))
      || exists k | 0 <= k <= |t| :: Runs(a, t[..k], false) && Runs(b, t[k..], returned)
    case Either(a, b) => Runs(a, t, returned) || Runs(b, t, returned)
    case Repeat(a) =>
      || (t == [] && !returned)
      || (returned && Runs(a, t, true))
      || exists k | 0 < k <= |t| :: Runs(a, t[..k], false) && Runs(c, t[k..], returned)
    case Call(a) => !returned && (Runs(a, t, false) || Runs(a, t, true))
  }

  lemma RunsThen(a: Code, b: Code, s: seq<Action>, t: seq<Action>, returned: bool)
    requires Runs(a, s, false) && Runs(b, t, returned)
    ensures Runs(Then(a, b), s + t, returned)
  {
    assert (s + t)[..|s|] == s && (s + t)[|s|..] == t;
  }

  lemma RunsOnce(a: Code, t: seq<Action>)
    requires Runs(a, t, false)
    ensures Runs(Repeat(a), t, false)
  {
    assert t[..|t|] == t && t[|t|..] == [];
  }

  // ---------------------------------------------------------------- traces

  datatype Held = Broken | Holding(locks: set<Mutex>)

  predicate Above(m: Mutex, held: set<Mutex>) {
    forall h <- held :: Nests(h, m)
  }

  /** What is held after a trace; `Broken` if it nests what may not be nested or frees what it lacks. */
  function After(held: set<Mutex>, t: seq<Action>): Held
    decreases |t|
  {
    if t == [] then Holding(held)
    else match t[0]
      case Acquire(m) => if Above(m, held) then After(held + {m}, t[1..]) else Broken
      case Release(m) => if m in held then After(held - {m}, t[1..]) else Broken
  }

  lemma {:induction false} AfterConcat(held: set<Mutex>, a: seq<Action>, b: seq<Action>)
    ensures After(held, a + b) ==
            match After(held, a) case Broken => Broken case Holding(h) => After(h, b)
    decreases |a|
  {
    if a == [] {
      assert a + b == b;
    } else {
      assert (a + b)[1..] == a[1..] + b;
      match a[0]
      case Acquire(m) => if Above(m, held) { AfterConcat(held + {m}, a[1..], b); }
      case Release(m) => if m in held { AfterConcat(held - {m}, a[1..], b); }
    }
  }

  lemma AfterSplit(held: set<Mutex>, t: seq<Action>, k: nat)
    requires k <= |t|
    ensures After(held, t) ==
            match After(held, t[..k]) case Broken => Broken case Holding(h) => After(h, t[k..])
  {
    assert t == t[..k] + t[k..];
    AfterConcat(held, t[..k], t[k..]);
  }

  // ---------------------------------------------------------------- the static check

  /** Locks held, the last taken on top. */
  datatype Stack = Empty | Push(top: Mutex, below: Stack)

  function Elems(s: Stack): set<Mutex> {
    if s.Empty? then {} else Elems(s.below) + {s.top}
  }

  predicate OnTop(m: Mutex, s: Stack) {
    s.Empty? || (Nests(s.top, m) && OnTop(m, s.below))
  }

  predicate Ascending(s: Stack) {
    s.Empty? || (OnTop(s.top, s.below) && Ascending(s.below))
  }

  lemma {:induction false} OnTopIsAbove(m: Mutex, s: Stack)
    ensures OnTop(m, s) <==> Above(m, Elems(s))
  {
    if s.Push? {
      OnTopIsAbove(m, s.below);
      assert s.top in Elems(s);
    }
  }

  /** The verdict on a piece of code: how it leaves the locks when control falls out of it. */
  datatype Flow = Bad | Ends | Falls(locks: Stack)

  function Join(a: Flow, b: Flow): Flow {
    if a == Bad || b == Bad then Bad
    else if a == Ends then b
    else if b == Ends || a == b then a
    else Bad
  }

  /** Checks `c` entered with `held`, in a function that must return with `base`. */
  function Check(c: Code, held: Stack, base: Stack): Flow
    decreases c
  {
    match c
    case Skip => Falls(held)
    case Lock(m) => if OnTop(m, held) then Falls(Push(m, held)) else Bad
    case Unlock(m) => if held.Push? && held.top == m then Falls(held.below) else Bad
    case Return => if held == base then Ends else Bad
    case Then(a, b) =>
      (match Check(a, held, base)
       case Bad => Bad
       case Ends => Ends
       case Falls(h) => Check(b, h, base))
    case Either(a, b) => Join(Check(a, held, base), Check(b, held, base))
    case Repeat(a) => Join(Check(a, held, base), Falls(held))
    case Call(a) => Join(Check(a, held, held), Falls(held))
  }

  /** What a checked execution leaves held. */
  predicate Leaves(f: Flow, base: Stack, returned: bool, h: Held) {
    if returned then h == Holding(Elems(base))
    else f.Falls? && Ascending(f.locks) && h == Holding(Elems(f.locks))
  }

  lemma ActionSound(c: Code, held: Stack, base: Stack, t: seq<Action>)
    requires (c.Lock? || c.Unlock?) && Runs(c, t, false)
    requires Ascending(held) && Check(c, held, base) != Bad
    ensures Leaves(Check(c, held, base), base, false, After(Elems(held), t))
  {
    assert t[1..] == [];
    if c.Lock? {
      OnTopIsAbove(c.m, held);
    } else {
      OnTopIsAbove(c.m, held.below);
      assert Elems(held) - {c.m} == Elems(held.below);
    }
  }

  /** The check is sound: every execution of checked code nests only what may be nested and leaves what it says. */
  lemma {:induction false} CheckSound(c: Code, held: Stack, base: Stack, t: seq<Action>, returned: bool)
    requires Runs(c, t, returned) && Ascending(held) && Check(c, held, base) != Bad
    ensures Leaves(Check(c, held, base), base, returned, After(Elems(held), t))
    decreases c, |t|
  {
    match c
    case Skip =>
    case Return =>
    case Lock(_) => ActionSound(c, held, base, t);
    case Unlock(_) => ActionSound(c, held, base, t);
    case Then(a, b) =>
      if returned && Runs(a, t, true) {
        CheckSound(a, held, base, t, true);
      } else {
        var k :| 0 <= k <= |t| && Runs(a, t[..k], false) && Runs(b, t[k..], returned);
        CheckSound(a, held, base, t[..k], false);
        CheckSound(b, Check(a, held, base).locks, base, t[k..], returned);
        AfterSplit(Elems(held), t, k);
      }
    case Either(a, b) =>
      if Runs(a, t, returned) {
        CheckSound(a, held, base, t, returned);
      } else {
        CheckSound(b, held, base, t, returned);
      }
    case Repeat(a) =>
      if t == [] && !returned {
      } else if returned && Runs(a, t, true) {
        CheckSound(a, held, base, t, true);
      } else {
        var k :| 0 < k <= |t| && Runs(a, t[..k], false) && Runs(c, t[k..], returned);
        CheckSound(a, held, base, t[..k], false);
        CheckSound(c, held, base, t[k..], returned);
        AfterSplit(Elems(held), t, k);
      }
    case Call(a) =>
      if Runs(a, t, false) {
        CheckSound(a, held, held, t, false);
      } else {
        CheckSound(a, held, held, t, true);
      }
  }

  // ---------------------------------------------------------------- threads

  /** Each thread's remaining trace and the owner of every taken lock. */
  datatype State = State(todo: seq<seq<Action>>, owner: map<Mutex, nat>)

  predicate Enabled(s: State, t: nat) {
    && t < |s.todo| && s.todo[t] != []
    && match s.todo[t][0]
       case Acquire(m) => m !in s.owner
       case Release(m) => m in s.owner && s.owner[m] == t
  }

  function Next(s: State, t: nat): State
    requires Enabled(s, t)
  {
    var rest := s.todo[t := s.todo[t][1..]];
    match s.todo[t][0]
    case Acquire(m) => State(rest, s.owner[m := t])
    case Release(m) => State(rest, s.owner - {m})
  }

  predicate Schedulable(s: State, order: seq<nat>)
    decreases |order|
  {
    order == [] || (Enabled(s, order[0]) && Schedulable(Next(s, order[0]), order[1..]))
  }

  function RunOrder(s: State, order: seq<nat>): State
    requires Schedulable(s, order)
    decreases |order|
  {
    if order == [] then s else RunOrder(Next(s, order[0]), order[1..])
  }

  predicate Finished(s: State) { forall t | 0 <= t < |s.todo| :: s.todo[t] == [] }

  function HeldBy(s: State, t: nat): set<Mutex> {
    set m | m in s.owner && s.owner[m] == t
  }

  /** Every thread holds what its trace so far left it, and the rest of its trace is in order. */
  ghost predicate Orderly(s: State) {
    && (forall t: nat | t < |s.todo| :: After(HeldBy(s, t), s.todo[t]) == Holding({}))
    && (forall m | m in s.owner :: s.owner[m] < |s.todo|)
  }

  lemma StepOrderly(s: State, t: nat)
    requires Orderly(s) && Enabled(s, t)
    ensures Orderly(Next(s, t))
  {
    var s' := Next(s, t);
    forall u: nat | u < |s'.todo| ensures After(HeldBy(s', u), s'.todo[u]) == Holding({}) {
      assert After(HeldBy(s, u), s.todo[u]) == Holding({});
      match s.todo[t][0]
      case Acquire(m) =>
        assert HeldBy(s', u) == if u == t then HeldBy(s, u) + {m} else HeldBy(s, u);
      case Release(m) =>
        assert HeldBy(s', u) == if u == t then HeldBy(s, u) - {m} else HeldBy(s, u);
    }
  }

  lemma {:induction false} RunOrderly(s: State, order: seq<nat>)
    requires Orderly(s) && Schedulable(s, order)
    ensures Orderly(RunOrder(s, order)) && |RunOrder(s, order).todo| == |s.todo|
    decreases |order|
  {
    if order != [] {
      StepOrderly(s, order[0]);
      RunOrderly(Next(s, order[0]), order[1..]);
    }
  }

  /** A thread that waits for a lock above every other awaited lock is not kept waiting. */
  lemma {:induction false} SomeoneEnabled(s: State, t: nat)
    requires Orderly(s) && t < |s.todo| && s.todo[t] != []
    ensures exists u :: Enabled(s, u)
    decreases match s.todo[t][0] case Acquire(m) => 1 + 6 - Rank(m) case Release(_) => 0
  {
    if !Enabled(s, t) {
      assert After(HeldBy(s, t), s.todo[t]) == Holding({});
      var m := s.todo[t][0].m;
      var u := s.owner[m];
      assert m in HeldBy(s, u);
      assert After(HeldBy(s, u), s.todo[u]) == Holding({});
      assert s.todo[u] != [];
      SomeoneEnabled(s, u);
    }
  }

  // ---------------------------------------------------------------- the operations

  /** `if (...) return;` before anything is locked. */
  function Guard(): Code { Either(Return, Skip) }

  /** `if (...) { unlock; return; }` */
  function Bail(m: Mutex): Code { Either(Then(Unlock(m), Return), Skip) }

  /** `unlock; return;` */
  function Done(m: Mutex): Code { Then(Unlock(m), Return) }

  // bindings/godot/src/nearcade_godot.cpp
  function EventCallback(): Code { Then(Guard(), Then(Lock(QueueLock), Done(QueueLock))) }
  function PollEvent(): Code { Then(Lock(QueueLock), Then(Bail(QueueLock), Done(QueueLock))) }

  // src/nearcade_internal.h; the user callback is the one above
  function FireEvent(): Code { Then(Guard(), Either(Call(EventCallback()), Skip)) }
  function SlotClaim(): Code {
    Then(Guard(), Then(Lock(SlotsLock), Then(Repeat(Bail(SlotsLock)), Done(SlotsLock))))
  }
  function SlotRelease(): Code {
    Then(Guard(), Then(Lock(SlotsLock), Then(Bail(SlotsLock), Done(SlotsLock))))
  }

  // src/input_linux.c
  function InputShutdown(): Code { Then(Lock(InputLock), Done(InputLock)) }
  function AllocSlot(): Code {
    Then(Guard(), Then(Lock(InputLock),
      Then(Bail(InputLock), Then(Bail(InputLock), Then(Bail(InputLock), Done(InputLock))))))
  }
  function FreeSlot(): Code { Then(Guard(), Then(Lock(InputLock), Done(InputLock))) }
  function SubmitGamepad(): Code {
    Then(Guard(), Then(Lock(InputLock), Then(Bail(InputLock), Then(Bail(InputLock), Done(InputLock)))))
  }
  function SubmitKbm(): Code { Then(Lock(InputLock), Then(Bail(InputLock), Done(InputLock))) }
  function FlushSlot(): Code { Then(Lock(InputLock), Done(InputLock)) }

  // src/signaling.c: the senders
  function Send(): Code { Then(Guard(), Then(Lock(WsLock), Done(WsLock))) }

  // src/nearcade.c and src/webrtc.cpp: what the library may call back, any number of times
  function ReceivedInput(): Code { Then(Call(SubmitGamepad()), Call(FireEvent())) }
  function LibraryCallbacks(): Code {
    Repeat(Either(Call(FireEvent()), Either(Call(Send()), Call(ReceivedInput()))))
  }

  // src/webrtc.cpp
  function CreateSession(): Code { Then(LibraryCallbacks(), Then(Lock(SessionLock), Done(SessionLock))) }
  function ViewerJoined(): Code { Then(Guard(), Then(Call(CreateSession()), Return)) }
  function ViewerLeft(): Code { Then(Lock(SessionLock), Then(LibraryCallbacks(), Unlock(SessionLock))) }
  function HandleSignaling(): Code {
    Then(Guard(), Then(Guard(), Then(Lock(SessionLock),
      Then(Bail(SessionLock), Then(Bail(SessionLock), Then(Bail(SessionLock), Then(Bail(SessionLock),
        Then(LibraryCallbacks(), Then(Bail(SessionLock), Done(SessionLock))))))))))
  }
  function SendH264(): Code { Then(Guard(), Then(Lock(SessionLock), Then(LibraryCallbacks(), Done(SessionLock)))) }
  function WebRtcShutdown(): Code { Then(Lock(SessionLock), Then(LibraryCallbacks(), Unlock(SessionLock))) }

  // src/signaling.c: the service callbacks, which unlock before they call out
  function OnEstablished(): Code {
    Then(Lock(WsLock), Then(Unlock(WsLock), Either(Call(ViewerJoined()), Skip)))
  }
  function OnClosed(): Code { Then(Lock(WsLock), Then(Unlock(WsLock), Either(Call(ViewerLeft()), Skip))) }
  function CallOut(): Code { Then(Either(Call(HandleSignaling()), Skip), Call(FireEvent())) }
  function OnReceive(): Code {
    Then(Lock(WsLock), Then(Bail(WsLock), Then(Unlock(WsLock), CallOut())))
  }
  function ServiceThread(): Code {
    Repeat(Then(Lock(WsLock), Then(Unlock(WsLock), Then(Guard(),
      Repeat(Either(Call(OnEstablished()), Either(Call(OnClosed()), Call(OnReceive()))))))))
  }
  function SignalingShutdown(): Code { Then(Lock(WsLock), Then(Unlock(WsLock), Repeat(Call(OnClosed())))) }

  // src/nearcade.c
  function Disconnect(): Code {
    Then(Guard(), Then(Lock(ViewerLock),
      Then(Repeat(Either(Then(Call(FreeSlot()), Call(SlotRelease())), Skip)), Done(ViewerLock))))
  }
  function ViewerSetting(): Code {
    Then(Guard(), Then(Lock(ViewerLock), Then(Repeat(Bail(ViewerLock)), Done(ViewerLock))))
  }
  function Unwind(): Code { Then(Call(WebRtcShutdown()), Call(InputShutdown())) }
  function SdkInit(): Code {
    Then(Guard(), Then(Either(Then(Call(InputShutdown()), Return), Skip),
      Then(Either(Then(Call(Unwind()), Return), Skip), Return)))
  }
  function SdkShutdown(): Code { Then(Guard(), Then(Call(Unwind()), Call(SignalingShutdown()))) }

  datatype Operation =
    | OpEventCallback | OpPollEvent | OpFireEvent | OpSlotClaim | OpSlotRelease
    | OpInputShutdown | OpAllocSlot | OpFreeSlot | OpSubmitGamepad | OpSubmitKbm | OpFlushSlot
    | OpSend | OpReceivedInput | OpSendH264 | OpViewerJoined | OpViewerLeft | OpHandleSignaling
    | OpWebRtcShutdown | OpEstablished | OpClosed | OpReceive | OpService | OpSignalingShutdown
    | OpDisconnect | OpViewerSetting | OpInit | OpShutdown

  function Body(op: Operation): Code {
    match op
    case OpEventCallback => EventCallback()
    case OpPollEvent => PollEvent()
    case OpFireEvent => FireEvent()
    case OpSlotClaim => SlotClaim()
    case OpSlotRelease => SlotRelease()
    case OpInputShutdown => InputShutdown()
    case OpAllocSlot => AllocSlot()
    case OpFreeSlot => FreeSlot()
    case OpSubmitGamepad => SubmitGamepad()
    case OpSubmitKbm => SubmitKbm()
    case OpFlushSlot => FlushSlot()
    case OpSend => Send()
    case OpReceivedInput => ReceivedInput()
    case OpSendH264 => SendH264()
    case OpViewerJoined => ViewerJoined()
    case OpViewerLeft => ViewerLeft()
    case OpHandleSignaling => HandleSignaling()
    case OpWebRtcShutdown => WebRtcShutdown()
    case OpEstablished => OnEstablished()
    case OpClosed => OnClosed()
    case OpReceive => OnReceive()
    case OpService => ServiceThread()
    case OpSignalingShutdown => SignalingShutdown()
    case OpDisconnect => Disconnect()
    case OpViewerSetting => ViewerSetting()
    case OpInit => SdkInit()
    case OpShutdown => SdkShutdown()
  }

  /** Called with `held`, the code comes back with `held` on every path. */
  predicate Clean(c: Code, held: Stack) { Check(Call(c), held, held) == Falls(held) }

  /** What can be held when the library calls back. */
  predicate InSession(held: Stack) { held == Empty || held == Push(SessionLock, Empty) }

  /** What can be held when a slot and its device are freed. */
  predicate InViewers(held: Stack) { held == Empty || held == Push(ViewerLock, Empty) }

  lemma CalledBackClean(held: Stack)
    requires InSession(held)
    ensures Clean(EventCallback(), held) && Clean(Send(), held) && Clean(SubmitGamepad(), held)
  {}

  lemma FreeingClean(held: Stack)
    requires InViewers(held)
    ensures Clean(FreeSlot(), held) && Clean(SlotRelease(), held)
  {}

  lemma InputOpsClean()
    ensures Clean(InputShutdown(), Empty) && Clean(SubmitKbm(), Empty) && Clean(FlushSlot(), Empty)
    ensures Clean(AllocSlot(), Empty)
  {}

  lemma PollAndClaimClean()
    ensures Clean(PollEvent(), Empty) && Clean(SlotClaim(), Empty)
  {}

  lemma FireEventClean(held: Stack)
    requires InSession(held)
    ensures Clean(FireEvent(), held)
  {
    CalledBackClean(held);
  }

  lemma ReceivedInputClean(held: Stack)
    requires InSession(held)
    ensures Clean(ReceivedInput(), held)
  {
    FireEventClean(held);
    CalledBackClean(held);
  }

  /** The library may call back with or without the session lock held. */
  lemma LibraryClean(held: Stack, base: Stack)
    requires InSession(held)
    ensures Check(LibraryCallbacks(), held, base) == Falls(held)
  {
    FireEventClean(held);
    CalledBackClean(held);
    ReceivedInputClean(held);
  }

  lemma LeftClean()
    ensures Clean(ViewerLeft(), Empty)
  {
    LibraryClean(Push(SessionLock, Empty), Empty);
  }

  lemma SendFrameClean()
    ensures Clean(SendH264(), Empty)
  {
    LibraryClean(Push(SessionLock, Empty), Empty);
  }

  lemma WebRtcShutdownClean()
    ensures Clean(WebRtcShutdown(), Empty)
  {
    LeftClean();
  }

  lemma CreateClean()
    ensures Clean(CreateSession(), Empty)
  {
    LibraryClean(Empty, Empty);
    LockAtTheEnd(LibraryCallbacks());
  }

  lemma LockAtTheEnd(before: Code)
    requires Check(before, Empty, Empty) == Falls(Empty)
    ensures Clean(Then(before, Then(Lock(SessionLock), Done(SessionLock))), Empty)
  {
    var after := Then(Lock(SessionLock), Done(SessionLock));
    assert Check(after, Empty, Empty) == Ends;
    assert Check(Then(before, after), Empty, Empty) == Ends;
  }

  lemma JoinClean()
    ensures Clean(ViewerJoined(), Empty)
  {
    CreateClean();
  }

  lemma HandleSignalingClean()
    ensures Clean(HandleSignaling(), Empty)
  {
    LibraryClean(Push(SessionLock, Empty), Empty);
  }

  lemma EstablishedClean()
    ensures Clean(OnEstablished(), Empty)
  {
    JoinClean();
  }

  lemma ClosedClean()
    ensures Clean(OnClosed(), Empty) && Clean(SignalingShutdown(), Empty)
  {
    LeftClean();
    assert Clean(OnClosed(), Empty);
  }

  lemma ReceiveClean()
    ensures Clean(OnReceive(), Empty)
  {
    AfterReceiveClean();
    UnlockThenCallOut(CallOut());
  }

  /** Code that locks, may bail out, and unlocks before it goes on is as clean as what follows. */
  lemma UnlockThenCallOut(rest: Code)
    requires Check(rest, Empty, Empty) == Falls(Empty)
    ensures Clean(Then(Lock(WsLock), Then(Bail(WsLock), Then(Unlock(WsLock), rest))), Empty)
  {
    var held := Push(WsLock, Empty);
    var unlocking := Then(Unlock(WsLock), rest);
    assert Check(unlocking, held, Empty) == Falls(Empty);
    assert Check(Bail(WsLock), held, Empty) == Falls(held);
    var bailing := Then(Bail(WsLock), unlocking);
    assert Check(bailing, held, Empty) == Falls(Empty);
    assert Check(Then(Lock(WsLock), bailing), Empty, Empty) == Falls(Empty);
  }

  /** What the receive callback does once it has unlocked. */
  lemma AfterReceiveClean()
    ensures Check(CallOut(), Empty, Empty) == Falls(Empty)
  {
    HandleSignalingClean();
    FireEventClean(Empty);
  }

  lemma ServiceClean()
    ensures Clean(ServiceThread(), Empty)
  {
    EstablishedClean();
    ClosedClean();
    ReceiveClean();
  }

  lemma DisconnectClean()
    ensures Clean(Disconnect(), Empty)
  {
    FreeingClean(Push(ViewerLock, Empty));
  }

  lemma SettingClean()
    ensures Clean(ViewerSetting(), Empty)
  {}

  lemma LifecycleClean()
    ensures Clean(SdkInit(), Empty) && Clean(SdkShutdown(), Empty)
  {
    WebRtcShutdownClean();
    InputOpsClean();
    ClosedClean();
    assert Clean(Unwind(), Empty);
  }

  predicate OperationClean(op: Operation) { Clean(Body(op), Empty) }

  lemma EventsClean(op: Operation)
    requires op.OpEventCallback? || op.OpPollEvent? || op.OpFireEvent? || op.OpSend? || op.OpReceivedInput?
    ensures OperationClean(op)
  {
    match op
    case OpEventCallback => CalledBackClean(Empty);
    case OpPollEvent => PollAndClaimClean();
    case OpFireEvent => FireEventClean(Empty);
    case OpSend => CalledBackClean(Empty);
    case OpReceivedInput => ReceivedInputClean(Empty);
  }

  lemma SlotsClean(op: Operation)
    requires op.OpSlotClaim? || op.OpSlotRelease? || op.OpFreeSlot?
    ensures OperationClean(op)
  {
    match op
    case OpSlotClaim => PollAndClaimClean();
    case OpSlotRelease => FreeingClean(Empty);
    case OpFreeSlot => FreeingClean(Empty);
  }

  lemma DevicesClean(op: Operation)
    requires op.OpInputShutdown? || op.OpAllocSlot? || op.OpSubmitGamepad? || op.OpSubmitKbm? || op.OpFlushSlot?
    ensures OperationClean(op)
  {
    match op
    case OpInputShutdown => InputOpsClean();
    case OpAllocSlot => InputOpsClean();
    case OpSubmitGamepad => CalledBackClean(Empty);
    case OpSubmitKbm => InputOpsClean();
    case OpFlushSlot => InputOpsClean();
  }

  lemma OpSendH264Clean(op: Operation)
    requires op == OpSendH264
    ensures OperationClean(op)
  {
    SendFrameClean();
  }

  lemma OpViewerJoinedClean(op: Operation)
    requires op == OpViewerJoined
    ensures OperationClean(op)
  {
    JoinClean();
  }

  lemma OpViewerLeftClean(op: Operation)
    requires op == OpViewerLeft
    ensures OperationClean(op)
  {
    LeftClean();
  }

  lemma OpHandleSignalingClean(op: Operation)
    requires op == OpHandleSignaling
    ensures OperationClean(op)
  {
    HandleSignalingClean();
  }

  lemma OpWebRtcShutdownClean(op: Operation)
    requires op == OpWebRtcShutdown
    ensures OperationClean(op)
  {
    WebRtcShutdownClean();
  }

  lemma OpEstablishedClean(op: Operation)
    requires op == OpEstablished
    ensures OperationClean(op)
  {
    EstablishedClean();
  }

  lemma OpClosedClean(op: Operation)
    requires op == OpClosed
    ensures OperationClean(op)
  {
    ClosedClean();
  }

  lemma OpReceiveClean(op: Operation)
    requires op == OpReceive
    ensures OperationClean(op)
  {
    ReceiveClean();
  }

  lemma OpServiceClean(op: Operation)
    requires op == OpService
    ensures OperationClean(op)
  {
    ServiceClean();
  }

  lemma OpSignalingShutdownClean(op: Operation)
    requires op == OpSignalingShutdown
    ensures OperationClean(op)
  {
    ClosedClean();
  }

  lemma OpDisconnectClean(op: Operation)
    requires op == OpDisconnect
    ensures OperationClean(op)
  {
    DisconnectClean();
  }

  lemma OpViewerSettingClean(op: Operation)
    requires op == OpViewerSetting
    ensures OperationClean(op)
  {
    SettingClean();
  }

  lemma OpInitClean(op: Operation)
    requires op == OpInit
    ensures OperationClean(op)
  {
    LifecycleClean();
  }

  lemma OpShutdownClean(op: Operation)
    requires op == OpShutdown
    ensures OperationClean(op)
  {
    LifecycleClean();
  }

  /** Every operation passes the check: each return path releases what it took. */
  lemma EveryOperationClean(op: Operation)
    ensures Clean(Body(op), Empty)
  {
    assert OperationClean(op) by {
      match op
      case OpEventCallback => EventsClean(op);
      case OpPollEvent => EventsClean(op);
      case OpFireEvent => EventsClean(op);
      case OpSlotClaim => SlotsClean(op);
      case OpSlotRelease => SlotsClean(op);
      case OpInputShutdown => DevicesClean(op);
      case OpAllocSlot => DevicesClean(op);
      case OpFreeSlot => SlotsClean(op);
      case OpSubmitGamepad => DevicesClean(op);
      case OpSubmitKbm => DevicesClean(op);
      case OpFlushSlot => DevicesClean(op);
      case OpSend => EventsClean(op);
      case OpReceivedInput => EventsClean(op);
      case OpSendH264 => OpSendH264Clean(op);
      case OpViewerJoined => OpViewerJoinedClean(op);
      case OpViewerLeft => OpViewerLeftClean(op);
      case OpHandleSignaling => OpHandleSignalingClean(op);
      case OpWebRtcShutdown => OpWebRtcShutdownClean(op);
      case OpEstablished => OpEstablishedClean(op);
      case OpClosed => OpClosedClean(op);
      case OpReceive => OpReceiveClean(op);
      case OpService => OpServiceClean(op);
      case OpSignalingShutdown => OpSignalingShutdownClean(op);
      case OpDisconnect => OpDisconnectClean(op);
      case OpViewerSetting => OpViewerSettingClean(op);
      case OpInit => OpInitClean(op);
      case OpShutdown => OpShutdownClean(op);
    }
  }

  // ---------------------------------------------------------------- the theorem

  /** `t` is a trace of the operations `ops`, one after the other. */
  ghost predicate Performs(ops: seq<Operation>, t: seq<Action>)
    decreases |ops|
  {
    if ops == [] then t == []
    else exists k | 0 <= k <= |t| :: Runs(Call(Body(ops[0])), t[..k], false) && Performs(ops[1..], t[k..])
  }

  lemma {:induction false} PerformsOrderly(ops: seq<Operation>, t: seq<Action>)
    requires Performs(ops, t)
    ensures After({}, t) == Holding({})
    decreases |ops|
  {
    if ops != [] {
      var k :| 0 <= k <= |t| && Runs(Call(Body(ops[0])), t[..k], false) && Performs(ops[1..], t[k..]);
      EveryOperationClean(ops[0]);
      CheckSound(Call(Body(ops[0])), Empty, Empty, t[..k], false);
      PerformsOrderly(ops[1..], t[k..]);
      AfterSplit({}, t, k);
    }
  }

  function Remaining(todo: seq<seq<Action>>): nat {
    if todo == [] then 0 else |todo[0]| + Remaining(todo[1..])
  }

  lemma {:induction false} RemainingDrops(todo: seq<seq<Action>>, t: nat)
    requires t < |todo| && todo[t] != []
    ensures Remaining(todo[t := todo[t][1..]]) == Remaining(todo) - 1
  {
    var rest := todo[t := todo[t][1..]];
    if t == 0 {
      assert rest[1..] == todo[1..];
    } else {
      assert rest[1..] == todo[1..][t - 1 := todo[t][1..]];
      RemainingDrops(todo[1..], t - 1);
    }
  }

  /** From an orderly state some schedule lets every thread finish. */
  lemma {:induction false} CanFinish(s: State) returns (order: seq<nat>)
    requires Orderly(s)
    ensures Schedulable(s, order) && Finished(RunOrder(s, order))
    decreases Remaining(s.todo)
  {
    if Finished(s) {
      order := [];
    } else {
      var t: nat :| t < |s.todo| && s.todo[t] != [];
      SomeoneEnabled(s, t);
      var u :| Enabled(s, u);
      StepOrderly(s, u);
      RemainingDrops(s.todo, u);
      var rest := CanFinish(Next(s, u));
      order := [u] + rest;
      assert order[1..] == rest;
    }
  }

  /** Some thread waits forever: work is left and nobody can move. */
  ghost predicate Deadlocked(s: State) { !Finished(s) && forall u :: !Enabled(s, u) }

  /**
    Any number of threads, each performing any operations in any order, under any schedule:
    no reachable state is deadlocked, every reachable state can still be run to the end, and when
    all are done no lock is held.
   */
  lemma NoDeadlock(programs: seq<seq<Operation>>, todo: seq<seq<Action>>, order: seq<nat>)
    requires |programs| == |todo|
    requires forall t | 0 <= t < |todo| :: Performs(programs[t], todo[t])
    requires Schedulable(State(todo, map[]), order)
    ensures var s := RunOrder(State(todo, map[]), order);
            && !Deadlocked(s)
            && (exists more :: Schedulable(s, more) && Finished(RunOrder(s, more)))
            && (Finished(s) ==> s.owner == map[])
  {
    var s0 := State(todo, map[]);
    StartOrderly(programs, todo);
    RunOrderly(s0, order);
    var s := RunOrder(s0, order);
    var more := CanFinish(s);
    assert Schedulable(s, more) && Finished(RunOrder(s, more));
    if !Finished(s) {
      var t: nat :| t < |s.todo| && s.todo[t] != [];
      SomeoneEnabled(s, t);
    } else {
      FinishedHoldsNothing(s);
    }
  }

  /** Under any schedule, a thread about to take `m` while it holds `h` does one of the five nestings. */
  lemma OnlyTheseNestings(programs: seq<seq<Operation>>, todo: seq<seq<Action>>, order: seq<nat>, t: nat, h: Mutex)
    requires |programs| == |todo| && t < |todo|
    requires forall u | 0 <= u < |todo| :: Performs(programs[u], todo[u])
    requires Schedulable(State(todo, map[]), order)
    ensures var s := RunOrder(State(todo, map[]), order);
            && |s.todo| == |todo|
            && (s.todo[t] != [] && s.todo[t][0].Acquire? && h in HeldBy(s, t) ==> Nests(h, s.todo[t][0].m))
  {
    var s0 := State(todo, map[]);
    StartOrderly(programs, todo);
    RunOrderly(s0, order);
    var s := RunOrder(s0, order);
    assert After(HeldBy(s, t), s.todo[t]) == Holding({});
  }

  lemma StartOrderly(programs: seq<seq<Operation>>, todo: seq<seq<Action>>)
    requires |programs| == |todo| && forall t | 0 <= t < |todo| :: Performs(programs[t], todo[t])
    ensures Orderly(State(todo, map[]))
  {
    var s0 := State(todo, map[]);
    forall t: nat | t < |todo| ensures After(HeldBy(s0, t), todo[t]) == Holding({}) {
      PerformsOrderly(programs[t], todo[t]);
      assert HeldBy(s0, t) == {};
    }
  }

  lemma FinishedHoldsNothing(s: State)
    requires Orderly(s) && Finished(s)
    ensures s.owner == map[]
  {
    forall t: nat | t < |s.todo| ensures HeldBy(s, t) == {} {
      assert After(HeldBy(s, t), s.todo[t]) == Holding({});
    }
    forall m ensures m !in s.owner {
      assert m in s.owner ==> m in HeldBy(s, s.owner[m]);
    }
  }
}
