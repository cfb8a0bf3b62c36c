/**
  The viewer table of src/signaling.c and the session vector of src/webrtc.cpp as one state
  machine.  Each callback of the service thread is one step.  The network side hands out
  connection handles: distinct while live, reusable after they close.

  Every connection gets a serial number when it is established, and a session records the serial
  for which it was made (`birth`).  No decision reads either; they say whose session a session is.
 */
module Registry {
  import opened CStrings
  import opened Limits
  import opened Messages
  import Delivery
  import Unescape

  /** A socket handle; `NO_CONN` is the null pointer. */
  type Conn = nat
  const NO_CONN: Conn := 0

  datatype Session = Session(viewerIdx: int, birth: nat)

  datatype Server = Server(up: bool, host: Conn, table: seq<Conn>, num: int, sessions: seq<Session>)

  /** The table as `signaling_shutdown` leaves it. */
  function EmptyTable(): (t: seq<Conn>)
    ensures |t| == MAX_VIEWERS && forall i | 0 <= i < |t| :: t[i] == NO_CONN
  {
    seq(MAX_VIEWERS, _ => NO_CONN)
  }

  function Off(): Server { Server(false, NO_CONN, EmptyTable(), 0, []) }

  /** The first position of `x`, or the length of the table. */
  function FirstIndex(t: seq<Conn>, x: Conn): (i: nat)
    ensures i <= |t| && (i < |t| ==> t[i] == x)
    ensures forall j | 0 <= j < i :: t[j] != x
  {
    if t == [] || t[0] == x then 0 else 1 + FirstIndex(t[1..], x)
  }

  function Occupied(t: seq<Conn>): nat {
    if t == [] then 0 else (if t[0] == NO_CONN then 0 else 1) + Occupied(t[1..])
  }

  /** `session_idx_for_viewer`: the first session of a viewer, or the length of the vector. */
  function SessionIndex(ss: seq<Session>, idx: int): (k: nat)
    ensures k <= |ss| && (k < |ss| ==> ss[k].viewerIdx == idx)
    ensures forall j | 0 <= j < k :: ss[j].viewerIdx != idx
  {
    if ss == [] || ss[0].viewerIdx == idx then 0 else 1 + SessionIndex(ss[1..], idx)
  }

  /** The vector after the first session of a viewer is erased. */
  function Without(ss: seq<Session>, idx: int): seq<Session> {
    if ss == [] then []
    else if ss[0].viewerIdx == idx then ss[1..]
    else [ss[0]] + Without(ss[1..], idx)
  }

  // ---------------------------------------------------------------- the callbacks

  function ViewerJoined(s: Server, idx: int, birth: nat): Server {
    if s.up then s.(sessions := s.sessions + [Session(idx, birth)]) else s
  }

  function ViewerLeft(s: Server, idx: int): Server {
    s.(sessions := Without(s.sessions, idx))
  }

  /** LWS_CALLBACK_ESTABLISHED. */
  function Established(s: Server, conn: Conn, uri: string, birth: nat): Server {
    if Contains(uri, "/host") then s.(host := conn)
    else
      var i := FirstIndex(s.table, NO_CONN);
      if i == |s.table| then s
      else ViewerJoined(s.(table := s.table[i := conn], num := s.num + 1), i, birth)
  }

  /** LWS_CALLBACK_CLOSED. */
  function Closed(s: Server, conn: Conn): Server {
    if conn == s.host then s.(host := NO_CONN)
    else
      var i := FirstIndex(s.table, conn);
      if i == |s.table| then s
      else ViewerLeft(s.(table := s.table[i := NO_CONN], num := s.num - 1), i)
  }

  datatype SignalEvent = SignalEvent(viewerId: string, data: string)

  /** What became of a received message: the session it met, what that did, the event fired. */
  datatype Receipt = Receipt(session: Option<Session>, verdict: Verdict, event: Option<SignalEvent>)

  /** The receive buffer as a C string. */
  function RxText(bytes: string): string { CStr(Take(bytes, 4095)) }

  /** `webrtc_handle_signaling`: the session a message meets and what is done with it. */
  function HandleSignaling(ss: seq<Session>, id: string, data: string): (Option<Session>, Verdict) {
    match ScanViewerId(id)
    case None => (None, Rejected)
    case Some(idx) =>
      if idx < 0 then (None, Rejected)
      else
        var k := SessionIndex(ss, idx);
        if k == |ss| then (None, Rejected) else (Some(ss[k]), Handle(data))
  }

  /** LWS_CALLBACK_RECEIVE. */
  function Receive(s: Server, conn: Conn, bytes: string): Receipt {
    var rx := RxText(bytes);
    if conn == s.host then Receipt(None, NoAction, Some(SignalEvent("host", Take(rx, 2047))))
    else
      var i := FirstIndex(s.table, conn);
      if i == |s.table| then Receipt(None, NoAction, None)
      else
        var met := HandleSignaling(s.sessions, ViewerId(i), rx);
        Receipt(met.0, met.1, Some(SignalEvent(ViewerId(i), Take(rx, 2047))))
  }

  /** `viewer_ws_by_id`. */
  function ConnById(t: seq<Conn>, id: string): Conn {
    match ScanViewerId(id)
    case Some(idx) => if 0 <= idx < |t| then t[idx] else NO_CONN
    case None => NO_CONN
  }

  /** Where `signaling_send_to_viewer` writes; `NO_CONN` when it writes nothing. */
  function SendTarget(s: Server, id: string): Conn { ConnById(s.table, id) }

  /** Where `signaling_send_answer` and `signaling_send_ice` write: the host stands in. */
  function ReplyTarget(s: Server, id: Option<string>): Conn {
    if id.None? || id.value == "host" || ConnById(s.table, id.value) == NO_CONN
    then s.host else ConnById(s.table, id.value)
  }

  // ---------------------------------------------------------------- runs

  /** The server together with the live connections and their serials. */
  datatype World = World(server: Server, live: map<Conn, nat>, next: nat)

  datatype Event =
    | Connect(conn: Conn, uri: string)
    | Close(conn: Conn)
    | Message(conn: Conn, bytes: string)
    | Start
    | Stop

  /** What the network and the caller may do next. */
  predicate Permitted(w: World, e: Event) {
    match e
    case Connect(conn, _) => w.server.up && conn != NO_CONN && conn !in w.live
    case Close(conn) => conn in w.live
    case Message(conn, _) => conn in w.live
    case Start => !w.server.up
    case Stop => true
  }

  function Step(w: World, e: Event): World {
    match e
    case Connect(conn, uri) =>
      World(Established(w.server, conn, uri, w.next), w.live[conn := w.next], w.next + 1)
    case Close(conn) => w.(server := Closed(w.server, conn), live := w.live - {conn})
    case Message(_, _) => w
    case Start => w.(server := w.server.(up := true))
    case Stop => World(Off(), map[], w.next)
  }

  predicate Feasible(w: World, es: seq<Event>)
    decreases |es|
  {
    es == [] || (Permitted(w, es[0]) && Feasible(Step(w, es[0]), es[1..]))
  }

  function Run(w: World, es: seq<Event>): World
    decreases |es|
  {
    if es == [] then w else Run(Step(w, es[0]), es[1..])
  }

  function Boot(): World { World(Off(), map[], 0) }

  // ---------------------------------------------------------------- the invariant

  /** All sessions of one viewer index, in order. */
  function SessionsFor(ss: seq<Session>, idx: int): seq<Session> {
    if ss == [] then []
    else if ss[0].viewerIdx == idx then [ss[0]] + SessionsFor(ss[1..], idx)
    else SessionsFor(ss[1..], idx)
  }

  /** The counter counts, no handle is stored twice and the host is not a viewer. */
  ghost predicate TableInv(s: Server) {
    && |s.table| == MAX_VIEWERS
    && s.num == Occupied(s.table)
    && (forall i, j | 0 <= i < j < |s.table| :: s.table[i] == s.table[j] ==> s.table[i] == NO_CONN)
    && (s.host != NO_CONN ==> s.host !in s.table)
  }

  /** Everything stored is live, and live connections have different serials. */
  ghost predicate LiveInv(w: World) {
    && NO_CONN !in w.live
    && (forall i | 0 <= i < |w.server.table| :: w.server.table[i] == NO_CONN || w.server.table[i] in w.live)
    && (w.server.host != NO_CONN ==> w.server.host in w.live)
    && (forall c | c in w.live :: w.live[c] < w.next)
    && (forall c, d | c in w.live && d in w.live && w.live[c] == w.live[d] :: c == d)
  }

  /** The sessions index `i` ought to have: one, made for the connection stored there, or none. */
  function OughtToHave(w: World, i: nat): seq<Session>
    requires i < |w.server.table|
  {
    var c := w.server.table[i];
    if c in w.live then [Session(i, w.live[c])] else []
  }

  ghost predicate InStep(w: World) {
    && (forall i: nat | i < |w.server.table| :: SessionsFor(w.server.sessions, i) == OughtToHave(w, i))
    && (forall x <- w.server.sessions :: 0 <= x.viewerIdx < |w.server.table|)
    && (!w.server.up ==> w.server.table == EmptyTable())
  }

  ghost predicate Inv(w: World) { TableInv(w.server) && LiveInv(w) && InStep(w) }

  // ---------------------------------------------------------------- sequences

  lemma {:induction false} OccupiedUpdate(t: seq<Conn>, i: nat, c: Conn)
    requires i < |t|
    ensures Occupied(t[i := c]) ==
            Occupied(t) + (if c == NO_CONN then 0 else 1) - (if t[i] == NO_CONN then 0 else 1)
  {
    var u := t[i := c];
    if i == 0 {
      assert u[1..] == t[1..];
    } else {
      assert u[1..] == t[1..][i - 1 := c];
      OccupiedUpdate(t[1..], i - 1, c);
    }
  }

  lemma {:induction false} OccupiedBounds(t: seq<Conn>)
    ensures Occupied(t) <= |t|
    ensures Occupied(t) == |t| <==> NO_CONN !in t
    ensures Occupied(t) == 0 <==> forall i | 0 <= i < |t| :: t[i] == NO_CONN
  {
    if t != [] {
      OccupiedBounds(t[1..]);
      assert t == [t[0]] + t[1..];
    }
  }

  lemma {:induction false} SessionsForAppend(ss: seq<Session>, x: Session, idx: int)
    ensures SessionsFor(ss + [x], idx) == SessionsFor(ss, idx) + (if x.viewerIdx == idx then [x] else [])
  {
    if ss == [] {
      assert ss + [x] == [x];
      assert [x][1..] == [];
    } else {
      assert (ss + [x])[1..] == ss[1..] + [x];
      SessionsForAppend(ss[1..], x, idx);
    }
  }

  lemma {:induction false} SessionsForWithout(ss: seq<Session>, gone: int, idx: int)
    ensures var f := SessionsFor(ss, idx);
            SessionsFor(Without(ss, gone), idx) == if idx == gone && f != [] then f[1..] else f
  {
    if ss != [] {
      if ss[0].viewerIdx == gone {
        assert Without(ss, gone) == ss[1..];
      } else {
        SessionsForWithout(ss[1..], gone, idx);
      }
    }
  }

  /** Finding the first session is finding the head of the filtered vector. */
  lemma {:induction false} SessionIndexIsHead(ss: seq<Session>, idx: int)
    ensures var k := SessionIndex(ss, idx);
            var f := SessionsFor(ss, idx);
            && (k == |ss| <==> f == [])
            && (k < |ss| ==> ss[k] == f[0])
  {
    if ss != [] && ss[0].viewerIdx != idx { SessionIndexIsHead(ss[1..], idx); }
  }

  lemma {:induction false} SessionInFilter(ss: seq<Session>, x: Session)
    requires x in ss
    ensures x in SessionsFor(ss, x.viewerIdx)
  {
    if ss[0] != x { SessionInFilter(ss[1..], x); }
  }

  lemma {:induction false} WithoutKeeps(ss: seq<Session>, idx: int)
    ensures forall x <- Without(ss, idx) :: x in ss
  {
    if ss != [] && ss[0].viewerIdx != idx { WithoutKeeps(ss[1..], idx); }
  }

  // ---------------------------------------------------------------- every step keeps the invariant

  /** Storing a new live handle in a free entry. */
  lemma StoreKeepsTable(s: Server, i: nat, conn: Conn)
    requires TableInv(s) && i < |s.table| && s.table[i] == NO_CONN
    requires conn != NO_CONN && conn !in s.table && conn != s.host
    ensures TableInv(s.(table := s.table[i := conn], num := s.num + 1))
  {
    OccupiedUpdate(s.table, i, conn);
  }

  lemma ClearKeepsTable(s: Server, i: nat)
    requires TableInv(s) && i < |s.table| && s.table[i] != NO_CONN
    ensures TableInv(s.(table := s.table[i := NO_CONN], num := s.num - 1))
  {
    OccupiedUpdate(s.table, i, NO_CONN);
  }

  lemma JoinKeepsStep(w: World, i: nat, conn: Conn)
    requires Inv(w) && w.server.up && i < |w.server.table| && w.server.table[i] == NO_CONN
    requires conn != NO_CONN && conn !in w.live
    ensures InStep(World(ViewerJoined(w.server.(table := w.server.table[i := conn], num := w.server.num + 1), i, w.next),
                         w.live[conn := w.next], w.next + 1))
  {
    var s := w.server;
    forall j: nat | j < |s.table|
      ensures SessionsFor(s.sessions + [Session(i, w.next)], j) ==
              if j == i then [Session(i, w.next)] else OughtToHave(w, j)
    {
      SessionsForAppend(s.sessions, Session(i, w.next), j);
      assert SessionsFor(s.sessions, j) == OughtToHave(w, j);
    }
  }

  lemma LeaveKeepsStep(w: World, i: nat, conn: Conn)
    requires Inv(w) && i < |w.server.table| && w.server.table[i] == conn && conn in w.live
    ensures InStep(World(ViewerLeft(w.server.(table := w.server.table[i := NO_CONN], num := w.server.num - 1), i),
                         w.live - {conn}, w.next))
  {
    var s := w.server;
    WithoutKeeps(s.sessions, i);
    forall j: nat | j < |s.table|
      ensures SessionsFor(Without(s.sessions, i), j) == if j == i then [] else OughtToHave(w, j)
    {
      SessionsForWithout(s.sessions, i, j);
      assert SessionsFor(s.sessions, j) == OughtToHave(w, j);
    }
  }

  lemma ConnectKeeps(w: World, conn: Conn, uri: string)
    requires Inv(w) && Permitted(w, Connect(conn, uri))
    ensures Inv(Step(w, Connect(conn, uri)))
  {
    var s := w.server;
    assert conn !in s.table;
    if !Contains(uri, "/host") {
      var i := FirstIndex(s.table, NO_CONN);
      if i < |s.table| {
        StoreKeepsTable(s, i, conn);
        JoinKeepsStep(w, i, conn);
      }
    }
  }

  lemma CloseKeeps(w: World, conn: Conn)
    requires Inv(w) && Permitted(w, Close(conn))
    ensures Inv(Step(w, Close(conn)))
  {
    var s := w.server;
    if conn != s.host {
      var i := FirstIndex(s.table, conn);
      if i < |s.table| {
        ClearKeepsTable(s, i);
        LeaveKeepsStep(w, i, conn);
      }
    }
  }

  lemma StepKeeps(w: World, e: Event)
    requires Inv(w) && Permitted(w, e)
    ensures Inv(Step(w, e))
  {
    OccupiedBounds(EmptyTable());
    match e
    case Connect(conn, uri) => ConnectKeeps(w, conn, uri);
    case Close(conn) => CloseKeeps(w, conn);
    case Message(_, _) =>
    case Start =>
    case Stop =>
  }

  lemma {:induction false} RunKeeps(w: World, es: seq<Event>)
    requires Inv(w) && Feasible(w, es)
    ensures Inv(Run(w, es))
    decreases |es|
  {
    if es != [] {
      StepKeeps(w, es[0]);
      RunKeeps(Step(w, es[0]), es[1..]);
    }
  }

  // ---------------------------------------------------------------- the theorems

  ghost predicate Reachable(w: World) {
    exists es :: Feasible(Boot(), es) && w == Run(Boot(), es)
  }

  /** A stopped server with nobody connected. */
  lemma QuietInv(next: nat)
    ensures Inv(World(Off(), map[], next))
  {
    OccupiedBounds(EmptyTable());
  }

  lemma ReachableInv(w: World)
    requires Reachable(w)
    ensures Inv(w)
  {
    var es :| Feasible(Boot(), es) && w == Run(Boot(), es);
    QuietInv(0);
    RunKeeps(Boot(), es);
  }

  /**
    In every reachable state an index holds a socket exactly when it has exactly one session,
    and that session was made for the connection now stored there.
   */
  lemma TableAndSessionsInStep(w: World, i: nat)
    requires Reachable(w) && i < MAX_VIEWERS
    ensures |w.server.table| == MAX_VIEWERS
    ensures var c := w.server.table[i];
            var f := SessionsFor(w.server.sessions, i);
            if c == NO_CONN then f == [] else c in w.live && f == [Session(i, w.live[c])]
  {
    ReachableInv(w);
  }

  /** Sessions belong to live, registered connections, one each. */
  lemma NoStraySession(w: World, x: Session)
    requires Reachable(w) && x in w.server.sessions
    ensures 0 <= x.viewerIdx < |w.server.table|
    ensures w.server.table[x.viewerIdx] in w.live && w.live[w.server.table[x.viewerIdx]] == x.birth
    ensures SessionsFor(w.server.sessions, x.viewerIdx) == [x]
  {
    ReachableInv(w);
    SessionInFilter(w.server.sessions, x);
    var i: nat := x.viewerIdx;
    assert SessionsFor(w.server.sessions, i) == OughtToHave(w, i);
  }

  /** The counter, the bound, and no handle in two places. */
  lemma CounterCounts(w: World)
    requires Reachable(w)
    ensures w.server.num == Occupied(w.server.table) <= 64 == |w.server.table|
    ensures forall i, j | 0 <= i < j < |w.server.table| && w.server.table[i] == w.server.table[j] ::
              w.server.table[i] == NO_CONN
    ensures w.server.host != NO_CONN ==> w.server.host !in w.server.table
  {
    ReachableInv(w);
    OccupiedBounds(w.server.table);
  }

  /**
    A message from a registered viewer meets the session of its own connection and no other; one
    from the host or from an unregistered socket meets none, and an unregistered socket fires no
    event either.
   */
  lemma MessageMeetsOwnSession(w: World, conn: Conn, bytes: string)
    requires Inv(w) && conn in w.live
    ensures var r := Receive(w.server, conn, bytes);
            if conn in w.server.table then
              var i := FirstIndex(w.server.table, conn);
              && r.session == Some(Session(i, w.live[conn]))
              && r.verdict == Handle(RxText(bytes))
              && r.event == Some(SignalEvent(ViewerId(i), Take(RxText(bytes), 2047)))
            else
              && r.session == None && r.verdict == NoAction
              && r.event == if conn == w.server.host then Some(SignalEvent("host", Take(RxText(bytes), 2047))) else None
  {
    var i := FirstIndex(w.server.table, conn);
    if conn in w.server.table { IndexMeetsItsSession(w, i, RxText(bytes)); }
  }

  /** The printed index leads back to the one session of the connection stored there. */
  lemma IndexMeetsItsSession(w: World, i: nat, data: string)
    requires Inv(w) && i < MAX_VIEWERS && w.server.table[i] in w.live
    ensures HandleSignaling(w.server.sessions, ViewerId(i), data) ==
            (Some(Session(i, w.live[w.server.table[i]])), Handle(data))
  {
    ViewerIdRoundTrip(i);
    SessionIndexIsHead(w.server.sessions, i);
    assert SessionsFor(w.server.sessions, i) == OughtToHave(w, i);
  }

  /** Only a live connection with that serial can ever have its messages meet a given session. */
  lemma SessionHearsOneConnection(w: World, conn: Conn, bytes: string, x: Session)
    requires Reachable(w) && conn in w.live
    requires Receive(w.server, conn, bytes).session == Some(x)
    ensures x in w.server.sessions && x.birth == w.live[conn]
    ensures forall c | c in w.live && w.live[c] == x.birth :: c == conn
  {
    ReachableInv(w);
    MessageMeetsOwnSession(w, conn, bytes);
    var i := FirstIndex(w.server.table, conn);
    SessionIndexIsHead(w.server.sessions, i);
    assert SessionsFor(w.server.sessions, i) == OughtToHave(w, i);
  }

  /** Who sent a delivered message, and for whom the session it met was made. */
  datatype Met = Met(sender: nat, birth: nat)

  /** Every delivery of a run, in order. */
  function Deliveries(w: World, es: seq<Event>): seq<Met>
    decreases |es|
  {
    if es == [] then []
    else
      (if es[0].Message? && es[0].conn in w.live && Receive(w.server, es[0].conn, es[0].bytes).session.Some?
       then [Met(w.live[es[0].conn], Receive(w.server, es[0].conn, es[0].bytes).session.value.birth)]
       else [])
      + Deliveries(Step(w, es[0]), es[1..])
  }

  /** Over every run, through any reuse of indexes and handles, no message meets a foreign session. */
  lemma {:induction false} NoForeignDelivery(w: World, es: seq<Event>)
    requires Inv(w) && Feasible(w, es)
    ensures forall d <- Deliveries(w, es) :: d.sender == d.birth
    decreases |es|
  {
    if es != [] {
      StepKeeps(w, es[0]);
      NoForeignDelivery(Step(w, es[0]), es[1..]);
      if es[0].Message? { MessageMeetsOwnSession(w, es[0].conn, es[0].bytes); }
    }
  }

  /** What a session sends goes to the socket of the connection it was made for. */
  lemma SessionSendsToOwnSocket(w: World, x: Session)
    requires Reachable(w) && x in w.server.sessions
    ensures 0 <= x.viewerIdx < MAX_VIEWERS
    ensures var target := SendTarget(w.server, ViewerId(x.viewerIdx));
            && target in w.live && w.live[target] == x.birth
            && target == ReplyTarget(w.server, Some(ViewerId(x.viewerIdx)))
  {
    NoStraySession(w, x);
    ReachableInv(w);
    ViewerIdRoundTrip(x.viewerIdx);
  }

  /** A reply to a viewer goes to the socket at its index, to the host when there is none or none is named. */
  lemma RepliesGoToViewerOrHost(w: World, i: nat)
    requires Reachable(w) && i < MAX_VIEWERS
    ensures |w.server.table| == MAX_VIEWERS
    ensures var c := w.server.table[i];
            ReplyTarget(w.server, Some(ViewerId(i))) == if c != NO_CONN then c else w.server.host
    ensures ReplyTarget(w.server, None) == w.server.host == ReplyTarget(w.server, Some("host"))
  {
    ReachableInv(w);
    ViewerIdRoundTrip(i);
  }

  /** A new viewer gets the lowest free index, a full table and a new host change no entry. */
  lemma WhereViewersGo(w: World, conn: Conn, uri: string)
    requires Reachable(w) && Permitted(w, Connect(conn, uri))
    ensures var s, s' := w.server, Established(w.server, conn, uri, w.next);
            if Contains(uri, "/host") || s.num == MAX_VIEWERS
            then s'.table == s.table && s'.num == s.num && s'.sessions == s.sessions
            else exists i ::
              && 0 <= i < |s.table| && s.table[i] == NO_CONN
              && (forall j | 0 <= j < i :: s.table[j] != NO_CONN)
              && s' == Server(true, s.host, s.table[i := conn], s.num + 1, s.sessions + [Session(i, w.next)])
  {
    ReachableInv(w);
    OccupiedBounds(w.server.table);
    var i := FirstIndex(w.server.table, NO_CONN);
    assert i == |w.server.table| <==> w.server.num == MAX_VIEWERS;
  }

  /** The run neither closes `h` nor stops the SDK. */
  predicate Outlasts(es: seq<Event>, h: Conn) {
    forall e <- es :: e != Close(h) && e != Stop
  }

  lemma StepStaysOut(w: World, e: Event, h: Conn)
    requires Inv(w) && Permitted(w, e) && e != Close(h) && e != Stop
    requires h in w.live && h !in w.server.table
    ensures h in Step(w, e).live && h !in Step(w, e).server.table
  {}

  /** A live connection that is not in the table stays out of it: only a new connection gets in. */
  lemma {:induction false} StaysOut(w: World, es: seq<Event>, h: Conn)
    requires Inv(w) && Feasible(w, es) && Outlasts(es, h)
    requires h in w.live && h !in w.server.table
    ensures h in Run(w, es).live && h !in Run(w, es).server.table
    decreases |es|
  {
    if es != [] {
      assert es[0] in es;
      assert forall e <- es[1..] :: e in es;
      StepKeeps(w, es[0]);
      StepStaysOut(w, es[0], h);
      StaysOut(Step(w, es[0]), es[1..], h);
    }
  }

  /**
    A connection that came in as host never enters the table while it lives: once another host
    has replaced it, its close changes nothing, after any run.
   */
  lemma ReplacedHostLeavesQuietly(w: World, h: Conn, uri: string, es: seq<Event>)
    requires Reachable(w) && Permitted(w, Connect(h, uri)) && Contains(uri, "/host")
    requires Feasible(Step(w, Connect(h, uri)), es) && Outlasts(es, h)
    ensures var s := Run(Step(w, Connect(h, uri)), es).server;
            && h !in s.table
            && (s.host != h ==> Closed(s, h) == s)
  {
    ReachableInv(w);
    ConnectKeeps(w, h, uri);
    StaysOut(Step(w, Connect(h, uri)), es, h);
  }

  // ---------------------------------------------------------------- who the host is

  lemma {:induction false} RunSnoc(w: World, es: seq<Event>, e: Event)
    ensures Run(w, es + [e]) == Step(Run(w, es), e)
    ensures Feasible(w, es + [e]) <==> Feasible(w, es) && Permitted(Run(w, es), e)
    decreases |es|
  {
    if es == [] {
      assert es + [e] == [e] && [e][1..] == [];
      assert Run(w, [e]) == Run(Step(w, e), []);
    } else {
      assert (es + [e])[1..] == es[1..] + [e];
      RunSnoc(Step(w, es[0]), es[1..], e);
    }
  }

  predicate AsHost(e: Event) { e.Connect? && Contains(e.uri, "/host") }

  /**
    Event `k` of the list brought in the host: nobody came in as host after it, the SDK was not
    stopped and the connection did not close.
   */
  ghost predicate Hosts(es: seq<Event>, k: nat) {
    && k < |es| && AsHost(es[k])
    && forall j | k < j < |es| :: es[j] != Stop && !AsHost(es[j]) && es[j] != Close(es[k].conn)
  }

  /** After one more event, an earlier one still stands exactly when this one does not end it. */
  lemma HostsSnoc(es: seq<Event>, e: Event, k: nat)
    requires k < |es|
    ensures Hosts(es + [e], k) <==> Hosts(es, k) && e != Stop && !AsHost(e) && e != Close(es[k].conn)
  {
    var fs := es + [e];
    assert fs[k] == es[k] && fs[|es|] == e;
    assert forall j | k < j < |es| :: fs[j] == es[j];
    if Hosts(fs, k) {
      forall j | k < j < |es| ensures es[j] != Stop && !AsHost(es[j]) && es[j] != Close(es[k].conn) {
        assert fs[j] == es[j];
      }
    }
  }

  /** `h` is the connection that came in as host and still stands, `NO_CONN` when there is none. */
  ghost predicate HostIs(es: seq<Event>, h: Conn) {
    && (forall k: nat | Hosts(es, k) :: h == es[k].conn)
    && (h != NO_CONN <==> exists k: nat :: Hosts(es, k))
  }

  /**
    Over every run from the start the host is the connection of the last host connect, unless that
    connection has closed or the SDK was stopped since; then there is none.
   */
  lemma {:induction false} HostIsLastHostConnect(es: seq<Event>)
    requires Feasible(Boot(), es)
    ensures HostIs(es, Run(Boot(), es).server.host)
    decreases |es|
  {
    if es != [] {
      var n := |es| - 1;
      var before, e := es[..n], es[n];
      assert es == before + [e];
      RunSnoc(Boot(), before, e);
      HostIsLastHostConnect(before);
      HostStep(Run(Boot(), before), before, e);
    }
  }

  lemma HostStep(w: World, before: seq<Event>, e: Event)
    requires Permitted(w, e) && HostIs(before, w.server.host)
    ensures HostIs(before + [e], Step(w, e).server.host)
  {
    var n := |before|;
    forall k: nat | k < n
      ensures Hosts(before + [e], k) <==> Hosts(before, k) && e != Stop && !AsHost(e) && e != Close(before[k].conn)
    {
      HostsSnoc(before, e, k);
    }
    assert (before + [e])[n] == e;
    assert Hosts(before + [e], n) <==> AsHost(e);
    assert forall k: nat | k < n :: (before + [e])[k] == before[k];
  }

  /** Right after it connects, the host is heard as `host` and gets every reply that names no viewer. */
  lemma NewHostTakesOver(w: World, h: Conn, uri: string, bytes: string)
    requires Reachable(w) && Permitted(w, Connect(h, uri)) && Contains(uri, "/host")
    ensures var s := Step(w, Connect(h, uri)).server;
            && s.host == h && h !in s.table
            && Receive(s, h, bytes).event.Some? && Receive(s, h, bytes).event.value.viewerId == "host"
            && Receive(s, h, bytes).session == None
            && ReplyTarget(s, None) == h == ReplyTarget(s, Some("host"))
  {
    ReachableInv(w);
    ConnectKeeps(w, h, uri);
  }

  // ---------------------------------------------------------------- what a close takes away

  /** A close frees the entry of its own connection and drops its session, or the host; nothing else changes. */
  lemma CloseRemovesExactly(w: World, conn: Conn)
    requires Reachable(w) && conn in w.live
    ensures var s, s' := w.server, Closed(w.server, conn);
            && s'.up == s.up
            && s'.host == (if conn == s.host then NO_CONN else s.host)
            && |s'.table| == |s.table|
            && (forall i | 0 <= i < |s.table| :: s'.table[i] == if s.table[i] == conn then NO_CONN else s.table[i])
            && s'.num == s.num - (if conn in s.table then 1 else 0)
            && (forall i: nat | i < |s.table| ::
                  SessionsFor(s'.sessions, i) == if s.table[i] == conn then [] else SessionsFor(s.sessions, i))
  {
    ReachableInv(w);
    forall i: nat | i < |w.server.table|
      ensures SessionsFor(Closed(w.server, conn).sessions, i) ==
              if w.server.table[i] == conn then [] else SessionsFor(w.server.sessions, i)
    {
      CloseDropsSession(w, conn, i);
    }
  }

  lemma CloseDropsSession(w: World, conn: Conn, i: nat)
    requires Inv(w) && conn in w.live && i < |w.server.table|
    ensures SessionsFor(Closed(w.server, conn).sessions, i) ==
            if w.server.table[i] == conn then [] else SessionsFor(w.server.sessions, i)
  {
    assert SessionsFor(w.server.sessions, i) == OughtToHave(w, i);
    SessionsForWithout(w.server.sessions, FirstIndex(w.server.table, conn), i);
  }

  lemma StepKeepsPlace(w: World, e: Event, i: nat)
    requires Inv(w) && Permitted(w, e) && i < MAX_VIEWERS
    requires w.server.table[i] != NO_CONN && e != Close(w.server.table[i]) && e != Stop
    ensures var w' := Step(w, e);
            && |w'.server.table| == MAX_VIEWERS && w'.server.table[i] == w.server.table[i]
            && w.server.table[i] in w'.live && w'.live[w.server.table[i]] == w.live[w.server.table[i]]
  {}

  /**
    A registered connection keeps its index, and its one session, through everything the others
    do, until it closes or the SDK is stopped.
   */
  lemma {:induction false} KeepsItsPlace(w: World, es: seq<Event>, i: nat)
    requires Inv(w) && Feasible(w, es) && i < MAX_VIEWERS
    requires w.server.table[i] != NO_CONN && Outlasts(es, w.server.table[i])
    ensures var c, w' := w.server.table[i], Run(w, es);
            && |w'.server.table| == MAX_VIEWERS && w'.server.table[i] == c && c in w.live
            && SessionsFor(w'.server.sessions, i) == [Session(i, w.live[c])]
    decreases |es|
  {
    if es == [] {
      assert SessionsFor(w.server.sessions, i) == OughtToHave(w, i);
    } else {
      assert es[0] in es;
      assert forall e <- es[1..] :: e in es;
      StepKeeps(w, es[0]);
      StepKeepsPlace(w, es[0], i);
      KeepsItsPlace(Step(w, es[0]), es[1..], i);
    }
  }

  // ---------------------------------------------------------------- every message, every identifier

  /** `t` is the text before the first NUL of `b`, cut at `n` bytes. */
  predicate TextWithin(t: string, b: string, n: nat) {
    && t <= b && NulFree(t) && |t| <= n
    && (|t| < n && |t| < |b| ==> b[|t|] == NUL)
  }

  /**
    What is heard of a message: the text before its first NUL, cut at 4095 bytes for the session
    and at 2047 for the event; the host's own message and a stranger's reach no session.
   */
  lemma HeardText(w: World, conn: Conn, bytes: string) returns (rx: string)
    requires Inv(w) && conn in w.live
    ensures TextWithin(rx, bytes, 4095)
    ensures var r := Receive(w.server, conn, bytes);
            && (r.event.Some? <==> conn == w.server.host || conn in w.server.table)
            && (r.event.Some? ==> TextWithin(r.event.value.data, bytes, 2047))
            && (r.session.Some? <==> conn in w.server.table)
            && r.verdict == if conn in w.server.table then Handle(rx) else NoAction
  {
    rx := RxText(bytes);
    MessageMeetsOwnSession(w, conn, bytes);
  }

  /** Which session a message for any identifier meets: the first of the number it names, if any. */
  lemma WhichSession(ss: seq<Session>, id: string, data: string)
    ensures var met := HandleSignaling(ss, id, data);
            && (met.0.Some? ==>
                  && met.1 == Handle(data) && Names(id, met.0.value.viewerIdx) && met.0.value.viewerIdx >= 0
                  && exists k ::
                       && 0 <= k < |ss| && ss[k] == met.0.value
                       && forall j | 0 <= j < k :: ss[j].viewerIdx != ss[k].viewerIdx)
            && (met.0.None? ==> met.1 == Rejected && forall x <- ss | x.viewerIdx >= 0 :: !Names(id, x.viewerIdx))
  {
    forall v ensures ScanViewerId(id) == Some(v) <==> Names(id, v) { ScannedIffNamed(id, v); }
  }

  /**
    Where a message for any identifier goes: the entry of the index it names; without one in the
    table nothing is sent, and a reply falls back to the host.
   */
  lemma TargetOfEveryName(w: World, id: string)
    requires Reachable(w)
    ensures |w.server.table| == 64
    ensures forall i | 0 <= i < 64 && Names(id, i) :: SendTarget(w.server, id) == w.server.table[i]
    ensures (forall i | 0 <= i < 64 :: !Names(id, i)) ==> SendTarget(w.server, id) == NO_CONN
    ensures ReplyTarget(w.server, Some(id)) ==
            if SendTarget(w.server, id) != NO_CONN then SendTarget(w.server, id) else w.server.host
  {
    ReachableInv(w);
    forall v ensures ScanViewerId(id) == Some(v) <==> Names(id, v) { ScannedIffNamed(id, v); }
    HostIsNoName();
  }

  lemma HostIsNoName()
    ensures ScanViewerId("host").None?
  {
    assert "host"[0] != VIEWER_PREFIX[0];
  }

  /**
    End to end: an answer of any length, composed by a peer and sent on its own registered
    connection, reaches the session made for that connection as the codec laws say.
   */
  lemma AnswerReachesOwnSession(w: World, conn: Conn, sdp: string)
    requires Reachable(w) && conn in w.live && conn in w.server.table && NulFree(sdp)
    ensures var r := Receive(w.server, conn, Compose(Answer, sdp));
            && r.session.Some? && r.session.value.birth == w.live[conn]
            && r.verdict == SetAnswer(Delivery.Text(Answer, sdp))
            && (r.verdict == SetAnswer(sdp) <==> Unescape.ComesThrough(sdp, Delivery.Room(Answer)))
  {
    ReachableInv(w);
    MessageMeetsOwnSession(w, conn, Compose(Answer, sdp));
    ComposeNulFree(Answer, sdp);
    Delivery.HandleComposed(Answer, sdp);
    Delivery.AnswerDeliveredIff(sdp);
  }
}
