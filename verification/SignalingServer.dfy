/**
  The globals of src/webrtc.cpp and src/signaling.c with the callbacks that update them in
  place.  Every method is proved against the state machine of module `Registry`.
 */
module SignalingServer {
  import opened CStrings
  import opened Limits
  import opened Messages
  import opened Registry

  /** Erasing at the first match is `Without`. */
  lemma {:induction false} EraseIsWithout(ss: seq<Session>, idx: int)
    ensures var k := SessionIndex(ss, idx);
            Without(ss, idx) == if k < |ss| then ss[..k] + ss[k + 1..] else ss
  {
    if ss != [] && ss[0].viewerIdx != idx {
      EraseIsWithout(ss[1..], idx);
      var k := SessionIndex(ss[1..], idx);
      assert ss == [ss[0]] + ss[1..];
      if k < |ss[1..]| {
        assert ss[..k + 1] == [ss[0]] + ss[1..][..k];
        assert ss[k + 2..] == ss[1..][k + 1..];
      }
    }
  }

  lemma SessionIndexIs(ss: seq<Session>, idx: int, k: nat)
    requires k <= |ss| && (k < |ss| ==> ss[k].viewerIdx == idx)
    requires forall j | 0 <= j < k :: ss[j].viewerIdx != idx
    ensures SessionIndex(ss, idx) == k
  {}

  lemma FirstIndexIs(t: seq<Conn>, x: Conn, k: nat)
    requires k <= |t| && (k < |t| ==> t[k] == x)
    requires forall j | 0 <= j < k :: t[j] != x
    ensures FirstIndex(t, x) == k
  {}

  /** src/webrtc.cpp */
  class WebRtc {
    var initialized: bool
    var sessions: seq<Session>

    constructor ()
      ensures !initialized && sessions == []
    {
      initialized, sessions := false, [];
    }

    method Init()
      modifies this
      ensures initialized && sessions == old(sessions)
    {
      initialized := true;
    }

    method Shutdown()
      modifies this
      ensures !initialized && sessions == []
    {
      sessions := [];
      initialized := false;
    }

    /** `session_idx_for_viewer`. */
    method SessionIdxForViewer(viewerIdx: int) returns (k: int)
      ensures k == if SessionIndex(sessions, viewerIdx) < |sessions| then SessionIndex(sessions, viewerIdx) else -1
    {
      for i := 0 to |sessions|
        invariant forall j | 0 <= j < i :: sessions[j].viewerIdx != viewerIdx
      {
        if sessions[i].viewerIdx == viewerIdx {
          SessionIndexIs(sessions, viewerIdx, i);
          return i;
        }
      }
      SessionIndexIs(sessions, viewerIdx, |sessions|);
      k := -1;
    }

    /** `webrtc_viewer_joined`; `birth` is the serial of the connection the viewer came on. */
    method ViewerJoined(viewerIdx: int, birth: nat) returns (rc: int)
      modifies this
      ensures initialized == old(initialized)
      ensures rc == if old(initialized) then 0 else -1
      ensures sessions == if old(initialized) then old(sessions) + [Session(viewerIdx, birth)] else old(sessions)
    {
      if !initialized { return ERR_INIT; }
      sessions := sessions + [Session(viewerIdx, birth)];
      rc := OK;
    }

    /** `webrtc_viewer_left`. */
    method ViewerLeft(viewerIdx: int)
      modifies this
      ensures initialized == old(initialized)
      ensures sessions == Without(old(sessions), viewerIdx)
    {
      EraseIsWithout(sessions, viewerIdx);
      for it := 0 to |sessions|
        invariant sessions == old(sessions) && initialized == old(initialized)
        invariant forall j | 0 <= j < it :: sessions[j].viewerIdx != viewerIdx
      {
        if sessions[it].viewerIdx == viewerIdx {
          SessionIndexIs(sessions, viewerIdx, it);
          sessions := sessions[..it] + sessions[it + 1..];
          return;
        }
      }
      SessionIndexIs(sessions, viewerIdx, |sessions|);
    }

    /** `webrtc_handle_signaling`. */
    method HandleSignaling(viewerId: string, data: string) returns (met: Option<Session>, verdict: Verdict)
      ensures (met, verdict) == Registry.HandleSignaling(sessions, viewerId, data)
    {
      var scanned := ScanViewerId(viewerId);
      if scanned.None? || scanned.value < 0 { return None, Rejected; }
      var k := SessionIdxForViewer(scanned.value);
      if k < 0 { return None, Rejected; }
      met := Some(sessions[k]);
      verdict := HandleMessage(data);
    }
  }

  /** src/signaling.c, with the callbacks of src/nearcade.c wired to the session vector. */
  class Signaling {
    var hostWs: Conn
    const viewerWs: array<Conn>
    var numViewers: int
    const rtc: WebRtc
    /** Every text handed to the network, with the socket it was written to. */
    var sent: seq<(Conn, string)>

    ghost predicate Valid()
      reads this
    {
      viewerWs.Length == MAX_VIEWERS
    }

    ghost function View(): Server
      reads this, viewerWs, rtc
    {
      Server(rtc.initialized, hostWs, viewerWs[..], numViewers, rtc.sessions)
    }

    constructor ()
      ensures Valid() && View() == Off() && sent == []
      ensures fresh(viewerWs) && fresh(rtc)
    {
      hostWs, numViewers, sent := NO_CONN, 0, [];
      viewerWs := new Conn[MAX_VIEWERS](_ => NO_CONN);
      rtc := new WebRtc();
      new;
      assert viewerWs[..] == EmptyTable();
    }

    /** The search loops of the three callbacks: the first entry that holds `x`, or -1. */
    method Find(x: Conn) returns (k: int)
      requires Valid()
      ensures k == if FirstIndex(viewerWs[..], x) < MAX_VIEWERS then FirstIndex(viewerWs[..], x) else -1
    {
      for i := 0 to viewerWs.Length
        invariant forall j | 0 <= j < i :: viewerWs[j] != x
      {
        if viewerWs[i] == x {
          FirstIndexIs(viewerWs[..], x, i);
          return i;
        }
      }
      FirstIndexIs(viewerWs[..], x, viewerWs.Length);
      k := -1;
    }

    method OnEstablished(wsi: Conn, uri: string, birth: nat)
      requires Valid()
      modifies this`hostWs, this`numViewers, viewerWs, rtc
      ensures Valid() && View() == Established(old(View()), wsi, uri, birth)
      ensures hostWs == if Contains(uri, "/host") then wsi else old(hostWs)
    {
      var viewerIdx := -1;
      if Contains(uri, "/host") {
        hostWs := wsi;
      } else {
        viewerIdx := Find(NO_CONN);
        if viewerIdx >= 0 {
          viewerWs[viewerIdx] := wsi;
          numViewers := numViewers + 1;
        }
      }
      if viewerIdx >= 0 {
        assert viewerWs[..] == old(viewerWs[..])[viewerIdx := wsi];
        var _ := rtc.ViewerJoined(viewerIdx, birth);
      }
    }

    method OnClosed(wsi: Conn)
      requires Valid()
      modifies this`hostWs, this`numViewers, viewerWs, rtc
      ensures Valid() && View() == Closed(old(View()), wsi)
    {
      var closedIdx := -1;
      if wsi == hostWs {
        hostWs := NO_CONN;
      } else {
        closedIdx := Find(wsi);
        if closedIdx >= 0 {
          viewerWs[closedIdx] := NO_CONN;
          numViewers := numViewers - 1;
        }
      }
      if closedIdx >= 0 {
        assert viewerWs[..] == old(viewerWs[..])[closedIdx := NO_CONN];
        rtc.ViewerLeft(closedIdx);
      }
    }

    method OnReceive(wsi: Conn, bytes: string) returns (r: Receipt)
      requires Valid()
      ensures r == Receive(View(), wsi, bytes)
    {
      var rx := CStr(Take(bytes, 4095));
      var data := Take(rx, 2047);
      if wsi == hostWs {
        return Receipt(None, NoAction, Some(SignalEvent("host", data)));
      }
      var i := Find(wsi);
      if i < 0 { return Receipt(None, NoAction, None); }
      var id := ViewerId(i);
      var met, verdict := rtc.HandleSignaling(id, rx);
      r := Receipt(met, verdict, Some(SignalEvent(id, data)));
    }

    /** `signaling_shutdown` after `webrtc_shutdown`, as `nearcade_shutdown` orders them. */
    method Shutdown()
      requires Valid()
      modifies this`hostWs, this`numViewers, viewerWs, rtc
      ensures Valid() && View() == Off()
    {
      rtc.Shutdown();
      hostWs := NO_CONN;
      forall i | 0 <= i < viewerWs.Length { viewerWs[i] := NO_CONN; }
      numViewers := 0;
      assert viewerWs[..] == EmptyTable();
    }

    /** `send_to_lws`; `writeOk` says whether allocation and `lws_write` succeed. */
    method SendToLws(wsi: Conn, data: string, writeOk: bool) returns (rc: int)
      modifies this`sent
      ensures rc == if wsi != NO_CONN && data != [] && writeOk then 0 else -1
      ensures sent == old(sent) + (if rc == 0 then [(wsi, data)] else [])
    {
      if wsi == NO_CONN || data == [] || !writeOk { return -1; }
      sent := sent + [(wsi, data)];
      rc := 0;
    }

    /** `viewer_ws_by_id`. */
    method ViewerWsById(id: string) returns (wsi: Conn)
      requires Valid()
      ensures wsi == ConnById(viewerWs[..], id)
    {
      var idx := ScanViewerId(id);
      if idx.Some? && 0 <= idx.value < MAX_VIEWERS { return viewerWs[idx.value]; }
      wsi := NO_CONN;
    }

    method SendToViewer(id: string, data: string, writeOk: bool) returns (rc: int)
      requires Valid()
      modifies this`sent
      ensures var target := SendTarget(View(), id);
              && rc == (if target != NO_CONN && data != [] && writeOk then 0 else -1)
              && sent == old(sent) + (if rc == 0 then [(target, data)] else [])
    {
      var target := ViewerWsById(id);
      rc := -1;
      if target != NO_CONN { rc := SendToLws(target, data, writeOk); }
    }

    /** `signaling_send_offer`: always to the host. */
    method SendOffer(sdp: string, writeOk: bool) returns (rc: int)
      requires Valid() && NulFree(sdp)
      modifies this`sent
      ensures rc == if hostWs != NO_CONN && writeOk then 0 else -1
      ensures sent == old(sent) + (if rc == 0 then [(hostWs, Take(Whole(Offer, sdp), 4095))] else [])
    {
      var buf := ComposeMessage(Offer, sdp);
      rc := SendToLws(hostWs, buf, writeOk);
    }

    /** `signaling_send_answer` and `signaling_send_ice`: the same routing, another template. */
    method SendReply(kind: Kind, id: Option<string>, payload: string, writeOk: bool) returns (rc: int)
      requires Valid() && NulFree(payload) && kind != Offer
      modifies this`sent
      ensures var target := ReplyTarget(View(), id);
              && rc == (if target != NO_CONN && writeOk then 0 else -1)
              && sent == old(sent) + (if rc == 0 then [(target, Take(Whole(kind, payload), 4095))] else [])
    {
      var buf := ComposeMessage(kind, payload);
      if id.Some? && id.value == "host" {
        rc := SendToLws(hostWs, buf, writeOk);
      } else {
        var target := NO_CONN;
        if id.Some? { target := ViewerWsById(id.value); }
        if target != NO_CONN {
          rc := SendToLws(target, buf, writeOk);
        } else {
          rc := SendToLws(hostWs, buf, writeOk);
        }
      }
    }
  }
}
