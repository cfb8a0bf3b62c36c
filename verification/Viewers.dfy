/**
  `nearcade_disconnect_viewer` (src/nearcade.c) over the viewer table, the slot manager and the
  device table together.
 */
module Viewers {
  import opened CStrings
  import opened Limits
  import opened Packet
  import opened Slots
  import D = Devices
  import opened InputBackend

  datatype Viewer = Viewer(id: string, slot: int, active: bool, mode: int, ctrlType: int)

  /** Everything the call can reach. */
  datatype Sdk = Sdk(viewers: seq<Viewer>, num: int, held: Owners, input: D.Input)

  /** The first active entry with the identifier, or the length of the table. */
  function FirstActive(vs: seq<Viewer>, id: string): (k: nat)
    ensures k <= |vs| && (k < |vs| ==> vs[k].active && vs[k].id == id)
    ensures forall j | 0 <= j < k :: !(vs[j].active && vs[j].id == id)
  {
    if vs == [] || (vs[0].active && vs[0].id == id) then 0 else 1 + FirstActive(vs[1..], id)
  }

  function ActiveCount(vs: seq<Viewer>): nat {
    if vs == [] then 0 else (if vs[0].active then 1 else 0) + ActiveCount(vs[1..])
  }

  /** The state once entry `k` is deactivated and what it held is freed. */
  function Without(s: Sdk, k: nat): Sdk
    requires |s.input.gp| == MAX_SLOTS && k < |s.viewers|
  {
    var slot := s.viewers[k].slot;
    Sdk(s.viewers[k := s.viewers[k].(active := false)], s.num - 1,
        Next(s.held, Release(slot)),
        D.Step(s.input, D.Free(Unsigned(slot, 0x100))))
  }

  /** The state after the call. */
  function Disconnected(s: Sdk, id: string): Sdk
    requires |s.input.gp| == MAX_SLOTS
  {
    var k := FirstActive(s.viewers, id);
    if k == |s.viewers| then s else Without(s, k)
  }

  /** Active viewers hold distinct claimed slots (or none, -1) and are counted. */
  ghost predicate WellFormed(s: Sdk) {
    && |s.viewers| == MAX_VIEWERS && D.Sound(s.input)
    && s.num == ActiveCount(s.viewers)
    && (forall i | 0 <= i < |s.viewers| && s.viewers[i].active ::
          s.viewers[i].slot == -1 || (0 <= s.viewers[i].slot < MAX_SLOTS && s.viewers[i].slot in s.held))
    && (forall i, j | 0 <= i < j < |s.viewers| && s.viewers[i].active && s.viewers[j].active ::
          s.viewers[i].slot == s.viewers[j].slot ==> s.viewers[i].slot == -1)
  }

  lemma {:induction false} ActiveCountUpdate(vs: seq<Viewer>, k: nat)
    requires k < |vs| && vs[k].active
    ensures ActiveCount(vs[k := vs[k].(active := false)]) == ActiveCount(vs) - 1
  {
    var us := vs[k := vs[k].(active := false)];
    if k == 0 {
      assert us[1..] == vs[1..];
    } else {
      assert us[1..] == vs[1..][k - 1 := vs[k].(active := false)];
      ActiveCountUpdate(vs[1..], k - 1);
    }
  }

  /** The narrowing of the slot for the device call: -1 becomes an index no device has. */
  lemma SlotAsByte(slot: int)
    ensures slot == -1 ==> Unsigned(slot, 0x100) >= MAX_SLOTS
    ensures 0 <= slot < MAX_SLOTS ==> Unsigned(slot, 0x100) == slot
  {}

  /** The invariant survives. */
  lemma DisconnectKeeps(s: Sdk, id: string)
    requires WellFormed(s)
    ensures WellFormed(Disconnected(s, id))
  {
    var k := FirstActive(s.viewers, id);
    if k < |s.viewers| {
      var slot := s.viewers[k].slot;
      SlotAsByte(slot);
      ActiveCountUpdate(s.viewers, k);
      D.StepSound(s.input, D.Free(Unsigned(slot, 0x100)));
    }
  }

  /**
    Exactly the first active entry with that identifier is deactivated; its slot and its device
    are freed; nothing else changes, and nothing at all without a match or beyond the entry for
    a viewer without a slot.
   */
  lemma DisconnectFreesExactly(s: Sdk, id: string)
    requires WellFormed(s)
    ensures var s', k := Disconnected(s, id), FirstActive(s.viewers, id);
            if k == |s.viewers| then s' == s
            else
              var slot := s.viewers[k].slot;
              && s'.viewers == s.viewers[k := s.viewers[k].(active := false)] && s'.num == s.num - 1
              && (slot == -1 ==> s'.held == s.held && s'.input == s.input)
              && (slot >= 0 ==>
                    && slot in s.held && s'.held == s.held - {slot}
                    && s'.input.gp[slot] < 0 && s'.input.kbm == s.input.kbm && s'.input.stray == 0
                    && (forall i | 0 <= i < MAX_SLOTS && i != slot :: s'.input.gp[i] == s.input.gp[i])
                    && s'.input.open == s.input.open - (if s.input.gp[slot] >= 0 then {s.input.gp[slot]} else {}))
  {
    var k := FirstActive(s.viewers, id);
    if k < |s.viewers| {
      var slot := s.viewers[k].slot;
      SlotAsByte(slot);
      if slot >= 0 {
        D.VacateSound(s.input, slot);
        if s.input.gp[slot] >= 0 { D.OwnedHas(s.input, slot); }
      }
    }
  }

  /** No other viewer loses its slot or its device. */
  lemma OthersKeepTheirs(s: Sdk, id: string, j: nat)
    requires WellFormed(s) && j < |s.viewers| && j != FirstActive(s.viewers, id)
    requires s.viewers[j].active && s.viewers[j].slot >= 0
    ensures var s', slot := Disconnected(s, id), s.viewers[j].slot;
            && s'.viewers[j] == s.viewers[j]
            && slot in s'.held && s'.held[slot] == s.held[slot]
            && s'.input.gp[slot] == s.input.gp[slot]
            && (s.input.gp[slot] >= 0 ==> s.input.gp[slot] in s'.input.open)
  {
    DisconnectKeeps(s, id);
    DisconnectFreesExactly(s, id);
    var s', slot := Disconnected(s, id), s.viewers[j].slot;
    if s.input.gp[slot] >= 0 { D.OwnedHas(s'.input, slot); }
  }

  /** `g_state` with its slot manager, beside the input backend. */
  class Nearcade {
    const viewers: array<Viewer>
    var numViewers: int
    const slots: SlotManager
    const input: Backend

    ghost predicate Valid()
      reads this, slots, slots.slotMap, slots.slotViewers, input
    {
      && viewers.Length == MAX_VIEWERS && slots.Valid() && input.Valid()
      && slots.slotMap != input.gpFds
    }

    ghost function View(): Sdk
      requires Valid()
      reads this, viewers, slots, slots.slotMap, slots.slotViewers, input, input.gpFds
    {
      Sdk(viewers[..], numViewers, slots.Held(), input.View())
    }

    /** Zeroed state. */
    constructor ()
      ensures Valid() && numViewers == 0 && slots.Held() == map[] && input.View() == D.Boot()
      ensures forall i | 0 <= i < viewers.Length :: !viewers[i].active
    {
      viewers := new Viewer[MAX_VIEWERS](_ => Viewer("", 0, false, 0, 0));
      numViewers := 0;
      slots := new SlotManager();
      input := new Backend();
    }

    /** `nearcade_disconnect_viewer`; `None` is a null identifier. */
    method DisconnectViewer(viewerId: Option<string>) returns (rc: int)
      requires Valid()
      modifies viewers, this`numViewers, slots.slotMap, slots.slotViewers
      modifies input`open, input`stray, input.gpFds
      ensures Valid()
      ensures rc == if viewerId.None? then -5 else 0
      ensures View() == if viewerId.None? then old(View()) else Disconnected(old(View()), viewerId.value)
    {
      if viewerId.None? { return ERR_INVALID_ARG; }
      var id := viewerId.value;
      var i := 0;
      while i < MAX_VIEWERS && !(viewers[i].active && viewers[i].id == id)
        invariant 0 <= i <= MAX_VIEWERS
        invariant forall j | 0 <= j < i :: !(viewers[j].active && viewers[j].id == id)
        modifies {}
      {
        i := i + 1;
      }
      FirstActiveIs(viewers[..], id, i);
      if i < MAX_VIEWERS { Deactivate(i); }
      rc := OK;
    }

    /** The body of the loop once the entry is found. */
    method Deactivate(i: nat)
      requires Valid() && i < MAX_VIEWERS
      modifies viewers, this`numViewers, slots.slotMap, slots.slotViewers
      modifies input`open, input`stray, input.gpFds
      ensures Valid() && View() == Without(old(View()), i)
    {
      var slot := viewers[i].slot;
      var _ := input.FreeSlot(Unsigned(slot, 0x100));
      slots.SlotRelease(slot);
      viewers[i] := viewers[i].(active := false);
      numViewers := numViewers - 1;
    }
  }

  lemma FirstActiveIs(vs: seq<Viewer>, id: string, k: nat)
    requires k <= |vs| && (k < |vs| ==> vs[k].active && vs[k].id == id)
    requires forall j | 0 <= j < k :: !(vs[j].active && vs[j].id == id)
    ensures FirstActive(vs, id) == k
  {}
}
