/**
  What `input_submit_gamepad` and `input_flush_slot` (src/input_linux.c) write to the devices,
  and the state a device shows after any interleaving of them.
 */
module Gamepad {
  import opened Division
  import opened Limits
  import opened Packet

  // ---------------------------------------------------------------- bit masks

  /** The bitwise conjunction of two non-negative numbers. */
  function And(a: nat, m: nat): (r: nat)
    decreases m, a
  {
    if m == 0 then 0 else (a % 2) * (m % 2) + 2 * And(a / 2, m / 2)
  }

  function Bit(a: nat, k: nat): bool
    decreases k, a
  {
    if k == 0 then a % 2 == 1 else Bit(a / 2, k - 1)
  }

  function Pow2(k: nat): (p: nat)
    ensures p > 0
  {
    if k == 0 then 1 else 2 * Pow2(k - 1)
  }

  /** Masking with one bit tests it. */
  lemma {:induction false} AndPow2(a: nat, k: nat)
    ensures And(a, Pow2(k)) != 0 <==> Bit(a, k)
  {
    if k == 0 {
      assert Pow2(0) == 1;
      assert And(a / 2, 0) == 0;
    } else {
      AndPow2(a / 2, k - 1);
    }
  }

  /** No bit at or above the width of a number is set. */
  lemma {:induction false} HighBitsClear(a: nat, k: nat)
    requires a < Pow2(k)
    ensures !Bit(a, k)
  {
    if k > 0 { HighBitsClear(a / 2, k - 1); }
  }

  ghost predicate AgreeOn(a: nat, b: nat, m: nat) { forall k: nat | Bit(m, k) :: Bit(a, k) == Bit(b, k) }

  /** Two numbers agree under a mask exactly when they agree on every bit of it. */
  lemma {:induction false} MaskedEqualIff(a: nat, b: nat, m: nat)
    ensures And(a, m) == And(b, m) <==> AgreeOn(a, b, m)
    decreases m
  {
    if m == 0 {
      forall k: nat ensures !Bit(0, k) { ZeroHasNoBits(k); }
    } else {
      MaskedEqualIff(a / 2, b / 2, m / 2);
      if AgreeOn(a, b, m) {
        assert Bit(m, 0) ==> Bit(a, 0) == Bit(b, 0);
        forall k: nat | Bit(m / 2, k) ensures Bit(a / 2, k) == Bit(b / 2, k) { assert Bit(m, k + 1); }
      }
      if And(a, m) == And(b, m) {
        forall k: nat | Bit(m, k) ensures Bit(a, k) == Bit(b, k) {
          if k > 0 { assert Bit(m / 2, k - 1); }
        }
      }
    }
  }

  lemma {:induction false} ZeroHasNoBits(k: nat)
    ensures !Bit(0, k)
  {
    if k > 0 { ZeroHasNoBits(k - 1); }
  }

  // ---------------------------------------------------------------- emitted events

  datatype Control =
    | AbsX | AbsY | AbsRx | AbsRy | AbsZ | AbsRz | Hat0X | Hat0Y
    | South | East | West | North | Tl | Tr | Select | Start | ThumbL | ThumbR | Mode
    | SynReport

  /** One `input_event` written to a handle. */
  datatype Emitted = Emitted(fd: int, control: Control, value: int)

  /** `(btn & mask) ? 1 : 0` for the mask `1 << k`. */
  function Pressed(buttons: U16, k: nat): int { if And(buttons, Pow2(k)) != 0 then 1 else 0 }

  const W3C_A: nat := 0
  const W3C_B: nat := 1
  const W3C_Y: nat := 2
  const W3C_X: nat := 3
  const W3C_LB: nat := 4
  const W3C_RB: nat := 5
  const W3C_BACK: nat := 8
  const W3C_START: nat := 9
  const W3C_LS: nat := 10
  const W3C_RS: nat := 11
  const W3C_GUIDE: nat := 16

  /** The ten button bits a 16-bit field can carry to a device. */
  const BUTTON_MASK: nat := 0x0F3F

  function AxisEvents(fd: int, p: GamepadPacket): seq<Emitted> {
    [Emitted(fd, AbsX, p.lx), Emitted(fd, AbsY, p.ly), Emitted(fd, AbsRx, p.rx), Emitted(fd, AbsRy, p.ry),
     Emitted(fd, AbsZ, p.lt), Emitted(fd, AbsRz, p.rt), Emitted(fd, Hat0X, p.hx), Emitted(fd, Hat0Y, p.hy)]
  }

  function ButtonEvents(fd: int, b: U16): seq<Emitted> {
    [Emitted(fd, South, Pressed(b, W3C_A)), Emitted(fd, East, Pressed(b, W3C_B)),
     Emitted(fd, West, Pressed(b, W3C_Y)), Emitted(fd, North, Pressed(b, W3C_X)),
     Emitted(fd, Tl, Pressed(b, W3C_LB)), Emitted(fd, Tr, Pressed(b, W3C_RB)),
     Emitted(fd, Select, Pressed(b, W3C_BACK)), Emitted(fd, Start, Pressed(b, W3C_START)),
     Emitted(fd, ThumbL, Pressed(b, W3C_LS)), Emitted(fd, ThumbR, Pressed(b, W3C_RS)),
     Emitted(fd, Mode, Pressed(b, W3C_GUIDE)), Emitted(fd, SynReport, 0)]
  }

  function SubmitEvents(fd: int, p: GamepadPacket): seq<Emitted> {
    AxisEvents(fd, p) + ButtonEvents(fd, p.buttons)
  }

  /** The button codes in the order the flush loop goes through them. */
  const FLUSH_CODES: seq<Control> := [South, East, West, North, Tl, Tr, Select, Start, Mode, ThumbL, ThumbR]

  function ReleaseEvents(fd: int, codes: seq<Control>): seq<Emitted> {
    seq(|codes|, i requires 0 <= i < |codes| => Emitted(fd, codes[i], 0))
  }

  function CenterEvents(fd: int): seq<Emitted> {
    [Emitted(fd, AbsX, 0), Emitted(fd, AbsY, 0), Emitted(fd, AbsRx, 0), Emitted(fd, AbsRy, 0),
     Emitted(fd, AbsZ, 0), Emitted(fd, AbsRz, 0), Emitted(fd, Hat0X, 0), Emitted(fd, Hat0Y, 0)]
  }

  function FlushEvents(fd: int): seq<Emitted> {
    CenterEvents(fd) + ReleaseEvents(fd, FLUSH_CODES) + [Emitted(fd, SynReport, 0)]
  }

  // ---------------------------------------------------------------- the state of a device

  /** What a device shows: for each control the last value written to its handle. */
  function Shown(log: seq<Emitted>, fd: int, c: Control): int {
    if log == [] then 0
    else
      var e := log[|log| - 1];
      if e.fd == fd && e.control == c then e.value else Shown(log[..|log| - 1], fd, c)
  }

  /** `log` writes control `c` of `fd`. */
  predicate Writes(log: seq<Emitted>, fd: int, c: Control) {
    exists k :: 0 <= k < |log| && log[k].fd == fd && log[k].control == c
  }

  lemma WritesLast(b: seq<Emitted>, fd: int, c: Control)
    requires b != []
    ensures Writes(b, fd, c) <==>
            (b[|b| - 1].fd == fd && b[|b| - 1].control == c) || Writes(b[..|b| - 1], fd, c)
  {
    var n := |b| - 1;
    if Writes(b[..n], fd, c) {
      var k :| 0 <= k < n && b[..n][k].fd == fd && b[..n][k].control == c;
      assert b[k].fd == fd;
    }
    if Writes(b, fd, c) {
      var k :| 0 <= k < |b| && b[k].fd == fd && b[k].control == c;
      assert k < n ==> b[..n][k].fd == fd;
    }
  }

  /** Later writes hide earlier ones; controls not written keep their value. */
  lemma {:induction false} ShownAppend(a: seq<Emitted>, b: seq<Emitted>, fd: int, c: Control)
    ensures Shown(a + b, fd, c) == if Writes(b, fd, c) then Shown(b, fd, c) else Shown(a, fd, c)
  {
    if b == [] {
      assert a + b == a;
    } else {
      var n := |b| - 1;
      assert (a + b)[..|a + b| - 1] == a + b[..n];
      WritesLast(b, fd, c);
      ShownAppend(a, b[..n], fd, c);
    }
  }

  /** If no control is written twice, what is shown is what was written. */
  lemma {:induction false} ShownAt(log: seq<Emitted>, k: nat)
    requires k < |log|
    requires forall i, j | 0 <= i < j < |log| :: log[i].control != log[j].control
    ensures Shown(log, log[k].fd, log[k].control) == log[k].value
  {
    var n := |log| - 1;
    if k < n { ShownAt(log[..n], k); }
  }

  /** The value a packet gives to a control. */
  function Commanded(p: GamepadPacket, c: Control): int {
    match c
    case AbsX => p.lx
    case AbsY => p.ly
    case AbsRx => p.rx
    case AbsRy => p.ry
    case AbsZ => p.lt
    case AbsRz => p.rt
    case Hat0X => p.hx
    case Hat0Y => p.hy
    case South => Pressed(p.buttons, W3C_A)
    case East => Pressed(p.buttons, W3C_B)
    case West => Pressed(p.buttons, W3C_Y)
    case North => Pressed(p.buttons, W3C_X)
    case Tl => Pressed(p.buttons, W3C_LB)
    case Tr => Pressed(p.buttons, W3C_RB)
    case Select => Pressed(p.buttons, W3C_BACK)
    case Start => Pressed(p.buttons, W3C_START)
    case ThumbL => Pressed(p.buttons, W3C_LS)
    case ThumbR => Pressed(p.buttons, W3C_RS)
    case Mode => Pressed(p.buttons, W3C_GUIDE)
    case SynReport => 0
  }

  /** Where submit and flush write each control; both write every control once. */
  function SubmitPlace(c: Control): (k: nat)
    ensures k < 20
  {
    match c
    case AbsX => 0 case AbsY => 1 case AbsRx => 2 case AbsRy => 3
    case AbsZ => 4 case AbsRz => 5 case Hat0X => 6 case Hat0Y => 7
    case South => 8 case East => 9 case West => 10 case North => 11
    case Tl => 12 case Tr => 13 case Select => 14 case Start => 15
    case ThumbL => 16 case ThumbR => 17 case Mode => 18 case SynReport => 19
  }

  function FlushPlace(c: Control): (k: nat)
    ensures k < 20
  {
    match c
    case Mode => 16
    case ThumbL => 17
    case ThumbR => 18
    case _ => SubmitPlace(c)
  }

  lemma SubmitOrder(fd: int, p: GamepadPacket)
    ensures var es := SubmitEvents(fd, p);
            |es| == 20 && forall i | 0 <= i < 20 :: SubmitPlace(es[i].control) == i
  {}

  lemma AxisWrites(fd: int, p: GamepadPacket, c: Control)
    requires SubmitPlace(c) < 8
    ensures AxisEvents(fd, p)[SubmitPlace(c)] == Emitted(fd, c, Commanded(p, c))
  {}

  lemma ButtonWrites(fd: int, p: GamepadPacket, c: Control)
    requires SubmitPlace(c) >= 8
    ensures ButtonEvents(fd, p.buttons)[SubmitPlace(c) - 8] == Emitted(fd, c, Commanded(p, c))
  {}

  lemma SubmitWrites(fd: int, p: GamepadPacket, c: Control)
    ensures SubmitEvents(fd, p)[SubmitPlace(c)] == Emitted(fd, c, Commanded(p, c))
  {
    if SubmitPlace(c) < 8 { AxisWrites(fd, p, c); } else { ButtonWrites(fd, p, c); }
  }

  lemma SubmitShows(fd: int, p: GamepadPacket, c: Control)
    ensures Writes(SubmitEvents(fd, p), fd, c)
    ensures Shown(SubmitEvents(fd, p), fd, c) == Commanded(p, c)
  {
    SubmitOrder(fd, p);
    var es, k := SubmitEvents(fd, p), SubmitPlace(c);
    SubmitWrites(fd, p, c);
    ShownAt(es, k);
  }

  lemma FlushOrder(fd: int)
    ensures var es := FlushEvents(fd);
            |es| == 20 && forall i | 0 <= i < 20 :: FlushPlace(es[i].control) == i
  {}

  lemma FlushWrites(fd: int, c: Control)
    ensures |FlushEvents(fd)| == 20 && FlushEvents(fd)[FlushPlace(c)] == Emitted(fd, c, 0)
  {}

  lemma FlushShows(fd: int, c: Control)
    ensures Writes(FlushEvents(fd), fd, c)
    ensures Shown(FlushEvents(fd), fd, c) == 0
  {
    FlushOrder(fd);
    FlushWrites(fd, c);
    ShownAt(FlushEvents(fd), FlushPlace(c));
  }

  /** Events for one handle leave every other device as it was. */
  lemma OthersUntouched(log: seq<Emitted>, es: seq<Emitted>, fd: int, other: int, c: Control)
    requires fd != other && forall k | 0 <= k < |es| :: es[k].fd == fd
    ensures Shown(log + es, other, c) == Shown(log, other, c)
  {
    ShownAppend(log, es, other, c);
  }

  // ---------------------------------------------------------------- runs

  datatype PadCall = Submit(packet: GamepadPacket) | Flush(slot: Byte)

  function SlotOf(c: PadCall): Byte { if c.Submit? then c.packet.slot else c.slot }

  /** What one call writes, given the handles of the slots. */
  function Written(gp: seq<int>, c: PadCall): seq<Emitted> {
    var slot := SlotOf(c);
    if slot >= |gp| || gp[slot] < 0 then []
    else if c.Submit? then SubmitEvents(gp[slot], c.packet) else FlushEvents(gp[slot])
  }

  function Log(gp: seq<int>, cs: seq<PadCall>): seq<Emitted> {
    if cs == [] then [] else Log(gp, cs[..|cs| - 1]) + Written(gp, cs[|cs| - 1])
  }

  /** What a control of a slot should show after a run: its own last call decides. */
  function Expected(cs: seq<PadCall>, slot: nat, c: Control): int {
    if cs == [] then 0
    else
      var last := cs[|cs| - 1];
      if SlotOf(last) == slot then (if last.Submit? then Commanded(last.packet, c) else 0)
      else Expected(cs[..|cs| - 1], slot, c)
  }

  ghost predicate DistinctPads(gp: seq<int>) {
    forall i, j | 0 <= i < j < |gp| && gp[i] == gp[j] :: gp[i] < 0
  }

  /** For any interleaving, each device shows exactly what its own last packet or flush commands. */
  lemma {:induction false} ShowsLastCall(gp: seq<int>, cs: seq<PadCall>, slot: nat, c: Control)
    requires DistinctPads(gp) && slot < |gp| && gp[slot] >= 0
    ensures Shown(Log(gp, cs), gp[slot], c) == Expected(cs, slot, c)
  {
    if cs != [] {
      var before, last := cs[..|cs| - 1], cs[|cs| - 1];
      ShowsLastCall(gp, before, slot, c);
      var log, es := Log(gp, before), Written(gp, last);
      var s := SlotOf(last);
      if s >= |gp| || gp[s] < 0 {
        assert log + es == log;
      } else if s == slot {
        ShownAppend(log, es, gp[slot], c);
        if last.Submit? { SubmitShows(gp[slot], last.packet, c); } else { FlushShows(gp[slot], c); }
      } else {
        WrittenTo(gp, last);
        OthersUntouched(log, es, gp[s], gp[slot], c);
      }
    }
  }

  // ---------------------------------------------------------------- which bit is which button

  lemma {:induction false} BitIsDigit(a: nat, k: nat)
    ensures Bit(a, k) <==> a / Pow2(k) % 2 == 1
  {
    if k > 0 {
      BitIsDigit(a / 2, k - 1);
      DivideTwice(a, 2, Pow2(k - 1));
    }
  }

  lemma PressedIs(b: U16, k: nat)
    ensures Pressed(b, k) == b / Pow2(k) % 2
  {
    AndPow2(b, k);
    BitIsDigit(b, k);
  }

  lemma Powers()
    ensures Pow2(0) == 1 && Pow2(1) == 2 && Pow2(2) == 4 && Pow2(3) == 8 && Pow2(4) == 16 && Pow2(5) == 32
    ensures Pow2(8) == 256 && Pow2(9) == 512 && Pow2(10) == 1024 && Pow2(11) == 2048
  {
    assert Pow2(4) == 16;
    assert Pow2(8) == 256;
  }

  /** What a packet asks of a control, field by field and bit by bit. */
  function Asked(p: GamepadPacket, c: Control): int {
    match c
    case AbsX => p.lx case AbsY => p.ly case AbsRx => p.rx case AbsRy => p.ry
    case AbsZ => p.lt case AbsRz => p.rt case Hat0X => p.hx case Hat0Y => p.hy
    case South => p.buttons % 2
    case East => p.buttons / 2 % 2
    case West => p.buttons / 4 % 2
    case North => p.buttons / 8 % 2
    case Tl => p.buttons / 16 % 2
    case Tr => p.buttons / 32 % 2
    case Select => p.buttons / 256 % 2
    case Start => p.buttons / 512 % 2
    case ThumbL => p.buttons / 1024 % 2
    case ThumbR => p.buttons / 2048 % 2
    case Mode => 0
    case SynReport => 0
  }

  lemma CommandedIsAsked(p: GamepadPacket, c: Control)
    ensures Commanded(p, c) == Asked(p, c)
  {
    ButtonsAsDigits(p.buttons);
  }

  /** Whatever was written before, a submitted packet puts its own device in the state it asks for. */
  lemma SubmitObeyed(log: seq<Emitted>, gp: seq<int>, p: GamepadPacket, c: Control)
    requires p.slot < |gp| && gp[p.slot] >= 0
    ensures Shown(log + Written(gp, Submit(p)), gp[p.slot], c) == Asked(p, c)
  {
    var fd := gp[p.slot];
    ShownAppend(log, SubmitEvents(fd, p), fd, c);
    SubmitShows(fd, p, c);
    CommandedIsAsked(p, c);
  }

  lemma ButtonsAsDigits(b: U16)
    ensures Pressed(b, W3C_A) == b % 2 && Pressed(b, W3C_B) == b / 2 % 2
    ensures Pressed(b, W3C_Y) == b / 4 % 2 && Pressed(b, W3C_X) == b / 8 % 2
    ensures Pressed(b, W3C_LB) == b / 16 % 2 && Pressed(b, W3C_RB) == b / 32 % 2
    ensures Pressed(b, W3C_BACK) == b / 256 % 2 && Pressed(b, W3C_START) == b / 512 % 2
    ensures Pressed(b, W3C_LS) == b / 1024 % 2 && Pressed(b, W3C_RS) == b / 2048 % 2
    ensures Pressed(b, W3C_GUIDE) == 0
  {
    Powers();
    PressedIs(b, W3C_A);
    PressedIs(b, W3C_B);
    PressedIs(b, W3C_Y);
    PressedIs(b, W3C_X);
    PressedIs(b, W3C_LB);
    PressedIs(b, W3C_RB);
    PressedIs(b, W3C_BACK);
    PressedIs(b, W3C_START);
    PressedIs(b, W3C_LS);
    PressedIs(b, W3C_RS);
    GuideBitClear(b);
  }

  /** A flush leaves every control of its own device at 0. */
  lemma FlushNeutral(log: seq<Emitted>, gp: seq<int>, slot: Byte, c: Control)
    requires slot < |gp| && gp[slot] >= 0
    ensures Shown(log + Written(gp, Flush(slot)), gp[slot], c) == 0
  {
    ShownAppend(log, FlushEvents(gp[slot]), gp[slot], c);
    FlushShows(gp[slot], c);
  }

  lemma {:induction false} ExpectedLast(cs: seq<PadCall>, p: GamepadPacket, others: seq<PadCall>, c: Control)
    requires forall x <- others :: SlotOf(x) != p.slot
    ensures Expected(cs + [Submit(p)] + others, p.slot, c) == Commanded(p, c)
    decreases |others|
  {
    var before := cs + [Submit(p)];
    if others == [] {
      assert before + others == before;
    } else {
      var n := |others| - 1;
      var all := before + others;
      assert all[|all| - 1] == others[n] && others[n] in others;
      assert all[..|all| - 1] == before + others[..n];
      ExpectedLast(cs, p, others[..n], c);
    }
  }

  /** The last packet for a device, whatever was done to others since, is what the device shows. */
  lemma LastPacketObeyed(gp: seq<int>, cs: seq<PadCall>, p: GamepadPacket, others: seq<PadCall>, c: Control)
    requires DistinctPads(gp) && p.slot < |gp| && gp[p.slot] >= 0
    requires forall x <- others :: SlotOf(x) != p.slot
    ensures Shown(Log(gp, cs + [Submit(p)] + others), gp[p.slot], c) == Asked(p, c)
  {
    ShowsLastCall(gp, cs + [Submit(p)] + others, p.slot, c);
    ExpectedLast(cs, p, others, c);
    CommandedIsAsked(p, c);
  }

  /** What a call writes ends in its one report, so a reader never sees half of it. */
  lemma OneReportAtTheEnd(gp: seq<int>, call: PadCall)
    requires SlotOf(call) < |gp| && gp[SlotOf(call)] >= 0
    ensures var es := Written(gp, call);
            && |es| == 20 && es[19] == Emitted(gp[SlotOf(call)], SynReport, 0)
            && forall k | 0 <= k < 19 :: es[k].control != SynReport
  {
    var fd := gp[SlotOf(call)];
    if call.Submit? { SubmitOrder(fd, call.packet); } else { FlushOrder(fd); }
  }

  lemma WrittenTo(gp: seq<int>, c: PadCall)
    requires SlotOf(c) < |gp| && gp[SlotOf(c)] >= 0
    ensures forall k | 0 <= k < |Written(gp, c)| :: Written(gp, c)[k].fd == gp[SlotOf(c)]
  {}

  /** BTN_MODE stays up in every run: the guide mask is bit 16 of a 16-bit field. */
  lemma GuideNeverPressed(gp: seq<int>, cs: seq<PadCall>, slot: nat)
    requires DistinctPads(gp) && slot < |gp| && gp[slot] >= 0
    ensures Shown(Log(gp, cs), gp[slot], Mode) == 0
  {
    ShowsLastCall(gp, cs, slot, Mode);
    ExpectedModeIsZero(cs, slot);
  }

  lemma {:induction false} ExpectedModeIsZero(cs: seq<PadCall>, slot: nat)
    ensures Expected(cs, slot, Mode) == 0
  {
    if cs != [] {
      var last := cs[|cs| - 1];
      if last.Submit? { GuideBitClear(last.packet.buttons); }
      ExpectedModeIsZero(cs[..|cs| - 1], slot);
    }
  }

  lemma GuideBitClear(b: U16)
    ensures Pressed(b, W3C_GUIDE) == 0
  {
    assert Pow2(4) == 16;
    assert Pow2(8) == 256;
    assert Pow2(12) == 4096;
    assert Pow2(16) == 0x10000;
    AndPow2(b, W3C_GUIDE);
    HighBitsClear(b, 16);
  }

  predicate SameAxes(p: GamepadPacket, q: GamepadPacket) {
    && p.lx == q.lx && p.ly == q.ly && p.rx == q.rx && p.ry == q.ry
    && p.lt == q.lt && p.rt == q.rt && p.hx == q.hx && p.hy == q.hy
  }

  ghost predicate SameState(p: GamepadPacket, q: GamepadPacket) {
    forall c :: Commanded(p, c) == Commanded(q, c)
  }

  /** Two packets put a device in the same state iff axes, triggers, hats and masked buttons agree. */
  lemma SameStateIff(p: GamepadPacket, q: GamepadPacket)
    ensures SameState(p, q) <==>
            SameAxes(p, q) && And(p.buttons, BUTTON_MASK) == And(q.buttons, BUTTON_MASK)
  {
    MaskedEqualIff(p.buttons, q.buttons, BUTTON_MASK);
    ButtonBits(p.buttons, q.buttons);
    if SameState(p, q) { SameStateNeeds(p, q); }
    if SameAxes(p, q) && SameButtons(p.buttons, q.buttons) { SameStateSuffices(p, q); }
  }

  lemma SameStateNeeds(p: GamepadPacket, q: GamepadPacket)
    requires SameState(p, q)
    ensures SameAxes(p, q) && SameButtons(p.buttons, q.buttons)
  {
    SameStateNeedsAxes(p, q);
    SameStateNeedsFace(p, q);
    SameStateNeedsRest(p, q);
  }

  lemma SameStateNeedsAxes(p: GamepadPacket, q: GamepadPacket)
    requires SameState(p, q)
    ensures SameAxes(p, q)
  {
    assert Commanded(p, AbsX) == Commanded(q, AbsX) && Commanded(p, AbsY) == Commanded(q, AbsY);
    assert Commanded(p, AbsRx) == Commanded(q, AbsRx) && Commanded(p, AbsRy) == Commanded(q, AbsRy);
    assert Commanded(p, AbsZ) == Commanded(q, AbsZ) && Commanded(p, AbsRz) == Commanded(q, AbsRz);
    assert Commanded(p, Hat0X) == Commanded(q, Hat0X) && Commanded(p, Hat0Y) == Commanded(q, Hat0Y);
  }

  lemma SameStateNeedsFace(p: GamepadPacket, q: GamepadPacket)
    requires SameState(p, q)
    ensures SameFace(p.buttons, q.buttons)
  {
    assert Commanded(p, South) == Commanded(q, South) && Commanded(p, East) == Commanded(q, East);
    assert Commanded(p, West) == Commanded(q, West) && Commanded(p, North) == Commanded(q, North);
  }

  lemma SameStateNeedsRest(p: GamepadPacket, q: GamepadPacket)
    requires SameState(p, q)
    ensures SameRest(p.buttons, q.buttons)
  {
    assert Commanded(p, Tl) == Commanded(q, Tl) && Commanded(p, Tr) == Commanded(q, Tr);
    assert Commanded(p, Select) == Commanded(q, Select) && Commanded(p, Start) == Commanded(q, Start);
    assert Commanded(p, ThumbL) == Commanded(q, ThumbL) && Commanded(p, ThumbR) == Commanded(q, ThumbR);
  }

  lemma SameStateSuffices(p: GamepadPacket, q: GamepadPacket)
    requires SameAxes(p, q) && SameButtons(p.buttons, q.buttons)
    ensures SameState(p, q)
  {
    GuideBitClear(p.buttons);
    GuideBitClear(q.buttons);
  }

  predicate SameFace(a: U16, b: U16) {
    && Pressed(a, W3C_A) == Pressed(b, W3C_A) && Pressed(a, W3C_B) == Pressed(b, W3C_B)
    && Pressed(a, W3C_Y) == Pressed(b, W3C_Y) && Pressed(a, W3C_X) == Pressed(b, W3C_X)
  }

  predicate SameRest(a: U16, b: U16) {
    && Pressed(a, W3C_LB) == Pressed(b, W3C_LB) && Pressed(a, W3C_RB) == Pressed(b, W3C_RB)
    && Pressed(a, W3C_BACK) == Pressed(b, W3C_BACK) && Pressed(a, W3C_START) == Pressed(b, W3C_START)
    && Pressed(a, W3C_LS) == Pressed(b, W3C_LS) && Pressed(a, W3C_RS) == Pressed(b, W3C_RS)
  }

  predicate SameButtons(a: U16, b: U16) { SameFace(a, b) && SameRest(a, b) }

  /** The mask selects exactly the ten buttons. */
  lemma MaskBits(k: nat)
    ensures Bit(BUTTON_MASK, k) <==> k in {W3C_A, W3C_B, W3C_Y, W3C_X, W3C_LB, W3C_RB, W3C_BACK, W3C_START, W3C_LS, W3C_RS}
  {
    if k >= 12 {
      assert Pow2(4) == 16;
      assert Pow2(8) == 256;
      assert Pow2(12) == 4096;
      HighBitsFrom(BUTTON_MASK, 12, k);
    } else {
      SmallBits(k);
    }
  }

  lemma SmallBits(k: nat)
    requires k < 12
    ensures Bit(0x0F3F, k) <==> k != 6 && k != 7
  {
    assert Bit(0x0F3F, 0) && Bit(0x0F3F, 1) && Bit(0x0F3F, 2) && Bit(0x0F3F, 3);
    assert Bit(0x0F3F, 4) && Bit(0x0F3F, 5) && !Bit(0x0F3F, 6) && !Bit(0x0F3F, 7);
    assert Bit(1, 0) && Bit(3, 1) && Bit(7, 2) && Bit(15, 3) && Bit(30, 4) && Bit(60, 5);
    assert Bit(121, 6) && Bit(243, 7) && Bit(487, 8);
    assert Bit(0x0F3F, 8) && Bit(0x0F3F, 9) && Bit(0x0F3F, 10) && Bit(0x0F3F, 11);
  }

  lemma {:induction false} HighBitsFrom(a: nat, n: nat, k: nat)
    requires a < Pow2(n) && n <= k
    ensures !Bit(a, k)
  {
    if n > 0 { HighBitsFrom(a / 2, n - 1, k - 1); } else { ZeroHasNoBits(k); }
  }

  lemma ButtonBits(a: U16, b: U16)
    ensures AgreeOn(a, b, BUTTON_MASK) <==> SameButtons(a, b)
  {
    forall k: nat ensures Bit(BUTTON_MASK, k) <==>
      k in {W3C_A, W3C_B, W3C_Y, W3C_X, W3C_LB, W3C_RB, W3C_BACK, W3C_START, W3C_LS, W3C_RS}
    {
      MaskBits(k);
    }
    forall k: nat ensures Pressed(a, k) == Pressed(b, k) <==> Bit(a, k) == Bit(b, k) {
      AndPow2(a, k);
      AndPow2(b, k);
    }
  }
}
