/**
  The globals of src/input_linux.c and the functions that update them in place, proved against
  the resource machine of `Devices` and the event lists of `Gamepad`.
 */
module InputBackend {
  import opened CStrings
  import opened Limits
  import opened Packet
  import opened Devices
  import opened Gamepad

  class Backend {
    var kbmFd: int
    const gpFds: array<int>
    /** The kernel's side: handles open, closes of handles that were not, events written. */
    var open: set<int>
    var stray: nat
    var log: seq<Emitted>

    ghost predicate Valid()
      reads this
    {
      gpFds.Length == MAX_SLOTS
    }

    ghost function View(): Input
      reads this, gpFds
    {
      Input(kbmFd, gpFds[..], open, stray)
    }

    constructor ()
      ensures Valid() && View() == Boot() && log == [] && fresh(gpFds)
    {
      kbmFd, open, stray, log := -1, {}, 0, [];
      gpFds := new int[MAX_SLOTS](_ => 0);
      new;
      assert gpFds[..] == Boot().gp;
    }

    /** `close(fd)` as the kernel sees it. */
    method Close(fd: int)
      modifies this`open, this`stray
      ensures View() == CloseFd(old(View()), fd)
    {
      if fd in open { open := open - {fd}; } else { stray := stray + 1; }
    }

    /** `close(gp_fds[slot]); gp_fds[slot] = -1;` where there is a device. */
    method DestroyPad(slot: nat)
      requires Valid() && slot < MAX_SLOTS
      modifies this`open, this`stray, gpFds
      ensures View() == Vacate(old(View()), slot)
    {
      if gpFds[slot] >= 0 {
        Close(gpFds[slot]);
        gpFds[slot] := -1;
      }
    }

    /** `input_init` with `create_kbm_device`. */
    method InputInit(attempt: Attempt) returns (rc: int)
      requires Valid() && Permitted(View(), Init(attempt))
      modifies this`kbmFd, this`open, this`stray, gpFds
      ensures Valid() && View() == Step(old(View()), Init(attempt))
      ensures rc == Outcome(attempt)
    {
      forall i | 0 <= i < gpFds.Length { gpFds[i] := -1; }
      assert gpFds[..] == NoPads();
      kbmFd := -1;
      if attempt.fd < 0 { return ERR_PERMISSION; }
      kbmFd := attempt.fd;
      open := open + {attempt.fd};
      if !attempt.writeOk || !attempt.createOk {
        Close(kbmFd);
        kbmFd := -1;
        assert open == old(open);
        return ERR_NO_DEVICE;
      }
      rc := OK;
    }

    /** `input_shutdown`. */
    method InputShutdown()
      requires Valid()
      modifies this`kbmFd, this`open, this`stray, gpFds
      ensures Valid() && View() == Step(old(View()), Shutdown)
    {
      for slot := 0 to MAX_SLOTS
        invariant VacateFrom(View(), slot) == VacateFrom(old(View()), 0)
      {
        DestroyPad(slot);
      }
      if kbmFd >= 0 {
        Close(kbmFd);
        kbmFd := -1;
      }
    }

    /** `input_alloc_slot`. */
    method AllocSlot(slot: Byte, attempt: Attempt) returns (rc: int)
      requires Valid() && Permitted(View(), Alloc(slot, attempt))
      modifies this`open, this`stray, gpFds
      ensures Valid() && View() == Step(old(View()), Alloc(slot, attempt))
      ensures rc == if slot >= 16 then -5 else Outcome(attempt)
    {
      if slot >= MAX_SLOTS { return ERR_INVALID_ARG; }
      DestroyPad(slot);
      if attempt.fd < 0 { return ERR_PERMISSION; }
      ghost var before := open;
      open := open + {attempt.fd};
      if !attempt.writeOk || !attempt.createOk {
        Close(attempt.fd);
        assert open == before;
        return ERR_NO_DEVICE;
      }
      gpFds[slot] := attempt.fd;
      rc := OK;
    }

    /** `input_free_slot`. */
    method FreeSlot(slot: Byte) returns (rc: int)
      requires Valid()
      modifies this`open, this`stray, gpFds
      ensures Valid() && View() == Step(old(View()), Free(slot))
      ensures rc == if slot >= 16 then -5 else 0
    {
      if slot >= MAX_SLOTS { return ERR_INVALID_ARG; }
      DestroyPad(slot);
      rc := OK;
    }

    /** `input_submit_gamepad`; `None` is a null packet. */
    method SubmitGamepad(pkt: Option<GamepadPacket>) returns (rc: int)
      requires Valid()
      modifies this`log
      ensures pkt.None? ==> rc == -5 && log == old(log)
      ensures pkt.Some? ==> log == old(log) + Written(gpFds[..], Submit(pkt.value))
      ensures pkt.Some? ==> rc == if pkt.value.slot >= 16 then -5
                                  else if gpFds[pkt.value.slot] < 0 then -3 else 0
    {
      if pkt.None? { return ERR_INVALID_ARG; }
      var p := pkt.value;
      if p.slot >= MAX_SLOTS { return ERR_INVALID_ARG; }
      if gpFds[p.slot] < 0 { return ERR_NO_DEVICE; }
      var fd := gpFds[p.slot];
      log := log + AxisEvents(fd, p);
      log := log + ButtonEvents(fd, p.buttons);
      rc := OK;
    }

    /** `input_flush_slot`; the buttons are released in a loop over their codes. */
    method FlushSlot(slot: Byte) returns (rc: int)
      requires Valid()
      modifies this`log
      ensures rc == 0
      ensures log == old(log) + Written(gpFds[..], Flush(slot))
    {
      if slot < MAX_SLOTS && gpFds[slot] >= 0 {
        var fd := gpFds[slot];
        log := log + CenterEvents(fd);
        for i := 0 to |FLUSH_CODES|
          invariant log == old(log) + (CenterEvents(fd) + ReleaseEvents(fd, FLUSH_CODES)[..i])
        {
          log := log + [Emitted(fd, FLUSH_CODES[i], 0)];
        }
        log := log + [Emitted(fd, SynReport, 0)];
      }
      rc := OK;
    }
  }

  /** What the resource machine guarantees is what the event theorems need. */
  lemma SoundPadsDistinct(s: Input)
    requires Sound(s)
    ensures DistinctPads(s.gp)
  {}
}
