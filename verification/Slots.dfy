/**
  The slot allocator of src/nearcade_internal.h.  No code of the repository calls it in sequence,
  so its properties are stated over arbitrary histories of calls.
 */
module Slots {
  import opened CStrings
  import opened Escape
  import opened Limits

  function Zeros(n: nat): (z: string)
    ensures |z| == n && forall i | 0 <= i < n :: z[i] == NUL
  {
    seq(n, _ => NUL)
  }

  /** `strncpy(dst, src, n)`: copy, then pad with NULs up to `n`; the rest of `dst` stays. */
  function StrNCpy(dst: string, src: string, n: nat): (r: string)
    requires n <= |dst|
    ensures |r| == |dst|
  {
    Take(src, n) + Zeros(n - |Take(src, n)|) + dst[n..]
  }

  /** The name a claim records: at most 63 characters. */
  function OwnerName(id: string): string { Take(id, ID_LEN - 1) }

  // ---------------------------------------------------------------- the abstract allocator

  /** Which slots are held, and by whom. */
  type Owners = map<nat, string>

  datatype Request = Claim(id: string) | Release(slot: int)

  /** The lowest slot at or above `from` that nobody holds; -1 when there is none. */
  function LowestFree(o: Owners, from: nat): (r: int)
    requires from <= MAX_SLOTS
    ensures r == -1 <==> forall i: nat | from <= i < 16 :: i in o
    ensures r != -1 ==> from <= r < 16 && r !in o && forall i: nat | from <= i < r :: i in o
    decreases MAX_SLOTS - from
  {
    if from == MAX_SLOTS then -1
    else if from !in o then from
    else LowestFree(o, from + 1)
  }

  lemma LowestFreeIs(o: Owners, i: nat)
    requires i <= MAX_SLOTS && (i < MAX_SLOTS ==> i !in o) && forall j: nat | j < i :: j in o
    ensures LowestFree(o, 0) == if i < MAX_SLOTS then i else -1
  {}

  function Answer(o: Owners, r: Request): int {
    if r.Claim? then LowestFree(o, 0) else 0
  }

  function Next(o: Owners, r: Request): Owners {
    match r
    case Claim(id) => (var k := LowestFree(o, 0); if k >= 0 then o[k := OwnerName(id)] else o)
    case Release(slot) => if slot >= 0 then o - {slot} else o
  }

  /** The allocator after the first `n` requests of a history. */
  function After(h: seq<Request>, n: nat): Owners
    requires n <= |h|
  {
    if n == 0 then map[] else Next(After(h, n - 1), h[n - 1])
  }

  /** Request `a` was a claim and got slot `k`. */
  predicate Granted(h: seq<Request>, a: nat, k: nat) {
    a < |h| && h[a].Claim? && Answer(After(h, a), h[a]) == k
  }

  predicate ReleasedBetween(h: seq<Request>, k: nat, lo: nat, hi: nat) {
    exists c | lo <= c < hi && c < |h| :: h[c] == Release(k)
  }

  /** The claim that gave out slot `k` and still stands after `n` requests. */
  ghost predicate Standing(h: seq<Request>, a: nat, k: nat, n: nat) {
    a < n && Granted(h, a, k) && !ReleasedBetween(h, k, a + 1, n)
  }

  /** A slot is held exactly when some claim of it still stands, under that claim's name. */
  lemma {:induction false} HeldByStandingClaim(h: seq<Request>, n: nat, k: nat) returns (a: nat)
    requires n <= |h|
    ensures k in After(h, n) ==> Standing(h, a, k, n) && After(h, n)[k] == OwnerName(h[a].id)
    ensures k !in After(h, n) ==> forall b: nat :: !Standing(h, b, k, n)
  {
    a := 0;
    if n > 0 {
      var before := After(h, n - 1);
      var last := h[n - 1];
      var a' := HeldByStandingClaim(h, n - 1, k);
      var granted := Granted(h, n - 1, k);
      a := if granted then n - 1 else a';
      forall b: nat | k !in After(h, n) ensures !Standing(h, b, k, n) {
        if Standing(h, b, k, n) && b < n - 1 {
          assert last != Release(k);
          assert !ReleasedBetween(h, k, b + 1, n - 1);
          assert Standing(h, b, k, n - 1);
        }
      }
    }
  }

  /** No slot is given out twice without a release in between. */
  lemma NoDoubleGrant(h: seq<Request>, a: nat, b: nat, k: nat)
    requires a < b && Granted(h, a, k) && Granted(h, b, k)
    ensures ReleasedBetween(h, k, a + 1, b)
  {
    if !ReleasedBetween(h, k, a + 1, b) {
      assert Standing(h, a, k, b);
      var _ := HeldByStandingClaim(h, b, k);
    }
  }

  // ---------------------------------------------------------------- the slot manager

  lemma PaddedName(dst: string, id: string)
    requires |dst| == ID_LEN && dst[ID_LEN - 1] == NUL && NulFree(id)
    ensures var r := StrNCpy(dst, id, ID_LEN - 1);
            |r| == 64 && r[63] == NUL && CStr(r) == OwnerName(id) == Take(id, 63)
  {
    Terminated(StrNCpy(dst, id, ID_LEN - 1), OwnerName(id));
  }

  class SlotManager {
    const slotMap: array<int>
    const slotViewers: array<string>

    /** Names are 64-byte buffers, always terminated; free slots have all-zero names. */
    ghost predicate Valid()
      reads this, slotMap, slotViewers
    {
      && slotMap.Length == MAX_SLOTS && slotViewers.Length == MAX_SLOTS
      && forall i | 0 <= i < MAX_SLOTS ::
           && |slotViewers[i]| == ID_LEN && slotViewers[i][ID_LEN - 1] == NUL
           && (slotMap[i] == 0 ==> slotViewers[i] == Zeros(ID_LEN))
    }

    ghost function Held(): Owners
      requires slotMap.Length == MAX_SLOTS && slotViewers.Length == MAX_SLOTS
      reads this, slotMap, slotViewers
    {
      map i: nat | i < MAX_SLOTS && slotMap[i] != 0 :: CStr(slotViewers[i])
    }

    constructor ()
      ensures Valid() && Held() == map[]
      ensures fresh(slotMap) && fresh(slotViewers)
    {
      slotMap := new int[MAX_SLOTS](_ => 0);
      slotViewers := new string[MAX_SLOTS](_ => Zeros(ID_LEN));
    }

    /** `slot_claim`; `None` is a null identifier. */
    method SlotClaim(viewerId: Option<string>) returns (slot: int)
      requires Valid() && (viewerId.Some? ==> NulFree(viewerId.value))
      modifies slotMap, slotViewers
      ensures Valid()
      ensures viewerId.None? ==> slot == -1 && Held() == old(Held())
      ensures viewerId.Some? ==> slot == Answer(old(Held()), Claim(viewerId.value))
      ensures viewerId.Some? ==> Held() == Next(old(Held()), Claim(viewerId.value))
    {
      if viewerId.None? { return -1; }
      var i := 0;
      while i < MAX_SLOTS && slotMap[i] != 0
        invariant 0 <= i <= MAX_SLOTS
        invariant forall j: nat | j < i :: j in Held()
        modifies {}
      {
        i := i + 1;
      }
      LowestFreeIs(Held(), i);
      if i == MAX_SLOTS { return -1; }
      Occupy(i, viewerId.value);
      slot := i;
    }

    /** The body of the search loop once a free slot is found. */
    method Occupy(i: nat, id: string)
      requires Valid() && i < MAX_SLOTS && NulFree(id)
      modifies slotMap, slotViewers
      ensures Valid() && Held() == old(Held())[i := OwnerName(id)]
    {
      slotMap[i] := 1;
      PaddedName(slotViewers[i], id);
      slotViewers[i] := StrNCpy(slotViewers[i], id, ID_LEN - 1);
      assert forall j: nat | j < MAX_SLOTS && j != i :: j in Held() <==> j in old(Held());
    }

    /** `slot_release`. */
    method SlotRelease(slot: int)
      requires Valid()
      modifies slotMap, slotViewers
      ensures Valid()
      ensures Held() == Next(old(Held()), Release(slot))
      ensures forall i | 0 <= i < MAX_SLOTS && i != slot ::
                slotMap[i] == old(slotMap[i]) && slotViewers[i] == old(slotViewers[i])
    {
      if slot < 0 || slot >= MAX_SLOTS { return; }
      if slotMap[slot] == 0 { return; }
      slotMap[slot] := 0;
      slotViewers[slot] := Zeros(ID_LEN);
    }
  }
}
