/**
  The 16-byte gamepad packet (include/nearcade.h): its wire form, decoded by the data-channel
  callback of src/webrtc.cpp, and its Dictionary form in the Godot binding.
 */
module Packet {
  import opened CStrings

  type Byte = x: int | 0 <= x < 0x100
  type U16 = x: int | 0 <= x < 0x10000
  type I16 = x: int | -0x8000 <= x < 0x8000
  type I8 = x: int | -0x80 <= x < 0x80

  datatype GamepadPacket = GamepadPacket(
    kind: Byte, lx: I16, ly: I16, rx: I16, ry: I16, lt: Byte, rt: Byte,
    buttons: U16, hx: I8, hy: I8, slot: Byte)

  const PACKET_SIZE: nat := 16

  // ---------------------------------------------------------------- narrowing conversions

  /** Conversion to an unsigned type of `m` values. */
  function Unsigned(x: int, m: nat): (r: nat)
    requires m > 0
    ensures r < m
  {
    x % m
  }

  /** Conversion to a two's complement type of `2 * h` values. */
  function Signed(x: int, h: int): (r: int)
    requires h > 0
    ensures -h <= r < h
  {
    var u := x % (2 * h);
    if u < h then u else u - 2 * h
  }

  lemma SignedUnsigned(x: int)
    ensures -0x8000 <= x < 0x8000 ==> Signed(Unsigned(x, 0x10000), 0x8000) == x
    ensures -0x80 <= x < 0x80 ==> Signed(Unsigned(x, 0x100), 0x80) == x
    ensures 0 <= x < 0x10000 ==> Unsigned(Signed(x, 0x8000), 0x10000) == x
    ensures 0 <= x < 0x100 ==> Unsigned(Signed(x, 0x80), 0x100) == x
  {}

  // ---------------------------------------------------------------- the wire form

  /** A little-endian 16-bit field. */
  function Word(b: seq<Byte>, at: nat): (w: U16)
    requires at + 1 < |b|
  {
    var low: int, high: int := b[at], b[at + 1];
    low + 0x100 * high
  }

  function WordBytes(w: U16): (b: seq<Byte>)
    ensures |b| == 2 && Word(b, 0) == w
  {
    [w % 0x100, w / 0x100]
  }

  /** The `onMessage` callback: anything shorter than a packet is ignored. */
  function Decode(bin: seq<Byte>): Option<GamepadPacket> {
    if |bin| < PACKET_SIZE then None
    else Some(GamepadPacket(
                bin[0], Signed(Word(bin, 1), 0x8000), Signed(Word(bin, 3), 0x8000),
                Signed(Word(bin, 5), 0x8000), Signed(Word(bin, 7), 0x8000), bin[9], bin[10],
                Word(bin, 11), Signed(bin[13], 0x80), Signed(bin[14], 0x80), bin[15]))
  }

  function Encode(p: GamepadPacket): (b: seq<Byte>)
    ensures |b| == PACKET_SIZE
  {
    [p.kind] + WordBytes(Unsigned(p.lx, 0x10000)) + WordBytes(Unsigned(p.ly, 0x10000))
    + WordBytes(Unsigned(p.rx, 0x10000)) + WordBytes(Unsigned(p.ry, 0x10000)) + [p.lt, p.rt]
    + WordBytes(p.buttons) + [Unsigned(p.hx, 0x100), Unsigned(p.hy, 0x100), p.slot]
  }

  /** Two byte strings with the same words hold the same bytes. */
  lemma WordInjective(a: seq<Byte>, i: nat, b: seq<Byte>, j: nat)
    requires i + 1 < |a| && j + 1 < |b| && Word(a, i) == Word(b, j)
    ensures a[i] == b[j] && a[i + 1] == b[j + 1]
  {}

  /** Where each field of an encoded packet stands. */
  lemma EncodedFields(p: GamepadPacket)
    ensures var b := Encode(p);
            && b[0] == p.kind && b[9] == p.lt && b[10] == p.rt && b[15] == p.slot
            && Word(b, 1) == Unsigned(p.lx, 0x10000) && Word(b, 3) == Unsigned(p.ly, 0x10000)
            && Word(b, 5) == Unsigned(p.rx, 0x10000) && Word(b, 7) == Unsigned(p.ry, 0x10000)
            && Word(b, 11) == p.buttons
            && b[13] == Unsigned(p.hx, 0x100) && b[14] == Unsigned(p.hy, 0x100)
  {}

  /** Two bytes as a two's complement number, low byte first. */
  predicate SignedPair(x: int, low: int, high: int) {
    x == if high < 128 then low + 256 * high else low + 256 * high - 65536
  }

  predicate SignedByte(x: int, b: int) {
    x == if b < 128 then b else b - 256
  }

  /** Every field of a received packet, byte by byte; anything shorter than 16 bytes is no packet. */
  lemma DecodedBytes(bin: seq<Byte>)
    ensures Decode(bin).Some? <==> |bin| >= 16
    ensures |bin| >= 16 ==>
              var p := Decode(bin).value;
              && p.kind == bin[0] && p.lt == bin[9] && p.rt == bin[10] && p.slot == bin[15]
              && SignedPair(p.lx, bin[1], bin[2]) && SignedPair(p.ly, bin[3], bin[4])
              && SignedPair(p.rx, bin[5], bin[6]) && SignedPair(p.ry, bin[7], bin[8])
              && p.buttons == bin[11] as int + 256 * bin[12] as int
              && SignedByte(p.hx, bin[13]) && SignedByte(p.hy, bin[14])
  {
    if |bin| >= 16 {
      SignedWord(bin, 1);
      SignedWord(bin, 3);
      SignedWord(bin, 5);
      SignedWord(bin, 7);
    }
  }

  lemma SignedWord(bin: seq<Byte>, at: nat)
    requires at + 1 < |bin|
    ensures SignedPair(Signed(Word(bin, at), 0x8000), bin[at], bin[at + 1])
  {}

  /** Only the first 16 bytes count. */
  lemma DecodeIgnoresTail(b: seq<Byte>, tail: seq<Byte>)
    requires |b| >= PACKET_SIZE
    ensures Decode(b + tail) == Decode(b)
  {}

  /** Decoding undoes encoding, whatever bytes follow. */
  lemma DecodeEncode(p: GamepadPacket, tail: seq<Byte>)
    ensures Decode(Encode(p) + tail) == Some(p)
  {
    DecodeIgnoresTail(Encode(p), tail);
    EncodedFields(p);
    SignedUnsigned(p.lx);
    SignedUnsigned(p.ly);
    SignedUnsigned(p.rx);
    SignedUnsigned(p.ry);
    SignedUnsigned(p.hx);
    SignedUnsigned(p.hy);
  }

  /** A message decodes to a packet that re-encodes to exactly its first 16 bytes. */
  lemma EncodeDecode(bin: seq<Byte>)
    requires |bin| >= PACKET_SIZE
    ensures Decode(bin).Some? && Encode(Decode(bin).value) == bin[..PACKET_SIZE]
  {
    var p := Decode(bin).value;
    var b := Encode(p);
    EncodedFields(p);
    SignedUnsigned(Word(bin, 1));
    SignedUnsigned(Word(bin, 3));
    SignedUnsigned(Word(bin, 5));
    SignedUnsigned(Word(bin, 7));
    SignedUnsigned(bin[13]);
    SignedUnsigned(bin[14]);
    WordInjective(b, 1, bin, 1);
    WordInjective(b, 3, bin, 3);
    WordInjective(b, 5, bin, 5);
    WordInjective(b, 7, bin, 7);
    WordInjective(b, 11, bin, 11);
  }

  /** Two messages give the same packet exactly when their first 16 bytes agree. */
  lemma DecodeAgreesIff(a: seq<Byte>, b: seq<Byte>)
    requires |a| >= PACKET_SIZE && |b| >= PACKET_SIZE
    ensures Decode(a) == Decode(b) <==> a[..PACKET_SIZE] == b[..PACKET_SIZE]
  {
    EncodeDecode(a);
    EncodeDecode(b);
    DecodeEncode(Decode(a).value, a[PACKET_SIZE..]);
    DecodeEncode(Decode(b).value, b[PACKET_SIZE..]);
    assert a == a[..PACKET_SIZE] + a[PACKET_SIZE..];
    assert b == b[..PACKET_SIZE] + b[PACKET_SIZE..];
    if a[..PACKET_SIZE] == b[..PACKET_SIZE] {
      DecodeEncode(Decode(a).value, b[PACKET_SIZE..]);
    }
  }

  // ---------------------------------------------------------------- the Dictionary form

  type Dictionary = map<string, int>

  /** `poll_event` for an input packet: every field widened to `int`. */
  function ToDictionary(p: GamepadPacket): Dictionary {
    map["type" := p.kind, "lx" := p.lx, "ly" := p.ly, "rx" := p.rx, "ry" := p.ry,
        "lt" := p.lt, "rt" := p.rt, "buttons" := p.buttons, "hx" := p.hx, "hy" := p.hy,
        "slot" := p.slot]
  }

  /** A field of the Dictionary as a C `int`, or the default when it is missing. */
  function Field(d: Dictionary, key: string, default: int): int {
    if key in d then Signed(d[key], 0x8000_0000) else default
  }

  /** `submit_gamepad`: every field narrowed to the width it has in the packet. */
  function FromDictionary(d: Dictionary): GamepadPacket {
    GamepadPacket(
      Unsigned(Field(d, "type", 1), 0x100),
      Signed(Field(d, "lx", 0), 0x8000), Signed(Field(d, "ly", 0), 0x8000),
      Signed(Field(d, "rx", 0), 0x8000), Signed(Field(d, "ry", 0), 0x8000),
      Unsigned(Field(d, "lt", 0), 0x100), Unsigned(Field(d, "rt", 0), 0x100),
      Unsigned(Field(d, "buttons", 0), 0x10000),
      Signed(Field(d, "hx", 0), 0x80), Signed(Field(d, "hy", 0), 0x80),
      Unsigned(Field(d, "slot", 0), 0x100))
  }

  /** In range, both narrowing steps change nothing. */
  lemma NarrowInRange(x: int)
    requires -0x8000 <= x < 0x10000
    ensures Signed(x, 0x8000_0000) == x
    ensures x < 0x8000 ==> Signed(x, 0x8000) == x
    ensures -0x80 <= x < 0x80 ==> Signed(x, 0x80) == x
    ensures 0 <= x ==> Unsigned(x, 0x10000) == x
    ensures 0 <= x < 0x100 ==> Unsigned(x, 0x100) == x
  {}

  /** `x` is `v` cut down to `m` values, or the default when there is no `v`. */
  predicate Narrowed(x: int, d: Dictionary, key: string, m: nat, default: int)
    requires m > 0
  {
    if key in d then (x - d[key]) % m == 0 else x == default
  }

  /** As a C `int` a value is off by a multiple of 2^32. */
  lemma AsInt(x: int) returns (k: int)
    ensures Signed(x, 0x8000_0000) == x + 0x1_0000_0000 * k
  {
    k := if x % 0x1_0000_0000 < 0x8000_0000 then -(x / 0x1_0000_0000) else -(x / 0x1_0000_0000) - 1;
  }

  /** Cutting a number off by a multiple of 2^32 down to a byte keeps it congruent. */
  lemma ByteCongruent(x: int, k: int)
    ensures var y := x + 0x1_0000_0000 * k;
            (Unsigned(y, 0x100) - x) % 0x100 == 0 && (Signed(y, 0x80) - x) % 0x100 == 0
  {
    var y := x + 0x1_0000_0000 * k;
    assert y == 0x100 * (y / 0x100) + y % 0x100;
  }

  lemma WordCongruent(x: int, k: int)
    ensures var y := x + 0x1_0000_0000 * k;
            (Unsigned(y, 0x10000) - x) % 0x10000 == 0 && (Signed(y, 0x8000) - x) % 0x10000 == 0
  {
    var y := x + 0x1_0000_0000 * k;
    assert y == 0x10000 * (y / 0x10000) + y % 0x10000;
  }

  lemma NarrowField(d: Dictionary, key: string)
    ensures Narrowed(Unsigned(Field(d, key, 0), 0x100), d, key, 0x100, 0)
    ensures Narrowed(Unsigned(Field(d, key, 1), 0x100), d, key, 0x100, 1)
    ensures Narrowed(Unsigned(Field(d, key, 0), 0x10000), d, key, 0x10000, 0)
    ensures Narrowed(Signed(Field(d, key, 0), 0x8000), d, key, 0x10000, 0)
    ensures Narrowed(Signed(Field(d, key, 0), 0x80), d, key, 0x100, 0)
  {
    if key in d {
      var k := AsInt(d[key]);
      ByteCongruent(d[key], k);
      WordCongruent(d[key], k);
    }
  }

  /**
    What is submitted of any Dictionary: each field is congruent to its entry modulo its own width
    (which fixes it, in its range), or 0 when the entry is missing, 1 for the type.
   */
  lemma SubmittedFields(d: Dictionary)
    ensures var p := FromDictionary(d);
            && Narrowed(p.kind, d, "type", 256, 1) && Narrowed(p.slot, d, "slot", 256, 0)
            && Narrowed(p.lx, d, "lx", 65536, 0) && Narrowed(p.ly, d, "ly", 65536, 0)
            && Narrowed(p.rx, d, "rx", 65536, 0) && Narrowed(p.ry, d, "ry", 65536, 0)
            && Narrowed(p.lt, d, "lt", 256, 0) && Narrowed(p.rt, d, "rt", 256, 0)
            && Narrowed(p.buttons, d, "buttons", 65536, 0)
            && Narrowed(p.hx, d, "hx", 256, 0) && Narrowed(p.hy, d, "hy", 256, 0)
  {
    NarrowField(d, "type");
    NarrowField(d, "slot");
    NarrowField(d, "lx");
    NarrowField(d, "ly");
    NarrowField(d, "rx");
    NarrowField(d, "ry");
    NarrowField(d, "lt");
    NarrowField(d, "rt");
    NarrowField(d, "buttons");
    NarrowField(d, "hx");
    NarrowField(d, "hy");
  }

  /** A polled packet can be submitted again unchanged. */
  lemma DictionaryRoundTrip(p: GamepadPacket)
    ensures FromDictionary(ToDictionary(p)) == p
  {
    NarrowInRange(p.kind);
    NarrowInRange(p.lx);
    NarrowInRange(p.ly);
    NarrowInRange(p.rx);
    NarrowInRange(p.ry);
    NarrowInRange(p.lt);
    NarrowInRange(p.rt);
    NarrowInRange(p.buttons);
    NarrowInRange(p.hx);
    NarrowInRange(p.hy);
    NarrowInRange(p.slot);
    FieldsOfDictionary(p);
  }

  lemma FieldsOfDictionary(p: GamepadPacket)
    ensures var d := ToDictionary(p);
            && d.Keys == {"type", "lx", "ly", "rx", "ry", "lt", "rt", "buttons", "hx", "hy", "slot"}
            && d["type"] == p.kind && d["lx"] == p.lx && d["ly"] == p.ly && d["rx"] == p.rx
            && d["ry"] == p.ry && d["lt"] == p.lt && d["rt"] == p.rt && d["buttons"] == p.buttons
            && d["hx"] == p.hx && d["hy"] == p.hy && d["slot"] == p.slot
  {}
}
