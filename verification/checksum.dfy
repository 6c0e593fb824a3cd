/** The checksum engine and the channel byte (easybus.py, `channel` and `crc`).

    `crc` shifts a register left sixteen times, XOR-ing in 0x700 whenever
    bit 15 was set, and returns the complement of bits 8..15. In Python the
    register is an unbounded integer that keeps growing; `CrcRegister` models
    exactly that. `CrcRegister16` is the register a 16-bit implementation
    keeps, and `RegisterMasked` proves the two agree on every bit the
    checksum reads.
 */
module Checksum {
  import opened Bits

  /** The address byte put on the wire: the address inverted. */
  function Channel(address: int): (b: Byte)
    ensures b == 255 - address % 256
    ensures 0 <= address <= 255 ==> b == 255 - address
  {
    Invert8(address)
  }

  /** Inverting twice gives back the address, reduced to one byte. */
  lemma ChannelInvolution(address: int)
    ensures Channel(Channel(address)) == address % 256
    ensures 0 <= address <= 255 ==> Channel(Channel(address)) == address
  {
  }

  const Polynomial: nat := 0x700

  /** The number of rounds `crc` runs: one per bit of the two input bytes. */
  const Rounds: nat := 16

  /** One round of the Python loop on the unbounded register: the register
      doubles, and when bit 15 was set, bits 8..10 of the doubled register
      are complemented. */
  function CrcStep(h: nat): (h': nat)
    ensures h % 0x10000 < 0x8000 ==> h' == 2 * h
    ensures h % 0x10000 >= 0x8000 ==> h' == 2 * h + 256 * (7 - 2 * (2 * h / 256 % 8))
  {
    TopBitMasked(h);
    PolynomialToggle(h * 2);
    if And(h, 0x8000) != 0 then Xor(h * 2, Polynomial) else h * 2
  }

  /** `rounds` rounds of the Python loop on the unbounded register. */
  function CrcRegister(h: nat, rounds: nat): nat
    // `rounds` alone proves termination; naming `h` keeps the verifier from
    // unrolling all rounds whenever `rounds` is a literal but `h` is not.
    decreases rounds, h
  {
    if rounds == 0 then h else CrcRegister(CrcStep(h), rounds - 1)
  }

  /** One round on a register held in 16 bits: test the top bit, shift it
      out of the word, XOR in the polynomial. */
  function CrcStep16(h: nat): (h': nat)
    requires h < 0x10000
    ensures h' < 0x10000
  {
    var shifted := (h * 2) % 0x10000;
    Pow2Values();
    XorBound(shifted, Polynomial, 16, 0x10000);
    if h >= 0x8000 then Xor(shifted, Polynomial) else shifted
  }

  /** `rounds` rounds on a 16-bit register: the reference the Python loop is
      compared with. */
  function CrcRegister16(h: nat, rounds: nat): (r: nat)
    requires h < 0x10000
    ensures r < 0x10000
    // As for `CrcRegister`: `h` is named only to stop literal unrolling.
    decreases rounds, h
  {
    if rounds == 0 then h else CrcRegister16(CrcStep16(h), rounds - 1)
  }

  /** The checksum byte sent after each pair of data bytes: the complement
      of bits 8..15 of the register after sixteen rounds. */
  function Crc(byte1: Byte, byte2: Byte): (c: Byte)
    ensures c == 255 - CrcRegister16(byte1 * 256 + byte2, Rounds) / 256
  {
    Complement(byte1 * 256 + byte2, Rounds)
  }

  /** `~(helper >> 8) & 0xFF` after `rounds` rounds of the Python loop. */
  function Complement(h: nat, rounds: nat): (c: Byte)
    requires h < 0x10000
    ensures c == 255 - CrcRegister16(h, rounds) / 256
  {
    ComplementMasked(h, rounds);
    Invert8(CrcRegister(h, rounds) / 256)
  }

  lemma ComplementMasked(h: nat, rounds: nat)
    requires h < 0x10000
    ensures Invert8(CrcRegister(h, rounds) / 256) == 255 - CrcRegister16(h, rounds) / 256
  {
    var r := CrcRegister(h, rounds);
    var low := CrcRegister16(h, rounds);
    DivModUnique(h, 0x10000, 0, h);
    RegisterMasked(h, rounds);
    SecondByte(r, low);
    DivBasics(low, 256);
  }

  /** Bits 8..15 of `r` are bits 8..15 of `r mod 2^16`. */
  lemma SecondByte(r: nat, low: nat)
    requires r % 0x10000 == low
    ensures r / 256 % 256 == low / 256
  {
    DivMod(r, 256, 256);
  }

  /** Python's `helper & 0x8000` tests bit 15, which survives masking to 16 bits. */
  lemma TopBitMasked(h: nat)
    ensures And(h, 0x8000) != 0 <==> h % 0x10000 >= 0x8000
  {
    Pow2Values();
    AndSingleBit(h, 15, 0x8000);
    DivMod(h, 0x8000, 2);
    DivBasics(h % 0x10000, 0x8000);
  }

  lemma DoubleMod(h: nat, n: nat)
    requires n >= 1
    ensures (h * 2) % n == ((h % n) * 2) % n
  {
    var q := h / n;
    assert h * 2 == (q * 2) * n + (h % n) * 2;
    DivBasics(h * 2, n);
    DivBasics((h % n) * 2, n);
    var r := (h % n) * 2;
    DivModUnique(h * 2, n, q * 2 + r / n, r % n);
  }

  /** Bits 0..15 of one round depend only on bits 0..15 of the register. */
  lemma StepMasked(h: nat)
    ensures CrcStep(h) % 0x10000 == CrcStep16(h % 0x10000)
  {
    var m := h % 0x10000;
    TopBitMasked(h);
    DoubleMod(h, 0x10000);
    var shifted := (m * 2) % 0x10000;
    if m >= 0x8000 {
      Pow2Values();
      XorMod(h * 2, Polynomial, 16, 0x10000);
      assert CrcStep(h) % 0x10000 == Xor(shifted, Polynomial);
    } else {
      assert CrcStep(h) % 0x10000 == shifted;
    }
  }

  /** Running the Python loop on the unbounded register and keeping bits
      0..15 is the same as running it on a 16-bit register. */
  lemma {:induction false} RegisterMasked(h: nat, rounds: nat)
    ensures CrcRegister(h, rounds) % 0x10000 == CrcRegister16(h % 0x10000, rounds)
    decreases rounds, h
  {
    if rounds > 0 {
      var next := CrcStep(h);
      assert CrcRegister(h, rounds) == CrcRegister(next, rounds - 1);
      assert CrcRegister16(h % 0x10000, rounds) == CrcRegister16(CrcStep16(h % 0x10000), rounds - 1);
      StepMasked(h);
      RegisterMasked(next, rounds - 1);
    }
  }

  /** XOR with the polynomial 0x700 complements bits 8..10 and leaves the rest. */
  lemma PolynomialToggle(x: nat)
    ensures Xor(x, Polynomial) == x + 256 * (7 - 2 * (x / 256 % 8))
  {
    var y := x % 0x800;
    Pow2Values();
    DivMod(x, 256, 8);
    XorLow(x, Polynomial, 11, 0x800);
    XorShifted(y, 7, 8, 256);
    DivBasics(y, 256);
    XorAllOnes(y / 256, 3, 8);
  }

  /** `next` follows `h` in one round, given the upper byte `q` of the
      doubled register so that no division is needed to check it. */
  predicate Linked(h: nat, q: nat, next: nat)
  {
    if h >= 0x8000 then
      q * 256 <= h * 2 - 0x10000 < q * 256 + 256 && next == h * 2 - 0x10000 + (7 - 2 * (q % 8)) * 256
    else next == h * 2
  }

  /** One 16-bit round in arithmetic terms: the register doubles and drops
      bit 16, and if bit 15 was set, bits 8..10 are complemented. */
  lemma RoundArithmetic(h: nat)
    requires h < 0x10000
    ensures h < 0x8000 ==> CrcStep16(h) == 2 * h
    ensures h >= 0x8000 ==>
              CrcStep16(h) == 2 * h - 0x10000 + 256 * (7 - 2 * ((2 * h - 0x10000) / 256 % 8))
  {
    if h >= 0x8000 {
      var g := h * 2 - 0x10000;
      DivModUnique(h * 2, 0x10000, 1, g);
      assert CrcStep16(h) == Xor(g, Polynomial);
      PolynomialToggle(g);
    } else {
      DivModUnique(h * 2, 0x10000, 0, h * 2);
    }
  }

  lemma Step(h: nat, q: nat, next: nat, rounds: nat)
    requires h < 0x10000 && Linked(h, q, next)
    ensures next < 0x10000
    ensures CrcRegister16(h, rounds + 1) == CrcRegister16(next, rounds)
  {
    RoundArithmetic(h);
    if h >= 0x8000 {
      LinkedHigh(h, q, next);
    }
    assert CrcStep16(h) == next;
    assert CrcRegister16(h, rounds + 1) == CrcRegister16(CrcStep16(h), rounds);
  }

  lemma LinkedHigh(h: nat, q: nat, next: nat)
    requires 0x8000 <= h < 0x10000 && Linked(h, q, next)
    ensures next == 2 * h - 0x10000 + 256 * (7 - 2 * ((2 * h - 0x10000) / 256 % 8))
  {
    var g := h * 2 - 0x10000;
    DivModUnique(g, 256, q, g - q * 256);
  }

  /** `t` lists the 16-bit register before each of the sixteen rounds and
      after the last; `w` holds the upper byte of each doubled register.
      The sixteen links are written out in two halves only to keep each
      proof about them small for the solver. */
  predicate IsTrace(t: seq<nat>, w: seq<nat>)
  {
    |t| == 17 && |w| == 16 && t[0] < 0x10000 && FirstHalf(t, w) && SecondHalf(t, w)
  }

  predicate FirstHalf(t: seq<nat>, w: seq<nat>)
    requires |t| == 17 && |w| == 16
  {
    Linked(t[0], w[0], t[1]) && Linked(t[1], w[1], t[2]) && Linked(t[2], w[2], t[3]) &&
    Linked(t[3], w[3], t[4]) && Linked(t[4], w[4], t[5]) && Linked(t[5], w[5], t[6]) &&
    Linked(t[6], w[6], t[7]) && Linked(t[7], w[7], t[8])
  }

  predicate SecondHalf(t: seq<nat>, w: seq<nat>)
    requires |t| == 17 && |w| == 16
  {
    Linked(t[8], w[8], t[9]) && Linked(t[9], w[9], t[10]) && Linked(t[10], w[10], t[11]) &&
    Linked(t[11], w[11], t[12]) && Linked(t[12], w[12], t[13]) && Linked(t[13], w[13], t[14]) &&
    Linked(t[14], w[14], t[15]) && Linked(t[15], w[15], t[16])
  }

  lemma TraceFirst(t: seq<nat>, w: seq<nat>)
    requires |t| == 17 && |w| == 16 && t[0] < 0x10000 && FirstHalf(t, w)
    ensures t[8] < 0x10000 && CrcRegister16(t[0], Rounds) == CrcRegister16(t[8], 8)
  {
    Step(t[0], w[0], t[1], 15); Step(t[1], w[1], t[2], 14); Step(t[2], w[2], t[3], 13);
    Step(t[3], w[3], t[4], 12); Step(t[4], w[4], t[5], 11); Step(t[5], w[5], t[6], 10);
    Step(t[6], w[6], t[7], 9); Step(t[7], w[7], t[8], 8);
  }

  lemma TraceSecond(t: seq<nat>, w: seq<nat>)
    requires |t| == 17 && |w| == 16 && t[8] < 0x10000 && SecondHalf(t, w)
    ensures CrcRegister16(t[8], 8) == t[16]
  {
    Step(t[8], w[8], t[9], 7); Step(t[9], w[9], t[10], 6); Step(t[10], w[10], t[11], 5);
    Step(t[11], w[11], t[12], 4); Step(t[12], w[12], t[13], 3); Step(t[13], w[13], t[14], 2);
    Step(t[14], w[14], t[15], 1); Step(t[15], w[15], t[16], 0);
  }

  lemma Trace(t: seq<nat>, w: seq<nat>)
    requires IsTrace(t, w)
    ensures CrcRegister16(t[0], Rounds) == t[16]
  {
    TraceFirst(t, w);
    TraceSecond(t, w);
  }

  /** The checksum in the value request for address 1: FE 00 3D. */
  lemma ValueRequestChecksum()
    ensures Crc(254, 0) == 0x3D
  {
    Trace([0xFE00, 0xFB00, 0xF100, 0xE500, 0xCD00, 0x9D00, 0x3D00, 0x7A00, 0xF400,
           0xEF00, 0xD900, 0xB500, 0x6D00, 0xDA00, 0xB300, 0x6100, 0xC200],
          [252, 246, 226, 202, 154, 58, 0, 0, 232, 222, 178, 106, 0, 180, 102, 0]);
  }

  /** The checksums in the display-unit request for address 1: FE F2 ED 35 00 47. */
  lemma UnitCommandChecksum()
    ensures Crc(254, 242) == 0xED
  {
    Trace([0xFEF2, 0xFAE4, 0xF2C8, 0xE290, 0xC220, 0x8340, 0x0180, 0x0300, 0x0600,
           0x0C00, 0x1800, 0x3000, 0x6000, 0xC000, 0x8700, 0x0900, 0x1200],
          [253, 245, 229, 197, 132, 6, 0, 0, 0, 0, 0, 0, 0, 128, 14, 0]);
  }

  lemma UnitSelectorChecksum()
    ensures Crc(53, 0) == 0x47
  {
    Trace([0x3500, 0x6A00, 0xD400, 0xAF00, 0x5900, 0xB200, 0x6300, 0xC600, 0x8B00,
           0x1100, 0x2200, 0x4400, 0x8800, 0x1700, 0x2E00, 0x5C00, 0xB800],
          [0, 0, 168, 94, 0, 100, 0, 140, 22, 0, 0, 0, 16, 0, 0, 0]);
  }
}
