/** Response decoding (easybus.py, `value` and `display_unit`), with the
    defects of the Python code corrected: an empty or short buffer is
    reported instead of raising, the error table is indexed rather than
    called, and an unknown unit code is reported instead of raising. The
    code as written is modelled in module AsWritten.

    A measured value travels in bytes 3, 4, 6 and 7 of the nine-byte
    response. Bytes 3 and 6 are sent inverted. The five high bits of the
    inverted byte 3 give the decimal exponent; the remaining 27 bits form a
    word that is either a biased 27-bit two's-complement mantissa or, from
    100000000 + 0x2000000 up, a device error code.
 */
module Decoder {
  import opened Bits
  import opened Tables

  /** What a response decodes to. `Reading(m, e)` stands for the value
      `m / 10^e`, which the Python code returns as a float. */
  datatype Decoded =
    | Reading(mantissa: int, exponent: int)
    | DeviceError(message: string)
    | UnknownErrorCode(code: int)
    | NoData
    | Malformed
    | Unit(name: string)
    | UnknownUnit(code: int)

  /** The offset added to a mantissa before it is sent. */
  const Bias: nat := 0x200_0000

  /** Words at or above this value carry an error code, not a reading. */
  const ErrorThreshold: nat := 100000000 + Bias

  /** The bytes a decoder reads are at indices 0..7. */
  const MinResponseLength: nat := 8

  // ---------------------------------------------------------------------------
  // The steps of `value`

  /** `decode_u16`: the inverted first byte above the second. */
  function DecodeU16(bytea: Byte, byteb: Byte): (data: nat)
    ensures data == (255 - bytea) * 0x100 + byteb
    ensures data < 0x1_0000
  {
    Pow2Values();
    JoinDisjoint(OrBits, 255 - bytea, byteb, 8, 0x100);
    Or((255 - bytea) * 0x100, byteb)
  }

  /** `decode_u32`: `inputa << 16 | inputb`, which is `+` when `inputb` fits in 16 bits. */
  function DecodeU32(inputa: nat, inputb: nat): (data: nat)
    ensures inputb < 0x1_0000 ==> data == inputa * 0x1_0000 + inputb
  {
    JoinBelow16(inputa, inputb);
    Or(inputa * 0x1_0000, inputb)
  }

  lemma JoinBelow16(hi: nat, lo: nat)
    ensures lo < 0x1_0000 ==> Or(hi * 0x1_0000, lo) == hi * 0x1_0000 + lo
  {
    if lo < 0x1_0000 {
      Pow2Values();
      JoinDisjoint(OrBits, hi, lo, 16, 0x1_0000);
    }
  }

  /** `float_pos`: the five high bits of the inverted byte 3, less 15.
      Python's `>> 3` on a non-negative int is floor division by 8. */
  function FloatPos(byte3: Byte): (e: int)
    ensures -15 <= e <= 16
    ensures 8 * (e + 15) <= 255 - byte3 < 8 * (e + 16)
  {
    (255 - byte3) / 8 - 15
  }

  /** `crop_u32`: masks to 32 bits only when `sys.getsizeof(value) > 32`.
      On 64-bit CPython an int's size is 24 bytes for 0 and grows by 4 bytes
      per 30 bits of magnitude (28 below 2^30, 32 below 2^60), so the mask
      applies from 2^60 on. */
  function CropU32(value: nat): (result: nat)
    ensures value < 0x1000_0000_0000_0000 ==> result == value
    ensures value >= 0x1000_0000_0000_0000 ==> result == value % 0x1_0000_0000
  {
    if value >= 0x1000_0000_0000_0000 then
      Pow2Values();
      AndLowMask(value, 32, 0x1_0000_0000);
      And(value, 0xFFFF_FFFF)
    else value
  }

  /** The 27-bit word of a response: the 32-bit word of bytes 3, 4, 6, 7
      with its five high bits (the exponent) masked off. */
  function ValueWord(byte3: Byte, byte4: Byte, byte6: Byte, byte7: Byte): (word: nat)
    ensures word == (255 - byte3) % 8 * 0x100_0000 + byte4 * 0x1_0000 + (255 - byte6) * 0x100 + byte7
    ensures word < 0x800_0000
  {
    var u32 := DecodeU32(DecodeU16(byte3, byte4), DecodeU16(byte6, byte7));
    WordMask(byte3, byte4, byte6, byte7, u32);
    CropU32(And(u32, 0x07FF_FFFF))
  }

  lemma WordMask(byte3: Byte, byte4: Byte, byte6: Byte, byte7: Byte, u32: nat)
    requires u32 == ((255 - byte3) * 0x100 + byte4) * 0x1_0000 + (255 - byte6) * 0x100 + byte7
    ensures And(u32, 0x07FF_FFFF) == (255 - byte3) % 8 * 0x100_0000 + byte4 * 0x1_0000 + (255 - byte6) * 0x100 + byte7
  {
    var top := 255 - byte3;
    var low := top % 8 * 0x100_0000 + byte4 * 0x1_0000 + (255 - byte6) * 0x100 + byte7;
    Pow2Values();
    AndLowMask(u32, 27, 0x800_0000);
    DivBasics(top, 8);
    assert u32 == top / 8 * 0x800_0000 + low;
    DivModUnique(u32, 0x800_0000, top / 8, low);
  }

  /** The 27-bit two's-complement reading of a word. */
  function Sext27(word: nat): (s: int)
    requires word < 0x800_0000
    ensures -0x400_0000 <= s < 0x400_0000
    ensures (word - s) % 0x800_0000 == 0
  {
    if word >= 0x400_0000 then word - 0x800_0000 else word
  }

  /** The sign step of `value` (easybus.py:180-185): sign-extend bit 26 into bits 27..31 with `| 0xF8000000`,
      then add the bias. */
  function BiasCorrect(word: nat): (biased: nat)
    requires word < ErrorThreshold
    ensures biased == (if word >= 0x400_0000 then word + 0xF800_0000 else word) + Bias
  {
    SignBit(word);
    var compare := CropU32(And(word, 0x0400_0000));
    var widened := if compare == 0x0400_0000 then CropU32(Or(word, 0xF800_0000)) else word;
    CropU32(widened + Bias)
  }

  lemma SignBit(word: nat)
    requires word < 0x800_0000
    ensures And(word, 0x0400_0000) == (if word >= 0x400_0000 then 0x400_0000 else 0)
    ensures Or(word, 0xF800_0000) == word + 0xF800_0000
  {
    Pow2Values();
    AndSingleBit(word, 26, 0x400_0000);
    DivModUnique(word, 0x400_0000, if word >= 0x400_0000 then 1 else 0, word % 0x400_0000);
    JoinDisjoint(OrBits, 31, word, 27, 0x800_0000);
  }

  /** `to_signed32`: reads the low 32 bits as two's complement. */
  function ToSigned32(value: nat): (s: int)
    ensures -0x8000_0000 <= s < 0x8000_0000
    ensures (value - s) % 0x1_0000_0000 == 0
  {
    var low := value % 0x1_0000_0000;
    Pow2Values();
    AndLowMask(value, 32, 0x1_0000_0000);
    XorTopBit(low, 31, 0x8000_0000);
    DivBasics(value, 0x1_0000_0000);
    Xor(And(value, 0xFFFF_FFFF), 0x8000_0000) - 0x8000_0000
  }

  /** Two values congruent to a third modulo `n` are congruent to each other. */
  lemma Congruent(a: int, b: int, c: int, n: int)
    requires n > 0 && (a - b) % n == 0 && (a - c) % n == 0
    ensures (b - c) % n == 0
  {
    var q1, q2 := (a - b) / n, (a - c) / n;
    assert a - b == n * q1;
    assert a - c == n * q2;
    assert b - c == (q2 - q1) * n;
    DivModUnique(b - c, n, q2 - q1, 0);
  }

  /** Two values in one window of width `n` that agree modulo `n` are equal. */
  lemma SameInWindow(a: int, b: int, lo: int, n: int)
    requires n > 0 && lo <= a < lo + n && lo <= b < lo + n && (a - b) % n == 0
    ensures a == b
  {
    var q := (a - b) / n;
    assert a - b == n * q;
    MulBounds(n, q);
  }

  /** The reading a word below the error threshold encodes: the sign and
      bias steps together with `to_signed32` amount to reading the word as a
      27-bit two's-complement number and adding the bias back. */
  lemma {:induction false} SignAndBias(word: nat)
    requires word < ErrorThreshold
    ensures ToSigned32(BiasCorrect(word)) == Sext27(word) + Bias
  {
    var biased := BiasCorrect(word);
    var s := ToSigned32(biased);
    var expected := Sext27(word) + Bias;
    if word >= 0x400_0000 {
      assert biased - expected == 0x1_0000_0000;
    } else {
      assert biased == expected;
    }
    Congruent(biased, s, expected, 0x1_0000_0000);
    SameInWindow(s, expected, -0x8000_0000, 0x1_0000_0000);
  }

  /** The mantissa a word carries, by the reference definition. */
  function Mantissa(word: nat): (m: int)
    requires word < ErrorThreshold
    ensures -0x200_0000 <= m < 0x600_0000
    ensures m < 0 <==> 0x400_0000 <= word < 0x600_0000
  {
    Sext27(word) + Bias
  }

  /** The error branch: `error_num` and what the corrected code reports for it. */
  function ErrorResult(errorNum: int): (d: Decoded)
    ensures d.DeviceError? || d.UnknownErrorCode?
    ensures d.DeviceError? <==> ErrorMessage(errorNum).Some?
    ensures d.DeviceError? ==> Some(d.message) == ErrorMessage(errorNum)
    ensures d.UnknownErrorCode? ==> d.code == errorNum
  {
    match ErrorMessage(errorNum)
    case Some(message) => DeviceError(message)
    case None => UnknownErrorCode(errorNum)
  }

  /** `value` with its defects corrected: the measured value of a response. */
  function DecodeValue(response: seq<Byte>): (d: Decoded)
    ensures d.NoData? <==> |response| == 0
    ensures d.Malformed? <==> 0 < |response| < MinResponseLength
    ensures d.Reading? ==> -0x200_0000 <= d.mantissa < 0x600_0000 && -15 <= d.exponent <= 16
    ensures !d.Unit? && !d.UnknownUnit?
  {
    if |response| == 0 then NoData
    else if |response| < MinResponseLength then Malformed
    else
      var byte3, byte4 := response[3], response[4];
      var byte6, byte7 := response[6], response[7];
      var floatPos := FloatPos(byte3);
      var word := ValueWord(byte3, byte4, byte6, byte7);
      if ErrorThreshold > word then
        SignAndBias(word);
        Reading(ToSigned32(BiasCorrect(word)), floatPos)
      else
        ErrorResult(word - Bias - 100000000)
  }

  // ---------------------------------------------------------------------------
  // What a response means

  /** A response of eight or more bytes decodes to the reading or the error
      its 27-bit word and exponent bits carry; an error code is at most 663295. */
  lemma DecodeValueMeaning(response: seq<Byte>)
    requires |response| >= MinResponseLength
    ensures var top: int, byte4: int, byte6: int, byte7: int := 255 - response[3], response[4], response[6], response[7];
            var word := top % 8 * 0x100_0000 + byte4 * 0x1_0000 + (255 - byte6) * 0x100 + byte7;
            && (word < ErrorThreshold ==> DecodeValue(response) == Reading(Mantissa(word), top / 8 - 15))
            && (word >= ErrorThreshold ==>
                  0 <= word - ErrorThreshold <= 663295 &&
                  DecodeValue(response) == ErrorResult(word - ErrorThreshold))
  {
    var word := ValueWord(response[3], response[4], response[6], response[7]);
    if word < ErrorThreshold {
      SignAndBias(word);
    }
  }

  /** The mantissas a response can carry. */
  predicate Encodable(m: int)
  {
    -0x200_0000 <= m < 0x1F5_E100 || 0x200_0000 <= m < 0x600_0000
  }

  /** The word that carries mantissa `m`: the inverse of `Mantissa`. */
  function WordOf(m: int): (word: nat)
    requires Encodable(m)
    ensures word < ErrorThreshold && Mantissa(word) == m
  {
    if m >= Bias then m - Bias else m + 0x600_0000
  }

  /** Every word below the threshold is the word of its mantissa. */
  lemma WordOfMantissa(word: nat)
    requires word < ErrorThreshold
    ensures Encodable(Mantissa(word)) && WordOf(Mantissa(word)) == word
  {
  }

  /** A nine-byte response carrying `word` and exponent `e`, with every byte the
      decoder ignores set to 0. */
  function EncodeWord(word: nat, e: int): (response: seq<Byte>)
    requires word < 0x800_0000 && -15 <= e <= 16
    ensures |response| == 9
    ensures ValueWord(response[3], response[4], response[6], response[7]) == word
    ensures FloatPos(response[3]) == e
  {
    var top := 8 * (e + 15) + word / 0x100_0000;
    EncodedBytes(word, e, top);
    [0, 0, 0, 255 - top, word / 0x1_0000 % 0x100, 0, 255 - word / 0x100 % 0x100, word % 0x100, 0]
  }

  lemma EncodedBytes(word: nat, e: int, top: int)
    requires word < 0x800_0000 && -15 <= e <= 16
    requires top == 8 * (e + 15) + word / 0x100_0000
    ensures 0 <= top <= 255
    ensures ValueWord(255 - top, word / 0x1_0000 % 0x100, 255 - word / 0x100 % 0x100, word % 0x100) == word
    ensures FloatPos(255 - top) == e
  {
    Digits(word);
    DivModUnique(top, 8, e + 15, word / 0x100_0000);
  }

  /** The bytes of a 27-bit word. */
  lemma Digits(word: nat)
    requires word < 0x800_0000
    ensures word / 0x100_0000 < 8
    ensures word == word / 0x100_0000 * 0x100_0000 + word / 0x1_0000 % 0x100 * 0x1_0000
                    + word / 0x100 % 0x100 * 0x100 + word % 0x100
  {
    DivMod(word, 0x100, 0x100);
    DivMod(word, 0x1_0000, 0x100);
    DivMod(word / 0x100, 0x100, 0x100);
    DivBasics(word, 0x100);
    DivBasics(word / 0x100, 0x100);
    DivBasics(word / 0x1_0000, 0x100);
  }

  /** Every reading with an encodable mantissa and an exponent in -15..16
      survives encoding and decoding. */
  lemma ValueRoundTrip(m: int, e: int)
    requires Encodable(m) && -15 <= e <= 16
    ensures DecodeValue(EncodeWord(WordOf(m), e)) == Reading(m, e)
  {
    var response := EncodeWord(WordOf(m), e);
    DecodeValueMeaning(response);
  }

  /** Every error code a 27-bit word can carry survives encoding and decoding. */
  lemma ErrorRoundTrip(code: int, e: int)
    requires 0 <= code <= 663295 && -15 <= e <= 16
    ensures DecodeValue(EncodeWord(code + ErrorThreshold, e)) == ErrorResult(code)
  {
    var response := EncodeWord(code + ErrorThreshold, e);
    DecodeValueMeaning(response);
  }

  /** Conversely, every reading a response decodes to has an encodable
      mantissa and an exponent in -15..16. */
  lemma ReadingsEncodable(response: seq<Byte>)
    requires DecodeValue(response).Reading?
    ensures Encodable(DecodeValue(response).mantissa)
    ensures -15 <= DecodeValue(response).exponent <= 16
  {
    DecodeValueMeaning(response);
    var word := ValueWord(response[3], response[4], response[6], response[7]);
    WordOfMantissa(word);
  }

  /** A reading is negative exactly when its word lies in 0x4000000..0x5FFFFFF. */
  lemma NegativeReadings(response: seq<Byte>)
    requires DecodeValue(response).Reading?
    ensures var word := ValueWord(response[3], response[4], response[6], response[7]);
            DecodeValue(response).mantissa < 0 <==> 0x400_0000 <= word < 0x600_0000
  {
    DecodeValueMeaning(response);
  }

  // ---------------------------------------------------------------------------
  // The value a reading stands for

  function PowTen(n: nat): (p: real)
    ensures p >= 1.0
  {
    if n == 0 then 1.0 else 10.0 * PowTen(n - 1)
  }

  /** `10.0 ** e` for an integer exponent of either sign. */
  function Pow10(e: int): (p: real)
    ensures p > 0.0
  {
    if e >= 0 then PowTen(e) else 1.0 / PowTen(-e)
  }

  /** The exact value a reading stands for; the Python code returns the
      nearest float to it. */
  function Magnitude(m: int, e: int): (v: real)
    ensures v * Pow10(e) == m as real
  {
    m as real / Pow10(e)
  }

  // ---------------------------------------------------------------------------
  // Worked responses

  /** Bytes 3, 4, 6, 7 = F8 F6 DF E0 carry word 0x7F620E0: error code 16352,
      measuring range overrun. */
  lemma OverrunExample(response: seq<Byte>)
    requires |response| >= MinResponseLength
    requires response[3] == 0xF8 && response[4] == 0xF6 && response[6] == 0xDF && response[7] == 0xE0
    ensures DecodeValue(response) == DeviceError("Error 1: measuring range overrun")
  {
    DecodeValueMeaning(response);
  }

  /** Bytes 3, 4, 6, 7 = 79 00 FF FD carry word 0x60000FD with exponent 1:
      253 / 10 = 25.3. */
  lemma ReadingExample(response: seq<Byte>)
    requires |response| >= MinResponseLength
    requires response[3] == 0x79 && response[4] == 0x00 && response[6] == 0xFF && response[7] == 0xFD
    ensures DecodeValue(response) == Reading(253, 1)
  {
    DecodeValueMeaning(response);
  }

  /** Bytes 3, 4, 6, 7 = 82 FF 00 FF carry word 0x5FFFFFF: the reading -1. */
  lemma NegativeExample(response: seq<Byte>)
    requires |response| >= MinResponseLength
    requires response[3] == 0x82 && response[4] == 0xFF && response[6] == 0x00 && response[7] == 0xFF
    ensures DecodeValue(response) == Reading(-1, 0)
  {
    DecodeValueMeaning(response);
  }

  /** The reading 253 with exponent 1 stands for 25.3. */
  lemma ReadingExampleValue()
    ensures Magnitude(253, 1) == 25.3
  {
    assert Pow10(1) == 10.0;
  }
}
