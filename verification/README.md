# Easybus protocol codec in Dafny

A model of the protocol codec of the Easybus Python interface
(`easybus.py`). Easybus instruments, such as the GMH3750 thermometer,
answer framed requests on a serial line. The model covers:

- **Checksum engine** (module `Checksum`, on module `Bits`):
  - the inverted channel byte, `~address & 0xFF`;
  - the 16-round checksum. It shifts a register left, XORs in 0x700 whenever
    bit 15 was set, and complements bits 8..15. Python's register is an
    unbounded integer. `Checksum.RegisterMasked` proves that it agrees with a
    16-bit register on every bit the checksum reads.
- **Request framing** (module `Frames`):
  - requests are runs of (byte, byte, checksum) triples;
  - the measured-value request is one triple: channel, command 0;
  - the display-unit request is two triples: channel, 242, then 53, 0;
  - framing and extracting the payload are inverse to each other.
- **Value decoding** (module `Decoder`):
  - the steps of `value`, one function each: `decode_u16`, `decode_u32`,
    the exponent `float_pos`, the 27-bit mask, `crop_u32`, the sign
    extension and bias, `to_signed32`;
  - the error branch;
  - a reference reading of the 27-bit word (two's complement plus the bias)
    that the pipeline is proved equal to;
  - an encoder, and the round trip in both directions.
- **Unit decoding** (module `Units`): the unit code of bytes 6 and 7, looked
  up in the unit table (module `Tables`). Byte 6 is inverted before it
  becomes the high byte. So bytes FF 01 give code 1, °C
  (`Units.CelsiusExample`), and bytes FE 00 give code 256, which the table
  lacks (`Units.UnknownUnitExample`).
- **The code as written** (module `AsWritten`):
  - `value` and `display_unit` with their defects, which raise Python
    exceptions;
  - the inputs that show each defect;
  - proofs that, wherever the code as written returns, it agrees with the
    corrected decoders.

Python's integer bit operations (`&`, `|`, `^` on non-negative ints) share
one recursive definition, `Bits.Bitwise`. The exception is `~x & 0xFF`,
whose `&` acts on a negative int. `Bits.Invert8` defines it directly as
`(-x - 1) mod 256`, Python's two's-complement reading of `~x`. Every other
bit fact the codec relies on is derived from `Bits.Bitwise`: `|` of disjoint ranges is `+`, a mask keeps the low bits,
and so on. A decoded response is a `Decoder.Decoded`:

- a reading `(mantissa, exponent)` that stands for `mantissa / 10^exponent`;
- a device error message;
- an unknown error code;
- no data;
- a malformed (short) response;
- a unit name;
- an unknown unit code.

## Model

| member | source | states |
|---|---|---|
| Bits.Invert8 | easybus.py:119 | Python's `~x & 0xFF` is `255 - x mod 256` for every int, including negative ones, and `255 - x` for a byte |
| Checksum.Channel | easybus.py:113-119 | the channel byte of an address is the inverted low byte of the address; address 1 gives 254 |
| Checksum.ChannelInvolution | easybus.py:113-119 | inverting the channel byte again gives back the address mod 256, and the address itself for 0..255 |
| Checksum.CrcStep | easybus.py:127-130 | one round of the Python loop doubles the unbounded register, and when bit 15 was set it also complements bits 8..10 of the doubled value; no bit is dropped |
| Checksum.CrcStep16 | easybus.py:127-130 | one round on a register kept in 16 bits stays below 2^16 |
| Checksum.RoundArithmetic | easybus.py:127-130 | a 16-bit round doubles a register below 0x8000; from 0x8000 on, it drops bit 16 and complements bits 8..10 of the doubled value |
| Checksum.CrcRegister | easybus.py:126-130 | the Python register after a number of rounds, unbounded; its contract is `Checksum.RegisterMasked`, which ties it to the 16-bit register |
| Checksum.CrcRegister16 | easybus.py:126-130 | the 16-bit register after a number of rounds: the reference for the Python loop, with its contract in `Checksum.Step` and `Checksum.Trace` |
| Checksum.StepMasked | easybus.py:127-130 | bits 0..15 of one round on the unbounded register depend only on bits 0..15 before it, and they are the 16-bit round |
| Checksum.TopBitMasked | easybus.py:127 | `helper & 0x8000` is non-zero exactly when bit 15 of the register is set |
| Checksum.RegisterMasked | easybus.py:125-130 | after any number of rounds, the unbounded Python register agrees mod 2^16 with a register kept in 16 bits |
| Checksum.ComplementMasked | easybus.py:131-132 | the complemented second byte of the unbounded register equals that of the 16-bit register, so the bits above 16 never reach the checksum |
| Checksum.Complement | easybus.py:125-132 | the checksum is `255 - (bits 8..15 of the 16-bit register after the rounds)`, and it is a byte |
| Checksum.Crc | easybus.py:121-132 | `crc(b1, b2)` is the complemented upper byte of the 16-bit register after 16 rounds started from `b1 * 256 + b2` |
| Checksum.PolynomialToggle | easybus.py:128 | XOR with 0x700 complements bits 8..10 and leaves every other bit alone |
| Checksum.Step | easybus.py:126-130 | a claimed successor register, checked with its upper byte as a witness, is the register one round later |
| Checksum.Trace | easybus.py:126-130 | a checked 17-entry trace of registers ends in the register the 16 rounds produce |
| Checksum.ValueRequestChecksum | easybus.py:121-132 | `crc(254, 0)` is 0x3D |
| Checksum.UnitCommandChecksum | easybus.py:121-132 | `crc(254, 242)` is 0xED |
| Checksum.UnitSelectorChecksum | easybus.py:121-132 | `crc(53, 0)` is 0x47 |
| Frames.Frame | easybus.py:203-205 | framing n data pairs gives 3n bytes; where each byte goes is `Frames.FrameAt` |
| Frames.WellFramed | easybus.py:203-205 | a run checks when its first triple ends in the checksum of its two data bytes and the rest checks; `Frames.WellFramedMeans` restates it triple by triple |
| Frames.Payload | easybus.py:203-205 | the data pairs of a checked run, one per triple, so a third of its length; pair i is `Frames.PayloadAt` |
| Frames.WellFramedMeans | easybus.py:203-205 | a run checks exactly when its length is a multiple of three and, for every i, byte 3i+2 is the checksum of bytes 3i and 3i+1 |
| Frames.FrameAt | easybus.py:203-205 | triple i of a framed run is pair i followed by the checksum of that pair |
| Frames.PayloadAt | easybus.py:203-205 | pair i of a checked run's payload is bytes 3i and 3i+1 of the run |
| Frames.FrameAppend | easybus.py:203-205 | framing two runs of pairs one after the other gives the two framings one after the other |
| Frames.FramedConcat | easybus.py:203-205 | two checked runs side by side form a checked run whose pairs are the first run's pairs followed by the second's |
| Frames.Triple | easybus.py:160-162 | one framed pair is three bytes: the two data bytes, then a checksum that checks; its payload is that pair |
| Frames.FrameThenPayload | easybus.py:203-205 | framing any list of data pairs gives a run in which every third byte checks, and dropping the checksums gives the pairs back |
| Frames.PayloadThenFrame | easybus.py:203-205 | every run whose checksums check is the framing of its data pairs, so a checked run and its pairs determine each other |
| Frames.ValueRequest | easybus.py:160-163 | the value request is three bytes, its checksum checks, and it carries exactly the pair (channel byte, command 0) |
| Frames.UnitRequest | easybus.py:199-205 | the unit request is six bytes, both checksums check, and it carries exactly the pairs (channel byte, 242) and (53, 0) |
| Frames.RequestNamesAddress | easybus.py:161 | reading back the channel byte of either request gives the address it was built for, mod 256 |
| Frames.ValueRequestForAddressOne | easybus.py:160-163 | the value request for address 1 is FE 00 3D |
| Frames.UnitRequestForAddressOne | easybus.py:199-205 | the unit request for address 1 is FE F2 ED 35 00 47 |
| Tables.ErrorCodes | easybus.py:41-48 | the error table has a message for exactly the six codes 16352, 16353, 16362..16365 |
| Tables.UnitCodes | easybus.py:49-111 | the unit table has a name for exactly its 61 listed codes |
| Tables.UnitCodesBounded | easybus.py:49-111 | every code in the unit table lies in 1..177, so below 256 |
| Decoder.DecodeU16 | easybus.py:139-142 | `(255 - a) << 8 \| b` is the 16-bit number with the inverted `a` as its high byte and `b` as its low byte: `\|` acts as `+` |
| Decoder.DecodeU32 | easybus.py:144-146 | `a << 16 \| b` is `a * 65536 + b` whenever `b` fits in 16 bits |
| Decoder.CropU32 | easybus.py:148-154 | the size test leaves every value below 2^60 unchanged, and masks larger values to their low 32 bits |
| Decoder.ValueWord | easybus.py:168-177 | the 27-bit word is the low three bits of the inverted byte 3, then byte 4, inverted byte 6 and byte 7, and it is below 2^27 |
| Decoder.WordMask | easybus.py:177 | masking the 32-bit word with 0x07FFFFFF drops the five exponent bits and keeps the other 27 bits |
| Decoder.FloatPos | easybus.py:174-175 | the exponent lies in -15..16 and is the index, less 15, of the 8-wide block holding the inverted byte 3 |
| Decoder.Sext27 | easybus.py:179-185 | reference reading of a 27-bit word as two's complement: it lies in [-2^26, 2^26) and agrees with the word mod 2^27 |
| Decoder.SignBit | easybus.py:180-183 | `word & 0x04000000` is bit 26 of the word, and `\| 0xF8000000` adds bits 27..31 to a 27-bit word |
| Decoder.BiasCorrect | easybus.py:179-185 | below the threshold, the sign step sets bits 27..31 exactly when bit 26 is set, and then the bias 0x2000000 is added |
| Decoder.ToSigned32 | easybus.py:156-158 | `to_signed32` lies in [-2^31, 2^31) and agrees with its input mod 2^32 |
| Decoder.SignAndBias | easybus.py:179-190 | the sign step, bias and `to_signed32` together read the word as 27-bit two's complement and add the bias 0x2000000 |
| Decoder.Mantissa | easybus.py:179-190 | a reading lies in [-0x2000000, 0x6000000) and is negative exactly when its word lies in 0x4000000..0x5FFFFFF |
| Decoder.ErrorResult | easybus.py:186-188 | the error branch gives a device error exactly when the error table has the code, carrying the table's message for that code, and otherwise an unknown error code carrying the code itself |
| Decoder.DecodeValue | easybus.py:166-193 | corrected `value`: no data exactly for an empty buffer, malformed exactly for 1..7 bytes, readings within their ranges, never a unit |
| Decoder.DecodeValueMeaning | easybus.py:168-188 | an 8-byte-or-longer response decodes to the reference mantissa and exponent of its word, or to the error for `word - 133554432`, which lies in 0..663295 |
| Decoder.WordOf | easybus.py:179-190 | every encodable mantissa is carried by some word below the threshold |
| Decoder.WordOfMantissa | easybus.py:179-190 | conversely, every word below the threshold is the word of its own mantissa |
| Decoder.EncodedBytes | easybus.py:168-175 | bytes built from a word and an exponent are read back as that word and that exponent |
| Decoder.EncodeWord | easybus.py:168-177 | a nine-byte response carrying any 27-bit word and exponent in -15..16 decodes to that word and that exponent |
| Decoder.ValueRoundTrip | easybus.py:168-191 | every encodable reading with exponent -15..16 survives encoding followed by decoding |
| Decoder.ErrorRoundTrip | easybus.py:177-188 | every error code 0..663295 survives encoding followed by decoding |
| Decoder.ReadingsEncodable | easybus.py:179-191 | every decoded reading has an encodable mantissa and an exponent in -15..16, so the round trip covers every reading |
| Decoder.NegativeReadings | easybus.py:179-190 | a decoded reading is negative exactly when its word lies in 0x4000000..0x5FFFFFF |
| Decoder.Magnitude | easybus.py:191 | the value a reading stands for, multiplied by 10^exponent, is the mantissa; `10.0 ** float_pos` is the helper `Decoder.Pow10`, built on `Decoder.PowTen` for non-negative exponents |
| Decoder.OverrunExample | easybus.py:168-188 | bytes F8 F6 DF E0 carry error code 16352, measuring range overrun |
| Decoder.ReadingExample | easybus.py:168-191 | bytes 79 00 FF FD carry the reading 253 with exponent 1 |
| Decoder.NegativeExample | easybus.py:168-190 | bytes 82 FF 00 FF carry the reading -1 |
| Decoder.ReadingExampleValue | easybus.py:191 | the reading 253 with exponent 1 stands for 25.3 |
| Units.UnitCode | easybus.py:208-213 | the unit code is the inverted byte 6 as high byte above byte 7: `^ 255` complements and `\|` adds |
| Units.UnitCodeIsU16 | easybus.py:210-213 | the unit code equals `decode_u16` of bytes 6 and 7 |
| Units.DecodeUnit | easybus.py:207-214 | corrected `display_unit`: no data exactly for an empty buffer, malformed exactly for 1..7 bytes, otherwise a unit or an unknown unit code below 2^16 |
| Units.UnitFromLowByte | easybus.py:208-214 | a response names a unit exactly when byte 6 is 0xFF and byte 7 is in the unit table, and the name is the table's entry for byte 7 |
| Units.CelsiusExample | easybus.py:208-214 | bytes FF 01 name the unit °C |
| Units.UnknownUnitExample | easybus.py:208-214 | bytes FE 00 give unit code 256, which is not in the table |
| AsWritten.ValueAsWritten | easybus.py:166-193 | `value` as written raises IndexError exactly on buffers shorter than 8 bytes, never raises KeyError, and returns only readings |
| AsWritten.ValueAgreement | easybus.py:166-193 | where `value` as written returns, the corrected decoder agrees; it raises TypeError exactly on error responses and IndexError exactly on empty or short ones |
| AsWritten.DisplayUnitAsWritten | easybus.py:207-214 | `display_unit` as written raises IndexError exactly on buffers shorter than 8 bytes, never raises TypeError, and returns only units |
| AsWritten.UnitAgreement | easybus.py:207-214 | where `display_unit` as written returns, the corrected decoder agrees; it raises KeyError exactly on unknown unit codes |
| AsWritten.EmptyResponseRaises | easybus.py:166-168 | an empty read raises IndexError, because the test for emptiness never fires |
| AsWritten.ShortResponseRaises | easybus.py:168-169 | a three-byte read raises IndexError in both functions |
| AsWritten.OverrunRaises | easybus.py:186-188 | the overrun response raises TypeError instead of reporting error 1 |
| AsWritten.UnknownUnitRaises | easybus.py:214 | unit bytes FE 00 raise KeyError |

## Left out

- Serial I/O is not modelled: opening the port, `write`, `read(9)` and the timeout. A response is a parameter of the decoders. An empty or short buffer stands for a read that timed out.
- The float arithmetic of `value` is not modelled. A reading is returned as the exact pair (mantissa, exponent). `Decoder.Magnitude` gives the exact real value, but the rounding of `float(i32) / 10.0 ** float_pos` is not modelled.
- Decoder.CropU32: `sys.getsizeof` is modelled by the 64-bit CPython size of an int. It is 24 bytes for 0 and grows by 4 bytes per 30 bits of magnitude, so the mask applies from 2^60 on. Every value the codec passes in is below 2^33, far below 2^60, so the crop never changes anything. The sum at easybus.py:185 does reach 2^32 and above: the reading 253 of bytes 79 00 FF FD passes 0x1000000FD. `to_signed32` masks that bit away at easybus.py:157. Other interpreters or 32-bit builds are not modelled.
- Corrected `display_unit` on an empty buffer: the source has no empty-buffer test on that path. The corrected decoder reports no data there, as `value` intends to.
- The exception message texts and the class docstrings are not modelled.

## Findings

| source | as written | input that shows it | evidently intended | confidence | as-written member | corrected member |
|---|---|---|---|---|---|---|
| easybus.py:188 | `self.error_msg(error_num)` calls the error dict, which raises TypeError | bytes 3, 4, 6, 7 = F8 F6 DF E0 (error code 16352) | look the code up, `self.error_msg[error_num]`, and report the message or an unknown code | not executed | AsWritten.OverrunRaises | Decoder.ErrorResult |
| easybus.py:166-167 | `response == ""` compares `bytes` with `str` and is never true, so an empty read falls through to indexing | an empty read `b""` | report that no value was read | not executed | AsWritten.EmptyResponseRaises | Decoder.DecodeValue |
| easybus.py:168-169 | bytes 3..7 are indexed without a length check | the three-byte read FE 00 3D | report a short response | not executed | AsWritten.ShortResponseRaises | Decoder.DecodeValue |
| easybus.py:208-209 | bytes 6 and 7 are indexed without a length check | the three-byte read FE 00 3D | report a short response | not executed | AsWritten.ShortResponseRaises | Units.DecodeUnit |
| easybus.py:214 | `self.unit_nrs[int_dat]` raises KeyError for a code the table lacks | unit bytes FE 00 (code 256) | report the unknown unit code | not executed | AsWritten.UnknownUnitRaises | Units.DecodeUnit |
