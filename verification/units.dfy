/** Display-unit decoding (easybus.py, `display_unit`), with its defects
    corrected: an empty or short buffer and an unknown unit code are
    reported instead of raising. The code as written is modelled in module
    AsWritten.

    The unit code is the 16-bit number in bytes 6 and 7 of the response,
    byte 6 sent inverted, looked up in the unit table.
 */
module Units {
  import opened Bits
  import opened Tables
  import opened Decoder

  /** `int_dat`: `((0 | (high ^ 255)) << 8) | low`. */
  function UnitCode(high: Byte, low: Byte): (code: nat)
    ensures code == (255 - high) * 0x100 + low
    ensures code < 0x1_0000
  {
    Pow2Values();
    WithZero(OrBits, Xor(high, 255));
    XorAllOnes(high, 8, 0x100);
    JoinDisjoint(OrBits, 255 - high, low, 8, 0x100);
    Or(Or(0, Xor(high, 255)) * 0x100, low)
  }

  /** The unit code is the same 16-bit decoding `value` applies to bytes 6 and 7. */
  lemma UnitCodeIsU16(high: Byte, low: Byte)
    ensures UnitCode(high, low) == DecodeU16(high, low)
  {
  }

  /** `display_unit` with its defects corrected: the unit a response names. */
  function DecodeUnit(response: seq<Byte>): (d: Decoded)
    ensures d.NoData? <==> |response| == 0
    ensures d.Malformed? <==> 0 < |response| < MinResponseLength
    ensures d.Unit? || d.UnknownUnit? <==> |response| >= MinResponseLength
    ensures d.UnknownUnit? ==> d.code < 0x1_0000
  {
    if |response| == 0 then NoData
    else if |response| < MinResponseLength then Malformed
    else
      var code := UnitCode(response[6], response[7]);
      match UnitName(code)
      case Some(name) => Unit(name)
      case None => UnknownUnit(code)
  }

  /** Every unit code in the table is below 256, so a response names a unit
      exactly when byte 6 is 0xFF and byte 7 is a code in the table. */
  lemma UnitFromLowByte(response: seq<Byte>)
    requires |response| >= MinResponseLength
    ensures DecodeUnit(response).Unit? <==> response[6] == 0xFF && UnitName(response[7]).Some?
    ensures DecodeUnit(response).Unit? ==> DecodeUnit(response).name == UnitName(response[7]).value
    ensures DecodeUnit(response).UnknownUnit? ==>
              DecodeUnit(response).code == (255 - response[6] as int) * 0x100 + response[7] as int
  {
    var high, low := response[6], response[7];
    var code := UnitCode(high, low);
    assert DecodeUnit(response).Unit? <==> UnitName(code).Some?;
    if UnitName(code).Some? {
      UnitCodesBounded(code);
      assert high == 0xFF;
    }
    if high == 0xFF {
      assert code == low;
    }
  }

  /** Bytes 6, 7 = FF 01: unit code 1, degrees Celsius. */
  lemma CelsiusExample(response: seq<Byte>)
    requires |response| >= MinResponseLength
    requires response[6] == 0xFF && response[7] == 0x01
    ensures DecodeUnit(response) == Unit("\U{00B0}C")
  {
    UnitFromLowByte(response);
  }

  /** Bytes 6, 7 = FE 00: unit code 256, which the table does not list. */
  lemma UnknownUnitExample(response: seq<Byte>)
    requires |response| >= MinResponseLength
    requires response[6] == 0xFE && response[7] == 0x00
    ensures DecodeUnit(response) == UnknownUnit(256)
  {
    UnitFromLowByte(response);
  }
}
