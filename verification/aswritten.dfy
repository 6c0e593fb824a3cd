/** `value` and `display_unit` exactly as written, defects included, next
    to the corrected decoders of modules Decoder and Units.

    Three things go wrong in the Python code:
    - `response == ""` compares `bytes` with `str`, which is never true in
      Python 3, so an empty read is never reported and falls through to
      `response[3]`, which raises IndexError; so does any read shorter than
      eight bytes, in both functions;
    - `self.error_msg(error_num)` calls a dict, which raises TypeError, so
      no device error is ever reported;
    - `self.unit_nrs[int_dat]` raises KeyError for a code not in the table.
 */
module AsWritten {
  import opened Bits
  import opened Tables
  import opened Decoder
  import opened Units

  /** The Python exceptions the two functions can raise. */
  datatype Exception = IndexError | TypeError | KeyError

  /** A call either returns a value or raises. */
  datatype Outcome = Returned(value: Decoded) | Raised(exception: Exception)

  /** `value` as written. The empty-response test never fires, indexing a
      buffer shorter than eight bytes raises IndexError, and the error
      branch raises TypeError. */
  function ValueAsWritten(response: seq<Byte>): (o: Outcome)
    ensures o == Raised(IndexError) <==> |response| < MinResponseLength
    ensures o.Raised? ==> o.exception != KeyError
    ensures o.Returned? ==> o.value.Reading?
  {
    // `response == ""` is False for every `bytes` value: no branch here.
    if |response| < MinResponseLength then Raised(IndexError)
    else
      var byte3, byte4 := response[3], response[4];
      var byte6, byte7 := response[6], response[7];
      var floatPos := FloatPos(byte3);
      var word := ValueWord(byte3, byte4, byte6, byte7);
      if ErrorThreshold > word then
        Returned(Reading(ToSigned32(BiasCorrect(word)), floatPos))
      else
        Raised(TypeError)
  }

  /** Where `value` as written returns, it returns what the corrected
      decoder does; it raises TypeError exactly where the corrected decoder
      reports a device error or an unknown error code. */
  lemma ValueAgreement(response: seq<Byte>)
    ensures ValueAsWritten(response).Returned? ==> ValueAsWritten(response).value == DecodeValue(response)
    ensures ValueAsWritten(response) == Raised(TypeError) <==>
              DecodeValue(response).DeviceError? || DecodeValue(response).UnknownErrorCode?
    ensures ValueAsWritten(response) == Raised(IndexError) <==>
              DecodeValue(response).NoData? || DecodeValue(response).Malformed?
  {
  }

  /** `display_unit` as written: IndexError on a short buffer, KeyError on a
      code missing from the table. */
  function DisplayUnitAsWritten(response: seq<Byte>): (o: Outcome)
    ensures o == Raised(IndexError) <==> |response| < MinResponseLength
    ensures o.Raised? ==> o.exception != TypeError
    ensures o.Returned? ==> o.value.Unit?
  {
    if |response| < MinResponseLength then Raised(IndexError)
    else
      var code := UnitCode(response[6], response[7]);
      match UnitName(code)
      case Some(name) => Returned(Unit(name))
      case None => Raised(KeyError)
  }

  /** Where `display_unit` as written returns, it returns what the corrected
      decoder does; it raises KeyError exactly where the corrected decoder
      reports an unknown unit, and IndexError where it reports no data or a
      short buffer. */
  lemma UnitAgreement(response: seq<Byte>)
    ensures DisplayUnitAsWritten(response).Returned? ==> DisplayUnitAsWritten(response).value == DecodeUnit(response)
    ensures DisplayUnitAsWritten(response) == Raised(KeyError) <==> DecodeUnit(response).UnknownUnit?
    ensures DisplayUnitAsWritten(response) == Raised(IndexError) <==>
              DecodeUnit(response).NoData? || DecodeUnit(response).Malformed?
  {
  }

  // ---------------------------------------------------------------------------
  // The inputs that show each defect

  /** An empty read: the code raises IndexError instead of reporting no data. */
  lemma EmptyResponseRaises()
    ensures ValueAsWritten([]) == Raised(IndexError)
    ensures DecodeValue([]) == NoData
  {
  }

  /** A three-byte read: both functions raise IndexError; the corrected
      decoders report a malformed response. */
  lemma ShortResponseRaises()
    ensures ValueAsWritten([0xFE, 0x00, 0x3D]) == Raised(IndexError)
    ensures DisplayUnitAsWritten([0xFE, 0x00, 0x3D]) == Raised(IndexError)
    ensures DecodeValue([0xFE, 0x00, 0x3D]) == Malformed
    ensures DecodeUnit([0xFE, 0x00, 0x3D]) == Malformed
  {
  }

  /** The overrun response: the code raises TypeError where the device
      reported error 1. */
  lemma OverrunRaises(response: seq<Byte>)
    requires |response| >= MinResponseLength
    requires response[3] == 0xF8 && response[4] == 0xF6 && response[6] == 0xDF && response[7] == 0xE0
    ensures ValueAsWritten(response) == Raised(TypeError)
    ensures DecodeValue(response) == DeviceError("Error 1: measuring range overrun")
  {
    OverrunExample(response);
    ValueAgreement(response);
  }

  /** Unit bytes FE 00: the code raises KeyError for unit code 256. */
  lemma UnknownUnitRaises(response: seq<Byte>)
    requires |response| >= MinResponseLength
    requires response[6] == 0xFE && response[7] == 0x00
    ensures DisplayUnitAsWritten(response) == Raised(KeyError)
    ensures DecodeUnit(response) == UnknownUnit(256)
  {
    UnknownUnitExample(response);
    UnitAgreement(response);
  }
}
