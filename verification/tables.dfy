/** The two lookup tables of easybus.py: device error codes and display units.
    Each is a Python dict; here each is a function answering `Some(entry)` for
    a key in the dict and `None` for any other key. */
module Tables {

  datatype Option<T> = None | Some(value: T)

  /** Error codes a device reports in place of a reading, with their messages. */
  function ErrorMessage(code: int): Option<string>
  {
    match code
    case 16352 => Some("Error 1: measuring range overrun")
    case 16353 => Some("Error 2: measuring range underrun")
    case 16362 => Some("Error 11: calculation not possible")
    case 16363 => Some("Error 7: system error")
    case 16364 => Some("Error 8: battery empty")
    case 16365 => Some("Error 9: sensor defective")
    case _ => None
  }

  /** Display-unit codes and the unit each names. */
  function UnitName(code: int): Option<string>
  {
    match code
    case 1 => Some("\U{00B0}C")
    case 2 => Some("\U{00B0}F")
    case 3 => Some("K")
    case 10 => Some("% r.F")
    case 20 => Some("bar")
    case 21 => Some("mbar")
    case 22 => Some("Pascal")
    case 23 => Some("hPascal")
    case 24 => Some("kPascal")
    case 25 => Some("MPascal")
    case 27 => Some("mmHg")
    case 28 => Some("PSI")
    case 29 => Some("mm H2O")
    case 30 => Some("S/cm")
    case 31 => Some("ms/cm")
    case 32 => Some("uS/cm")
    case 40 => Some("ph")
    case 42 => Some("rH")
    case 45 => Some("mg/l O2")
    case 46 => Some("% Sat O2")
    case 50 => Some("U/min")
    case 53 => Some("Hz")
    case 55 => Some("Impuls(e)")
    case 60 => Some("m/s")
    case 61 => Some("km/h")
    case 70 => Some("mm")
    case 71 => Some("m")
    case 72 => Some("inch")
    case 73 => Some("ft")
    case 80 => Some("l/h")
    case 81 => Some("l/min")
    case 82 => Some("m^3/h")
    case 83 => Some("m^3/min")
    case 90 => Some("g")
    case 91 => Some("kg")
    case 92 => Some("N")
    case 93 => Some("Nm")
    case 100 => Some("A")
    case 101 => Some("mA")
    case 105 => Some("V")
    case 106 => Some("mV")
    case 107 => Some("uV")
    case 111 => Some("W")
    case 112 => Some("kW")
    case 115 => Some("Wh")
    case 116 => Some("kWh")
    case 119 => Some("Wh/m2")
    case 120 => Some("mOhm")
    case 121 => Some("Ohm")
    case 122 => Some("kOhm")
    case 123 => Some("MOhm")
    case 125 => Some("kohm/cm")
    case 150 => Some("%")
    case 151 => Some("\U{00B0}")
    case 152 => Some("ppm")
    case 160 => Some("g/kg")
    case 170 => Some("kJ/kg")
    case 171 => Some("kcal/kg")
    case 175 => Some("dB")
    case 176 => Some("dBm")
    case 177 => Some("dBA")
    case _ => None
  }

  /** The error table has exactly six keys. */
  lemma ErrorCodes(code: int)
    ensures ErrorMessage(code).Some? <==> code in {16352, 16353, 16362, 16363, 16364, 16365}
  {
  }

  /** The unit table has exactly these 61 keys. */
  lemma UnitCodes(code: int)
    ensures UnitName(code).Some? <==> code in {1, 2, 3, 10, 20, 21, 22, 23, 24, 25, 27, 28, 29, 30, 31, 32, 40, 42, 45, 46, 50, 53, 55, 60, 61, 70, 71, 72, 73, 80, 81, 82, 83, 90, 91, 92, 93, 100, 101, 105, 106, 107, 111, 112, 115, 116, 119, 120, 121, 122, 123, 125, 150, 151, 152, 160, 170, 171, 175, 176, 177}
  {
  }

  /** Every unit code fits in one byte; the smallest is 1 and the largest 177. */
  lemma UnitCodesBounded(code: int)
    requires UnitName(code).Some?
    ensures 1 <= code <= 177
  {
  }
}
