/** Request framing (easybus.py, `value` and `display_unit`).

    Every request is a run of triples: two data bytes followed by their
    checksum. The value request is one triple (address byte, command 0);
    the display-unit request is two triples (address byte, command 242)
    and (53, 0).
 */
module Frames {
  import opened Bits
  import opened Checksum

  /** Command byte of the measured-value request. */
  const ValueCommand: Byte := 0

  /** Command byte of the display-unit request, and the selector pair that follows it. */
  const UnitCommand: Byte := 242
  const UnitSelector: Byte := 53
  const UnitSelectorArgument: Byte := 0

  /** The bytes on the wire for a run of data pairs: each pair followed by its checksum. */
  function Frame(pairs: seq<(Byte, Byte)>): (f: seq<Byte>)
    ensures |f| == 3 * |pairs|
  {
    if |pairs| == 0 then []
    else [pairs[0].0, pairs[0].1, Crc(pairs[0].0, pairs[0].1)] + Frame(pairs[1..])
  }

  /** Every third byte is the checksum of the two before it. */
  predicate WellFramed(f: seq<Byte>)
  {
    if |f| == 0 then true
    else |f| >= 3 && f[2] == Crc(f[0], f[1]) && WellFramed(f[3..])
  }

  /** The data pairs of a well-framed byte run, checksums dropped. */
  function Payload(f: seq<Byte>): (pairs: seq<(Byte, Byte)>)
    requires WellFramed(f)
    ensures 3 * |pairs| == |f|
  {
    if |f| == 0 then [] else [(f[0], f[1])] + Payload(f[3..])
  }

  /** Triple `i` of a run ends in the checksum of its two data bytes. */
  predicate ChecksAt(f: seq<Byte>, i: nat)
    requires 3 * i + 3 <= |f|
  {
    f[3 * i + 2] == Crc(f[3 * i], f[3 * i + 1])
  }

  /** A run is well framed exactly when its length is a multiple of three
      and every triple's checksum checks. */
  lemma {:induction false} WellFramedMeans(f: seq<Byte>)
    ensures WellFramed(f) <==> |f| % 3 == 0 && forall i | 0 <= i < |f| / 3 :: ChecksAt(f, i)
  {
    if |f| >= 3 {
      var rest := f[3..];
      WellFramedMeans(rest);
      ChecksShift(f);
      assert |rest| / 3 == |f| / 3 - 1 && |rest| % 3 == |f| % 3;
      if |f| % 3 == 0 && forall i | 0 <= i < |f| / 3 :: ChecksAt(f, i) {
        assert ChecksAt(f, 0);
      }
      if WellFramed(f) {
        forall i | 0 <= i < |f| / 3
          ensures ChecksAt(f, i)
        {
          if i > 0 {
            assert ChecksAt(rest, i - 1);
          }
        }
      }
    } else if |f| > 0 {
      assert !WellFramed(f);
      assert |f| % 3 != 0;
    }
  }

  /** Dropping the first triple renumbers the remaining ones. */
  lemma ChecksShift(f: seq<Byte>)
    requires |f| >= 3
    ensures forall i | 0 <= i < (|f| - 3) / 3 :: ChecksAt(f[3..], i) <==> ChecksAt(f, i + 1)
  {
    var rest := f[3..];
    forall i | 0 <= i < (|f| - 3) / 3
      ensures ChecksAt(rest, i) <==> ChecksAt(f, i + 1)
    {
      assert rest[3 * i .. 3 * i + 3] == f[3 * (i + 1) .. 3 * (i + 1) + 3];
    }
  }

  /** Triple `i` of a framed run is pair `i` followed by its checksum. */
  lemma {:induction false} FrameAt(pairs: seq<(Byte, Byte)>, i: nat)
    requires i < |pairs|
    ensures Frame(pairs)[3 * i] == pairs[i].0 && Frame(pairs)[3 * i + 1] == pairs[i].1
    ensures Frame(pairs)[3 * i + 2] == Crc(pairs[i].0, pairs[i].1)
  {
    if i > 0 {
      var head := [pairs[0].0, pairs[0].1, Crc(pairs[0].0, pairs[0].1)];
      var rest := pairs[1..];
      var j: nat := i - 1;
      FrameAt(rest, j);
      assert rest[j] == pairs[i];
      assert Frame(pairs) == head + Frame(rest);
      assert 3 * i == 3 * j + 3;
      ShiftedIndex(head, Frame(rest), 3 * j);
      ShiftedIndex(head, Frame(rest), 3 * j + 1);
      ShiftedIndex(head, Frame(rest), 3 * j + 2);
    }
  }

  lemma ShiftedIndex(head: seq<Byte>, tail: seq<Byte>, k: nat)
    requires |head| == 3 && k < |tail|
    ensures (head + tail)[k + 3] == tail[k]
  {
  }

  /** Pair `i` of a payload is the first two bytes of triple `i`. */
  lemma {:induction false} PayloadAt(f: seq<Byte>, i: nat)
    requires WellFramed(f) && i < |Payload(f)|
    ensures Payload(f)[i] == (f[3 * i], f[3 * i + 1])
  {
    if i > 0 {
      var rest := f[3..];
      var j: nat := i - 1;
      PayloadAt(rest, j);
      assert Payload(f) == [(f[0], f[1])] + Payload(rest);
      assert Payload(f)[i] == Payload(rest)[j];
      assert 3 * i == 3 * j + 3;
      assert rest[3 * j] == f[3 * j + 3] && rest[3 * j + 1] == f[3 * j + 4];
    }
  }

  /** Framing produces a well-framed run whose payload is what was framed. */
  lemma {:induction false} FrameThenPayload(pairs: seq<(Byte, Byte)>)
    ensures WellFramed(Frame(pairs))
    ensures Payload(Frame(pairs)) == pairs
  {
    if |pairs| > 0 {
      var f := Frame(pairs);
      FrameThenPayload(pairs[1..]);
      assert f[3..] == Frame(pairs[1..]);
      assert pairs == [pairs[0]] + pairs[1..];
    }
  }

  /** A well-framed run is exactly the framing of its payload. */
  lemma {:induction false} PayloadThenFrame(f: seq<Byte>)
    requires WellFramed(f)
    ensures Frame(Payload(f)) == f
  {
    if |f| > 0 {
      var rest := f[3..];
      PayloadThenFrame(rest);
      FrameCons(f[0], f[1], Payload(rest));
      Split3(f);
    }
  }

  lemma FrameCons(a: Byte, b: Byte, rest: seq<(Byte, Byte)>)
    ensures Frame([(a, b)] + rest) == [a, b, Crc(a, b)] + Frame(rest)
  {
    assert ([(a, b)] + rest)[1..] == rest;
  }

  lemma Split3(f: seq<Byte>)
    requires |f| >= 3
    ensures f == [f[0], f[1], f[2]] + f[3..]
  {
  }

  /** One framed pair: the two data bytes and their checksum. */
  function Triple(a: Byte, b: Byte): (t: seq<Byte>)
    ensures |t| == 3 && t[0] == a && t[1] == b
    ensures WellFramed(t) && Payload(t) == [(a, b)]
  {
    var t := [a, b, Crc(a, b)];
    assert WellFramed(t[3..]);
    t
  }

  /** Framing distributes over concatenation of pair runs. */
  lemma {:induction false} FrameAppend(p: seq<(Byte, Byte)>, q: seq<(Byte, Byte)>)
    ensures Frame(p + q) == Frame(p) + Frame(q)
  {
    if |p| > 0 {
      var a, b, tail := p[0].0, p[0].1, p[1..];
      var head := [a, b, Crc(a, b)];
      assert (p + q)[0] == p[0];
      assert (p + q)[1..] == tail + q;
      FrameAppend(tail, q);
      assert Frame(p + q) == head + (Frame(tail) + Frame(q));
      assert Frame(p) == head + Frame(tail);
      SeqAssoc(head, Frame(tail), Frame(q));
    } else {
      assert p + q == q;
    }
  }

  lemma SeqAssoc<T>(x: seq<T>, y: seq<T>, z: seq<T>)
    ensures x + (y + z) == (x + y) + z
  {
  }

  /** Two well-framed runs side by side form a well-framed run carrying both payloads. */
  lemma FramedConcat(x: seq<Byte>, y: seq<Byte>)
    requires WellFramed(x) && WellFramed(y)
    ensures WellFramed(x + y) && Payload(x + y) == Payload(x) + Payload(y)
  {
    var p, q := Payload(x), Payload(y);
    PayloadThenFrame(x);
    PayloadThenFrame(y);
    FrameAppend(p, q);
    FrameThenPayload(p + q);
  }

  /** The measured-value request for `address`: address byte, command 0, checksum. */
  function ValueRequest(address: int): (r: seq<Byte>)
    ensures |r| == 3 && WellFramed(r)
    ensures Payload(r) == [(Channel(address), ValueCommand)]
  {
    Triple(Channel(address), ValueCommand)
  }

  /** The display-unit request for `address`: two framed pairs,
      (address byte, 242) and (53, 0). */
  function UnitRequest(address: int): (r: seq<Byte>)
    ensures |r| == 6 && WellFramed(r)
    ensures Payload(r) == [(Channel(address), UnitCommand), (UnitSelector, UnitSelectorArgument)]
  {
    UnitTriples(Channel(address));
    Triple(Channel(address), UnitCommand) + Triple(UnitSelector, UnitSelectorArgument)
  }

  /** The two triples of the display-unit request, side by side. */
  lemma UnitTriples(a: Byte)
    ensures |Triple(a, UnitCommand) + Triple(UnitSelector, UnitSelectorArgument)| == 6
    ensures WellFramed(Triple(a, UnitCommand) + Triple(UnitSelector, UnitSelectorArgument))
    ensures Payload(Triple(a, UnitCommand) + Triple(UnitSelector, UnitSelectorArgument))
              == [(a, UnitCommand), (UnitSelector, UnitSelectorArgument)]
  {
    FramedConcat(Triple(a, UnitCommand), Triple(UnitSelector, UnitSelectorArgument));
  }

  /** The address a device reads back from either request is the one the
      request was built for (reduced to one byte). */
  lemma RequestNamesAddress(address: int)
    ensures Channel(ValueRequest(address)[0]) == address % 256
    ensures Channel(UnitRequest(address)[0]) == address % 256
  {
    ChannelInvolution(address);
  }

  /** The value request for address 1 is FE 00 3D. */
  lemma ValueRequestForAddressOne()
    ensures ValueRequest(1) == [0xFE, 0x00, 0x3D]
  {
    ValueRequestChecksum();
  }

  /** The display-unit request for address 1 is FE F2 ED 35 00 47. */
  lemma UnitRequestForAddressOne()
    ensures UnitRequest(1) == [0xFE, 0xF2, 0xED, 0x35, 0x00, 0x47]
  {
    UnitCommandChecksum();
    UnitSelectorChecksum();
  }
}
