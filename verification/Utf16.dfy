/** UTF-16 code units of strings and their little-endian bytes, with the strict decoding of `String::from_utf16`. */
module Utf16 {
  import opened Wrappers
  import opened Octets

  type unit = x: int | 0 <= x < 0x1_0000

  predicate Leading(u: unit) { 0xD800 <= u < 0xDC00 }

  predicate Trailing(u: unit) { 0xDC00 <= u < 0xE000 }

  function CharUnits(c: char): seq<unit> {
    var n := c as int;
    if n < 0x1_0000 then [n] else [0xD800 + (n - 0x1_0000) / 0x400, 0xDC00 + (n - 0x1_0000) % 0x400]
  }

  function Encode(s: string): seq<unit> {
    if s == "" then [] else CharUnits(s[0]) + Encode(s[1..])
  }

  function Pair(lead: unit, trail: unit): char
    requires Leading(lead) && Trailing(trail)
  {
    (0x1_0000 + (lead - 0xD800) * 0x400 + (trail - 0xDC00)) as char
  }

  /** An unpaired surrogate makes the whole string invalid. */
  function Decode(units: seq<unit>): Option<string> {
    if |units| == 0 then Some("")
    else if Leading(units[0]) then
      if |units| == 1 || !Trailing(units[1]) then None
      else Prepend(Pair(units[0], units[1]), Decode(units[2..]))
    else if Trailing(units[0]) then None
    else Prepend(units[0] as char, Decode(units[1..]))
  }

  function Prepend(c: char, rest: Option<string>): Option<string> {
    if rest.None? then None else Some([c] + rest.value)
  }

  lemma PairOfChar(c: char)
    ensures if c as int < 0x1_0000 then |CharUnits(c)| == 1 && !Leading(CharUnits(c)[0]) && !Trailing(CharUnits(c)[0])
            else |CharUnits(c)| == 2 && Leading(CharUnits(c)[0]) && Trailing(CharUnits(c)[1])
                 && Pair(CharUnits(c)[0], CharUnits(c)[1]) == c
  {
  }

  lemma UnitsOfPair(lead: unit, trail: unit)
    requires Leading(lead) && Trailing(trail)
    ensures CharUnits(Pair(lead, trail)) == [lead, trail]
  {
  }

  /** Every string survives encoding and decoding. */
  lemma {:induction false} DecodeInvertsEncode(s: string)
    ensures Decode(Encode(s)) == Some(s)
  {
    if s != "" {
      hide Pair, CharUnits;
      PairOfChar(s[0]);
      DecodeInvertsEncode(s[1..]);
      var units := Encode(s);
      assert units[|CharUnits(s[0])|..] == Encode(s[1..]);
      assert units[0] == CharUnits(s[0])[0] && (|CharUnits(s[0])| == 2 ==> units[1] == CharUnits(s[0])[1]);
      assert s == [s[0]] + s[1..];
      if |CharUnits(s[0])| == 1 { OnlyUnit(s[0]); }
    }
  }

  lemma OnlyUnit(c: char)
    requires |CharUnits(c)| == 1
    ensures CharUnits(c)[0] == c as int
  {
  }

  /** Only encodings are accepted. */
  lemma {:induction false} EncodeInvertsDecode(units: seq<unit>)
    requires Decode(units).Some?
    ensures Encode(Decode(units).value) == units
  {
    if |units| > 0 {
      if Leading(units[0]) {
        UnitsOfPair(units[0], units[1]);
        EncodeInvertsDecode(units[2..]);
        assert Decode(units).value[1..] == Decode(units[2..]).value;
      } else {
        EncodeInvertsDecode(units[1..]);
        assert Decode(units).value[1..] == Decode(units[1..]).value;
      }
    }
  }

  // ---------------------------------------------------------------- bytes

  function ToBytes(units: seq<unit>): (bytes: seq<byte>)
    ensures |bytes| == 2 * |units|
  {
    if |units| == 0 then [] else [units[0] % 0x100, units[0] / 0x100] + ToBytes(units[1..])
  }

  function Unit(low: byte, high: byte): unit { low + 0x100 * high }

  /** `chunks_exact(2)`, each pair little-endian. */
  function FromBytes(bytes: seq<byte>): (units: seq<unit>)
    requires |bytes| % 2 == 0
  {
    if |bytes| == 0 then [] else [Unit(bytes[0], bytes[1])] + FromBytes(bytes[2..])
  }

  lemma {:induction false} BytesRoundTrip(units: seq<unit>)
    ensures FromBytes(ToBytes(units)) == units
  {
    if |units| > 0 {
      BytesRoundTrip(units[1..]);
      assert ToBytes(units)[2..] == ToBytes(units[1..]);
    }
  }

  lemma {:induction false} UnitsRoundTrip(bytes: seq<byte>)
    requires |bytes| % 2 == 0
    ensures ToBytes(FromBytes(bytes)) == bytes
  {
    if |bytes| > 0 {
      UnitsRoundTrip(bytes[2..]);
      assert FromBytes(bytes)[1..] == FromBytes(bytes[2..]);
    }
  }

  /** The letter A, the euro sign and a character beyond the basic plane, in the bytes every other decoder expects. */
  lemma KnownBytes()
    ensures Encode("A\U{20AC}\U{1F600}") == [0x41, 0x20AC, 0xD83D, 0xDE00]
    ensures ToBytes([0x41, 0x20AC, 0xD83D, 0xDE00]) == [0x41, 0x00, 0xAC, 0x20, 0x3D, 0xD8, 0x00, 0xDE]
  {
    var s := "A\U{20AC}\U{1F600}";
    assert CharUnits(s[0]) == [0x41] && CharUnits(s[1]) == [0x20AC] && CharUnits(s[2]) == [0xD83D, 0xDE00];
    assert s[1..][0] == s[1] && s[2..][0] == s[2] && s[1..][1..] == s[2..] && s[2..][1..] == "";
    var units: seq<unit> := [0x41, 0x20AC, 0xD83D, 0xDE00];
    assert units[1..] == [0x20AC, 0xD83D, 0xDE00] && units[1..][1..] == [0xD83D, 0xDE00];
    assert units[1..][1..][1..] == [0xDE00] && units[1..][1..][1..][1..] == [];
  }
}
