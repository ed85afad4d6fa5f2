/** What the monitor shows about the latest reading: the four distance LEDs and the
    event label of the live status. */
module Display {
  import opened Base

  // ---------------------------------------------------------------------------
  // Distance LEDs (setLedsForDistance, without the pin writes)
  // ---------------------------------------------------------------------------

  datatype Leds = Leds(l1: bool, l2: bool, l3: bool, l4: bool)

  const AllOff := Leds(false, false, false, false)

  /** The distance codes the table lights LEDs for, farthest first. */
  const LitDistances: seq<uint8> := [40, 37, 34, 31, 27, 24, 20, 17, 14, 12, 10, 8, 6, 5, 1]

  /** The LEDs read as a 4-bit number, `l1` the lowest bit. */
  function LedValue(l: Leds): nat {
    (if l.l1 then 1 else 0) + (if l.l2 then 2 else 0) + (if l.l3 then 4 else 0) + (if l.l4 then 8 else 0)
  }

  /** Exact-match lookup: a distance that is not a table key lights nothing. */
  function LedsForDistance(km: uint8): (l: Leds)
    // out of range and the unlisted codes light nothing
    ensures km == OUT_OF_RANGE_KM || km == 0 ==> l == AllOff
  {
    match km
    case 63 => AllOff
    case 40 => Leds(true, false, false, false)
    case 37 => Leds(false, true, false, false)
    case 34 => Leds(true, true, false, false)
    case 31 => Leds(false, false, true, false)
    case 27 => Leds(true, false, true, false)
    case 24 => Leds(false, true, true, false)
    case 20 => Leds(true, true, true, false)
    case 17 => Leds(false, false, false, true)
    case 14 => Leds(true, false, false, true)
    case 12 => Leds(false, true, false, true)
    case 10 => Leds(true, true, false, true)
    case 8 => Leds(false, false, true, true)
    case 6 => Leds(true, false, true, true)
    case 5 => Leds(false, true, true, true)
    case 1 => Leds(true, true, true, true)
    case _ => AllOff
  }

  /** The table as a binary counter: LEDs are lit exactly for the table's keys (0, 63 and
      every other value give all off), and the k-th key from the far end shows k. */
  lemma LedTableIsCounter(km: uint8)
    ensures LedsForDistance(km) != AllOff <==> km in LitDistances
    ensures forall i :: 0 <= i < |LitDistances| && LitDistances[i] == km ==> LedValue(LedsForDistance(km)) == i + 1
  {
  }

  /** Between two keys of the table, the closer distance lights the larger binary number. */
  lemma CloserLightsMore(near: uint8, far: uint8)
    requires near in LitDistances && far in LitDistances && near < far
    ensures LedValue(LedsForDistance(near)) > LedValue(LedsForDistance(far))
  {
    LedTableIsCounter(near);
    LedTableIsCounter(far);
    var i :| 0 <= i < |LitDistances| && LitDistances[i] == near;
    var j :| 0 <= j < |LitDistances| && LitDistances[j] == far;
    // the keys are listed in strictly decreasing order
    assert j < i;
  }

  // ---------------------------------------------------------------------------
  // Event label of the live status (handleLive)
  // ---------------------------------------------------------------------------

  /** Name of an interrupt-source code: 0 none, 1 noise, 4 disturber, 8 lightning;
      any other code has no name. */
  function EventName(code: uint8): (n: string)
    ensures n == "Kein" <==> code == 0
    ensures n == "Rauschen" <==> code == 1
    ensures n == "St\U{00F6}rer" <==> code == 4
    ensures n == "Blitz" <==> code == 8
    ensures n == "" <==> code !in {0, 1, 4, 8}
  {
    if code == 0 then "Kein"
    else if code == 1 then "Rauschen"
    else if code == 4 then "St\U{00F6}rer"
    else if code == 8 then "Blitz"
    else ""
  }

  const LabelSeparator: string := " :: Wert bin\U{00E4}r ="

  function Digit(bit: nat): char
    requires bit < 2
  {
    if bit == 0 then '0' else '1'
  }

  /** The code in base 2 without leading zeros, "0" for zero (Arduino `String(n, BIN)`). */
  function Binary(n: nat): (s: string)
    ensures |s| > 0
    ensures forall i :: 0 <= i < |s| ==> s[i] == '0' || s[i] == '1'
    // no leading zero unless the number is zero
    ensures s[0] == '0' <==> n == 0
    ensures |s| > 1 ==> s[0] == '1'
    decreases n
  {
    if n < 2 then [Digit(n)] else Binary(n / 2) + [Digit(n % 2)]
  }

  /** Reads a text of binary digits back as a number. */
  function BinaryValue(s: string): nat
    decreases |s|
  {
    if s == [] then 0
    else 2 * BinaryValue(s[..|s| - 1]) + (if s[|s| - 1] == '1' then 1 else 0)
  }

  lemma {:induction false} BinaryRoundTrip(n: nat)
    ensures BinaryValue(Binary(n)) == n
    decreases n
  {
    if n >= 2 {
      var s := Binary(n);
      assert s[..|s| - 1] == Binary(n / 2);
      BinaryRoundTrip(n / 2);
    }
  }

  /** `last_event_string`: the code's name, a fixed separator and the code in binary. */
  function EventLabel(code: uint8): (s: string)
    ensures var k := |EventName(code)| + |LabelSeparator|;
      k < |s| && s[..k] == EventName(code) + LabelSeparator
      // the rest is the code in binary, `String(code, BIN)`, which reads back as the code
      && s[k..] == Binary(code as nat) && BinaryValue(s[k..]) == code as nat
  {
    BinaryRoundTrip(code as nat);
    var s := EventName(code) + LabelSeparator + Binary(code as nat);
    assert s[|EventName(code)| + |LabelSeparator|..] == Binary(code as nat);
    s
  }
}
