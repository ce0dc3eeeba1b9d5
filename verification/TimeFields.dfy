/** Fixed-point time conversions (src/base/Int64TimeField.cpp:121-133, 204-258).  The two steps that the source takes in
    double are exact here, rounded half up, as the source intends. */
module TimeFields {
  import opened Bytes

  const NANO := 1_000_000_000
  const MICRO := 1_000_000
  const TWO32 := 0x1_0000_0000
  const MIN_INT32 := -0x8000_0000
  const MAX_INT32 := 0x7FFF_FFFF

  datatype SecNano = SecNano(seconds: int, nanoseconds: nat)
  {
    predicate Valid() {
      MIN_INT32 <= seconds <= MAX_INT32 && nanoseconds < NANO
    }
  }

  /** round(x / y) for numbers that are not negative. */
  function RoundDiv(x: nat, y: nat): (r: nat)
    requires y > 0
  {
    (2 * x + y) / (2 * y)
  }

  /** Integer division as the machine does it, toward zero. */
  function TruncDiv(x: int, y: int): int
    requires y > 0
  {
    if x >= 0 then x / y else -(-x / y)
  }

  // ---------- units of 2^-32 seconds ----------

  /** The shift rounds down, the mask takes what is left. */
  function Frac32ToSecNano(t: int): (s: SecNano) {
    SecNano(t / TWO32, RoundDiv(t % TWO32 * NANO, TWO32))
  }

  function SecNanoToFrac32(s: SecNano): (t: int) {
    s.seconds * TWO32 + RoundDiv(s.nanoseconds * TWO32, NANO)
  }

  /** The rounded quotient is within half a unit. */
  lemma RoundBounds(x: nat)
    ensures var r := RoundDiv(x, TWO32); 2 * TWO32 * r <= 2 * x + TWO32 < 2 * TWO32 * r + 2 * TWO32
    ensures var r := RoundDiv(x, NANO); 2 * NANO * r <= 2 * x + NANO < 2 * NANO * r + 2 * NANO
  {
  }

  lemma SplitTwo32(s: int, low: nat)
    requires low < TWO32
    ensures (s * TWO32 + low) / TWO32 == s && (s * TWO32 + low) % TWO32 == low
  {
  }

  /** Both conversions give the nearest time there is, the later one of two that are equally near. */
  lemma NearestFrac32(s: SecNano)
    ensures -NANO < 2 * (SecNanoToFrac32(s) * NANO - (s.seconds * NANO + s.nanoseconds) * TWO32) <= NANO
  {
    RoundBounds(s.nanoseconds * TWO32);
  }

  lemma NearestSecNano(t: int)
    ensures var s := Frac32ToSecNano(t);
            -TWO32 < 2 * ((s.seconds * NANO + s.nanoseconds) * TWO32 - t * NANO) <= TWO32
  {
    RoundBounds(t % TWO32 * NANO);
    assert t == t / TWO32 * TWO32 + t % TWO32;
  }

  /** Seconds and nanoseconds survive the trip through 2^-32 second units. */
  lemma SecNanoSurvives(s: SecNano)
    requires s.Valid()
    ensures Frac32ToSecNano(SecNanoToFrac32(s)) == s
  {
    var n := s.nanoseconds;
    var f := RoundDiv(n * TWO32, NANO);
    RoundBounds(n * TWO32);
    SplitTwo32(s.seconds, f);
    RoundBounds(f * NANO);
  }

  /** The nanoseconds are in range exactly when the low half is below 2^32 - 2; above, they are a full second. */
  lemma NanosecondsInRange(t: int)
    ensures Frac32ToSecNano(t).nanoseconds < NANO <==> t % TWO32 < TWO32 - 2
    ensures Frac32ToSecNano(t).nanoseconds <= NANO
  {
    RoundBounds(t % TWO32 * NANO);
  }

  /** The trip from 2^-32 second units moves a time by at most two units. */
  lemma Frac32Moves(t: int)
    ensures -2 <= SecNanoToFrac32(Frac32ToSecNano(t)) - t <= 2
  {
    var low := t % TWO32;
    var n := RoundDiv(low * NANO, TWO32);
    RoundBounds(low * NANO);
    RoundBounds(n * TWO32);
    assert t == t / TWO32 * TWO32 + low;
  }

  /** Two units is the best bound: it is reached. */
  lemma Frac32MovesByTwo()
    ensures SecNanoToFrac32(Frac32ToSecNano(2)) == 0
    ensures SecNanoToFrac32(Frac32ToSecNano(0xFFFF_FFFE)) == 0x1_0000_0000
  {
    assert 0xFFFF_FFFE % TWO32 == 0xFFFF_FFFE && 0xFFFF_FFFE / TWO32 == 0;
  }

  // ---------- nanoseconds and microseconds ----------

  /** None when the seconds do not fit in 32 bits. */
  function SplitSecNano(raw: int): (r: Option<SecNano>) {
    var q := TruncDiv(raw, NANO);
    var seconds := if q * NANO > raw then q - 1 else q;
    if MIN_INT32 <= seconds <= MAX_INT32 && raw >= seconds * NANO then Some(SecNano(seconds, raw - seconds * NANO))
    else None
  }

  function JoinSecNano(s: SecNano): int {
    s.seconds * NANO + s.nanoseconds
  }

  function SplitSecMicro(raw: int): (r: Option<SecNano>) {
    var q := TruncDiv(raw, MICRO);
    var seconds := if q * MICRO > raw then q - 1 else q;
    if MIN_INT32 <= seconds <= MAX_INT32 && raw >= seconds * MICRO
    then Some(SecNano(seconds, (raw - seconds * MICRO) * 1000))
    else None
  }

  /** The corrected quotient is the floor, for times before and after the epoch: the checks on the rest never fail. */
  lemma FloorBySteps(raw: int, unit: int)
    requires unit == NANO || unit == MICRO
    ensures var q := TruncDiv(raw, unit);
            var seconds := if q * unit > raw then q - 1 else q;
            && seconds == raw / unit && 0 <= raw - seconds * unit < unit
            && (q * unit > raw ==> (q - 1) * unit < raw)
  {
  }

  /** A split time is valid, joins to the same time, and splitting fails only outside the 32 bit range of seconds. */
  lemma SplitJoin(raw: int)
    ensures SplitSecNano(raw).Some? <==> MIN_INT32 * NANO <= raw < (MAX_INT32 + 1) * NANO
    ensures SplitSecNano(raw).Some? ==>
      SplitSecNano(raw).value.Valid() && JoinSecNano(SplitSecNano(raw).value) == raw
  {
    FloorBySteps(raw, NANO);
  }

  lemma JoinSplit(s: SecNano)
    requires s.Valid()
    ensures SplitSecNano(JoinSecNano(s)) == Some(s)
  {
    FloorBySteps(JoinSecNano(s), NANO);
  }

  /** A microsecond time is the same time in nanoseconds. */
  lemma SplitMicroJoin(raw: int)
    ensures SplitSecMicro(raw).Some? <==> MIN_INT32 * MICRO <= raw < (MAX_INT32 + 1) * MICRO
    ensures SplitSecMicro(raw).Some? ==>
      SplitSecMicro(raw).value.Valid() && JoinSecNano(SplitSecMicro(raw).value) == 1000 * raw
  {
    FloorBySteps(raw, MICRO);
  }

  // ---------- the printed form ----------

  /** rawToStrSecNano prints an integer and nine digits. */
  datatype Printed = Printed(whole: int, digits: nat)

  function Print(s: SecNano): Printed
    requires s.Valid()
  {
    if s.seconds >= 0 then Printed(s.seconds, s.nanoseconds)
    else if s.nanoseconds == 0 then Printed(s.seconds, 0)
    else Printed(s.seconds + 1, NANO - s.nanoseconds)
  }

  /** What a reader takes the text for, in nanoseconds: the digits go away from zero, on the side of the integer. */
  function Meaning(p: Printed): int {
    if p.whole < 0 then p.whole * NANO - p.digits else p.whole * NANO + p.digits
  }

  /** The printed time is the time, except within the second before the epoch, where it loses its sign. */
  lemma PrintedMeaning(s: SecNano)
    requires s.Valid()
    ensures Print(s).digits < NANO
    ensures Meaning(Print(s)) == JoinSecNano(s) <==> !(-NANO < JoinSecNano(s) < 0)
    ensures -NANO < JoinSecNano(s) < 0 ==> Meaning(Print(s)) == -JoinSecNano(s)
  {
  }
}
