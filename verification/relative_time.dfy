/** The `SessionRelativeTimestamps` hook: every node carrying an update time gets a
    relative label ("3 minutes ago", "in 2 hours") and the hook schedules its next
    refresh after the shortest delay any label needs.

    Times are whole milliseconds; the clock reading is a parameter. The locale text is
    not modelled: a label is the (unit, magnitude) pair handed to the formatter. */
module RelativeTime {
  import opened Wrappers

  /** The longest refresh delay, and the starting point of the minimum. */
  const DayDelay: nat := 300_000
  const SecondDelay: nat := 1_000
  const MinuteDelay: nat := 60_000

  function Abs(x: int): nat
  {
    if x < 0 then -x else x
  }

  /** `Math.round(a / b)` for a positive divisor: the nearest integer, halves rounded
      toward positive infinity. */
  function RoundDiv(a: int, b: int): (q: int)
    requires b > 0
    ensures 2 * (q * b) - b <= 2 * a < 2 * (q * b) + b
  {
    var q := (2 * a + b) / (2 * b);
    var r := (2 * a + b) % (2 * b);
    assert 2 * a + b == q * (2 * b) + r && 0 <= r < 2 * b;
    assert q * (2 * b) == 2 * (q * b);
    q
  }

  /** A larger factor gives a product at least one `b` larger. */
  lemma MulStep(x: int, y: int, b: int)
    requires x < y && b > 0
    ensures x * b + b <= y * b
  {
    var d := y - x;
    assert y * b == x * b + d * b;
    assert d * b == (d - 1) * b + b;
    assert (d - 1) * b >= 0;
  }

  /** The rounding is the only integer within half a step of `a / b` (upper half open). */
  lemma RoundDivUnique(a: int, b: int, q: int)
    requires b > 0
    requires 2 * (q * b) - b <= 2 * a < 2 * (q * b) + b
    ensures q == RoundDiv(a, b)
  {
    var p := RoundDiv(a, b);
    if q < p {
      MulStep(q, p, b);
    } else if q > p {
      MulStep(p, q, b);
    }
  }

  /** Rounding is monotone in the dividend. */
  lemma RoundDivMonotone(a: int, a': int, b: int)
    requires b > 0 && a <= a'
    ensures RoundDiv(a, b) <= RoundDiv(a', b)
  {
    var q, q' := RoundDiv(a, b), RoundDiv(a', b);
    if q > q' {
      MulStep(q', q, b);
    }
  }

  datatype Unit = Second | Minute | Hour | Day

  /** What the hook computes for one node: unit and magnitude for the formatter, and how
      soon this label needs refreshing. */
  datatype Label = Label(unit: Unit, magnitude: int, delay: nat)

  /** The number of seconds in one `unit`. */
  function UnitSeconds(unit: Unit): nat
  {
    match unit
    case Second => 1
    case Minute => 60
    case Hour => 3600
    case Day => 86_400
  }

  /** Whole seconds between the timestamp and now, as the hook rounds them. */
  function Seconds(diffMs: int): int
  {
    RoundDiv(diffMs, 1000)
  }

  /** The bucketing of one time difference: under a minute counts seconds and refreshes
      every second, under an hour counts minutes and under a day hours (both refresh every
      minute), and beyond that days, refreshed every five minutes. The magnitude is the
      difference in that unit rounded to the nearest whole unit; its sign says past or
      future. */
  function Bucket(diffMs: int): (l: Label)
    ensures var s := Seconds(diffMs);
            && (l.unit == Second <==> Abs(s) < 60)
            && (l.unit == Minute <==> 60 <= Abs(s) < 3600)
            && (l.unit == Hour <==> 3600 <= Abs(s) < 86_400)
            && (l.unit == Day <==> 86_400 <= Abs(s))
    ensures l.delay == SecondDelay || l.delay == MinuteDelay || l.delay == DayDelay
    ensures l.delay == SecondDelay <==> l.unit == Second
    ensures l.delay == DayDelay <==> l.unit == Day
    ensures l.unit == Second ==> Abs(l.magnitude) < 60
    ensures l.unit == Minute ==> 1 <= Abs(l.magnitude) <= 60
    ensures l.unit == Hour ==> 1 <= Abs(l.magnitude) <= 24
    ensures l.unit == Day ==> 1 <= Abs(l.magnitude)
    ensures var s, u := Seconds(diffMs), UnitSeconds(l.unit);
            2 * (l.magnitude * u) - u <= 2 * s < 2 * (l.magnitude * u) + u
    ensures l.magnitude > 0 ==> diffMs > 0
    ensures l.magnitude < 0 ==> diffMs < 0
  {
    var seconds := Seconds(diffMs);
    var abs := Abs(seconds);
    if abs < 60 then
      Label(Second, seconds, SecondDelay)
    else if abs < 3600 then
      ScaledBounds(seconds, 60, 60);
      Label(Minute, RoundDiv(seconds, 60), MinuteDelay)
    else if abs < 86_400 then
      ScaledBounds(seconds, 3600, 24);
      Label(Hour, RoundDiv(seconds, 3600), MinuteDelay)
    else
      ScaledBounds(seconds, 86_400, 0);
      Label(Day, RoundDiv(seconds, 86_400), DayDelay)
  }

  /** Rounding `s / unit` for `unit <= |s|` gives a non-zero magnitude of the same sign
      as `s`, at most `limit` when `|s| < limit * unit` (a zero `limit` means no bound). */
  lemma ScaledBounds(s: int, unit: nat, limit: nat)
    requires unit > 0 && unit <= Abs(s)
    ensures var m := RoundDiv(s, unit);
            && 1 <= Abs(m)
            && (s > 0 <==> m > 0)
            && (limit > 0 && Abs(s) < limit * unit ==> Abs(m) <= limit)
  {
    var m := RoundDiv(s, unit);
    if s > 0 {
      RoundDivMonotone(unit, s, unit);
      RoundDivUnique(unit, unit, 1);
      if limit > 0 && s < limit * unit {
        RoundDivMonotone(s, limit * unit, unit);
        RoundDivUnique(limit * unit, unit, limit);
      }
    } else {
      var u: int := unit;
      RoundDivMonotone(s, -u, unit);
      RoundDivUnique(-u, unit, -1);
      if limit > 0 && -s < limit * unit {
        var l: int := limit;
        RoundDivMonotone(-(l * u), s, unit);
        assert (-l) * u == -(l * u);
        RoundDivUnique(-(l * u), unit, -l);
      }
    }
  }

  /** The label's magnitude is `Math.round(seconds / unit)`: the one integer whose
      multiple of the unit lies within half a unit of the rounded difference in seconds,
      a tie going to the larger. */
  lemma BucketWithinHalfUnit(diffMs: int)
    ensures var l := Bucket(diffMs);
            l.magnitude == RoundDiv(Seconds(diffMs), UnitSeconds(l.unit))
  {
    var l := Bucket(diffMs);
    RoundDivUnique(Seconds(diffMs), UnitSeconds(l.unit), l.magnitude);
  }

  /** The further away the timestamp, the less often its label needs refreshing. */
  lemma DelayGrowsWithDistance(d: int, d': int)
    requires Abs(Seconds(d)) <= Abs(Seconds(d'))
    ensures Bucket(d).delay <= Bucket(d').delay
  {
  }

  /** The number `Number(...)` makes of a node's timestamp attribute: a non-finite
      value (NaN, an infinity) or a whole number of milliseconds since the epoch. */
  datatype Stamp = NotFinite | Millis(ms: int)

  /** A node carrying an update time: whether it has the text child the label goes in,
      and its timestamp. */
  datatype TimeNode = TimeNode(hasText: bool, stamp: Stamp)

  /** What a node shows after an update: left as it was (no text child), "time
      unavailable", or a relative label. */
  datatype Display = Untouched | Unavailable | Relative(unit: Unit, magnitude: int)

  /** A node that gets a relative label, and so takes part in the refresh delay. */
  predicate Labelled(node: TimeNode)
  {
    node.hasText && node.stamp.Millis? && node.stamp.ms > 0
  }

  /** The refresh delay a labelled node asks for. */
  function NodeDelay(node: TimeNode, nowMs: int): nat
    requires Labelled(node)
  {
    Bucket(node.stamp.ms - nowMs).delay
  }

  /** What one node shows after an update at time `nowMs`. */
  function Show(node: TimeNode, nowMs: int): (d: Display)
    ensures d.Relative? <==> Labelled(node)
    ensures d == Untouched <==> !node.hasText
    ensures d.Relative? ==> d.unit == Bucket(node.stamp.ms - nowMs).unit
                            && d.magnitude == Bucket(node.stamp.ms - nowMs).magnitude
  {
    if !node.hasText then Untouched
    else if !Labelled(node) then Unavailable
    else
      var l := Bucket(node.stamp.ms - nowMs);
      Relative(l.unit, l.magnitude)
  }

  /** `updateTimestamps`: relabels every node and returns the delay of the next refresh,
      if one is scheduled. A refresh is scheduled exactly when there is at least one node;
      its delay is the least of 300000 and the delays of all labelled nodes, so
      unlabelled nodes never shorten it. */
  method UpdateTimestamps(nodes: seq<TimeNode>, nowMs: int)
    returns (shown: seq<Display>, next: Option<nat>)
    ensures |shown| == |nodes|
    ensures forall i :: 0 <= i < |nodes| ==> shown[i] == Show(nodes[i], nowMs)
    ensures next.Some? <==> |nodes| > 0
    ensures next.Some? ==>
              next.value == SecondDelay || next.value == MinuteDelay || next.value == DayDelay
    ensures next.Some? ==>
              forall i :: 0 <= i < |nodes| && Labelled(nodes[i]) ==>
                next.value <= NodeDelay(nodes[i], nowMs)
    ensures next.Some? && next.value != DayDelay ==>
              exists i :: 0 <= i < |nodes| && Labelled(nodes[i])
                          && next.value == NodeDelay(nodes[i], nowMs)
  {
    var minimum := DayDelay;
    shown := [];
    var i := 0;
    while i < |nodes|
      invariant 0 <= i <= |nodes|
      invariant |shown| == i
      invariant forall j :: 0 <= j < i ==> shown[j] == Show(nodes[j], nowMs)
      invariant minimum == SecondDelay || minimum == MinuteDelay || minimum == DayDelay
      invariant forall j :: 0 <= j < i && Labelled(nodes[j]) ==> minimum <= NodeDelay(nodes[j], nowMs)
      invariant minimum != DayDelay ==>
                  exists j :: 0 <= j < i && Labelled(nodes[j]) && minimum == NodeDelay(nodes[j], nowMs)
    {
      var node := nodes[i];
      shown := shown + [Show(node, nowMs)];
      if Labelled(node) {
        var delay := NodeDelay(node, nowMs);
        if delay < minimum {
          minimum := delay;
        }
      }
      i := i + 1;
    }
    if |nodes| > 0 && minimum > 0 {
      next := Some(minimum);
    } else {
      next := None;
    }
  }
}
