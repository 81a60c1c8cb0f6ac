/** The change detector of `checkLiquidityChange`: compares the base reserve of
    the stored snapshot with the freshly fetched one. */
module Detector {

  import opened Wrappers
  import opened Pool

  /** The fixed relative-change threshold (5%). */
  const Threshold: real := 0.05

  function Abs(x: real): (r: real)
    ensures r >= 0.0
    ensures r == x || r == -x
  {
    if x < 0.0 then -x else x
  }

  /** `|cur - prev| / prev`, the fractional move of the base reserve.
      Only defined for a non-zero previous amount. */
  function RelativeChange(prev: Amount, cur: Amount): (change: real)
    requires prev != 0.0
    ensures change >= 0.0
    ensures change * prev == Abs(cur - prev)
  {
    Abs(cur - prev) / prev
  }

  /** Whether a cycle alerts. Nothing is compared unless both snapshots are
      present; a previous base of zero is an explicit no-alert case rather than
      a division by zero. */
  function Detect(prev: Option<Snapshot>, cur: Option<Snapshot>): (alert: bool)
    ensures alert ==> prev.Some? && cur.Some?
    ensures alert ==> prev.value.base != 0.0
  {
    match (prev, cur)
    case (Some(p), Some(c)) =>
      if p.base == 0.0 then false
      else RelativeChange(p.base, c.base) > Threshold
    case _ => false
  }

  /** The decision stated without division: both snapshots are present and the
      absolute move of the base reserve exceeds 5% of a positive previous base. */
  lemma DetectWithoutDivision(prev: Option<Snapshot>, cur: Option<Snapshot>)
    ensures Detect(prev, cur) <==>
              && prev.Some? && cur.Some?
              && prev.value.base > 0.0
              && Abs(cur.value.base - prev.value.base) > Threshold * prev.value.base
  {
    if prev.Some? && cur.Some? && prev.value.base > 0.0 {
      ExceedsWithoutDivision(prev.value.base, cur.value.base);
    }
  }

  /** The quotient exceeds the threshold exactly when the absolute move
      exceeds the threshold's share of the previous amount. */
  lemma ExceedsWithoutDivision(prev: Amount, cur: Amount)
    requires prev > 0.0
    ensures RelativeChange(prev, cur) > Threshold <==> Abs(cur - prev) > Threshold * prev
  {
    ThresholdScales(RelativeChange(prev, cur), prev, Abs(cur - prev));
  }

  /** Multiplying through by a positive divisor preserves the comparison with
      the threshold. */
  lemma ThresholdScales(change: real, prev: real, move: real)
    requires prev > 0.0
    requires change * prev == move
    ensures change > Threshold <==> move > Threshold * prev
  {
    if change > Threshold {
      assert (change - Threshold) * prev > 0.0;
      assert move - Threshold * prev == (change - Threshold) * prev;
    } else {
      assert (Threshold - change) * prev >= 0.0;
      assert Threshold * prev - move == (Threshold - change) * prev;
    }
  }

  /** With no previous snapshot (the first cycle) nothing alerts. */
  lemma NoAlertWithoutPrevious(cur: Option<Snapshot>)
    ensures !Detect(None, cur)
  {
  }

  /** With no current snapshot (the pool account is missing) nothing alerts. */
  lemma NoAlertWithoutCurrent(prev: Option<Snapshot>)
    ensures !Detect(prev, None)
  {
  }

  /** A previous base of zero never alerts, whatever the current amount. */
  lemma NoAlertFromZeroBase(quote: Amount, cur: Option<Snapshot>)
    ensures !Detect(Some(Snapshot(0.0, quote)), cur)
  {
  }

  /** The strict threshold as a band: with both snapshots present, the cycle
      alerts exactly when the previous base is positive and the current base
      lies strictly outside [95%, 105%] of it. */
  lemma StrictThreshold(p: Snapshot, c: Snapshot)
    ensures Detect(Some(p), Some(c)) <==>
              p.base > 0.0 && (c.base > 1.05 * p.base || c.base < 0.95 * p.base)
  {
    DetectWithoutDivision(Some(p), Some(c));
  }

  /** A move of exactly 5% does not alert, up or down. */
  lemma ExactlyFivePercentDoesNotAlert(p: Snapshot, c: Snapshot)
    requires p.base > 0.0
    requires c.base == p.base * 1.05 || c.base == p.base * 0.95
    ensures !Detect(Some(p), Some(c))
  {
    DetectWithoutDivision(Some(p), Some(c));
    assert Abs(c.base - p.base) == Threshold * p.base;
  }

  /** The worked cases: 100 -> 94 alerts; 100 -> 96 and 100 -> 105 do not. */
  lemma WorkedCases(q: Amount, q': Amount)
    ensures Detect(Some(Snapshot(100.0, q)), Some(Snapshot(94.0, q')))
    ensures !Detect(Some(Snapshot(100.0, q)), Some(Snapshot(96.0, q')))
    ensures !Detect(Some(Snapshot(100.0, q)), Some(Snapshot(105.0, q')))
  {
  }

  /** Only the size of the move matters, not its direction: two current
      amounts equally far from the previous base get the same decision. */
  lemma DirectionIrrelevant(p: Snapshot, c1: Snapshot, c2: Snapshot)
    requires Abs(c1.base - p.base) == Abs(c2.base - p.base)
    ensures Detect(Some(p), Some(c1)) == Detect(Some(p), Some(c2))
  {
  }

  /** A rise and a fall of the same size give the same decision. */
  lemma RiseAndFallAgree(p: Snapshot, d: real, q1: Amount, q2: Amount)
    requires 0.0 <= d <= p.base
    ensures Detect(Some(p), Some(Snapshot(p.base + d, q1)))
         == Detect(Some(p), Some(Snapshot(p.base - d, q2)))
  {
    DirectionIrrelevant(p, Snapshot(p.base + d, q1), Snapshot(p.base - d, q2));
  }

  /** The quote reserve of either snapshot never affects the decision. */
  lemma QuoteIgnored(prev: Option<Snapshot>, cur: Option<Snapshot>, pq: Amount, cq: Amount)
    ensures Detect(prev, cur) ==
            Detect(if prev.Some? then Some(Snapshot(prev.value.base, pq)) else None,
                   if cur.Some? then Some(Snapshot(cur.value.base, cq)) else None)
  {
  }

  /** A larger move from the same previous base alerts whenever a smaller one does. */
  lemma LargerMoveStillAlerts(p: Snapshot, c1: Snapshot, c2: Snapshot)
    requires Detect(Some(p), Some(c1))
    requires Abs(c2.base - p.base) >= Abs(c1.base - p.base)
    ensures Detect(Some(p), Some(c2))
  {
    DetectWithoutDivision(Some(p), Some(c1));
    DetectWithoutDivision(Some(p), Some(c2));
  }

  /** The change is relative: scaling both base amounts by the same positive
      factor leaves the decision unchanged. */
  lemma ScaleInvariant(p: Snapshot, c: Snapshot, k: real)
    requires k > 0.0
    ensures Detect(Some(p), Some(c)) ==
            Detect(Some(Snapshot(k * p.base, p.quote)), Some(Snapshot(k * c.base, c.quote)))
  {
    var p' := Snapshot(k * p.base, p.quote);
    var c' := Snapshot(k * c.base, c.quote);
    DetectWithoutDivision(Some(p), Some(c));
    DetectWithoutDivision(Some(p'), Some(c'));
    ScaledMoveExceeds(c.base - p.base, p.base, k);
    assert c'.base - p'.base == k * (c.base - p.base);
    assert p'.base > 0.0 <==> p.base > 0.0;
  }

  /** Scaling the move and the base by the same positive factor preserves the
      comparison with the threshold. */
  lemma ScaledMoveExceeds(d: real, base: real, k: real)
    requires k > 0.0
    ensures Abs(k * d) > Threshold * (k * base) <==> Abs(d) > Threshold * base
  {
    assert Abs(k * d) == k * Abs(d) by {
      if d < 0.0 { assert k * d < 0.0; } else { assert k * d >= 0.0; }
    }
    assert Threshold * (k * base) == k * (Threshold * base);
    ScaleComparison(Abs(d), Threshold * base, k);
  }

  lemma ScaleComparison(a: real, b: real, k: real)
    requires k > 0.0
    ensures a > b <==> k * a > k * b
  {
    if a > b {
      assert k * a - k * b == k * (a - b);
    } else {
      assert k * b - k * a == k * (b - a);
    }
  }
}
