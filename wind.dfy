/**
 * The wind classifier `calculateWind` of script.js: the angle between the
 * direction the wind blows from and the ballpark's bearing (home plate toward
 * center field) is sorted into one of eight 45-degree sectors, each shown as a
 * badge with a text, a CSS class and an arrow.
 */
module Wind {
  import opened JsNumber

  datatype Category =
    | BlowingIn | InFromRight | CrossRightToLeft | OutToLeft
    | BlowingOut | OutToRight | CrossLeftToRight | InFromLeft

  /** The badge `{ text, cssClass, arrow }` that `calculateWind` returns. */
  datatype WindInfo = WindInfo(text: string, cssClass: string, arrow: string)

  /** The badge of each category, with the exact strings of the source. */
  function Describe(c: Category): (info: WindInfo)
    ensures info.cssClass == "bg-in" <==> c in {BlowingIn, InFromRight, InFromLeft}
    ensures info.cssClass == "bg-out" <==> c in {OutToLeft, BlowingOut, OutToRight}
    ensures info.cssClass == "bg-cross" <==> c in {CrossRightToLeft, CrossLeftToRight}
    ensures |info.arrow| == 1
  {
    match c
    case BlowingIn => WindInfo("Blowing IN \U{2B07}\U{FE0F}", "bg-in", "\U{2B07}")
    case InFromRight => WindInfo("In from Right \U{2199}\U{FE0F}", "bg-in", "\U{2199}")
    case CrossRightToLeft => WindInfo("Cross (R to L) \U{2B05}\U{FE0F}", "bg-cross", "\U{2B05}")
    case OutToLeft => WindInfo("Out to Left \U{2196}\U{FE0F}", "bg-out", "\U{2196}")
    case BlowingOut => WindInfo("Blowing OUT \U{2B06}\U{FE0F}", "bg-out", "\U{2B06}")
    case OutToRight => WindInfo("Out to Right \U{2197}\U{FE0F}", "bg-out", "\U{2197}")
    case CrossLeftToRight => WindInfo("Cross (L to R) \U{27A1}\U{FE0F}", "bg-cross", "\U{27A1}")
    case InFromLeft => WindInfo("In from Left \U{2198}\U{FE0F}", "bg-in", "\U{2198}")
  }

  /** Distinct categories have distinct badges (already their arrows differ). */
  lemma DescribeInjective(c1: Category, c2: Category)
    ensures Describe(c1) == Describe(c2) ==> c1 == c2
  {
    if Describe(c1) == Describe(c2) {
      assert Describe(c1).arrow[0] == Describe(c2).arrow[0];
    }
  }

  /** `(windDirection - stadiumBearing + 360) % 360`, with JS's truncating `%`. */
  function Diff(windDirection: Number, stadiumBearing: real): Number {
    RemTurn(Add(Sub(windDirection, stadiumBearing), 360.0))
  }

  /**
   * The chain of guarded returns on `diff`. Every comparison with NaN is
   * false, so NaN (and anything else no guard accepts) reaches the last return.
   */
  function Classify(diff: Number): Category {
    if AtLeast(diff, 337.5) || Less(diff, 22.5) then BlowingIn
    else if AtLeast(diff, 22.5) && Less(diff, 67.5) then InFromRight
    else if AtLeast(diff, 67.5) && Less(diff, 112.5) then CrossRightToLeft
    else if AtLeast(diff, 112.5) && Less(diff, 157.5) then OutToLeft
    else if AtLeast(diff, 157.5) && Less(diff, 202.5) then BlowingOut
    else if AtLeast(diff, 202.5) && Less(diff, 247.5) then OutToRight
    else if AtLeast(diff, 247.5) && Less(diff, 292.5) then CrossLeftToRight
    else InFromLeft
  }

  /** `calculateWind(windDirection, stadiumBearing)`. */
  function CalculateWind(windDirection: Number, stadiumBearing: real): WindInfo {
    Describe(Classify(Diff(windDirection, stadiumBearing)))
  }

  // ---------------------------------------------------------------------------
  // An independent description of the sectors
  // ---------------------------------------------------------------------------

  /** The angle at the middle of each sector, counted like `diff`. */
  function Centre(c: Category): real {
    match c
    case BlowingIn => 0.0
    case InFromRight => 45.0
    case CrossRightToLeft => 90.0
    case OutToLeft => 135.0
    case BlowingOut => 180.0
    case OutToRight => 225.0
    case CrossLeftToRight => 270.0
    case InFromLeft => 315.0
  }

  /** d lies in the half-open 45-degree sector [centre - 22.5, centre + 22.5), taken modulo 360. */
  predicate InSector(c: Category, d: real) {
    ModTurn(d - Centre(c) + 22.5) < 45.0
  }

  /** For an angle in [0, 360), the guard chain picks exactly the sector the angle lies in. */
  lemma ClassifyIsSector(d: real)
    requires 0.0 <= d < Turn
    ensures forall c :: InSector(c, d) <==> Classify(Finite(d)) == c
  {
    forall c
      ensures InSector(c, d) <==> Classify(Finite(d)) == c
    {
      var x := d - Centre(c) + 22.5;
      if x < 0.0 {
        ModTurnUnique(x, -1);
      } else if x < Turn {
        ModTurnUnique(x, 0);
      } else {
        ModTurnUnique(x, 1);
      }
    }
  }

  /** The eight sectors cover [0, 360) with no gap and no overlap. */
  lemma SectorsPartition(d: real)
    requires 0.0 <= d < Turn
    ensures exists c :: InSector(c, d)
    ensures forall c1, c2 :: InSector(c1, d) && InSector(c2, d) ==> c1 == c2
  {
    ClassifyIsSector(d);
    assert InSector(Classify(Finite(d)), d);
  }

  /** For bearings in [0, 360), `diff` is the difference `w - b` taken modulo 360. */
  lemma DiffIsAngleBetween(w: real, b: real)
    requires 0.0 <= w < Turn && 0.0 <= b < Turn
    ensures Diff(Finite(w), b) == Finite(ModTurn(w - b))
  {
    RemTurnOfNonNegative(w - b + 360.0);
    ModTurnPeriodic(w - b, 1);
  }

  /** `calculateWind` returns the badge of the sector that contains the angle between the bearings. */
  lemma CalculateWindBySector(w: real, b: real)
    requires 0.0 <= w < Turn && 0.0 <= b < Turn
    ensures forall c :: InSector(c, ModTurn(w - b)) <==> CalculateWind(Finite(w), b) == Describe(c)
  {
    DiffIsAngleBetween(w, b);
    ClassifyIsSector(ModTurn(w - b));
    forall c ensures CalculateWind(Finite(w), b) == Describe(c) ==> Classify(Finite(ModTurn(w - b))) == c {
      DescribeInjective(Classify(Finite(ModTurn(w - b))), c);
    }
  }

  /** The badge depends on the two bearings only through their difference modulo 360. */
  lemma DependsOnlyOnDifference(w1: real, b1: real, w2: real, b2: real)
    requires 0.0 <= w1 < Turn && 0.0 <= b1 < Turn
    requires 0.0 <= w2 < Turn && 0.0 <= b2 < Turn
    requires ModTurn(w1 - b1) == ModTurn(w2 - b2)
    ensures CalculateWind(Finite(w1), b1) == CalculateWind(Finite(w2), b2)
  {
    DiffIsAngleBetween(w1, b1);
    DiffIsAngleBetween(w2, b2);
  }

  /** Rotating wind and park by the same angle leaves the badge unchanged. */
  lemma RotationInvariant(w: real, b: real, t: real)
    requires 0.0 <= w < Turn && 0.0 <= b < Turn
    ensures CalculateWind(Finite(ModTurn(w + t)), ModTurn(b + t)) == CalculateWind(Finite(w), b)
  {
    var w', b' := ModTurn(w + t), ModTurn(b + t);
    var kw, kb := ((w + t - w') / Turn).Floor, ((b + t - b') / Turn).Floor;
    assert w' - b' == (w - b) + (kb - kw) as real * Turn;
    ModTurnPeriodic(w - b, kb - kw);
    DependsOnlyOnDifference(w', b', w, b);
  }

  /** Wind from the park's own bearing (from center field toward home plate) is "Blowing IN", for any bearing. */
  lemma SameBearingBlowsIn(b: real)
    ensures CalculateWind(Finite(b), b) == Describe(BlowingIn)
  {
    assert Add(Sub(Finite(b), b), 360.0) == Finite(360.0);
    assert Trunc(360.0 / Turn) == 1;
  }

  /** Wind from the opposite bearing, `(b + 180) % 360`, is "Blowing OUT". */
  lemma OppositeBearingBlowsOut(b: real)
    requires 0.0 <= b < Turn
    ensures CalculateWind(RemTurn(Finite(b + 180.0)), b) == Describe(BlowingOut)
  {
    RemTurnOfNonNegative(b + 180.0);
    var w := ModTurn(b + 180.0);
    if b < 180.0 {
      ModTurnUnique(b + 180.0, 0);
    } else {
      ModTurnUnique(b + 180.0, 1);
    }
    DiffIsAngleBetween(w, b);
    if b < 180.0 {
      ModTurnUnique(w - b, 0);
    } else {
      ModTurnUnique(w - b, -1);
    }
  }

  /**
   * The guard chain is total: NaN (a missing wind direction) falls through to
   * the final return, and a negative remainder, possible only when
   * `w - b + 360` is negative, is caught by the first guard.
   */
  lemma ClassifyOutsideRange(diff: Number)
    ensures diff.NaN? ==> Classify(diff) == InFromLeft
    ensures diff.Finite? && diff.value < 0.0 ==> Classify(diff) == BlowingIn
    ensures Classify(diff) == InFromLeft <==> diff.NaN? || 292.5 <= diff.value < 337.5
  {
  }
}
