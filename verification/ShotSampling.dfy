/** Integer witnesses for one measured coin flip. */
module ShotSampling {

  import opened Options

  const SHOT_SAMPLING_SCALE: nat := 1_000
  const SHOT_SAMPLING_GAP_BITS: nat := 20
  const MAX_NUDGE: nat := 4

  /** The exact decision: 0 when u < p0 / (p0 + p1). */
  function BernoulliOutcome(p0: real, p1: real, sampleU: real): nat {
    var tiny := 0.000000000000000000000000000001;
    var denom := if p0 + p1 >= tiny then p0 + p1 else tiny;
    if sampleU < p0 / denom then 0 else 1
  }

  /** Nearest integer, halves away from zero. */
  function Round(x: real): int {
    if x >= 0.0 then (x + 0.5).Floor else -((-x + 0.5).Floor)
  }

  function QuantizeUnit(val: real): (r: nat)
    ensures r <= SHOT_SAMPLING_SCALE
  {
    var scaled := Round(val * (SHOT_SAMPLING_SCALE as real));
    if scaled <= 0 then 0 else if scaled >= SHOT_SAMPLING_SCALE then SHOT_SAMPLING_SCALE else scaled
  }

  /** On [0, 1] the quantized value is within half a grid step, and rounds halves up;
      outside it is the nearer end. */
  lemma QuantizeIsNearest(val: real)
    ensures val <= 0.0 ==> QuantizeUnit(val) == 0
    ensures val >= 1.0 ==> QuantizeUnit(val) == 1000
    ensures 0.0 <= val <= 1.0 ==> var q := QuantizeUnit(val) as real; q - 0.5 <= val * 1000.0 < q + 0.5
  {
    var v := val * 1000.0;
    if val >= 0.0 {
      assert v >= 0.0 && (val <= 1.0 ==> v <= 1000.0) && (val >= 1.0 ==> v >= 1000.0);
      var f := (v + 0.5).Floor;
      assert f as real <= v + 0.5 < f as real + 1.0;
    } else {
      assert v < 0.0;
    }
  }

  /** The witness of a successful search. */
  datatype Witness = Witness(p0: nat, p1: nat, u: nat, gap: nat)

  /** The integer rule agrees with the outcome. */
  predicate Matches(u: nat, p0: nat, p1: nat, outcome: nat) {
    if outcome == 0 then u * (p0 + p1) < p0 * SHOT_SAMPLING_SCALE
    else u * (p0 + p1) >= p0 * SHOT_SAMPLING_SCALE
  }

  /** Quantized masses; a vanished mass counts as certain outcome 0. */
  function Masses(p0: real, p1: real): (m: (nat, nat))
    ensures m.0 <= SHOT_SAMPLING_SCALE && m.1 <= SHOT_SAMPLING_SCALE && m.0 + m.1 > 0
  {
    var p0i, p1i := QuantizeUnit(p0), QuantizeUnit(p1);
    if p0i + p1i == 0 then (SHOT_SAMPLING_SCALE, 0) else (p0i, p1i)
  }

  /** Two masses below half a grid step count as (1000, 0); any others are quantized. */
  lemma VanishedMasses(p0: real, p1: real)
    ensures Masses(p0, p1) == if p0 < 0.0005 && p1 < 0.0005 then (1000, 0) else (QuantizeUnit(p0), QuantizeUnit(p1))
  {
    hide QuantizeUnit;
    QuantizeIsNearest(p0);
    QuantizeIsNearest(p1);
  }

  function Distance(a: nat, b: nat): nat { if a <= b then b - a else a - b }

  /** A grid point the search can reach from u. */
  predicate Reachable(c: nat, u: nat) {
    c <= SHOT_SAMPLING_SCALE && Distance(c, u) <= MAX_NUDGE
  }

  function Minus(u: nat, d: nat): nat { if u >= d then u - d else 0 }

  function Capped(u: nat): nat { if u <= SHOT_SAMPLING_SCALE then u else SHOT_SAMPLING_SCALE }

  /** The reachable point most favourable to the outcome. */
  function Extreme(u: nat, outcome: nat): nat {
    if outcome == 0 then Minus(u, MAX_NUDGE) else Capped(u + MAX_NUDGE)
  }

  lemma TimesMonotone(a: nat, b: nat, s: nat)
    requires a <= b
    ensures a * s <= b * s
  {
  }

  /** Some reachable point matches exactly when the extreme one does. */
  lemma ExtremeDecides(u: nat, p0: nat, p1: nat, outcome: nat)
    requires u <= SHOT_SAMPLING_SCALE
    ensures Reachable(Extreme(u, outcome), u)
    ensures (exists c: nat :: Reachable(c, u) && Matches(c, p0, p1, outcome)) <==> Matches(Extreme(u, outcome), p0, p1, outcome)
  {
    if c: nat :| Reachable(c, u) && Matches(c, p0, p1, outcome) {
      if outcome == 0 {
        TimesMonotone(Extreme(u, outcome), c, p0 + p1);
      } else {
        TimesMonotone(c, Extreme(u, outcome), p0 + p1);
      }
    }
  }

  /** No grid point nearer to u than d matches. */
  ghost predicate NoneNearer(u: nat, p0: nat, p1: nat, outcome: nat, d: nat) {
    forall c: nat :: c <= SHOT_SAMPLING_SCALE && Distance(c, u) < d ==> !Matches(c, p0, p1, outcome)
  }

  /** The gap fits its bits, whatever the masses and sample. */
  lemma GapFits(p0: nat, p1: nat, u: nat)
    requires p0 <= SHOT_SAMPLING_SCALE && p1 <= SHOT_SAMPLING_SCALE && u <= SHOT_SAMPLING_SCALE
    ensures p0 * SHOT_SAMPLING_SCALE - u * (p0 + p1) - 1 < 0x10_0000
    ensures u * (p0 + p1) - p0 * SHOT_SAMPLING_SCALE < 0x10_0000
  {
    TimesMonotone(u, SHOT_SAMPLING_SCALE, p0 + p1);
    assert u * (p0 + p1) >= 0;
  }

  /** Searches for a grid point near the sample that agrees with the outcome. It fails
      exactly when the most favourable one does; the overflow and underflow guards never
      fire; and no nearer point would have done. */
  method FixedPointBernoulliWitnesses(p0: real, p1: real, sampleU: real, outcome: nat) returns (r: Option<Witness>)
    ensures var (a, b) := Masses(p0, p1); var u := QuantizeUnit(sampleU);
      && (r.Some? <==> outcome <= 1 && Matches(Extreme(u, outcome), a, b, outcome))
      && (r.Some? ==> var w := r.value;
            && w.p0 == a && w.p1 == b && Reachable(w.u, u)
            && (outcome == 0 <==> w.u * (a + b) < a * SHOT_SAMPLING_SCALE)
            && w.gap == (if outcome == 0 then a * SHOT_SAMPLING_SCALE - w.u * (a + b) - 1 else w.u * (a + b) - a * SHOT_SAMPLING_SCALE)
            && w.gap < 0x10_0000
            && NoneNearer(u, a, b, outcome, Distance(w.u, u)))
  {
    if outcome > 1 {
      return None;
    }
    var (p0i, p1i) := Masses(p0, p1);
    ghost var start := QuantizeUnit(sampleU);
    var u: nat := QuantizeUnit(sampleU);
    ExtremeDecides(start, p0i, p1i, outcome);
    if !Matches(u, p0i, p1i, outcome) {
      var found, delta := false, 1;
      var base := u;
      while delta <= MAX_NUDGE && !found
        invariant 1 <= delta <= MAX_NUDGE + 1
        invariant !found ==> u == start && NoneNearer(start, p0i, p1i, outcome, delta)
        invariant found ==> Reachable(u, start) && Matches(u, p0i, p1i, outcome)
                            && NoneNearer(start, p0i, p1i, outcome, Distance(u, start))
        decreases MAX_NUDGE + 1 - delta, !found
      {
        var cands := [Capped(base + delta), Capped(Minus(base, delta))];
        if Matches(cands[0], p0i, p1i, outcome) {
          u, found := cands[0], true;
        } else if Matches(cands[1], p0i, p1i, outcome) {
          u, found := cands[1], true;
        } else {
          delta := delta + 1;
        }
      }
      if !found {
        assert forall c: nat :: Reachable(c, start) ==> !Matches(c, p0i, p1i, outcome);
        return None;
      }
    }
    var left, right := u * (p0i + p1i), p0i * SHOT_SAMPLING_SCALE;
    GapFits(p0i, p1i, u);
    var gap := if outcome == 0 then right - left - 1 else left - right;
    return Some(Witness(p0i, p1i, u, gap));
  }

  /** Multiplying an inequality by something nonnegative. */
  lemma Scales(x: real, y: real, k: real)
    requires x <= y && k >= 0.0
    ensures x * k <= y * k
  {
  }

  /** A draw on real masses and sample, and the grid points they quantize to. */
  ghost predicate Draws(p0: real, p1: real, u: real, outcome: nat, a: nat, b: nat, q: nat) {
    && 0.0 <= p0 <= 1.0 && 0.0 <= p1 <= 1.0 && 0.0 <= u < 1.0
    && outcome == BernoulliOutcome(p0, p1, u) && a == QuantizeUnit(p0) && b == QuantizeUnit(p1) && q == QuantizeUnit(u)
  }

  /** Some draw with masses that quantize to a and b ends without a witness. */
  ghost predicate FailsSomewhere(a: nat, b: nat, outcome: nat) {
    exists p0: real, p1: real, u: real, q: nat :: Draws(p0, p1, u, outcome, a, b, q) && Misses(p0, p1, q, outcome)
  }

  /** The search on these masses finds nothing. */
  ghost predicate Misses(p0: real, p1: real, q: nat, outcome: nat) {
    var (a, b) := Masses(p0, p1);
    !Matches(Extreme(q, outcome), a, b, outcome)
  }

  /** x / t rounded up. */
  function CeilDiv(x: nat, t: nat): (r: nat)
    requires t > 0
    ensures r * t >= x
    ensures r > 0 ==> (r - 1) * t < x
  {
    (x + t - 1) / t
  }

  lemma CeilIsLeast(x: nat, t: nat, k: nat)
    requires t > 0
    ensures k * t >= x <==> k >= CeilDiv(x, t)
  {
    var c := CeilDiv(x, t);
    hide CeilDiv;
    if k >= c {
      TimesMonotone(c, k, t);
    } else {
      TimesMonotone(k, c - 1, t);
    }
  }

  /** Quantized masses too small for four grid steps: the nearest sample from which the
      search cannot reach the outcome still lies inside the rounding of the masses. */
  predicate Coarse(a: nat, b: nat, outcome: nat) {
    var t := a + b;
    if t == 0 then outcome == 1
    else if outcome == 0 then
      a == 0 || (b > 0 && (2 * CeilDiv(1000 * a, t) + 7) * t < 2000 * a + 1000)
    else
      CeilDiv(1000 * a, t) >= 5 && 2000 * a < (2 * CeilDiv(1000 * a, t) - 9) * t + 1000
  }

  /** The decision without its division. */
  lemma DecisionIs(p0: real, p1: real, sampleU: real)
    requires p0 + p1 >= 0.0001
    ensures BernoulliOutcome(p0, p1, sampleU) == if sampleU * (p0 + p1) < p0 then 0 else 1
  {
    var s := p0 + p1;
    var q := p0 / s;
    assert q * s == p0;
    if sampleU < q {
      assert (q - sampleU) * s > 0.0;
    } else {
      Scales(q, sampleU, s);
    }
  }

  /** q is the grid point of x, on which halves round up. */
  ghost predicate Nearest(q: nat, x: real) {
    q <= SHOT_SAMPLING_SCALE && (q as real) - 0.5 <= x * 1000.0 < (q as real) + 0.5
  }

  lemma NearestIs(q: nat, x: real)
    requires 0.0 <= x <= 1.0
    ensures q == QuantizeUnit(x) <==> Nearest(q, x)
  {
    QuantizeIsNearest(x);
    hide QuantizeUnit;
    var r := QuantizeUnit(x);
    if Nearest(q, x) {
      assert (q as real) < (r as real) + 1.0 && (r as real) < (q as real) + 1.0;
    }
  }

  lemma ProductNonNegative(x: real, y: real)
    requires x >= 0.0 && y >= 0.0
    ensures x * y >= 0.0
  {
  }

  lemma HalfAStep(x: real, y: real, u: real)
    requires 0.0 <= u <= 1.0 && -0.5 <= x <= 0.5 && -0.5 <= y <= 0.5
    ensures x - 0.5 <= u * (x + y) <= x + 0.5
  {
    ProductNonNegative(1.0 - u, x + 0.5);
    ProductNonNegative(1.0 - u, 0.5 - x);
    ProductNonNegative(u, y + 0.5);
    ProductNonNegative(u, 0.5 - y);
    assert x + 0.5 - u * (x + y) == (1.0 - u) * (x + 0.5) + u * (0.5 - y);
    assert u * (x + y) - (x - 0.5) == (1.0 - u) * (0.5 - x) + u * (y + 0.5);
  }

  /** Moving two masses by at most one half each. */
  lemma Moved(p0: real, p1: real, u: real, x: real, y: real)
    requires 0.0 <= u <= 1.0 && -0.5 <= x <= 0.5 && -0.5 <= y <= 0.5
    ensures u * (p0 + p1) < p0 ==> u * (p0 + x + (p1 + y)) < p0 + x + 0.5
    ensures u * (p0 + p1) >= p0 ==> u * (p0 + x + (p1 + y)) >= p0 + x - 0.5
  {
    HalfAStep(x, y, u);
    assert u * (p0 + x + (p1 + y)) == u * (p0 + p1) + u * (x + y);
  }

  /** Quantizing the masses moves the decision by at most half a grid step. */
  lemma Rounding(p0: real, p1: real, u: real, a: nat, b: nat)
    requires 0.0 <= u <= 1.0 && Nearest(a, p0) && Nearest(b, p1)
    ensures u * (p0 + p1) < p0 ==> u * ((a + b) as real) < a as real + 0.5
    ensures u * (p0 + p1) >= p0 ==> u * ((a + b) as real) >= a as real - 0.5
  {
    Moved(p0 * 1000.0, p1 * 1000.0, u, a as real - p0 * 1000.0, b as real - p1 * 1000.0);
    assert u * (p0 * 1000.0 + p1 * 1000.0) == u * (p0 + p1) * 1000.0;
  }

  lemma RealProduct(x: nat, y: nat)
    ensures (x as real) * (y as real) == (x * y) as real
  {
  }

  /** How far the grid point of such a sample lies beyond the quantized masses' quotient. */
  lemma SampleBound(p0: real, p1: real, u: real, a: nat, b: nat, q: nat)
    requires 0.0 <= u <= 1.0 && Nearest(a, p0) && Nearest(b, p1) && Nearest(q, u) && a + b > 0
    ensures u * (p0 + p1) < p0 ==> (2 * q - 1) * (a + b) < 2000 * a + 1000
    ensures u * (p0 + p1) >= p0 ==> (2 * q + 1) * (a + b) > 2000 * a - 1000
  {
    hide Nearest;
    Rounding(p0, p1, u, a, b);
    var t := (a + b) as real;
    assert u * 1000.0 * t == u * t * 1000.0;
    GridBound(u * 1000.0, q, a, a + b);
  }

  lemma GridBound(k: real, q: nat, a: nat, t: nat)
    requires Nearest(q, k / 1000.0) && t > 0
    ensures k * (t as real) < 1000.0 * (a as real) + 500.0 ==> (2 * q - 1) * t < 2000 * a + 1000
    ensures k * (t as real) >= 1000.0 * (a as real) - 500.0 ==> (2 * q + 1) * t > 2000 * a - 1000
  {
    var m, v := 2 * q * t, k * (t as real);
    RealProduct(2 * q, t);
    assert k * 2.0 * (t as real) == 2.0 * v;
    RealBound(k * 2.0, (2 * q) as real, t as real, 2.0 * v, m as real);
    Whole(m, v, t, a);
    assert m - t == (2 * q - 1) * t && m + t == (2 * q + 1) * t;
  }

  lemma Whole(m: int, v: real, t: nat, a: nat)
    requires m as real - (t as real) <= 2.0 * v < m as real + (t as real)
    ensures v < 1000.0 * (a as real) + 500.0 ==> m - t < 2000 * a + 1000
    ensures v >= 1000.0 * (a as real) - 500.0 ==> m + t > 2000 * a - 1000
  {
  }

  lemma RealBound(k: real, r: real, t: real, kt: real, rt: real)
    requires r - 1.0 <= k < r + 1.0 && t > 0.0 && kt == k * t && rt == r * t
    ensures rt - t <= kt < rt + t
  {
    var low, high := k - (r - 1.0), r + 1.0 - k;
    assert low * t >= 0.0 && high * t > 0.0;
    assert low * t == kt - rt + t && high * t == rt - kt + t;
  }

  /** Outcome 0 missed at q means coarse masses, and so does outcome 1. */
  lemma ZeroMissed(a: nat, b: nat, q: nat)
    requires a > 0 && q <= SHOT_SAMPLING_SCALE && !Matches(Extreme(q, 0), a, b, 0) && (2 * q - 1) * (a + b) < 2000 * a + 1000
    ensures Coarse(a, b, 0)
  {
    var t, e := a + b, Extreme(q, 0);
    assert q == e + 4;
    CeilIsLeast(1000 * a, t, e);
    hide CeilDiv;
    TimesMonotone(2 * CeilDiv(1000 * a, t) + 7, 2 * q - 1, t);
    if b == 0 {
      TimesMonotone(e, 996, t);
    }
  }

  lemma OneMissed(a: nat, b: nat, q: nat)
    requires a + b > 0 && q <= SHOT_SAMPLING_SCALE && !Matches(Extreme(q, 1), a, b, 1) && (2 * q + 1) * (a + b) > 2000 * a - 1000
    ensures Coarse(a, b, 1)
  {
    var t, e := a + b, Extreme(q, 1);
    TimesMonotone(a, t, 1000);
    assert q + 4 == e;
    CeilIsLeast(1000 * a, t, e);
    hide CeilDiv;
    TimesMonotone(2 * q + 1, 2 * CeilDiv(1000 * a, t) - 9, t);
  }

  lemma Missed(a: nat, b: nat, q: nat, outcome: nat)
    requires a + b > 0 && q <= SHOT_SAMPLING_SCALE && outcome <= 1 && !Matches(Extreme(q, outcome), a, b, outcome)
    requires outcome == 0 ==> (2 * q - 1) * (a + b) < 2000 * a + 1000
    requires outcome == 1 ==> (2 * q + 1) * (a + b) > 2000 * a - 1000
    ensures Coarse(a, b, outcome)
  {
    if outcome == 1 {
      OneMissed(a, b, q);
    } else if a > 0 {
      ZeroMissed(a, b, q);
    }
  }

  lemma MassAtLeast(a: nat, b: nat, p0: real, p1: real)
    requires p0 >= 0.0 && p1 >= 0.0 && Nearest(a, p0) && Nearest(b, p1) && a + b > 0
    ensures p0 + p1 >= 0.0001
  {
  }

  /** Vanished masses are certain outcome 0, which every sample reaches. */
  lemma VanishedMass(q: nat, outcome: nat)
    requires q <= SHOT_SAMPLING_SCALE && !Coarse(0, 0, outcome) && outcome <= 1
    ensures Matches(Extreme(q, outcome), SHOT_SAMPLING_SCALE, 0, outcome)
  {
  }

  /** Unless the quantized masses are coarse, the search follows the exact decision. */
  lemma FineMassFollows(p0: real, p1: real, sampleU: real, outcome: nat)
    requires 0.0 <= p0 <= 1.0 && 0.0 <= p1 <= 1.0 && 0.0 <= sampleU < 1.0
    requires outcome == BernoulliOutcome(p0, p1, sampleU) && !Coarse(QuantizeUnit(p0), QuantizeUnit(p1), outcome)
    ensures !Misses(p0, p1, QuantizeUnit(sampleU), outcome)
  {
    var q, a, b := QuantizeUnit(sampleU), QuantizeUnit(p0), QuantizeUnit(p1);
    NearestIs(a, p0);
    NearestIs(b, p1);
    NearestIs(q, sampleU);
    if a + b == 0 {
      hide QuantizeUnit, BernoulliOutcome, Extreme, Matches, Coarse;
      VanishedMass(q, outcome);
    } else {
      hide QuantizeUnit, BernoulliOutcome, Coarse, Extreme, Matches;
      MassAtLeast(a, b, p0, p1);
      DecisionIs(p0, p1, sampleU);
      SampleBound(p0, p1, sampleU, a, b, q);
      if Misses(p0, p1, q, outcome) {
        Missed(a, b, q, outcome);
      }
    }
  }

  // ---- Coarse masses do fail ----

  /** The decision in thousandths. */
  lemma ScaledDecision(x: real, y: real, v: real)
    requires x + y >= 0.1
    ensures BernoulliOutcome(x / 1000.0, y / 1000.0, v / 1000.0) == if v * (x + y) < x * 1000.0 then 0 else 1
  {
    DecisionIs(x / 1000.0, y / 1000.0, v / 1000.0);
    hide BernoulliOutcome;
    assert v / 1000.0 * (x / 1000.0 + y / 1000.0) == v * (x + y) / 1000000.0;
  }

  /** A draw given in thousandths, near the grid points. */
  lemma DrawsScaled(x: real, y: real, v: real, outcome: nat, a: nat, b: nat, q: nat)
    requires x + y >= 0.1 && outcome == if v * (x + y) < x * 1000.0 then 0 else 1
    requires 0.0 <= x <= 1000.0 && 0.0 <= y <= 1000.0 && 0.0 <= v < 1000.0
    requires Nearest(a, x / 1000.0) && Nearest(b, y / 1000.0) && Nearest(q, v / 1000.0)
    ensures Draws(x / 1000.0, y / 1000.0, v / 1000.0, outcome, a, b, q)
  {
    NearestIs(a, x / 1000.0);
    NearestIs(b, y / 1000.0);
    NearestIs(q, v / 1000.0);
    hide BernoulliOutcome, QuantizeUnit;
    ScaledDecision(x, y, v);
  }

  /** The sample four steps above the least grid point that misses outcome 0. */
  lemma ZeroFails(a: nat, b: nat) returns (q: nat)
    requires a > 0 && Coarse(a, b, 0)
    ensures 5 <= q <= SHOT_SAMPLING_SCALE && !Matches(Extreme(q, 0), a, b, 0)
    ensures a + b <= 142 && b > 0 && (2 * q - 1) * (a + b) <= 2000 * a + 999
  {
    var t := a + b;
    var c := CeilDiv(1000 * a, t);
    hide CeilDiv;
    assert c > 0;
    assert (2 * c + 7) * t == 2 * (c * t) + 7 * t;
    if c >= 997 {
      TimesMonotone(996, c - 1, t);
    }
    q := c + 4;
  }

  lemma OneFails(a: nat, b: nat) returns (q: nat)
    requires a + b > 0 && Coarse(a, b, 1)
    ensures q <= 995 && !Matches(Extreme(q, 1), a, b, 1)
    ensures a + b <= 142 && a > 0 && (2 * q + 1) * (a + b) >= 2000 * a - 999
  {
    var t := a + b;
    var c := CeilDiv(1000 * a, t);
    TimesMonotone(a, t, 1000);
    CeilIsLeast(1000 * a, t, 1000);
    hide CeilDiv;
    assert (2 * c - 9) * t == 2 * ((c - 1) * t) - 7 * t;
    q := c - 5;
  }

  lemma ZeroDraw(a: nat, b: nat, q: nat)
    requires 0 < a && 0 < b && a + b <= 142 && 5 <= q <= SHOT_SAMPLING_SCALE
    requires (2 * q - 1) * (a + b) <= 2000 * a + 999
    ensures ((q as real) - 0.5) * ((a as real) + 0.4995 + ((b as real) - 0.5)) < ((a as real) + 0.4995) * 1000.0
  {
    var r, t := 2 * q - 1, a + b;
    RealProduct(r, t);
    assert (r as real) * 0.0005 > 0.0;
    assert (r as real) * ((t as real) - 0.0005) == (r as real) * (t as real) - (r as real) * 0.0005;
    assert ((q as real) - 0.5) * 2.0 == r as real;
  }

  lemma OneDraw(a: nat, b: nat, q: nat)
    requires 0 < a && a + b <= 142 && q <= 995
    requires (2 * q + 1) * (a + b) >= 2000 * a - 999
    ensures ((q as real) + 0.499) * ((a as real) - 0.5 + ((b as real) + 0.4998)) >= ((a as real) - 0.5) * 1000.0
  {
    var r, t := 2 * q + 1, a + b;
    RealProduct(r, t);
    assert ((q as real) + 0.499) * 2.0 == r as real - 0.002;
    assert ((r as real) - 0.002) * ((t as real) - 0.0002)
           == (r as real) * (t as real) - 0.002 * (t as real) - 0.0002 * (r as real) + 0.0000004;
  }

  lemma ZeroMisses(a: nat, b: nat) returns (x: real, y: real, v: real, q: nat)
    requires a <= SHOT_SAMPLING_SCALE && b <= SHOT_SAMPLING_SCALE && a + b > 0 && Coarse(a, b, 0)
    ensures Draws(x / 1000.0, y / 1000.0, v / 1000.0, 0, a, b, q) && !Matches(Extreme(q, 0), a, b, 0)
  {
    hide QuantizeUnit, CeilDiv, BernoulliOutcome;
    if a == 0 {
      q, x, y, v := 0, 0.4, b as real, 0.0;
    } else {
      q := ZeroFails(a, b);
      ZeroDraw(a, b, q);
      x, y, v := (a as real) + 0.4995, (b as real) - 0.5, (q as real) - 0.5;
    }
    hide Matches, Coarse, Extreme, Draws;
    DrawsScaled(x, y, v, 0, a, b, q);
  }

  lemma OneMisses(a: nat, b: nat) returns (x: real, y: real, v: real, q: nat)
    requires a <= SHOT_SAMPLING_SCALE && b <= SHOT_SAMPLING_SCALE && a + b > 0 && Coarse(a, b, 1)
    ensures Draws(x / 1000.0, y / 1000.0, v / 1000.0, 1, a, b, q) && !Matches(Extreme(q, 1), a, b, 1)
  {
    hide QuantizeUnit, CeilDiv, BernoulliOutcome, Coarse, Matches, Extreme, Draws;
    q := OneFails(a, b);
    OneDraw(a, b, q);
    x, y, v := (a as real) - 0.5, (b as real) + 0.4998, (q as real) + 0.499;
    DrawsScaled(x, y, v, 1, a, b, q);
  }

  /** On coarse masses it does not: real masses and a sample whose drawn outcome has no
      witness. */
  lemma CoarseMisses(a: nat, b: nat, outcome: nat) returns (p0: real, p1: real, u: real, q: nat)
    requires a <= SHOT_SAMPLING_SCALE && b <= SHOT_SAMPLING_SCALE && outcome <= 1 && Coarse(a, b, outcome)
    ensures Draws(p0, p1, u, outcome, a, b, q) && Misses(p0, p1, q, outcome)
  {
    if a + b == 0 {
      VanishedFails();
      return 0.0, 0.0, 0.0, 0;
    }
    hide QuantizeUnit, BernoulliOutcome, Matches, Coarse, Extreme;
    var x, y, v;
    if outcome == 0 {
      x, y, v, q := ZeroMisses(a, b);
    } else {
      x, y, v, q := OneMisses(a, b);
    }
    p0, p1, u := x / 1000.0, y / 1000.0, v / 1000.0;
  }

  lemma VanishedFails()
    ensures Draws(0.0, 0.0, 0.0, 1, 0, 0, 0) && Misses(0.0, 0.0, 0, 1)
  {
  }

  /** Coarse masses are exactly those on which the search does not always follow the
      decision. */
  lemma FailsIffCoarse(a: nat, b: nat, outcome: nat)
    requires a <= SHOT_SAMPLING_SCALE && b <= SHOT_SAMPLING_SCALE && outcome <= 1
    ensures FailsSomewhere(a, b, outcome) <==> Coarse(a, b, outcome)
  {
    hide Misses, QuantizeUnit, BernoulliOutcome, Coarse;
    if FailsSomewhere(a, b, outcome) {
      var p0: real, p1: real, u: real, q: nat :| Draws(p0, p1, u, outcome, a, b, q) && Misses(p0, p1, q, outcome);
      if !Coarse(a, b, outcome) {
        FineMassFollows(p0, p1, u, outcome);
      }
    }
    if Coarse(a, b, outcome) {
      var p0, p1, u, q := CoarseMisses(a, b, outcome);
    }
  }

  /** A total of 143 grid steps is never coarse, except for outcome 0 from a first mass
      that quantizes to zero. */
  lemma EnoughMass(a: nat, b: nat, outcome: nat)
    requires a + b >= 143 && outcome <= 1
    ensures Coarse(a, b, outcome) <==> outcome == 0 && a == 0
  {
    var t := a + b;
    var c := CeilDiv(1000 * a, t);
    hide CeilDiv;
    assert (2 * c + 7) * t == 2 * (c * t) + 7 * t;
    assert c > 0 ==> (2 * c - 9) * t == 2 * ((c - 1) * t) - 7 * t;
  }

  /** From a quantized total of 143 grid steps on, and for the exact decision's outcome, the
      search fails exactly when outcome 0 was drawn from a mass that quantizes to zero. */
  lemma SearchFollowsDecision(p0: real, p1: real, sampleU: real, outcome: nat)
    requires 0.0 <= p0 <= 1.0 && 0.0 <= p1 <= 1.0 && 0.0 <= sampleU < 1.0
    requires QuantizeUnit(p0) + QuantizeUnit(p1) >= 143 && outcome == BernoulliOutcome(p0, p1, sampleU)
    ensures Misses(p0, p1, QuantizeUnit(sampleU), outcome) <==> outcome == 0 && QuantizeUnit(p0) == 0
  {
    EnoughMass(QuantizeUnit(p0), QuantizeUnit(p1), outcome);
    if outcome == 0 && QuantizeUnit(p0) == 0 {
    } else {
      hide QuantizeUnit, BernoulliOutcome, Coarse, Misses;
      FineMassFollows(p0, p1, sampleU, outcome);
    }
  }

  /** Below that it can be: equal masses of at most 71 steps each are coarse for outcome 0. */
  lemma LittleMass(n: nat)
    requires 0 < n
    ensures Coarse(n, n, 0) <==> n <= 71
  {
    var t := 2 * n;
    CeilIsLeast(1000 * n, t, 500);
    CeilIsLeast(1000 * n, t, 499);
    assert CeilDiv(1000 * n, t) == 500;
  }

  /** One such draw: 0.0054 against 0.0046 both quantize to 5, and a true outcome 0 at 0.53
      has no witness. */
  lemma LittleMassFails()
    ensures BernoulliOutcome(0.0054, 0.0046, 0.53) == 0 && QuantizeUnit(0.0054) == 5
    ensures Misses(0.0054, 0.0046, QuantizeUnit(0.53), 0)
  {
    assert 0.0054 / 0.01 == 0.54;
  }
}
