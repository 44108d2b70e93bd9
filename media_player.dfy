/** Reduction of a width:height ratio to lowest terms, as done by
    `ratio_to_lowest_terms` (app/src/main/rust/src/activities/media_player.rs)
    and by `set_media_player_aspect_ratio` (app/src/main/rust/src/lib.rs). Both
    divide by the binary gcd; the copy nested in `ratio_to_lowest_terms` is the
    same algorithm as the one in util.rs, so both use `BinaryGcd.Gcd`. */
module MediaPlayer {
  import opened BinaryGcd

  /** `ratio_to_lowest_terms(width, height)`: `(width / g, height / g)` with
      `g = gcd(width, height)`. Dividing by `gcd(0, 0) == 0` panics, hence the
      second precondition. */
  method RatioToLowestTerms(width: int, height: int) returns (w: int, h: int)
    requires 0 <= width <= I32_MAX && 0 <= height <= I32_MAX
    requires width != 0 || height != 0
    ensures width == 0 ==> w == 0 && h == 1
    ensures height == 0 ==> w == 1 && h == 0
    ensures w * height == h * width
    ensures IsGcd(1, w, h)
    ensures 0 <= w <= width && 0 <= h <= height
  {
    var divisor := Gcd(width, height);
    w, h := width / divisor, height / divisor;
    ReducedRatio(divisor, width, height);
  }

  /** Dividing both values by their gcd keeps the ratio and leaves coprime
      values no larger than before. */
  lemma ReducedRatio(g: int, a: int, b: int)
    requires IsGcd(g, a, b) && a >= 0 && b >= 0
    ensures a * (b / g) == b * (a / g)
    ensures IsGcd(1, a / g, b / g)
    ensures 0 <= a / g <= a && 0 <= b / g <= b
  {
    DividesWitness(g, a);
    DividesWitness(g, b);
    ReducedKeepsRatio(g, a / g, b / g);
    ReducedCoprime(g, a / g, b / g);
  }

  lemma ReducedKeepsRatio(g: int, x: int, y: int)
    requires g > 0 && g * x >= 0 && g * y >= 0
    ensures (g * x) * y == (g * y) * x
    ensures 0 <= x <= g * x && 0 <= y <= g * y
  {
    MulRange(g, x, g * x + 1);
    MulRange(g, y, g * y + 1);
  }

  lemma ReducedCoprime(g: int, x: int, y: int)
    requires g > 0 && IsGcd(g, g * x, g * y)
    ensures IsGcd(1, x, y)
  {
    DividesProduct(1, x);
    DividesProduct(1, y);
    forall d | Divides(d, x) && Divides(d, y) ensures Divides(d, 1) {
      CommonDivisorOfQuotients(g, x, y, d);
    }
  }

  /** A common divisor of `a / g` and `b / g` is 1. */
  lemma CommonDivisorOfQuotients(g: int, x: int, y: int, d: int)
    requires g > 0 && IsGcd(g, g * x, g * y)
    requires Divides(d, x) && Divides(d, y)
    ensures d == 1
  {
    SelfDivides(g);
    DividesMulBoth(d, x, g, g);
    DividesMulBoth(d, y, g, g);
    assert x * g == g * x && y * g == g * y;
    assert Divides(d * g, g);
    DividesLe(d * g, g);
    MulRange(g, d, 2);
  }
}
