/** The small amount of vector arithmetic the scene does itself: 3D vectors, the linear
  * blend `Vector3.lerp` used for scale easing, and the trigonometry the layout calls. */
module Geometry {
  /** The shortest decimal numeral that rounds to the double `Math.PI`; the model computes
    * with this exact real, not with the double itself. */
  const Pi: real := 3.141592653589793

  datatype Vec3 = Vec3(x: real, y: real, z: real)

  /** `Math.cos` and `Math.sin`, which the model cannot compute: every operation that needs
    * them takes them as a parameter. */
  datatype Trig = Trig(cos: real -> real, sin: real -> real)

  /** What lemmas about distances assume of the trigonometry: cos² + sin² = 1. */
  ghost predicate UnitCircle(trig: Trig) {
    forall a :: trig.cos(a) * trig.cos(a) + trig.sin(a) * trig.sin(a) == 1.0
  }

  function Abs(x: real): (r: real)
    ensures r >= 0.0 && (r == x || r == -x)
  {
    if x < 0.0 then -x else x
  }

  /** A unit-circle cosine and sine lie in [-1, 1]. */
  lemma TrigBounded(trig: Trig, a: real)
    requires UnitCircle(trig)
    ensures -1.0 <= trig.sin(a) <= 1.0
    ensures -1.0 <= trig.cos(a) <= 1.0
  {
    var c, s := trig.cos(a), trig.sin(a);
    assert c * c + s * s == 1.0;
    SquareAtMostOne(s, c);
    SquareAtMostOne(c, s);
  }

  lemma SquareAtMostOne(s: real, c: real)
    requires c * c + s * s == 1.0
    ensures -1.0 <= s <= 1.0
  {
    assert c * c >= 0.0;
  }

  /** `x.lerp(target, alpha)` on one coordinate: move `alpha` of the way towards the target. */
  function Lerp(a: real, b: real, alpha: real): real {
    a + (b - a) * alpha
  }

  /** `Vector3.lerp`: the same blend on each coordinate. */
  function LerpVec(v: Vec3, w: Vec3, alpha: real): Vec3 {
    Vec3(Lerp(v.x, w.x, alpha), Lerp(v.y, w.y, alpha), Lerp(v.z, w.z, alpha))
  }

  /** One easing step with a factor strictly between 0 and 1 lands between the current value
    * and the target (it never overshoots) and shrinks the remaining distance by `1 - alpha`. */
  lemma EaseStep(a: real, b: real, alpha: real)
    requires 0.0 < alpha < 1.0
    ensures Lerp(a, b, alpha) - b == (1.0 - alpha) * (a - b)
    ensures a <= b ==> a <= Lerp(a, b, alpha) <= b
    ensures b <= a ==> b <= Lerp(a, b, alpha) <= a
    ensures a != b ==> Abs(Lerp(a, b, alpha) - b) < Abs(a - b)
  {
    var d := a - b;
    assert Lerp(a, b, alpha) - b == (1.0 - alpha) * d;
    var k := 1.0 - alpha;
    ProductSign(k, d);
    ProductSign(alpha, b - a);
    var l := Lerp(a, b, alpha);
    assert l == a + (b - a) * alpha;
    assert l - b == k * d;
    if d < 0.0 {
      assert a < l < b;
    } else if d > 0.0 {
      assert b < l < a;
    }
  }

  lemma ProductSign(k: real, d: real)
    requires k > 0.0
    ensures d > 0.0 ==> k * d > 0.0
    ensures d < 0.0 ==> k * d < 0.0
  {
  }

  /** The value after `n` frames that each ease towards the same target. */
  function Eased(a: real, b: real, alpha: real, n: nat): real
    decreases n
  {
    if n == 0 then a else Eased(Lerp(a, b, alpha), b, alpha, n - 1)
  }

  function Power(x: real, n: nat): real
    decreases n
  {
    if n == 0 then 1.0 else x * Power(x, n - 1)
  }

  /** After `n` frames towards a fixed target the remaining gap is (1 - alpha)^n of the first. */
  lemma {:induction false} EasedGap(a: real, b: real, alpha: real, n: nat)
    ensures Eased(a, b, alpha, n) - b == Power(1.0 - alpha, n) * (a - b)
    decreases n
  {
    if n > 0 {
      var a' := Lerp(a, b, alpha);
      EasedGap(a', b, alpha, n - 1);
      assert a' - b == (1.0 - alpha) * (a - b);
      calc {
        Eased(a, b, alpha, n) - b;
        Eased(a', b, alpha, n - 1) - b;
        Power(1.0 - alpha, n - 1) * (a' - b);
        Power(1.0 - alpha, n - 1) * ((1.0 - alpha) * (a - b));
        (1.0 - alpha) * Power(1.0 - alpha, n - 1) * (a - b);
      }
    }
  }

  /** Easing never crosses the target: a value below (above) it stays below (above) it
    * for any number of frames. */
  lemma {:induction false} EasedStaysOnSide(a: real, b: real, alpha: real, n: nat)
    requires 0.0 < alpha < 1.0
    ensures a <= b ==> a <= Eased(a, b, alpha, n) <= b
    ensures b <= a ==> b <= Eased(a, b, alpha, n) <= a
    decreases n
  {
    if n > 0 {
      EaseStep(a, b, alpha);
      EasedStaysOnSide(Lerp(a, b, alpha), b, alpha, n - 1);
    }
  }
}
