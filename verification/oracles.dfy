/**
 * The numeric primitives the model leaves uninterpreted. The library
 * draws its jitter from numpy's global generator and takes square roots,
 * cosines and sines of floats; here each is a parameter, and jitter draws
 * are numbered so that a sequence of calls sees successive values.
 */
module Oracles {

  datatype Env = Env(
    jiggle: nat -> real,
    sqrt: real -> real,
    cos: real -> real,
    sin: real -> real)

  function Sq(v: real): real {
    v * v
  }

  lemma SqNonNegative(v: real)
    ensures Sq(v) >= 0.0
  {
    if v < 0.0 {
      calc {
        Sq(v);
        (-v) * (-v);
      >
        0.0 * (-v);
      }
    }
  }

  lemma SqPositive(v: real)
    requires v != 0.0
    ensures Sq(v) > 0.0
  {
    if v > 0.0 {
      calc {
        Sq(v);
        v * v;
      >
        0.0 * v;
      }
    } else {
      calc {
        Sq(v);
        (-v) * (-v);
      >
        0.0 * (-v);
      }
    }
  }

  /**
   * `jiggle()` replacing a zero coordinate, with the running squared length
   * grown by the draw's square. A non-zero coordinate is kept and costs no
   * draw. Whatever happens, the running length exceeds the coordinate's
   * square by what it did before, so a length that was the squared length
   * of the offset stays the squared length of the jittered offset.
   */
  function Jiggled(env: Env, v: real, len2: real, draws: nat): (r: (real, real, nat))
    ensures r.0 == v || (v == 0.0 && r.0 == env.jiggle(draws))
    ensures r.0 != 0.0 <==> v != 0.0 || env.jiggle(draws) != 0.0
    ensures r.1 - Sq(r.0) == len2 - Sq(v)
    ensures draws <= r.2 <= draws + 1 && (r.2 == draws <==> v != 0.0)
  {
    if v == 0.0 then (env.jiggle(draws), len2 + Sq(env.jiggle(draws)), draws + 1) else (v, len2, draws)
  }

  /**
   * Why `jiggle` exists: jittering x and then y of an offset keeps the
   * running length the squared length of the jittered offset, and that
   * length is positive unless both coordinates are still zero, so the
   * division that follows is safe whenever a draw is non-zero.
   */
  lemma JiggledPair(env: Env, x: real, y: real, draws: nat)
    ensures var a := Jiggled(env, x, Sq(x) + Sq(y), draws);
      var b := Jiggled(env, y, a.1, a.2);
      && b.1 == Sq(a.0) + Sq(b.0)
      && (b.1 > 0.0 <==> a.0 != 0.0 || b.0 != 0.0)
      && b.2 <= draws + 2
  {
    var a := Jiggled(env, x, Sq(x) + Sq(y), draws);
    var b := Jiggled(env, y, a.1, a.2);
    SqNonNegative(a.0);
    SqNonNegative(b.0);
    if a.0 != 0.0 {
      SqPositive(a.0);
    }
    if b.0 != 0.0 {
      SqPositive(b.0);
    }
  }

  /** A square root that is exact on the non-negative reals, as the model's stand-in for `math.sqrt`. */
  ghost predicate ExactSqrt(env: Env) {
    forall v: real | v >= 0.0 :: env.sqrt(v) >= 0.0 && Sq(env.sqrt(v)) == v
  }

  /** Under an exact square root, the length of (x, y) squares to x² + y² and is zero only at the origin. */
  lemma ExactLength(env: Env, x: real, y: real)
    ensures var l := env.sqrt(Sq(x) + Sq(y));
      ExactSqrt(env) ==> l >= 0.0 && Sq(l) == Sq(x) + Sq(y) && (l == 0.0 <==> x == 0.0 && y == 0.0)
  {
    SqNonNegative(x);
    SqNonNegative(y);
    if x != 0.0 {
      SqPositive(x);
    }
    if y != 0.0 {
      SqPositive(y);
    }
    var l := env.sqrt(Sq(x) + Sq(y));
    if l != 0.0 {
      SqPositive(l);
    }
  }

  /**
   * Scaling (x, y) by m / l, for its length l, gives a vector parallel to
   * (x, y) whose component along (x, y) is l · m and whose squared length
   * is m².
   */
  lemma ScaledAlong(x: real, y: real, l: real, m: real, k: real)
    ensures l != 0.0 && Sq(l) == Sq(x) + Sq(y) && k == m / l ==>
      && (x * k) * y == (y * k) * x
      && (x * k) * x + (y * k) * y == l * m
      && Sq(x * k) + Sq(y * k) == Sq(m)
  {
    if l != 0.0 && Sq(l) == Sq(x) + Sq(y) && k == m / l {
      assert k * l == m;
      calc {
        (x * k) * x + (y * k) * y;
        k * (x * x + y * y);
        k * (l * l);
        (k * l) * l;
        l * m;
      }
      calc {
        Sq(x * k) + Sq(y * k);
        (k * k) * (x * x + y * y);
        (k * k) * (l * l);
        (k * l) * (k * l);
        Sq(m);
      }
    }
  }

  /** Dividing by l and then scaling is scaling and then dividing. */
  lemma DivThenScale(a: real, l: real, s: real)
    ensures l != 0.0 ==> a / l * s == (a * s) / l
  {
    if l != 0.0 {
      assert a / l * l == a;
      assert (a * s) / l * l == a * s;
    }
  }

  /** (cx, cy) lies along (x, y): parallel to it, with component l · m along it and squared length m². */
  predicate Along(cx: real, cy: real, x: real, y: real, l: real, m: real) {
    && cx * y == cy * x
    && cx * x + cy * y == l * m
    && Sq(cx) + Sq(cy) == Sq(m)
  }

  /**
   * The offset (x, y) of squared length len2 scaled by m / l for its
   * length l = sqrt(len2), under an exact square root: l is zero only at
   * the origin, and otherwise the result lies along (x, y) with component
   * l · m along it and squared length m².
   */
  lemma Stretched(env: Env, x: real, y: real, len2: real, m: real, k: real)
    ensures var l := env.sqrt(len2);
      ExactSqrt(env) && len2 == Sq(x) + Sq(y) ==>
        && (l == 0.0 <==> x == 0.0 && y == 0.0)
        && (l != 0.0 && k == m / l ==> Along(x * k, y * k, x, y, l, m))
  {
    if ExactSqrt(env) && len2 == Sq(x) + Sq(y) {
      ExactLength(env, x, y);
      ScaledAlong(x, y, env.sqrt(len2), m, k);
    }
  }

  /** Cosine and sine that lie on the unit circle, as the model's stand-in for `math.cos` and `math.sin`. */
  ghost predicate UnitCircle(env: Env) {
    forall a: real :: Sq(env.cos(a)) + Sq(env.sin(a)) == 1.0
  }

  /** A point at angle `a` and signed radius `rad` lies at distance |rad| from the origin. */
  lemma OnCircle(env: Env, rad: real, a: real)
    ensures UnitCircle(env) ==> Sq(rad * env.cos(a)) + Sq(rad * env.sin(a)) == Sq(rad)
  {
    if UnitCircle(env) {
      var cs, sn := env.cos(a), env.sin(a);
      calc {
        Sq(rad * cs) + Sq(rad * sn);
        Sq(rad) * (Sq(cs) + Sq(sn));
        Sq(rad);
      }
    }
  }

  /** A length `k · √v` squares to k² · v. */
  lemma ScaledRoot(env: Env, k: real, v: real)
    ensures ExactSqrt(env) && v >= 0.0 ==> Sq(k * env.sqrt(v)) == Sq(k) * v
  {
    if ExactSqrt(env) && v >= 0.0 {
      var r := env.sqrt(v);
      calc {
        Sq(k * r);
        Sq(k) * Sq(r);
        Sq(k) * v;
      }
    }
  }
}
