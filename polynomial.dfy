/** Powers, finite dot products and polynomial values over the reals.
    Shared by the least-squares fit and the noise-stream polynomials. */
module Polynomial {

  /** x^k, built the way the fitting loops build it: one multiplication by x per step. */
  function Pow(x: real, k: nat): real
  {
    if k == 0 then 1.0 else Pow(x, k - 1) * x
  }

  lemma {:induction false} PowAdd(x: real, a: nat, b: nat)
    ensures Pow(x, a + b) == Pow(x, a) * Pow(x, b)
  {
    if b > 0 {
      PowAdd(x, a, b - 1);
      assert Pow(x, a + b) == Pow(x, a + b - 1) * x;
    }
  }

  /** The sum of u[j] * v[j] over the first k positions. */
  function Dot(u: seq<real>, v: seq<real>, k: nat): real
    requires k <= |u| && k <= |v|
  {
    if k == 0 then 0.0 else Dot(u, v, k - 1) + u[k - 1] * v[k - 1]
  }

  /** The sum of x^i * c[i] over the first k coefficients (ascending powers). */
  function PolyPrefix(c: seq<real>, x: real, k: nat): real
    requires k <= |c|
  {
    if k == 0 then 0.0 else PolyPrefix(c, x, k - 1) + Pow(x, k - 1) * c[k - 1]
  }

  /** The polynomial with ascending coefficients c, evaluated at x. */
  function PolyValue(c: seq<real>, x: real): real
  {
    PolyPrefix(c, x, |c|)
  }

  /** Dot products agree when their arguments agree on the positions summed. */
  lemma {:induction false} DotCongruent(u: seq<real>, u': seq<real>, v: seq<real>, v': seq<real>, k: nat)
    requires k <= |u| && k <= |u'| && k <= |v| && k <= |v'|
    requires forall j :: 0 <= j < k ==> u[j] == u'[j] && v[j] == v'[j]
    ensures Dot(u, v, k) == Dot(u', v', k)
  {
    if k > 0 { DotCongruent(u, u', v, v', k - 1); }
  }

  /** Dividing the left vector by d divides the dot product by d. */
  lemma {:induction false} DotScaled(a: seq<real>, b: seq<real>, v: seq<real>, d: real, k: nat)
    requires d != 0.0
    requires k <= |a| && k <= |b| && k <= |v|
    requires forall j :: 0 <= j < k ==> a[j] == b[j] / d
    ensures Dot(a, v, k) == Dot(b, v, k) / d
  {
    if k > 0 {
      DotScaled(a, b, v, d, k - 1);
      DividedStep(Dot(a, v, k - 1), Dot(b, v, k - 1), a[k - 1], b[k - 1], v[k - 1], d);
    }
  }

  /** The arithmetic of one step of DotScaled, on plain reals. */
  lemma DividedStep(sa: real, sb: real, ak: real, bk: real, vk: real, d: real)
    requires d != 0.0 && sa == sb / d && ak == bk / d
    ensures sa + ak * vk == (sb + bk * vk) / d
  {
    assert ak * vk == (bk * vk) / d;
  }

  /** The dot product is linear in its left vector: (b - c*m) . v == b . v - (c . v) * m. */
  lemma {:induction false} DotSubtracted(a: seq<real>, b: seq<real>, c: seq<real>, v: seq<real>, m: real, k: nat)
    requires k <= |a| && k <= |b| && k <= |c| && k <= |v|
    requires forall j :: 0 <= j < k ==> a[j] == b[j] - c[j] * m
    ensures Dot(a, v, k) == Dot(b, v, k) - Dot(c, v, k) * m
  {
    if k > 0 {
      DotSubtracted(a, b, c, v, m, k - 1);
      CombinedStep(Dot(a, v, k - 1), Dot(b, v, k - 1), Dot(c, v, k - 1), a[k - 1], b[k - 1], c[k - 1], v[k - 1], -m);
    }
  }

  /** The dot product is linear in its left vector: (b + c*m) . v == b . v + (c . v) * m. */
  lemma {:induction false} DotAddedScaled(a: seq<real>, b: seq<real>, c: seq<real>, v: seq<real>, m: real, k: nat)
    requires k <= |a| && k <= |b| && k <= |c| && k <= |v|
    requires forall j :: 0 <= j < k ==> a[j] == b[j] + c[j] * m
    ensures Dot(a, v, k) == Dot(b, v, k) + Dot(c, v, k) * m
  {
    if k > 0 {
      DotAddedScaled(a, b, c, v, m, k - 1);
      CombinedStep(Dot(a, v, k - 1), Dot(b, v, k - 1), Dot(c, v, k - 1), a[k - 1], b[k - 1], c[k - 1], v[k - 1], m);
    }
  }

  /** The arithmetic of one step of DotSubtracted and DotAddedScaled, on plain reals. */
  lemma CombinedStep(sa: real, sb: real, sc: real, ak: real, bk: real, ck: real, vk: real, m: real)
    requires sa == sb + sc * m && ak == bk + ck * m
    ensures sa + ak * vk == (sb + bk * vk) + (sc + ck * vk) * m
  {
    assert ak * vk == bk * vk + (ck * vk) * m;
  }

  /** The dot product is linear in its right vector: fi . (w + mu*m) == fi . w + m * d,
      where d is fi . mu. */
  lemma {:induction false} DotRightAddedScaled(fi: seq<real>, u: seq<real>, w: seq<real>, mu: seq<real>, m: real, d: real, k: nat)
    requires k <= |fi| && k <= |u| && k <= |w| && k <= |mu|
    requires forall j :: 0 <= j < k ==> u[j] == w[j] + mu[j] * m
    requires d == Dot(fi, mu, k)
    ensures Dot(fi, u, k) == Dot(fi, w, k) + m * d
    decreases k
  {
    if k > 0 {
      var d' := Dot(fi, mu, k - 1);
      DotRightAddedScaled(fi, u, w, mu, m, d', k - 1);
      RightCombinedStep(Dot(fi, u, k - 1), Dot(fi, w, k - 1), d', d, fi[k - 1], u[k - 1], w[k - 1], mu[k - 1], m);
    }
  }

  /** The arithmetic of one step of DotRightAddedScaled, on plain reals. */
  lemma RightCombinedStep(su: real, sw: real, sm: real, sm2: real, fk: real, uk: real, wk: real, mk: real, m: real)
    requires su == sw + m * sm && uk == wk + mk * m && sm2 == sm + fk * mk
    ensures su + fk * uk == (sw + fk * wk) + m * sm2
  {
    assert fk * uk == fk * wk + m * (fk * mk);
  }

  /** The dot product is additive in its left vector. */
  lemma {:induction false} DotAdded(a: seq<real>, b: seq<real>, c: seq<real>, v: seq<real>, k: nat)
    requires k <= |a| && k <= |b| && k <= |c| && k <= |v|
    requires forall j :: 0 <= j < k ==> a[j] == b[j] + c[j]
    ensures Dot(a, v, k) == Dot(b, v, k) + Dot(c, v, k)
  {
    if k > 0 {
      DotAdded(a, b, c, v, k - 1);
      assert a[k - 1] * v[k - 1] == b[k - 1] * v[k - 1] + c[k - 1] * v[k - 1];
    }
  }

  /** A unit vector e_r picks out position r. */
  lemma {:induction false} DotUnit(e: seq<real>, v: seq<real>, r: nat, k: nat)
    requires k <= |e| && k <= |v|
    requires forall j :: 0 <= j < k ==> e[j] == if j == r then 1.0 else 0.0
    ensures Dot(e, v, k) == if r < k then v[r] else 0.0
  {
    if k > 0 { DotUnit(e, v, r, k - 1); }
  }

  /** The dot product is symmetric. */
  lemma {:induction false} DotCommutes(u: seq<real>, v: seq<real>, k: nat)
    requires k <= |u| && k <= |v|
    ensures Dot(u, v, k) == Dot(v, u, k)
  {
    if k > 0 { DotCommutes(u, v, k - 1); }
  }

  /** Dot products whose terms agree position by position are equal. */
  lemma {:induction false} DotTermwise(a: seq<real>, x: seq<real>, b: seq<real>, y: seq<real>, k: nat)
    requires k <= |a| && k <= |x| && k <= |b| && k <= |y|
    requires forall j :: 0 <= j < k ==> a[j] * x[j] == b[j] * y[j]
    ensures Dot(a, x, k) == Dot(b, y, k)
  {
    if k > 0 { DotTermwise(a, x, b, y, k - 1); }
  }

  /** Dot products whose terms agree except at positions p and q differ by the
      differences of those two terms. */
  lemma {:induction false} DotTwoTermsDiffer(a: seq<real>, x: seq<real>, b: seq<real>, y: seq<real>, k: nat, p: nat, q: nat)
    requires k <= |a| && k <= |x| && k <= |b| && k <= |y| && p != q
    requires forall j :: 0 <= j < k && j != p && j != q ==> a[j] * x[j] == b[j] * y[j]
    ensures Dot(a, x, k) - Dot(b, y, k)
         == (if p < k then a[p] * x[p] - b[p] * y[p] else 0.0)
          + (if q < k then a[q] * x[q] - b[q] * y[q] else 0.0)
  {
    if k > 0 {
      var j := k - 1;
      DotTwoTermsDiffer(a, x, b, y, j, p, q);
      if j == p {
        assert Dot(a, x, k) - Dot(b, y, k) == (Dot(a, x, j) - Dot(b, y, j)) + (a[p] * x[p] - b[p] * y[p]);
      } else if j == q {
        assert Dot(a, x, k) - Dot(b, y, k) == (Dot(a, x, j) - Dot(b, y, j)) + (a[q] * x[q] - b[q] * y[q]);
      } else {
        assert Dot(a, x, k) - Dot(b, y, k) == Dot(a, x, j) - Dot(b, y, j);
      }
    }
  }


  /** Exchanging the entries at positions p and q of both vectors leaves the dot
      product unchanged. */
  lemma DotSwapped(a: seq<real>, x: seq<real>, b: seq<real>, y: seq<real>, k: nat, p: nat, q: nat)
    requires k <= |a| && k <= |x| && k <= |b| && k <= |y| && p < k && q < k
    requires forall j :: 0 <= j < k && j != p && j != q ==> a[j] == b[j] && x[j] == y[j]
    requires a[p] == b[q] && x[p] == y[q] && a[q] == b[p] && x[q] == y[p]
    ensures Dot(a, x, k) == Dot(b, y, k)
  {
    if p == q {
      DotCongruent(a, b, x, y, k);
    } else {
      forall j | 0 <= j < k && j != p && j != q
        ensures a[j] * x[j] == b[j] * y[j]
      {
      }
      DotTwoTermsDiffer(a, x, b, y, k, p, q);
    }
  }


  /** Scaling the left vector by c scales the dot product by c: a . v == c * d,
      where d is b . v. */
  lemma {:induction false} DotLeftScaled(a: seq<real>, b: seq<real>, v: seq<real>, c: real, d: real, k: nat)
    requires k <= |a| && k <= |b| && k <= |v|
    requires forall j :: 0 <= j < k ==> a[j] == c * b[j]
    requires d == Dot(b, v, k)
    ensures Dot(a, v, k) == c * d
    decreases k
  {
    if k > 0 {
      var d' := Dot(b, v, k - 1);
      DotLeftScaled(a, b, v, c, d', k - 1);
      ScaledStep(Dot(a, v, k - 1), d', d, a[k - 1], b[k - 1], v[k - 1], c);
    }
  }

  /** The arithmetic of one step of DotLeftScaled, on plain reals. */
  lemma ScaledStep(sa: real, sb: real, sb2: real, ak: real, bk: real, vk: real, c: real)
    requires sa == c * sb && ak == c * bk && sb2 == sb + bk * vk
    ensures sa + ak * vk == c * sb2
  {
    assert ak * vk == c * (bk * vk);
  }

  /** A polynomial value is the dot product of the powers of x with the coefficients. */
  lemma {:induction false} PowersDot(pw: seq<real>, p: seq<real>, x: real, k: nat)
    requires k <= |pw| && k <= |p|
    requires forall i {:trigger pw[i]} :: 0 <= i < k ==> pw[i] == Pow(x, i)
    ensures Dot(pw, p, k) == PolyPrefix(p, x, k)
  {
    if k > 0 { PowersDot(pw, p, x, k - 1); }
  }

  /** Multiplying a polynomial by x^s shifts its powers: the sum of x^(s+i) * p[i]
      is xs * v, where xs is x^s and v is the value of the first k terms of p. */
  lemma DotShiftedPowers(w: seq<real>, p: seq<real>, x: real, s: nat, k: nat, xs: real, v: real)
    requires k <= |w| && k <= |p|
    requires forall i :: 0 <= i < k ==> w[i] == Pow(x, s + i)
    requires xs == Pow(x, s) && v == PolyPrefix(p, x, k)
    ensures Dot(w, p, k) == xs * v
  {
    var pw := seq(k, i requires 0 <= i => Pow(x, i));
    ShiftedPowers(w, pw, x, s, k, xs);
    PowersDot(pw, p, x, k);
    DotLeftScaled(w, pw, p, xs, v, k);
  }

  /** Position by position, x^(s+i) is xs * x^i, where xs is x^s. */
  lemma ShiftedPowers(w: seq<real>, pw: seq<real>, x: real, s: nat, k: nat, xs: real)
    requires k <= |w| && k <= |pw| && xs == Pow(x, s)
    requires forall i :: 0 <= i < k ==> w[i] == Pow(x, s + i)
    requires forall i {:trigger pw[i]} :: 0 <= i < k ==> pw[i] == Pow(x, i)
    ensures forall i :: 0 <= i < k ==> w[i] == xs * pw[i]
  {
    forall i | 0 <= i < k
      ensures w[i] == xs * pw[i]
    {
      PowAdd(x, s, i);
      Substituted(Pow(x, s + i), Pow(x, s), Pow(x, i), w[i], xs, pw[i]);
    }
  }

  /** Replacing equals by equals in a product, on plain reals. */
  lemma Substituted(a: real, b: real, c: real, a': real, b': real, c': real)
    requires a == b * c && a' == a && b' == b && c' == c
    ensures a' == b' * c'
  {
  }

  /** A cubic with ascending coefficients [c0, c1, c2, c3] is c0 + c1*x + c2*x^2 + c3*x^3. */
  lemma CubicValue(c0: real, c1: real, c2: real, c3: real, x: real)
    ensures PolyValue([c0, c1, c2, c3], x) == c0 + c1 * x + c2 * (x * x) + c3 * (x * x * x)
  {
    var c := [c0, c1, c2, c3];
    assert PolyPrefix(c, x, 1) == c0;
    assert PolyPrefix(c, x, 2) == c0 + x * c1;
    assert Pow(x, 2) == x * x;
    assert PolyPrefix(c, x, 3) == c0 + x * c1 + (x * x) * c2;
    assert Pow(x, 3) == x * x * x;
    assert PolyPrefix(c, x, 4) == c0 + x * c1 + (x * x) * c2 + (x * x * x) * c3;
  }
}
