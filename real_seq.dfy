/** Vectors of exact reals and the numpy reductions the filter applies to them. */
module RealSeq {

  /** A nonnegative real. It stands for exp(x) of a log-domain value x, with exp(-inf) = 0. */
  type NonNeg = r: real | 0.0 <= r

  function Min(a: nat, b: nat): nat
  {
    if a <= b then a else b
  }

  /** np.min([a, b]) */
  function MinReal(a: real, b: real): real
  {
    if a <= b then a else b
  }

  /** np.sum */
  function Sum(s: seq<real>): real
  {
    if s == [] then 0.0 else s[0] + Sum(s[1..])
  }

  predicate NonNegative(s: seq<real>)
  {
    forall i :: 0 <= i < |s| ==> 0.0 <= s[i]
  }

  /** A weight vector: nonnegative entries summing to 1. */
  predicate Stochastic(s: seq<real>)
  {
    NonNegative(s) && Sum(s) == 1.0
  }

  /** c * s */
  function Scale(c: real, s: seq<real>): seq<real>
  {
    seq(|s|, i requires 0 <= i < |s| => c * s[i])
  }

  /** s / c */
  function Div(s: seq<real>, c: real): seq<real>
    requires c != 0.0
  {
    seq(|s|, i requires 0 <= i < |s| => s[i] / c)
  }

  /** a * b, element by element */
  function Mul(a: seq<real>, b: seq<real>): seq<real>
    requires |a| == |b|
  {
    seq(|a|, i requires 0 <= i < |a| => a[i] * b[i])
  }

  /** s / np.sum(s) */
  function Normalise(s: seq<real>): seq<real>
    requires Sum(s) != 0.0
  {
    Div(s, Sum(s))
  }

  /** np.ones(n) / n */
  function Uniform(n: nat): seq<real>
  {
    seq(n, i requires 0 <= i < n => 1.0 / (n as real))
  }

  lemma MulNonNegative(a: real, b: real)
    requires 0.0 <= a && 0.0 <= b
    ensures 0.0 <= a * b
  {
  }

  /** For 0 <= n <= d and d > 0, the quotient n / d lies in [0, 1]. */
  lemma QuotientInUnit(n: real, d: real)
    requires 0.0 <= n <= d && 0.0 < d
    ensures 0.0 <= n / d <= 1.0
  {
    assert n / d * d == n;
  }

  lemma SumCons(a: real, s: seq<real>)
    ensures Sum([a] + s) == a + Sum(s)
  {
    assert ([a] + s)[1..] == s;
  }

  lemma {:induction false} SumAppend(a: seq<real>, b: seq<real>)
    ensures Sum(a + b) == Sum(a) + Sum(b)
  {
    if a == [] {
      assert a + b == b;
    } else {
      assert (a + b)[1..] == a[1..] + b;
      SumAppend(a[1..], b);
    }
  }

  lemma MulAppend(a1: seq<real>, a2: seq<real>, b1: seq<real>, b2: seq<real>)
    requires |a1| == |b1| && |a2| == |b2|
    ensures Mul(a1 + a2, b1 + b2) == Mul(a1, b1) + Mul(a2, b2)
  {
    var l, r := Mul(a1 + a2, b1 + b2), Mul(a1, b1) + Mul(a2, b2);
    forall i | 0 <= i < |l|
      ensures l[i] == r[i]
    {
      if i < |a1| {
        assert (a1 + a2)[i] == a1[i] && (b1 + b2)[i] == b1[i];
      } else {
        assert (a1 + a2)[i] == a2[i - |a1|] && (b1 + b2)[i] == b2[i - |a1|];
      }
    }
  }

  lemma {:induction false} SumNonNegative(s: seq<real>)
    requires NonNegative(s)
    ensures 0.0 <= Sum(s)
  {
    if s != [] {
      SumNonNegative(s[1..]);
    }
  }

  /** A nonnegative vector sums to a positive total exactly when one of its entries is positive. */
  lemma {:induction false} SumPositive(s: seq<real>)
    requires NonNegative(s)
    ensures 0.0 < Sum(s) <==> exists i :: 0 <= i < |s| && 0.0 < s[i]
  {
    if s != [] {
      SumPositive(s[1..]);
      SumNonNegative(s[1..]);
      if 0.0 < Sum(s[1..]) {
        var i :| 0 <= i < |s[1..]| && 0.0 < s[1..][i];
        assert 0.0 < s[i + 1];
      }
      if exists i :: 0 <= i < |s| && 0.0 < s[i] {
        var i :| 0 <= i < |s| && 0.0 < s[i];
        if i > 0 {
          assert 0.0 < s[1..][i - 1];
        }
      }
    }
  }

  lemma {:induction false} SumScale(c: real, s: seq<real>)
    ensures Sum(Scale(c, s)) == c * Sum(s)
  {
    if s != [] {
      assert forall i :: 0 <= i < |s| - 1 ==> Scale(c, s)[1..][i] == Scale(c, s[1..])[i];
      assert Scale(c, s)[1..] == Scale(c, s[1..]);
      SumScale(c, s[1..]);
    }
  }

  lemma {:induction false} SumDiv(s: seq<real>, c: real)
    requires c != 0.0
    ensures Sum(Div(s, c)) == Sum(s) / c
  {
    if s != [] {
      assert Div(s, c)[1..] == Div(s[1..], c);
      SumDiv(s[1..], c);
      assert s[0] / c + Sum(s[1..]) / c == (s[0] + Sum(s[1..])) / c;
    }
  }

  /** A vector with every entry equal to c sums to its length times c. */
  lemma {:induction false} SumConstant(s: seq<real>, c: real)
    requires forall i :: 0 <= i < |s| ==> s[i] == c
    ensures Sum(s) == |s| as real * c
  {
    if s != [] {
      SumConstant(s[1..], c);
    }
  }

  lemma QuotientNonNegative(n: real, d: real)
    requires 0.0 <= n && 0.0 < d
    ensures 0.0 <= n / d
  {
    assert n / d * d == n;
  }

  lemma QuotientTimes(n: real, d: real)
    requires d != 0.0
    ensures n / d * d == n
  {
  }

  /** SumScale with the total passed as a plain variable: at call sites that already know
      Sum(s), the product c * total then stays clear of Sum's definition, which keeps the
      nonlinear arithmetic there cheap for the solver. */
  lemma ScaledTotal(c: real, s: seq<real>, total: real)
    requires Sum(s) == total
    ensures Sum(Scale(c, s)) == c * total
  {
    SumScale(c, s);
  }

  lemma ProductZero(c: real, z: real)
    requires c != 0.0
    ensures c * z == 0.0 <==> z == 0.0
  {
    if c * z == 0.0 {
      assert c * z / c == z;
    }
  }

  lemma CancelFactor(c: real, x: real, z: real)
    requires c != 0.0 && z != 0.0
    ensures (c * x) / (c * z) == x / z
  {
    assert (x / z) * (c * z) == c * x;
  }

  lemma QuotientSum(x: real, y: real, d: real)
    requires d != 0.0
    ensures x / d + y / d == (x + y) / d
  {
  }

  lemma QuotientZero(n: real, d: real)
    requires d != 0.0
    ensures n / d == 0.0 <==> n == 0.0
  {
    QuotientTimes(n, d);
  }

  lemma DivMonotone(x: real, y: real, d: real)
    requires x <= y && 0.0 < d
    ensures x / d <= y / d && (x < y ==> x / d < y / d)
  {
    assert x / d * d == x && y / d * d == y;
  }

  /** Scaling a vector and its divisor by the same nonzero factor leaves the quotient alone. */
  lemma DivScaled(s: seq<real>, c: real, t: real)
    requires c != 0.0 && t != 0.0
    ensures c * t != 0.0 && Div(Scale(c, s), c * t) == Div(s, t)
  {
    ProductZero(c, t);
    forall i | 0 <= i < |s|
      ensures Div(Scale(c, s), c * t)[i] == Div(s, t)[i]
    {
      CancelFactor(c, s[i], t);
    }
  }

  /** Normalising a vector with a nonzero total keeps its length and gives total 1. */
  lemma NormaliseTotal(s: seq<real>)
    requires Sum(s) != 0.0
    ensures |Normalise(s)| == |s| && Sum(Normalise(s)) == 1.0
  {
    var t := Sum(s);
    SumDiv(s, t);
    QuotientTimes(1.0, t);
  }

  /** Each normalised entry times the old total is the old entry. */
  lemma NormaliseProportional(s: seq<real>)
    requires Sum(s) != 0.0
    ensures forall i :: 0 <= i < |s| ==> Normalise(s)[i] * Sum(s) == s[i]
  {
    forall i | 0 <= i < |s| {
      NormaliseEntry(s, i);
    }
  }

  lemma NormaliseEntry(s: seq<real>, i: int)
    requires Sum(s) != 0.0 && 0 <= i < |s|
    ensures Normalise(s)[i] * Sum(s) == s[i]
  {
    QuotientTimes(s[i], Sum(s));
  }

  /** A zero entry stays zero. */
  lemma NormaliseKeepsZero(s: seq<real>)
    requires Sum(s) != 0.0
    ensures forall i :: 0 <= i < |s| && s[i] == 0.0 ==> Normalise(s)[i] == 0.0
  {
  }

  /** Dividing a nonnegative vector with a positive total by that total gives a weight vector. */
  lemma NormaliseStochastic(s: seq<real>)
    requires NonNegative(s) && Sum(s) != 0.0
    ensures |Normalise(s)| == |s| && Stochastic(Normalise(s))
  {
    var t := Sum(s);
    SumNonNegative(s);
    NormaliseTotal(s);
    forall i | 0 <= i < |s|
      ensures 0.0 <= Normalise(s)[i]
    {
      QuotientNonNegative(s[i], t);
    }
  }

  /** Renormalising a vector that already sums to 1 changes nothing. */
  lemma NormaliseIdempotent(s: seq<real>)
    requires Sum(s) == 1.0
    ensures Normalise(s) == s
  {
  }

  /** np.ones(n) / n is a weight vector whose every entry is 1/n. */
  lemma UniformStochastic(n: nat)
    requires 0 < n
    ensures |Uniform(n)| == n && Stochastic(Uniform(n))
    ensures forall i :: 0 <= i < n ==> Uniform(n)[i] == 1.0 / (n as real)
  {
    SumConstant(Uniform(n), 1.0 / (n as real));
  }

}
