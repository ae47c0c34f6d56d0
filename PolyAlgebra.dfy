/** The ring laws of coefficient sequences under a·b (`ConvAt`) that the
    polynomial gcd is proved with: linearity in either factor, scaling, and
    associativity; and divisibility stated through them. */
module PolyAlgebra {
  import opened Arith
  import opened PolyMath

  /** a·b as a sequence of any two factors, one slot longer than needed so
      that empty factors need no special case. */
  function Mul(a: seq<real>, b: seq<real>): (s: seq<real>)
    ensures |s| == |a| + |b|
  {
    seq(|a| + |b|, k => ConvAt(a, b, k))
  }

  /** Every coefficient of a·b vanishes below 0 and from |a| + |b| up. */
  lemma ConvAtBeyond(a: seq<real>, b: seq<real>, k: int)
    requires k < 0 || k >= |a| + |b|
    ensures ConvAt(a, b, k) == 0.0
  {
    if |a| > 0 && |b| > 0 {
      ConvAtOutside(a, b, k);
    } else if |a| > 0 {
      forall i | 0 <= i < |a|
        ensures ConvTerm(a, b, k, i) == 0.0
      {
      }
      ConvSumZero(a, b, k, |a|);
    }
  }

  lemma MulCoef(a: seq<real>, b: seq<real>, j: int)
    ensures Coef(Mul(a, b), j) == ConvAt(a, b, j)
  {
    if !(0 <= j < |a| + |b|) {
      ConvAtBeyond(a, b, j);
    }
  }

  /** Terms past the end of `a` add nothing. */
  lemma {:induction false} ConvSumFull(a: seq<real>, b: seq<real>, k: int, n: nat)
    requires n >= |a|
    ensures ConvSum(a, b, k, n) == ConvAt(a, b, k)
  {
    if n > |a| {
      ConvSumFull(a, b, k, n - 1);
      assert ConvTerm(a, b, k, n - 1) == Times(0.0, Coef(b, k - n + 1));
    }
  }

  /** The top term of a·b split off. */
  lemma ConvAtSnoc(a: seq<real>, b: seq<real>, k: int)
    requires |a| > 0
    ensures ConvAt(a, b, k) == ConvAt(a[..|a| - 1], b, k) + Times(a[|a| - 1], Coef(b, k - (|a| - 1)))
  {
    ConvSumPrefix(a, b, k, |a| - 1, |a| - 1);
  }

  lemma {:induction false} ConvSumLeftLinear(w: seq<real>, x: seq<real>, y: seq<real>, b: seq<real>, k: int, n: nat)
    requires forall j :: 0 <= j < n ==> Coef(w, j) == Coef(x, j) + Coef(y, j)
    ensures ConvSum(w, b, k, n) == ConvSum(x, b, k, n) + ConvSum(y, b, k, n)
  {
    if n > 0 {
      ConvSumLeftLinear(w, x, y, b, k, n - 1);
      assert ConvTerm(w, b, k, n - 1) == ConvTerm(x, b, k, n - 1) + ConvTerm(y, b, k, n - 1);
    }
  }

  /** (x + y)·b = x·b + y·b, for any w whose coefficients are those of x + y. */
  lemma LeftLinear(w: seq<real>, x: seq<real>, y: seq<real>, b: seq<real>, k: int)
    requires forall j :: Coef(w, j) == Coef(x, j) + Coef(y, j)
    ensures ConvAt(w, b, k) == ConvAt(x, b, k) + ConvAt(y, b, k)
  {
    var n := |w| + |x| + |y|;
    ConvSumLeftLinear(w, x, y, b, k, n);
    ConvSumFull(w, b, k, n);
    ConvSumFull(x, b, k, n);
    ConvSumFull(y, b, k, n);
  }

  lemma {:induction false} ConvSumRightLinear(a: seq<real>, p: seq<real>, x: seq<real>, y: seq<real>, k: int, n: nat)
    requires forall j :: Coef(p, j) == Coef(x, j) + Coef(y, j)
    ensures ConvSum(a, p, k, n) == ConvSum(a, x, k, n) + ConvSum(a, y, k, n)
  {
    if n > 0 {
      ConvSumRightLinear(a, p, x, y, k, n - 1);
      assert Coef(p, k - (n - 1)) == Coef(x, k - (n - 1)) + Coef(y, k - (n - 1));
      assert ConvTerm(a, p, k, n - 1) == ConvTerm(a, x, k, n - 1) + ConvTerm(a, y, k, n - 1);
    }
  }

  /** a·(x + y) = a·x + a·y, for any p whose coefficients are those of x + y. */
  lemma RightLinear(a: seq<real>, p: seq<real>, x: seq<real>, y: seq<real>, k: int)
    requires forall j :: Coef(p, j) == Coef(x, j) + Coef(y, j)
    ensures ConvAt(a, p, k) == ConvAt(a, x, k) + ConvAt(a, y, k)
  {
    ConvSumRightLinear(a, p, x, y, k, |a|);
  }

  lemma {:induction false} ConvSumRightZero(a: seq<real>, z: seq<real>, k: int, n: nat)
    requires forall j :: Coef(z, j) == 0.0
    ensures ConvSum(a, z, k, n) == 0.0
  {
    if n > 0 {
      ConvSumRightZero(a, z, k, n - 1);
      assert Coef(z, k - (n - 1)) == 0.0;
    }
  }

  /** a·0 = 0. */
  lemma RightZero(a: seq<real>, z: seq<real>, k: int)
    requires forall j :: Coef(z, j) == 0.0
    ensures ConvAt(a, z, k) == 0.0
  {
    ConvSumRightZero(a, z, k, |a|);
  }

  /** 1·b = b. */
  lemma OneLeft(b: seq<real>, k: int)
    ensures ConvAt([1.0], b, k) == Coef(b, k)
  {
    assert ConvSum([1.0], b, k, 1) == 0.0 + Times(1.0, Coef(b, k));
  }

  lemma {:induction false} ConvSumNeg(a: seq<real>, b: seq<real>, k: int, n: nat)
    requires n <= |a|
    ensures ConvSum(Neg(a), b, k, n) == -ConvSum(a, b, k, n)
  {
    if n > 0 {
      ConvSumNeg(a, b, k, n - 1);
      assert ConvTerm(Neg(a), b, k, n - 1) == -ConvTerm(a, b, k, n - 1);
    }
  }

  /** (−a)·b = −(a·b). */
  lemma NegLeft(a: seq<real>, b: seq<real>, k: int)
    ensures ConvAt(Neg(a), b, k) == -ConvAt(a, b, k)
  {
    ConvSumNeg(a, b, k, |a|);
  }

  lemma {:induction false} ConvSumScale(a: seq<real>, c: real, b: seq<real>, k: int, n: nat)
    requires n <= |a|
    ensures ConvSum(Scale(a, c), b, k, n) == Times(ConvSum(a, b, k, n), c)
  {
    if n > 0 {
      ConvSumScale(a, c, b, k, n - 1);
      var t := Coef(b, k - (n - 1));
      assert ConvTerm(Scale(a, c), b, k, n - 1) == Times(Times(a[n - 1], c), t);
      assert Times(Times(a[n - 1], c), t) == Times(Times(a[n - 1], t), c);
    }
  }

  /** (a·c)·b = (a·b)·c for a constant c. */
  lemma ScaleLeft(a: seq<real>, c: real, b: seq<real>, k: int)
    ensures ConvAt(Scale(a, c), b, k) == Times(ConvAt(a, b, k), c)
  {
    ConvSumScale(a, c, b, k, |a|);
  }

  lemma {:induction false} ConvSumMoveScale(a: seq<real>, p: seq<real>, g: seq<real>, c: real, k: int, n: nat)
    requires n <= |a|
    requires forall j :: Coef(p, j) == Times(Coef(g, j), c)
    ensures ConvSum(a, p, k, n) == ConvSum(Scale(a, c), g, k, n)
  {
    if n > 0 {
      ConvSumMoveScale(a, p, g, c, k, n - 1);
      var t := Coef(g, k - (n - 1));
      assert Coef(p, k - (n - 1)) == Times(t, c);
      assert Times(a[n - 1], Times(t, c)) == Times(Times(a[n - 1], c), t);
    }
  }

  /** a·(g·c) = (a·c)·g for a constant c. */
  lemma MoveScale(a: seq<real>, p: seq<real>, g: seq<real>, c: real, k: int)
    requires forall j :: Coef(p, j) == Times(Coef(g, j), c)
    ensures ConvAt(a, p, k) == ConvAt(Scale(a, c), g, k)
  {
    ConvSumMoveScale(a, p, g, c, k, |a|);
  }

  lemma {:induction false} ConvSumShifted(w: seq<real>, u: real, q: seq<real>, m: nat, b: seq<real>, k: int, n: nat)
    requires forall j :: Coef(w, j) == Times(u, Coef(q, j - m))
    ensures ConvSum(w, b, k, m + n) == Times(u, ConvSum(q, b, k - m, n))
  {
    if n == 0 {
      forall i | 0 <= i < m
        ensures ConvTerm(w, b, k, i) == 0.0
      {
        assert Coef(w, i) == Times(u, 0.0);
      }
      ConvSumZero(w, b, k, m);
    } else {
      ConvSumShifted(w, u, q, m, b, k, n - 1);
      var x, t := Coef(q, n - 1), Coef(b, k - m - (n - 1));
      assert Coef(w, m + n - 1) == Times(u, x);
      assert ConvTerm(w, b, k, m + n - 1) == Times(Times(u, x), t);
      assert ConvTerm(q, b, k - m, n - 1) == Times(x, t);
      assert Times(Times(u, x), t) == Times(u, Times(x, t));
    }
  }

  /** (u·x^m·q)·b = u·x^m·(q·b). */
  lemma Shifted(w: seq<real>, u: real, q: seq<real>, m: nat, b: seq<real>, k: int)
    requires forall j :: Coef(w, j) == Times(u, Coef(q, j - m))
    ensures ConvAt(w, b, k) == Times(u, ConvAt(q, b, k - m))
  {
    var n := |w| + |q|;
    ConvSumShifted(w, u, q, m, b, k, n);
    ConvSumFull(w, b, k, m + n);
    ConvSumFull(q, b, k - m, n);
  }

  /** a·(q·b) = (a·q)·b. */
  lemma {:induction false} Associative(a: seq<real>, q: seq<real>, b: seq<real>, k: int)
    ensures ConvAt(a, Mul(q, b), k) == ConvAt(Mul(a, q), b, k)
    decreases |a|
  {
    if |a| == 0 {
      forall j
        ensures Coef(Mul(a, q), j) == Coef([], j) + Coef([], j)
      {
        MulCoef(a, q, j);
      }
      LeftLinear(Mul(a, q), [], [], b, k);
    } else {
      var m := |a| - 1;
      var a', u := a[..m], a[m];
      Associative(a', q, b, k);
      ConvAtSnoc(a, Mul(q, b), k);
      MulCoef(q, b, k - m);
      var w := seq(m + |q|, j => Times(u, Coef(q, j - m)));
      forall j
        ensures Coef(Mul(a, q), j) == Coef(Mul(a', q), j) + Coef(w, j)
      {
        MulCoef(a, q, j);
        MulCoef(a', q, j);
        ConvAtSnoc(a, q, j);
      }
      LeftLinear(Mul(a, q), Mul(a', q), w, b, k);
      Shifted(w, u, q, m, b, k);
    }
  }

  /** `d` divides `p`: p = x·d for the cofactor x, coefficient by coefficient. */
  ghost predicate DividesBy(p: seq<real>, d: seq<real>, x: seq<real>)
  {
    forall k :: Coef(p, k) == ConvAt(x, d, k)
  }

  /** A divisor of a and of b divides s·a + t·b, with cofactor s·x + t·y. */
  lemma DividesCombination(a: seq<real>, b: seq<real>, d: seq<real>, x: seq<real>, y: seq<real>,
                           g: seq<real>, s: seq<real>, t: seq<real>)
    requires DividesBy(a, d, x) && DividesBy(b, d, y)
    requires forall k :: Coef(g, k) == ConvAt(s, a, k) + ConvAt(t, b, k)
    ensures DividesBy(g, d, Sum(Mul(s, x), Mul(t, y)))
  {
    forall k
      ensures Coef(g, k) == ConvAt(Sum(Mul(s, x), Mul(t, y)), d, k)
    {
      forall j
        ensures Coef(a, j) == Coef(Mul(x, d), j) + Coef([], j)
      {
        assert Coef(a, j) == ConvAt(x, d, j);
        MulCoef(x, d, j);
      }
      forall j
        ensures Coef(b, j) == Coef(Mul(y, d), j) + Coef([], j)
      {
        assert Coef(b, j) == ConvAt(y, d, j);
        MulCoef(y, d, j);
      }
      RightLinear(s, a, Mul(x, d), [], k);
      RightLinear(t, b, Mul(y, d), [], k);
      RightZero(s, [], k);
      RightZero(t, [], k);
      Associative(s, x, d, k);
      Associative(t, y, d, k);
      LeftLinear(Sum(Mul(s, x), Mul(t, y)), Mul(s, x), Mul(t, y), d, k);
    }
  }

  // ---------------------------------------------------------------- Euclid's algorithm

  /** x = s·a + t·b, coefficient by coefficient. */
  ghost predicate Combination(x: seq<real>, a: seq<real>, b: seq<real>, s: seq<real>, t: seq<real>)
  {
    forall k :: Coef(x, k) == ConvAt(s, a, k) + ConvAt(t, b, k)
  }

  /** p = q·b + r: one division with remainder. */
  ghost predicate DivisionIdentity(p: seq<real>, q: seq<real>, b: seq<real>, r: seq<real>)
  {
    forall k :: Coef(p, k) == ConvAt(q, b, k) + Coef(r, k)
  }

  /** The first division a = q·b + r writes a and b over (b, r), and b and
      r over (a, b). */
  lemma EuclidStart(a: seq<real>, b: seq<real>, q: seq<real>, r: seq<real>)
    requires DivisionIdentity(a, q, b, r)
    ensures Combination(a, b, r, q, [1.0]) && Combination(b, b, r, [1.0], [])
    ensures Combination(b, a, b, [], [1.0]) && Combination(r, a, b, [1.0], Neg(q))
  {
    forall k
      ensures Coef(a, k) == ConvAt(q, b, k) + ConvAt([1.0], r, k)
      ensures Coef(b, k) == ConvAt([1.0], b, k) + ConvAt([], r, k)
      ensures Coef(b, k) == ConvAt([], a, k) + ConvAt([1.0], b, k)
      ensures Coef(r, k) == ConvAt([1.0], a, k) + ConvAt(Neg(q), b, k)
    {
      OneLeft(r, k);
      OneLeft(b, k);
      OneLeft(a, k);
      NegLeft(q, b, k);
    }
  }

  /** Once p = q·r + r', what was written over (p, r) is written over (r, r'). */
  lemma DivisorStep(x: seq<real>, p: seq<real>, r: seq<real>, r': seq<real>, q: seq<real>, u: seq<real>, v: seq<real>)
    requires Combination(x, p, r, u, v) && DivisionIdentity(p, q, r, r')
    ensures Combination(x, r, r', Sum(Mul(u, q), v), u)
  {
    forall j
      ensures Coef(p, j) == Coef(Mul(q, r), j) + Coef(r', j)
    {
      MulCoef(q, r, j);
    }
    forall k
      ensures Coef(x, k) == ConvAt(Sum(Mul(u, q), v), r, k) + ConvAt(u, r', k)
    {
      RightLinear(u, p, Mul(q, r), r', k);
      Associative(u, q, r, k);
      LeftLinear(Sum(Mul(u, q), v), Mul(u, q), v, r, k);
    }
  }

  /** Once p = q·r + r', r' = p − q·r is written over (a, b) as well. */
  lemma CombinationStep(a: seq<real>, b: seq<real>, p: seq<real>, r: seq<real>, r': seq<real>, q: seq<real>,
                        s: seq<real>, t: seq<real>, s': seq<real>, t': seq<real>)
    requires Combination(p, a, b, s, t) && Combination(r, a, b, s', t') && DivisionIdentity(p, q, r, r')
    ensures Combination(r', a, b, Sum(s, Neg(Mul(q, s'))), Sum(t, Neg(Mul(q, t'))))
  {
    forall j
      ensures Coef(r, j) == Coef(Mul(s', a), j) + Coef(Mul(t', b), j)
    {
      MulCoef(s', a, j);
      MulCoef(t', b, j);
    }
    forall k
      ensures Coef(r', k) == ConvAt(Sum(s, Neg(Mul(q, s'))), a, k) + ConvAt(Sum(t, Neg(Mul(q, t'))), b, k)
    {
      RightLinear(q, r, Mul(s', a), Mul(t', b), k);
      Associative(q, s', a, k);
      Associative(q, t', b, k);
      LeftLinear(Sum(s, Neg(Mul(q, s'))), s, Neg(Mul(q, s')), a, k);
      LeftLinear(Sum(t, Neg(Mul(q, t'))), t, Neg(Mul(q, t')), b, k);
      NegLeft(Mul(q, s'), a, k);
      NegLeft(Mul(q, t'), b, k);
    }
  }

  /** With a zero last remainder, x = u·p + v·0 is a multiple of p. */
  lemma EuclidEnd(x: seq<real>, p: seq<real>, r: seq<real>, u: seq<real>, v: seq<real>)
    requires Combination(x, p, r, u, v) && forall j :: Coef(r, j) == 0.0
    ensures DividesBy(x, p, u)
  {
    forall k
      ensures Coef(x, k) == ConvAt(u, p, k)
    {
      RightZero(v, r, k);
    }
  }

  /** A multiple x = u·p of p = g·c is the multiple (u·c)·g of g. */
  lemma DividesScaled(x: seq<real>, p: seq<real>, u: seq<real>, g: seq<real>, c: real)
    requires DividesBy(x, p, u)
    requires forall j :: Coef(p, j) == Times(Coef(g, j), c)
    ensures DividesBy(x, g, Scale(u, c))
  {
    forall k
      ensures Coef(x, k) == ConvAt(Scale(u, c), g, k)
    {
      MoveScale(u, p, g, c, k);
    }
  }

  /** Scaling a combination scales its multipliers. */
  lemma CombinationScaled(g: seq<real>, p: seq<real>, a: seq<real>, b: seq<real>, s: seq<real>, t: seq<real>, c: real)
    requires Combination(p, a, b, s, t)
    requires forall j :: Coef(g, j) == Times(Coef(p, j), c)
    ensures Combination(g, a, b, Scale(s, c), Scale(t, c))
  {
    forall k
      ensures Coef(g, k) == ConvAt(Scale(s, c), a, k) + ConvAt(Scale(t, c), b, k)
    {
      ScaleLeft(s, c, a, k);
      ScaleLeft(t, c, b, k);
      assert Times(ConvAt(s, a, k) + ConvAt(t, b, k), c) == Times(ConvAt(s, a, k), c) + Times(ConvAt(t, b, k), c);
    }
  }

  /** p·(1/c) scaled back by c is p, and its top coefficient is 1 when c is p's. */
  lemma Normalised(p: seq<real>, c: real, inverse: real)
    requires |p| > 0 && c != 0.0 && inverse == Over(1.0, c)
    ensures forall j :: Coef(Scale(p, inverse), j) == Times(Coef(p, j), inverse)
    ensures forall j :: Coef(p, j) == Times(Coef(Scale(p, inverse), j), c)
    ensures p[|p| - 1] == c ==> Scale(p, inverse)[|p| - 1] == 1.0
  {
    forall j
      ensures Coef(p, j) == Times(Coef(Scale(p, inverse), j), c)
    {
      assert Times(Times(Coef(p, j), inverse), c) == Coef(p, j) * (c / c);
    }
  }

  /** The invariant of Euclid's loop on (p, r): a and b are combinations of
      p and r, and p and r are combinations of a and b. */
  ghost predicate EuclidState(a: seq<real>, b: seq<real>, p: seq<real>, r: seq<real>,
                              u: seq<real>, v: seq<real>, u': seq<real>, v': seq<real>,
                              s: seq<real>, t: seq<real>, s': seq<real>, t': seq<real>)
  {
    Combination(a, p, r, u, v) && Combination(b, p, r, u', v')
    && Combination(p, a, b, s, t) && Combination(r, a, b, s', t')
  }

  /** One turn of Euclid's loop keeps its invariant. */
  lemma EuclidStep(a: seq<real>, b: seq<real>, p: seq<real>, r: seq<real>, r': seq<real>, q: seq<real>,
                   u: seq<real>, v: seq<real>, u': seq<real>, v': seq<real>,
                   s: seq<real>, t: seq<real>, s': seq<real>, t': seq<real>)
    requires EuclidState(a, b, p, r, u, v, u', v', s, t, s', t') && DivisionIdentity(p, q, r, r')
    ensures EuclidState(a, b, r, r', Sum(Mul(u, q), v), u, Sum(Mul(u', q), v'), u',
                        s', t', Sum(s, Neg(Mul(q, s'))), Sum(t, Neg(Mul(q, t'))))
  {
    DivisorStep(a, p, r, r', q, u, v);
    DivisorStep(b, p, r, r', q, u', v');
    CombinationStep(a, b, p, r, r', q, s, t, s', t');
  }

  // ---------------------------------------------------------------- exact division

  lemma {:induction false} ConvSumSingle(d: seq<real>, g: seq<real>, k: int, m: nat, n: nat)
    requires forall i :: 0 <= i < n && i != m ==> ConvTerm(d, g, k, i) == 0.0
    ensures ConvSum(d, g, k, n) == if m < n then ConvTerm(d, g, k, m) else 0.0
  {
    if n > 0 {
      ConvSumSingle(d, g, k, m, n - 1);
    }
  }

  /** The top coefficient of d·g is the product of the top coefficients. */
  lemma TopOfProduct(d: seq<real>, g: seq<real>)
    requires |d| > 0 && |g| > 0
    ensures ConvAt(d, g, |d| + |g| - 2) == Times(d[|d| - 1], g[|g| - 1])
  {
    var m, k := |d| - 1, |d| + |g| - 2;
    forall i | 0 <= i < |d| && i != m
      ensures ConvTerm(d, g, k, i) == 0.0
    {
      assert Coef(g, k - i) == 0.0;
    }
    ConvSumSingle(d, g, k, m, |d|);
  }

  /** A nonzero multiple of g reaches g's degree: if d·g vanishes from g's
      degree up, where g's top coefficient is nonzero, then d·g is zero. */
  lemma ProductVanishes(d: seq<real>, g: seq<real>)
    requires |d| > 0 && |g| > 0 && g[|g| - 1] != 0.0
    requires forall k :: k >= |g| - 1 ==> ConvAt(d, g, k) == 0.0
    ensures forall k :: ConvAt(d, g, k) == 0.0
  {
    var t := Trim(d);
    forall k
      ensures ConvAt(d, g, k) == 0.0
    {
      TrimConv(d, g, k);
      if IsZero(t) {
        ConvOfZero(t, g, k);
      } else {
        TrimConv(d, g, |t| + |g| - 2);
        TopOfProduct(t, g);
        assert false;
      }
    }
  }

  /** If g divides p and q·g agrees with p from g's degree up, then q is the
      exact quotient: p = q·g everywhere. */
  lemma ExactQuotient(p: seq<real>, g: seq<real>, x: seq<real>, q: seq<real>)
    requires |g| > 0 && g[|g| - 1] != 0.0 && DividesBy(p, g, x)
    requires forall k :: k >= |g| - 1 ==> Coef(p, k) == ConvAt(q, g, k)
    ensures DividesBy(p, g, q)
  {
    var d := Sum(x, Neg(q));
    forall k
      ensures ConvAt(d, g, k) == ConvAt(x, g, k) - ConvAt(q, g, k)
    {
      LeftLinear(d, x, Neg(q), g, k);
      NegLeft(q, g, k);
    }
    if |d| > 0 {
      ProductVanishes(d, g);
    }
  }
}
