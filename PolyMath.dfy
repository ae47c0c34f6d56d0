/** Coefficient sequences over the rationals (as `real`), index i holding
    the coefficient of x^i: the values Polynomial operations are specified
    against. Positions past the end of a sequence count as zero. */
module PolyMath {
  import opened Arith

  /** The coefficient of x^k; zero outside the sequence. */
  function Coef(s: seq<real>, k: int): real
  {
    if 0 <= k < |s| then s[k] else 0.0
  }

  /** No zero coefficient at the top, except for a lone constant. */
  predicate Trimmed(s: seq<real>)
  {
    |s| > 0 && (|s| == 1 || s[|s| - 1] != 0.0)
  }

  /** The zero polynomial's only trimmed form is [0]. */
  predicate IsZero(s: seq<real>)
  {
    |s| == 1 && s[0] == 0.0
  }

  /** Drop zero coefficients from the top, keeping at least one. */
  function Trim(s: seq<real>): (t: seq<real>)
    requires |s| > 0
    ensures Trimmed(t) && 0 < |t| <= |s| && t == s[..|t|]
    ensures forall k :: |t| <= k < |s| ==> s[k] == 0.0
  {
    if |s| == 1 || s[|s| - 1] != 0.0 then s else Trim(s[..|s| - 1])
  }

  /** Trimming changes no coefficient. */
  lemma TrimCoef(s: seq<real>, k: int)
    requires |s| > 0
    ensures Coef(Trim(s), k) == Coef(s, k)
  {
  }

  /** A trimmed prefix with only zeros above it is the trimmed form. */
  lemma {:induction false} TrimUnique(s: seq<real>, n: nat)
    requires 0 < n <= |s| && Trimmed(s[..n])
    requires forall k :: n <= k < |s| ==> s[k] == 0.0
    ensures Trim(s) == s[..n]
  {
    if |s| > n {
      assert s[..|s| - 1][..n] == s[..n];
      TrimUnique(s[..|s| - 1], n);
    } else {
      assert s[..n] == s;
    }
  }

  /** Coefficient-wise sum over the longer length. */
  function Sum(a: seq<real>, b: seq<real>): (s: seq<real>)
    ensures |s| == if |a| >= |b| then |a| else |b|
    ensures forall k :: 0 <= k < |s| ==> s[k] == Coef(a, k) + Coef(b, k)
  {
    seq(if |a| >= |b| then |a| else |b|, k => Coef(a, k) + Coef(b, k))
  }

  lemma SumSymmetric(a: seq<real>, b: seq<real>)
    ensures Sum(a, b) == Sum(b, a)
  {
  }

  /** Every coefficient negated. */
  function Neg(a: seq<real>): (s: seq<real>)
    ensures |s| == |a| && forall k :: 0 <= k < |s| ==> s[k] == -a[k]
  {
    seq(|a|, k requires 0 <= k < |a| => -a[k])
  }

  /** Every coefficient times `c`. */
  function Scale(a: seq<real>, c: real): (s: seq<real>)
    ensures |s| == |a| && forall k :: 0 <= k < |s| ==> s[k] == Times(a[k], c)
  {
    seq(|a|, k requires 0 <= k < |a| => Times(a[k], c))
  }

  lemma ScaleAt(a: seq<real>, c: real, i: nat)
    requires i < |a|
    ensures Scale(a, c)[i] == Times(a[i], c)
  {
  }

  /** `k` zero coefficients below `a`: multiplication by x^k. */
  function Shift(a: seq<real>, k: nat): (s: seq<real>)
    ensures |s| == |a| + k && forall i :: 0 <= i < |s| ==> s[i] == Coef(a, i - k)
  {
    seq(|a| + k, i => Coef(a, i - k))
  }

  // ---------------------------------------------------------------- products

  /** The term a_i·b_(k−i) of the coefficient of x^k in a·b. */
  function ConvTerm(a: seq<real>, b: seq<real>, k: int, i: int): real
  {
    Times(Coef(a, i), Coef(b, k - i))
  }

  /** The first `n` terms of the coefficient of x^k in a·b. */
  function ConvSum(a: seq<real>, b: seq<real>, k: int, n: nat): real
  {
    if n == 0 then 0.0 else ConvSum(a, b, k, n - 1) + ConvTerm(a, b, k, n - 1)
  }

  /** The coefficient of x^k in a·b: the sum of a_i·b_j over i + j = k. */
  function ConvAt(a: seq<real>, b: seq<real>, k: int): real
  {
    ConvSum(a, b, k, |a|)
  }

  /** The product a·b, of length |a| + |b| − 1. */
  function Conv(a: seq<real>, b: seq<real>): (s: seq<real>)
    requires |a| > 0 && |b| > 0
    ensures |s| == |a| + |b| - 1 && forall k :: 0 <= k < |s| ==> s[k] == ConvAt(a, b, k)
  {
    seq(|a| + |b| - 1, k => ConvAt(a, b, k))
  }

  /** Replacing a_t by c changes every coefficient of a·b by (c − a_t)·b_(k−t). */
  lemma {:induction false} ConvSumUpdate(a: seq<real>, b: seq<real>, k: int, n: nat, t: nat, c: real)
    requires t < |a|
    ensures ConvSum(a[t := c], b, k, n) == ConvSum(a, b, k, n) + (if t < n then (c - a[t]) * Coef(b, k - t) else 0.0)
  {
    if n > 0 {
      ConvSumUpdate(a, b, k, n - 1, t, c);
      if n - 1 == t {
        assert ConvTerm(a[t := c], b, k, t) - ConvTerm(a, b, k, t) == (c - a[t]) * Coef(b, k - t);
      } else {
        assert ConvTerm(a[t := c], b, k, n - 1) == ConvTerm(a, b, k, n - 1);
      }
    }
  }

  lemma ConvAtUpdate(a: seq<real>, b: seq<real>, k: int, t: nat, c: real)
    requires t < |a|
    ensures ConvAt(a[t := c], b, k) == ConvAt(a, b, k) + (c - a[t]) * Coef(b, k - t)
  {
    ConvSumUpdate(a, b, k, |a|, t, c);
  }

  /** Sums over the first n terms see only the first n coefficients of `a`. */
  lemma {:induction false} ConvSumPrefix(a: seq<real>, b: seq<real>, k: int, n: nat, m: nat)
    requires n <= m <= |a|
    ensures ConvSum(a[..m], b, k, n) == ConvSum(a, b, k, n)
  {
    if n > 0 {
      ConvSumPrefix(a, b, k, n - 1, m);
      assert Coef(a[..m], n - 1) == Coef(a, n - 1);
    }
  }

  /** A zero top coefficient of `a` contributes nothing to a·b. */
  lemma DropZeroTop(a: seq<real>, b: seq<real>, k: int)
    requires |a| > 0 && a[|a| - 1] == 0.0
    ensures ConvAt(a[..|a| - 1], b, k) == ConvAt(a, b, k)
  {
    ConvSumPrefix(a, b, k, |a| - 1, |a| - 1);
  }

  /** The coefficients of a·b above the top degree vanish. */
  lemma {:induction false} ConvSumBeyond(a: seq<real>, b: seq<real>, k: int, n: nat)
    requires n <= |a| && k >= |a| + |b| - 1
    ensures ConvSum(a, b, k, n) == 0.0
  {
    if n > 0 {
      ConvSumBeyond(a, b, k, n - 1);
    }
  }

  /** The schoolbook product part-way: rows 0 .. i−1 of a·b added in full,
      and the first `j` terms a_i·b_0 .. a_i·b_(j−1) of row i. */
  function ConvRows(a: seq<real>, b: seq<real>, i: nat, j: nat): (s: seq<real>)
    requires |a| > 0 && |b| > 0
    ensures |s| == |a| + |b| - 1
  {
    seq(|a| + |b| - 1, k => ConvSum(a, b, k, i) + (if i <= k < i + j then ConvTerm(a, b, k, i) else 0.0))
  }

  /** Nothing added yet: all zeros. */
  lemma ConvRowsStart(a: seq<real>, b: seq<real>)
    requires |a| > 0 && |b| > 0
    ensures ConvRows(a, b, 0, 0) == seq(|a| + |b| - 1, _ => 0.0)
  {
  }

  /** Adding a_i·b_j to entry i + j advances row i by one column. */
  lemma ConvRowsColumn(a: seq<real>, b: seq<real>, i: nat, j: nat)
    requires |b| > 0 && i < |a| && j < |b|
    ensures var s := ConvRows(a, b, i, j);
      ConvRows(a, b, i, j + 1) == s[i + j := s[i + j] + Times(a[i], b[j])]
  {
    var s, t := ConvRows(a, b, i, j), ConvRows(a, b, i, j + 1);
    assert ConvTerm(a, b, i + j, i) == Times(a[i], b[j]);
    assert forall k :: 0 <= k < |t| ==> t[k] == s[i + j := s[i + j] + Times(a[i], b[j])][k];
  }

  /** The same step with the product and the new entry given by name. */
  lemma ConvRowsAccumulate(a: seq<real>, b: seq<real>, i: nat, j: nat, p: real, v: real)
    requires |b| > 0 && i < |a| && j < |b| && p == Times(a[i], b[j])
    requires v == ConvRows(a, b, i, j)[i + j] + p
    ensures ConvRows(a, b, i, j)[i + j := v] == ConvRows(a, b, i, j + 1)
  {
    ConvRowsColumn(a, b, i, j);
  }

  /** A zero b_j leaves row i as it is. */
  lemma ConvRowsZeroColumn(a: seq<real>, b: seq<real>, i: nat, j: nat)
    requires |b| > 0 && i < |a| && j < |b| && b[j] == 0.0
    ensures ConvRows(a, b, i, j + 1) == ConvRows(a, b, i, j)
  {
    var s := ConvRows(a, b, i, j);
    ConvRowsColumn(a, b, i, j);
    assert s[i + j := s[i + j] + Times(a[i], 0.0)] == s;
  }

  /** A finished row is the next row's start. */
  lemma ConvRowsRow(a: seq<real>, b: seq<real>, i: nat)
    requires |b| > 0 && i < |a|
    ensures ConvRows(a, b, i, |b|) == ConvRows(a, b, i + 1, 0)
  {
    var s, t := ConvRows(a, b, i, |b|), ConvRows(a, b, i + 1, 0);
    forall k | 0 <= k < |s|
      ensures s[k] == t[k]
    {
      if !(i <= k < i + |b|) {
        assert Coef(b, k - i) == 0.0;
      }
    }
  }

  /** A zero a_i leaves the row sum unchanged. */
  lemma ConvRowsZeroRow(a: seq<real>, b: seq<real>, i: nat)
    requires |b| > 0 && i < |a| && a[i] == 0.0
    ensures ConvRows(a, b, i, 0) == ConvRows(a, b, i + 1, 0)
  {
    var s, t := ConvRows(a, b, i, 0), ConvRows(a, b, i + 1, 0);
    forall k | 0 <= k < |s|
      ensures s[k] == t[k]
    {
      assert ConvTerm(a, b, k, i) == Times(0.0, Coef(b, k - i));
    }
  }

  /** All rows done: the product. */
  lemma ConvRowsEnd(a: seq<real>, b: seq<real>)
    requires |a| > 0 && |b| > 0
    ensures ConvRows(a, b, |a|, 0) == Conv(a, b)
  {
  }

  /** A sum of zero terms is zero. */
  lemma {:induction false} ConvSumZero(a: seq<real>, b: seq<real>, k: int, n: nat)
    requires forall i :: 0 <= i < n ==> ConvTerm(a, b, k, i) == 0.0
    ensures ConvSum(a, b, k, n) == 0.0
  {
    if n > 0 {
      ConvSumZero(a, b, k, n - 1);
    }
  }

  /** The coefficients of a·b outside 0 .. |a|+|b|−2 vanish. */
  lemma ConvAtOutside(a: seq<real>, b: seq<real>, k: int)
    requires |a| > 0 && |b| > 0 && (k < 0 || k >= |a| + |b| - 1)
    ensures ConvAt(a, b, k) == 0.0
  {
    if k < 0 {
      forall i | 0 <= i < |a|
        ensures ConvTerm(a, b, k, i) == 0.0
      {
        assert Coef(b, k - i) == 0.0;
      }
      ConvSumZero(a, b, k, |a|);
    } else {
      ConvSumBeyond(a, b, k, |a|);
    }
  }

  /** Every coefficient of a·b is 0 when a or b is the zero polynomial [0]. */
  lemma ConvOfZero(a: seq<real>, b: seq<real>, k: int)
    requires |a| > 0 && |b| > 0 && (IsZero(a) || IsZero(b))
    ensures ConvAt(a, b, k) == 0.0
  {
    forall i | 0 <= i < |a|
      ensures ConvTerm(a, b, k, i) == 0.0
    {
      if IsZero(a) {
        assert Coef(a, i) == 0.0;
      } else {
        assert Coef(b, k - i) == 0.0;
      }
    }
    ConvSumZero(a, b, k, |a|);
  }

  /** Dropping zero coefficients from the top of `q` leaves q·b as it is. */
  lemma {:induction false} TrimConv(q: seq<real>, b: seq<real>, k: int)
    requires |q| > 0
    ensures ConvAt(Trim(q), b, k) == ConvAt(q, b, k)
    decreases |q|
  {
    if !(|q| == 1 || q[|q| - 1] != 0.0) {
      DropZeroTop(q, b, k);
      TrimConv(q[..|q| - 1], b, k);
    }
  }

  // ---------------------------------------------------------------- long division

  /** a − q·b over the indices of `a`. */
  function Residual(a: seq<real>, q: seq<real>, b: seq<real>): (s: seq<real>)
    ensures |s| == |a|
  {
    seq(|a|, k requires 0 <= k < |a| => a[k] - ConvAt(q, b, k))
  }

  /** `r` with b_(k−t)·c taken from its entries k = t .. t+j−1: one
      partial pass of the subtracting loop of long division. */
  function Subtracted(r: seq<real>, b: seq<real>, t: nat, c: real, j: nat): (s: seq<real>)
    requires t + j <= |r| && j <= |b|
    ensures |s| == |r|
  {
    seq(|r|, k requires 0 <= k < |r| => if t <= k < t + j then r[k] - Times(b[k - t], c) else r[k])
  }

  lemma SubtractedStart(r: seq<real>, b: seq<real>, t: nat, c: real)
    requires t <= |r|
    ensures Subtracted(r, b, t, c, 0) == r
  {
  }

  /** Entry t + j less b_j·c advances the pass by one. */
  lemma SubtractedStep(r: seq<real>, b: seq<real>, t: nat, c: real, j: nat, p: real, v: real)
    requires t + j < |r| && j < |b| && p == Times(b[j], c)
    requires v == Subtracted(r, b, t, c, j)[t + j] - p
    ensures Subtracted(r, b, t, c, j)[t + j := v] == Subtracted(r, b, t, c, j + 1)
  {
    var s, u := Subtracted(r, b, t, c, j), Subtracted(r, b, t, c, j + 1);
    assert forall k :: 0 <= k < |u| ==> u[k] == s[t + j := v][k];
  }

  /** A full pass with quotient entry t set from 0 to c: the residual of the
      new quotient. */
  lemma ResidualUpdate(a: seq<real>, q: seq<real>, b: seq<real>, t: nat, c: real)
    requires t < |q| && q[t] == 0.0 && t + |b| <= |a|
    ensures Subtracted(Residual(a, q, b), b, t, c, |b|) == Residual(a, q[t := c], b)
  {
    var s, u := Subtracted(Residual(a, q, b), b, t, c, |b|), Residual(a, q[t := c], b);
    forall k | 0 <= k < |a|
      ensures s[k] == u[k]
    {
      ConvAtUpdate(q, b, k, t, c);
      if t <= k < t + |b| {
        assert Times(b[k - t], c) == (c - q[t]) * Coef(b, k - t);
      } else {
        assert Coef(b, k - t) == 0.0;
      }
    }
  }

  /** x less lead·(x / lead) is zero: the top entry a pass eliminates. */
  lemma Eliminated(x: real, lead: real, c: real)
    requires lead != 0.0 && c == Over(x, lead)
    ensures x - Times(lead, c) == 0.0
  {
  }

  /** Nothing taken away yet: with a zero quotient the residual is `a`. */
  lemma ResidualOfZero(a: seq<real>, q: seq<real>, b: seq<real>)
    requires forall t :: 0 <= t < |q| ==> q[t] == 0.0
    ensures Residual(a, q, b) == a
  {
    forall k | 0 <= k < |a|
      ensures ConvAt(q, b, k) == 0.0
    {
      forall i | 0 <= i < |q|
        ensures ConvTerm(q, b, k, i) == 0.0
      {
        assert Coef(q, i) == 0.0;
      }
      ConvSumZero(q, b, k, |q|);
    }
  }

  /** When the residual vanishes from index |b| − 1 up, a − q·b has degree
      below b's, at every index. */
  lemma ResidualVanishes(a: seq<real>, q: seq<real>, b: seq<real>)
    requires |b| > 0 && |q| > 0 && |q| + |b| - 1 == |a|
    requires forall k :: |b| - 1 <= k < |a| ==> Residual(a, q, b)[k] == 0.0
    ensures forall k :: k >= |b| - 1 ==> Coef(a, k) == ConvAt(q, b, k)
  {
    forall k | k >= |b| - 1
      ensures Coef(a, k) == ConvAt(q, b, k)
    {
      if k >= |a| {
        ConvAtOutside(q, b, k);
      } else {
        assert Residual(a, q, b)[k] == 0.0;
      }
    }
  }

  // ---------------------------------------------------------------- derivative

  /** The formal derivative: coefficient i is a_(i+1)·(i + 1); [0] for a constant. */
  function Deriv(a: seq<real>): (s: seq<real>)
    requires |a| > 0
    ensures |s| == if |a| == 1 then 1 else |a| - 1
  {
    if |a| == 1 then [0.0] else seq(|a| - 1, i requires 0 <= i < |a| - 1 => Times(a[i + 1], (i + 1) as real))
  }

  /** The derivative loop part-way: entries below i − 1 replaced by
      a_(k+1)·(k + 1), the rest still the copied coefficients. */
  function DerivPartial(a: seq<real>, i: nat): (s: seq<real>)
    requires 0 < i <= |a|
    ensures |s| == |a|
  {
    seq(|a|, k requires 0 <= k < |a| => if k < i - 1 then Times(a[k + 1], (k + 1) as real) else a[k])
  }

  lemma DerivPartialStart(a: seq<real>)
    requires |a| > 0
    ensures DerivPartial(a, 1) == a
  {
  }

  lemma DerivPartialStep(a: seq<real>, i: nat, v: real)
    requires 0 < i < |a| && v == Times(a[i], i as real)
    ensures DerivPartial(a, i)[i - 1 := v] == DerivPartial(a, i + 1)
  {
    var s, t := DerivPartial(a, i)[i - 1 := v], DerivPartial(a, i + 1);
    assert forall k :: 0 <= k < |a| ==> s[k] == t[k];
  }

  /** The finished loop with its top entry dropped is the derivative. */
  lemma DerivPartialEnd(a: seq<real>)
    requires |a| > 1
    ensures DerivPartial(a, |a|)[..|a| - 1] == Deriv(a)
  {
  }

  /** The top coefficient of the derivative vanishes with the polynomial's. */
  lemma DerivTop(a: seq<real>)
    requires |a| > 1
    ensures Deriv(a)[|a| - 2] == 0.0 <==> a[|a| - 1] == 0.0
  {
    TimesZero(a[|a| - 1], (|a| - 1) as real);
  }

  /** Coefficients of a − p: a_k − p_k at every index. */
  lemma DifferenceCoef(a: seq<real>, p: seq<real>, k: int)
    requires |a| > 0 || |p| > 0
    ensures Coef(Trim(Sum(a, Neg(p))), k) == Coef(a, k) - Coef(p, k)
  {
    TrimCoef(Sum(a, Neg(p)), k);
  }
}
