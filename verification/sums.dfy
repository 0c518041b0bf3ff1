/**
  Finite sums of real numbers over finite sets.

  A Python dictionary of probabilities is summed by iterating its keys in some
  order; over exact reals the order does not matter, so `Sum` picks an
  arbitrary element and `SumRemove` shows that every choice gives the same
  total. Functions are always passed through named constructors (`Values`,
  `Row`, `Col`, ...) so that two mentions of the same summand are the same
  value to the verifier.
*/
module Sums {

  /** The sum of `f(x)` over every `x` in `s`. */
  ghost function Sum<K>(s: set<K>, f: K -> real): real
  {
    if s == {} then 0.0 else var x :| x in s; f(x) + Sum(s - {x}, f)
  }

  /** The value a map holds at a key, and 0 outside its domain. */
  ghost function Values<K>(m: map<K, real>): K -> real
  {
    k => if k in m then m[k] else 0.0
  }

  /** The sum of all values of a map. */
  ghost function Total<K>(m: map<K, real>): real
  {
    Sum(m.Keys, Values(m))
  }

  /** Any element may be split off first: the sum does not depend on the order. */
  lemma {:induction false} SumRemove<K>(s: set<K>, f: K -> real, x: K)
    requires x in s
    ensures Sum(s, f) == f(x) + Sum(s - {x}, f)
    decreases |s|
  {
    var y :| y in s && Sum(s, f) == f(y) + Sum(s - {y}, f);
    if y != x {
      SumRemove(s - {y}, f, x);
      SumRemove(s - {x}, f, y);
      assert s - {y} - {x} == s - {x} - {y};
    }
  }

  /** Sums of functions that agree on `s` are equal. */
  lemma {:induction false} SumExt<K>(s: set<K>, f: K -> real, g: K -> real)
    requires forall x | x in s :: f(x) == g(x)
    ensures Sum(s, f) == Sum(s, g)
    decreases |s|
  {
    if s != {} {
      var x :| x in s;
      SumRemove(s, f, x);
      SumRemove(s, g, x);
      SumExt(s - {x}, f, g);
    }
  }

  /** Sums are additive: the sum of `f + g` is the sum of `f` plus the sum of `g`. */
  lemma {:induction false} SumAdd<K>(s: set<K>, f: K -> real, g: K -> real, h: K -> real)
    requires forall x | x in s :: h(x) == f(x) + g(x)
    ensures Sum(s, h) == Sum(s, f) + Sum(s, g)
    decreases |s|
  {
    if s != {} {
      var x :| x in s;
      SumRemove(s, f, x);
      SumRemove(s, g, x);
      SumRemove(s, h, x);
      SumAdd(s - {x}, f, g, h);
    }
  }

  /** Sums are homogeneous: the sum of `c * f` is `c` times the sum of `f`. */
  lemma {:induction false} SumScale<K>(s: set<K>, f: K -> real, g: K -> real, c: real)
    requires forall x | x in s :: g(x) == c * f(x)
    ensures Sum(s, g) == c * Sum(s, f)
    decreases |s|
  {
    if s != {} {
      var x :| x in s;
      SumScale(s - {x}, f, g, c);
      SumScaleStep(s, f, g, c, x);
    }
  }

  /** One induction step of `SumScale`, for the element `x` split off first. */
  lemma SumScaleStep<K>(s: set<K>, f: K -> real, g: K -> real, c: real, x: K)
    requires x in s
    requires g(x) == c * f(x)
    requires Sum(s - {x}, g) == c * Sum(s - {x}, f)
    ensures Sum(s, g) == c * Sum(s, f)
  {
    var rest := s - {x};
    SumRemove(s, f, x);
    SumRemove(s, g, x);
    Distribute(c, f(x), Sum(rest, f), Sum(s, f), g(x), Sum(rest, g), Sum(s, g));
  }

  /**
    The arithmetic of `SumScaleStep`, kept apart from the definition of `Sum`
    so that the solver does not mix unfoldings of `Sum` into products.
  */
  lemma Distribute(c: real, u: real, v: real, uv: real, cu: real, cv: real, cuv: real)
    requires cu == c * u
    requires cv == c * v
    requires uv == u + v
    requires cuv == cu + cv
    ensures cuv == c * uv
  {
  }

  /** The scaled function `c * f`. */
  ghost function Scaled<K>(c: real, f: K -> real): K -> real
  {
    x => c * f(x)
  }

  /** The linear combination `a * x + b * y`, as one term. */
  function Linear(a: real, x: real, b: real, y: real): real
  {
    a * x + b * y
  }

  /** On `s`, `h` is the linear combination `a * f + b * g`. */
  ghost predicate IsLinear<K>(s: set<K>, h: K -> real, a: real, f: K -> real, b: real, g: K -> real)
  {
    forall x | x in s :: h(x) == Linear(a, f(x), b, g(x))
  }

  /** Linearity: the sum of `a * f + b * g` is `a` times the sum of `f` plus `b` times the sum of `g`. */
  lemma SumCombine<K>(s: set<K>, f: K -> real, g: K -> real, h: K -> real, a: real, b: real)
    requires IsLinear(s, h, a, f, b, g)
    ensures Sum(s, h) == Linear(a, Sum(s, f), b, Sum(s, g))
  {
    SumScale(s, f, Scaled(a, f), a);
    SumScale(s, g, Scaled(b, g), b);
    SumAdd(s, Scaled(a, f), Scaled(b, g), h);
  }

  /**
    A constant `a` everywhere plus `b` on the subset `t`: the sum counts `a`
    once per element of `s` and `b` once per element of `t`. The sizes are
    passed as the reals `m` and `n`.
  */
  lemma {:induction false} SumIndicator<K>(s: set<K>, t: set<K>, f: K -> real, a: real, b: real, m: real, n: real)
    requires t <= s
    requires m == |s| as real
    requires n == |t| as real
    requires forall x | x in s :: f(x) == a + (if x in t then b else 0.0)
    ensures Sum(s, f) == m * a + n * b
    decreases |s|
  {
    if s != {} {
      var x :| x in s;
      var m0 := |s - {x}| as real;
      var n0 := |t - {x}| as real;
      SumIndicator(s - {x}, t - {x}, f, a, b, m0, n0);
      SumRemove(s, f, x);
      assert |s - {x}| == |s| - 1;
      if x in t {
        assert |t - {x}| == |t| - 1;
      } else {
        assert t - {x} == t;
      }
      CountStep(a, b, x in t, f(x), Sum(s - {x}, f), Sum(s, f), m0, m, n0, n);
    }
  }

  /** The arithmetic of one induction step of `SumIndicator`. */
  lemma CountStep(a: real, b: real, inT: bool, fx: real, rest: real, total: real,
                  m0: real, m: real, n0: real, n: real)
    requires fx == a + (if inT then b else 0.0)
    requires rest == m0 * a + n0 * b
    requires total == fx + rest
    requires m == m0 + 1.0
    requires n == n0 + (if inT then 1.0 else 0.0)
    ensures total == m * a + n * b
  {
  }

  /** The value `a` on the `n` elements of the subset `t`, and 0 elsewhere in `s`, adds up to `n * a`. */
  lemma SumConstant<K>(s: set<K>, t: set<K>, f: K -> real, a: real, n: real)
    requires t <= s
    requires n == |t| as real
    requires forall x | x in s :: f(x) == (if x in t then a else 0.0)
    ensures Sum(s, f) == n * a
  {
    SumIndicator(s, t, f, 0.0, a, |s| as real, n);
  }

  /** The constant function `a`. */
  ghost function Constant<K>(a: real): K -> real
  {
    x => a
  }

  /** The sum of `a + b * f` over a set of `m` elements is `m * a` plus `b` times the sum of `f`. */
  lemma SumAffine<K>(s: set<K>, f: K -> real, g: K -> real, a: real, b: real, m: real)
    requires m == |s| as real
    requires forall x | x in s :: g(x) == a + b * f(x)
    ensures Sum(s, g) == m * a + b * Sum(s, f)
  {
    SumIndicator(s, {}, Constant(a), a, 0.0, m, 0.0);
    SumScale(s, f, Scaled(b, f), b);
    SumAdd(s, Constant(a), Scaled(b, f), g);
  }

  /** A sum of zeros is zero. */
  lemma {:induction false} SumZero<K>(s: set<K>, f: K -> real)
    requires forall x | x in s :: f(x) == 0.0
    ensures Sum(s, f) == 0.0
    decreases |s|
  {
    if s != {} {
      var x :| x in s;
      SumRemove(s, f, x);
      SumZero(s - {x}, f);
    }
  }

  /** A sum of non-negative terms is non-negative. */
  lemma {:induction false} SumNonNegative<K>(s: set<K>, f: K -> real)
    requires forall x | x in s :: f(x) >= 0.0
    ensures Sum(s, f) >= 0.0
    decreases |s|
  {
    if s != {} {
      var x :| x in s;
      SumRemove(s, f, x);
      SumNonNegative(s - {x}, f);
    }
  }

  /** Changing one term by `delta` changes the sum by `delta`. */
  lemma SumPointUpdate<K>(s: set<K>, f: K -> real, g: K -> real, x: K, delta: real)
    requires x in s
    requires g(x) == f(x) + delta
    requires forall y | y in s && y != x :: g(y) == f(y)
    ensures Sum(s, g) == Sum(s, f) + delta
  {
    SumRemove(s, f, x);
    SumRemove(s, g, x);
    SumExt(s - {x}, f, g);
  }

  /** Row `p` of a two-argument function, as a function of the column. */
  ghost function Row<K>(f: (K, K) -> real, p: K): K -> real
  {
    q => f(p, q)
  }

  /** Column `q` of a two-argument function, as a function of the row. */
  ghost function Col<K>(f: (K, K) -> real, q: K): K -> real
  {
    p => f(p, q)
  }

  /** For each row `p`, the sum of that row over the columns in `cols`. */
  ghost function RowSums<K>(cols: set<K>, f: (K, K) -> real): K -> real
  {
    p => Sum(cols, Row(f, p))
  }

  /** For each column `q`, the sum of that column over the rows in `rows`. */
  ghost function ColSums<K>(rows: set<K>, f: (K, K) -> real): K -> real
  {
    q => Sum(rows, Col(f, q))
  }

  /** Splitting one row off a column sum. */
  lemma ColumnSplit<K>(rows: set<K>, f: (K, K) -> real, q: K, x: K)
    requires x in rows
    ensures ColSums(rows, f)(q) == Row(f, x)(q) + ColSums(rows - {x}, f)(q)
  {
    SumRemove(rows, Col(f, q), x);
  }

  /** A finite double sum may be taken in either order. */
  lemma {:induction false} SumSwap<K>(rows: set<K>, cols: set<K>, f: (K, K) -> real)
    ensures Sum(rows, RowSums(cols, f)) == Sum(cols, ColSums(rows, f))
    decreases |rows|
  {
    if rows == {} {
      SumZero(cols, ColSums(rows, f));
    } else {
      var x :| x in rows;
      SumSwap(rows - {x}, cols, f);
      SwapStep(rows, cols, f, x);
    }
  }

  /** One induction step of `SumSwap`, for the row `x` split off first. */
  lemma SwapStep<K>(rows: set<K>, cols: set<K>, f: (K, K) -> real, x: K)
    requires x in rows
    requires Sum(rows - {x}, RowSums(cols, f)) == Sum(cols, ColSums(rows - {x}, f))
    ensures Sum(rows, RowSums(cols, f)) == Sum(cols, ColSums(rows, f))
  {
    SumRemove(rows, RowSums(cols, f), x);
    forall q | q in cols
      ensures ColSums(rows, f)(q) == Row(f, x)(q) + ColSums(rows - {x}, f)(q)
    {
      ColumnSplit(rows, f, q, x);
    }
    SumAdd(cols, Row(f, x), ColSums(rows - {x}, f), ColSums(rows, f));
  }
}
