/** Sums over sequences, the way an iterator's `sum` adds them up. */
module RealSeq {
  import opened RealArith

  /** The sum of `f` over a sequence. */
  function SumOf<T>(s: seq<T>, f: T -> real): real {
    if |s| == 0 then 0.0 else SumOf(s[..|s| - 1], f) + f(s[|s| - 1])
  }

  lemma SumOfNone<T>(s: seq<T>, f: T -> real)
    requires |s| == 0
    ensures SumOf(s, f) == 0.0
  {
  }

  lemma SumOfPrefix<T>(s: seq<T>, k: nat, f: T -> real)
    requires k < |s|
    ensures SumOf(s[..k + 1], f) == SumOf(s[..k], f) + f(s[k])
  {
    assert s[..k + 1][..k] == s[..k];
  }

  function Identity(): real -> real {
    (x: real) => x
  }

  function SquareFrom(c: real): real -> real {
    (x: real) => (x - c) * (x - c)
  }

  function Constant<T>(c: real): T -> real {
    (x: T) => c
  }

  function Sum(s: seq<real>): real {
    SumOf(s, Identity())
  }

  /** The sum of the squared distances to `c`. */
  function SquaredDistance(s: seq<real>, c: real): real {
    SumOf(s, SquareFrom(c))
  }

  function Mean(s: seq<real>): real
    requires |s| > 0
  {
    Sum(s) / |s| as real
  }

  function Variance(s: seq<real>): real
    requires |s| > 0
  {
    SquaredDistance(s, Mean(s)) / |s| as real
  }

  /** `root` is what `f64::sqrt` returns for `v` in exact arithmetic. */
  ghost predicate IsRoot(root: real, v: real) {
    root >= 0.0 && root * root == v
  }

  lemma LinearStep(c1: real, c2: real, c3: real, c4: real,
                   s: real, s1: real, s2: real, s3: real, s4: real,
                   x: real, x1: real, x2: real, x3: real, x4: real)
    requires s == c1 * s1 + c2 * s2 + c3 * s3 + c4 * s4
    requires x == c1 * x1 + c2 * x2 + c3 * x3 + c4 * x4
    ensures s + x == c1 * (s1 + x1) + c2 * (s2 + x2) + c3 * (s3 + x3) + c4 * (s4 + x4)
  {
  }

  /** `f` is a linear combination of four functions. */
  ghost predicate Combines<T(!new)>(f: T -> real,
      c1: real, f1: T -> real, c2: real, f2: T -> real, c3: real, f3: T -> real, c4: real, f4: T -> real)
  {
    forall x :: f(x) == c1 * f1(x) + c2 * f2(x) + c3 * f3(x) + c4 * f4(x)
  }

  /** A sum of linear combinations is the linear combination of the sums. */
  lemma {:induction false} SumOfLinear<T(!new)>(s: seq<T>, f: T -> real,
      c1: real, f1: T -> real, c2: real, f2: T -> real, c3: real, f3: T -> real, c4: real, f4: T -> real)
    requires Combines(f, c1, f1, c2, f2, c3, f3, c4, f4)
    ensures SumOf(s, f) == c1 * SumOf(s, f1) + c2 * SumOf(s, f2) + c3 * SumOf(s, f3) + c4 * SumOf(s, f4)
  {
    if |s| == 0 {
    } else {
      var t, x := s[..|s| - 1], s[|s| - 1];
      SumOfLinear(t, f, c1, f1, c2, f2, c3, f3, c4, f4);
      LinearStep(c1, c2, c3, c4, SumOf(t, f), SumOf(t, f1), SumOf(t, f2), SumOf(t, f3), SumOf(t, f4),
                 f(x), f1(x), f2(x), f3(x), f4(x));
    }
  }

  lemma {:induction false} SumOfConstant<T>(s: seq<T>, c: real)
    ensures SumOf(s, Constant(c)) == |s| as real * c
  {
    if |s| == 0 {
    } else {
      SumOfConstant(s[..|s| - 1], c);
      assert |s| as real * c == |s[..|s| - 1]| as real * c + c;
    }
  }

  /** `f` is an affine combination of two functions. */
  ghost predicate Affine<T(!new)>(f: T -> real, c1: real, f1: T -> real, c2: real, f2: T -> real, c: real) {
    forall x :: f(x) == c1 * f1(x) + c2 * f2(x) + c
  }

  lemma SumOfAffine<T(!new)>(s: seq<T>, f: T -> real, c1: real, f1: T -> real, c2: real, f2: T -> real, c: real)
    requires Affine(f, c1, f1, c2, f2, c)
    ensures SumOf(s, f) == c1 * SumOf(s, f1) + c2 * SumOf(s, f2) + |s| as real * c
  {
    SumOfLinear(s, f, c1, f1, c2, f2, 1.0, Constant(c), 0.0, f1);
    SumOfConstant(s, c);
  }

  lemma {:induction false} SumOfMonotone<T>(s: seq<T>, f: T -> real, g: T -> real)
    requires forall i :: 0 <= i < |s| ==> f(s[i]) <= g(s[i])
    ensures SumOf(s, f) <= SumOf(s, g)
  {
    if |s| == 0 {
    } else {
      SumOfMonotone(s[..|s| - 1], f, g);
    }
  }

  lemma SumOfNonNegative<T>(s: seq<T>, f: T -> real)
    requires forall i :: 0 <= i < |s| ==> f(s[i]) >= 0.0
    ensures SumOf(s, f) >= 0.0
  {
    SumOfMonotone(s, Constant(0.0), f);
    SumOfConstant(s, 0.0);
  }

  lemma SumBounds(s: seq<real>, lo: real, hi: real)
    requires forall i :: 0 <= i < |s| ==> lo <= s[i] <= hi
    ensures |s| as real * lo <= Sum(s) <= |s| as real * hi
  {
    SumOfMonotone(s, Constant(lo), Identity());
    SumOfMonotone(s, Identity(), Constant(hi));
    SumOfConstant(s, lo);
    SumOfConstant(s, hi);
  }

  lemma SquaredDistanceNonNegative(s: seq<real>, c: real)
    ensures SquaredDistance(s, c) >= 0.0
  {
    forall i | 0 <= i < |s| ensures SquareFrom(c)(s[i]) >= 0.0 {
      assert (s[i] - c) * (s[i] - c) >= 0.0;
    }
    SumOfNonNegative(s, SquareFrom(c));
  }

  lemma SquareFromAffine(c: real)
    ensures Affine(SquareFrom(c), 1.0, SquareFrom(0.0), -2.0 * c, Identity(), c * c)
  {
    forall x: real ensures SquareFrom(c)(x) == 1.0 * SquareFrom(0.0)(x) + (-2.0 * c) * Identity()(x) + c * c {
      assert (x - c) * (x - c) == x * x - 2.0 * c * x + c * c;
    }
  }

  /** Moving the centre from 0 to `c` changes the squared distance by a quadratic in `c`. */
  lemma SquaredDistanceExpand(s: seq<real>, c: real)
    ensures SquaredDistance(s, c)
         == 1.0 * SquaredDistance(s, 0.0) + (-2.0 * c) * Sum(s) + |s| as real * (c * c)
  {
    hide SumOf, SquareFrom, Identity;
    SquareFromAffine(c);
    SumOfAffine(s, SquareFrom(c), 1.0, SquareFrom(0.0), -2.0 * c, Identity(), c * c);
  }

  lemma DeviationAlgebra(n: real, m: real, sum: real, atZero: real, atMean: real, c: real, atC: real)
    requires n >= 0.0 && n * m == sum && atMean >= 0.0
    requires atMean == 1.0 * atZero + (-2.0 * m) * sum + n * (m * m)
    requires atC == 1.0 * atZero + (-2.0 * c) * sum + n * (c * c)
    ensures (sum - n * c) * (sum - n * c) <= n * atC
  {
    assert n * (m * m) == m * sum;
    assert atZero >= m * sum;
    assert n * atZero >= n * (m * sum);
    assert n * (m * sum) == sum * sum;
    assert n * atC == n * atZero - 2.0 * (n * c) * sum + (n * c) * (n * c);
    assert (sum - n * c) * (sum - n * c) == sum * sum - 2.0 * (n * c) * sum + (n * c) * (n * c);
  }

  /** Cauchy and Schwarz: the squared sum of the deviations is at most the count times the sum of their squares. */
  lemma DeviationBound(s: seq<real>, n: real, c: real)
    requires n == |s| as real
    ensures (Sum(s) - n * c) * (Sum(s) - n * c) <= n * SquaredDistance(s, c)
  {
    if |s| == 0 {
      assert Sum(s) == 0.0 && SquaredDistance(s, c) == 0.0;
    } else {
      var m := Sum(s) / n;
      DivideThenMultiply(Sum(s), n);
      hide *;
      SquaredDistanceExpand(s, m);
      SquaredDistanceExpand(s, c);
      SquaredDistanceNonNegative(s, m);
      DeviationAlgebra(n, m, Sum(s), SquaredDistance(s, 0.0), SquaredDistance(s, m), c, SquaredDistance(s, c));
    }
  }

  lemma SamuelsonAlgebra(n: real, m: real, x: real, rest: real, restSquares: real, d2: real, squares: real)
    requires n >= 1.0 && d2 == (x - m) * (x - m)
    requires n * m == rest + x && squares == restSquares + d2
    requires (rest - (n - 1.0) * m) * (rest - (n - 1.0) * m) <= (n - 1.0) * restSquares
    ensures n * d2 <= (n - 1.0) * squares
  {
    assert rest - (n - 1.0) * m == m - x;
    assert (m - x) * (m - x) == d2;
    assert (n - 1.0) * squares == (n - 1.0) * restSquares + n * d2 - d2;
  }

  lemma SumsOfSnoc(s: seq<real>, c: real)
    requires |s| > 0
    ensures Sum(s) == Sum(s[..|s| - 1]) + s[|s| - 1]
    ensures SquaredDistance(s, c) == SquaredDistance(s[..|s| - 1], c) + (s[|s| - 1] - c) * (s[|s| - 1] - c)
  {
  }

  /** Samuelson's inequality: the last value lies within the root of `n - 1` standard deviations of the mean. */
  lemma Samuelson(s: seq<real>, n: real, m: real)
    requires |s| > 0 && n == |s| as real && n * m == Sum(s)
    ensures var x := s[|s| - 1]; n * ((x - m) * (x - m)) <= (n - 1.0) * SquaredDistance(s, m)
  {
    hide *;
    var rest, x := s[..|s| - 1], s[|s| - 1];
    SumsOfSnoc(s, m);
    DeviationBound(rest, n - 1.0, m);
    SamuelsonAlgebra(n, m, x, Sum(rest), SquaredDistance(rest, m), (x - m) * (x - m), SquaredDistance(s, m));
  }

  lemma {:induction false} SumOfInsert<T>(l: seq<T>, x: T, r: seq<T>, f: T -> real)
    ensures SumOf(l + [x] + r, f) == SumOf(l + r, f) + f(x)
  {
    if |r| == 0 {
      assert (l + [x] + r)[..|l|] == l == l + r;
    } else {
      var r' := r[..|r| - 1];
      assert (l + [x] + r)[..|l| + |r|] == l + [x] + r';
      assert (l + r)[..|l| + |r'|] == l + r';
      SumOfInsert(l, x, r', f);
    }
  }

  /** Where the last element of one sequence sits in a permutation of it, and what is left without it. */
  lemma FindLast<T>(a: seq<T>, b: seq<T>) returns (k: nat)
    requires |a| > 0 && multiset(a) == multiset(b)
    ensures k < |b| && b[k] == a[|a| - 1] && b == b[..k] + [b[k]] + b[k + 1..]
    ensures multiset(a[..|a| - 1]) == multiset(b[..k] + b[k + 1..])
  {
    var x := a[|a| - 1];
    assert a == a[..|a| - 1] + [x];
    assert x in multiset(b);
    k :| 0 <= k < |b| && b[k] == x;
    var l, r := b[..k], b[k + 1..];
    assert b == l + [x] + r;
    assert multiset(b) == multiset(l) + multiset{x} + multiset(r);
    assert multiset(l + r) == multiset(l) + multiset(r) == multiset(b) - multiset{x};
    assert multiset(a) == multiset(a[..|a| - 1]) + multiset{x};
    assert multiset(a[..|a| - 1]) == multiset(a) - multiset{x};
  }

  /** Addition does not depend on the order in which a hash map hands out its values. */
  lemma {:induction false} SumOfPermutation<T>(a: seq<T>, b: seq<T>, f: T -> real)
    requires multiset(a) == multiset(b)
    ensures |a| == |b| && SumOf(a, f) == SumOf(b, f)
    decreases |a|
  {
    assert |a| == |multiset(a)| == |multiset(b)| == |b|;
    if |a| == 0 {
    } else {
      var k := FindLast(a, b);
      SumOfPermutation(a[..|a| - 1], b[..k] + b[k + 1..], f);
      SumOfInsert(b[..k], b[k], b[k + 1..], f);
    }
  }
}
