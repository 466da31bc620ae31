/** Sequence and integer helpers shared by the encoder and the rollout model. */
module SeqOps {

  /** Concatenation of a sequence of sequences, in order (Python's repeated `+=`). */
  function Concat<T>(xss: seq<seq<T>>): seq<T>
  {
    if |xss| == 0 then [] else xss[0] + Concat(xss[1..])
  }

  lemma {:induction false} ConcatAppend<T>(a: seq<seq<T>>, b: seq<seq<T>>)
    ensures Concat(a + b) == Concat(a) + Concat(b)
  {
    if |a| == 0 {
      assert a + b == b;
    } else {
      assert (a + b)[1..] == a[1..] + b;
      ConcatAppend(a[1..], b);
    }
  }

  /** A value occurs in the concatenation exactly when it occurs in one of the parts. */
  lemma {:induction false} ConcatMember<T>(xss: seq<seq<T>>, x: T)
    ensures x in Concat(xss) <==> exists k :: 0 <= k < |xss| && x in xss[k]
  {
    if |xss| > 0 {
      ConcatMember(xss[1..], x);
      if x in Concat(xss[1..]) {
        var k :| 0 <= k < |xss[1..]| && x in xss[1..][k];
        assert x in xss[k + 1];
      }
      forall k | 0 < k < |xss| && x in xss[k]
        ensures x in Concat(xss[1..])
      {
        assert xss[1..][k - 1] == xss[k];
      }
    }
  }

  /** A value found in two different parts occurs at least twice in the concatenation. */
  lemma {:induction false} ConcatTwice<T>(xss: seq<seq<T>>, k1: nat, k2: nat, x: T)
    requires k1 < k2 < |xss| && x in xss[k1] && x in xss[k2]
    ensures multiset(Concat(xss))[x] >= 2
  {
    assert multiset(Concat(xss)) == multiset(xss[0]) + multiset(Concat(xss[1..]));
    assert xss[1..][k2 - 1] == xss[k2];
    if k1 == 0 {
      ConcatMember(xss[1..], x);
    } else {
      assert xss[1..][k1 - 1] == xss[k1];
      ConcatTwice(xss[1..], k1 - 1, k2 - 1, x);
    }
  }

  /** Every row has exactly `width` entries. */
  predicate Rectangular<T>(grid: seq<seq<T>>, width: nat)
  {
    forall t :: 0 <= t < |grid| ==> |grid[t]| == width
  }

  lemma {:induction false} FlattenLength<T>(grid: seq<seq<T>>, width: nat)
    requires Rectangular(grid, width)
    ensures |Concat(grid)| == |grid| * width
  {
    if |grid| > 0 {
      FlattenLength(grid[1..], width);
      assert |grid| * width == (|grid| - 1) * width + width;
    }
  }

  /**
   * Row-major flattening (`reshape(-1)` on a [T][E] tensor, and the
   * concatenation of per-step graph batches): cell (t, e) lands at `t * E + e`.
   */
  lemma {:induction false} FlattenIndex<T>(grid: seq<seq<T>>, width: nat, t: nat, e: nat)
    requires Rectangular(grid, width)
    requires t < |grid| && e < width
    ensures t * width + e < |Concat(grid)|
    ensures Concat(grid)[t * width + e] == grid[t][e]
  {
    FlattenLength(grid, width);
    MulMonotone(t + 1, |grid|, width);
    assert Concat(grid) == grid[0] + Concat(grid[1..]);
    if t > 0 {
      FlattenIndex(grid[1..], width, t - 1, e);
      assert t * width + e == width + ((t - 1) * width + e);
      assert grid[1..][t - 1] == grid[t];
    }
  }

  /** The inverse direction of `FlattenIndex`: flat index `i` reads cell `(i / E, i % E)`. */
  lemma FlattenInverse<T>(grid: seq<seq<T>>, width: nat, i: nat)
    requires Rectangular(grid, width)
    requires i < |grid| * width
    ensures width > 0 && i / width < |grid|
    ensures i < |Concat(grid)| && Concat(grid)[i] == grid[i / width][i % width]
  {
    DivBelow(i, |grid|, width);
    var t, e := i / width, i % width;
    FlattenIndex(grid, width, t, e);
    assert t * width + e == i;
  }

  /** An index below `n * w` splits into a quotient below `n` and a remainder below `w`. */
  lemma DivBelow(i: nat, n: nat, w: nat)
    requires i < n * w
    ensures w > 0 && i / w < n && i % w < w && i == (i / w) * w + i % w
  {
    assert n * 0 == 0;
    if w == 0 {
      assert false;
    }
    var t := i / w;
    if t >= n {
      MulMonotone(n, t, w);
      assert false;
    }
  }

  lemma MulMonotone(a: int, b: int, m: nat)
    requires a <= b
    ensures a * m <= b * m
  {
    assert b * m - a * m == (b - a) * m;
  }

  /** Euclidean division is unique: it is what `/` and `%` compute. */
  lemma DivModUnique(y: int, n: int, q: int, r: int)
    requires n > 0 && y == n * q + r && 0 <= r < n
    ensures y / n == q && y % n == r
  {
    var q', r' := y / n, y % n;
    assert y == n * q' + r' && 0 <= r' < n;
    var d := q - q';
    assert n * d == r' - r by {
      assert n * q - n * q' == n * (q - q');
    }
    if d >= 1 {
      MulMonotone(1, d, n);
    } else if d <= -1 {
      MulMonotone(d, -1, n);
    }
  }

  /** Adding whole multiples of `n` does not change the residue. */
  lemma ModAddMultiple(x: int, q: int, n: int)
    requires n > 0
    ensures (x + q * n) % n == x % n
  {
    var k, r := x / n, x % n;
    assert x + q * n == n * (k + q) + r by {
      assert n * (k + q) == n * k + q * n;
    }
    DivModUnique(x + q * n, n, k + q, r);
  }

  /** A residue read from just below zero wraps to the top of the range. */
  lemma ModNegative(x: int, n: int)
    requires n > 0 && -n <= x < 0
    ensures x % n == x + n
  {
    DivModUnique(x, n, -1, x + n);
  }

  lemma ModSmall(x: int, n: int)
    requires 0 <= x < n
    ensures x % n == x
  {
    DivModUnique(x, n, 0, x);
  }

  /** `range(n)` as a sequence. */
  function Range(n: nat): (r: seq<nat>)
    ensures |r| == n && forall i :: 0 <= i < n ==> r[i] == i
  {
    seq(n, i requires 0 <= i => i as nat)
  }

  /** Each of `0..n-1` occurs exactly once in `range(n)`, and nothing else occurs. */
  lemma {:induction false} RangeMultiplicity(n: nat, x: int)
    ensures multiset(Range(n))[x] == (if 0 <= x < n then 1 else 0)
  {
    if n > 0 {
      assert Range(n) == Range(n - 1) + [n - 1];
      RangeMultiplicity(n - 1, x);
    } else {
      assert Range(n) == [];
    }
  }

  /** A vector of `n` zeros. */
  function Zeros(n: nat): (v: seq<real>)
    ensures |v| == n && forall i :: 0 <= i < n ==> v[i] == 0.0
  {
    seq(n, _ => 0.0)
  }

  function Abs(x: real): real
  {
    if x < 0.0 then -x else x
  }

  /** `x ** 2`. */
  function Square(x: real): (y: real)
    ensures y >= 0.0
  {
    NonNegativeProduct(Abs(x), Abs(x));
    Abs(x) * Abs(x)
  }

  lemma NonNegativeProduct(a: real, b: real)
    requires a >= 0.0 && b >= 0.0
    ensures a * b >= 0.0
  {
  }

  function Sum(s: seq<real>): real
  {
    if |s| == 0 then 0.0 else s[0] + Sum(s[1..])
  }

  /** `mean()` over a non-empty tensor. */
  function Mean(s: seq<real>): real
    requires |s| > 0
  {
    Sum(s) / (|s| as real)
  }

  lemma {:induction false} SumMonotone(a: seq<real>, b: seq<real>)
    requires |a| == |b|
    requires forall i :: 0 <= i < |a| ==> a[i] <= b[i]
    ensures Sum(a) <= Sum(b)
  {
    if |a| > 0 {
      SumMonotone(a[1..], b[1..]);
    }
  }

  lemma MeanMonotone(a: seq<real>, b: seq<real>)
    requires |a| == |b| > 0
    requires forall i :: 0 <= i < |a| ==> a[i] <= b[i]
    ensures Mean(a) <= Mean(b)
  {
    SumMonotone(a, b);
    var n := |a| as real;
    assert Sum(a) / n <= Sum(b) / n by {
      assert Sum(b) / n - Sum(a) / n == (Sum(b) - Sum(a)) / n;
    }
  }

  lemma {:induction false} SumNonNegative(s: seq<real>)
    requires forall i :: 0 <= i < |s| ==> s[i] >= 0.0
    ensures Sum(s) >= 0.0
  {
    if |s| > 0 {
      SumNonNegative(s[1..]);
    }
  }

  lemma {:induction false} SumZeros(s: seq<real>)
    requires forall i :: 0 <= i < |s| ==> s[i] == 0.0
    ensures Sum(s) == 0.0
  {
    if |s| > 0 {
      SumZeros(s[1..]);
    }
  }

  /** The sum of `n` copies of `c`. */
  lemma {:induction false} SumConstant(n: nat, c: real)
    ensures Sum(seq(n, _ => c)) == (n as real) * c
  {
    if n > 0 {
      assert seq(n, _ => c)[1..] == seq(n - 1, _ => c);
      SumConstant(n - 1, c);
    }
  }

  /** A zero mean is a zero sum. */
  lemma MeanZero(s: seq<real>)
    requires |s| > 0 && Mean(s) == 0.0
    ensures Sum(s) == 0.0
  {
    assert Sum(s) == Mean(s) * (|s| as real);
  }

  /** Non-negative entries that sum to zero are all zero. */
  lemma {:induction false} SumNonNegativeZero(s: seq<real>)
    requires forall i :: 0 <= i < |s| ==> s[i] >= 0.0
    requires Sum(s) == 0.0
    ensures forall i :: 0 <= i < |s| ==> s[i] == 0.0
  {
    if |s| > 0 {
      SumNonNegative(s[1..]);
      SumNonNegativeZero(s[1..]);
      forall i | 1 <= i < |s|
        ensures s[i] == 0.0
      {
        assert s[1..][i - 1] == s[i];
      }
    }
  }

  /** Subtracting `c` from every entry lowers the sum by `|s| * c`. */
  lemma {:induction false} SumShift(s: seq<real>, c: real)
    ensures Sum(seq(|s|, i requires 0 <= i < |s| => s[i] - c)) == Sum(s) - (|s| as real) * c
  {
    if |s| > 0 {
      var d := seq(|s|, i requires 0 <= i < |s| => s[i] - c);
      SumShift(s[1..], c);
      assert d[1..] == seq(|s[1..]|, i requires 0 <= i < |s[1..]| => s[1..][i] - c);
    }
  }

  /** A Python slice bound on a sequence of length `n`: a negative bound counts from the end, then it is clamped to `[0, n]`. */
  function SliceBound(i: int, n: nat): (b: nat)
    ensures b <= n
    ensures 0 <= i <= n ==> b == i
    ensures i < 0 <= i + n ==> b == i + n
    ensures i > n ==> b == n
    ensures i + n < 0 ==> b == 0
  {
    var j := if i < 0 then i + n else i;
    if j < 0 then 0 else if j > n then n else j
  }

  /** Python's `s[lo:hi]`; `s[lo:]` is `Slice(s, lo, |s|)`. */
  function Slice<T>(s: seq<T>, lo: int, hi: int): (r: seq<T>)
    ensures |r| <= |s|
    ensures 0 <= lo <= hi <= |s| ==> r == s[lo..hi]
    ensures 0 <= lo <= |s| < hi ==> r == s[lo..]
  {
    var a, b := SliceBound(lo, |s|), SliceBound(hi, |s|);
    if a < b then s[a..b] else []
  }
}
