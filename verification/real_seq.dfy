/**
 Sums and element-wise operations on sequences of reals: the numpy vector
 operations (`sum`, `*=`, `-=`, `+=`, `[:] = 0.`) that the accretion step
 applies to one column of the deposit matrix.
 */
module RealSeq {
  import opened RealArith

  /** The sum of all elements, as numpy's `sum()` over a vector (exact, over the reals). */
  function Sum(s: seq<real>): (total: real)
  {
    if |s| == 0 then 0.0 else s[0] + Sum(s[1..])
  }

  /** Every element multiplied by `f` (numpy `v *= f`). */
  function Scaled(s: seq<real>, f: real): (r: seq<real>)
    ensures |r| == |s|
    ensures forall i :: 0 <= i < |s| ==> r[i] == f * s[i]
  {
    seq(|s|, i requires 0 <= i < |s| => f * s[i])
  }

  /** Every element reduced by the fraction `perc` of itself (numpy `v -= perc*v`). */
  function Shrunk(s: seq<real>, perc: real): (r: seq<real>)
    ensures |r| == |s|
    ensures forall i :: 0 <= i < |s| ==> r[i] == s[i] - perc * s[i]
  {
    seq(|s|, i requires 0 <= i < |s| => s[i] - perc * s[i])
  }

  /** Element-wise sum of two vectors of equal length (numpy `a += b`). */
  function Plus(a: seq<real>, b: seq<real>): (r: seq<real>)
    requires |a| == |b|
    ensures |r| == |a|
    ensures forall i :: 0 <= i < |a| ==> r[i] == a[i] + b[i]
  {
    seq(|a|, i requires 0 <= i < |a| => a[i] + b[i])
  }

  /** A vector of `n` zeros (numpy `v[:] = 0.`). */
  function Zeros(n: nat): (r: seq<real>)
    ensures |r| == n
    ensures forall i :: 0 <= i < n ==> r[i] == 0.0
  {
    seq(n, i => 0.0)
  }

  predicate NonNegative(s: seq<real>)
  {
    forall i :: 0 <= i < |s| ==> s[i] >= 0.0
  }

  lemma {:induction false} SumNonNegative(s: seq<real>)
    requires NonNegative(s)
    ensures Sum(s) >= 0.0
  {
    if |s| > 0 {
      SumNonNegative(s[1..]);
    }
  }

  /** Sum distributes over a trailing element. */
  lemma {:induction false} SumSnoc(s: seq<real>, x: real)
    ensures Sum(s + [x]) == Sum(s) + x
  {
    if |s| == 0 {
      assert s + [x] == [x];
    } else {
      assert (s + [x])[1..] == s[1..] + [x];
      SumSnoc(s[1..], x);
    }
  }

  lemma {:induction false} SumScaled(s: seq<real>, f: real)
    ensures Sum(Scaled(s, f)) == f * Sum(s)
  {
    if |s| > 0 {
      MulDistributes(f, Sum(s), s[0], Sum(s[1..]));
      ScaledTail(s, f);
      SumScaled(s[1..], f);
    }
  }

  lemma ScaledTail(s: seq<real>, f: real)
    requires |s| > 0
    ensures Scaled(s, f)[1..] == Scaled(s[1..], f)
  {
    forall i | 0 <= i < |s| - 1
      ensures Scaled(s, f)[1..][i] == Scaled(s[1..], f)[i]
    {
      assert Scaled(s, f)[1..][i] == Scaled(s, f)[i + 1];
    }
  }

  lemma {:induction false} SumShrunk(s: seq<real>, perc: real)
    ensures Sum(Shrunk(s, perc)) == Sum(s) - perc * Sum(s)
  {
    if |s| > 0 {
      MulDistributes(perc, Sum(s), s[0], Sum(s[1..]));
      ShrunkTail(s, perc);
      SumShrunk(s[1..], perc);
    }
  }

  lemma ShrunkTail(s: seq<real>, perc: real)
    requires |s| > 0
    ensures Shrunk(s, perc)[1..] == Shrunk(s[1..], perc)
  {
    forall i | 0 <= i < |s| - 1
      ensures Shrunk(s, perc)[1..][i] == Shrunk(s[1..], perc)[i]
    {
      assert Shrunk(s, perc)[1..][i] == Shrunk(s, perc)[i + 1];
    }
  }

  lemma {:induction false} SumPlus(a: seq<real>, b: seq<real>)
    requires |a| == |b|
    ensures Sum(Plus(a, b)) == Sum(a) + Sum(b)
  {
    if |a| > 0 {
      assert Plus(a, b)[1..] == Plus(a[1..], b[1..]);
      SumPlus(a[1..], b[1..]);
    }
  }

  lemma {:induction false} SumZeros(n: nat)
    ensures Sum(Zeros(n)) == 0.0
  {
    if n > 0 {
      assert Zeros(n)[1..] == Zeros(n - 1);
      SumZeros(n - 1);
    }
  }

  /** Replacing one element changes the sum by the difference. */
  lemma {:induction false} SumUpdate(s: seq<real>, i: nat, v: real)
    requires i < |s|
    ensures Sum(s[i := v]) == Sum(s) - s[i] + v
  {
    if i > 0 {
      assert s[i := v][1..] == s[1..][i - 1 := v];
      SumUpdate(s[1..], i - 1, v);
    }
  }

  lemma ScaledNonNegative(s: seq<real>, f: real)
    requires NonNegative(s) && f >= 0.0
    ensures NonNegative(Scaled(s, f))
  {
    forall i | 0 <= i < |s|
      ensures Scaled(s, f)[i] >= 0.0
    {
      MulNonNegative(f, s[i]);
    }
  }

  /** A shrink by a fraction in [0, 1] keeps non-negative vectors non-negative. */
  lemma ShrunkNonNegative(s: seq<real>, perc: real)
    requires NonNegative(s) && 0.0 <= perc <= 1.0
    ensures NonNegative(Shrunk(s, perc))
  {
    forall i | 0 <= i < |s|
      ensures Shrunk(s, perc)[i] >= 0.0
    {
      var x := s[i];
      FractionOfNonNegative(perc, x);
      assert Shrunk(s, perc)[i] == x - perc * x;
    }
  }
}
