/** Facts about Euclidean division that the fixture generator's index
    arithmetic needs, and a few facts about sequences. The generator only
    takes `%` of non-negative values, so Java's truncating `%` and Dafny's
    Euclidean `%` agree on every operand it uses. */
module Arith {

  /** Division and remainder are determined by any decomposition
      `a == q * d + r` with `0 <= r < d`. */
  lemma DivModUnique(a: int, d: int, q: int, r: int)
    requires d > 0 && 0 <= r < d && a == q * d + r
    ensures a / d == q && a % d == r
  {
    var q' := a / d;
    var r' := a % d;
    assert a == q' * d + r' && 0 <= r' < d;
    assert (q - q') * d == r' - r by {
      assert q * d - q' * d == (q - q') * d;
    }
    if q - q' >= 1 {
      assert (q - q') * d >= d by { MulMono(q - q', d); }
      assert false;
    } else if q - q' <= -1 {
      assert (q' - q) * d >= d by { MulMono(q' - q, d); }
      assert false;
    }
  }

  lemma MulMono(k: int, d: int)
    requires k >= 1 && d > 0
    ensures k * d >= d
  {
    assert k * d == (k - 1) * d + d;
    assert (k - 1) * d >= 0;
  }

  /** A value below twice the modulus wraps at most once. */
  lemma ModOnce(a: int, m: int)
    requires m > 0 && 0 <= a < 2 * m
    ensures a % m == (if a < m then a else a - m)
  {
    if a < m {
      DivModUnique(a, m, 0, a);
    } else {
      DivModUnique(a, m, 1, a - m);
    }
  }

  /** `a` reduced modulo `m` when it is known to wrap at most once, without
      division; `ModOnce` shows it is `a % m`. */
  function Wrap(a: int, m: int): (r: int)
    requires m > 0 && 0 <= a < 2 * m
    ensures 0 <= r < m
  {
    if a < m then a else a - m
  }

  /** The position of element `q * d + r` of a row-major layout with rows of
      width `d`. */
  lemma RowMajor(q: nat, d: nat, r: nat)
    requires 0 <= r < d
    ensures (q * d + r) / d == q && (q * d + r) % d == r
  {
    DivModUnique(q * d + r, d, q, r);
  }

  /** Multiplying by a positive width keeps the order of the factors. */
  lemma MulMonoLe(a: int, b: int, d: int)
    requires a <= b && d > 0
    ensures a * d <= b * d
  {
    assert b * d - a * d == (b - a) * d;
  }

  /** Division by a positive width is monotone. */
  lemma DivMono(a: nat, b: nat, d: nat)
    requires a <= b && d > 0
    ensures a / d <= b / d
  {
    assert a == (a / d) * d + a % d;
    assert b == (b / d) * d + b % d;
    if a / d > b / d {
      MulMonoLe(b / d + 1, a / d, d);
      assert false;
    }
  }

  /** Element `k` of a row-major layout with rows of width `d` lies in row
      `q` exactly when `q * d <= k < (q + 1) * d`. */
  lemma RowBounds(k: nat, d: nat, q: nat)
    requires d > 0
    ensures k / d == q <==> q * d <= k < (q + 1) * d
  {
    var q' := k / d;
    assert k == q' * d + k % d;
    assert (q' + 1) * d == q' * d + d;
    assert (q + 1) * d == q * d + d;
    if q' < q {
      MulMonoLe(q' + 1, q, d);
    } else if q' > q {
      MulMonoLe(q + 1, q', d);
    }
  }

  /** A strictly ascending sequence whose elements are exactly `1 .. m` is
      `[1, 2, .., m]`. */
  lemma AscendingRange(hs: seq<int>, m: nat)
    requires forall j, k :: 0 <= j < k < |hs| ==> hs[j] < hs[k]
    requires forall r :: r in hs <==> 1 <= r <= m
    ensures hs == seq(m, i => i + 1)
  {
    forall i | 0 <= i < |hs|
      ensures hs[i] == i + 1
    {
      AscendingRangeAt(hs, m, i);
    }
    if |hs| > 0 {
      assert hs[|hs| - 1] in hs;
    }
    if m > 0 {
      assert m in hs;
      var p :| 0 <= p < |hs| && hs[p] == m;
      assert m <= |hs|;
    }
  }

  lemma {:induction false} AscendingRangeAt(hs: seq<int>, m: nat, i: nat)
    requires forall j, k :: 0 <= j < k < |hs| ==> hs[j] < hs[k]
    requires forall r :: r in hs <==> 1 <= r <= m
    requires i < |hs|
    ensures hs[i] == i + 1
  {
    assert hs[i] in hs;
    if i > 0 {
      AscendingRangeAt(hs, m, i - 1);
      assert hs[i - 1] < hs[i];
    }
    forall p | 0 <= p < i
      ensures hs[p] <= i
    {
      if p < i - 1 {
        assert hs[p] < hs[i - 1];
      }
    }
    forall p | i < p < |hs|
      ensures hs[p] > i + 1
    {
      assert hs[i] < hs[p];
    }
    assert i + 1 in hs;
  }

  /** Concatenation regroups. Loop bodies call it rather than assert it, so
      that the step is proved outside their large contexts. */
  lemma SeqAssoc<T>(a: seq<T>, b: seq<T>, c: seq<T>)
    ensures a + (b + c) == a + b + c
  {
  }

  /** A prefix one longer is the shorter prefix and the next element. */
  lemma PrefixStep<T>(xs: seq<T>, i: nat)
    requires i < |xs|
    ensures xs[..i + 1] == xs[..i] + [xs[i]]
  {
  }
}
