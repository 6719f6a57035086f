/** The segment-exchange primitive of integer vectors: swap the values at
    every index of the inclusive range [lo, hi] between two vectors of the
    same length.  A vector is modelled by its contents, a sequence of
    integers; the in-place variant works on two arrays.
 */
module IntegerVector {

  /** Two vectors, e.g. the two children of a crossover. */
  datatype VectorPair = VectorPair(v1: seq<int>, v2: seq<int>)

  /** The range [lo, hi] may be exchanged in vectors of length n: it is
      either empty (lo > hi, where the swap loop runs no iteration) or lies
      inside the vectors. */
  predicate ValidRange(n: nat, lo: int, hi: int)
  {
    lo <= hi ==> 0 <= lo && hi < n
  }

  predicate InRange(i: int, lo: int, hi: int)
  {
    lo <= i <= hi
  }

  /** The reference specification of an exchange, position by position:
      inside [lo, hi] the new vectors hold each other's old values, outside
      it they hold their own old values. */
  predicate Exchanged(a: seq<int>, b: seq<int>, a': seq<int>, b': seq<int>, lo: int, hi: int)
  {
    && |a| == |b| == |a'| == |b'|
    && (forall i :: 0 <= i < |a| && InRange(i, lo, hi) ==> a'[i] == b[i] && b'[i] == a[i])
    && (forall i :: 0 <= i < |a| && !InRange(i, lo, hi) ==> a'[i] == a[i] && b'[i] == b[i])
  }

  /** The exchange as a value: each vector is cut in three around [lo, hi]
      and the middle pieces trade places. */
  function Exchange(a: seq<int>, b: seq<int>, lo: int, hi: int): (r: VectorPair)
    requires |a| == |b|
    requires ValidRange(|a|, lo, hi)
    ensures Exchanged(a, b, r.v1, r.v2, lo, hi)
  {
    if lo > hi then VectorPair(a, b)
    else VectorPair(a[..lo] + b[lo..hi + 1] + a[hi + 1..],
                    b[..lo] + a[lo..hi + 1] + b[hi + 1..])
  }

  /** The position-wise specification leaves no freedom: any pair of
      vectors that satisfies it is the one Exchange computes. */
  lemma ExchangedDeterminesResult(a: seq<int>, b: seq<int>, a': seq<int>, b': seq<int>, lo: int, hi: int)
    requires ValidRange(|a|, lo, hi)
    requires Exchanged(a, b, a', b', lo, hi)
    ensures Exchange(a, b, lo, hi) == VectorPair(a', b')
  {
  }

  /** An empty range leaves both vectors exactly as they were. */
  lemma ExchangeEmptyRange(a: seq<int>, b: seq<int>, lo: int, hi: int)
    requires |a| == |b|
    requires lo > hi
    ensures Exchange(a, b, lo, hi) == VectorPair(a, b)
  {
  }

  /** Exchanging the same range twice restores both vectors. */
  lemma ExchangeSelfInverse(a: seq<int>, b: seq<int>, lo: int, hi: int)
    requires |a| == |b|
    requires ValidRange(|a|, lo, hi)
    ensures var r := Exchange(a, b, lo, hi);
            Exchange(r.v1, r.v2, lo, hi) == VectorPair(a, b)
  {
    var r := Exchange(a, b, lo, hi);
    ExchangedDeterminesResult(r.v1, r.v2, a, b, lo, hi);
  }

  /** The unordered pair {x', y'} is the unordered pair {x, y}. */
  predicate SamePair(x: int, y: int, x': int, y': int)
  {
    (x' == x && y' == y) || (x' == y && y' == x)
  }

  /** At every index, the two values held by the vectors are the same
      before and after, possibly in the other order. */
  lemma ExchangeConservesPairs(a: seq<int>, b: seq<int>, lo: int, hi: int)
    requires |a| == |b|
    requires ValidRange(|a|, lo, hi)
    ensures var r := Exchange(a, b, lo, hi);
            forall i :: 0 <= i < |a| ==> SamePair(a[i], b[i], r.v1[i], r.v2[i])
  {
  }

  /** Values conserved position by position are conserved overall: the
      combined multiset of both vectors is unchanged. */
  lemma {:induction false} PairwiseConservationIsGlobal(a: seq<int>, b: seq<int>, a': seq<int>, b': seq<int>)
    requires |a| == |b| == |a'| == |b'|
    requires forall i :: 0 <= i < |a| ==> SamePair(a[i], b[i], a'[i], b'[i])
    ensures multiset(a') + multiset(b') == multiset(a) + multiset(b)
  {
    if |a| == 0 {
      assert a == b == a' == b' == [];
    } else {
      var n := |a| - 1;
      var a0, b0, a0', b0' := a[..n], b[..n], a'[..n], b'[..n];
      assert forall i :: 0 <= i < n ==> SamePair(a0[i], b0[i], a0'[i], b0'[i]) by {
        forall i | 0 <= i < n ensures SamePair(a0[i], b0[i], a0'[i], b0'[i]) {
          assert SamePair(a[i], b[i], a'[i], b'[i]);
        }
      }
      PairwiseConservationIsGlobal(a0, b0, a0', b0');
      LastSplit(a);
      LastSplit(b);
      LastSplit(a');
      LastSplit(b');
      PairUnion(a[n], b[n], a'[n], b'[n]);
      Regroup(multiset(a0), multiset(b0), multiset(a0'), multiset(b0'),
              multiset{a[n]}, multiset{b[n]}, multiset{a'[n]}, multiset{b'[n]});
    }
  }

  /** The values of an unordered pair, as a multiset. */
  lemma PairUnion(x: int, y: int, x': int, y': int)
    requires SamePair(x, y, x', y')
    ensures multiset{x'} + multiset{y'} == multiset{x} + multiset{y}
  {
  }

  /** Adding equal amounts to equal totals gives equal totals, however the
      summands are grouped. */
  lemma Regroup(m: multiset<int>, n: multiset<int>, m': multiset<int>, n': multiset<int>,
                e: multiset<int>, f: multiset<int>, e': multiset<int>, f': multiset<int>)
    requires m' + n' == m + n
    requires e' + f' == e + f
    ensures (m' + e') + (n' + f') == (m + e) + (n + f)
  {
    calc {
      (m' + e') + (n' + f');
      (m' + n') + (e' + f');
      (m + n) + (e + f);
      (m + e) + (n + f);
    }
  }

  /** The multiset of a non-empty sequence splits off its last element. */
  lemma LastSplit(s: seq<int>)
    requires |s| > 0
    ensures multiset(s) == multiset(s[..|s| - 1]) + multiset{s[|s| - 1]}
  {
    assert s == s[..|s| - 1] + [s[|s| - 1]];
  }

  /** An exchange redistributes values between the two vectors; it never
      creates or destroys one. */
  lemma ExchangeConservesMultiset(a: seq<int>, b: seq<int>, lo: int, hi: int)
    requires |a| == |b|
    requires ValidRange(|a|, lo, hi)
    ensures var r := Exchange(a, b, lo, hi);
            multiset(r.v1) + multiset(r.v2) == multiset(a) + multiset(b)
  {
    var r := Exchange(a, b, lo, hi);
    ExchangeConservesPairs(a, b, lo, hi);
    PairwiseConservationIsGlobal(a, b, r.v1, r.v2);
  }

  /** The in-place exchange: one swap per index of [lo, hi], touching
      nothing but the two arrays and allocating nothing.  The arrays may be
      the same one, in which case nothing changes. */
  method ExchangeInPlace(a: array<int>, b: array<int>, lo: int, hi: int)
    requires a.Length == b.Length
    requires ValidRange(a.Length, lo, hi)
    modifies a, b
    ensures Exchanged(old(a[..]), old(b[..]), a[..], b[..], lo, hi)
    ensures VectorPair(a[..], b[..]) == Exchange(old(a[..]), old(b[..]), lo, hi)
  {
    if lo <= hi {
      var i := lo;
      while i <= hi
        invariant lo <= i <= hi + 1
        invariant forall j :: 0 <= j < a.Length && lo <= j < i ==> a[j] == old(b[j]) && b[j] == old(a[j])
        invariant forall j :: 0 <= j < a.Length && !(lo <= j < i) ==> a[j] == old(a[j]) && b[j] == old(b[j])
      {
        var t := a[i];
        a[i] := b[i];
        b[i] := t;
        i := i + 1;
      }
    }
    ExchangedDeterminesResult(old(a[..]), old(b[..]), a[..], b[..], lo, hi);
  }
}
