/** Single-point crossover for integer vectors.  The operator draws a cut
    point p uniformly from [0, n - 2] and swaps the closed prefix [0, p]
    between the two parents, in place.  The random draw is a parameter
    here: p is any value the draw can return, i.e. 0 <= p < n - 1, which
    also means the vectors have at least two elements.
 */
module SinglePointCrossover {
  import opened IntegerVector

  /** The cut points the random draw can produce for vectors of length n:
      an index drawn uniformly below the bound n - 1. */
  predicate IsCutPoint(n: nat, p: int)
  {
    0 <= p < n - 1
  }

  /** The operator carries no state: one value stands for every instance. */
  datatype Crossover = Crossover {

    /** The two children that crossing c1 and c2 at cut point p produces:
        child k takes positions 0..p from the other parent and the rest
        from parent k. */
    function Offspring(c1: seq<int>, c2: seq<int>, p: int): (r: VectorPair)
      requires |c1| == |c2|
      requires IsCutPoint(|c1|, p)
      ensures |r.v1| == |r.v2| == |c1|
      ensures forall i :: 0 <= i <= p ==> r.v1[i] == c2[i] && r.v2[i] == c1[i]
      ensures forall i :: p < i < |c1| ==> r.v1[i] == c1[i] && r.v2[i] == c2[i]
      ensures r.v1[0] == c2[0] && r.v2[0] == c1[0]
      ensures r.v1[|c1| - 1] == c1[|c1| - 1] && r.v2[|c1| - 1] == c2[|c1| - 1]
    {
      Exchange(c1, c2, 0, p)
    }

    /** The in-place crossover: the two vectors are replaced by the two
        children; nothing else is touched and nothing is allocated. */
    method Cross(c1: array<int>, c2: array<int>, p: int)
      requires c1.Length == c2.Length
      requires IsCutPoint(c1.Length, p)
      modifies c1, c2
      ensures VectorPair(c1[..], c2[..]) == Offspring(old(c1[..]), old(c2[..]), p)
    {
      ExchangeInPlace(c1, c2, 0, p);
    }

    /** A handle for another thread: the operator itself, since there is
        no state to copy. */
    function Split(): (r: Crossover)
      ensures r == this
    {
      this
    }
  }

  /** Each child is one parent's prefix [0..p] followed by the other
      parent's suffix [p+1..n-1]. */
  lemma OffspringIsSplice(op: Crossover, c1: seq<int>, c2: seq<int>, p: int)
    requires |c1| == |c2|
    requires IsCutPoint(|c1|, p)
    ensures op.Offspring(c1, c2, p) == VectorPair(c2[..p + 1] + c1[p + 1..], c1[..p + 1] + c2[p + 1..])
  {
    ExchangedDeterminesResult(c1, c2, c2[..p + 1] + c1[p + 1..], c1[..p + 1] + c2[p + 1..], 0, p);
  }

  /** Crossing the two children again at the same cut point gives back
      the parents. */
  lemma CrossTwiceRestores(op: Crossover, c1: seq<int>, c2: seq<int>, p: int)
    requires |c1| == |c2|
    requires IsCutPoint(|c1|, p)
    ensures var r := op.Offspring(c1, c2, p);
            op.Offspring(r.v1, r.v2, p) == VectorPair(c1, c2)
  {
    ExchangeSelfInverse(c1, c2, 0, p);
  }

  /** At every index the pair of values held by the two vectors is
      unchanged, and so is the combined multiset of both vectors. */
  lemma OffspringConservesValues(op: Crossover, c1: seq<int>, c2: seq<int>, p: int)
    requires |c1| == |c2|
    requires IsCutPoint(|c1|, p)
    ensures var r := op.Offspring(c1, c2, p);
            && (forall i :: 0 <= i < |c1| ==> SamePair(c1[i], c2[i], r.v1[i], r.v2[i]))
            && multiset(r.v1) + multiset(r.v2) == multiset(c1) + multiset(c2)
  {
    ExchangeConservesPairs(c1, c2, 0, p);
    ExchangeConservesMultiset(c1, c2, 0, p);
  }

  /** The handle returned by Split crosses exactly as the original does. */
  lemma SplitCrossesIdentically(op: Crossover, c1: seq<int>, c2: seq<int>, p: int)
    requires |c1| == |c2|
    requires IsCutPoint(|c1|, p)
    ensures op.Split().Offspring(c1, c2, p) == op.Offspring(c1, c2, p)
  {
  }

  /** Crossing [1,2,3,4,5] and [6,7,8,9,10] at cut point 2. */
  lemma FivePointExample(op: Crossover)
    ensures op.Offspring([1, 2, 3, 4, 5], [6, 7, 8, 9, 10], 2)
         == VectorPair([6, 7, 8, 4, 5], [1, 2, 3, 9, 10])
  {
    OffspringIsSplice(op, [1, 2, 3, 4, 5], [6, 7, 8, 9, 10], 2);
  }
}
