/** The taste-vector arithmetic of `updateUserEmbedding`
    (actions/actions.ts:199-210): the componentwise sum of the liked posts'
    embeddings, its mean, and the step that moves the user's vector 30% of the
    way towards that mean; and the cold-start vector of `createUser`. Reals
    stand for JavaScript numbers, so rounding is not modelled. */
module Taste {
  import opened Schema

  /** `learningRate` at line 204. */
  const LearningRate: real := 0.3

  /** `createUser`'s `Math.random() * 2 - 1` vector: 1536 components in [-1, 1). */
  predicate ColdStart(v: Vector) {
    |v| == Dim && forall i :: 0 <= i < |v| ==> -1.0 <= v[i] < 1.0
  }

  /** Every component lies in [-b, b]. */
  predicate Bounded(v: Vector, b: real) {
    forall i :: 0 <= i < |v| ==> -b <= v[i] <= b
  }

  /** `new Array(n).fill(0)` */
  function Zeros(n: nat): (z: Vector)
    ensures |z| == n && forall i :: 0 <= i < n ==> z[i] == 0.0
  {
    seq(n, _ => 0.0)
  }

  /** `post.embedding?.[idx] ?? 0`: a component past the end reads as 0. */
  function Component(v: Vector, i: nat): real {
    if i < |v| then v[i] else 0.0
  }

  /** Reference definition: component `i` summed over the embeddings. */
  function ComponentSum(es: seq<Vector>, i: nat): real {
    if es == [] then 0.0 else Component(es[0], i) + ComponentSum(es[1..], i)
  }

  /** The reducer of line 200: `acc.map((val, idx) => val + component)`. */
  function AddInto(acc: Vector, e: Vector): (r: Vector)
    ensures |r| == |acc|
  {
    seq(|acc|, idx requires 0 <= idx < |acc| => acc[idx] + Component(e, idx))
  }

  /** `es.reduce(AddInto, acc)`, folding from the left. */
  function Accumulate(es: seq<Vector>, acc: Vector): (r: Vector)
    ensures |r| == |acc|
    decreases |es|
  {
    if es == [] then acc else Accumulate(es[1..], AddInto(acc, es[0]))
  }

  /** The fold computes, for every index, the accumulator plus the component sum. */
  lemma {:induction false} AccumulateIsSum(es: seq<Vector>, acc: Vector)
    ensures forall i :: 0 <= i < |acc| ==> Accumulate(es, acc)[i] == acc[i] + ComponentSum(es, i)
  {
    if es != [] {
      var next := AddInto(acc, es[0]);
      AccumulateIsSum(es[1..], next);
      forall i | 0 <= i < |acc|
        ensures Accumulate(es, acc)[i] == acc[i] + ComponentSum(es, i)
      {
        assert next[i] == acc[i] + Component(es[0], i);
      }
    }
  }

  /** `averageEmbedding` (lines 199-201): the reduce from `dim` zeros, each
      component then divided by the number of liked posts. A post with a
      shorter vector still counts in the divisor. */
  function Average(es: seq<Vector>, dim: nat): (avg: Vector)
    requires |es| > 0
    ensures |avg| == dim
    ensures forall i :: 0 <= i < dim ==> avg[i] == ComponentSum(es, i) / (|es| as real)
  {
    var sum := Accumulate(es, Zeros(dim));
    AccumulateIsSum(es, Zeros(dim));
    seq(dim, i requires 0 <= i < dim => sum[i] / (|es| as real))
  }

  /** `updatedEmbedding` (lines 207-210): the map runs over the current
      vector, and every component moves towards the target by `LearningRate`
      of the gap, so 70% of the gap remains and the new value lies between the
      old value and the target. */
  function MoveToward(cur: Vector, target: Vector): (r: Vector)
    requires |cur| <= |target|
    ensures |r| == |cur|
    ensures forall i :: 0 <= i < |cur| ==> target[i] - r[i] == (1.0 - LearningRate) * (target[i] - cur[i])
    ensures forall i :: 0 <= i < |cur| ==>
      (cur[i] <= target[i] ==> cur[i] <= r[i] <= target[i]) &&
      (target[i] <= cur[i] ==> target[i] <= r[i] <= cur[i])
  {
    seq(|cur|, idx requires 0 <= idx < |cur| => cur[idx] + (target[idx] - cur[idx]) * LearningRate)
  }

  /** The users row after a performed update: the moved vector, and the time
      of the update as `lastEmbeddingUpdate` (lines 213-219). */
  function Retune(user: User, liked: seq<Vector>, now: int): (r: User)
    requires |liked| > 0 && IsVector(user.embedding)
    ensures IsVector(r.embedding) && r.lastEmbeddingUpdate == now
    ensures r == user.(embedding := r.embedding, lastEmbeddingUpdate := now)
    ensures forall i :: 0 <= i < Dim ==>
      r.embedding[i] == user.embedding[i]
        + (ComponentSum(liked, i) / (|liked| as real) - user.embedding[i]) * LearningRate
  {
    user.(embedding := MoveToward(user.embedding, Average(liked, Dim)), lastEmbeddingUpdate := now)
  }

  // ---------------------------------------------------------------------------
  // Properties of the update

  /** The sum of `n` copies of a vector is `n` times each component. */
  lemma {:induction false} ComponentSumOfCopies(es: seq<Vector>, v: Vector, i: nat)
    requires forall k :: 0 <= k < |es| ==> es[k] == v
    ensures ComponentSum(es, i) == (|es| as real) * Component(v, i)
  {
    if es != [] {
      ComponentSumOfCopies(es[1..], v, i);
    }
  }

  /** The mean of copies of one vector is that vector. */
  lemma AverageOfCopies(es: seq<Vector>, v: Vector)
    requires |es| > 0 && forall k :: 0 <= k < |es| ==> es[k] == v
    ensures Average(es, |v|) == v
  {
    var avg := Average(es, |v|);
    forall i | 0 <= i < |v|
      ensures avg[i] == v[i]
    {
      ComponentSumOfCopies(es, v, i);
    }
  }

  /** Moving towards the current vector itself changes nothing. */
  lemma MoveTowardSelf(cur: Vector)
    ensures MoveToward(cur, cur) == cur
  {
  }

  /** A sum of `n` components each in [-b, b] lies in [-n*b, n*b]. */
  lemma {:induction false} ComponentSumBounded(es: seq<Vector>, i: nat, b: real)
    requires b >= 0.0
    requires forall k :: 0 <= k < |es| ==> Bounded(es[k], b)
    ensures -(|es| as real) * b <= ComponentSum(es, i) <= (|es| as real) * b
  {
    if es != [] {
      ComponentSumBounded(es[1..], i, b);
      assert -b <= Component(es[0], i) <= b;
      assert (|es| as real) * b == b + (|es[1..]| as real) * b;
    }
  }

  /** Dividing a value within [-n*b, n*b] by n > 0 gives a value within [-b, b]. */
  lemma QuotientBounded(s: real, n: real, b: real)
    requires n > 0.0 && -n * b <= s <= n * b
    ensures -b <= s / n <= b
  {
  }

  /** The mean of vectors within [-b, b] stays within [-b, b]. */
  lemma AverageBounded(es: seq<Vector>, dim: nat, b: real)
    requires |es| > 0 && b >= 0.0
    requires forall k :: 0 <= k < |es| ==> Bounded(es[k], b)
    ensures Bounded(Average(es, dim), b)
  {
    var avg := Average(es, dim);
    forall i | 0 <= i < dim
      ensures -b <= avg[i] <= b
    {
      ComponentSumBounded(es, i, b);
      QuotientBounded(ComponentSum(es, i), |es| as real, b);
    }
  }

  /** Taste vectors stay finite: if the current vector and every liked post's
      vector lie within [-b, b], so does the updated vector. A cold-start
      vector lies within [-1, 1]. */
  lemma RetuneStaysBounded(user: User, liked: seq<Vector>, now: int, b: real)
    requires |liked| > 0 && IsVector(user.embedding) && b >= 0.0
    requires Bounded(user.embedding, b)
    requires forall k :: 0 <= k < |liked| ==> Bounded(liked[k], b)
    ensures Bounded(Retune(user, liked, now).embedding, b)
  {
    AverageBounded(liked, Dim, b);
  }

  /** A starting vector lies within [-1, 1]. */
  lemma ColdStartBounded(v: Vector)
    requires ColdStart(v)
    ensures Bounded(v, 1.0)
  {
  }

  /** A worked example in two dimensions: a vector
      [0, 0] after liking [1, 1] and [-1, 1] becomes [0, 0.3]. */
  lemma TwoDimensionExample()
    ensures Average([[1.0, 1.0], [-1.0, 1.0]], 2) == [0.0, 1.0]
    ensures MoveToward([0.0, 0.0], [0.0, 1.0]) == [0.0, 0.3]
  {
  }

  /** A liked post whose vector is too short adds 0 for its missing
      components but still counts in the divisor: the mean of [2] and [0, 2]
      is [1, 1], not [1, 2]. */
  lemma ShortVectorCountsInDivisor()
    ensures Average([[2.0], [0.0, 2.0]], 2) == [1.0, 1.0]
  {
  }
}
