/**
 * Sampling without replacement (`select_random_pairs`): a pool holding every
 * index of the bank shrinks by one randomly chosen position per step, and the
 * pair at the removed index is appended to the exam.
 */
module Sampler {
  import opened QuestionBank

  /**
   * The random source, passed in: `rng(step, hi)` is the position that
   * `random.randint(0, hi)` returns at loop step number `step`.
   */
  type Rng = (nat, nat) -> nat

  /** The contract of `random.randint(0, hi)`: the result lies in [0, hi]. */
  ghost predicate IsRandint(rng: Rng)
  {
    forall step: nat, hi: nat :: rng(step, hi) <= hi
  }

  /** `list(range(n))`. */
  function Range(n: nat): (r: seq<nat>)
    ensures |r| == n && forall i | 0 <= i < n :: r[i] == i
  {
    seq(n, i requires 0 <= i => i)
  }

  /** No element occurs twice. */
  predicate Distinct(s: seq<nat>)
  {
    forall i, j | 0 <= i < j < |s| :: s[i] != s[j]
  }

  /** Positions drawn one per step from a pool of `size` indices that loses one index per step. */
  predicate Fits(positions: seq<nat>, size: nat)
  {
    |positions| <= size && forall k | 0 <= k < |positions| :: positions[k] < size - k
  }

  /** `pool.pop(p)`, seen through what remains in the pool. */
  function Pop(pool: seq<nat>, p: nat): (rest: seq<nat>)
    requires p < |pool|
    ensures |rest| == |pool| - 1
  {
    pool[..p] + pool[p + 1..]
  }

  /** What the pool holds after a pop, position by position. */
  lemma PopAt(pool: seq<nat>, p: nat)
    requires p < |pool|
    ensures forall k | 0 <= k < |pool| - 1 :: Pop(pool, p)[k] == if k < p then pool[k] else pool[k + 1]
  {
    var front, back := pool[..p], pool[p + 1..];
    assert Pop(pool, p) == front + back;
    forall k | 0 <= k < |pool| - 1 ensures Pop(pool, p)[k] == if k < p then pool[k] else pool[k + 1] {
      if k < p {
        assert (front + back)[k] == front[k];
      } else {
        assert (front + back)[k] == back[k - p];
      }
    }
  }

  /** A pop takes exactly one occurrence of the popped index out of the pool. */
  lemma PopMultiset(pool: seq<nat>, p: nat)
    requires p < |pool|
    ensures multiset(Pop(pool, p)) + multiset{pool[p]} == multiset(pool)
  {
    assert pool == pool[..p] + [pool[p]] + pool[p + 1..];
  }

  /** The indices removed from `pool` by drawing at `positions`, in the order they were removed. */
  function Drawn(pool: seq<nat>, positions: seq<nat>): (drawn: seq<nat>)
    requires Fits(positions, |pool|)
    ensures |drawn| == |positions|
    decreases |positions|
  {
    if positions == [] then []
    else [pool[positions[0]]] + Drawn(Pop(pool, positions[0]), positions[1..])
  }

  /** What remains in `pool` after drawing at `positions`. */
  function Left(pool: seq<nat>, positions: seq<nat>): (left: seq<nat>)
    requires Fits(positions, |pool|)
    ensures |left| == |pool| - |positions|
    decreases |positions|
  {
    if positions == [] then pool
    else Left(Pop(pool, positions[0]), positions[1..])
  }

  /** The positions the random source gives over `count` steps on a pool of `n` indices. */
  function Positions(rng: Rng, n: nat, count: nat): (positions: seq<nat>)
    requires count <= n
    ensures |positions| == count
    ensures IsRandint(rng) ==> Fits(positions, n)
  {
    seq(count, k requires 0 <= k < count => rng(k, n - 1 - k))
  }

  /** Step k draws `randint(0, n - 1 - k)`: the top position of the pool left after k draws. */
  lemma PositionAt(rng: Rng, n: nat, count: nat, k: nat)
    requires k < count <= n
    ensures Positions(rng, n, count)[k] == rng(k, n - 1 - k)
  {
  }

  /**
   * Step k draws `randint(0, len(available_indices) - 1)`: its bound is the last
   * position of the pool left after the k earlier draws.
   */
  lemma PositionInPool(rng: Rng, n: nat, count: nat, k: nat)
    requires k < count <= n && IsRandint(rng)
    ensures Fits(Positions(rng, n, count)[..k], n)
    ensures Positions(rng, n, count)[k] == rng(k, |Left(Range(n), Positions(rng, n, count)[..k])| - 1)
  {
    FitsPrefix(Positions(rng, n, count), n, k);
    PositionAt(rng, n, count, k);
  }

  /** The drawn indices and what is left of the pool together are the pool, rearranged. */
  lemma {:induction false} DrawPermutation(pool: seq<nat>, positions: seq<nat>)
    requires Fits(positions, |pool|)
    ensures multiset(Drawn(pool, positions)) + multiset(Left(pool, positions)) == multiset(pool)
    decreases |positions|
  {
    if positions != [] {
      var p := positions[0];
      PopMultiset(pool, p);
      DrawPermutation(Pop(pool, p), positions[1..]);
    }
  }

  /** Every drawn index came from the pool. */
  lemma DrawnFromPool(pool: seq<nat>, positions: seq<nat>)
    requires Fits(positions, |pool|)
    ensures forall x | x in Drawn(pool, positions) :: x in pool
  {
    DrawPermutation(pool, positions);
    forall x | x in Drawn(pool, positions) ensures x in pool {
      assert x in multiset(Drawn(pool, positions));
    }
  }

  /** Popping from a pool without repetitions leaves a pool without repetitions that lacks the popped index. */
  lemma PopDistinct(pool: seq<nat>, p: nat)
    requires p < |pool| && Distinct(pool)
    ensures Distinct(Pop(pool, p)) && pool[p] !in Pop(pool, p)
  {
    var rest := Pop(pool, p);
    PopAt(pool, p);
    forall i, j | 0 <= i < j < |rest| ensures rest[i] != rest[j] {
      var i', j' := if i < p then i else i + 1, if j < p then j else j + 1;
      assert rest[i] == pool[i'] && rest[j] == pool[j'];
    }
    forall k | 0 <= k < |rest| ensures rest[k] != pool[p] {
      assert rest[k] == pool[if k < p then k else k + 1];
    }
  }

  /**
   * From a pool without repetitions, no index is drawn twice and no drawn
   * index remains in the pool.
   */
  lemma {:induction false} DrawDistinct(pool: seq<nat>, positions: seq<nat>)
    requires Fits(positions, |pool|)
    requires Distinct(pool)
    ensures Distinct(Drawn(pool, positions) + Left(pool, positions))
    decreases |positions|
  {
    if positions != [] {
      var p := positions[0];
      var rest := Pop(pool, p);
      PopDistinct(pool, p);
      DrawDistinct(rest, positions[1..]);
      var tail := Drawn(rest, positions[1..]) + Left(rest, positions[1..]);
      assert pool[p] !in tail by {
        DrawPermutation(rest, positions[1..]);
        assert multiset(tail) == multiset(rest);
        assert pool[p] !in multiset(rest);
      }
      DrawUnfold(pool, positions);
      ConsDistinct(pool[p], tail);
    }
  }

  /** The first draw, then the draws from what it leaves. */
  lemma DrawUnfold(pool: seq<nat>, positions: seq<nat>)
    requires Fits(positions, |pool|) && positions != []
    ensures Fits(positions[1..], |pool| - 1)
    ensures Drawn(pool, positions) + Left(pool, positions) ==
      [pool[positions[0]]] + (Drawn(Pop(pool, positions[0]), positions[1..]) + Left(Pop(pool, positions[0]), positions[1..]))
  {
    var rest, later := Pop(pool, positions[0]), positions[1..];
    var a, b := Drawn(rest, later), Left(rest, later);
    assert Drawn(pool, positions) == [pool[positions[0]]] + a;
    assert Left(pool, positions) == b;
    AppendAssociative([pool[positions[0]]], a, b);
  }

  lemma AppendAssociative(x: seq<nat>, y: seq<nat>, z: seq<nat>)
    ensures (x + y) + z == x + (y + z)
  {
  }

  /** Putting a new element in front keeps a sequence free of repetitions. */
  lemma ConsDistinct(x: nat, s: seq<nat>)
    requires Distinct(s) && x !in s
    ensures Distinct([x] + s)
  {
    var t := [x] + s;
    forall i, j | 0 <= i < j < |t| ensures t[i] != t[j] {
      assert t[j] == s[j - 1];
      if i > 0 {
        assert t[i] == s[i - 1];
      }
    }
  }

  /** A front part of a sequence without repetitions has none. */
  lemma DistinctPrefix(a: seq<nat>, b: seq<nat>)
    requires Distinct(a + b)
    ensures Distinct(a)
  {
    forall i, j | 0 <= i < j < |a| ensures a[i] != a[j] {
      assert a[i] == (a + b)[i] && a[j] == (a + b)[j];
    }
  }

  /** The pairs at the given indices, in that order. */
  function Pick(pairs: seq<Pair>, indices: seq<nat>): (picked: seq<Pair>)
    requires forall k | 0 <= k < |indices| :: indices[k] < |pairs|
    ensures |picked| == |indices|
  {
    seq(|indices|, k requires 0 <= k < |indices| => pairs[indices[k]])
  }

  /** Picking one more index appends the pair at that index. */
  lemma PickOneMore(pairs: seq<Pair>, indices: seq<nat>, x: nat)
    requires forall k | 0 <= k < |indices| :: indices[k] < |pairs|
    requires x < |pairs|
    ensures Pick(pairs, indices + [x]) == Pick(pairs, indices) + [pairs[x]]
  {
  }

  /** The indices of the bank that `count` steps of the sampler remove, in order. */
  function SampledIndices(n: nat, count: nat, rng: Rng): (indices: seq<nat>)
    requires count <= n && IsRandint(rng)
    ensures |indices| == count
    ensures forall k | 0 <= k < count :: indices[k] < n
    ensures Distinct(indices)
  {
    var positions := Positions(rng, n, count);
    var indices := Drawn(Range(n), positions);
    DrawnFromPool(Range(n), positions);
    DrawDistinct(Range(n), positions);
    DistinctPrefix(indices, Left(Range(n), positions));
    assert forall k | 0 <= k < count :: indices[k] < n by {
      forall k | 0 <= k < count ensures indices[k] < n {
        assert indices[k] in Range(n);
      }
    }
    indices
  }

  /** The exam `select_random_pairs(pairs, count)` returns with the random source `rng`. */
  function Sample(pairs: seq<Pair>, count: nat, rng: Rng): (exam: seq<Pair>)
    requires count <= |pairs| && IsRandint(rng)
    ensures |exam| == count
    ensures forall k | 0 <= k < count :: exam[k] in pairs
  {
    Pick(pairs, SampledIndices(|pairs|, count, rng))
  }

  /** No question is asked twice: when the bank holds no pair twice, neither does the exam. */
  lemma SampleNoRepeats(pairs: seq<Pair>, count: nat, rng: Rng)
    requires count <= |pairs| && IsRandint(rng)
    requires forall i, j | 0 <= i < j < |pairs| :: pairs[i] != pairs[j]
    ensures var exam := Sample(pairs, count, rng);
      forall i, j | 0 <= i < j < |exam| :: exam[i] != exam[j]
  {
    var indices := SampledIndices(|pairs|, count, rng);
    var exam := Sample(pairs, count, rng);
    forall i, j | 0 <= i < j < |exam| ensures exam[i] != exam[j] {
      var a, b := indices[i], indices[j];
      assert exam[i] == pairs[a] && exam[j] == pairs[b];
      assert a != b;
      if a < b {
        assert pairs[a] != pairs[b];
      } else {
        assert pairs[b] != pairs[a];
      }
    }
  }

  /**
   * What is unique is the indices, not the pairs: a bank that holds the same pair
   * twice gives, when both are drawn, an exam that asks it twice.
   */
  lemma RepeatedPairRepeats(rng: Rng)
    requires IsRandint(rng)
    ensures var exam := Sample([Pair("a", "b"), Pair("a", "b")], 2, rng);
      exam[0] == exam[1]
  {
    var exam := Sample([Pair("a", "b"), Pair("a", "b")], 2, rng);
    assert exam[0] in [Pair("a", "b"), Pair("a", "b")];
    assert exam[1] in [Pair("a", "b"), Pair("a", "b")];
  }

  /**
   * The invariant of the sampler's loop: the indices popped so far and the
   * pool are disjoint, hold no index twice, and together are a rearrangement
   * of `0..n-1`.
   */
  ghost predicate PoolSplit(drawn: seq<nat>, pool: seq<nat>, n: nat)
  {
    && multiset(drawn) + multiset(pool) == multiset(Range(n))
    && Distinct(drawn + pool)
    && (forall k | 0 <= k < |drawn| :: drawn[k] < n)
    && (forall k | 0 <= k < |pool| :: pool[k] < n)
  }

  /** The indices `list(range(n))` holds are those below n. */
  lemma InRange(n: nat, x: nat)
    requires x in multiset(Range(n))
    ensures x < n
  {
    assert x in Range(n);
  }

  /** The pool split holds after any number of draws from the full pool. */
  lemma PoolSplitAfter(n: nat, positions: seq<nat>)
    requires Fits(positions, n)
    ensures PoolSplit(Drawn(Range(n), positions), Left(Range(n), positions), n)
  {
    var pool := Range(n);
    DrawPermutation(pool, positions);
    assert Distinct(pool);
    DrawDistinct(pool, positions);
    var drawn, left := Drawn(pool, positions), Left(pool, positions);
    forall k | 0 <= k < |left| ensures left[k] < n {
      assert left[k] in multiset(left);
      InRange(n, left[k]);
    }
    forall k | 0 <= k < |drawn| ensures drawn[k] < n {
      assert drawn[k] in multiset(drawn);
      InRange(n, drawn[k]);
    }
  }

  /** A prefix of positions is drawn one step at a time. */
  lemma FitsPrefix(positions: seq<nat>, size: nat, i: nat)
    requires Fits(positions, size) && i <= |positions|
    ensures Fits(positions[..i], size)
  {
  }

  /** One more draw appends the index at the drawn position and pops it from what is left. */
  lemma {:induction false} DrawOneMore(pool: seq<nat>, positions: seq<nat>, p: nat)
    requires Fits(positions + [p], |pool|)
    ensures Fits(positions, |pool|) && p < |Left(pool, positions)|
    ensures Drawn(pool, positions + [p]) == Drawn(pool, positions) + [Left(pool, positions)[p]]
    ensures Left(pool, positions + [p]) == Pop(Left(pool, positions), p)
    decreases |positions|
  {
    FitsPrefix(positions + [p], |pool|, |positions|);
    assert (positions + [p])[..|positions|] == positions;
    if positions != [] {
      var q := positions[0];
      assert (positions + [p])[0] == q;
      assert (positions + [p])[1..] == positions[1..] + [p];
      DrawOneMore(Pop(pool, q), positions[1..], p);
    }
  }

  /** Every index is below n. */
  predicate Below(s: seq<nat>, n: nat)
  {
    forall k | 0 <= k < |s| :: s[k] < n
  }

  /** What one pass of the sampler's loop body establishes, from the state after i draws. */
  lemma SelectStep(n: nat, positions: seq<nat>, i: nat)
    requires i < |positions| && Fits(positions, n)
    ensures Fits(positions[..i], n) && Fits(positions[..i + 1], n)
    ensures positions[i] < |Left(Range(n), positions[..i])|
    ensures Drawn(Range(n), positions[..i + 1]) ==
      Drawn(Range(n), positions[..i]) + [Left(Range(n), positions[..i])[positions[i]]]
    ensures Left(Range(n), positions[..i + 1]) == Pop(Left(Range(n), positions[..i]), positions[i])
    ensures Below(Drawn(Range(n), positions[..i + 1]), n) && Below(Left(Range(n), positions[..i + 1]), n)
  {
    assert positions[..i + 1] == positions[..i] + [positions[i]];
    FitsPrefix(positions, n, i);
    FitsPrefix(positions, n, i + 1);
    DrawOneMore(Range(n), positions[..i], positions[i]);
    PoolSplitAfter(n, positions[..i + 1]);
  }

  /** The state of the sampler's loop after `i` draws at `positions`. */
  ghost predicate AfterDraws(pairs: seq<Pair>, positions: seq<nat>, i: nat, drawn: seq<nat>, pool: seq<nat>, selected: seq<Pair>)
  {
    && i <= |positions| && Fits(positions, |pairs|)
    && drawn == Drawn(Range(|pairs|), positions[..i])
    && pool == Left(Range(|pairs|), positions[..i])
    && Below(drawn, |pairs|) && Below(pool, |pairs|)
    && selected == Pick(pairs, drawn)
  }

  /** Before the first step nothing is drawn and the pool is every index. */
  lemma LoopStart(pairs: seq<Pair>, positions: seq<nat>)
    requires Fits(positions, |pairs|)
    ensures AfterDraws(pairs, positions, 0, [], Range(|pairs|), [])
  {
    assert positions[..0] == [];
  }

  /** One pass of the loop body, drawing position `p`, takes the state after `i` draws to the state after `i + 1`. */
  lemma LoopStep(pairs: seq<Pair>, positions: seq<nat>, i: nat, p: nat, drawn: seq<nat>, pool: seq<nat>, selected: seq<Pair>)
    requires AfterDraws(pairs, positions, i, drawn, pool, selected) && i < |positions| && p == positions[i]
    ensures p < |pool| && pool[p] < |pairs|
    ensures AfterDraws(pairs, positions, i + 1, drawn + [pool[p]], Pop(pool, p), selected + [pairs[pool[p]]])
  {
    SelectStep(|pairs|, positions, i);
    PickOneMore(pairs, drawn, pool[p]);
  }

  /** After `count` draws the selection is the sample. */
  lemma LoopEnd(pairs: seq<Pair>, count: nat, rng: Rng, drawn: seq<nat>, pool: seq<nat>, selected: seq<Pair>)
    requires count <= |pairs| && IsRandint(rng)
    requires AfterDraws(pairs, Positions(rng, |pairs|, count), count, drawn, pool, selected)
    ensures selected == Sample(pairs, count, rng)
  {
    var positions := Positions(rng, |pairs|, count);
    assert positions[..count] == positions;
    assert drawn == SampledIndices(|pairs|, count, rng);
  }

  /** `select_random_pairs`. The ghost `drawn` records the indices popped so far. */
  method SelectRandomPairs(pairs: seq<Pair>, count: nat, rng: Rng) returns (selected: seq<Pair>)
    requires count <= |pairs|
    requires IsRandint(rng)
    ensures selected == Sample(pairs, count, rng)
  {
    var n := |pairs|;
    ghost var positions := Positions(rng, n, count);
    selected := [];
    var availableIndices: seq<nat> := Range(n);
    ghost var drawn: seq<nat> := [];
    LoopStart(pairs, positions);
    for i := 0 to count
      invariant |availableIndices| == n - i
      invariant AfterDraws(pairs, positions, i, drawn, availableIndices, selected)
    {
      var maxPosition := |availableIndices| - 1;
      var randomPosition: nat := rng(i, maxPosition);
      PositionAt(rng, n, count, i);
      LoopStep(pairs, positions, i, randomPosition, drawn, availableIndices, selected);
      var pairIndex := availableIndices[randomPosition];
      availableIndices := Pop(availableIndices, randomPosition);
      drawn := drawn + [pairIndex];
      selected := selected + [pairs[pairIndex]];
    }
    LoopEnd(pairs, count, rng, drawn, availableIndices, selected);
  }

  /** Drawing at `positions` removes exactly the indices `target`. */
  ghost function PositionsOf(pool: seq<nat>, target: seq<nat>): (positions: seq<nat>)
    requires Distinct(pool) && Distinct(target)
    requires forall x | x in target :: x in pool
    ensures Fits(positions, |pool|) && Drawn(pool, positions) == target
    decreases |target|
  {
    if target == [] then []
    else
      assert target[0] in target;
      var p :| 0 <= p < |pool| && pool[p] == target[0];
      PopRest(pool, target, p);
      var tail := PositionsOf(Pop(pool, p), target[1..]);
      assert ([p] + tail)[0] == p && ([p] + tail)[1..] == tail;
      [p] + tail
  }

  /** Popping the first wanted index leaves a pool that still holds the rest of them. */
  lemma PopRest(pool: seq<nat>, target: seq<nat>, p: nat)
    requires Distinct(pool) && Distinct(target) && target != []
    requires forall x | x in target :: x in pool
    requires p < |pool| && pool[p] == target[0]
    ensures Distinct(Pop(pool, p)) && Distinct(target[1..])
    ensures forall x | x in target[1..] :: x in Pop(pool, p)
  {
    var rest := Pop(pool, p);
    PopDistinct(pool, p);
    PopAt(pool, p);
    forall x | x in target[1..] ensures x in rest {
      var j :| 0 <= j < |target[1..]| && target[1..][j] == x;
      assert target[j + 1] == x && x != target[0];
      assert x in target;
      var k :| 0 <= k < |pool| && pool[k] == x;
      assert rest[if k < p then k else k - 1] == x;
    }
    forall i, j | 0 <= i < j < |target[1..]| ensures target[1..][i] != target[1..][j] {
      assert target[1..][i] == target[i + 1] && target[1..][j] == target[j + 1];
    }
  }

  /**
   * Every draw order is reachable: for any sequence of distinct bank indices
   * there is a random source within the randint contract under which the
   * sampler removes exactly those indices, in that order.
   */
  lemma Reachable(n: nat, target: seq<nat>)
    requires Distinct(target)
    requires forall k | 0 <= k < |target| :: target[k] < n
    ensures exists rng: Rng :: IsRandint(rng) && |target| <= n && SampledIndices(n, |target|, rng) == target
  {
    var pool := Range(n);
    assert forall x | x in target :: x in pool by {
      forall x | x in target ensures x in pool { assert pool[x] == x; }
    }
    var positions := PositionsOf(pool, target);
    var rng := Replay(n, positions);
    assert SampledIndices(n, |target|, rng) == Drawn(Range(n), positions);
  }

  /** Any positions within the pool at each step are what some random source within randint's contract gives. */
  lemma Replay(n: nat, positions: seq<nat>) returns (rng: Rng)
    requires Fits(positions, n)
    ensures IsRandint(rng) && Positions(rng, n, |positions|) == positions
  {
    rng := (step: nat, hi: nat) => if step < |positions| && positions[step] <= hi then positions[step] else 0;
    forall k | 0 <= k < |positions| ensures Positions(rng, n, |positions|)[k] == positions[k] {
      PositionAt(rng, n, |positions|, k);
    }
  }

  /**
   * Every selection of distinct pairs of the bank, in any order, is an exam the
   * sampler can return.
   */
  lemma SampleReachable(pairs: seq<Pair>, indices: seq<nat>)
    requires Distinct(indices)
    requires forall k | 0 <= k < |indices| :: indices[k] < |pairs|
    ensures exists rng: Rng :: IsRandint(rng) && |indices| <= |pairs| && Sample(pairs, |indices|, rng) == Pick(pairs, indices)
  {
    Reachable(|pairs|, indices);
  }
}
