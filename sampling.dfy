/** The rejection-sampling draw of the colour-fill animation (`rand() % range`
    repeated until it yields an index not yet recorded), and the facts about
    sets of indices that decide whether such a draw can ever succeed.

    `rand()` is an oracle: a finite sequence of the values it returns, in order.
    A draw that runs through the whole sequence without success is `Starved`:
    the model then cannot say how the loop goes on. */
module Sampling {

  /** The outcome of one rejection-sampling draw: the index found and how many
      values of `rand()` it consumed, or `Starved` when the supply ran out first. */
  datatype Outcome = Hit(index: int, consumed: nat) | Starved

  /** The set {0, ..., n - 1}. */
  function FullRange(n: nat): (r: set<int>)
    ensures forall i :: i in r <==> 0 <= i < n
  {
    if n == 0 then {} else FullRange(n - 1) + {n - 1}
  }

  lemma {:induction false} RangeCard(n: nat)
    ensures |FullRange(n)| == n
  {
    if n > 0 {
      RangeCard(n - 1);
    }
  }

  /** A set of indices below n has at most n elements. */
  lemma {:induction false} SubsetOfRangeBound(taken: set<int>, n: nat)
    requires forall i :: i in taken ==> 0 <= i < n
    ensures |taken| <= n
  {
    if n == 0 {
      assert taken == {} by {
        forall i | i in taken ensures false { }
      }
    } else {
      SubsetOfRangeBound(taken - {n - 1}, n - 1);
    }
  }

  /** A set of indices below n with (at least) n elements is all of them. */
  lemma {:induction false} FullSubsetIsRange(taken: set<int>, n: nat)
    requires forall i :: i in taken ==> 0 <= i < n
    requires |taken| >= n
    ensures taken == FullRange(n)
  {
    if n == 0 {
      assert taken == {} by {
        forall i | i in taken ensures false { }
      }
    } else if n - 1 in taken {
      var rest := taken - {n - 1};
      FullSubsetIsRange(rest, n - 1);
      assert taken == rest + {n - 1};
    } else {
      SubsetOfRangeBound(taken, n - 1);
    }
  }

  /** A set of indices below n with fewer than n elements misses one of them. */
  lemma {:induction false} MissingIndex(taken: set<int>, n: nat) returns (v: int)
    requires forall i :: i in taken ==> 0 <= i < n
    requires |taken| < n
    ensures 0 <= v < n && v !in taken
  {
    if forall i :: 0 <= i < n ==> i in taken {
      assert taken == FullRange(n);
      RangeCard(n);
      assert false;
    }
    v :| 0 <= v < n && v !in taken;
  }

  /** The rejection loop started at position n of the draws: the first draw
      from position n on whose residue is not yet taken. */
  function Redraw(taken: set<int>, draws: seq<nat>, range: nat, n: nat): (s: Outcome)
    requires 0 < range && n <= |draws|
    ensures s.Hit? ==> n < s.consumed <= |draws| && s.index == draws[s.consumed - 1] % range
    ensures s.Hit? ==> s.index !in taken
    ensures s.Hit? ==> forall k :: n <= k < s.consumed - 1 ==> draws[k] % range in taken
    ensures s.Starved? ==> forall k :: n <= k < |draws| ==> draws[k] % range in taken
    decreases |draws| - n
  {
    if n == |draws| then Starved
    else if draws[n] % range !in taken then Hit(draws[n] % range, n + 1)
    else Redraw(taken, draws, range, n + 1)
  }

  /** One draw as the source performs it: a first value of `rand()` whose
      residue is overwritten unused, then the rejection loop. */
  function Sample(taken: set<int>, draws: seq<nat>, range: nat): (s: Outcome)
    requires 0 < range
    ensures s.Hit? ==> 2 <= s.consumed <= |draws| && s.index == draws[s.consumed - 1] % range
    ensures s.Hit? ==> 0 <= s.index < range && s.index !in taken
    ensures s.Hit? ==> forall k :: 1 <= k < s.consumed - 1 ==> draws[k] % range in taken
    ensures s.Starved? ==> forall k :: 1 <= k < |draws| ==> draws[k] % range in taken
  {
    if draws == [] then Starved else Redraw(taken, draws, range, 1)
  }

  /** The rejection loop itself, consuming the values of `rand()` one by one. */
  method RejectionSample(taken: set<int>, draws: seq<nat>, range: nat) returns (s: Outcome)
    requires 0 < range
    ensures s == Sample(taken, draws, range)
  {
    if |draws| == 0 {
      return Starved;
    }
    var i := draws[0] % range;
    var n := 1;
    while true
      invariant 1 <= n <= |draws|
      invariant Redraw(taken, draws, range, n) == Sample(taken, draws, range)
      decreases |draws| - n
    {
      if n == |draws| {
        return Starved;
      }
      i := draws[n] % range;
      n := n + 1;
      if i !in taken {
        break;
      }
    }
    return Hit(i, n);
  }

  /** When some residue is still free, a draw can exit: a supply whose second
      value is that residue makes the loop stop after two values. */
  lemma {:induction false} FreeResidueCanBeDrawn(taken: set<int>, range: nat)
    requires 0 < range
    requires forall i :: i in taken ==> 0 <= i < range
    requires |taken| < range
    ensures exists v :: 0 <= v < range && v !in taken && Sample(taken, [v, v], range) == Hit(v, 2)
  {
    var v := MissingIndex(taken, range);
    var draws := [v, v];
    assert draws[1] % range == v;
    assert Redraw(taken, draws, range, 1) == Hit(v, 2);
  }
}
