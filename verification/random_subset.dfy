/** `Proctor::randomSubset(n, r)`: draw `r` indices from `[0, n)` without
    replacement by a partial Fisher-Yates shuffle that swaps each pick out to
    the back of a shrinking bag. The process-global `rand()` is replaced by the
    sequence `rolls` of values it would return, so every proof covers every
    random outcome. */
module Sampling {

  /** No value occurs twice in `s`. */
  predicate Distinct(s: seq<int>) {
    forall i, j :: 0 <= i < j < |s| ==> s[i] != s[j]
  }

  /** Every value of `s` is an index in `[0, n)`. */
  predicate Within(s: seq<int>, n: int) {
    forall i :: 0 <= i < |s| ==> 0 <= s[i] < n
  }

  /** The sampler's loop invariant: the live bag and the values picked so far
      are duplicate-free, share no value, and together hold exactly `[0, n)`. */
  predicate Partition(bag: seq<int>, picked: seq<int>, n: int) {
    && Within(bag, n) && Within(picked, n)
    && Distinct(bag) && Distinct(picked)
    && (forall a, b :: 0 <= a < |bag| && 0 <= b < |picked| ==> bag[a] != picked[b])
    && (forall v :: 0 <= v < n ==> v in bag || v in picked)
  }

  /** One pick: moving `bag[pick]` to the picked values and the last live value
      into its slot keeps the partition. */
  lemma SwapToBack(bag: seq<int>, picked: seq<int>, pick: nat, n: int)
    requires pick < |bag|
    requires Partition(bag, picked, n)
    ensures Partition(bag[pick := bag[|bag| - 1]][..|bag| - 1], picked + [bag[pick]], n)
  {
    var last := |bag| - 1;
    var bag' := bag[pick := bag[last]][..last];
    var picked' := picked + [bag[pick]];
    assert forall a :: 0 <= a < last ==> bag'[a] == (if a == pick then bag[last] else bag[a]);
    forall v | 0 <= v < n
      ensures v in bag' || v in picked'
    {
      if v !in picked {
        var a :| 0 <= a < |bag| && bag[a] == v;
        if a == pick {
          assert picked'[|picked|] == v;
        } else if a == last {
          assert bag'[pick] == v;
        } else {
          assert bag'[a] == v;
        }
      } else {
        var b :| 0 <= b < |picked| && picked[b] == v;
        assert picked'[b] == v;
      }
    }
  }

  /** The indices `0 .. n - 1`, the bag's initial content. */
  function Iota(n: nat): (s: seq<int>)
    ensures |s| == n && forall i :: 0 <= i < n ==> s[i] == i
  {
    seq(n, i => i)
  }

  /** Reference definition of the draws: pick `bag[roll % |bag|]`, move the
      last live value into its slot, and continue on the shorter bag. */
  function Draw(bag: seq<int>, rolls: seq<nat>): (picked: seq<int>)
    requires |rolls| <= |bag|
    ensures |picked| == |rolls|
    decreases |rolls|
  {
    if |rolls| == 0 then []
    else
      var pick := rolls[0] % |bag|;
      [bag[pick]] + Draw(bag[pick := bag[|bag| - 1]][..|bag| - 1], rolls[1..])
  }

  /** One draw, seen from the outside: the first pick is appended to what
      was picked before and the rest is drawn from the shrunken bag. */
  lemma DrawStep(bag: seq<int>, rolls: seq<nat>, done: seq<int>)
    requires 0 < |rolls| <= |bag|
    ensures var pick := rolls[0] % |bag|;
      done + Draw(bag, rolls)
      == (done + [bag[pick]]) + Draw(bag[pick := bag[|bag| - 1]][..|bag| - 1], rolls[1..])
  {
  }

  /** One iteration of the sampler's loop keeps "picked so far, then the
      draws still to come from the live prefix" equal to the full draw. The
      source swaps inside the whole buffer; only the live prefix matters. */
  lemma LoopStep(bag: seq<int>, edge: nat, picked: seq<int>, rolls: seq<nat>, i: nat, target: seq<int>)
    requires 0 < edge <= |bag| && i < |rolls| && |rolls| - i <= edge
    requires picked + Draw(bag[..edge], rolls[i..]) == target
    ensures var pick := rolls[i] % edge;
      (picked + [bag[pick]]) + Draw(bag[pick := bag[edge - 1]][..edge - 1], rolls[i + 1..]) == target
  {
    var pick := rolls[i] % edge;
    var live := bag[..edge];
    DrawStep(live, rolls[i..], picked);
    assert rolls[i..][1..] == rolls[i + 1..];
    assert bag[pick := bag[edge - 1]][..edge - 1] == live[pick := live[edge - 1]][..edge - 1];
  }

  /** Drawing from a partitioned bag keeps every pick in range and distinct
      from all others; drawing the bag empty picks every index. */
  lemma {:induction false} DrawKeepsPartition(bag: seq<int>, picked: seq<int>, rolls: seq<nat>, n: int)
    requires |rolls| <= |bag|
    requires Partition(bag, picked, n)
    ensures Within(picked + Draw(bag, rolls), n)
    ensures Distinct(picked + Draw(bag, rolls))
    ensures |rolls| == |bag| ==> forall v :: 0 <= v < n ==> v in picked + Draw(bag, rolls)
    decreases |rolls|
  {
    if |rolls| == 0 {
      assert picked + Draw(bag, rolls) == picked;
    } else {
      var pick := rolls[0] % |bag|;
      var bag' := bag[pick := bag[|bag| - 1]][..|bag| - 1];
      SwapToBack(bag, picked, pick, n);
      DrawKeepsPartition(bag', picked + [bag[pick]], rolls[1..], n);
      DrawStep(bag, rolls, picked);
    }
  }

  /** The full bag `0 .. n - 1` with nothing picked is a partition. */
  lemma InitialPartition(n: nat)
    ensures Partition(Iota(n), [], n)
  {
    forall v | 0 <= v < n
      ensures v in Iota(n)
    {
      assert Iota(n)[v] == v;
    }
  }

  /** The reference draws from the full bag: `r` distinct indices in
      `[0, n)`, all of them when `r == n`. */
  lemma DrawIsSubset(n: nat, rolls: seq<nat>)
    requires |rolls| <= n
    ensures Within(Draw(Iota(n), rolls), n) && Distinct(Draw(Iota(n), rolls))
    ensures |rolls| == n ==> forall v :: 0 <= v < n ==> v in Draw(Iota(n), rolls)
  {
    InitialPartition(n);
    DrawKeepsPartition(Iota(n), [], rolls, n);
    assert [] + Draw(Iota(n), rolls) == Draw(Iota(n), rolls);
  }

  /** `rolls[i]` is the value `rand()` yields for the `i`-th pick; the pick is
      `rolls[i] % edge`. `r > n` would empty the bag and make the modulus zero,
      so the source's callers must keep `r <= n`. The two heap buffers of the
      source are modelled as sequence values: `bag` is the shuffled index
      buffer and `picked` the returned one. */
  method RandomSubset(n: nat, r: nat, rolls: seq<nat>) returns (subset: seq<int>)
    requires r <= n
    requires |rolls| == r
    ensures |subset| == r
    ensures Within(subset, n)
    ensures Distinct(subset)
    ensures r == n ==> forall v :: 0 <= v < n ==> v in subset
    ensures subset == Draw(Iota(n), rolls)
  {
    var bag := Iota(n);
    var picked: seq<int> := [];
    var edge := n;
    var i := 0;
    ghost var target := Draw(bag, rolls);
    assert rolls[0..] == rolls;
    assert bag[..edge] == bag;
    while i < r
      invariant 0 <= i <= r && edge == n - i && |bag| == n && |picked| == i
      invariant picked + Draw(bag[..edge], rolls[i..]) == target
    {
      var pick := rolls[i] % edge;
      LoopStep(bag, edge, picked, rolls, i, target);
      picked := picked + [bag[pick]];
      edge := edge - 1;
      bag := bag[pick := bag[edge]];
      i := i + 1;
    }
    assert rolls[r..] == [];
    assert picked + Draw(bag[..edge], rolls[r..]) == picked;
    subset := picked;
    DrawIsSubset(n, rolls);
  }
}
