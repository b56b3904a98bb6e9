/** `selectRandom` (index.js:32-48): draw `n` elements of `arr` without replacement by a partial
    Fisher-Yates shuffle that never moves the elements of `arr`. A sparse map `taken` records,
    for each slot that has been drawn, which position of `arr` the slot now stands for.

    `Math.random()` is a parameter: `draws[j]` is the index `Math.floor(Math.random() * len)`
    of iteration `j`, so it lies in `[0, len)` with `len == |arr| - j` (index.js:42). */
module Sampler {
  import opened Wrappers
  import opened Failures

  predicate Distinct<T(==)>(s: seq<T>)
  {
    forall i, j :: 0 <= i < j < |s| ==> s[i] != s[j]
  }

  /** The first `n` random indices fit the shrinking range of index.js:42. */
  predicate DrawsFit(draws: seq<nat>, len: nat, n: nat)
  {
    |draws| >= n && forall j :: 0 <= j < n ==> draws[j] < len - j
  }

  function Iota(len: nat): seq<nat>
  {
    seq(len, i requires 0 <= i < len => i)
  }

  lemma IotaMembers(len: nat)
    ensures Distinct(Iota(len)) && forall q: nat :: q in Iota(len) <==> q < len
  {
    forall q: nat | q < len
      ensures q in Iota(len)
    {
      assert Iota(len)[q] == q;
    }
  }

  /** The position the slot `i` stands for: `i in taken ? taken[i] : i` (index.js:43-44). */
  function Lookup(taken: map<nat, nat>, i: nat): nat
  {
    if i in taken then taken[i] else i
  }

  /** The slots left after slot `idx` is drawn: the last slot's position moves into slot `idx`
      and the range shrinks by one. */
  function Remaining(pool: seq<nat>, idx: nat): seq<nat>
    requires idx < |pool|
  {
    pool[idx := pool[|pool| - 1]][..|pool| - 1]
  }

  /** Drawing from a pool of distinct positions removes exactly the drawn position. */
  lemma RemainingMembers(pool: seq<nat>, idx: nat)
    requires idx < |pool| && Distinct(pool)
    ensures Distinct(Remaining(pool, idx))
    ensures forall q :: q in Remaining(pool, idx) <==> q in pool && q != pool[idx]
  {
    var last := |pool| - 1;
    var rest := Remaining(pool, idx);
    forall q | q in pool && q != pool[idx]
      ensures q in rest
    {
      var j :| 0 <= j < |pool| && pool[j] == q;
      if j < last {
        assert rest[j] == q;
      } else {
        assert rest[idx] == q;
      }
    }
  }

  /** One iteration of index.js:42-44 keeps each remaining slot standing for its position. */
  lemma TakenStep(taken: map<nat, nat>, pool: seq<nat>, idx: nat)
    requires idx < |pool| && forall i :: 0 <= i < |pool| ==> Lookup(taken, i) == pool[i]
    ensures var len := |pool| - 1;
      forall i :: 0 <= i < len ==> Lookup(taken[idx := Lookup(taken, len)], i) == Remaining(pool, idx)[i]
  {
  }

  /** One iteration keeps the slots standing for distinct positions not drawn yet, and the
      drawn positions distinct. */
  lemma ImageStep(pool: seq<nat>, picked: seq<nat>, idx: nat, size: nat)
    requires idx < |pool| && Distinct(pool) && Distinct(picked)
    requires forall i :: 0 <= i < |pool| ==> pool[i] < size && pool[i] !in picked
    ensures Distinct(Remaining(pool, idx)) && Distinct([pool[idx]] + picked)
    ensures forall i :: 0 <= i < |pool| - 1 ==>
      Remaining(pool, idx)[i] < size && Remaining(pool, idx)[i] !in [pool[idx]] + picked
  {
    RemainingMembers(pool, idx);
    var rest := Remaining(pool, idx);
    forall i | 0 <= i < |pool| - 1
      ensures rest[i] < size && rest[i] !in [pool[idx]] + picked
    {
      assert rest[i] in rest;
    }
  }

  /** The positions drawn with `draws` from the slots `pool`; the first draw is the LAST element,
      as `result` is filled from the back (index.js:41-43). */
  function Picks(pool: seq<nat>, draws: seq<nat>, n: nat): (r: seq<nat>)
    requires n <= |pool| && DrawsFit(draws, |pool|, n)
    ensures |r| == n
    decreases n
  {
    if n == 0 then []
    else
      var idx := draws[0];
      Picks(Remaining(pool, idx), draws[1..], n - 1) + [pool[idx]]
  }

  /** One draw: the first index picks the last element and shrinks the pool. */
  lemma PicksStep(pool: seq<nat>, draws: seq<nat>, n: nat)
    requires 0 < n <= |pool| && DrawsFit(draws, |pool|, n)
    ensures DrawsFit(draws[1..], |pool| - 1, n - 1)
    ensures Picks(pool, draws, n) == Picks(Remaining(pool, draws[0]), draws[1..], n - 1) + [pool[draws[0]]]
  {
  }

  /** Sampling without replacement: every drawn position comes from the pool, and no slot
      position is drawn twice. */
  lemma {:induction false} PicksDistinct(pool: seq<nat>, draws: seq<nat>, n: nat)
    requires n <= |pool| && DrawsFit(draws, |pool|, n) && Distinct(pool)
    ensures Distinct(Picks(pool, draws, n))
    ensures forall q :: q in Picks(pool, draws, n) ==> q in pool
    decreases n
  {
    if n > 0 {
      var idx := draws[0];
      var rest := Remaining(pool, idx);
      RemainingMembers(pool, idx);
      PicksDistinct(rest, draws[1..], n - 1);
      var earlier := Picks(rest, draws[1..], n - 1);
      assert pool[idx] !in earlier;
      assert Picks(pool, draws, n) == earlier + [pool[idx]];
    }
  }

  /** The positions of `arr` that selectRandom reads, in the order it stores them. */
  function DrawnPositions(len: nat, n: nat, draws: seq<nat>): (ps: seq<nat>)
    requires n <= len && DrawsFit(draws, len, n)
    ensures |ps| == n && Distinct(ps)
    ensures forall k :: 0 <= k < n ==> ps[k] < len
  {
    IotaMembers(len);
    PicksDistinct(Iota(len), draws, n);
    var ps := Picks(Iota(len), draws, n);
    assert forall k :: 0 <= k < n ==> ps[k] in ps;
    ps
  }

  /** What selectRandom returns or throws. */
  function Sample<T>(arr: seq<T>, n: nat, draws: seq<nat>): (r: Result<seq<T>, Failure>)
    requires n <= |arr| ==> DrawsFit(draws, |arr|, n)
    ensures r.Err? <==> n > |arr|
    ensures r.Err? ==> r.error == CannotSelect(n, |arr|)
    ensures r.Ok? ==> |r.value| == n && forall k :: 0 <= k < n ==> r.value[k] in arr
  {
    if n > |arr| then Err(CannotSelect(n, |arr|))
    else
      var ps := DrawnPositions(|arr|, n, draws);
      Ok(seq(n, k requires 0 <= k < n => arr[ps[k]]))
  }

  /** Each element of the sample comes from its own position of `arr`; so when the elements of
      `arr` are distinct, so are those of the sample. */
  lemma SampleOfDistinct<T>(arr: seq<T>, n: nat, draws: seq<nat>)
    requires n <= |arr| && DrawsFit(draws, |arr|, n)
    ensures var ps := DrawnPositions(|arr|, n, draws);
      forall k :: 0 <= k < n ==> Sample(arr, n, draws).value[k] == arr[ps[k]]
    ensures Distinct(arr) ==> Distinct(Sample(arr, n, draws).value)
  {
    var ps := DrawnPositions(|arr|, n, draws);
    var s := Sample(arr, n, draws).value;
    if Distinct(arr) {
      forall i, j | 0 <= i < j < n
        ensures s[i] != s[j]
      {
        assert ps[i] != ps[j];
      }
    }
  }

  /** The state of selectRandom's loop (index.js:41-45) with `k` draws to go: slot `i < len`
      stands for position `pool[i]`, the slots stand for distinct positions not drawn yet (there
      are |arr| - |picked| of them, so they are exactly the undrawn positions), no position has
      been drawn twice, and `filled` holds the elements at the drawn positions from index `k` on. */
  ghost predicate Drawing<T>(arr: seq<T>, n: nat, target: seq<nat>, k: nat, len: nat, rest: seq<nat>,
                             taken: map<nat, nat>, pool: seq<nat>, picked: seq<nat>, filled: seq<T>)
  {
    && k <= n <= |arr| && len == |arr| - (n - k) && |pool| == len && |picked| == n - k && |filled| == n
    && DrawsFit(rest, len, k)
    && (forall i :: 0 <= i < len ==> Lookup(taken, i) == pool[i])
    && Distinct(pool) && (forall i :: 0 <= i < len ==> pool[i] < |arr| && pool[i] !in picked)
    && Distinct(picked) && (forall i :: 0 <= i < |picked| ==> picked[i] < |arr|)
    && target == Picks(pool, rest, k) + picked
    && (forall t :: k <= t < n ==> filled[t] == arr[picked[t - k]])
  }

  /** Before the first iteration every slot stands for itself and nothing is drawn. */
  lemma DrawingStart<T>(arr: seq<T>, n: nat, draws: seq<nat>, filled: seq<T>)
    requires n <= |arr| && DrawsFit(draws, |arr|, n) && |filled| == n
    ensures Drawing(arr, n, Picks(Iota(|arr|), draws, n), n, |arr|, draws, map[], Iota(|arr|), [], filled)
  {
    IotaMembers(|arr|);
    assert Picks(Iota(|arr|), draws, n) + [] == Picks(Iota(|arr|), draws, n);
  }

  /** One iteration of index.js:42-44 keeps the loop state. */
  lemma DrawingStep<T>(arr: seq<T>, n: nat, target: seq<nat>, k: nat, len: nat, rest: seq<nat>,
                       taken: map<nat, nat>, pool: seq<nat>, picked: seq<nat>, filled: seq<T>)
    requires Drawing(arr, n, target, k, len, rest, taken, pool, picked, filled) && k > 0
    ensures rest[0] < len && Lookup(taken, rest[0]) < |arr|
    ensures Drawing(arr, n, target, k - 1, len - 1, rest[1..], taken[rest[0] := Lookup(taken, len - 1)],
                    Remaining(pool, rest[0]), [pool[rest[0]]] + picked,
                    filled[k - 1 := arr[Lookup(taken, rest[0])]])
  {
    var idx := rest[0];
    TakenStep(taken, pool, idx);
    ImageStep(pool, picked, idx, |arr|);
    PicksStep(pool, rest, k);
  }

  /** selectRandom (index.js:32-48), with the sparse swap map `taken`. `arr` is only read. */
  method SelectRandom<T(0)>(arr: seq<T>, n: nat, draws: seq<nat>) returns (r: Result<seq<T>, Failure>)
    requires n <= |arr| ==> DrawsFit(draws, |arr|, n)
    ensures r == Sample(arr, n, draws)
  {
    var len: nat := |arr|;
    if n > len {
      return Err(CannotSelect(n, |arr|));
    }
    var result := new T[n];
    var taken: map<nat, nat> := map[];
    var rest := draws;
    var k := n;
    ghost var pool := Iota(len);
    ghost var picked: seq<nat> := [];
    ghost var target := Picks(pool, draws, n);
    DrawingStart(arr, n, draws, result[..]);
    while k > 0
      invariant Drawing(arr, n, target, k, len, rest, taken, pool, picked, result[..])
    {
      DrawingStep(arr, n, target, k, len, rest, taken, pool, picked, result[..]);
      ghost var filled := result[..];
      k := k - 1;
      var idx := rest[0];
      rest := rest[1..];
      result[k] := arr[Lookup(taken, idx)];
      assert result[..] == filled[k := arr[Lookup(taken, idx)]];
      len := len - 1;
      taken := taken[idx := Lookup(taken, len)];
      picked := [pool[idx]] + picked;
      pool := Remaining(pool, idx);
    }
    assert picked == target == DrawnPositions(|arr|, n, draws);
    assert result[..] == Sample(arr, n, draws).value;
    r := Ok(result[..]);
  }
}
