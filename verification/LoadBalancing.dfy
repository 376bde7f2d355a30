/** Round robin, plain and weighted: one counter per service, kept in a table under the address of the
    first instance of the list. */
module LoadBalancing {
  import opened Wrappers

  datatype Instance = Instance(address: string, weight: int)

  datatype NextError = NoInstances

  function Total(instances: seq<Instance>): int {
    if instances == [] then 0 else instances[0].weight + Total(instances[1..])
  }

  // ---- Weighted ---------------------------------------------------------------------------

  /** The place of the instance chosen for a counter: walk the list, taking weights off the counter. */
  function Pick(instances: seq<Instance>, current: int): (r: Option<nat>)
    ensures r.Some? ==> r.value < |instances|
  {
    if instances == [] then None
    else if current < instances[0].weight then Some(0)
    else
      match Pick(instances[1..], current - instances[0].weight)
      case None => None
      case Some(i) => Some(i + 1)
  }

  /** The counter a call uses: back to zero once it has reached the total weight. */
  function Wrapped(instances: seq<Instance>, counter: nat): nat {
    if counter >= Total(instances) then 0 else counter
  }

  /** The places chosen by n calls in a row with the same list. */
  function Picks(instances: seq<Instance>, counter: nat, n: nat): seq<Option<nat>>
    decreases n
  {
    if n == 0 then []
    else
      var c := Wrapped(instances, counter);
      [Pick(instances, c)] + Picks(instances, c + 1, n - 1)
  }

  predicate Weighty(instances: seq<Instance>) {
    forall i :: 0 <= i < |instances| ==> instances[i].weight >= 0
  }

  /** Nothing is chosen exactly when no stretch of the list from its start outweighs the counter. */
  lemma {:induction false} PickIsNoneExactly(instances: seq<Instance>, current: int)
    ensures Pick(instances, current).None? <==> forall n :: 0 < n <= |instances| ==> Total(instances[..n]) <= current
  {
    if instances != [] {
      var head, rest := instances[0].weight, instances[1..];
      PickIsNoneExactly(rest, current - head);
      forall n | 0 < n <= |instances|
        ensures Total(instances[..n]) == head + Total(rest[..n - 1])
      {
        assert instances[..n][1..] == rest[..n - 1];
      }
      assert Total(rest[..0]) == 0;
      if Pick(instances, current).None? {
        forall n | 0 < n <= |instances|
          ensures Total(instances[..n]) <= current
        {
          assert n > 1 ==> Total(rest[..n - 1]) <= current - head;
        }
      }
      if forall n :: 0 < n <= |instances| ==> Total(instances[..n]) <= current {
        assert Total(instances[..1]) <= current;
        forall n | 0 < n <= |rest|
          ensures Total(rest[..n]) <= current - head
        {
          assert Total(instances[..n + 1]) <= current;
        }
      }
    }
  }

  /** Chosen is the first place at which the weights so far outweigh the counter. */
  lemma {:induction false} PickIsFirst(instances: seq<Instance>, current: int)
    ensures var r := Pick(instances, current);
            r.Some? ==>
              && Total(instances[..r.value + 1]) > current
              && forall n :: 0 < n <= r.value ==> Total(instances[..n]) <= current
  {
    var r := Pick(instances, current);
    if r.Some? {
      forall n | 0 < n <= |instances|
        ensures Total(instances[..n]) == instances[0].weight + Total(instances[1..][..n - 1])
      {
        assert instances[..n][1..] == instances[1..][..n - 1];
      }
      assert Total(instances[1..][..0]) == 0;
      if r.value > 0 {
        PickIsFirst(instances[1..], current - instances[0].weight);
      }
    }
  }

  /** Whatever the weights, even negative ones, and whatever list moved the counter before: with a
      positive total some instance is chosen. */
  lemma PositiveTotalPicks(instances: seq<Instance>, counter: nat)
    requires Total(instances) > 0
    ensures Pick(instances, Wrapped(instances, counter)).Some?
  {
    var c := Wrapped(instances, counter);
    PickIsNoneExactly(instances, c);
    assert instances[..|instances|] == instances;
  }

  /** How many counters from lo up to hi choose place i. */
  function Share(instances: seq<Instance>, i: nat, lo: int, hi: int): nat
    decreases hi - lo
  {
    if lo >= hi then 0
    else (if Pick(instances, lo) == Some(i) then 1 else 0) + Share(instances, i, lo + 1, hi)
  }

  lemma {:induction false} ShareSplit(instances: seq<Instance>, i: nat, lo: int, mid: int, hi: int)
    requires lo <= mid <= hi
    ensures Share(instances, i, lo, hi) == Share(instances, i, lo, mid) + Share(instances, i, mid, hi)
    decreases mid - lo
  {
    if lo < mid {
      ShareSplit(instances, i, lo + 1, mid, hi);
    }
  }

  lemma {:induction false} ShareShift(instances: seq<Instance>, i: nat, lo: int, hi: int)
    requires instances != [] && lo >= instances[0].weight
    ensures Share(instances, i, lo, hi)
            == if i == 0 then 0 else Share(instances[1..], i - 1, lo - instances[0].weight, hi - instances[0].weight)
    decreases hi - lo
  {
    if lo < hi {
      ShareShift(instances, i, lo + 1, hi);
    }
  }

  lemma {:induction false} ShareOfFirst(instances: seq<Instance>, i: nat, lo: int, hi: int)
    requires instances != [] && hi <= instances[0].weight
    ensures Share(instances, i, lo, hi) == if i == 0 && lo < hi then hi - lo else 0
    decreases hi - lo
  {
    if lo < hi {
      ShareOfFirst(instances, i, lo + 1, hi);
    }
  }

  /** Among the counters from zero up to the total weight, each place is chosen exactly its weight many
      times. */
  lemma {:induction false} ShareIsWeight(instances: seq<Instance>, i: nat)
    requires Weighty(instances) && i < |instances|
    ensures Share(instances, i, 0, Total(instances)) == instances[i].weight
  {
    var w, rest := instances[0].weight, instances[1..];
    assert forall k :: 0 <= k < |rest| ==> rest[k] == instances[k + 1];
    TotalNotNegative(rest);
    ShareSplit(instances, i, 0, w, Total(instances));
    ShareOfFirst(instances, i, 0, w);
    ShareShift(instances, i, w, Total(instances));
    if i > 0 {
      ShareIsWeight(rest, i - 1);
    }
  }

  lemma {:induction false} TotalNotNegative(instances: seq<Instance>)
    requires Weighty(instances)
    ensures Total(instances) >= 0
  {
    if instances != [] {
      assert forall k :: 0 <= k < |instances[1..]| ==> instances[1..][k] == instances[k + 1];
      TotalNotNegative(instances[1..]);
    }
  }

  function Times(picks: seq<Option<nat>>, i: nat): nat {
    if picks == [] then 0 else (if picks[0] == Some(i) then 1 else 0) + Times(picks[1..], i)
  }

  /** Calls that do not wrap walk the counters one after the other. */
  lemma {:induction false} StraightRun(instances: seq<Instance>, i: nat, c: nat, n: nat, more: nat)
    requires c + n <= Total(instances)
    ensures Times(Picks(instances, c, n + more), i)
            == Share(instances, i, c, c + n) + Times(Picks(instances, c + n, more), i)
    decreases n
  {
    if n > 0 {
      StraightRun(instances, i, c + 1, n - 1, more);
      assert Picks(instances, c, n + more)[1..] == Picks(instances, c + 1, n - 1 + more);
    }
  }

  /** The exact share: in as many consecutive calls as the total weight, wherever the counter stands,
      each instance is chosen exactly its weight many times. */
  lemma ExactShare(instances: seq<Instance>, counter: nat, i: nat)
    requires Weighty(instances) && Total(instances) > 0 && i < |instances|
    ensures Times(Picks(instances, counter, Total(instances)), i) == instances[i].weight
  {
    var w, c := Total(instances), Wrapped(instances, counter);
    PicksWrapped(instances, counter, w);
    StraightRun(instances, i, c, w - c, c);
    PicksWrapped(instances, w, c);
    StraightRun(instances, i, 0, c, 0);
    ShareSplit(instances, i, 0, c, w);
    ShareIsWeight(instances, i);
  }

  /** A number is within the share of the round that belongs to a place, the shares laid end to end in the order of
      the list. */
  predicate InShare(instances: seq<Instance>, place: Option<nat>, at: int) {
    && place.Some? && place.value < |instances|
    && Total(instances[..place.value]) <= at < Total(instances[..place.value + 1])
  }

  lemma PickIsInShare(instances: seq<Instance>, counter: nat)
    requires Weighty(instances) && Total(instances) > 0
    ensures InShare(instances, Pick(instances, Wrapped(instances, counter)), Wrapped(instances, counter))
  {
    PositiveTotalPicks(instances, counter);
    PickIsFirst(instances, Wrapped(instances, counter));
    assert Total(instances[..0]) == 0;
  }

  /** The k-th of some calls in a row: the one whose share of the round holds the k-th number from the counter on,
      round after round; a counter past the round starts again. */
  lemma {:induction false} CallsGoRound(instances: seq<Instance>, counter: nat, n: nat, k: nat)
    requires Weighty(instances) && Total(instances) > 0 && k < n
    ensures var start := if counter >= Total(instances) then 0 else counter;
            && |Picks(instances, counter, n)| == n
            && InShare(instances, Picks(instances, counter, n)[k], (start + k) % Total(instances))
    decreases n
  {
    hide Pick, Weighty, Total, InShare;
    var w, c := Total(instances), Wrapped(instances, counter);
    PicksLength(instances, c + 1, n - 1);
    if k == 0 {
      PickIsInShare(instances, counter);
      ModUnique(0, c, w);
    } else {
      CallsGoRound(instances, c + 1, n - 1, k - 1);
      AroundOnce(c, k, w);
    }
  }

  /** The number after the last of a round is its first. */
  lemma AroundOnce(c: nat, k: nat, w: nat)
    requires c < w && k > 0
    ensures ((if c + 1 >= w then 0 else c + 1) + (k - 1)) % w == (c + k) % w
  {
    if c + 1 >= w {
      ModShift(k - 1, w);
    }
  }

  lemma ModShift(x: nat, w: nat)
    requires w > 0
    ensures (w + x) % w == x % w
  {
    assert w + x == w * (x / w + 1) + x % w;
    ModUnique(x / w + 1, x % w, w);
  }

  lemma ModOfSum(x: nat, y: nat, w: nat)
    requires w > 0
    ensures (x % w + y) % w == (x + y) % w
  {
    var z := x % w + y;
    var q := x / w + z / w;
    assert x + y == w * (x / w) + z && z == w * (z / w) + z % w;
    Distributes(w, x / w, z / w);
    assert x + y == w * q + z % w;
    ModUnique(q, z % w, w);
  }

  lemma Distributes(w: nat, a: nat, b: nat)
    ensures w * (a + b) == w * a + w * b
  {
  }

  lemma {:induction false} PicksLength(instances: seq<Instance>, counter: nat, n: nat)
    ensures |Picks(instances, counter, n)| == n
    decreases n
  {
    if n > 0 {
      PicksLength(instances, Wrapped(instances, counter) + 1, n - 1);
    }
  }

  lemma PicksWrapped(instances: seq<Instance>, counter: nat, n: nat)
    requires Total(instances) > 0
    ensures Picks(instances, counter, n) == Picks(instances, Wrapped(instances, counter), n)
  {
  }

  // ---- Round robin ------------------------------------------------------------------------

  /** The places chosen by n calls of the plain strategy in a row. */
  function Turns(length: nat, index: nat, n: nat): (r: seq<nat>)
    requires length > 0
    ensures |r| == n
    decreases n
  {
    if n == 0 then [] else [index % length] + Turns(length, (index + 1) % length, n - 1)
  }

  lemma ModUnique(q: nat, r: nat, length: nat)
    requires r < length
    ensures (length * q + r) % length == r
  {
    var z := length * q + r;
    var q1, r1 := z / length, z % length;
    assert z == length * q1 + r1;
    assert length * (q - q1) == r1 - r;
    if q > q1 {
      AtLeastOnce(length, q - q1);
    } else if q < q1 {
      AtLeastOnce(length, q1 - q);
    }
  }

  lemma {:induction false} AtLeastOnce(length: nat, times: nat)
    requires times > 0
    ensures length * times >= length
  {
  }

  /** The next turn is one further, or the first again after the last. */
  lemma NextTurn(index: nat, length: nat)
    requires length > 0
    ensures (index + 1) % length == if index % length + 1 == length then 0 else index % length + 1
  {
    var q, r := index / length, index % length;
    assert index == length * q + r;
    if r + 1 == length {
      assert index + 1 == length * (q + 1) + 0;
      ModUnique(q + 1, 0, length);
    } else {
      ModUnique(q, r + 1, length);
    }
  }

  /** With unit weights the weighted strategy is the plain one: with counters that agree, the two choose
      alike from then on. */
  lemma {:induction false} UnitWeightsGoRound(instances: seq<Instance>, counter: nat, index: nat, n: nat)
    requires instances != [] && forall i :: 0 <= i < |instances| ==> instances[i].weight == 1
    requires Wrapped(instances, counter) == index % |instances|
    ensures Picks(instances, counter, n) == Chosen(Turns(|instances|, index, n))
    decreases n
  {
    if n > 0 {
      hide Pick, Wrapped;
      UnitStep(instances, counter, index);
      UnitWeightsGoRound(instances, Wrapped(instances, counter) + 1, (index + 1) % |instances|, n - 1);
    }
  }

  lemma UnitStep(instances: seq<Instance>, counter: nat, index: nat)
    requires instances != [] && forall i :: 0 <= i < |instances| ==> instances[i].weight == 1
    requires Wrapped(instances, counter) == index % |instances|
    ensures Pick(instances, Wrapped(instances, counter)) == Some(index % |instances|)
    ensures var next := (index + 1) % |instances|; Wrapped(instances, Wrapped(instances, counter) + 1) == next % |instances|
  {
    hide Pick;
    UnitTotal(instances);
    UnitPick(instances, index % |instances|);
    NextTurn(index, |instances|);
    ModUnique(0, (index + 1) % |instances|, |instances|);
  }

  function Chosen(turns: seq<nat>): (r: seq<Option<nat>>)
    ensures |r| == |turns|
  {
    if turns == [] then [] else [Some(turns[0])] + Chosen(turns[1..])
  }

  /** In as many calls in a row as there are instances, plain round robin chooses every one once. */
  lemma EachOnce(instances: seq<Instance>, index: nat, i: nat)
    requires i < |instances|
    ensures Times(Chosen(Turns(|instances|, index, |instances|)), i) == 1
  {
    var units := seq(|instances|, k => Instance("", 1));
    UnitTotal(units);
    var c := index % |instances|;
    UnitWeightsGoRound(units, c, index, |instances|);
    ExactShare(units, c, i);
  }

  lemma {:induction false} UnitTotal(instances: seq<Instance>)
    requires forall i :: 0 <= i < |instances| ==> instances[i].weight == 1
    ensures Total(instances) == |instances|
  {
    if instances != [] {
      UnitTotal(instances[1..]);
    }
  }

  lemma {:induction false} UnitPick(instances: seq<Instance>, c: nat)
    requires forall i :: 0 <= i < |instances| ==> instances[i].weight == 1
    requires c < |instances|
    ensures Pick(instances, c) == Some(c)
  {
    if c > 0 {
      UnitPick(instances[1..], c - 1);
    }
  }

  // ---- The strategies ---------------------------------------------------------------------

  function CounterOf(counters: map<string, nat>, key: string): nat {
    if key in counters then counters[key] else 0
  }

  class WeightedRoundRobinStrategy {
    var currentWeights: map<string, nat>

    constructor ()
      ensures currentWeights == map[]
    {
      currentWeights := map[];
    }

    method Next(instances: seq<Instance>) returns (r: Result<Option<nat>, NextError>)
      modifies this
      ensures instances == [] ==> r == Err(NoInstances) && currentWeights == old(currentWeights)
      ensures instances != [] ==>
                var key := instances[0].address;
                var c := Wrapped(instances, CounterOf(old(currentWeights), key));
                && r == Ok(Pick(instances, c))
                && currentWeights == old(currentWeights)[key := c + 1]
    {
      if |instances| == 0 {
        return Err(NoInstances);
      }
      var key := instances[0].address;
      var totalWeight := 0;
      for i := 0 to |instances|
        invariant totalWeight + Total(instances[i..]) == Total(instances)
      {
        assert instances[i..][1..] == instances[i + 1..];
        totalWeight := totalWeight + instances[i].weight;
      }
      if CounterOf(currentWeights, key) >= totalWeight {
        currentWeights := currentWeights[key := 0];
      }
      var current: int := CounterOf(currentWeights, key);
      ghost var c := CounterOf(currentWeights, key);
      assert c == Wrapped(instances, CounterOf(old(currentWeights), key));
      hide Total;
      var selected: Option<nat> := None;
      for i := 0 to |instances|
        invariant selected == None
        invariant Pick(instances, c)
                  == match Pick(instances[i..], current) case None => None case Some(k) => Some(i + k)
      {
        assert instances[i..][1..] == instances[i + 1..];
        if current < instances[i].weight {
          selected := Some(i);
          break;
        }
        current := current - instances[i].weight;
      }
      currentWeights := currentWeights[key := CounterOf(currentWeights, key) + 1];
      r := Ok(selected);
    }
  }

  class RoundRobinStrategy {
    var index: map<string, nat>

    constructor ()
      ensures index == map[]
    {
      index := map[];
    }

    /** An instance of the list, the one the counter stands at where it stands in the list; the counter
        moves on to the one after it, from the last to the first. */
    method Next(instances: seq<Instance>) returns (r: Result<nat, NextError>)
      modifies this
      ensures instances == [] ==> r == Err(NoInstances) && index == old(index)
      ensures instances != [] ==>
                var key := instances[0].address;
                && r.Ok? && r.value < |instances|
                && [r.value] == Turns(|instances|, CounterOf(old(index), key), 1)
                && (CounterOf(old(index), key) < |instances| ==> r.value == CounterOf(old(index), key))
                && index == old(index)[key := if r.value == |instances| - 1 then 0 else r.value + 1]
    {
      if |instances| == 0 {
        return Err(NoInstances);
      }
      var key := instances[0].address;
      var i := CounterOf(index, key);
      NextTurn(i, |instances|);
      if i < |instances| {
        ModUnique(0, i, |instances|);
      }
      r := Ok(i % |instances|);
      index := index[key := (i + 1) % |instances|];
    }
  }

  /** Calls in a row on a fixed list. */
  method Calls(strategy: WeightedRoundRobinStrategy, instances: seq<Instance>, n: nat) returns (picks: seq<Option<nat>>)
    requires instances != []
    modifies strategy
    ensures picks == Picks(instances, CounterOf(old(strategy.currentWeights), instances[0].address), n)
  {
    picks := [];
    for k := 0 to n
      invariant picks + Picks(instances, CounterOf(strategy.currentWeights, instances[0].address), n - k)
                == Picks(instances, CounterOf(old(strategy.currentWeights), instances[0].address), n)
    {
      var r := strategy.Next(instances);
      picks := picks + [r.value];
    }
  }

  /** Turn by turn. */
  lemma TurnsStep(length: nat, index: nat, n: nat)
    requires length > 0 && n > 0
    ensures Turns(length, index, 1) == [index % length]
    ensures Turns(length, index, n)
            == [index % length] + Turns(length, if index % length == length - 1 then 0 else index % length + 1, n - 1)
  {
    NextTurn(index, length);
    assert Turns(length, (index + 1) % length, 0) == [];
  }

  /** The k-th turn. */
  lemma {:induction false} TurnsGoRound(length: nat, index: nat, n: nat, k: nat)
    requires length > 0 && k < n
    ensures Turns(length, index, n)[k] == (index + k) % length
    decreases n
  {
    if k > 0 {
      TurnsGoRound(length, (index + 1) % length, n - 1, k - 1);
      ModOfSum(index + 1, k - 1, length);
    }
  }

  lemma NoTurns(length: nat, index: nat)
    requires length > 0
    ensures Turns(length, index, 0) == []
  {
  }

  /** Calls of the plain strategy in a row on a fixed list. In as many calls as there are instances, from
      wherever the counter stands, every instance is chosen once. */
  method Rounds(strategy: RoundRobinStrategy, instances: seq<Instance>, n: nat) returns (picks: seq<nat>)
    requires instances != []
    modifies strategy
    ensures picks == Turns(|instances|, CounterOf(old(strategy.index), instances[0].address), n)
    ensures n == |instances| ==> forall i :: 0 <= i < n ==> Times(Chosen(picks), i) == 1
  {
    hide Turns, Chosen, Times;
    var key := instances[0].address;
    ghost var length, start := |instances|, CounterOf(strategy.index, key);
    picks := [];
    assert [] + Turns(length, start, n) == Turns(length, start, n);
    for k := 0 to n
      invariant picks + Turns(length, CounterOf(strategy.index, key), n - k) == Turns(length, start, n)
    {
      ghost var before, counter := picks, CounterOf(strategy.index, key);
      TurnsStep(length, counter, n - k);
      var r := strategy.Next(instances);
      picks := picks + [r.value];
      assert before + ([r.value] + Turns(length, CounterOf(strategy.index, key), n - (k + 1)))
             == picks + Turns(length, CounterOf(strategy.index, key), n - (k + 1));
    }
    NoTurns(length, CounterOf(strategy.index, key));
    assert picks + [] == picks;
    forall i | 0 <= i < n && n == |instances|
      ensures Times(Chosen(picks), i) == 1
    {
      EachOnce(instances, start, i);
    }
  }
}
