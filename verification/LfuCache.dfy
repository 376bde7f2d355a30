/** The least-frequently-used cache: what it promises, in terms of how often and when each key was
    last used, and what a whole history of calls leaves in it. */
module LfuCache {
  import opened Wrappers

  /** A cached value, the number of uses since it was admitted, and the time of the last one. */
  datatype Item<V> = Item(value: V, count: nat, last: nat)

  /** `clock` is the number of calls so far. */
  datatype Lfu<V> = Lfu(capacity: nat, items: map<string, Item<V>>, clock: nat)

  predicate Before<V(!new)>(a: Item<V>, b: Item<V>) {
    a.count < b.count || (a.count == b.count && a.last < b.last)
  }

  /** The key to give up: used least often, and of those the one used longest ago. */
  predicate IsVictim<V(!new)>(items: map<string, Item<V>>, key: string) {
    key in items && forall k :: k in items && k != key ==> Before(items[key], items[k])
  }

  predicate WellFormed<V(!new)>(c: Lfu<V>) {
    |c.items| <= c.capacity && TimesBelow(c.items, c.clock) && TimesApart(c.items)
  }

  function Used<V(!new)>(c: Lfu<V>, key: string, value: V): Lfu<V>
    requires key in c.items
  {
    c.(items := c.items[key := Item(value, c.items[key].count + 1, c.clock)], clock := c.clock + 1)
  }

  function Touch<V(!new)>(c: Lfu<V>, key: string): (Lfu<V>, Option<V>) {
    if key in c.items then (Used(c, key, c.items[key].value), Some(c.items[key].value))
    else (c.(clock := c.clock + 1), None)
  }

  /** What a call to Set may leave behind; it is unique (SetIsDetermined). */
  ghost predicate Sets<V(!new)>(c: Lfu<V>, key: string, value: V, d: Lfu<V>) {
    if key in c.items then d == Used(c, key, value)
    else
      exists kept: map<string, Item<V>> ::
        && Admits(c, kept)
        && d == c.(items := kept[key := Item(value, 1, c.clock)], clock := c.clock + 1)
  }

  /** What is kept to make room for a new key. */
  ghost predicate Admits<V(!new)>(c: Lfu<V>, kept: map<string, Item<V>>) {
    if |c.items| < c.capacity then kept == c.items
    else exists victim :: IsVictim(c.items, victim) && kept == c.items - {victim}
  }

  lemma SetIsDetermined<V(!new)>(c: Lfu<V>, key: string, value: V, d: Lfu<V>, e: Lfu<V>)
    requires Sets(c, key, value, d) && Sets(c, key, value, e)
    ensures d == e
  {
  }

  predicate TimesApart<V(!new)>(items: map<string, Item<V>>) {
    forall k, l :: k in items && l in items && k != l ==> items[k].last != items[l].last
  }

  predicate TimesBelow<V(!new)>(items: map<string, Item<V>>, clock: nat) {
    forall k :: k in items ==> items[k].last < clock && items[k].count > 0
  }

  /** There is always a key to give up. */
  lemma {:induction false} VictimExists<V(!new)>(items: map<string, Item<V>>) returns (victim: string)
    requires items != map[] && TimesApart(items)
    ensures IsVictim(items, victim)
    decreases |items|
  {
    var k :| k in items;
    var rest := items - {k};
    assert items.Keys == rest.Keys + {k};
    assert forall l :: l in items && l != k ==> l in rest && rest[l] == items[l];
    if rest == map[] {
      return k;
    }
    var v := VictimExists(rest);
    VictimOfTwo(items, rest, k, v);
    victim := if Before(items[k], items[v]) then k else v;
  }

  lemma VictimOfTwo<V(!new)>(items: map<string, Item<V>>, rest: map<string, Item<V>>, k: string, v: string)
    requires TimesApart(items) && k in items && rest == items - {k} && IsVictim(rest, v)
    ensures IsVictim(items, if Before(items[k], items[v]) then k else v)
  {
    assert forall l :: l in items && l != k ==> l in rest && rest[l] == items[l];
    assert items[k].last != items[v].last;
  }

  lemma SmallerFits<V(!new)>(items: map<string, Item<V>>, victim: string, key: string, item: Item<V>, clock: nat)
    requires TimesApart(items) && TimesBelow(items, clock) && item.last == clock && item.count > 0
    ensures TimesApart(items - {victim}) && TimesBelow(items - {victim}, clock)
    ensures TimesApart(items[key := item]) && TimesBelow(items[key := item], clock + 1)
  {
  }

  lemma SizeAfter<V(!new)>(items: map<string, Item<V>>, victim: string, key: string, item: Item<V>)
    ensures victim in items ==> |items - {victim}| == |items| - 1
    ensures |items[key := item]| == if key in items then |items| else |items| + 1
  {
    assert (items - {victim}).Keys == items.Keys - {victim};
    assert items[key := item].Keys == items.Keys + {key};
  }

  /** Every call keeps the form: within capacity, and no two keys last used at the same time. */
  lemma CallsKeepForm<V(!new)>(c: Lfu<V>, key: string, value: V, d: Lfu<V>)
    requires WellFormed(c)
    ensures WellFormed(Touch(c, key).0)
    ensures Sets(c, key, value, d) ==> WellFormed(d)
  {
    hide TimesApart, TimesBelow, IsVictim, Admits, Used;
    LaterIsBelow(c);
    if key in c.items {
      UseKeepsForm(c, key, c.items[key].value);
      UseKeepsForm(c, key, value);
    } else if Sets(c, key, value, d) {
      var kept: map<string, Item<V>> :|
        Admits(c, kept) && d == c.(items := kept[key := Item(value, 1, c.clock)], clock := c.clock + 1);
      AdmissionKeepsForm(c, kept, key, value);
    }
  }

  lemma AdmissionKeepsForm<V(!new)>(c: Lfu<V>, kept: map<string, Item<V>>, key: string, value: V)
    requires WellFormed(c) && Admits(c, kept) && key !in c.items
    ensures WellFormed(c.(items := kept[key := Item(value, 1, c.clock)], clock := c.clock + 1))
  {
    hide TimesApart, TimesBelow, IsVictim;
    var item := Item(value, 1, c.clock);
    if |c.items| >= c.capacity {
      var victim :| IsVictim(c.items, victim) && kept == c.items - {victim};
      VictimIsThere(c.items, victim);
      SmallerFits(c.items, victim, key, item, c.clock);
      SizeAfter(c.items, victim, key, item);
      AdmittedIntoFits(c, kept, key, value);
    } else {
      AdmittedIntoFits(c, kept, key, value);
    }
  }

  lemma AdmittedIntoFits<V(!new)>(c: Lfu<V>, kept: map<string, Item<V>>, key: string, value: V)
    requires TimesApart(kept) && TimesBelow(kept, c.clock) && |kept| < c.capacity && key !in kept
    ensures WellFormed(c.(items := kept[key := Item(value, 1, c.clock)], clock := c.clock + 1))
  {
    hide TimesApart, TimesBelow;
    var item := Item(value, 1, c.clock);
    SmallerFits(kept, key, key, item, c.clock);
    SizeAfter(kept, key, key, item);
  }

  lemma LaterIsBelow<V(!new)>(c: Lfu<V>)
    requires WellFormed(c)
    ensures WellFormed(c.(clock := c.clock + 1))
  {
  }

  lemma VictimIsThere<V(!new)>(items: map<string, Item<V>>, victim: string)
    requires IsVictim(items, victim)
    ensures victim in items
  {
  }

  lemma UseKeepsForm<V(!new)>(c: Lfu<V>, key: string, value: V)
    requires WellFormed(c) && key in c.items
    ensures WellFormed(Used(c, key, value))
  {
    hide TimesApart, TimesBelow;
    var item := Item(value, c.items[key].count + 1, c.clock);
    SmallerFits(c.items, key, key, item, c.clock);
    SizeAfter(c.items, key, key, item);
  }

  // ---- Whole histories --------------------------------------------------------------------

  datatype Op<V> = GetOp(key: string) | SetOp(key: string, value: V)

  ghost predicate Step<V(!new)>(c: Lfu<V>, op: Op<V>, d: Lfu<V>) {
    match op
    case GetOp(key) => d == Touch(c, key).0
    case SetOp(key, value) => Sets(c, key, value, d)
  }

  /** The states a history runs through, the first one empty. */
  ghost predicate IsRun<V(!new)>(states: seq<Lfu<V>>, ops: seq<Op<V>>) {
    && |states| == |ops| + 1
    && states[0].items == map[] && states[0].clock == 0
    && forall i :: 0 <= i < |ops| ==> Step(states[i], ops[i], states[i + 1])
  }

  function Uses<V(!new)>(ops: seq<Op<V>>, key: string): nat {
    if ops == [] then 0 else Uses(ops[..|ops| - 1], key) + if ops[|ops| - 1].key == key then 1 else 0
  }

  /** The time of the last call that names the key. */
  function LastUse<V(!new)>(ops: seq<Op<V>>, key: string): (r: Option<nat>)
    ensures r.Some? ==> r.value < |ops| && ops[r.value].key == key
    ensures forall i :: (if r.Some? then r.value + 1 else 0) <= i < |ops| ==> ops[i].key != key
  {
    if ops == [] then None
    else if ops[|ops| - 1].key == key then Some(|ops| - 1)
    else LastUse(ops[..|ops| - 1], key)
  }

  /** The value the last Set of the key stored. */
  function LastSet<V(!new)>(ops: seq<Op<V>>, key: string): Option<V> {
    if ops == [] then None
    else
      var op := ops[|ops| - 1];
      if op.SetOp? && op.key == key then Some(op.value) else LastSet(ops[..|ops| - 1], key)
  }

  /** The key came in with call `since`, when it was not there, and has been there ever after. */
  ghost predicate AdmittedAt<V(!new)>(states: seq<Lfu<V>>, ops: seq<Op<V>>, key: string, since: nat)
    requires |states| == |ops| + 1
  {
    && since < |ops| && ops[since].SetOp? && ops[since].key == key
    && key !in states[since].items
    && forall i :: since < i < |states| ==> key in states[i].items
  }

  ghost predicate CountsSince<V(!new)>(states: seq<Lfu<V>>, ops: seq<Op<V>>, key: string, count: nat)
    requires |states| == |ops| + 1
  {
    exists since: nat :: AdmittedAt(states, ops, key, since) && count == Uses(ops[since..], key)
  }

  ghost predicate Means<V(!new)>(states: seq<Lfu<V>>, ops: seq<Op<V>>, key: string, item: Item<V>)
    requires |states| == |ops| + 1
  {
    && LastSet(ops, key) == Some(item.value)
    && LastUse(ops, key) == Some(item.last)
    && CountsSince(states, ops, key, item.count)
  }

  lemma UsesSplit<V(!new)>(ops: seq<Op<V>>, since: nat, key: string)
    requires since < |ops|
    ensures var shorter := ops[..|ops| - 1];
            Uses(ops[since..], key) == Uses(shorter[since..], key) + if ops[|ops| - 1].key == key then 1 else 0
  {
    assert ops[since..][..|ops[since..]| - 1] == ops[..|ops| - 1][since..];
  }

  lemma UsesOne<V(!new)>(ops: seq<Op<V>>, key: string)
    requires ops != []
    ensures Uses(ops[|ops| - 1..], key) == if ops[|ops| - 1].key == key then 1 else 0
  {
    UsesSplit(ops, |ops| - 1, key);
    assert ops[..|ops| - 1][|ops| - 1..] == [];
  }

  /** What the counters of a run mean: for every key held at the end, the value is the last one set,
      the time is that of the last call naming the key, and the count is the number of calls naming it
      since it came in. */
  lemma {:induction false} CountersMean<V(!new)>(states: seq<Lfu<V>>, ops: seq<Op<V>>, key: string)
    requires IsRun(states, ops)
    ensures states[|ops|].clock == |ops|
    ensures key in states[|ops|].items ==> Means(states, ops, key, states[|ops|].items[key])
    decreases |ops|
  {
    hide Means, Step;
    if ops != [] {
      var n := |ops| - 1;
      RunSoFar(states, ops);
      CountersMean(states[..n + 1], ops[..n], key);
      StepShape(states[n], ops[n], states[n + 1], key);
      if key in states[n + 1].items {
        CountersStep(states, ops, key);
      }
    }
  }

  lemma RunSoFar<V(!new)>(states: seq<Lfu<V>>, ops: seq<Op<V>>)
    requires IsRun(states, ops) && ops != []
    ensures var n := |ops| - 1; IsRun(states[..n + 1], ops[..n]) && Step(states[n], ops[n], states[n + 1])
  {
    hide Step;
    var n := |ops| - 1;
    forall i | 0 <= i < n
      ensures Step(states[..n + 1][i], ops[..n][i], states[..n + 1][i + 1])
    {
      assert Step(states[i], ops[i], states[i + 1]);
    }
  }

  /** What one call does to one key: it is used, or set, or left as it is. */
  lemma StepShape<V(!new)>(c: Lfu<V>, op: Op<V>, d: Lfu<V>, key: string)
    requires Step(c, op, d)
    ensures d.clock == c.clock + 1
    ensures key in d.items && key in c.items && key != op.key ==> d.items[key] == c.items[key]
    ensures key in d.items && key in c.items && key == op.key ==>
              d.items[key] == Item(if op.SetOp? then op.value else c.items[key].value, c.items[key].count + 1, c.clock)
    ensures key in d.items && key !in c.items ==>
              op.SetOp? && op.key == key && d.items[key] == Item(op.value, 1, c.clock)
  {
    hide IsVictim;
  }

  lemma CountersStep<V(!new)>(states: seq<Lfu<V>>, ops: seq<Op<V>>, key: string)
    requires |states| == |ops| + 1 && |ops| > 0
    requires var n := |ops| - 1;
             && states[n].clock == n
             && Step(states[n], ops[n], states[n + 1])
             && key in states[n + 1].items
             && (key in states[n].items ==> Means(states[..n + 1], ops[..n], key, states[n].items[key]))
    ensures Means(states, ops, key, states[|ops|].items[key])
  {
    hide Step, CountsSince;
    var n := |ops| - 1;
    StepShape(states[n], ops[n], states[n + 1], key);
    if key in states[n].items {
      CountGoesOn(states, ops, key, states[n].items[key].count);
    } else {
      CountStarts(states, ops, key);
    }
  }

  lemma CountGoesOn<V(!new)>(states: seq<Lfu<V>>, ops: seq<Op<V>>, key: string, count: nat)
    requires |states| == |ops| + 1 && |ops| > 0
    requires CountsSince(states[..|ops|], ops[..|ops| - 1], key, count) && key in states[|ops|].items
    ensures CountsSince(states, ops, key, count + if ops[|ops| - 1].key == key then 1 else 0)
  {
    var n := |ops| - 1;
    var before, earlier := states[..n + 1], ops[..n];
    var since: nat :| AdmittedAt(before, earlier, key, since) && count == Uses(earlier[since..], key);
    UsesSplit(ops, since, key);
    assert forall i :: 0 <= i <= n ==> before[i] == states[i];
    assert ops[since] == earlier[since];
    assert AdmittedAt(states, ops, key, since);
  }

  lemma CountStarts<V(!new)>(states: seq<Lfu<V>>, ops: seq<Op<V>>, key: string)
    requires |states| == |ops| + 1 && |ops| > 0
    requires ops[|ops| - 1].SetOp? && ops[|ops| - 1].key == key
    requires key !in states[|ops| - 1].items && key in states[|ops|].items
    ensures CountsSince(states, ops, key, 1)
  {
    UsesOne(ops, key);
    assert AdmittedAt(states, ops, key, |ops| - 1);
  }

  // ---- What is found, and what is given up ------------------------------------------------

  lemma RunPrefix<V(!new)>(states: seq<Lfu<V>>, ops: seq<Op<V>>, n: nat)
    requires IsRun(states, ops) && n <= |ops|
    ensures IsRun(states[..n + 1], ops[..n])
  {
    hide Step;
    forall i | 0 <= i < n
      ensures Step(states[..n + 1][i], ops[..n][i], states[..n + 1][i + 1])
    {
      assert Step(states[i], ops[i], states[i + 1]);
    }
  }

  /** The value that a Get finds is the last one set, if the key is held. */
  lemma FoundIsLastSet<V(!new)>(states: seq<Lfu<V>>, ops: seq<Op<V>>, n: nat, key: string)
    requires IsRun(states, ops) && n <= |ops|
    ensures Touch(states[n], key).1 == if key in states[n].items then LastSet(ops[..n], key) else None
  {
    hide Step, CountsSince;
    RunPrefix(states, ops, n);
    CountersMean(states[..n + 1], ops[..n], key);
  }

  /** The calls that named a key in the first n calls, from the one on that brought it in. */
  ghost function CallsSince<V(!new)>(states: seq<Lfu<V>>, ops: seq<Op<V>>, n: nat, key: string): nat
    requires n <= |ops| && |states| == |ops| + 1
  {
    if n == 0 || key !in states[n].items then 0
    else CallsSince(states, ops, n - 1, key) + if ops[n - 1].key == key then 1 else 0
  }

  lemma {:induction false} CountIsCallsSince<V(!new)>(states: seq<Lfu<V>>, ops: seq<Op<V>>, n: nat, key: string)
    requires IsRun(states, ops) && n <= |ops| && key in states[n].items
    ensures states[n].items[key].count == CallsSince(states, ops, n, key)
  {
    hide Step;
    if n > 0 {
      assert Step(states[n - 1], ops[n - 1], states[n]);
      StepShape(states[n - 1], ops[n - 1], states[n], key);
      if key in states[n - 1].items {
        CountIsCallsSince(states, ops, n - 1, key);
      }
    }
  }

  /** Of two keys held after n calls, one has been named less often since it came in, or as often and not so
      lately. */
  ghost predicate UsedLess<V(!new)>(states: seq<Lfu<V>>, ops: seq<Op<V>>, n: nat, a: string, b: string)
    requires n <= |ops| && |states| == |ops| + 1
  {
    var x, y := CallsSince(states, ops, n, a), CallsSince(states, ops, n, b);
    x < y || (x == y && LastUse(ops[..n], a).Some? && LastUse(ops[..n], b).Some?
                     && LastUse(ops[..n], a).value < LastUse(ops[..n], b).value)
  }

  lemma BeforeIsUsedLess<V(!new)>(states: seq<Lfu<V>>, ops: seq<Op<V>>, n: nat, a: string, b: string)
    requires IsRun(states, ops) && n <= |ops| && a in states[n].items && b in states[n].items
    ensures Before(states[n].items[a], states[n].items[b]) <==> UsedLess(states, ops, n, a, b)
  {
    hide Step, CountsSince, CallsSince;
    RunPrefix(states, ops, n);
    CountersMean(states[..n + 1], ops[..n], a);
    CountersMean(states[..n + 1], ops[..n], b);
    CountIsCallsSince(states, ops, n, a);
    CountIsCallsSince(states, ops, n, b);
  }

  /** The keys held. Only a Set of a key that is not held changes them: it brings the key in, and if as many as the
      capacity are held, the one of these goes that was used less than every other. */
  lemma KeysMean<V(!new)>(states: seq<Lfu<V>>, ops: seq<Op<V>>, n: nat)
    requires IsRun(states, ops) && n < |ops|
    ensures var before, after, key := states[n].items.Keys, states[n + 1].items.Keys, ops[n].key;
            if ops[n].GetOp? || key in before then after == before
            else if |before| < states[0].capacity then after == before + {key}
            else exists victim :: GivenUp(states, ops, n, victim) && after == before - {victim} + {key}
  {
    hide UsedLess, Before, CallsSince, Admits, Used;
    assert Step(states[n], ops[n], states[n + 1]);
    CapacityStays(states, ops, n);
    var c, d, key := states[n], states[n + 1], ops[n].key;
    assert |c.items| == |c.items.Keys|;
    UsedKeys(c, key);
    if ops[n].SetOp? && key !in c.items {
      AdmissionKeys(c, key, ops[n].value, d);
      if |c.items| >= c.capacity {
        var victim :| IsVictim(c.items, victim) && d.items.Keys == c.items.Keys - {victim} + {key};
        VictimIsGivenUp(states, ops, n, victim);
      }
    }
  }

  lemma UsedKeys<V(!new)>(c: Lfu<V>, key: string)
    ensures forall value :: key in c.items ==> Used(c, key, value).items.Keys == c.items.Keys
  {
  }

  /** The keys that an admission leaves. */
  lemma AdmissionKeys<V(!new)>(c: Lfu<V>, key: string, value: V, d: Lfu<V>)
    requires key !in c.items && Sets(c, key, value, d)
    ensures |c.items| < c.capacity ==> d.items.Keys == c.items.Keys + {key}
    ensures |c.items| >= c.capacity ==>
              exists victim :: IsVictim(c.items, victim) && d.items.Keys == c.items.Keys - {victim} + {key}
  {
    var kept: map<string, Item<V>> :|
      Admits(c, kept) && d == c.(items := kept[key := Item(value, 1, c.clock)], clock := c.clock + 1);
    assert d.items.Keys == kept.Keys + {key};
    if |c.items| >= c.capacity {
      var victim :| IsVictim(c.items, victim) && kept == c.items - {victim};
      assert kept.Keys == c.items.Keys - {victim};
    }
  }

  ghost predicate GivenUp<V(!new)>(states: seq<Lfu<V>>, ops: seq<Op<V>>, n: nat, victim: string)
    requires n <= |ops| && |states| == |ops| + 1
  {
    && victim in states[n].items
    && forall k :: k in states[n].items && k != victim ==> UsedLess(states, ops, n, victim, k)
  }

  lemma VictimIsGivenUp<V(!new)>(states: seq<Lfu<V>>, ops: seq<Op<V>>, n: nat, victim: string)
    requires IsRun(states, ops) && n <= |ops| && IsVictim(states[n].items, victim)
    ensures GivenUp(states, ops, n, victim)
  {
    hide UsedLess, Before, Step;
    forall k | k in states[n].items && k != victim
      ensures UsedLess(states, ops, n, victim, k)
    {
      BeforeIsUsedLess(states, ops, n, victim, k);
    }
  }

  lemma {:induction false} CapacityStays<V(!new)>(states: seq<Lfu<V>>, ops: seq<Op<V>>, n: nat)
    requires IsRun(states, ops) && n <= |ops|
    ensures states[n].capacity == states[0].capacity
  {
    hide Admits;
    if n > 0 {
      CapacityStays(states, ops, n - 1);
      assert Step(states[n - 1], ops[n - 1], states[n]);
    }
  }
}
