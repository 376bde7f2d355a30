/** What a history of calls leaves in the least-recently-used cache, told from the list of calls alone. */
module LruHistory {
  import opened Wrappers
  import opened LruCache

  /** The time of the last use of a key: a Set, or a Get that finds it. */
  ghost function LastUse<V(!new)>(capacity: nat, ops: seq<Op<V>>, key: string): (r: Option<nat>)
    ensures r.Some? ==> r.value < |ops| && ops[r.value].key == key
    decreases |ops|, 0
  {
    if ops == [] then None
    else
      var front, op := ops[..|ops| - 1], ops[|ops| - 1];
      if op.key == key && (op.SetOp? || Held(capacity, front, key)) then Some(|front|) else LastUse(capacity, front, key)
  }

  /** The keys used after the last use of a key. */
  ghost function UsedSince<V(!new)>(capacity: nat, ops: seq<Op<V>>, key: string): set<string>
    decreases |ops|, 1
  {
    set i | 0 <= i < |ops| && Later(LastUse(capacity, ops, ops[i].key), LastUse(capacity, ops, key)) :: ops[i].key
  }

  predicate Later(a: Option<nat>, b: Option<nat>) {
    a.Some? && b.Some? && a.value > b.value
  }

  /** A key is held as long as fewer than `capacity` other keys have been used since its last use. */
  ghost predicate Held<V(!new)>(capacity: nat, ops: seq<Op<V>>, key: string)
    decreases |ops|, 2
  {
    LastUse(capacity, ops, key).Some? && |UsedSince(capacity, ops, key)| < capacity
  }

  /** The value of the last Set of a key. */
  function LastSet<V(!new)>(ops: seq<Op<V>>, key: string): Option<V> {
    if ops == [] then None
    else
      var op := ops[|ops| - 1];
      if op.SetOp? && op.key == key then Some(op.value) else LastSet(ops[..|ops| - 1], key)
  }

  /** What the Gets of a history find. */
  ghost function Answers<V(!new)>(capacity: nat, ops: seq<Op<V>>): seq<Option<V>> {
    if ops == [] then []
    else
      var front, op := ops[..|ops| - 1], ops[|ops| - 1];
      Answers(capacity, front)
      + if op.SetOp? then [] else [if Held(capacity, front, op.key) then LastSet(front, op.key) else None]
  }

  // ---- What a cache holds -----------------------------------------------------------------

  /** Use times and values of every key, as a history has them. */
  type Times = string -> Option<nat>

  ghost function TimesOf<V(!new)>(capacity: nat, ops: seq<Op<V>>): Times {
    key => LastUse(capacity, ops, key)
  }

  /** In strictly descending order of last use. */
  ghost predicate Sorted<V(!new)>(items: seq<Item<V>>, times: Times) {
    forall i, j :: 0 <= i < j < |items| ==> Later(times(items[i].key), times(items[j].key))
  }

  /** The items stand in that order, and what is not among them was used before them all, which it can only be when
      the cache is full. */
  ghost predicate Recent<V(!new)>(items: seq<Item<V>>, capacity: nat, times: Times) {
    && |items| <= capacity
    && (forall x :: x in items ==> times(x.key).Some?)
    && Sorted(items, times)
    && (forall key :: times(key).Some? && !Holds(items, key) ==> |items| == capacity && AllLater(items, times, key))
  }

  ghost predicate AllLater<V(!new)>(items: seq<Item<V>>, times: Times, key: string) {
    forall x :: x in items ==> Later(times(x.key), times(key))
  }

  ghost predicate Current<V(!new)>(items: seq<Item<V>>, ops: seq<Op<V>>) {
    forall i :: 0 <= i < |items| ==> LastSet(ops, items[i].key) == Some(items[i].value)
  }

  ghost predicate Tells<V(!new)>(c: Lru<V>, ops: seq<Op<V>>) {
    c.capacity > 0 && Recent(c.items, c.capacity, TimesOf(c.capacity, ops)) && Current(c.items, ops)
  }

  /** Every key with a time has been named. */
  lemma UsedSinceMeans<V(!new)>(capacity: nat, ops: seq<Op<V>>, key: string, other: string)
    ensures other in UsedSince(capacity, ops, key)
       <==> Later(LastUse(capacity, ops, other), LastUse(capacity, ops, key))
  {
    var last := LastUse(capacity, ops, other);
    if last.Some? {
      assert ops[last.value].key == other;
    }
  }

  function KeysOf<V(!new)>(items: seq<Item<V>>): set<string> {
    set i | 0 <= i < |items| :: items[i].key
  }

  lemma KeysOfMore<V(!new)>(front: seq<Item<V>>, last: Item<V>)
    ensures KeysOf(front + [last]) == KeysOf(front) + {last.key}
    ensures last.key in KeysOf(front) ==> exists i :: 0 <= i < |front| && front[i].key == last.key
  {
    var items := front + [last];
    assert forall i :: 0 <= i < |front| ==> items[i] == front[i];
    forall k
      ensures k in KeysOf(items) <==> k in KeysOf(front) || k == last.key
    {
      assert items[|front|].key == last.key;
      if k in KeysOf(front) {
        var i :| 0 <= i < |front| && front[i].key == k;
        assert items[i].key == k;
      }
    }
  }

  lemma {:induction false} CountKeys<V(!new)>(items: seq<Item<V>>)
    requires DistinctKeys(items)
    ensures |KeysOf(items)| == |items|
  {
    if items != [] {
      hide KeysOf;
      var front, last := items[..|items| - 1], items[|items| - 1];
      CountKeys(front);
      KeysOfMore(front, last);
      assert front + [last] == items;
      assert forall i :: 0 <= i < |front| ==> front[i].key != last.key;
    } else {
      assert KeysOf(items) == {};
    }
  }

  lemma RecentIsDistinct<V(!new)>(items: seq<Item<V>>, capacity: nat, times: Times)
    requires Recent(items, capacity, times)
    ensures DistinctKeys(items)
  {
  }

  /** The keys used after an item are those in front of it. */
  lemma InFrontIsLater<V(!new)>(items: seq<Item<V>>, capacity: nat, times: Times, i: nat, key: string)
    requires Recent(items, capacity, times) && i < |items|
    ensures Later(times(key), times(items[i].key)) <==> key in KeysOf(items[..i])
  {
    if key in KeysOf(items[..i]) {
      var j :| 0 <= j < i && items[..i][j].key == key;
      assert Later(times(items[j].key), times(items[i].key));
    }
    if Later(times(key), times(items[i].key)) {
      assert Holds(items, key);
      var j :| 0 <= j < |items| && items[j].key == key;
      assert j < i ==> items[..i][j].key == key;
    }
  }

  /** What is held is what the cache holds. */
  lemma HeldIsThere<V(!new)>(c: Lru<V>, ops: seq<Op<V>>, key: string)
    requires Tells(c, ops)
    ensures Held(c.capacity, ops, key) <==> Holds(c.items, key)
  {
    hide LastUse, Current;
    var times := TimesOf(c.capacity, ops);
    RecentIsDistinct(c.items, c.capacity, times);
    forall other
      ensures other in UsedSince(c.capacity, ops, key) <==> Later(times(other), times(key))
    {
      UsedSinceMeans(c.capacity, ops, key, other);
    }
    if Holds(c.items, key) {
      var i :| 0 <= i < |c.items| && c.items[i].key == key;
      forall other
        ensures other in UsedSince(c.capacity, ops, key) <==> other in KeysOf(c.items[..i])
      {
        InFrontIsLater(c.items, c.capacity, times, i, other);
      }
      assert UsedSince(c.capacity, ops, key) == KeysOf(c.items[..i]);
      CountKeys(c.items[..i]);
    } else if times(key).Some? {
      CountKeys(c.items);
      assert KeysOf(c.items) <= UsedSince(c.capacity, ops, key);
      SubsetSize(KeysOf(c.items), UsedSince(c.capacity, ops, key));
    }
  }

  lemma SubsetSize(a: set<string>, b: set<string>)
    requires a <= b
    ensures |a| <= |b|
  {
    assert b == a + (b - a);
  }

  // ---- One call ---------------------------------------------------------------------------

  lemma ConsSorted<V(!new)>(x: Item<V>, kept: seq<Item<V>>, times: Times)
    requires Sorted(kept, times) && forall y :: y in kept ==> Later(times(x.key), times(y.key))
    ensures Sorted([x] + kept, times)
  {
    var all := [x] + kept;
    forall i, j | 0 <= i < j < |all|
      ensures Later(times(all[i].key), times(all[j].key))
    {
      assert all[j] == kept[j - 1] && kept[j - 1] in kept;
      if i > 0 {
        assert all[i] == kept[i - 1];
      }
    }
  }

  lemma TailSorted<V(!new)>(items: seq<Item<V>>, times: Times)
    requires Sorted(items, times) && items != []
    ensures Sorted(items[1..], times) && forall y :: y in items[1..] ==> Later(times(items[0].key), times(y.key))
  {
    assert forall i :: 0 <= i < |items[1..]| ==> items[1..][i] == items[i + 1];
  }

  lemma {:induction false} DroppingSorted<V(!new)>(items: seq<Item<V>>, key: string, times: Times)
    requires Sorted(items, times)
    ensures Sorted(Dropping(items, key), times)
  {
    hide Sorted;
    if items == [] {
      assert Dropping(items, key) == items;
    } else {
      TailSorted(items, times);
      DroppingSorted(items[1..], key, times);
      DroppingFacts(items[1..], key);
      ConsSorted(items[0], Dropping(items[1..], key), times);
    }
  }

  /** A key used now, in front of some that were used before. */
  lemma FrontSorted<V(!new)>(x: Item<V>, kept: seq<Item<V>>, times: Times, times': Times, now: nat)
    requires Sorted(kept, times) && forall y :: y in kept ==> y.key != x.key && times(y.key).Some?
    requires forall k :: times(k).Some? ==> times(k).value < now
    requires forall k :: times'(k) == if k == x.key then Some(now) else times(k)
    ensures Sorted([x] + kept, times')
  {
    var after := [x] + kept;
    forall i, j | 0 <= i < j < |after|
      ensures Later(times'(after[i].key), times'(after[j].key))
    {
      assert after[j] == kept[j - 1] && kept[j - 1] in kept;
      if i > 0 {
        assert after[i] == kept[i - 1] && kept[i - 1] in kept;
        assert Later(times(kept[i - 1].key), times(kept[j - 1].key));
      }
    }
  }

  /** What is not in the new list either was not in the old one or has just been given up. */
  lemma OutsideIsOlder<V(!new)>(items: seq<Item<V>>, kept: seq<Item<V>>, x: Item<V>, capacity: nat, times: Times,
                                times': Times, now: nat)
    requires Recent(items, capacity, times) && forall y :: y in kept ==> y in items && y.key != x.key
    requires forall k :: times(k).Some? ==> times(k).value < now
    requires forall k :: times'(k) == if k == x.key then Some(now) else times(k)
    requires Sorted([x] + kept, times') && |kept| < capacity
    requires forall key :: times(key).Some? && !Holds(kept, key) && key != x.key ==>
               |kept| == capacity - 1 && AllLater(kept, times, key)
    ensures Recent([x] + kept, capacity, times')
  {
    var after := [x] + kept;
    forall key | times'(key).Some? && !Holds(after, key)
      ensures |after| == capacity && AllLater(after, times', key)
    {
      HoldsStep(after, key);
      assert after[1..] == kept;
    }
  }

  lemma UsedInPlace<V(!new)>(items: seq<Item<V>>, capacity: nat, x: Item<V>, times: Times, times': Times, now: nat)
    requires Recent(items, capacity, times) && Holds(items, x.key)
    requires forall k :: times(k).Some? ==> times(k).value < now
    requires forall k :: times'(k) == if k == x.key then Some(now) else times(k)
    ensures Recent([x] + Dropping(items, x.key), capacity, times')
  {
    hide Dropping;
    RecentIsDistinct(items, capacity, times);
    var kept := Dropping(items, x.key);
    DroppingFacts(items, x.key);
    DropOneKey(items, x.key);
    DroppingSorted(items, x.key, times);
    FrontSorted(x, kept, times, times', now);
    forall key | times(key).Some? && !Holds(kept, key) && key != x.key
      ensures |kept| == capacity - 1 && AllLater(kept, times, key)
    {
      HoldsMember(items, key);
      HoldsMember(kept, key);
    }
    OutsideIsOlder(items, kept, x, capacity, times, times', now);
  }

  lemma HeldLast<V(!new)>(items: seq<Item<V>>, key: string)
    requires items != [] && Holds(items, key) && !Holds(items[..|items| - 1], key)
    ensures items[|items| - 1].key == key
  {
    var front := items[..|items| - 1];
    forall i | 0 <= i < |front|
      ensures items[i].key != key
    {
      assert front[i] == items[i];
    }
  }

  lemma UsedAnew<V(!new)>(items: seq<Item<V>>, capacity: nat, x: Item<V>, times: Times, times': Times, now: nat)
    requires capacity > 0 && Recent(items, capacity, times) && !Holds(items, x.key)
    requires forall k :: times(k).Some? ==> times(k).value < now
    requires forall k :: times'(k) == if k == x.key then Some(now) else times(k)
    ensures Recent([x] + if |items| >= capacity then items[..|items| - 1] else items, capacity, times')
  {
    var kept := if |items| >= capacity then items[..|items| - 1] else items;
    assert forall y :: y in kept ==> y in items;
    FrontSorted(x, kept, times, times', now);
    forall key | times(key).Some? && !Holds(kept, key) && key != x.key
      ensures |kept| == capacity - 1 && AllLater(kept, times, key)
    {
      if Holds(items, key) {
        HeldLast(items, key);
        forall y | y in kept
          ensures Later(times(y.key), times(key))
        {
          var j :| 0 <= j < |kept| && kept[j] == y;
          assert items[j] == y;
        }
      }
    }
    OutsideIsOlder(items, kept, x, capacity, times, times', now);
  }

  ghost function Next<V(!new)>(c: Lru<V>, op: Op<V>): Lru<V> {
    match op
    case GetOp(key) => Touch(c, key).0
    case SetOp(key, value) => Store(c, key, value)
  }

  /** One more call. */
  lemma CallTells<V(!new)>(c: Lru<V>, ops: seq<Op<V>>, op: Op<V>)
    requires Tells(c, ops)
    ensures Tells(Next(c, op), ops + [op]) && Next(c, op).capacity == c.capacity
  {
    hide Held, Dropping, Lookup, Recent, Current;
    assert (ops + [op])[..|ops|] == ops;
    LookupHolds(c.items, op.key);
    HeldIsThere(c, ops, op.key);
    var times, times' := TimesOf(c.capacity, ops), TimesOf(c.capacity, ops + [op]);
    ClearlyDistinct(c, ops);
    if op.SetOp? || Holds(c.items, op.key) {
      if Holds(c.items, op.key) {
        var value := if op.SetOp? then op.value else Lookup(c.items, op.key).value;
        UsedInPlace(c.items, c.capacity, Item(op.key, value), times, times', |ops|);
      } else {
        UsedAnew(c.items, c.capacity, Item(op.key, op.value), times, times', |ops|);
      }
      ValuesStay(c, ops, op);
    } else {
      SameTimes(c.items, c.capacity, times, times');
      MissChangesNothing(c.items, ops, op);
    }
  }

  lemma ClearlyDistinct<V(!new)>(c: Lru<V>, ops: seq<Op<V>>)
    requires Tells(c, ops)
    ensures DistinctKeys(c.items) && |c.items| <= c.capacity
  {
    RecentIsDistinct(c.items, c.capacity, TimesOf(c.capacity, ops));
  }

  lemma SameTimes<V(!new)>(items: seq<Item<V>>, capacity: nat, times: Times, times': Times)
    requires Recent(items, capacity, times) && forall k :: times'(k) == times(k)
    ensures Recent(items, capacity, times')
  {
  }

  lemma MissChangesNothing<V(!new)>(items: seq<Item<V>>, ops: seq<Op<V>>, op: Op<V>)
    requires Current(items, ops) && op.GetOp?
    ensures Current(items, ops + [op])
  {
    assert (ops + [op])[..|ops|] == ops;
  }

  lemma ValuesStay<V(!new)>(c: Lru<V>, ops: seq<Op<V>>, op: Op<V>)
    requires Tells(c, ops) && (op.SetOp? || Holds(c.items, op.key))
    ensures Current(Next(c, op).items, ops + [op])
  {
    hide LastUse, Recent;
    assert (ops + [op])[..|ops|] == ops;
    ClearlyDistinct(c, ops);
    LookupHolds(c.items, op.key);
    DroppingFacts(c.items, op.key);
    var after := Next(c, op).items;
    assert after[0].key == op.key;
    forall i | 0 < i < |after|
      ensures after[i] in c.items && after[i].key != op.key
    {
      if Holds(c.items, op.key) {
        assert after[i] == Dropping(c.items, op.key)[i - 1];
      } else {
        assert after[i] == c.items[i - 1];
      }
    }
    if op.GetOp? {
      LookupMember(c.items, op.key);
    }
  }

  // ---- Whole histories --------------------------------------------------------------------

  lemma {:induction false} RunAppends<V(!new)>(c: Lru<V>, ops: seq<Op<V>>, op: Op<V>)
    ensures Run(c, ops + [op])
            == (Next(Run(c, ops).0, op),
                Run(c, ops).1 + if op.GetOp? then [Touch(Run(c, ops).0, op.key).1] else [])
    decreases |ops|
  {
    hide Touch, Store;
    if ops == [] {
      assert ops + [op] == [op] && [op][1..] == [];
      var last := if op.GetOp? then [Touch(c, op.key).1] else [];
      assert [] + last == last && last + [] == last;
    } else {
      assert (ops + [op])[1..] == ops[1..] + [op];
      match ops[0]
      case GetOp(key) =>
        RunAppends(Touch(c, key).0, ops[1..], op);
        var rest := Run(Touch(c, key).0, ops[1..]).1;
        var last := if op.GetOp? then [Touch(Run(c, ops).0, op.key).1] else [];
        assert [Touch(c, key).1] + (rest + last) == [Touch(c, key).1] + rest + last;
      case SetOp(key, value) => RunAppends(Store(c, key, value), ops[1..], op);
    }
  }

  lemma {:induction false} RunTells<V(!new)>(capacity: nat, ops: seq<Op<V>>)
    requires capacity > 0
    ensures var (c, found) := Run(Lru(capacity, []), ops);
            c.capacity == capacity && Tells(c, ops) && found == Answers(capacity, ops)
    decreases |ops|
  {
    hide Tells, Held, Next;
    var empty: Lru<V> := Lru(capacity, []);
    if ops == [] {
      NothingTold(empty);
    } else {
      var front, op := ops[..|ops| - 1], ops[|ops| - 1];
      assert ops == front + [op];
      RunTells(capacity, front);
      RunAppends(empty, front, op);
      var c := Run(empty, front).0;
      CallTells(c, front, op);
      if op.GetOp? {
        FoundIsLastSet(c, front, op.key);
      }
    }
  }

  lemma NothingTold<V(!new)>(c: Lru<V>)
    requires c.items == [] && c.capacity > 0
    ensures Tells(c, [])
  {
  }

  lemma FoundIsLastSet<V(!new)>(c: Lru<V>, ops: seq<Op<V>>, key: string)
    requires Tells(c, ops)
    ensures Touch(c, key).1 == if Held(c.capacity, ops, key) then LastSet(ops, key) else None
  {
    hide Held, Recent;
    HeldIsThere(c, ops, key);
    LookupHolds(c.items, key);
    if Holds(c.items, key) {
      LookupMember(c.items, key);
    }
  }

  /** After any history on a new cache, the entries are those of the keys held, each with the last value set, in
      strictly descending order of their last use. */
  lemma RecencyMeans<V(!new)>(capacity: nat, ops: seq<Op<V>>)
    requires capacity > 0
    ensures var items := Run(Lru(capacity, []), ops).0.items;
            && (forall i :: 0 <= i < |items| ==> LastSet(ops, items[i].key) == Some(items[i].value))
            && (forall i, j :: 0 <= i < j < |items| ==>
                  Later(LastUse(capacity, ops, items[i].key), LastUse(capacity, ops, items[j].key)))
            && (forall key :: Holds(items, key) <==> Held(capacity, ops, key))
  {
    hide Run, LastUse, LastSet, Held, Holds;
    RunTells(capacity, ops);
    var c := Run(Lru(capacity, []), ops).0;
    forall key
      ensures Holds(c.items, key) <==> Held(capacity, ops, key)
    {
      HeldIsThere(c, ops, key);
    }
    forall i, j | 0 <= i < j < |c.items|
      ensures Later(LastUse(capacity, ops, c.items[i].key), LastUse(capacity, ops, c.items[j].key))
    {
      var times := TimesOf(capacity, ops);
      assert Later(times(c.items[i].key), times(c.items[j].key));
    }
  }

  /** What the Gets of a history find on a new cache is what the calls alone say. */
  lemma RunAnswers<V(!new)>(capacity: nat, ops: seq<Op<V>>)
    requires capacity > 0
    ensures Run(Lru(capacity, []), ops).1 == Answers(capacity, ops)
  {
    hide Tells;
    RunTells(capacity, ops);
  }

  /** A cache driven by any list of calls finds what Run says, and that is what the calls alone say. */
  method Replay<V(!new)>(requested: int, ops: seq<Op<V>>) returns (found: seq<Option<V>>)
    ensures found == Run(Lru(Capacity(requested), []), ops).1
    ensures found == Answers(if requested <= 0 then 1 else requested, ops)
  {
    hide LRUCache.Valid, LRUCache.Model, Touch, Store, Entries, Answers;
    RunAnswers(Capacity(requested), ops);
    var lru := new LRUCache<V>(requested);
    found := [];
    var n := 0;
    while n < |ops|
      invariant 0 <= n <= |ops|
      invariant lru.Valid() && fresh(lru) && fresh(lru.ll)
      invariant forall e :: e in Entries(lru.ll.elems) ==> fresh(e)
      invariant found + Run(lru.Model(), ops[n..]).1 == Run(Lru(Capacity(requested), []), ops).1
    {
      assert ops[n..][1..] == ops[n + 1..];
      if ops[n].GetOp? {
        var r := lru.Get(ops[n].key);
        found := found + [r];
      } else {
        lru.Set(ops[n].key, ops[n].value);
      }
      n := n + 1;
    }
  }
}
