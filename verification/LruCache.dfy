/** The least-recently-used cache: a linked list of entries, most recent first, and a table from
    keys to places in it; and what a larger cache can tell about a smaller one. */
module LruCache {
  import opened Wrappers
  import opened CacheList

  // ---- Specification ----------------------------------------------------------------------

  datatype Item<V> = Item(key: string, value: V)

  /** A capacity and the entries, most recently used first. */
  datatype Lru<V> = Lru(capacity: nat, items: seq<Item<V>>)

  predicate Holds<V(!new)>(items: seq<Item<V>>, key: string) {
    exists i :: 0 <= i < |items| && items[i].key == key
  }

  function Lookup<V(!new)>(items: seq<Item<V>>, key: string): Option<V> {
    if items == [] then None
    else if items[0].key == key then Some(items[0].value)
    else Lookup(items[1..], key)
  }

  function Dropping<V(!new)>(items: seq<Item<V>>, key: string): seq<Item<V>> {
    if items == [] then []
    else if items[0].key == key then Dropping(items[1..], key)
    else [items[0]] + Dropping(items[1..], key)
  }

  function Touch<V(!new)>(c: Lru<V>, key: string): (Lru<V>, Option<V>) {
    match Lookup(c.items, key)
    case None => (c, None)
    case Some(v) => (c.(items := [Item(key, v)] + Dropping(c.items, key)), Some(v))
  }

  function Store<V(!new)>(c: Lru<V>, key: string, value: V): Lru<V> {
    var kept := if Lookup(c.items, key).Some? then Dropping(c.items, key)
                else if |c.items| >= c.capacity && c.items != [] then c.items[..|c.items| - 1]
                else c.items;
    c.(items := [Item(key, value)] + kept)
  }

  predicate DistinctKeys<V(!new)>(items: seq<Item<V>>) {
    forall i, j :: 0 <= i < j < |items| ==> items[i].key != items[j].key
  }

  predicate WellFormed<V(!new)>(c: Lru<V>) {
    c.capacity > 0 && |c.items| <= c.capacity && DistinctKeys(c.items)
  }

  // ---- Facts about item lists -------------------------------------------------------------

  lemma {:induction false} LookupHolds<V(!new)>(items: seq<Item<V>>, key: string)
    ensures Lookup(items, key).Some? <==> Holds(items, key)
  {
    if items != [] {
      LookupHolds(items[1..], key);
      if Holds(items[1..], key) {
        var i :| 0 <= i < |items[1..]| && items[1..][i].key == key;
        assert items[i + 1].key == key;
      }
      if Holds(items, key) && items[0].key != key {
        var i :| 0 <= i < |items| && items[i].key == key;
        assert items[1..][i - 1].key == key;
      }
    }
  }

  lemma {:induction false} DroppingFacts<V(!new)>(items: seq<Item<V>>, key: string)
    ensures |Dropping(items, key)| <= |items|
    ensures Holds(items, key) ==> |Dropping(items, key)| < |items|
    ensures !Holds(items, key) ==> Dropping(items, key) == items
    ensures forall x :: x in Dropping(items, key) <==> x in items && x.key != key
    ensures DistinctKeys(items) ==> DistinctKeys(Dropping(items, key))
  {
    hide Holds, DistinctKeys;
    if items == [] {
      NothingHeld<V>(key);
    } else {
      var rest := items[1..];
      DroppingFacts(rest, key);
      HoldsStep(items, key);
      if DistinctKeys(items) {
        HeadIsAlone(items);
        PrependDistinct(items[0], Dropping(rest, key));
      }
    }
  }

  lemma NothingHeld<V(!new)>(key: string)
    ensures !Holds<V>([], key) && DistinctKeys<V>([])
  {
  }

  lemma HeadIsAlone<V(!new)>(items: seq<Item<V>>)
    requires items != [] && DistinctKeys(items)
    ensures DistinctKeys(items[1..])
    ensures forall x :: x in items[1..] ==> x.key != items[0].key
    ensures !Holds(items[1..], items[0].key)
  {
    assert forall i :: 0 <= i < |items[1..]| ==> items[1..][i] == items[i + 1];
  }

  lemma HoldsStep<V(!new)>(items: seq<Item<V>>, key: string)
    ensures items != [] ==> (Holds(items, key) <==> items[0].key == key || Holds(items[1..], key))
  {
    if items != [] {
      assert forall i :: 0 <= i < |items[1..]| ==> items[1..][i] == items[i + 1];
    }
  }

  lemma PrependDistinct<V(!new)>(head: Item<V>, kept: seq<Item<V>>)
    requires DistinctKeys(kept) && forall x :: x in kept ==> x.key != head.key
    ensures DistinctKeys([head] + kept)
  {
    assert forall j :: 0 <= j < |kept| ==> kept[j] in kept;
  }

  lemma HoldsMember<V(!new)>(items: seq<Item<V>>, key: string)
    ensures Holds(items, key) <==> exists x :: x in items && x.key == key
  {
  }

  /** Keys stay distinct and the capacity is never exceeded. */
  lemma StepsKeepForm<V(!new)>(c: Lru<V>, key: string, value: V)
    requires WellFormed(c)
    ensures WellFormed(Touch(c, key).0) && WellFormed(Store(c, key, value))
  {
    LookupHolds(c.items, key);
    DroppingFacts(c.items, key);
    PrependDistinct(Item(key, value), Dropping(c.items, key));
    if Lookup(c.items, key).Some? {
      PrependDistinct(Item(key, Lookup(c.items, key).value), Dropping(c.items, key));
    } else {
      HoldsMember(c.items, key);
      var front := if c.items == [] then [] else c.items[..|c.items| - 1];
      PrependDistinct(Item(key, value), front);
    }
  }

  // ---- Inclusion --------------------------------------------------------------------------

  predicate Subsequence<V(==,!new)>(a: seq<Item<V>>, b: seq<Item<V>>) {
    if a == [] then true
    else if b == [] then false
    else if a[0] == b[0] then Subsequence(a[1..], b[1..])
    else Subsequence(a, b[1..])
  }

  /** A smaller cache inside a larger one: what it holds is in the larger one too, in the same order;
      and until it has filled up for the first time the two hold the same. */
  predicate Included<V(==,!new)>(small: Lru<V>, large: Lru<V>) {
    && WellFormed(small) && WellFormed(large)
    && small.capacity <= large.capacity
    && Subsequence(small.items, large.items)
    && (|small.items| < small.capacity ==> small.items == large.items)
  }

  lemma {:induction false} SubsequenceMembers<V(!new)>(a: seq<Item<V>>, b: seq<Item<V>>)
    requires Subsequence(a, b)
    ensures |a| <= |b| && forall x :: x in a ==> x in b
    decreases |b|
  {
    if a != [] {
      assert b == [b[0]] + b[1..] && a == [a[0]] + a[1..];
      if a[0] == b[0] {
        SubsequenceMembers(a[1..], b[1..]);
      } else {
        SubsequenceMembers(a, b[1..]);
      }
    }
  }

  lemma {:induction false} SubsequenceDropFirst<V(!new)>(a: seq<Item<V>>, b: seq<Item<V>>)
    requires Subsequence(a, b) && a != []
    ensures Subsequence(a[1..], b)
    decreases |b|
  {
    if a[0] == b[0] {
      SubsequenceSkip(a[1..], b[1..], b);
    } else {
      SubsequenceDropFirst(a, b[1..]);
      SubsequenceSkip(a[1..], b[1..], b);
    }
  }

  lemma {:induction false} SubsequenceSkip<V(!new)>(a: seq<Item<V>>, rest: seq<Item<V>>, b: seq<Item<V>>)
    requires b != [] && rest == b[1..] && Subsequence(a, rest)
    ensures Subsequence(a, b)
    decreases |b|, 1
  {
    if a != [] && a[0] == b[0] {
      SubsequenceDropFirst(a, rest);
    }
  }

  lemma {:induction false} SubsequenceDropping<V(!new)>(a: seq<Item<V>>, b: seq<Item<V>>, key: string)
    requires Subsequence(a, b)
    ensures Subsequence(Dropping(a, key), Dropping(b, key))
    decreases |b|
  {
    if a != [] {
      if a[0] == b[0] {
        SubsequenceDropping(a[1..], b[1..], key);
        if a[0].key != key {
          assert ([a[0]] + Dropping(a[1..], key))[1..] == Dropping(a[1..], key);
          assert ([b[0]] + Dropping(b[1..], key))[1..] == Dropping(b[1..], key);
        }
      } else {
        SubsequenceDropping(a, b[1..], key);
        if b[0].key != key {
          var kept := [b[0]] + Dropping(b[1..], key);
          assert kept[1..] == Dropping(b[1..], key);
          SubsequenceSkip(Dropping(a, key), Dropping(b[1..], key), kept);
        }
      }
    }
  }

  lemma SubsequenceCons<V(!new)>(x: Item<V>, a: seq<Item<V>>, b: seq<Item<V>>)
    requires Subsequence(a, b)
    ensures Subsequence([x] + a, [x] + b)
  {
    assert ([x] + a)[1..] == a && ([x] + b)[1..] == b;
  }

  /** Dropping the last of both, when the smaller list is not empty, keeps the order. */
  lemma {:induction false} SubsequenceDropLast<V(!new)>(a: seq<Item<V>>, b: seq<Item<V>>)
    requires Subsequence(a, b) && a != []
    ensures Subsequence(a[..|a| - 1], b[..|b| - 1])
    decreases |b|
  {
    var a1, b1 := a[..|a| - 1], b[..|b| - 1];
    if |a| > 1 {
      assert a1[0] == a[0];
      assert a1[1..] == a[1..][..|a[1..]| - 1];
      assert b1[1..] == b[1..][..|b[1..]| - 1];
      SubsequenceMembers(a, b);
      if a[0] == b[0] {
        SubsequenceDropLast(a[1..], b[1..]);
      } else {
        SubsequenceMembers(a, b[1..]);
        SubsequenceDropLast(a, b[1..]);
      }
    }
  }

  lemma {:induction false} SubsequencePrefix<V(!new)>(a: seq<Item<V>>, b: seq<Item<V>>)
    requires Subsequence(a, b) && a != []
    ensures Subsequence(a[..|a| - 1], b)
    decreases |b|
  {
    if a[0] == b[0] {
      if |a| > 1 {
        SubsequencePrefix(a[1..], b[1..]);
        assert a[..|a| - 1][1..] == a[1..][..|a[1..]| - 1];
      }
    } else {
      SubsequencePrefix(a, b[1..]);
      SubsequenceSkip(a[..|a| - 1], b[1..], b);
    }
  }

  lemma LookupIncluded<V(!new)>(small: Lru<V>, large: Lru<V>, key: string)
    requires Included(small, large)
    ensures Lookup(small.items, key).Some? ==> Lookup(large.items, key) == Lookup(small.items, key)
  {
    LookupHolds(small.items, key);
    if Lookup(small.items, key).Some? {
      SubsequenceMembers(small.items, large.items);
      LookupMember(small.items, key);
      LookupIs(large.items, Item(key, Lookup(small.items, key).value));
    }
  }

  lemma {:induction false} LookupMember<V(!new)>(items: seq<Item<V>>, key: string)
    requires Lookup(items, key).Some?
    ensures Item(key, Lookup(items, key).value) in items
  {
    if items[0].key != key {
      LookupMember(items[1..], key);
    }
  }

  lemma {:induction false} LookupIs<V(!new)>(items: seq<Item<V>>, x: Item<V>)
    requires DistinctKeys(items) && x in items
    ensures Lookup(items, x.key) == Some(x.value)
  {
    if items[0] != x {
      var i :| 0 <= i < |items| && items[i] == x;
      assert items[0].key != items[i].key;
      assert items[1..][i - 1] == x;
      assert forall j :: 0 <= j < |items[1..]| ==> items[1..][j] == items[j + 1];
      LookupIs(items[1..], x);
    }
  }

  /** Any read keeps the smaller cache inside the larger, and what it finds there the larger finds too. */
  lemma GetKeepsIncluded<V(!new)>(small: Lru<V>, large: Lru<V>, key: string, anything: V)
    requires Included(small, large)
    ensures Included(Touch(small, key).0, Touch(large, key).0)
    ensures Touch(small, key).1.Some? ==> Touch(large, key).1 == Touch(small, key).1
  {
    hide Subsequence, Dropping, Lookup;
    StepsKeepForm(small, key, anything);
    StepsKeepForm(large, key, anything);
    LookupIncluded(small, large, key);
    LookupHolds(small.items, key);
    LookupHolds(large.items, key);
    DroppingFacts(small.items, key);
    DroppingFacts(large.items, key);
    SubsequenceDropping(small.items, large.items, key);
    match Lookup(large.items, key)
    case None =>
    case Some(v) =>
      SubsequenceCons(Item(key, v), Dropping(small.items, key), Dropping(large.items, key));
      if Lookup(small.items, key).None? {
        var kept := Dropping(large.items, key);
        assert ([Item(key, v)] + kept)[1..] == kept;
        SubsequenceSkip(small.items, kept, [Item(key, v)] + kept);
      } else {
        DropOneKey(small.items, key);
      }
  }

  lemma {:induction false} DropOneKey<V(!new)>(items: seq<Item<V>>, key: string)
    requires DistinctKeys(items) && Holds(items, key)
    ensures |Dropping(items, key)| == |items| - 1
  {
    HoldsStep(items, key);
    HeadIsAlone(items);
    if items[0].key == key {
      DroppingFacts(items[1..], key);
    } else {
      DropOneKey(items[1..], key);
    }
  }

  /** So does any write. */
  lemma SetKeepsIncluded<V(!new)>(small: Lru<V>, large: Lru<V>, key: string, value: V)
    requires Included(small, large)
    ensures Included(Store(small, key, value), Store(large, key, value))
  {
    hide Subsequence, Dropping, Lookup;
    StepsKeepForm(small, key, value);
    StepsKeepForm(large, key, value);
    LookupIncluded(small, large, key);
    LookupHolds(small.items, key);
    LookupHolds(large.items, key);
    DroppingFacts(small.items, key);
    DroppingFacts(large.items, key);
    SubsequenceDropping(small.items, large.items, key);
    SubsequenceMembers(small.items, large.items);
    var keptSmall, keptLarge := Store(small, key, value).items[1..], Store(large, key, value).items[1..];
    if Lookup(small.items, key).Some? {
      DropOneKey(small.items, key);
    } else if Lookup(large.items, key).Some? {
      SubsequencePrefix(small.items, Dropping(large.items, key));
    } else if |small.items| >= small.capacity {
      if |large.items| >= large.capacity {
        SubsequenceDropLast(small.items, large.items);
      } else {
        SubsequencePrefix(small.items, large.items);
      }
    }
    assert Subsequence(keptSmall, keptLarge);
    SubsequenceCons(Item(key, value), keptSmall, keptLarge);
  }

  // ---- Whole histories --------------------------------------------------------------------

  datatype Op<V> = GetOp(key: string) | SetOp(key: string, value: V)

  function Run<V(!new)>(c: Lru<V>, ops: seq<Op<V>>): (Lru<V>, seq<Option<V>>)
    decreases |ops|
  {
    if ops == [] then (c, [])
    else
      match ops[0]
      case GetOp(key) =>
        var (c1, r) := Touch(c, key);
        var (c2, rs) := Run(c1, ops[1..]);
        (c2, [r] + rs)
      case SetOp(key, value) => Run(Store(c, key, value), ops[1..])
  }

  /** The inclusion property. Over any history, every hit in a cache is a hit, with the same value, in
      any cache of at least its capacity, and its recency list is a subsequence of the other's. */
  lemma {:induction false} LargerCacheHitsMore<V(!new)>(small: Lru<V>, large: Lru<V>, ops: seq<Op<V>>)
    requires Included(small, large)
    ensures var (s, hits) := Run(small, ops);
            var (l, others) := Run(large, ops);
            && Included(s, l)
            && |hits| == |others|
            && forall i :: 0 <= i < |hits| && hits[i].Some? ==> others[i] == hits[i]
    decreases |ops|
  {
    hide Included, Touch, Store;
    if ops != [] {
      match ops[0]
      case GetOp(key) =>
        if Touch(small, key).1.Some? {
          GetKeepsIncluded(small, large, key, Touch(small, key).1.value);
        } else if Touch(large, key).1.Some? {
          GetKeepsIncluded(small, large, key, Touch(large, key).1.value);
        } else {
          MissesKeepIncluded(small, large, key);
        }
        LargerCacheHitsMore(Touch(small, key).0, Touch(large, key).0, ops[1..]);
      case SetOp(key, value) =>
        SetKeepsIncluded(small, large, key, value);
        LargerCacheHitsMore(Store(small, key, value), Store(large, key, value), ops[1..]);
    }
  }

  lemma MissesKeepIncluded<V(!new)>(small: Lru<V>, large: Lru<V>, key: string)
    requires Touch(small, key).1.None? && Touch(large, key).1.None?
    ensures Touch(small, key).0 == small && Touch(large, key).0 == large
  {
  }

  /** From empty caches: NewLRUCache turns a capacity that is not positive into 1. */
  function Capacity(requested: int): nat {
    if requested <= 0 then 1 else requested
  }

  lemma FreshCachesAreIncluded<V(!new)>(a: int, b: int)
    requires a <= b
    ensures Included<V>(Lru(Capacity(a), []), Lru(Capacity(b), []))
  {
  }

  // ---- The cache itself -------------------------------------------------------------------

  class LruEntry<V> {
    const key: string
    var value: V

    constructor (key: string, value: V)
      ensures this.key == key && this.value == value
    {
      this.key, this.value := key, value;
    }
  }

  ghost function Entries<V>(elems: seq<Element<LruEntry<V>>>): set<LruEntry<V>> {
    set e | e in elems :: e.value
  }

  ghost function Items<V(!new)>(elems: seq<Element<LruEntry<V>>>): (items: seq<Item<V>>)
    reads Entries(elems)`value
    ensures |items| == |elems|
  {
    if elems == [] then [] else [Item(elems[0].value.key, elems[0].value.value)] + Items(elems[1..])
  }

  lemma {:induction false} ItemsAt<V(!new)>(elems: seq<Element<LruEntry<V>>>)
    ensures forall i :: 0 <= i < |elems| ==> Items(elems)[i] == Item(elems[i].value.key, elems[i].value.value)
  {
    if elems != [] {
      ItemsAt(elems[1..]);
    }
  }

  lemma ItemsCons<V(!new)>(e: Element<LruEntry<V>>, elems: seq<Element<LruEntry<V>>>)
    ensures Items([e] + elems) == [Item(e.value.key, e.value.value)] + Items(elems)
  {
    assert ([e] + elems)[1..] == elems;
  }

  lemma ItemsFront<V(!new)>(elems: seq<Element<LruEntry<V>>>)
    requires elems != []
    ensures Items(elems[..|elems| - 1]) == Items(elems)[..|elems| - 1]
  {
    ItemsAt(elems);
    ItemsAt(elems[..|elems| - 1]);
  }

  lemma {:induction false} ItemsWithout<V(!new)>(elems: seq<Element<LruEntry<V>>>, e: Element<LruEntry<V>>)
    requires forall x :: x in elems && x.value.key == e.value.key ==> x == e
    ensures Items(Without(elems, e)) == Dropping(Items(elems), e.value.key)
  {
    if elems != [] {
      ItemsWithout(elems[1..], e);
      assert Items(elems)[1..] == Items(elems[1..]);
      if elems[0] != e {
        var kept := Without(elems, e);
        assert kept[0] == elems[0] && kept[1..] == Without(elems[1..], e);
      }
    }
  }

  /** The table knows exactly the elements of the list, each under its entry's key. */
  predicate Indexed<V(!new)>(cache: map<string, Element<LruEntry<V>>>, elems: seq<Element<LruEntry<V>>>) {
    && Distinct(elems)
    && (forall k :: k in cache ==> cache[k] in elems && cache[k].value.key == k)
    && (forall e :: e in elems ==> e.value.key in cache && cache[e.value.key] == e)
  }

  /** Looking a key up in the table is looking it up in the list. */
  lemma IndexedLookup<V(!new)>(cache: map<string, Element<LruEntry<V>>>, elems: seq<Element<LruEntry<V>>>, key: string)
    requires Indexed(cache, elems)
    ensures Lookup(Items(elems), key) == if key in cache then Some(cache[key].value.value) else None
    ensures DistinctKeys(Items(elems))
    ensures key in cache ==> cache[key] in elems && cache[key].value.key == key
  {
    hide Dropping, Lookup, Items;
    ItemsAt(elems);
    LookupHolds(Items(elems), key);
    if key in cache {
      var i :| 0 <= i < |elems| && elems[i] == cache[key];
      LookupIs(Items(elems), Items(elems)[i]);
    }
  }

  lemma IndexedSame<V(!new)>(cache: map<string, Element<LruEntry<V>>>, elems: seq<Element<LruEntry<V>>>,
                             moved: seq<Element<LruEntry<V>>>)
    requires Indexed(cache, elems) && Distinct(moved)
    requires forall x :: x in moved <==> x in elems
    ensures Indexed(cache, moved)
  {
  }

  lemma IndexedMoved<V(!new)>(cache: map<string, Element<LruEntry<V>>>, elems: seq<Element<LruEntry<V>>>,
                              e: Element<LruEntry<V>>)
    requires Indexed(cache, elems) && e in elems
    ensures Indexed(cache, [e] + Without(elems, e)) && |[e] + Without(elems, e)| == |elems|
    ensures Items(Without(elems, e)) == Dropping(Items(elems), e.value.key)
    ensures e.value !in Entries(Without(elems, e))
  {
    hide Lookup, Dropping, Items, Without;
    WithoutDistinct(elems, e);
    IndexedSame(cache, elems, [e] + Without(elems, e));
    ItemsWithout(elems, e);
  }

  lemma IndexedDropLast<V(!new)>(cache: map<string, Element<LruEntry<V>>>, elems: seq<Element<LruEntry<V>>>)
    requires Indexed(cache, elems) && elems != []
    ensures var back := elems[|elems| - 1];
            && Without(elems, back) == elems[..|elems| - 1]
            && Indexed(cache - {back.value.key}, elems[..|elems| - 1])
  {
    hide Without, Distinct;
    var back, front := elems[|elems| - 1], elems[..|elems| - 1];
    WithoutAt(elems, |elems| - 1);
    assert front + elems[|elems|..] == front;
    FrontAndBack(elems);
    IndexedLess(cache, elems, front, back);
  }

  lemma FrontAndBack<T>(elems: seq<Element<T>>)
    requires Distinct(elems) && elems != []
    ensures var back, front := elems[|elems| - 1], elems[..|elems| - 1];
            Distinct(front) && forall x :: x in front <==> x in elems && x != back
  {
    var back, front := elems[|elems| - 1], elems[..|elems| - 1];
    assert elems == front + [back];
  }

  lemma IndexedLess<V(!new)>(cache: map<string, Element<LruEntry<V>>>, elems: seq<Element<LruEntry<V>>>,
                             rest: seq<Element<LruEntry<V>>>, e: Element<LruEntry<V>>)
    requires Indexed(cache, elems) && e in elems && Distinct(rest)
    requires forall x :: x in rest <==> x in elems && x != e
    ensures Indexed(cache - {e.value.key}, rest)
  {
  }

  lemma IndexedPush<V(!new)>(cache: map<string, Element<LruEntry<V>>>, elems: seq<Element<LruEntry<V>>>,
                             e: Element<LruEntry<V>>)
    requires Indexed(cache, elems) && e.value.key !in cache
    ensures Indexed(cache[e.value.key := e], [e] + elems)
  {
  }

  class LRUCache<V(!new)> {
    const capacity: nat
    const ll: List<LruEntry<V>>
    var cache: map<string, Element<LruEntry<V>>>

    ghost predicate Valid()
      reads this, ll
    {
      && 0 < capacity && |ll.elems| <= capacity
      && Indexed(cache, ll.elems)
    }

    ghost function Model(): Lru<V>
      reads this, ll, Entries(ll.elems)`value
    {
      Lru(capacity, Items(ll.elems))
    }

    constructor (requested: int)
      ensures Valid() && fresh(ll) && Entries(ll.elems) == {}
      ensures Model() == Lru(Capacity(requested), [])
    {
      capacity := if requested <= 0 then 1 else requested;
      ll := new List<LruEntry<V>>();
      cache := map[];
    }

    method Get(key: string) returns (r: Option<V>)
      requires Valid()
      modifies ll
      ensures Valid()
      ensures (Model(), r) == Touch(old(Model()), key)
      ensures Entries(ll.elems) == old(Entries(ll.elems))
    {
      hide Lookup, Dropping, Items, Indexed, DistinctKeys;
      IndexedLookup(cache, ll.elems, key);
      if key in cache {
        var elem := cache[key];
        IndexedMoved(cache, ll.elems, elem);
        ghost var rest := Without(ll.elems, elem);
        ll.MoveToFront(elem);
        assert forall x :: x in Entries(rest) ==> x.value == old(x.value);
        ItemsCons(elem, rest);
        r := Some(elem.value.value);
      } else {
        r := None;
      }
    }

    method Set(key: string, value: V)
      requires Valid()
      modifies this, ll, Entries(ll.elems)
      ensures Valid()
      ensures Model() == Store(old(Model()), key, value)
      ensures forall e :: e in Entries(ll.elems) ==> e in old(Entries(ll.elems)) || fresh(e)
    {
      hide Lookup, Dropping, Items, Indexed, DistinctKeys, Without, Distinct;
      IndexedLookup(cache, ll.elems, key);
      if key in cache {
        var elem := cache[key];
        IndexedMoved(cache, ll.elems, elem);
        ghost var rest := Without(ll.elems, elem);
        ll.MoveToFront(elem);
        elem.value.value := value;
        assert forall x :: x in Entries(rest) ==> x.value == old(x.value);
        ItemsCons(elem, rest);
        return;
      }
      if |ll.elems| >= capacity {
        var back := ll.Back();
        if back != null {
          IndexedDropLast(cache, ll.elems);
          ItemsFront(ll.elems);
          ll.Remove(back);
          cache := cache - {back.value.key};
        }
      }
      ghost var rest := ll.elems;
      assert forall x :: x in Entries(rest) ==> x.value == old(x.value);
      var entry := new LruEntry(key, value);
      var newElem := ll.PushFront(entry);
      IndexedPush(cache, rest, newElem);
      ItemsCons(newElem, rest);
      cache := cache[key := newElem];
    }

    method Len() returns (n: nat)
      requires Valid()
      ensures n == |Model().items|
    {
      n := ll.Len();
    }
  }
}
