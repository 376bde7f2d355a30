/** The LFU cache as the program keeps it: a table from keys to list elements, and one linked list of
    entries for every use count seen so far. Each call is proved against the cache of LfuCache. */
module LfuCacheObjects {
  import opened Wrappers
  import opened CacheList
  import opened LfuCache
  import opened LfuLists

  class LfuEntry<V> {
    const key: string
    var value: V
    var freq: int

    constructor (key: string, value: V, freq: int)
      ensures this.key == key && this.value == value && this.freq == freq
    {
      this.key, this.value, this.freq := key, value, freq;
    }
  }

  type Place<V> = Element<LfuEntry<V>>

  /** A linked list holds the elements the table has for these keys, in this order. */
  predicate Mirrors<V>(cache: map<string, Place<V>>, elems: seq<Place<V>>, keys: seq<string>) {
    && |elems| == |keys|
    && forall i :: 0 <= i < |keys| ==> keys[i] in cache && elems[i] == cache[keys[i]]
  }

  function PlacesAt<V>(places: map<int, seq<Place<V>>>, f: int): seq<Place<V>> {
    if f in places then places[f] else []
  }

  ghost predicate AllMirror<V>(cache: map<string, Place<V>>, places: map<int, seq<Place<V>>>, lists: Lists) {
    && places.Keys == lists.Keys
    && forall f: int :: Mirrors(cache, PlacesAt(places, f), Bucket(lists, f))
  }

  predicate KeyedRight<V>(cache: map<string, Place<V>>) {
    forall k :: k in cache ==> cache[k].value.key == k
  }

  datatype Content<V> = Content(value: V, freq: int)

  /** The entries carry the values and the counts. */
  ghost predicate Carried<V(!new)>(contents: map<string, Content<V>>, items: map<string, Item<V>>) {
    && contents.Keys == items.Keys
    && forall k :: k in contents ==> contents[k] == Content(items[k].value, items[k].count)
  }

  /** The table, the entries and the lists of an LFU cache in agreement with what it promises. */
  ghost predicate Books<V(!new)>(cache: map<string, Place<V>>, contents: map<string, Content<V>>,
                                 places: map<int, seq<Place<V>>>, c: Lfu<V>, lists: Lists)
  {
    && WellFormed(c)
    && cache.Keys == contents.Keys
    && KeyedRight(cache)
    && Carried(contents, c.items)
    && AllMirror(cache, places, lists)
    && Filed(c.items, lists)
  }

  // ---- Mirroring --------------------------------------------------------------------------

  lemma MirrorsRemoved<V(!new)>(cache: map<string, Place<V>>, elems: seq<Place<V>>, keys: seq<string>, key: string,
                                items: map<string, Item<V>>)
    requires KeyedRight(cache) && Mirrors(cache, elems, keys) && LatestFirst(items, keys) && key in keys
    ensures key in cache && Mirrors(cache, Without(elems, cache[key]), RemoveKey(keys, key))
    ensures elems != [] && (key == keys[|keys| - 1] ==> elems[|elems| - 1] == cache[key])
  {
    hide Without, RemoveKey, LatestFirst, Distinct, KeyedRight, Mirrors;
    var i :| 0 <= i < |keys| && keys[i] == key;
    MirrorsCut(cache, elems, keys, i);
    PlacesApart(cache, elems, keys, items);
    KeysApart(items, keys, i);
    RemoveKeyAt(keys, i);
    WithoutAt(elems, i);
  }

  lemma MirrorsCut<V>(cache: map<string, Place<V>>, elems: seq<Place<V>>, keys: seq<string>, i: nat)
    requires Mirrors(cache, elems, keys) && i < |keys|
    ensures |elems| == |keys| && keys[i] in cache && elems[i] == cache[keys[i]]
    ensures Mirrors(cache, elems[..i] + elems[i + 1..], keys[..i] + keys[i + 1..])
  {
  }

  lemma KeysApart<V(!new)>(items: map<string, Item<V>>, keys: seq<string>, i: nat)
    requires LatestFirst(items, keys) && i < |keys|
    ensures forall j :: 0 <= j < |keys| && j != i ==> keys[j] != keys[i]
  {
  }

  lemma PlacesApart<V(!new)>(cache: map<string, Place<V>>, elems: seq<Place<V>>, keys: seq<string>,
                             items: map<string, Item<V>>)
    requires KeyedRight(cache) && Mirrors(cache, elems, keys) && LatestFirst(items, keys)
    ensures Distinct(elems)
  {
    assert forall j :: 0 <= j < |elems| ==> elems[j].value.key == keys[j];
    forall i, j | 0 <= i < j < |elems|
      ensures elems[i] != elems[j]
    {
      assert keys[i] != keys[j];
    }
  }

  lemma MirrorsPushed<V>(cache: map<string, Place<V>>, elems: seq<Place<V>>, keys: seq<string>, key: string,
                         place: Place<V>)
    requires Mirrors(cache, elems, keys) && key !in keys
    ensures Mirrors(cache[key := place], [place] + elems, [key] + keys)
  {
  }

  lemma MirrorsLength<V>(cache: map<string, Place<V>>, elems: seq<Place<V>>, keys: seq<string>)
    requires Mirrors(cache, elems, keys)
    ensures |elems| == |keys|
  {
  }

  /** A list without the key does not notice its place changing or going. */
  lemma MirrorsStill<V>(cache: map<string, Place<V>>, elems: seq<Place<V>>, keys: seq<string>, key: string,
                        place: Place<V>)
    requires Mirrors(cache, elems, keys) && key !in keys
    ensures Mirrors(cache[key := place], elems, keys) && Mirrors(cache - {key}, elems, keys)
  {
  }

  function PlacesBumped<V>(places: map<int, seq<Place<V>>>, place: Place<V>, moved: Place<V>, f: int)
    : map<int, seq<Place<V>>>
  {
    places[f := Without(PlacesAt(places, f), place)][f + 1 := [moved] + PlacesAt(places, f + 1)]
  }

  /** Moving an entry to the next list, as an element of its own. */
  lemma BumpMirrors<V(!new)>(cache: map<string, Place<V>>, places: map<int, seq<Place<V>>>, lists: Lists,
                             items: map<string, Item<V>>, key: string, place: Place<V>)
    requires KeyedRight(cache) && AllMirror(cache, places, lists) && Filed(items, lists)
    requires key in cache && key in items
    ensures var f := items[key].count;
            AllMirror(cache[key := place], PlacesBumped(places, cache[key], place, f), Bumped(lists, key, f))
  {
    hide Mirrors, Without, RemoveKey, LatestFirst, Filed, KeyedRight;
    var f := items[key].count;
    var after, bumped := PlacesBumped(places, cache[key], place, f), Bumped(lists, key, f);
    assert f in lists && f in places by {
      FiledAt(items, lists, f);
    }
    forall g: int
      ensures Mirrors(cache[key := place], PlacesAt(after, g), Bucket(bumped, g))
    {
      var was, keys := PlacesAt(places, g), Bucket(lists, g);
      if g == f {
        BumpFrom(cache, was, keys, key, place, items, lists);
      } else {
        NotElsewhere(items, lists, key, g);
        MirrorsPushed(cache, was, keys, key, place);
        MirrorsStill(cache, was, keys, key, place);
        assert g != f + 1 ==> PlacesAt(after, g) == was && Bucket(bumped, g) == keys;
      }
    }
  }

  lemma NotElsewhere<V(!new)>(items: map<string, Item<V>>, lists: Lists, key: string, g: int)
    requires Filed(items, lists) && (key in items ==> items[key].count != g)
    ensures key !in Bucket(lists, g)
  {
    hide LatestFirst;
  }

  lemma BumpFrom<V(!new)>(cache: map<string, Place<V>>, elems: seq<Place<V>>, keys: seq<string>, key: string,
                          place: Place<V>, items: map<string, Item<V>>, lists: Lists)
    requires KeyedRight(cache) && Mirrors(cache, elems, keys) && key in cache
    requires Filed(items, lists) && key in items && keys == Bucket(lists, items[key].count)
    ensures Mirrors(cache[key := place], Without(elems, cache[key]), RemoveKey(keys, key))
  {
    hide Mirrors, Without, LatestFirst;
    FiledAt(items, lists, items[key].count);
    MirrorsRemoved(cache, elems, keys, key, items);
    MirrorsStill(cache, Without(elems, cache[key]), RemoveKey(keys, key), key, place);
  }

  /** Taking the last element off a list. */
  lemma GiveUpMirrors<V(!new)>(cache: map<string, Place<V>>, places: map<int, seq<Place<V>>>, lists: Lists,
                               items: map<string, Item<V>>, f: int)
    requires KeyedRight(cache) && AllMirror(cache, places, lists) && Filed(items, lists)
    requires f in lists && lists[f] != []
    ensures var keys := lists[f];
            var key := keys[|keys| - 1];
            && key in cache && key in items && places[f] != [] && places[f][|places[f]| - 1] == cache[key]
            && AllMirror(cache - {key}, places[f := Without(places[f], cache[key])], lists[f := keys[..|keys| - 1]])
  {
    hide Mirrors, Without, RemoveKey, LatestFirst, Filed, KeyedRight;
    var keys := lists[f];
    var key := keys[|keys| - 1];
    assert Mirrors(cache, PlacesAt(places, f), Bucket(lists, f));
    GiveUpFrom(cache, places[f], lists, f, items);
    var after, shorter := places[f := Without(places[f], cache[key])], lists[f := keys[..|keys| - 1]];
    forall g: int
      ensures Mirrors(cache - {key}, PlacesAt(after, g), Bucket(shorter, g))
    {
      var was, now := PlacesAt(places, g), Bucket(lists, g);
      if g != f {
        NotElsewhere(items, lists, key, g);
        MirrorsStill(cache, was, now, key, cache[key]);
        assert PlacesAt(after, g) == was && Bucket(shorter, g) == now;
      }
    }
  }

  lemma GiveUpFrom<V(!new)>(cache: map<string, Place<V>>, elems: seq<Place<V>>, lists: Lists, f: int,
                            items: map<string, Item<V>>)
    requires KeyedRight(cache) && Filed(items, lists) && Mirrors(cache, elems, Bucket(lists, f)) && Bucket(lists, f) != []
    ensures var keys := Bucket(lists, f);
            var key := keys[|keys| - 1];
            && key in cache && key in items && items[key].count == f
            && elems != [] && elems[|elems| - 1] == cache[key]
            && Mirrors(cache - {key}, Without(elems, cache[key]), keys[..|keys| - 1])
  {
    hide Mirrors, Without, RemoveKey, LatestFirst;
    var keys := Bucket(lists, f);
    var key := keys[|keys| - 1];
    FiledAt(items, lists, f);
    assert key in keys;
    MirrorsRemoved(cache, elems, keys, key, items);
    RemoveLast(items, keys);
    MirrorsStill(cache, Without(elems, cache[key]), keys[..|keys| - 1], key, cache[key]);
  }

  lemma AdmitMirrors<V(!new)>(cache: map<string, Place<V>>, places: map<int, seq<Place<V>>>, lists: Lists,
                              items: map<string, Item<V>>, key: string, place: Place<V>)
    requires AllMirror(cache, places, lists) && Filed(items, lists)
    requires key !in items
    ensures AllMirror(cache[key := place], places[1 := [place] + PlacesAt(places, 1)], lists[1 := [key] + Bucket(lists, 1)])
  {
    hide Mirrors, LatestFirst, Filed;
    var after, admitted := places[1 := [place] + PlacesAt(places, 1)], lists[1 := [key] + Bucket(lists, 1)];
    forall g: int
      ensures Mirrors(cache[key := place], PlacesAt(after, g), Bucket(admitted, g))
    {
      var was, keys := PlacesAt(places, g), Bucket(lists, g);
      NotElsewhere(items, lists, key, g);
      MirrorsPushed(cache, was, keys, key, place);
      MirrorsStill(cache, was, keys, key, place);
      assert g != 1 ==> PlacesAt(after, g) == was && Bucket(admitted, g) == keys;
    }
  }

  lemma BumpedPlaces<V>(places: map<int, seq<Place<V>>>, place: Place<V>, moved: Place<V>, f: int)
    requires f in places
    ensures var left := places[f := Without(places[f], place)];
            PlacesBumped(places, place, moved, f) == left[f + 1 := [moved] + PlacesAt(left, f + 1)]
  {
    hide Without;
  }

  ghost predicate EntriesApart<V>(cache: map<string, Place<V>>, key: string) {
    key in cache && forall k :: k in cache && k != key ==> cache[k].value != cache[key].value
  }

  lemma OthersApart<V>(cache: map<string, Place<V>>, key: string)
    requires KeyedRight(cache) && key in cache
    ensures EntriesApart(cache, key)
  {
    forall k | k in cache && k != key
      ensures cache[k].value != cache[key].value
    {
      assert cache[k].value.key == k && cache[key].value.key == key;
    }
  }

  /** Where a cached key is. */
  lemma Located<V(!new)>(cache: map<string, Place<V>>, contents: map<string, Content<V>>,
                         places: map<int, seq<Place<V>>>, c: Lfu<V>, lists: Lists, key: string)
    requires Books(cache, contents, places, c, lists)
    ensures key in cache <==> key in c.items
    ensures key in cache <==> key in contents
    ensures key in cache ==>
              && cache[key].value.key == key
              && contents[key] == Content(c.items[key].value, c.items[key].count)
              && c.items[key].count in places
              && EntriesApart(cache, key)
  {
    hide LatestFirst, Mirrors, TimesBelow, TimesApart, Filed;
    if key in cache {
      FiledAt(c.items, lists, c.items[key].count);
      OthersApart(cache, key);
    }
  }

  /** What a use does to the books, given the new element of the entry. */
  lemma BooksUsed<V(!new)>(cache: map<string, Place<V>>, contents: map<string, Content<V>>,
                           places: map<int, seq<Place<V>>>, c: Lfu<V>, lists: Lists, key: string, place: Place<V>)
    requires Books(cache, contents, places, c, lists) && key in cache && key in c.items && key in contents
    requires c.items[key].count in places
    requires place.value.key == key
    ensures var used := Used(c, key, c.items[key].value);
            var f := c.items[key].count;
            used.capacity == c.capacity
    ensures var used := Used(c, key, c.items[key].value);
            var f := c.items[key].count;
            var left := places[f := Without(places[f], cache[key])];
            Books(cache[key := place], contents[key := Content(contents[key].value, f + 1)],
                  left[f + 1 := [place] + PlacesAt(left, f + 1)], used, Bumped(lists, key, f))
  {
    hide Mirrors, LatestFirst, Bumped, PlacesBumped, TimesApart, TimesBelow, Filed, WellFormed, AllMirror;
    Located(cache, contents, places, c, lists, key);
    BumpedPlaces(places, cache[key], place, c.items[key].count);
    UseKeepsForm(c, key, c.items[key].value);
    FormHasTimes(c);
    UseKeepsFiled(c.items, lists, key, c.items[key].value, c.clock);
    BumpMirrors(cache, places, lists, c.items, key, place);
  }

  lemma FormHasTimes<V(!new)>(c: Lfu<V>)
    requires WellFormed(c)
    ensures TimesBelow(c.items, c.clock)
  {
  }

  /** How many keys stay on the list a key is taken from; whence the least count after a use. */
  lemma LeastUsed<V(!new)>(cache: map<string, Place<V>>, contents: map<string, Content<V>>,
                           places: map<int, seq<Place<V>>>, c: Lfu<V>, lists: Lists, key: string, minFreq: int)
    requires Books(cache, contents, places, c, lists) && LeastIs(lists, minFreq)
    requires key in cache && key in c.items && c.items[key].count in places
    ensures var f := c.items[key].count;
            var emptied := |Without(places[f], cache[key])| == 0 && f == minFreq;
            LeastIs(Bumped(lists, key, f), if emptied then minFreq + 1 else minFreq)
  {
    hide Mirrors, LatestFirst, Bumped, TimesApart, TimesBelow, Filed, WellFormed, RemoveKey, Without;
    var f := c.items[key].count;
    FiledAt(c.items, lists, f);
    assert Mirrors(cache, PlacesAt(places, f), Bucket(lists, f));
    BumpFrom(cache, places[f], Bucket(lists, f), key, cache[key], c.items, lists);
    MirrorsLength(cache[key := cache[key]], Without(places[f], cache[key]), RemoveKey(Bucket(lists, f), key));
    UseKeepsLeast(lists, minFreq, key, f);
  }

  ghost function Entries<V>(cache: map<string, Place<V>>): set<LfuEntry<V>> {
    set k | k in cache :: cache[k].value
  }

  ghost function Contents<V>(cache: map<string, Place<V>>): map<string, Content<V>>
    reads Entries(cache)`value, Entries(cache)`freq
  {
    map k | k in cache :: Content(cache[k].value.value, cache[k].value.freq)
  }

  lemma ContentsMoved<V>(cache: map<string, Place<V>>, key: string, place: Place<V>)
    requires key in cache && place.value == cache[key].value
    ensures Entries(cache[key := place]) == Entries(cache) && Contents(cache[key := place]) == Contents(cache)
  {
    var moved := cache[key := place];
    assert forall k :: k in cache ==> moved[k].value == cache[k].value;
  }

  lemma ContentsAt<V>(cache: map<string, Place<V>>, key: string)
    requires key in cache
    ensures key in Contents(cache) && Contents(cache)[key] == Content(cache[key].value.value, cache[key].value.freq)
    ensures cache[key].value in Entries(cache)
  {
  }

  lemma ContentsLess<V>(cache: map<string, Place<V>>, key: string)
    ensures Entries(cache - {key}) <= Entries(cache)
    ensures Contents(cache - {key}) == Contents(cache) - {key}
  {
  }

  method NewEntry<V>(key: string, value: V, ghost cache: map<string, Place<V>>) returns (entry: LfuEntry<V>)
    ensures fresh(entry) && entry.key == key && entry.value == value && entry.freq == 1
    ensures Contents(cache) == old(Contents(cache))
  {
    entry := new LfuEntry(key, value, 1);
  }

  method PushOn<V>(list: List<LfuEntry<V>>, entry: LfuEntry<V>, ghost cache: map<string, Place<V>>)
    returns (elem: Place<V>)
    modifies list`elems
    ensures elem.value == entry && list.elems == [elem] + old(list.elems)
    ensures Contents(cache) == old(Contents(cache))
  {
    elem := list.PushFront(entry);
  }

  method Revalue<V>(entry: LfuEntry<V>, value: V, ghost cache: map<string, Place<V>>, ghost key: string)
    requires EntriesApart(cache, key) && cache[key].value == entry
    modifies entry`value
    ensures key in old(Contents(cache))
    ensures Contents(cache) == old(Contents(cache))[key := Content(value, entry.freq)]
  {
    entry.value := value;
  }

  lemma BooksLater<V(!new)>(cache: map<string, Place<V>>, contents: map<string, Content<V>>,
                            places: map<int, seq<Place<V>>>, c: Lfu<V>, lists: Lists)
    requires Books(cache, contents, places, c, lists)
    ensures Books(cache, contents, places, c.(clock := c.clock + 1), lists)
  {
    hide AllMirror, Filed;
    LaterIsBelow(c);
  }

  function Revalued<V>(c: Lfu<V>, key: string, value: V): Lfu<V>
    requires key in c.items
  {
    c.(items := c.items[key := c.items[key].(value := value)])
  }

  lemma RevaluedForm<V(!new)>(c: Lfu<V>, key: string, value: V)
    requires WellFormed(c) && key in c.items
    ensures WellFormed(Revalued(c, key, value))
    ensures Used(Revalued(c, key, value), key, value) == Used(c, key, value)
  {
    var item := Item(value, c.items[key].count + 1, c.clock);
    assert Revalued(c, key, value).items.Keys == c.items.Keys;
    assert Revalued(c, key, value).items[key := item] == c.items[key := item];
  }

  lemma RevaluedCarried<V(!new)>(contents: map<string, Content<V>>, items: map<string, Item<V>>, key: string, value: V)
    requires Carried(contents, items) && key in items
    ensures Carried(contents[key := Content(value, contents[key].freq)], items[key := items[key].(value := value)])
  {
  }

  /** A new value under a cached key. */
  lemma BooksRevalued<V(!new)>(cache: map<string, Place<V>>, contents: map<string, Content<V>>,
                               places: map<int, seq<Place<V>>>, c: Lfu<V>, lists: Lists, key: string, value: V)
    requires Books(cache, contents, places, c, lists) && key in cache && key in c.items && key in contents
    ensures Books(cache, contents[key := Content(value, contents[key].freq)], places, Revalued(c, key, value), lists)
    ensures Used(Revalued(c, key, value), key, value) == Used(c, key, value)
  {
    hide AllMirror, Filed, WellFormed, Carried, KeyedRight, Used;
    RevaluedForm(c, key, value);
    RevaluedKeepsFiled(c.items, lists, key, value);
    RevaluedCarried(contents, c.items, key, value);
  }

  /** The key to give up, and the books without it. */
  lemma BooksWithout<V(!new)>(cache: map<string, Place<V>>, contents: map<string, Content<V>>,
                              places: map<int, seq<Place<V>>>, c: Lfu<V>, lists: Lists, minFreq: int)
    returns (victim: string, less: Lists)
    requires Books(cache, contents, places, c, lists) && LeastIs(lists, minFreq)
    ensures IsVictim(c.items, victim)
    ensures minFreq in lists && minFreq in places && places[minFreq] != []
    ensures victim in cache && places[minFreq][|places[minFreq]| - 1] == cache[victim] && cache[victim].value.key == victim
    ensures Books(cache - {victim}, contents - {victim}, places[minFreq := Without(places[minFreq], cache[victim])],
                  c.(items := c.items - {victim}), less)
  {
    hide AllMirror, Filed, LatestFirst, Mirrors, Without, IsVictim, TimesApart, TimesBelow;
    var keys := lists[minFreq];
    victim, less := keys[|keys| - 1], lists[minFreq := keys[..|keys| - 1]];
    assert places.Keys == lists.Keys by {
      SameCounts(cache, places, lists);
    }
    LastIsVictim(c.items, lists, minFreq);
    GivingUpKeepsFiled(c.items, lists, minFreq);
    GiveUpMirrors(cache, places, lists, c.items, minFreq);
    SmallerFits(c.items, victim, victim, Item(c.items[victim].value, 1, c.clock), c.clock);
    SizeAfter(c.items, victim, victim, c.items[victim]);
  }

  lemma SameCounts<V>(cache: map<string, Place<V>>, places: map<int, seq<Place<V>>>, lists: Lists)
    requires AllMirror(cache, places, lists)
    ensures places.Keys == lists.Keys
  {
  }

  /** An empty cache has only empty lists. */
  lemma NothingListed<V(!new)>(cache: map<string, Place<V>>, contents: map<string, Content<V>>,
                               places: map<int, seq<Place<V>>>, c: Lfu<V>, lists: Lists, f: int)
    requires Books(cache, contents, places, c, lists) && cache == map[] && f in places
    ensures places[f] == []
  {
    hide LatestFirst, Mirrors, WellFormed, KeyedRight;
    assert c.items.Keys == cache.Keys;
    FiledAt(c.items, lists, f);
    assert Mirrors(cache, PlacesAt(places, f), Bucket(lists, f));
    MirrorsLength(cache, places[f], lists[f]);
  }

  lemma AdmittedForm<V(!new)>(c: Lfu<V>, key: string, value: V)
    requires WellFormed(c) && key !in c.items && |c.items| < c.capacity
    ensures WellFormed(Lfu(c.capacity, c.items[key := Item(value, 1, c.clock)], c.clock + 1))
  {
    hide TimesApart, TimesBelow;
    SmallerFits(c.items, key, key, Item(value, 1, c.clock), c.clock);
    SizeAfter(c.items, key, key, Item(value, 1, c.clock));
  }

  lemma AdmittedCarried<V(!new)>(contents: map<string, Content<V>>, items: map<string, Item<V>>, key: string, value: V,
                                 clock: nat)
    requires Carried(contents, items)
    ensures Carried(contents[key := Content(value, 1)], items[key := Item(value, 1, clock)])
  {
  }

  /** A new key at the front of the list of count 1. */
  lemma BooksAdmitted<V(!new)>(cache: map<string, Place<V>>, contents: map<string, Content<V>>,
                               places: map<int, seq<Place<V>>>, c: Lfu<V>, lists: Lists, key: string, value: V,
                               place: Place<V>)
    returns (d: Lfu<V>, filed: Lists)
    requires Books(cache, contents, places, c, lists) && key !in cache && |cache| < c.capacity && place.value.key == key
    ensures d == Lfu(c.capacity, c.items[key := Item(value, 1, c.clock)], c.clock + 1)
    ensures LeastIs(filed, 1)
    ensures Books(cache[key := place], contents[key := Content(value, 1)], places[1 := [place] + PlacesAt(places, 1)],
                  d, filed)
  {
    hide AllMirror, Filed, LatestFirst, Mirrors, WellFormed, Carried, TimesBelow, PlacesAt, Bucket, LeastIs;
    SameSize(cache, contents, c.items);
    d, filed := Lfu(c.capacity, c.items[key := Item(value, 1, c.clock)], c.clock + 1), lists[1 := [key] + Bucket(lists, 1)];
    FormHasTimes(c);
    AdmittedForm(c, key, value);
    AdmissionKeepsFiled(c.items, lists, key, value, c.clock);
    AdmissionIsLeast(c.items, lists, key, c.clock);
    AdmitMirrors(cache, places, lists, c.items, key, place);
    AdmittedCarried(contents, c.items, key, value, c.clock);
  }

  lemma SameSize<V(!new)>(cache: map<string, Place<V>>, contents: map<string, Content<V>>, items: map<string, Item<V>>)
    requires cache.Keys == contents.Keys && Carried(contents, items)
    ensures cache.Keys == items.Keys && |cache| == |items|
  {
    assert |cache| == |cache.Keys| && |items| == |items.Keys|;
  }

  lemma FullAdmits<V(!new)>(c: Lfu<V>, kept: map<string, Item<V>>)
    requires |c.items| >= c.capacity
    requires exists victim :: IsVictim(c.items, victim) && kept == c.items - {victim}
    ensures Admits(c, kept)
  {
  }

  lemma RoomAdmits<V(!new)>(c: Lfu<V>)
    requires |c.items| < c.capacity
    ensures Admits(c, c.items)
  {
  }

  lemma SetsAdmitted<V(!new)>(c: Lfu<V>, kept: map<string, Item<V>>, key: string, value: V)
    requires Admits(c, kept) && key !in c.items
    ensures Sets(c, key, value, Lfu(c.capacity, kept[key := Item(value, 1, c.clock)], c.clock + 1))
  {
  }

  lemma BooksSize<V(!new)>(cache: map<string, Place<V>>, contents: map<string, Content<V>>,
                           places: map<int, seq<Place<V>>>, c: Lfu<V>, lists: Lists)
    requires Books(cache, contents, places, c, lists)
    ensures |cache| == |c.items| <= c.capacity
    ensures forall key :: key in cache <==> key in c.items
  {
    SameSize(cache, contents, c.items);
  }

  lemma ContentsMore<V>(cache: map<string, Place<V>>, key: string, place: Place<V>)
    ensures Entries(cache[key := place]) <= Entries(cache) + {place.value}
    ensures Contents(cache[key := place])
            == Contents(cache)[key := Content(place.value.value, place.value.freq)]
  {
  }

  lemma PutTwice<V>(places: map<int, seq<Place<V>>>, f: int, elem: Place<V>)
    ensures var listed := places[f := PlacesAt(places, f)];
            listed[f := [elem] + listed[f]] == places[f := [elem] + PlacesAt(places, f)]
  {
  }

  // ---- The cache --------------------------------------------------------------------------

  class LFUCache<V(!new)> {
    const capacity: nat
    var minFreq: int
    var cache: map<string, Place<V>>
    var freqToList: map<int, List<LfuEntry<V>>>
    ghost var model: Lfu<V>
    ghost var lists: Lists

    ghost function Places(): map<int, seq<Place<V>>>
      reads this`freqToList, freqToList.Values`elems
    {
      map f | f in freqToList :: freqToList[f].elems
    }

    ghost predicate ListsApart()
      reads this`freqToList
    {
      forall f, g :: f in freqToList && g in freqToList && f != g ==> freqToList[f] != freqToList[g]
    }

    /** Everything but the least count, which giving up a key may leave behind. */
    ghost predicate Sound()
      reads this, freqToList.Values`elems, Entries(cache)`value, Entries(cache)`freq
    {
      && model.capacity == capacity
      && ListsApart()
      && Books(cache, Contents(cache), Places(), model, lists)
    }

    ghost predicate Valid()
      reads this, freqToList.Values`elems, Entries(cache)`value, Entries(cache)`freq
    {
      Sound() && (cache != map[] ==> LeastIs(lists, minFreq))
    }

    lemma PlacesAreListed()
      ensures Places().Keys == freqToList.Keys
    {
    }

    lemma BooksAreSound()
      requires Valid()
      ensures Sound() && model.capacity == capacity
      ensures |cache| == |model.items| <= capacity
      ensures forall key :: key in cache <==> key in model.items
    {
      hide Books;
      BooksSize(cache, Contents(cache), Places(), model, lists);
    }

    lemma PlacesAreThere(f: int)
      requires f in freqToList
      ensures f in Places() && Places()[f] == freqToList[f].elems
    {
    }

    constructor (requested: int)
      ensures Valid() && fresh(freqToList.Values) && Entries(cache) == {}
      ensures model == Lfu(if requested <= 0 then 1 else requested, map[], 0) && model.capacity == capacity
    {
      capacity := if requested <= 0 then 1 else requested;
      minFreq := 0;
      cache := map[];
      freqToList := map[];
      model := Lfu(if requested <= 0 then 1 else requested, map[], 0);
      lists := map[];
    }

    /** Takes an element off the list of a count, and tells how many are left there. */
    method Unlink(freq: int, elem: Place<V>) returns (left: nat)
      requires ListsApart() && freq in freqToList
      modifies freqToList.Values`elems
      ensures Places() == old(Places())[freq := Without(old(Places())[freq], elem)]
      ensures left == |Places()[freq]|
      ensures Contents(cache) == old(Contents(cache))
    {
      hide Without;
      ghost var places := Places();
      var list := freqToList[freq];
      list.Remove(elem);
      left := list.Len();
      assert forall f :: f in freqToList && f != freq ==> freqToList[f].elems == places[f];
    }

    /** Makes the list of a count if there is none yet. */
    method EnsureList(freq: int)
      requires ListsApart()
      modifies this`freqToList
      ensures ListsApart() && freq in freqToList
      ensures Places() == old(Places())[freq := PlacesAt(old(Places()), freq)]
      ensures fresh(freqToList.Values - old(freqToList.Values))
      ensures Contents(cache) == old(Contents(cache))
    {
      if freq !in freqToList {
        var list := new List<LfuEntry<V>>();
        freqToList := freqToList[freq := list];
      }
    }

    /** One more use of an entry. */
    method Count(entry: LfuEntry<V>, ghost key: string)
      requires EntriesApart(cache, key) && cache[key].value == entry
      modifies entry`freq
      ensures entry.freq == old(entry.freq) + 1
      ensures key in old(Contents(cache))
      ensures Contents(cache) == old(Contents(cache))[key := Content(old(Contents(cache))[key].value, entry.freq)]
      ensures Places() == old(Places())
    {
      entry.freq := entry.freq + 1;
    }

    /** Puts an entry in front of the list a count has. */
    method PushAt(freq: int, entry: LfuEntry<V>) returns (elem: Place<V>)
      requires ListsApart() && freq in freqToList
      modifies freqToList.Values`elems
      ensures elem.value == entry
      ensures freq in old(Places()) && Places() == old(Places())[freq := [elem] + old(Places())[freq]]
      ensures Contents(cache) == old(Contents(cache))
    {
      hide Contents;
      ghost var places := Places();
      elem := PushOn(freqToList[freq], entry, cache);
      assert forall f :: f in freqToList && f != freq ==> freqToList[f].elems == places[f];
    }

    /** Puts an entry in front of the list of a count, made if there is none yet. */
    method PushTo(freq: int, entry: LfuEntry<V>) returns (elem: Place<V>)
      requires ListsApart()
      modifies this`freqToList, freqToList.Values`elems
      ensures ListsApart()
      ensures elem.value == entry
      ensures Places() == old(Places())[freq := [elem] + PlacesAt(old(Places()), freq)]
      ensures fresh(freqToList.Values - old(freqToList.Values))
      ensures Contents(cache) == old(Contents(cache))
    {
      hide Contents, PlacesAt, Places, ListsApart;
      EnsureList(freq);
      elem := PushAt(freq, entry);
      PutTwice(old(Places()), freq, elem);
    }

    /** The table after a change to the lists; the books are then closed. */
    method Settle(key: string, elem: Place<V>, ghost c: Lfu<V>, ghost filed: Lists)
      requires ListsApart() && c.capacity == capacity && LeastIs(filed, minFreq)
      requires Books(cache[key := elem], Contents(cache[key := elem]), Places(), c, filed)
      modifies this`cache, this`model, this`lists
      ensures Valid() && model == c && cache == old(cache)[key := elem]
    {
      hide Books, LeastIs, Places, ListsApart, Contents, Entries;
      model, lists := c, filed;
      cache := cache[key := elem];
    }

    /** The heap's part of a use: the entry leaves the list of its count for the front of the next. */
    method MoveUp(elem: Place<V>, ghost key: string) returns (newElem: Place<V>)
      requires ListsApart() && elem.value.freq in freqToList && EntriesApart(cache, key) && cache[key] == elem
      modifies this`minFreq, this`freqToList, freqToList.Values`elems, elem.value`freq
      ensures ListsApart() && newElem.value == elem.value
      ensures old(elem.value.freq) in old(Places()) && key in old(Contents(cache))
      ensures var f := old(elem.value.freq);
              var left := old(Places())[f := Without(old(Places())[f], elem)];
              && Places() == left[f + 1 := [newElem] + PlacesAt(left, f + 1)]
              && Contents(cache) == old(Contents(cache))[key := Content(old(Contents(cache))[key].value, f + 1)]
              && minFreq == if |left[f]| == 0 && f == old(minFreq) then old(minFreq) + 1 else old(minFreq)
      ensures fresh(freqToList.Values - old(freqToList.Values))
    {
      hide Without, Places, PlacesAt, ListsApart, Contents, EntriesApart;
      var entry := elem.value;
      var currentFreq := entry.freq;
      PlacesAreListed();
      var n := Unlink(currentFreq, elem);
      if n == 0 && currentFreq == minFreq {
        minFreq := minFreq + 1;
      }
      Count(entry, key);
      var newFreq := entry.freq;
      newElem := PushTo(newFreq, entry);
    }

    method IncrementFrequency(elem: Place<V>)
      requires Valid() && elem.value.key in cache && cache[elem.value.key] == elem
      modifies this, freqToList.Values`elems, elem.value`freq
      ensures Valid()
      ensures elem.value.key in old(model).items
      ensures model == Used(old(model), elem.value.key, old(model).items[elem.value.key].value)
      ensures fresh(freqToList.Values - old(freqToList.Values)) && Entries(cache) == old(Entries(cache))
    {
      hide Books, LeastIs, Bumped, Without, Places, PlacesBumped, PlacesAt, ListsApart, KeyedRight;
      hide Entries, Contents, EntriesApart, Used;
      ghost var key, contents, places, c := elem.value.key, Contents(cache), Places(), model;
      ContentsAt(cache, key);
      Located(cache, contents, places, c, lists, key);
      LeastUsed(cache, contents, places, c, lists, key, minFreq);
      PlacesAreListed();
      var newElem := MoveUp(elem, key);
      BooksUsed(cache, contents, places, c, lists, key, newElem);
      ContentsMoved(cache, key, newElem);
      Settle(elem.value.key, newElem, Used(c, key, c.items[key].value), Bumped(lists, key, c.items[key].count));
    }

    method Drop(key: string, ghost c: Lfu<V>, ghost filed: Lists)
      requires ListsApart() && c.capacity == capacity
      requires Books(cache - {key}, Contents(cache - {key}), Places(), c, filed)
      modifies this`cache, this`model, this`lists
      ensures Sound() && model == c && cache == old(cache) - {key}
    {
      hide Books, Places, ListsApart, Contents, Entries;
      model, lists := c, filed;
      cache := cache - {key};
    }

    method Evict()
      requires Valid()
      modifies this`cache, this`model, this`lists, freqToList.Values`elems
      ensures Sound()
      ensures Entries(cache) <= old(Entries(cache))
      ensures cache.Keys <= old(cache.Keys)
      ensures old(cache) == map[] ==> model == old(model)
      ensures old(cache) != map[] ==> |cache| < old(|cache|)
      ensures old(cache) != map[] ==>
                exists victim :: IsVictim(old(model).items, victim)
                                 && model == old(model).(items := old(model).items - {victim})
    {
      hide Books, LeastIs, Without, Places, ListsApart, Contents, Entries, IsVictim;
      ghost var contents, places, c, victim, less := Contents(cache), Places(), model, "", lists;
      PlacesAreListed();
      if cache == map[] {
        if minFreq in freqToList {
          NothingListed(cache, contents, places, c, lists, minFreq);
        }
      } else {
        victim, less := BooksWithout(cache, contents, places, c, lists, minFreq);
      }
      if minFreq !in freqToList {
        return;
      }
      PlacesAreThere(minFreq);
      var listToEvict := freqToList[minFreq];
      var n := listToEvict.Len();
      if n == 0 {
        return;
      }
      var elemToEvict := listToEvict.Back();
      var left := Unlink(minFreq, elemToEvict);
      ContentsLess(cache, elemToEvict.value.key);
      assert (cache - {elemToEvict.value.key}).Keys == cache.Keys - {elemToEvict.value.key};
      Drop(elemToEvict.value.key, c.(items := c.items - {victim}), less);
    }

    method Get(key: string) returns (r: Option<V>)
      requires Valid()
      modifies this, freqToList.Values`elems, Entries(cache)`freq
      ensures Valid()
      ensures (model, r) == Touch(old(model), key)
      ensures fresh(freqToList.Values - old(freqToList.Values)) && Entries(cache) == old(Entries(cache))
    {
      hide Books, LeastIs, Places, ListsApart, Contents, Entries, Used;
      Located(cache, Contents(cache), Places(), model, lists, key);
      if key !in cache {
        BooksLater(cache, Contents(cache), Places(), model, lists);
        model := model.(clock := model.clock + 1);
        return None;
      }
      ContentsAt(cache, key);
      var elem := cache[key];
      IncrementFrequency(elem);
      r := Some(elem.value.value);
    }

    method Set(key: string, value: V)
      requires Valid()
      modifies this, freqToList.Values`elems, Entries(cache)
      ensures Valid()
      ensures capacity > 0 ==> Sets(old(model), key, value, model)
      ensures capacity == 0 ==> model == old(model).(clock := old(model).clock + 1)
      ensures fresh(freqToList.Values - old(freqToList.Values))
      ensures forall e :: e in Entries(cache) ==> e in old(Entries(cache)) || fresh(e)
    {
      hide Books, LeastIs, Places, ListsApart, Contents, Entries, Used;
      if capacity <= 0 {
        BooksLater(cache, Contents(cache), Places(), model, lists);
        model := model.(clock := model.clock + 1);
        return;
      }
      Located(cache, Contents(cache), Places(), model, lists, key);
      if key in cache {
        ContentsAt(cache, key);
        var elem := cache[key];
        BooksRevalued(cache, Contents(cache), Places(), model, lists, key, value);
        Revalue(elem.value, value, cache, key);
        model := Revalued(model, key, value);
        IncrementFrequency(elem);
        return;
      }
      ghost var entry := Admit(key, value);
    }

    /** A key that is not cached: another is given up if the cache is full. */
    method Admit(key: string, value: V) returns (ghost entry: LfuEntry<V>)
      requires Valid() && capacity > 0 && key !in cache
      modifies this, freqToList.Values`elems
      ensures Valid()
      ensures key !in old(model).items && Sets(old(model), key, value, model)
      ensures fresh(freqToList.Values - old(freqToList.Values))
      ensures fresh(entry) && Entries(cache) <= old(Entries(cache)) + {entry}
    {
      hide LFUCache.Valid, LFUCache.Sound, Entries, Sets, Admits;
      BooksAreSound();
      MakeRoom();
      ghost var c, kept := old(model), model.items;
      entry := AddNew(key, value);
      assert model == Lfu(c.capacity, kept[key := Item(value, 1, c.clock)], c.clock + 1);
      SetsAdmitted(c, kept, key, value);
    }

    method MakeRoom()
      requires Valid() && capacity > 0
      modifies this`cache, this`model, this`lists, freqToList.Values`elems
      ensures Sound() && |cache| < capacity
      ensures Entries(cache) <= old(Entries(cache)) && cache.Keys <= old(cache.Keys)
      ensures Admits(old(model), model.items)
      ensures model.capacity == old(model).capacity && model.clock == old(model).clock
    {
      hide LFUCache.Valid, LFUCache.Sound, Entries, IsVictim, Admits;
      BooksAreSound();
      ghost var c := model;
      if |cache| >= capacity {
        Evict();
        FullAdmits(c, model.items);
      } else {
        RoomAdmits(c);
      }
    }

    /** A new key, for which there is room. */
    method AddNew(key: string, value: V) returns (ghost added: LfuEntry<V>)
      requires Sound() && key !in cache && |cache| < capacity
      modifies this, freqToList.Values`elems
      ensures Valid()
      ensures model == Lfu(old(model).capacity, old(model).items[key := Item(value, 1, old(model).clock)], old(model).clock + 1)
      ensures fresh(freqToList.Values - old(freqToList.Values))
      ensures fresh(added) && Entries(cache) <= old(Entries(cache)) + {added}
    {
      hide Books, LeastIs, Places, ListsApart, Contents, Entries, Used;
      ghost var contents, places := Contents(cache), Places();
      var entry := NewEntry(key, value, cache);
      added := entry;
      var newElem := PushTo(1, entry);
      minFreq := 1;
      assert Places() == places[1 := [newElem] + PlacesAt(places, 1)] && Contents(cache) == contents;
      ghost var c, filed := BooksAdmitted(cache, contents, places, model, lists, key, value, newElem);
      ContentsMore(cache, key, newElem);
      assert Contents(cache[key := newElem]) == contents[key := Content(value, 1)];
      Settle(key, newElem, c, filed);
    }

    method Len() returns (n: nat)
      requires Valid()
      ensures n == |model.items|
    {
      n := |cache|;
      assert |cache| == |cache.Keys|;
      assert |model.items| == |model.items.Keys|;
    }
  }

  /** A cache driven by any list of calls runs as LfuCache says, and a Get finds the last value set, if its key is
      held. */
  method Replay<V(!new)>(requested: int, ops: seq<Op<V>>) returns (found: seq<Option<V>>, ghost states: seq<Lfu<V>>)
    ensures IsRun(states, ops) && states[0].capacity == if requested <= 0 then 1 else requested
    ensures |found| == |ops|
    ensures forall i :: 0 <= i < |ops| ==>
              found[i] == if ops[i].GetOp? then Touch(states[i], ops[i].key).1 else None
    ensures forall i :: 0 <= i < |ops| ==>
              found[i] == if ops[i].GetOp? && ops[i].key in states[i].items then LastSet(ops[..i], ops[i].key) else None
  {
    hide LFUCache.Valid, Entries, Sets, Touch;
    var lfu := new LFUCache<V>(requested);
    found, states := [], [lfu.model];
    for n := 0 to |ops|
      invariant lfu.Valid() && lfu.capacity > 0
      invariant fresh(lfu) && fresh(lfu.freqToList.Values)
      invariant forall e :: e in Entries(lfu.cache) ==> fresh(e)
      invariant |found| == n && |states| == n + 1 && states[n] == lfu.model
      invariant states[0] == Lfu(if requested <= 0 then 1 else requested, map[], 0)
      invariant forall i :: 0 <= i < n ==> Step(states[i], ops[i], states[i + 1])
      invariant forall i :: 0 <= i < n ==> found[i] == if ops[i].GetOp? then Touch(states[i], ops[i].key).1 else None
    {
      if ops[n].GetOp? {
        var r := lfu.Get(ops[n].key);
        found := found + [r];
      } else {
        lfu.Set(ops[n].key, ops[n].value);
        found := found + [None];
      }
      states := states + [lfu.model];
    }
    forall i | 0 <= i < |ops|
      ensures found[i] == if ops[i].GetOp? && ops[i].key in states[i].items then LastSet(ops[..i], ops[i].key) else None
    {
      FoundIsLastSet(states, ops, i, ops[i].key);
    }
  }
}
