/** The filing of an LFU cache: its keys kept in one list per use count, the latest used in front,
    with the least count in use remembered; and why the end of that list is the key to give up. */
module LfuLists {
  import opened LfuCache

  type Lists = map<int, seq<string>>

  function Bucket(lists: Lists, f: int): seq<string> {
    if f in lists then lists[f] else []
  }

  predicate LatestFirst<V(!new)>(items: map<string, Item<V>>, keys: seq<string>) {
    && (forall i :: 0 <= i < |keys| ==> keys[i] in items)
    && (forall i, j :: 0 <= i < j < |keys| ==> items[keys[i]].last > items[keys[j]].last)
  }

  /** Every key is in the list of its own count and nowhere else, and the lists are in order of use. */
  ghost predicate Filed<V(!new)>(items: map<string, Item<V>>, lists: Lists) {
    && (forall k :: k in items ==> k in Bucket(lists, items[k].count))
    && (forall f: int, k :: k in Bucket(lists, f) ==> k in items && items[k].count == f)
    && (forall f: int :: LatestFirst(items, Bucket(lists, f)))
  }

  lemma FiledAt<V(!new)>(items: map<string, Item<V>>, lists: Lists, f: int)
    requires Filed(items, lists)
    ensures forall k :: k in Bucket(lists, f) <==> k in items && items[k].count == f
    ensures LatestFirst(items, Bucket(lists, f))
    ensures Bucket(lists, f) != [] ==> Bucket(lists, f)[0] in items && items[Bucket(lists, f)[0]].count == f
  {
    if Bucket(lists, f) != [] {
      var k := Bucket(lists, f)[0];
      assert k in Bucket(lists, f);
    }
  }

  /** The remembered count is the least one in use. */
  ghost predicate LeastIs(lists: Lists, minFreq: int) {
    Bucket(lists, minFreq) != [] && forall f: int :: f < minFreq ==> Bucket(lists, f) == []
  }

  function RemoveKey(keys: seq<string>, key: string): (r: seq<string>)
    ensures key !in r
  {
    if keys == [] then []
    else if keys[0] == key then RemoveKey(keys[1..], key)
    else [keys[0]] + RemoveKey(keys[1..], key)
  }

  lemma {:induction false} RemoveKeyAt(keys: seq<string>, i: nat)
    requires i < |keys| && forall j :: 0 <= j < |keys| && j != i ==> keys[j] != keys[i]
    ensures RemoveKey(keys, keys[i]) == keys[..i] + keys[i + 1..]
  {
    if i == 0 {
      RemoveKeyAbsent(keys[1..], keys[0]);
    } else {
      RemoveKeyAt(keys[1..], i - 1);
      assert keys[1..][..i - 1] == keys[1..i] && keys[1..][i..] == keys[i + 1..];
      assert keys[..i] == [keys[0]] + keys[1..i];
    }
  }

  lemma {:induction false} RemoveKeyAbsent(keys: seq<string>, key: string)
    requires key !in keys
    ensures RemoveKey(keys, key) == keys
  {
    if keys != [] {
      RemoveKeyAbsent(keys[1..], key);
    }
  }

  /** Leaving one key out of a list in order of use. */
  lemma RemovedLatestFirst<V(!new)>(items: map<string, Item<V>>, keys: seq<string>, key: string)
    requires LatestFirst(items, keys)
    ensures LatestFirst(items, RemoveKey(keys, key))
    ensures forall k :: k in RemoveKey(keys, key) <==> k in keys && k != key
  {
    if key in keys {
      var i :| 0 <= i < |keys| && keys[i] == key;
      RemoveKeyAt(keys, i);
    } else {
      RemoveKeyAbsent(keys, key);
    }
  }

  lemma PushedLatestFirst<V(!new)>(items: map<string, Item<V>>, keys: seq<string>, key: string, item: Item<V>)
    requires LatestFirst(items, keys) && key !in keys
    requires forall k :: k in keys ==> items[k].last < item.last
    ensures LatestFirst(items[key := item], [key] + keys)
  {
    var all := [key] + keys;
    assert forall i :: 0 <= i < |keys| ==> all[i + 1] == keys[i] && keys[i] in keys;
  }

  lemma OthersLatestFirst<V(!new)>(items: map<string, Item<V>>, other: map<string, Item<V>>, keys: seq<string>)
    requires LatestFirst(items, keys)
    requires forall k :: k in keys ==> k in other && other[k].last == items[k].last
    ensures LatestFirst(other, keys)
  {
    assert forall i :: 0 <= i < |keys| ==> keys[i] in keys;
  }

  // ---- Use --------------------------------------------------------------------------------

  function Bumped(lists: Lists, key: string, f: int): Lists {
    var without := lists[f := RemoveKey(Bucket(lists, f), key)];
    without[f + 1 := [key] + Bucket(lists, f + 1)]
  }

  /** A use moves the key to the front of the next list. */
  lemma UseKeepsFiled<V(!new)>(items: map<string, Item<V>>, lists: Lists, key: string, value: V, clock: nat)
    requires Filed(items, lists) && TimesBelow(items, clock) && key in items
    ensures var f := items[key].count;
            Filed(items[key := Item(value, f + 1, clock)], Bumped(lists, key, f))
  {
    hide LatestFirst, RemoveKey;
    var f := items[key].count;
    var used, bumped := items[key := Item(value, f + 1, clock)], Bumped(lists, key, f);
    RemovedLatestFirst(items, Bucket(lists, f), key);
    forall g: int
      ensures forall k :: k in Bucket(bumped, g) <==> k in used && used[k].count == g
      ensures LatestFirst(used, Bucket(bumped, g))
    {
      assert LatestFirst(items, Bucket(lists, g));
      if g == f + 1 {
        PushedLatestFirst(items, Bucket(lists, g), key, used[key]);
      } else {
        OthersLatestFirst(items, used, if g == f then RemoveKey(Bucket(lists, f), key) else Bucket(lists, g));
      }
    }
  }

  lemma UseKeepsLeast(lists: Lists, minFreq: int, key: string, f: int)
    requires LeastIs(lists, minFreq) && key in Bucket(lists, f)
    ensures var emptied := RemoveKey(Bucket(lists, f), key) == [] && f == minFreq;
            LeastIs(Bumped(lists, key, f), if emptied then minFreq + 1 else minFreq)
  {
    var bumped := Bumped(lists, key, f);
    assert f >= minFreq;
    assert forall g: int :: g != f && g != f + 1 ==> Bucket(bumped, g) == Bucket(lists, g);
    assert Bucket(bumped, f) == RemoveKey(Bucket(lists, f), key);
    assert Bucket(bumped, f + 1) != [];
  }

  // ---- Giving up a key --------------------------------------------------------------------

  /** The end of the list of the least count is the key used least often, and of those the one used
      longest ago. */
  lemma LastIsVictim<V(!new)>(items: map<string, Item<V>>, lists: Lists, minFreq: int)
    requires Filed(items, lists) && LeastIs(lists, minFreq)
    ensures var keys := Bucket(lists, minFreq); IsVictim(items, keys[|keys| - 1])
  {
    hide LatestFirst;
    var keys := Bucket(lists, minFreq);
    var last := keys[|keys| - 1];
    FiledAt(items, lists, minFreq);
    assert last in keys;
    forall k | k in items && k != last
      ensures Before(items[last], items[k])
    {
      assert k in Bucket(lists, items[k].count);
      if items[k].count == minFreq {
        LastIsOldest(items, keys, k);
      }
    }
  }

  lemma LastIsOldest<V(!new)>(items: map<string, Item<V>>, keys: seq<string>, key: string)
    requires LatestFirst(items, keys) && key in keys && key != keys[|keys| - 1]
    ensures keys[|keys| - 1] in items && key in items && items[keys[|keys| - 1]].last < items[key].last
  {
    var i :| 0 <= i < |keys| && keys[i] == key;
  }

  /** While there are keys, there is a least count in use. */
  lemma LeastIsInUse<V(!new)>(items: map<string, Item<V>>, lists: Lists, minFreq: int)
    requires Filed(items, lists) && LeastIs(lists, minFreq)
    ensures forall k :: k in items ==> minFreq <= items[k].count
    ensures exists k :: k in items && items[k].count == minFreq
  {
    hide LatestFirst;
    FiledAt(items, lists, minFreq);
    var k := Bucket(lists, minFreq)[0];
    assert k in items && items[k].count == minFreq;
    assert forall k :: k in items ==> k in Bucket(lists, items[k].count);
  }

  lemma RemoveLast<V(!new)>(items: map<string, Item<V>>, keys: seq<string>)
    requires LatestFirst(items, keys) && keys != []
    ensures RemoveKey(keys, keys[|keys| - 1]) == keys[..|keys| - 1]
    ensures LatestFirst(items, keys[..|keys| - 1])
    ensures forall k :: k in keys[..|keys| - 1] <==> k in keys && k != keys[|keys| - 1]
  {
    hide RemoveKey;
    RemoveKeyAt(keys, |keys| - 1);
    assert keys[..|keys| - 1] + keys[|keys|..] == keys[..|keys| - 1];
    RemovedLatestFirst(items, keys, keys[|keys| - 1]);
  }

  lemma GivingUpKeepsFiled<V(!new)>(items: map<string, Item<V>>, lists: Lists, f: int)
    requires Filed(items, lists) && Bucket(lists, f) != []
    ensures var keys := Bucket(lists, f);
            Filed(items - {keys[|keys| - 1]}, lists[f := keys[..|keys| - 1]])
  {
    hide RemoveKey, LatestFirst;
    var keys := Bucket(lists, f);
    var key, rest := keys[|keys| - 1], keys[..|keys| - 1];
    assert LatestFirst(items, keys);
    assert key in keys;
    RemoveLast(items, keys);
    var kept, shorter := items - {key}, lists[f := rest];
    forall g: int
      ensures forall k :: k in Bucket(shorter, g) <==> k in kept && kept[k].count == g
      ensures LatestFirst(kept, Bucket(shorter, g))
    {
      FiledAt(items, lists, g);
      OthersLatestFirst(items, kept, Bucket(shorter, g));
    }
  }

  // ---- Admission --------------------------------------------------------------------------

  lemma AdmissionKeepsFiled<V(!new)>(items: map<string, Item<V>>, lists: Lists, key: string, value: V, clock: nat)
    requires Filed(items, lists) && TimesBelow(items, clock) && key !in items
    ensures var admitted := lists[1 := [key] + Bucket(lists, 1)];
            Filed(items[key := Item(value, 1, clock)], admitted)
  {
    hide LatestFirst;
    var item := Item(value, 1, clock);
    var more, admitted := items[key := item], lists[1 := [key] + Bucket(lists, 1)];
    forall g: int
      ensures forall k :: k in Bucket(admitted, g) <==> k in more && more[k].count == g
      ensures LatestFirst(more, Bucket(admitted, g))
    {
      assert LatestFirst(items, Bucket(lists, g));
      if g == 1 {
        PushedLatestFirst(items, Bucket(lists, 1), key, item);
      } else {
        OthersLatestFirst(items, more, Bucket(lists, g));
      }
    }
  }

  lemma AdmissionIsLeast<V(!new)>(items: map<string, Item<V>>, lists: Lists, key: string, clock: nat)
    requires Filed(items, lists) && TimesBelow(items, clock)
    ensures LeastIs(lists[1 := [key] + Bucket(lists, 1)], 1)
  {
    hide LatestFirst;
    var admitted := lists[1 := [key] + Bucket(lists, 1)];
    assert Bucket(admitted, 1)[0] == key;
    forall g: int | g < 1
      ensures Bucket(admitted, g) == []
    {
      assert Bucket(admitted, g) == Bucket(lists, g);
      FiledAt(items, lists, g);
    }
  }

  /** The values stored have no part in the filing. */
  lemma RevaluedKeepsFiled<V(!new)>(items: map<string, Item<V>>, lists: Lists, key: string, value: V)
    requires Filed(items, lists) && key in items
    ensures Filed(items[key := items[key].(value := value)], lists)
  {
    hide LatestFirst;
    var other := items[key := items[key].(value := value)];
    forall g: int
      ensures LatestFirst(other, Bucket(lists, g))
    {
      assert LatestFirst(items, Bucket(lists, g));
      OthersLatestFirst(items, other, Bucket(lists, g));
    }
  }
}
