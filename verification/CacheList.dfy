/** container/list of Go's standard library, as far as the caches use it. An element is a place
    in a list; what it carries never changes. */
module CacheList {

  class Element<T> {
    const value: T

    constructor (value: T)
      ensures this.value == value
    {
      this.value := value;
    }
  }

  function Without<T>(s: seq<Element<T>>, x: Element<T>): (r: seq<Element<T>>)
    ensures x !in r
    ensures forall y :: y in r ==> y in s
    ensures forall y :: y in s && y != x ==> y in r
    ensures |r| <= |s| && (x in s ==> |r| < |s|)
  {
    if s == [] then []
    else if s[0] == x then Without(s[1..], x)
    else [s[0]] + Without(s[1..], x)
  }

  predicate Distinct<T>(s: seq<Element<T>>) {
    forall i, j :: 0 <= i < j < |s| ==> s[i] != s[j]
  }

  lemma {:induction false} WithoutAt<T>(s: seq<Element<T>>, i: nat)
    requires i < |s| && Distinct(s)
    ensures Without(s, s[i]) == s[..i] + s[i + 1..]
  {
    if i == 0 {
      WithoutAbsent(s[1..], s[0]);
    } else {
      WithoutAt(s[1..], i - 1);
      assert s[1..][..i - 1] == s[1..i] && s[1..][i..] == s[i + 1..];
      assert s[..i] == [s[0]] + s[1..i];
    }
  }

  lemma {:induction false} WithoutAbsent<T>(s: seq<Element<T>>, x: Element<T>)
    requires x !in s
    ensures Without(s, x) == s
  {
    if s != [] {
      WithoutAbsent(s[1..], x);
    }
  }

  lemma {:induction false} WithoutDistinct<T>(s: seq<Element<T>>, x: Element<T>)
    requires Distinct(s)
    ensures Distinct([x] + Without(s, x)) && (x in s ==> |Without(s, x)| == |s| - 1)
  {
    if s != [] {
      WithoutDistinct(s[1..], x);
      ConsDistinct(x, Without(s[1..], x));
      if s[0] == x {
        WithoutAbsent(s[1..], x);
      } else {
        ConsDistinct(s[0], Without(s[1..], x));
        ConsDistinct(x, Without(s, x));
      }
    }
  }

  lemma ConsDistinct<T>(x: Element<T>, s: seq<Element<T>>)
    requires x !in s
    ensures Distinct([x] + s) <==> Distinct(s)
  {
    assert ([x] + s)[1..] == s;
    assert forall i :: 0 <= i < |s| ==> ([x] + s)[i + 1] == s[i];
  }

  class List<T> {
    var elems: seq<Element<T>>

    constructor ()
      ensures elems == []
    {
      elems := [];
    }

    function Len(): nat
      reads `elems
    {
      |elems|
    }

    function Back(): Element?<T>
      reads `elems
    {
      if |elems| == 0 then null else elems[|elems| - 1]
    }

    method PushFront(value: T) returns (e: Element<T>)
      modifies `elems
      ensures fresh(e) && e.value == value && elems == [e] + old(elems)
    {
      e := new Element(value);
      elems := [e] + elems;
    }

    /** Removing an element of another list has no effect. */
    method Remove(e: Element<T>)
      modifies `elems
      ensures elems == Without(old(elems), e)
    {
      elems := Without(elems, e);
    }

    method MoveToFront(e: Element<T>)
      modifies `elems
      ensures elems == if e in old(elems) then [e] + Without(old(elems), e) else old(elems)
    {
      if e in elems {
        elems := [e] + Without(elems, e);
      }
    }
  }
}
