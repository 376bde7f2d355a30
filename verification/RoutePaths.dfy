/** Request and route paths: splitting into segments, counting them, and the check that a
    registered path must pass. A path is a string of bytes. */
module RoutePaths {

  function TrimLeft(s: string): (t: string)
    ensures |t| <= |s| && t == s[|s| - |t|..]
    ensures t == "" || t[0] != '/'
    ensures forall i :: 0 <= i < |s| - |t| ==> s[i] == '/'
  {
    if s != "" && s[0] == '/' then TrimLeft(s[1..]) else s
  }

  function TrimRight(s: string): (t: string)
    ensures |t| <= |s| && t == s[..|t|]
    ensures t == "" || t[|t| - 1] != '/'
    ensures forall i :: |t| <= i < |s| ==> s[i] == '/'
  {
    if s != "" && s[|s| - 1] == '/' then TrimRight(s[..|s| - 1]) else s
  }

  function Trim(s: string): string {
    TrimRight(TrimLeft(s))
  }

  /** strings.Split(s, "/"): the pieces between slashes, empty ones included. */
  function Split(s: string): (segs: seq<string>)
    ensures |segs| > 0
    ensures forall seg :: seg in segs ==> '/' !in seg
  {
    if '/' in s then
      var i := IndexOf(s);
      [s[..i]] + Split(s[i + 1..])
    else [s]
  }

  function IndexOf(s: string): (i: nat)
    requires '/' in s
    ensures i < |s| && s[i] == '/' && '/' !in s[..i]
  {
    if s[0] == '/' then 0 else 1 + IndexOf(s[1..])
  }

  function Join(segs: seq<string>): string {
    if segs == [] then "" else if |segs| == 1 then segs[0] else segs[0] + "/" + Join(segs[1..])
  }

  /** Split and Join are inverse to each other. */
  lemma {:induction false} JoinSplit(s: string)
    ensures Join(Split(s)) == s
  {
    if '/' in s {
      var i := IndexOf(s);
      JoinSplit(s[i + 1..]);
      assert Split(s)[1..] == Split(s[i + 1..]);
      assert s == s[..i] + "/" + s[i + 1..];
    }
  }

  function SplitPathSegments(path: string): seq<string> {
    if Trim(path) == "" then [] else Split(Trim(path))
  }

  function Slashes(s: string): nat {
    if s == "" then 0 else (if s[0] == '/' then 1 else 0) + Slashes(s[1..])
  }

  lemma {:induction false} SlashesAppend(a: string, b: string)
    ensures Slashes(a + b) == Slashes(a) + Slashes(b)
  {
    if a == "" {
      assert a + b == b;
    } else {
      assert (a + b)[1..] == a[1..] + b;
      SlashesAppend(a[1..], b);
    }
  }

  lemma {:induction false} NoSlashes(s: string)
    requires '/' !in s
    ensures Slashes(s) == 0
  {
    if s != "" {
      NoSlashes(s[1..]);
    }
  }

  lemma {:induction false} SegmentsAreSlashesPlusOne(s: string)
    ensures |Split(s)| == Slashes(s) + 1
  {
    if '/' in s {
      var i := IndexOf(s);
      SegmentsAreSlashesPlusOne(s[i + 1..]);
      assert s == s[..i] + s[i..];
      SlashesAppend(s[..i], s[i..]);
      NoSlashes(s[..i]);
      assert s[i..][1..] == s[i + 1..];
    } else {
      NoSlashes(s);
    }
  }

  lemma {:induction false} TrimLeftIs(s: string, i: nat)
    requires i <= |s| && (forall k :: 0 <= k < i ==> s[k] == '/') && (i < |s| ==> s[i] != '/')
    ensures TrimLeft(s) == s[i..]
  {
    if i > 0 {
      TrimLeftIs(s[1..], i - 1);
      assert s[1..][i - 1..] == s[i..];
    }
  }

  lemma {:induction false} TrimRightIs(s: string, j: nat)
    requires j <= |s| && (forall k :: j <= k < |s| ==> s[k] == '/') && (j > 0 ==> s[j - 1] != '/')
    ensures TrimRight(s) == s[..j]
  {
    if j < |s| {
      TrimRightIs(s[..|s| - 1], j);
      assert s[..|s| - 1][..j] == s[..j];
    }
  }

  lemma TrimIs(path: string, i: nat, j: nat)
    requires i <= j <= |path|
    requires forall k :: 0 <= k < i || j <= k < |path| ==> path[k] == '/'
    requires i < j ==> path[i] != '/' && path[j - 1] != '/'
    ensures Trim(path) == path[i..j]
  {
    hide TrimLeft, TrimRight;
    if i < j {
      TrimLeftIs(path, i);
      var left := path[i..];
      assert forall k :: 0 <= k < |left| ==> left[k] == path[i + k];
      TrimRightIs(left, j - i);
    } else {
      TrimLeftIs(path, |path|);
      TrimRightIs("", 0);
    }
  }

  /** The index loop that avoids splitting counts the same segments. */
  method PathSegmentCount(path: string) returns (count: nat)
    ensures count == |SplitPathSegments(path)|
  {
    hide Trim, Slashes, Split;
    if path == "" {
      TrimIs(path, 0, 0);
      return 0;
    }
    var i := 0;
    var j := |path|;
    while i < j && path[i] == '/'
      invariant 0 <= i <= j == |path|
      invariant forall k :: 0 <= k < i ==> path[k] == '/'
    {
      i := i + 1;
    }
    while j > i && path[j - 1] == '/'
      invariant i <= j <= |path|
      invariant forall k :: j <= k < |path| ==> path[k] == '/'
    {
      j := j - 1;
    }
    TrimIs(path, i, j);
    if i >= j {
      return 0;
    }
    ghost var trimmed := path[i..j];
    count := 1;
    NoSlashes(trimmed[..0]);
    for k := i to j
      invariant count == 1 + Slashes(trimmed[..k - i])
    {
      OneMoreByte(trimmed, k - i);
      if path[k] == '/' {
        count := count + 1;
      }
    }
    assert trimmed[..j - i] == trimmed;
    SegmentsAreSlashesPlusOne(trimmed);
  }

  lemma OneMoreByte(s: string, k: nat)
    requires k < |s|
    ensures Slashes(s[..k + 1]) == Slashes(s[..k]) + if s[k] == '/' then 1 else 0
  {
    assert s[..k + 1] == s[..k] + [s[k]];
    SlashesAppend(s[..k], [s[k]]);
    assert [s[k]][1..] == "";
  }

  // ---- The check on registered paths ------------------------------------------------------

  predicate NoSlash(path: string, i: nat, j: nat)
    requires i <= j <= |path|
  {
    forall k :: i <= k < j ==> path[k] != '/'
  }

  /** No second wildcard before the segment that holds byte i ends. */
  predicate OneWildcard(path: string, i: nat)
    requires i <= |path|
  {
    forall j :: i <= j < |path| && NoSlash(path, i, j) ==> path[j] != ':' && path[j] != '*'
  }

  predicate ByteValid(path: string, i: nat)
    requires i < |path|
  {
    match path[i]
    case ':' => i + 1 < |path| && path[i + 1] != '/' && OneWildcard(path, i + 1)
    case '*' => i + 1 < |path| && (i > 0 ==> path[i - 1] == '/') && NoSlash(path, i, |path|)
    case '?' => false
    case _ => true
  }

  predicate ValidPath(path: string) {
    && path != "" && path[0] == '/'
    && forall i :: 0 <= i < |path| ==> ByteValid(path, i)
  }

  /** CheckPathValid panics exactly on the paths that are not valid. */
  method CheckPathValid(path: string) returns (panics: bool)
    ensures panics <==> !ValidPath(path)
  {
    if path == "" {
      return true;
    }
    if path[0] != '/' {
      return true;
    }
    for i := 0 to |path|
      invariant forall k :: 0 <= k < i ==> ByteValid(path, k)
    {
      match path[i] {
        case ':' =>
          if (i < |path| - 1 && path[i + 1] == '/') || i == |path| - 1 {
            assert !ByteValid(path, i);
            return true;
          }
          var j := i + 1;
          while j < |path| && path[j] != '/'
            invariant i + 1 <= j <= |path|
            invariant NoSlash(path, i + 1, j)
            invariant forall k :: i + 1 <= k < j ==> path[k] != ':' && path[k] != '*'
          {
            if path[j] == ':' || path[j] == '*' {
              assert !OneWildcard(path, i + 1);
              assert !ByteValid(path, i);
              return true;
            }
            j := j + 1;
          }
          assert OneWildcard(path, i + 1);
        case '*' =>
          if i == |path| - 1 {
            assert !ByteValid(path, i);
            return true;
          }
          if i > 0 && path[i - 1] != '/' {
            assert !ByteValid(path, i);
            return true;
          }
          for j := i to |path|
            invariant NoSlash(path, i, j)
          {
            if path[j] == '/' {
              assert !ByteValid(path, i);
              return true;
            }
          }
        case '?' =>
          assert !ByteValid(path, i);
          return true;
        case _ =>
      }
    }
    return false;
  }

  /** No slash stands behind a star. */
  ghost predicate StarsAreLast(s: string) {
    forall i, j :: 0 <= i <= j < |s| && s[i] == '*' ==> s[j] != '/'
  }

  /** In a valid path only the last segment can start a catch-all. */
  lemma CatchAllIsLast(path: string, k: nat)
    requires ValidPath(path)
    requires k + 1 < |SplitPathSegments(path)|
    ensures '*' !in SplitPathSegments(path)[k]
  {
    hide Split, TrimLeft, TrimRight;
    var left := TrimLeft(path);
    var s := Trim(path);
    var from := |path| - |left|;
    assert forall i :: 0 <= i < |s| ==> s[i] == left[i] == path[from + i];
    forall i, j | 0 <= i <= j < |s| && s[i] == '*'
      ensures s[j] != '/'
    {
      assert ByteValid(path, from + i);
    }
    StarInLastSegment(s, k);
  }

  lemma {:induction false} StarInLastSegment(s: string, k: nat)
    requires StarsAreLast(s)
    requires k + 1 < |Split(s)|
    ensures '*' !in Split(s)[k]
    decreases k
  {
    hide Split, IndexOf, StarsAreLast;
    SplitStep(s);
    var i := IndexOf(s);
    if k == 0 {
      NoStarBeforeSlash(s, i);
    } else {
      SuffixStarsAreLast(s, i + 1);
      StarInLastSegment(s[i + 1..], k - 1);
    }
  }

  lemma SplitStep(s: string)
    ensures Split(s) == if '/' in s then [s[..IndexOf(s)]] + Split(s[IndexOf(s) + 1..]) else [s]
  {
  }

  lemma NoStarBeforeSlash(s: string, i: nat)
    requires StarsAreLast(s) && i < |s| && s[i] == '/'
    ensures '*' !in s[..i]
  {
  }

  lemma SuffixStarsAreLast(s: string, n: nat)
    requires StarsAreLast(s) && n <= |s|
    ensures StarsAreLast(s[n..])
  {
  }
}
