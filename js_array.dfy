/** The `Array.prototype` operations the widget calls on its code lists
    (`indexOf`, `splice`), together with `LastIndexOf` and the order
    relations that the results are stated in, which serve as specification
    helpers. */
module JsArray {

  /** `indexOf`: the first index holding x, or -1 when there is none. */
  function IndexOf<T(==)>(s: seq<T>, x: T): (i: int)
    ensures -1 <= i < |s|
    ensures i == -1 <==> x !in s
    ensures 0 <= i ==> s[i] == x && forall k :: 0 <= k < i ==> s[k] != x
    decreases |s|
  {
    if |s| == 0 then -1
    else if s[0] == x then 0
    else
      var j := IndexOf(s[1..], x);
      if j < 0 then -1
      else
        j + 1
  }

  /** The last index holding x, or -1 when there is none: a specification
      helper (the widget never calls `lastIndexOf`), used to say which record
      a later assignment leaves under a key. */
  function LastIndexOf<T(==)>(s: seq<T>, x: T): (i: int)
    ensures -1 <= i < |s|
    ensures i == -1 <==> x !in s
    ensures 0 <= i ==> s[i] == x && forall k :: i < k < |s| ==> s[k] != x
    decreases |s|
  {
    if |s| == 0 then -1
    else if s[|s| - 1] == x then |s| - 1
    else
      var init := s[..|s| - 1];
      var j := LastIndexOf(init, x);
      assert s == init + [s[|s| - 1]];
      j
  }

  /** The array that `splice(start, 1)` leaves behind. A negative start
      counts back from the end and is clamped at 0; a start at or past the
      end removes nothing. */
  function SpliceOne<T>(s: seq<T>, start: int): (r: seq<T>)
    ensures 0 < |s| && start < |s| ==> |r| == |s| - 1
    ensures |s| <= start ==> r == s
    ensures multiset(r) <= multiset(s)
  {
    var k := if start >= 0 then start else if |s| + start < 0 then 0 else |s| + start;
    if k < |s| then
      assert s == s[..k] + [s[k]] + s[k + 1..];
      s[..k] + s[k + 1..]
    else s
  }

  /** `s.splice(s.indexOf(x), 1)` with x present removes the first
      occurrence of x and nothing else. */
  lemma SpliceRemovesFirst<T>(s: seq<T>, x: T)
    requires x in s
    ensures var i := IndexOf(s, x);
      SpliceOne(s, i) == s[..i] + s[i + 1..] &&
      multiset(SpliceOne(s, i)) == multiset(s) - multiset{x}
  {
    var i := IndexOf(s, x);
    SpliceAt(s, i);
    RemoveAtMultiset(s, i);
  }

  lemma SpliceAt<T>(s: seq<T>, i: int)
    requires 0 <= i < |s|
    ensures SpliceOne(s, i) == s[..i] + s[i + 1..]
  {
  }

  lemma RemoveAtMultiset<T>(s: seq<T>, i: int)
    requires 0 <= i < |s|
    ensures multiset(s[..i] + s[i + 1..]) == multiset(s) - multiset{s[i]}
  {
    assert s[i..] == [s[i]] + s[i + 1..];
    assert s == s[..i] + s[i..];
  }

  /** `s.splice(s.indexOf(x), 1)` with x absent: indexOf gives -1, so the
      LAST element is removed instead (and an empty array stays empty). */
  lemma SpliceMissingRemovesLast<T>(s: seq<T>, x: T)
    requires x !in s
    ensures SpliceOne(s, IndexOf(s, x)) == if s == [] then [] else s[..|s| - 1]
  {
    if s != [] {
      assert SpliceOne(s, -1) == s[..|s| - 1] + s[|s|..];
    }
  }

  predicate NoDuplicates<T(==)>(s: seq<T>) {
    forall i, j :: 0 <= i < j < |s| ==> s[i] != s[j]
  }

  /** a is s with some elements left out, the rest in their original order. */
  predicate IsSubsequence<T(==)>(a: seq<T>, s: seq<T>)
    decreases |s|
  {
    |a| == 0 ||
    (|s| > 0 && ((a[0] == s[0] && IsSubsequence(a[1..], s[1..])) || IsSubsequence(a, s[1..])))
  }
}
