/** Character classes, case folding and trimming as the widget's regular
    expressions and string methods see them (ASCII case folding only). */
module Text {

  /** `\w` in a JavaScript regular expression without the `u` flag. */
  predicate IsWordChar(c: char) {
    ('A' <= c <= 'Z') || ('a' <= c <= 'z') || ('0' <= c <= '9') || c == '_'
  }

  /** `\s`: the ECMAScript WhiteSpace and LineTerminator code points, which
      are also the characters `String.prototype.trim` strips. */
  predicate IsSpace(c: char) {
    var n := c as int;
    (9 <= n <= 13) || n == 0x20 || n == 0xA0 || n == 0x1680 ||
    (0x2000 <= n <= 0x200A) || n == 0x2028 || n == 0x2029 ||
    n == 0x202F || n == 0x205F || n == 0x3000 || n == 0xFEFF
  }

  predicate AllWord(s: string) {
    forall i :: 0 <= i < |s| ==> IsWordChar(s[i])
  }

  predicate AllSpace(s: string) {
    forall i :: 0 <= i < |s| ==> IsSpace(s[i])
  }

  /** `toUpperCase` on one character, for the ASCII letters. */
  function UpperChar(c: char): (u: char)
    ensures !('a' <= u <= 'z')
    ensures IsWordChar(c) <==> IsWordChar(u)
  {
    if 'a' <= c <= 'z' then (c as int - 32) as char else c
  }

  /** Case-insensitive equality of the `i` flag: both characters fold to
      the same upper-case character. */
  predicate EqI(a: char, b: char) {
    UpperChar(a) == UpperChar(b)
  }

  /** `String.prototype.toUpperCase` (ASCII letters only). */
  function ToUpper(s: string): (r: string)
    ensures |r| == |s|
    ensures forall i :: 0 <= i < |s| ==> EqI(r[i], s[i]) && !('a' <= r[i] <= 'z')
    ensures AllWord(s) ==> AllWord(r)
  {
    seq(|s|, i requires 0 <= i < |s| => UpperChar(s[i]))
  }

  /** `String.prototype.charAt(i)`: a one-character string, or "" past the end. */
  function CharAt(s: string, i: nat): (r: string)
    ensures |r| <= 1
    ensures i < |s| <==> |r| == 1
  {
    if i < |s| then [s[i]] else ""
  }

  /** t occurs in s at position p, compared case-insensitively. */
  predicate OccursAt(s: string, t: string, p: nat) {
    p + |t| <= |s| && forall k :: 0 <= k < |t| ==> EqI(s[p + k], t[k])
  }

  /** `s.match(new RegExp(t, 'i'))` succeeds, for a t without metacharacters. */
  predicate ContainsI(s: string, t: string) {
    exists p | 0 <= p <= |s| - |t| :: OccursAt(s, t, p)
  }

  /** `trimStart`: drops the leading whitespace and nothing else. */
  function TrimStart(s: string): (r: string)
    ensures |r| <= |s| && r == s[|s| - |r|..]
    ensures AllSpace(s[..|s| - |r|])
    ensures r == [] || !IsSpace(r[0])
    decreases |s|
  {
    if |s| > 0 && IsSpace(s[0]) then
      var r := TrimStart(s[1..]);
      assert s[1..][|s| - 1 - |r|..] == s[|s| - |r|..];
      assert s[..|s| - |r|] == [s[0]] + s[1..][..|s| - 1 - |r|];
      r
    else s
  }

  /** `trimEnd`: drops the trailing whitespace and nothing else. */
  function TrimEnd(s: string): (r: string)
    ensures |r| <= |s| && r == s[..|r|]
    ensures AllSpace(s[|r|..])
    ensures r == [] || !IsSpace(r[|r| - 1])
    decreases |s|
  {
    if |s| > 0 && IsSpace(s[|s| - 1]) then
      var r := TrimEnd(s[..|s| - 1]);
      assert s[|r|..] == s[..|s| - 1][|r|..] + [s[|s| - 1]];
      r
    else s
  }

  /** `String.prototype.trim`. */
  function Trim(s: string): string {
    TrimEnd(TrimStart(s))
  }

  /** The trimmed input is empty exactly when the input is all whitespace;
      otherwise it starts and ends with a non-space character. It is always
      the slice of the input left once a whitespace prefix and a whitespace
      suffix are dropped. */
  lemma TrimSpec(s: string)
    ensures Trim(s) == [] <==> AllSpace(s)
    ensures Trim(s) != [] ==> !IsSpace(Trim(s)[0]) && !IsSpace(Trim(s)[|Trim(s)| - 1])
    ensures exists a, b | 0 <= a <= b <= |s| :: Trim(s) == s[a..b] && AllSpace(s[..a]) && AllSpace(s[b..])
  {
    TrimEmptyIffAllSpace(s);
    var t := TrimStart(s);
    var r := TrimEnd(t);
    var a := |s| - |t|;
    PrefixOfSuffix(s, a, |r|);
    assert r == s[a..a + |r|];
    assert t[|r|..] == s[a + |r|..];
    if r != [] {
      assert r[0] == t[0];
    }
  }

  lemma PrefixOfSuffix(s: string, a: nat, n: nat)
    requires a + n <= |s|
    ensures s[a..][..n] == s[a..a + n]
  {
  }

  lemma TrimEmptyIffAllSpace(s: string)
    ensures Trim(s) == [] <==> AllSpace(s)
  {
    var t := TrimStart(s);
    var a := |s| - |t|;
    var r := TrimEnd(t);
    if r == [] {
      assert AllSpace(t) by {
        assert t[|r|..] == t;
      }
      forall i | 0 <= i < |s| ensures IsSpace(s[i]) {
        assert s[i] == s[..a][i];
      }
    } else {
      assert t[0] == s[a];
    }
  }
}
