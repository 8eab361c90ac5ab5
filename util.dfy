/** `split_glob`: the split of a glob expression into the literal prefix
    before its first unescaped metacharacter and the glob part from there on. */
module Util {
  import opened Strings

  /** The characters that start a glob pattern. */
  predicate IsGlobMeta(c: char) {
    c == '*' || c == '[' || c == '{' || c == '?'
  }

  /** `s` splits at index `i`: a metacharacter there, not escaped by a
      backslash just before it. */
  predicate SplitsAt(s: string, i: nat) {
    i < |s| && IsGlobMeta(s[i]) && (i == 0 || s[i - 1] != '\\')
  }

  /** The first index at or after `from` where `s` splits, or `|s|`. */
  function FirstSplit(s: string, from: nat): (k: nat)
    requires from <= |s|
    ensures from <= k <= |s|
    ensures forall j :: from <= j < k ==> !SplitsAt(s, j)
    ensures k < |s| ==> SplitsAt(s, k)
    decreases |s| - from
  {
    if from == |s| then |s|
    else if SplitsAt(s, from) then from
    else FirstSplit(s, from + 1)
  }

  /** The value of `split_glob(s)`: the text up to the first split point,
      and the rest with leading slashes stripped. */
  function SplitGlobOf(s: string): (r: (string, string))
  {
    var k := FirstSplit(s, 0);
    if k < |s| then (s[..k], LStrip(s[k..], '/')) else (s, "")
  }

  /** The scanning loop of `split_glob`: it returns the split the first
      unescaped metacharacter makes (`SplitGlobConcat` and
      `SplitGlobAtFirstMeta` say what that split is). */
  method SplitGlob(s: string) returns (prefix: string, glob: string)
    ensures (prefix, glob) == SplitGlobOf(s)
  {
    var i := 0;
    while i < |s|
      invariant 0 <= i <= |s|
      invariant FirstSplit(s, 0) == FirstSplit(s, i)
    {
      if IsGlobMeta(s[i]) && (i == 0 || s[i - 1] != '\\') {
        return s[..i], LStrip(s[i..], '/');
      }
      i := i + 1;
    }
    prefix, glob := s, "";
  }

  /** The prefix and the glob part always rebuild the expression: the glob
      part starts with a metacharacter, never with '/', so stripping leading
      slashes removes nothing. */
  lemma SplitGlobConcat(s: string)
    ensures SplitGlobOf(s).0 + SplitGlobOf(s).1 == s
  {
    var k := FirstSplit(s, 0);
    if k < |s| {
      assert s[k..][0] == s[k];
      assert LStrip(s[k..], '/') == s[k..];
      assert s[..k] + s[k..] == s;
    }
  }

  /** The split happens exactly at the first unescaped metacharacter; with
      none, the whole expression is the prefix and the glob part is empty. */
  lemma SplitGlobAtFirstMeta(s: string)
    ensures var r := SplitGlobOf(s);
      (forall i :: 0 <= i < |r.0| ==> !SplitsAt(s, i)) &&
      (r.1 != [] ==> SplitsAt(s, |r.0|) && IsGlobMeta(r.1[0])) &&
      ((forall i :: 0 <= i < |s| ==> !SplitsAt(s, i)) ==> r == (s, ""))
  {
    SplitGlobConcat(s);
    var k := FirstSplit(s, 0);
    if k < |s| {
      assert !(forall i :: 0 <= i < |s| ==> !SplitsAt(s, i));
      assert s[k..][0] == s[k];
    }
  }

  /** A metacharacter escaped by a backslash never ends the prefix. */
  lemma EscapedMetaNeverSplits(s: string, i: nat)
    requires 0 < i < |s| && s[i - 1] == '\\'
    ensures |SplitGlobOf(s).0| != i
  {
    SplitGlobConcat(s);
  }
}
