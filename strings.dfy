/** The Python `str` operations the modelled code relies on, over
    `seq<char>`: prefix and suffix tests, `in`, `find`, `rpartition`,
    `split(sep, 1)`, `replace`, `lstrip`/`rstrip` of one character,
    `removeprefix`/`removesuffix`, `lower` and decimal rendering. */
module Strings {
  import opened Wrappers

  /** `s.startswith(p)` */
  predicate StartsWith(s: string, p: string) {
    |p| <= |s| && s[..|p|] == p
  }

  /** `s.endswith(p)` */
  predicate EndsWith(s: string, p: string) {
    |p| <= |s| && s[|s| - |p|..] == p
  }

  /** `sub in s`: some suffix of `s` starts with `sub`. */
  predicate HasInfix(s: string, sub: string)
    decreases |s|
  {
    StartsWith(s, sub) || (|s| > 0 && HasInfix(s[1..], sub))
  }

  lemma {:induction false} HasInfixAt(s: string, sub: string, k: nat)
    requires k + |sub| <= |s| && s[k..k + |sub|] == sub
    ensures HasInfix(s, sub)
    decreases k
  {
    if k > 0 {
      assert s[1..][k - 1..k - 1 + |sub|] == sub;
      HasInfixAt(s[1..], sub, k - 1);
    }
  }

  lemma {:induction false} HasInfixPrefix(s: string, t: string, sub: string)
    requires HasInfix(s, sub)
    ensures HasInfix(s + t, sub)
    decreases |s|
  {
    if !StartsWith(s, sub) {
      assert (s + t)[1..] == s[1..] + t;
      HasInfixPrefix(s[1..], t, sub);
    } else {
      assert (s + t)[..|sub|] == s[..|sub|];
    }
  }

  /** `s.find(sub)`, with `None` for -1: the first index where `sub` occurs. */
  function FindInfix(s: string, sub: string): (r: Option<nat>)
    ensures r.Some? <==> HasInfix(s, sub)
    ensures r.Some? ==> r.value + |sub| <= |s| && s[r.value..r.value + |sub|] == sub
    ensures r.Some? ==> forall j :: 0 <= j < r.value ==> !StartsWith(s[j..], sub)
    ensures r.None? ==> forall j :: 0 <= j <= |s| ==> !StartsWith(s[j..], sub)
    decreases |s|
  {
    if StartsWith(s, sub) then Some(0)
    else if |s| == 0 then None
    else
      match FindInfix(s[1..], sub)
      case Some(k) =>
        assert s[k + 1..k + 1 + |sub|] == s[1..][k..k + |sub|];
        assert forall j :: 0 <= j <= k ==> !StartsWith(s[j..], sub) by {
          forall j | 1 <= j <= k ensures !StartsWith(s[j..], sub) {
            assert s[j..] == s[1..][j - 1..];
          }
        }
        Some(k + 1)
      case None =>
        assert forall j :: 0 <= j <= |s| ==> !StartsWith(s[j..], sub) by {
          forall j | 1 <= j <= |s| ensures !StartsWith(s[j..], sub) {
            assert s[j..] == s[1..][j - 1..];
          }
        }
        None
  }

  /** Index of the first `c` in `s`. */
  function IndexOf(s: string, c: char): (r: Option<nat>)
    ensures r.Some? ==> r.value < |s| && s[r.value] == c
    ensures r.Some? ==> forall j :: 0 <= j < r.value ==> s[j] != c
    ensures r.None? ==> forall j :: 0 <= j < |s| ==> s[j] != c
  {
    if |s| == 0 then None
    else if s[0] == c then Some(0)
    else match IndexOf(s[1..], c)
      case Some(k) => Some(k + 1)
      case None => None
  }

  /** Index of the last `c` in `s` (`s.rfind(c)`). */
  function LastIndexOf(s: string, c: char): (r: Option<nat>)
    ensures r.Some? ==> r.value < |s| && s[r.value] == c
    ensures r.Some? ==> forall j :: r.value < j < |s| ==> s[j] != c
    ensures r.None? ==> forall j :: 0 <= j < |s| ==> s[j] != c
  {
    if |s| == 0 then None
    else if s[|s| - 1] == c then Some(|s| - 1)
    else LastIndexOf(s[..|s| - 1], c)
  }

  /** `s.rpartition(c)` for a one-character separator. */
  datatype Partition = Partition(before: string, sep: string, after: string)

  function RPartition(s: string, c: char): (r: Partition)
    ensures r.before + r.sep + r.after == s
    ensures c !in r.after
    ensures r.sep == [] <==> c !in s
    ensures r.sep == [] ==> r.before == [] && r.after == s
    ensures r.sep != [] ==> r.sep == [c]
  {
    match LastIndexOf(s, c)
    case None => Partition([], [], s)
    case Some(k) =>
      assert s == s[..k] + [c] + s[k + 1..];
      Partition(s[..k], [c], s[k + 1..])
  }

  /** Partitioning at the last `c` undoes joining with `c` when the tail
      holds no `c`. */
  lemma RPartitionJoined(a: string, c: char, b: string)
    requires c !in b
    ensures RPartition(a + [c] + b, c) == Partition(a, [c], b)
  {
    var s := a + [c] + b;
    assert s[|a|] == c;
    assert forall j :: |a| < j < |s| ==> s[j] == b[j - |a| - 1];
    assert LastIndexOf(s, c) == Some(|a|);
    assert s[..|a|] == a && s[|a| + 1..] == b;
  }

  /** `s.split(sep, 1)`: the text before the first `sep` and, when `sep`
      occurs, the text after it. */
  function SplitFirst(s: string, sep: string): (r: (string, Option<string>))
    ensures r.1.None? <==> !HasInfix(s, sep)
    ensures r.1.None? ==> r.0 == s
    ensures r.1.Some? ==> r.0 + sep + r.1.value == s
  {
    match FindInfix(s, sep)
    case None => (s, None)
    case Some(k) =>
      assert s == s[..k] + s[k..k + |sep|] + s[k + |sep|..];
      (s[..k], Some(s[k + |sep|..]))
  }

  /** `s.split(c, 1)` for a one-character separator; the head holds no `c`. */
  function SplitFirstChar(s: string, c: char): (r: (string, Option<string>))
    ensures c !in r.0
    ensures r.1.None? <==> c !in s
    ensures r.1.None? ==> r.0 == s
    ensures r.1.Some? ==> r.0 + [c] + r.1.value == s
  {
    match IndexOf(s, c)
    case None => (s, None)
    case Some(k) =>
      assert s == s[..k] + [c] + s[k + 1..];
      (s[..k], Some(s[k + 1..]))
  }

  /** `s.replace(pat, rep)`: every non-overlapping occurrence, left to right. */
  function ReplaceAll(s: string, pat: string, rep: string): (r: string)
    requires |pat| > 0
    decreases |s|
  {
    if StartsWith(s, pat) then rep + ReplaceAll(s[|pat|..], pat, rep)
    else if |s| == 0 then []
    else [s[0]] + ReplaceAll(s[1..], pat, rep)
  }

  /** A string in which `pat` does not occur is left unchanged by `replace`. */
  lemma {:induction false} ReplaceAllAbsent(s: string, pat: string, rep: string)
    requires |pat| > 0 && !HasInfix(s, pat)
    ensures ReplaceAll(s, pat, rep) == s
    decreases |s|
  {
    if |s| > 0 {
      ReplaceAllAbsent(s[1..], pat, rep);
    }
  }

  /** Replacing by the empty string never makes a string longer. */
  lemma {:induction false} ReplaceAllShrinks(s: string, pat: string)
    requires |pat| > 0
    ensures |ReplaceAll(s, pat, [])| <= |s|
    decreases |s|
  {
    if StartsWith(s, pat) {
      ReplaceAllShrinks(s[|pat|..], pat);
    } else if |s| > 0 {
      ReplaceAllShrinks(s[1..], pat);
    }
  }

  /** `s.lstrip(c)` */
  function LStrip(s: string, c: char): (r: string)
    ensures |r| <= |s| && r == s[|s| - |r|..]
    ensures r == [] || r[0] != c
    ensures forall i :: 0 <= i < |s| - |r| ==> s[i] == c
    decreases |s|
  {
    if |s| > 0 && s[0] == c then LStrip(s[1..], c) else s
  }

  /** `s.rstrip(c)` */
  function RStrip(s: string, c: char): (r: string)
    ensures |r| <= |s| && r == s[..|r|]
    ensures r == [] || r[|r| - 1] != c
    ensures forall i :: |r| <= i < |s| ==> s[i] == c
    decreases |s|
  {
    if |s| > 0 && s[|s| - 1] == c then RStrip(s[..|s| - 1], c) else s
  }

  /** `s.removeprefix(p)` */
  function RemovePrefix(s: string, p: string): (r: string)
    ensures StartsWith(s, p) ==> p + r == s
    ensures !StartsWith(s, p) ==> r == s
  {
    if StartsWith(s, p) then
      assert s == s[..|p|] + s[|p|..];
      s[|p|..]
    else s
  }

  /** `s.removesuffix(p)`; Python leaves `s` alone when `p` is empty. */
  function RemoveSuffix(s: string, p: string): (r: string)
    ensures |p| > 0 && EndsWith(s, p) ==> r + p == s
    ensures !(|p| > 0 && EndsWith(s, p)) ==> r == s
  {
    if |p| > 0 && EndsWith(s, p) then
      assert s == s[..|s| - |p|] + s[|s| - |p|..];
      s[..|s| - |p|]
    else s
  }

  /** ASCII `str.lower()`. */
  function Lower(s: string): (r: string)
    ensures |r| == |s|
    ensures forall i :: 0 <= i < |s| ==> r[i] == (if 'A' <= s[i] <= 'Z' then (s[i] as int + 32) as char else s[i])
  {
    if |s| == 0 then []
    else [if 'A' <= s[0] <= 'Z' then (s[0] as int + 32) as char else s[0]] + Lower(s[1..])
  }

  predicate IsDigit(c: char) {
    '0' <= c <= '9'
  }

  /** `str(n)` for an integer. */
  function IntToString(n: int): (r: string)
    ensures |r| > 0
    ensures n >= 0 ==> forall i :: 0 <= i < |r| ==> IsDigit(r[i])
    ensures n < 0 ==> r[0] == '-'
  {
    if n < 0 then "-" + NatToString(-n) else NatToString(n)
  }

  function NatToString(n: nat): (r: string)
    ensures |r| > 0
    ensures forall i :: 0 <= i < |r| ==> IsDigit(r[i])
  {
    if n < 10 then [('0' as int + n) as char]
    else NatToString(n / 10) + [('0' as int + n % 10) as char]
  }
}
