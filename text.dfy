/**
 * The .NET string operations the downloader relies on: `Contains`,
 * `Split(string)`, `String.Join`, `Replace(string, string)`, `Trim`,
 * `EndsWith` and, for ASCII letters, `ToLowerInvariant`. All are modelled
 * in their ordinal (character by character) form; the culture-sensitive
 * `EndsWith(string)` agrees with it on ASCII text. `Split` and `Replace` are
 * defined through `IndexOf`, a search for the first occurrence.
 */
module Text {
  import opened Wrappers

  /** `t` occurs in `s` starting at index `i`. */
  predicate OccursAt(s: string, t: string, i: int)
  {
    0 <= i && i + |t| <= |s| && s[i..i + |t|] == t
  }

  /** `s.Contains(t)`. */
  predicate Contains(s: string, t: string)
  {
    exists i | 0 <= i <= |s| - |t| :: OccursAt(s, t, i)
  }

  /** The first occurrence of `t` in `s` at or after `from`, if any. */
  function IndexFrom(s: string, t: string, from: nat): (r: Option<nat>)
    decreases |s| - from
    ensures r.Some? ==> from <= r.value && r.value + |t| <= |s|
  {
    if from + |t| > |s| then None
    else if s[from..from + |t|] == t then Some(from)
    else IndexFrom(s, t, from + 1)
  }

  /** What `IndexFrom` finds is an occurrence. */
  lemma {:induction false} IndexFromOccurs(s: string, t: string, from: nat)
    decreases |s| - from
    ensures IndexFrom(s, t, from).Some? ==> OccursAt(s, t, IndexFrom(s, t, from).value)
  {
    if from + |t| <= |s| && s[from..from + |t|] != t {
      IndexFromOccurs(s, t, from + 1);
    }
  }

  /** No occurrence at or after `from` comes before what `IndexFrom` finds; `None` means there is none. */
  lemma {:induction false} IndexFromFirst(s: string, t: string, from: nat)
    decreases |s| - from
    ensures IndexFrom(s, t, from).Some? ==>
      forall j :: from <= j < IndexFrom(s, t, from).value ==> !OccursAt(s, t, j)
    ensures IndexFrom(s, t, from).None? ==> forall j :: from <= j ==> !OccursAt(s, t, j)
  {
    if from + |t| <= |s| && s[from..from + |t|] != t {
      IndexFromFirst(s, t, from + 1);
    }
  }

  /** `s.IndexOf(t)`, with `None` for -1. */
  function IndexOf(s: string, t: string): (r: Option<nat>)
    ensures r.Some? ==> r.value + |t| <= |s|
  {
    IndexFrom(s, t, 0)
  }

  /** What `IndexOf` finds is an occurrence. */
  lemma IndexOfOccurs(s: string, t: string)
    ensures IndexOf(s, t).Some? ==> OccursAt(s, t, IndexOf(s, t).value)
  {
    IndexFromOccurs(s, t, 0);
  }

  /** `IndexOf` gives the first occurrence, and `None` exactly when there is none. */
  lemma IndexOfSpec(s: string, t: string)
    ensures IndexOf(s, t).Some? ==> OccursAt(s, t, IndexOf(s, t).value)
    ensures IndexOf(s, t).Some? ==> forall j :: 0 <= j < IndexOf(s, t).value ==> !OccursAt(s, t, j)
    ensures IndexOf(s, t).None? <==> !Contains(s, t)
  {
    IndexFromOccurs(s, t, 0);
    IndexFromFirst(s, t, 0);
  }

  /** A slice of a slice is a slice. */
  lemma SliceOfSlice(s: string, i: nat, n: nat, j: nat, m: nat)
    requires i + n <= |s| && j + m <= n
    ensures s[i..i + n][j..j + m] == s[i + j..i + j + m]
  {
    var a := s[i..i + n][j..j + m];
    forall k | 0 <= k < m
      ensures a[k] == s[i + j + k]
    {
      assert a[k] == s[i..i + n][j + k];
    }
  }

  /** A slice of a suffix of `s` is a slice of `s`. */
  lemma SliceOfSuffix(s: string, j: nat, a: nat, b: nat)
    requires j <= |s| && a <= b <= |s| - j
    ensures s[j..][a..b] == s[j + a..j + b]
  {
    var t := s[j..][a..b];
    forall k | 0 <= k < b - a
      ensures t[k] == s[j + a + k]
    {
      assert t[k] == s[j..][a + k];
    }
  }

  /** An occurrence inside a prefix of `s` is an occurrence in `s`. */
  lemma OccursInPrefix(s: string, t: string, n: nat, j: int)
    requires n <= |s| && OccursAt(s[..n], t, j)
    ensures OccursAt(s, t, j)
  {
    assert s[..n][j..j + |t|] == s[j..j + |t|];
  }

  /** Nothing before the first occurrence contains `t`. */
  lemma BeforeFirstOccurrence(s: string, t: string, i: nat)
    requires |t| > 0 && OccursAt(s, t, i)
    requires forall j :: 0 <= j < i ==> !OccursAt(s, t, j)
    ensures !Contains(s[..i], t)
  {
    forall j | 0 <= j <= i - |t|
      ensures !OccursAt(s[..i], t, j)
    {
      if OccursAt(s[..i], t, j) {
        OccursInPrefix(s, t, i, j);
      }
    }
  }

  /** `String.Join(sep, parts)`. */
  function Join(parts: seq<string>, sep: string): string
  {
    if |parts| == 0 then ""
    else if |parts| == 1 then parts[0]
    else parts[0] + sep + Join(parts[1..], sep)
  }

  /**
   * `s.Split(sep)` with a non-empty separator and no options: the pieces
   * between the non-overlapping occurrences of `sep`, found left to right;
   * empty pieces are kept.
   */
  function Split(s: string, sep: string): (parts: seq<string>)
    requires |sep| > 0
    decreases |s|
    ensures |parts| >= 1
  {
    match IndexOf(s, sep)
    case None => [s]
    case Some(i) => [s[..i]] + Split(s[i + |sep|..], sep)
  }

  /** Joining the pieces of a split with the separator gives back the string. */
  lemma {:induction false} SplitJoin(s: string, sep: string)
    requires |sep| > 0
    ensures Join(Split(s, sep), sep) == s
  {
    match IndexOf(s, sep)
    case None =>
    case Some(i) =>
      IndexOfSpec(s, sep);
      var rest := Split(s[i + |sep|..], sep);
      SplitJoin(s[i + |sep|..], sep);
      assert s == s[..i] + sep + s[i + |sep|..] by {
        assert s[i..i + |sep|] == sep;
      }
      assert ([s[..i]] + rest)[1..] == rest;
  }

  /** The last piece of a split does not hold the separator. */
  lemma SplitLastFree(s: string, sep: string)
    requires |sep| > 0
    ensures !Contains(Last(Split(s, sep)), sep)
  {
    SplitPiecesFree(s, sep);
  }

  /** No piece of a split holds the separator. */
  lemma {:induction false} SplitPiecesFree(s: string, sep: string)
    requires |sep| > 0
    ensures forall k :: 0 <= k < |Split(s, sep)| ==> !Contains(Split(s, sep)[k], sep)
  {
    IndexOfSpec(s, sep);
    match IndexOf(s, sep)
    case None =>
    case Some(i) =>
      BeforeFirstOccurrence(s, sep, i);
      SplitPiecesFree(s[i + |sep|..], sep);
  }

  /** The first piece of a split is the text before the first separator. */
  lemma SplitFirstPiece(s: string, sep: string)
    requires |sep| > 0
    ensures IndexOf(s, sep).None? ==> Split(s, sep) == [s]
    ensures IndexOf(s, sep).Some? ==> Split(s, sep)[0] == s[..IndexOf(s, sep).value]
  {
    IndexOfSpec(s, sep);
  }

  /** The last element of a non-empty sequence. */
  function Last<T>(p: seq<T>): T
    requires |p| > 0
  {
    p[|p| - 1]
  }

  /** The text after the last separator, found by skipping from one separator to the next. */
  function LastPiece(s: string, sep: string): string
    requires |sep| > 0
    decreases |s|
  {
    match IndexOf(s, sep)
    case None => s
    case Some(i) => LastPiece(s[i + |sep|..], sep)
  }

  /** The last piece of a split is the text after the last separator. */
  lemma {:induction false} SplitLastIsLastPiece(s: string, sep: string)
    requires |sep| > 0
    decreases |s|
    ensures Last(Split(s, sep)) == LastPiece(s, sep)
  {
    match IndexOf(s, sep)
    case None =>
    case Some(i) =>
      var rest := Split(s[i + |sep|..], sep);
      SplitLastIsLastPiece(s[i + |sep|..], sep);
      assert Last([s[..i]] + rest) == Last(rest);
  }

  /** A suffix of a suffix of `s` is a suffix of `s`. */
  lemma SuffixShift(s: string, j: nat, a: nat)
    requires j + a <= |s|
    ensures s[j..][a..] == s[j + a..]
  {
  }

  /**
   * Where the text after the last separator starts: at 0 when there is no
   * separator, otherwise right after a separator.
   */
  lemma {:induction false} LastPieceFrom(s: string, sep: string) returns (k: nat)
    requires |sep| > 0
    decreases |s|
    ensures k <= |s| && LastPiece(s, sep) == s[k..]
    ensures IndexOf(s, sep).None? ==> k == 0
    ensures IndexOf(s, sep).Some? ==> |sep| <= k && s[k - |sep|..k] == sep
  {
    match IndexOf(s, sep)
    case None =>
      k := 0;
    case Some(i) =>
      IndexOfOccurs(s, sep);
      var j := i + |sep|;
      var tail := s[j..];
      var k' := LastPieceFrom(tail, sep);
      assert LastPiece(s, sep) == tail[k'..];
      k := j + k';
      SeparatorBeforeStart(s, sep, i, k');
  }

  /**
   * A start `k` in the rest after the separator at `i`, which is 0 or right
   * after a separator there, lies right after a separator in `s`.
   */
  lemma SeparatorBeforeStart(s: string, sep: string, i: nat, k: nat)
    requires i + |sep| <= |s| && s[i..i + |sep|] == sep
    requires k <= |s| - i - |sep|
    requires k == 0 || (|sep| <= k && s[i + |sep|..][k - |sep|..k] == sep)
    ensures s[i + |sep|..][k..] == s[i + |sep| + k..]
    ensures |sep| <= i + |sep| + k && s[i + k..i + |sep| + k] == sep
  {
    var j := i + |sep|;
    SuffixShift(s, j, k);
    if k != 0 {
      SliceOfSuffix(s, j, k - |sep|, k);
    }
  }

  /**
   * `s.Replace(pattern, replacement)` with a non-empty pattern: every
   * non-overlapping occurrence, found left to right, is replaced.
   */
  function Replace(s: string, pattern: string, replacement: string): (r: string)
    requires |pattern| > 0
    decreases |s|
    ensures IndexOf(s, pattern).None? ==> r == s
    ensures |replacement| <= |pattern| ==> |r| <= |s|
  {
    match IndexOf(s, pattern)
    case None => s
    case Some(i) => s[..i] + replacement + Replace(s[i + |pattern|..], pattern, replacement)
  }

  /** A string holds each of its prefixes. */
  lemma ContainsPrefix(p: string, u: string)
    ensures Contains(p + u, p)
  {
    assert (p + u)[0..|p|] == p;
    assert OccursAt(p + u, p, 0);
  }

  /** A string that starts with the pattern and has no other occurrence of it after that loses only that one. */
  lemma ReplaceLeading(p: string, u: string, replacement: string)
    requires |p| > 0 && !Contains(u, p)
    ensures Replace(p + u, p, replacement) == replacement + u
  {
    var s := p + u;
    assert s[0..|p|] == p;
    assert IndexOf(s, p) == Some(0);
    assert s[|p|..] == u;
    IndexOfSpec(u, p);
    assert s[..0] == "";
  }

  /** Replacing is joining the split pieces with the replacement. */
  lemma {:induction false} ReplaceIsJoinOfSplit(s: string, pattern: string, replacement: string)
    requires |pattern| > 0
    ensures Replace(s, pattern, replacement) == Join(Split(s, pattern), replacement)
  {
    match IndexOf(s, pattern)
    case None =>
    case Some(i) =>
      var tail := s[i + |pattern|..];
      ReplaceIsJoinOfSplit(tail, pattern, replacement);
      var q := Split(tail, pattern);
      assert Split(s, pattern) == [s[..i]] + q;
      assert ([s[..i]] + q)[1..] == q;
  }

  /** `Char.IsWhiteSpace`: the Unicode space, line and paragraph separators, U+0009 to U+000D and U+0085. */
  predicate IsWhiteSpace(c: char)
  {
    || ('\U{0009}' <= c <= '\U{000D}') || c == ' ' || c == '\U{0085}' || c == '\U{00A0}'
    || c == '\U{1680}' || ('\U{2000}' <= c <= '\U{200A}') || c == '\U{2028}' || c == '\U{2029}'
    || c == '\U{202F}' || c == '\U{205F}' || c == '\U{3000}'
  }

  /** `s.TrimStart()`. */
  function TrimStart(s: string): (r: string)
    ensures |r| <= |s| && r == s[|s| - |r|..]
    ensures forall k :: 0 <= k < |s| - |r| ==> IsWhiteSpace(s[k])
    ensures r == [] || !IsWhiteSpace(r[0])
  {
    if |s| > 0 && IsWhiteSpace(s[0]) then TrimStart(s[1..]) else s
  }

  /** `s.TrimEnd()`. */
  function TrimEnd(s: string): (r: string)
    ensures |r| <= |s| && r == s[..|r|]
    ensures forall k :: |r| <= k < |s| ==> IsWhiteSpace(s[k])
    ensures r == [] || !IsWhiteSpace(r[|r| - 1])
  {
    if |s| > 0 && IsWhiteSpace(s[|s| - 1]) then TrimEnd(s[..|s| - 1]) else s
  }

  /** Neither end of `s` is white space. */
  predicate IsTrimmed(s: string)
  {
    s == [] || (!IsWhiteSpace(s[0]) && !IsWhiteSpace(s[|s| - 1]))
  }

  /** `r` is `s` with only white space cut off before index `i` and after `r`. */
  predicate StripsWhiteSpaceAt(s: string, r: string, i: int)
  {
    && OccursAt(s, r, i)
    && (forall k :: 0 <= k < i ==> IsWhiteSpace(s[k]))
    && (forall k :: i + |r| <= k < |s| ==> IsWhiteSpace(s[k]))
  }

  /** `s.Trim()`: white space removed from both ends. */
  function Trim(s: string): (r: string)
    ensures |r| <= |s|
    ensures IsTrimmed(r)
  {
    var u := TrimStart(s);
    var t := TrimEnd(u);
    assert t != [] ==> t[0] == u[0];
    t
  }

  /** What `Trim` keeps is a slice of `s` with only white space around it. */
  lemma TrimSlice(s: string) returns (i: nat)
    ensures StripsWhiteSpaceAt(s, Trim(s), i)
  {
    var u := TrimStart(s);
    var t := TrimEnd(u);
    i := |s| - |u|;
    StripsAround(s, u, t);
  }

  /** A prefix `t` of a suffix `u` of `s`, with white space cut off around both, strips white space from `s`. */
  lemma StripsAround(s: string, u: string, t: string)
    requires |u| <= |s| && u == s[|s| - |u|..]
    requires forall k :: 0 <= k < |s| - |u| ==> IsWhiteSpace(s[k])
    requires |t| <= |u| && t == u[..|t|]
    requires forall k :: |t| <= k < |u| ==> IsWhiteSpace(u[k])
    ensures StripsWhiteSpaceAt(s, t, |s| - |u|)
  {
    var i := |s| - |u|;
    assert s[i..i + |t|] == t;
    forall k | i + |t| <= k < |s|
      ensures IsWhiteSpace(s[k])
    {
      assert s[k] == u[k - i];
    }
  }

  /** A string with no white space at its ends is its own trim; in particular trimming is idempotent. */
  lemma TrimOfTrimmed(s: string)
    requires IsTrimmed(s)
    ensures Trim(s) == s
  {
  }

  /** A slice of a string that lacks `t` lacks `t`. */
  lemma SliceLacks(s: string, t: string, i: nat, n: nat)
    requires i + n <= |s| && !Contains(s, t)
    ensures !Contains(s[i..i + n], t)
  {
    var u := s[i..i + n];
    forall j | 0 <= j <= |u| - |t|
      ensures !OccursAt(u, t, j)
    {
      if j + |t| <= n {
        SliceOfSlice(s, i, n, j, |t|);
        assert !OccursAt(s, t, i + j);
      }
    }
  }

  /** The trimmed last part of a split lacks the separator. */
  lemma TrimmedLastLacks(link: string, sep: string)
    requires |sep| > 0
    ensures !Contains(Trim(Last(Split(link, sep))), sep)
  {
    SplitLastFree(link, sep);
    TrimLacks(Last(Split(link, sep)), sep);
  }

  /** Trimming a string that lacks `t` gives a string that lacks `t`. */
  lemma TrimLacks(s: string, t: string)
    requires !Contains(s, t)
    ensures !Contains(Trim(s), t)
  {
    var r := Trim(s);
    var i := TrimSlice(s);
    assert s[i..i + |r|] == r;
    SliceLacks(s, t, i, |r|);
  }

  /** `s.Split(sep).Last().Trim()`: the trimmed text after the last `sep`. */
  function TrimmedLastPiece(s: string, sep: string): string
    requires |sep| > 0
  {
    Trim(Last(Split(s, sep)))
  }

  /**
   * The trimmed last piece never holds `sep`; it is the trimmed whole string
   * when `sep` does not occur, and otherwise the trimmed text after an
   * occurrence of `sep` that is followed by no other.
   */
  lemma TrimmedLastPieceSpec(s: string, sep: string) returns (k: nat)
    requires |sep| > 0
    ensures !Contains(TrimmedLastPiece(s, sep), sep)
    ensures !Contains(s, sep) ==> TrimmedLastPiece(s, sep) == Trim(s)
    ensures Contains(s, sep) ==>
      |sep| <= k <= |s| && s[k - |sep|..k] == sep && !Contains(s[k..], sep) && TrimmedLastPiece(s, sep) == Trim(s[k..])
  {
    TrimmedLastLacks(s, sep);
    k := LastPieceStart(s, sep);
  }

  /** Where the last piece of a split starts: right after a separator, or at 0 when there is none. */
  lemma LastPieceStart(s: string, sep: string) returns (k: nat)
    requires |sep| > 0
    ensures k <= |s| && s[k..] == Last(Split(s, sep)) && !Contains(s[k..], sep)
    ensures !Contains(s, sep) ==> k == 0
    ensures Contains(s, sep) ==> |sep| <= k && s[k - |sep|..k] == sep
  {
    SplitLastIsLastPiece(s, sep);
    SplitLastFree(s, sep);
    IndexOfSpec(s, sep);
    k := LastPieceFrom(s, sep);
  }


  /** `Char.ToLowerInvariant` on ASCII; other characters are kept. */
  function LowerChar(c: char): char
  {
    if 'A' <= c <= 'Z' then (c as int + 32) as char else c
  }

  /** `s.ToLowerInvariant()`, lowering ASCII letters. */
  function ToLower(s: string): (r: string)
    ensures |r| == |s|
  {
    seq(|s|, i requires 0 <= i < |s| => LowerChar(s[i]))
  }

  /** `s.EndsWith(suffix)`, compared ordinally. */
  predicate EndsWith(s: string, suffix: string)
  {
    |suffix| <= |s| && s[|s| - |suffix|..] == suffix
  }

  /** The number of times `c` occurs in `s`. */
  function CountChar(s: string, c: char): (n: nat)
    ensures n <= |s|
    ensures n == 0 <==> c !in s
  {
    if s == [] then 0 else (if s[0] == c then 1 else 0) + CountChar(s[1..], c)
  }

  lemma {:induction false} CountCharAppend(a: string, b: string, c: char)
    ensures CountChar(a + b, c) == CountChar(a, c) + CountChar(b, c)
  {
    if a != [] {
      assert (a + b)[0] == a[0];
      assert (a + b)[1..] == a[1..] + b;
      CountCharAppend(a[1..], b, c);
    } else {
      assert a + b == b;
    }
  }

  /** A one-character string occurs exactly where that character is. */
  lemma ContainsChar(s: string, c: char)
    ensures Contains(s, [c]) <==> c in s
  {
    if c in s {
      var i :| 0 <= i < |s| && s[i] == c;
      assert OccursAt(s, [c], i);
    }
    if Contains(s, [c]) {
      var i :| 0 <= i <= |s| - 1 && OccursAt(s, [c], i);
      assert s[i] == s[i..i + 1][0];
    }
  }

  /** The count of `c` around its first occurrence at `i`. */
  lemma CountAroundFirst(s: string, c: char, i: nat)
    requires i < |s| && s[i] == c && c !in s[..i]
    ensures CountChar(s, c) == 1 + CountChar(s[i + 1..], c)
  {
    assert s == s[..i] + ([c] + s[i + 1..]);
    CountCharAppend(s[..i], [c] + s[i + 1..], c);
    CountCharAppend([c], s[i + 1..], c);
  }

  /** Splitting on one character gives one more piece than that character's count. */
  lemma {:induction false} SplitCharCount(s: string, c: char)
    ensures |Split(s, [c])| == CountChar(s, c) + 1
  {
    ContainsChar(s, c);
    IndexOfSpec(s, [c]);
    match IndexOf(s, [c])
    case None =>
    case Some(i) =>
      var tail := s[i + 1..];
      SplitCharCount(tail, c);
      assert Split(s, [c]) == [s[..i]] + Split(tail, [c]);
      assert s[i] == s[i..i + 1][0];
      BeforeFirstOccurrence(s, [c], i);
      ContainsChar(s[..i], c);
      CountAroundFirst(s, c, i);
  }
}
