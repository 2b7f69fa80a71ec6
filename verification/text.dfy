/**
 String primitives shared by every stage of the sentence extractor: the
 character classes the Python code relies on (restricted to ASCII), substring
 search, `str.split()`, `str.split(sep)`, `sep.join(...)`, `str.strip()`,
 `str.replace(...)` and `str.lower()`, each with the facts the pipeline needs.
 */
module Text {

  datatype Option<+T> = None | Some(value: T)

  /** The ASCII part of Python's `str.isspace()`; `split()`, `strip()` and the
      regex class `\s` all use this notion of whitespace. */
  predicate IsSpace(c: char) {
    c == ' ' || c == '\t' || c == '\n' || c == '\r' || c == '\U{0B}' || c == '\U{0C}'
    || c == '\U{1C}' || c == '\U{1D}' || c == '\U{1E}' || c == '\U{1F}'
  }

  predicate IsUpper(c: char) { 'A' <= c <= 'Z' }

  predicate IsLower(c: char) { 'a' <= c <= 'z' }

  predicate IsDigit(c: char) { '0' <= c <= '9' }

  /** The regex class `\w`, restricted to ASCII. */
  predicate IsWordChar(c: char) { IsUpper(c) || IsLower(c) || IsDigit(c) || c == '_' }

  /** No character of `s` is whitespace. */
  predicate NoSpace(s: string) {
    forall k :: 0 <= k < |s| ==> !IsSpace(s[k])
  }

  /** `c` does not occur in `s`. */
  predicate Lacks(s: string, c: char) {
    forall k :: 0 <= k < |s| ==> s[k] != c
  }

  function LowerChar(c: char): (d: char)
    ensures !IsUpper(d)
    ensures IsUpper(c) ==> d as int == c as int + 32
    ensures !IsUpper(c) ==> d == c
  {
    if IsUpper(c) then (c as int + 32) as char else c
  }

  /** `str.lower()` restricted to ASCII letters. */
  function Lower(s: string): (r: string)
    ensures |r| == |s|
    ensures forall k :: 0 <= k < |s| ==> r[k] == LowerChar(s[k])
  {
    seq(|s|, k requires 0 <= k < |s| => LowerChar(s[k]))
  }

  // ---------------------------------------------------------------------
  // Substring search

  /** `p` occurs in `s` starting at index `i`. */
  predicate OccursAt(s: string, p: string, i: nat) {
    i + |p| <= |s| && s[i..i + |p|] == p
  }

  /** Python's `p in s`. */
  predicate Contains(s: string, p: string) {
    exists i | 0 <= i <= |s| :: OccursAt(s, p, i)
  }

  /** `s.startswith(p)`. */
  predicate StartsWith(s: string, p: string) {
    OccursAt(s, p, 0)
  }

  /** `s.endswith(p)`. */
  predicate EndsWith(s: string, p: string) {
    |p| <= |s| && s[|s| - |p|..] == p
  }

  /** The leftmost occurrence of `p` in `s` at or after `from`. */
  function IndexOf(s: string, p: string, from: nat): (r: Option<nat>)
    requires from <= |s|
    ensures r.Some? ==> from <= r.value && OccursAt(s, p, r.value)
    ensures r.Some? ==> forall k :: from <= k < r.value ==> !OccursAt(s, p, k)
    ensures r.None? ==> forall k :: from <= k ==> !OccursAt(s, p, k)
    decreases |s| - from
  {
    if OccursAt(s, p, from) then Some(from)
    else if from == |s| then None
    else IndexOf(s, p, from + 1)
  }

  /** An occurrence of a longer pattern is an occurrence of each of its prefixes. */
  lemma PrefixOccurs(s: string, p: string, q: string, i: nat)
    requires OccursAt(s, p, i) && StartsWith(p, q)
    ensures OccursAt(s, q, i)
  {
    assert s[i..i + |q|] == s[i..i + |p|][..|q|];
  }

  // ---------------------------------------------------------------------
  // Whitespace splitting: `str.split()` and `' '.join(...)`

  /** Length of the run of non-whitespace characters that starts `s`. */
  function WordLen(s: string): (n: nat)
    ensures n <= |s|
    ensures forall k :: 0 <= k < n ==> !IsSpace(s[k])
    ensures n < |s| ==> IsSpace(s[n])
  {
    if |s| == 0 || IsSpace(s[0]) then 0 else 1 + WordLen(s[1..])
  }

  /** `s.split()`: the maximal runs of non-whitespace characters, in order. */
  function Words(s: string): (ws: seq<string>)
    ensures forall k :: 0 <= k < |ws| ==> |ws[k]| > 0 && NoSpace(ws[k])
    decreases |s|
  {
    if |s| == 0 then []
    else if IsSpace(s[0]) then Words(s[1..])
    else
      var n := WordLen(s);
      [s[..n]] + Words(s[n..])
  }

  /** `sep.join(xs)`. */
  function Join(sep: string, xs: seq<string>): (r: string)
  {
    if |xs| == 0 then ""
    else if |xs| == 1 then xs[0]
    else xs[0] + sep + Join(sep, xs[1..])
  }

  /** Tokens fit for `split()` to give back: non-empty and whitespace-free. */
  predicate AreTokens(ts: seq<string>) {
    forall k :: 0 <= k < |ts| ==> |ts[k]| > 0 && NoSpace(ts[k])
  }

  /** Every character of a join comes from a piece or from the separator. */
  lemma {:induction false} JoinChars(sep: string, xs: seq<string>, k: nat)
    requires k < |Join(sep, xs)|
    ensures (exists j, m :: 0 <= j < |xs| && 0 <= m < |xs[j]| && Join(sep, xs)[k] == xs[j][m])
         || (exists m :: 0 <= m < |sep| && Join(sep, xs)[k] == sep[m])
    decreases |xs|
  {
    if |xs| == 1 {
      assert Join(sep, xs)[k] == xs[0][k];
    } else {
      var rest := Join(sep, xs[1..]);
      assert Join(sep, xs) == xs[0] + sep + rest;
      if k < |xs[0]| {
        assert Join(sep, xs)[k] == xs[0][k];
      } else if k < |xs[0]| + |sep| {
        assert Join(sep, xs)[k] == sep[k - |xs[0]|];
      } else {
        var k' := k - |xs[0]| - |sep|;
        assert Join(sep, xs)[k] == rest[k'];
        JoinChars(sep, xs[1..], k');
        if exists j, m :: 0 <= j < |xs[1..]| && 0 <= m < |xs[1..][j]| && rest[k'] == xs[1..][j][m] {
          var j, m :| 0 <= j < |xs[1..]| && 0 <= m < |xs[1..][j]| && rest[k'] == xs[1..][j][m];
          assert Join(sep, xs)[k] == xs[j + 1][m];
        }
      }
    }
  }

  /** Joining tokens with single spaces leaves no whitespace but those spaces. */
  lemma JoinSpacedChars(ts: seq<string>)
    requires AreTokens(ts)
    ensures forall k :: 0 <= k < |Join(" ", ts)| ==> Join(" ", ts)[k] == ' ' || !IsSpace(Join(" ", ts)[k])
  {
    forall k | 0 <= k < |Join(" ", ts)|
      ensures Join(" ", ts)[k] == ' ' || !IsSpace(Join(" ", ts)[k])
    {
      JoinChars(" ", ts, k);
    }
  }

  /** The only whitespace is the plain space, and no two spaces are adjacent. */
  predicate SingleSpaced(s: string) {
    (forall k :: 0 <= k < |s| ==> s[k] == ' ' || !IsSpace(s[k]))
    && (forall k :: 0 <= k < |s| - 1 ==> s[k] != ' ' || s[k + 1] != ' ')
  }

  /** Joining tokens with single spaces gives a single-spaced text. */
  lemma {:induction false} JoinTokensSingleSpaced(ts: seq<string>)
    requires AreTokens(ts)
    ensures SingleSpaced(Join(" ", ts))
    decreases |ts|
  {
    JoinSpacedChars(ts);
    if |ts| > 1 {
      JoinTokensSingleSpaced(ts[1..]);
      var j := Join(" ", ts);
      var rest := Join(" ", ts[1..]);
      var n := |ts[0]|;
      assert j == ts[0] + " " + rest;
      JoinStartsWithFirst(" ", ts[1..]);
      assert rest[0] == ts[1][0];
      forall k | 0 <= k < |j| - 1 ensures j[k] != ' ' || j[k + 1] != ' ' {
        if k < n {
          assert j[k] == ts[0][k];
        } else if k == n {
          assert j[k + 1] == rest[0];
        } else {
          assert j[k] == rest[k - n - 1] && j[k + 1] == rest[k - n];
        }
      }
    }
  }

  /** A space-join of tokens has no whitespace at either end. */
  lemma {:induction false} JoinTokensStripped(ts: seq<string>)
    requires AreTokens(ts)
    ensures IsStripped(Join(" ", ts))
    decreases |ts|
  {
    if |ts| > 1 {
      JoinTokensStripped(ts[1..]);
      var j := Join(" ", ts);
      var rest := Join(" ", ts[1..]);
      assert j == ts[0] + " " + rest;
      assert j[0] == ts[0][0];
      assert |rest| > 0 by {
        assert |rest| >= |ts[1]| by { JoinLength(" ", ts[1..]); }
      }
      assert j[|j| - 1] == rest[|rest| - 1];
    }
  }

  /** A join is at least as long as its first piece. */
  lemma JoinLength(sep: string, xs: seq<string>)
    requires |xs| > 0
    ensures |Join(sep, xs)| >= |xs[0]|
  {
  }

  /** A join opens with its first piece. */
  lemma JoinStartsWithFirst(sep: string, xs: seq<string>)
    requires |xs| > 0
    ensures StartsWith(Join(sep, xs), xs[0])
  {
    if |xs| > 1 {
      assert (xs[0] + sep + Join(sep, xs[1..]))[..|xs[0]|] == xs[0];
    }
  }

  /** The join of the first `j` pieces opens the join of all of them. */
  lemma {:induction false} JoinPrefixRun(sep: string, xs: seq<string>, j: nat)
    requires 1 <= j <= |xs|
    ensures StartsWith(Join(sep, xs), Join(sep, xs[..j]))
    decreases j
  {
    if j == 1 {
      assert xs[..1] == [xs[0]];
      JoinStartsWithFirst(sep, xs);
    } else {
      var rest := Join(sep, xs[1..]);
      assert xs[..j][1..] == xs[1..][..j - 1];
      JoinPrefixRun(sep, xs[1..], j - 1);
      var head := Join(sep, xs[1..][..j - 1]);
      assert Join(sep, xs[..j]) == xs[0] + sep + head;
      assert Join(sep, xs) == xs[0] + sep + rest;
      assert rest[..|head|] == head;
      assert (xs[0] + sep + rest)[..|xs[0]| + |sep| + |head|] == xs[0] + sep + rest[..|head|];
    }
  }

  /** A run of consecutive pieces, joined, occurs in the join of all pieces. */
  lemma {:induction false} JoinRunOccurs(sep: string, xs: seq<string>, i: nat, j: nat)
    requires i < j <= |xs|
    ensures Contains(Join(sep, xs), Join(sep, xs[i..j]))
    decreases i
  {
    if i == 0 {
      assert xs[0..j] == xs[..j];
      JoinPrefixRun(sep, xs, j);
      assert OccursAt(Join(sep, xs), Join(sep, xs[i..j]), 0);
    } else {
      var rest := Join(sep, xs[1..]);
      JoinRunOccurs(sep, xs[1..], i - 1, j - 1);
      assert xs[1..][i - 1..j - 1] == xs[i..j];
      var p := Join(sep, xs[i..j]);
      var w :| 0 <= w <= |rest| && OccursAt(rest, p, w);
      var off := |xs[0]| + |sep|;
      assert Join(sep, xs) == xs[0] + sep + rest;
      assert (xs[0] + sep + rest)[off + w..off + w + |p|] == rest[w..w + |p|];
      assert OccursAt(Join(sep, xs), p, off + w);
    }
  }

  /** Lower-casing keeps occurrences: if `p` occurs in `s`, its lower case
      occurs in the lower case of `s`. */
  lemma LowerContains(s: string, p: string)
    requires Contains(s, p)
    ensures Contains(Lower(s), Lower(p))
  {
    var i :| 0 <= i <= |s| && OccursAt(s, p, i);
    assert Lower(s)[i..i + |p|] == Lower(p) by {
      forall k | 0 <= k < |p| ensures Lower(s)[i..i + |p|][k] == Lower(p)[k] {
        assert s[i + k] == p[k];
      }
    }
    assert OccursAt(Lower(s), Lower(p), i);
  }

  /** A whitespace run in front of `s` does not change its words. */
  lemma WordsAfterSpace(s: string)
    requires |s| > 0 && IsSpace(s[0])
    ensures Words(s) == Words(s[1..])
  {
  }

  /** The first word of `t + u` is `t` when `t` is a token and `u` starts with whitespace. */
  lemma {:induction false} WordLenOfToken(t: string, u: string)
    requires |t| > 0 && NoSpace(t)
    requires |u| == 0 || IsSpace(u[0])
    ensures WordLen(t + u) == |t|
    decreases |t|
  {
    assert (t + u)[0] == t[0];
    assert (t + u)[1..] == t[1..] + u;
    if |t| > 1 {
      WordLenOfToken(t[1..], u);
    } else {
      assert t[1..] + u == u;
    }
  }

  /** Round trip: `' '.join(ts).split() == ts` for tokens `ts`. */
  lemma {:induction false} WordsOfJoin(ts: seq<string>)
    requires AreTokens(ts)
    ensures Words(Join(" ", ts)) == ts
    decreases |ts|
  {
    if |ts| == 0 {
    } else if |ts| == 1 {
      var t := ts[0];
      WordLenOfToken(t, "");
      assert t + "" == t;
      assert t[..|t|] == t && t[|t|..] == "";
    } else {
      var t := ts[0];
      var rest := Join(" ", ts[1..]);
      var s := Join(" ", ts);
      assert s == t + (" " + rest);
      WordLenOfToken(t, " " + rest);
      assert s[..|t|] == t;
      assert s[|t|..] == " " + rest;
      WordsAfterSpace(" " + rest);
      assert (" " + rest)[1..] == rest;
      WordsOfJoin(ts[1..]);
      assert ts == [t] + ts[1..];
    }
  }

  // ---------------------------------------------------------------------
  // Splitting on a separator: `s.split(sep)`

  /** `s.split(sep)` for a non-empty separator: the pieces between the leftmost
      non-overlapping occurrences of `sep`. */
  function Split(s: string, sep: string): (pieces: seq<string>)
    requires |sep| > 0
    ensures |pieces| >= 1
    decreases |s|
  {
    match IndexOf(s, sep, 0)
    case None => [s]
    case Some(i) => [s[..i]] + Split(s[i + |sep|..], sep)
  }

  /** The first separator after a piece that lacks the separator's character
      at index `key` is the one right after the piece. */
  lemma FirstSeparator(x: string, sep: string, rest: string, key: nat)
    requires key < |sep|
    requires forall d :: 0 <= d < key ==> sep[d] != sep[key]
    requires Lacks(x, sep[key])
    ensures IndexOf(x + sep + rest, sep, 0) == Some(|x|)
  {
    var s := x + sep + rest;
    assert OccursAt(s, sep, |x|) by {
      assert s[|x|..|x| + |sep|] == sep;
    }
    forall k | 0 <= k < |x|
      ensures !OccursAt(s, sep, k)
    {
      if k + |sep| <= |s| {
        assert s[k..k + |sep|][key] == s[k + key];
        if k + key < |x| {
          assert s[k + key] == x[k + key];
        } else {
          assert s[k + key] == sep[k + key - |x|];
        }
      }
    }
  }

  /** A text lacking the separator's character at index `key` is not split. */
  lemma SplitLacking(x: string, sep: string, key: nat)
    requires key < |sep|
    requires Lacks(x, sep[key])
    ensures Split(x, sep) == [x]
  {
    forall k | 0 <= k && k + |sep| <= |x|
      ensures !OccursAt(x, sep, k)
    {
      assert x[k..k + |sep|][key] == x[k + key];
    }
  }

  /** Splitting a piece, a separator and the rest gives the piece, then the
      pieces of the rest. */
  lemma SplitAfterFirst(x: string, sep: string, rest: string, key: nat)
    requires key < |sep|
    requires forall d :: 0 <= d < key ==> sep[d] != sep[key]
    requires Lacks(x, sep[key])
    ensures Split(x + sep + rest, sep) == [x] + Split(rest, sep)
  {
    var s := x + sep + rest;
    FirstSeparator(x, sep, rest, key);
    assert s[..|x|] == x;
    assert s[|x| + |sep|..] == rest;
  }

  /** Round trip: splitting a join gives back the pieces, when no piece holds
      the separator's character at index `key` and that character does not
      appear earlier in the separator. Then no occurrence of the separator
      can start inside a piece, nor reach across into the next separator. */
  lemma {:induction false} SplitOfJoin(xs: seq<string>, sep: string, key: nat)
    requires key < |sep| && |xs| >= 1
    requires forall d :: 0 <= d < key ==> sep[d] != sep[key]
    requires forall j :: 0 <= j < |xs| ==> Lacks(xs[j], sep[key])
    ensures Split(Join(sep, xs), sep) == xs
    decreases |xs|
  {
    if |xs| == 1 {
      SplitLacking(xs[0], sep, key);
    } else {
      SplitAfterFirst(xs[0], sep, Join(sep, xs[1..]), key);
      SplitOfJoin(xs[1..], sep, key);
      assert xs == [xs[0]] + xs[1..];
    }
  }

  // ---------------------------------------------------------------------
  // `str.strip()`

  /** Number of whitespace characters at the start of `s`. */
  function LeadingSpaces(s: string): (n: nat)
    ensures n <= |s|
    ensures forall k :: 0 <= k < n ==> IsSpace(s[k])
    ensures n < |s| ==> !IsSpace(s[n])
  {
    if |s| == 0 || !IsSpace(s[0]) then 0 else 1 + LeadingSpaces(s[1..])
  }

  /** Number of whitespace characters at the end of `s`. */
  function TrailingSpaces(s: string): (n: nat)
    ensures n <= |s|
    ensures forall k :: |s| - n <= k < |s| ==> IsSpace(s[k])
    ensures n < |s| ==> !IsSpace(s[|s| - n - 1])
  {
    if |s| == 0 || !IsSpace(s[|s| - 1]) then 0 else 1 + TrailingSpaces(s[..|s| - 1])
  }

  /** The text has no whitespace at either end. */
  predicate IsStripped(s: string) {
    |s| == 0 || (!IsSpace(s[0]) && !IsSpace(s[|s| - 1]))
  }

  /** `s.strip()`: the slice of `s` left after removing the whitespace at both
      ends. */
  function Strip(s: string): (r: string)
    ensures IsStripped(r)
    ensures |r| <= |s|
    ensures LeadingSpaces(s) + |r| <= |s| && r == s[LeadingSpaces(s)..LeadingSpaces(s) + |r|]
    ensures forall k :: LeadingSpaces(s) + |r| <= k < |s| ==> IsSpace(s[k])
  {
    var a := LeadingSpaces(s);
    var t := s[a..];
    var b := TrailingSpaces(t);
    assert b < |t| ==> !IsSpace(t[0]);
    t[..|t| - b]
  }

  /** Stripping text that has no outer whitespace changes nothing. */
  lemma StripStripped(s: string)
    requires IsStripped(s)
    ensures Strip(s) == s
  {
    assert LeadingSpaces(s) == 0;
    assert TrailingSpaces(s) == 0;
  }

  // ---------------------------------------------------------------------
  // `str.replace(pat, rep)`

  /** `s.replace(pat, rep)` for a non-empty `pat`: every leftmost,
      non-overlapping occurrence of `pat` is replaced by `rep`; the output is
      not rescanned. */
  function ReplaceAll(s: string, pat: string, rep: string): (r: string)
    requires |pat| > 0
    decreases |s|
  {
    if |s| < |pat| then s
    else if s[..|pat|] == pat then rep + ReplaceAll(s[|pat|..], pat, rep)
    else [s[0]] + ReplaceAll(s[1..], pat, rep)
  }

  /** Replacing by something no longer never lengthens the text, and an actual
      occurrence shortens it by the difference at least. */
  lemma {:induction false} ReplaceAllShrinks(s: string, pat: string, rep: string, i: nat)
    requires |pat| > 0 && |rep| <= |pat|
    ensures |ReplaceAll(s, pat, rep)| <= |s|
    ensures OccursAt(s, pat, i) ==> |ReplaceAll(s, pat, rep)| <= |s| - (|pat| - |rep|)
    decreases |s|
  {
    if |s| < |pat| {
    } else if s[..|pat|] == pat {
      ReplaceAllShrinks(s[|pat|..], pat, rep, 0);
    } else {
      if OccursAt(s, pat, i) {
        assert i != 0;
        assert s[1..][i - 1..i - 1 + |pat|] == s[i..i + |pat|];
        ReplaceAllShrinks(s[1..], pat, rep, i - 1);
      } else {
        ReplaceAllShrinks(s[1..], pat, rep, 0);
      }
    }
  }

  /** A character absent from both the text and the replacement is absent from
      the result. */
  lemma {:induction false} ReplaceAllKeepsOut(s: string, pat: string, rep: string, c: char)
    requires |pat| > 0 && Lacks(s, c) && Lacks(rep, c)
    ensures Lacks(ReplaceAll(s, pat, rep), c)
    decreases |s|
  {
    if |s| < |pat| {
    } else if s[..|pat|] == pat {
      ReplaceAllKeepsOut(s[|pat|..], pat, rep, c);
    } else {
      ReplaceAllKeepsOut(s[1..], pat, rep, c);
    }
  }

  /** Every character of the result comes from the text or the replacement. */
  lemma {:induction false} ReplaceAllChars(s: string, pat: string, rep: string)
    requires |pat| > 0
    ensures forall k :: 0 <= k < |ReplaceAll(s, pat, rep)| ==> ReplaceAll(s, pat, rep)[k] in s || ReplaceAll(s, pat, rep)[k] in rep
    decreases |s|
  {
    if |s| < |pat| {
    } else if s[..|pat|] == pat {
      ReplaceAllChars(s[|pat|..], pat, rep);
      assert forall c :: c in s[|pat|..] ==> c in s;
    } else {
      ReplaceAllChars(s[1..], pat, rep);
      assert forall c :: c in s[1..] ==> c in s;
    }
  }

  /** A text in which the pattern cannot even start is left as it is. */
  lemma {:induction false} ReplaceAllAbsent(s: string, pat: string, rep: string)
    requires |pat| > 0 && Lacks(s, pat[0])
    ensures ReplaceAll(s, pat, rep) == s
    decreases |s|
  {
    if |s| >= |pat| {
      assert s[..|pat|][0] == s[0];
      ReplaceAllAbsent(s[1..], pat, rep);
      assert [s[0]] + s[1..] == s;
    }
  }

  /** A text in which the pattern occurs nowhere is left as it is. */
  lemma {:induction false} ReplaceAllNoMatch(s: string, pat: string, rep: string)
    requires |pat| > 0 && forall i :: 0 <= i <= |s| ==> !OccursAt(s, pat, i)
    ensures ReplaceAll(s, pat, rep) == s
    decreases |s|
  {
    if |s| >= |pat| {
      assert !OccursAt(s, pat, 0);
      forall i | 0 <= i <= |s[1..]| ensures !OccursAt(s[1..], pat, i) {
        assert !OccursAt(s, pat, i + 1);
        if i + |pat| <= |s[1..]| {
          assert s[1..][i..i + |pat|] == s[i + 1..i + 1 + |pat|];
        }
      }
      ReplaceAllNoMatch(s[1..], pat, rep);
      assert [s[0]] + s[1..] == s;
    }
  }

  /** A lone occurrence of the pattern, between texts in which the pattern
      cannot start, is the only one replaced. */
  lemma {:induction false} ReplaceAllLone(a: string, pat: string, rep: string, b: string)
    requires |pat| > 0 && Lacks(a, pat[0]) && Lacks(b, pat[0])
    ensures ReplaceAll(a + pat + b, pat, rep) == a + rep + b
    decreases |a|
  {
    if |a| == 0 {
      assert a + pat + b == pat + b;
      assert (pat + b)[..|pat|] == pat && (pat + b)[|pat|..] == b;
      ReplaceAllAbsent(b, pat, rep);
    } else {
      var s := a + pat + b;
      assert s[..|pat|][0] == a[0];
      assert s[1..] == a[1..] + pat + b;
      ReplaceAllLone(a[1..], pat, rep, b);
      assert [a[0]] + (a[1..] + rep + b) == a + rep + b;
    }
  }

  /** Replacing one character by another, character by character. */
  lemma {:induction false} ReplaceCharMap(s: string, c: char, d: char)
    ensures |ReplaceAll(s, [c], [d])| == |s|
    ensures forall k :: 0 <= k < |s| ==> ReplaceAll(s, [c], [d])[k] == (if s[k] == c then d else s[k])
    decreases |s|
  {
    if |s| > 0 {
      ReplaceCharMap(s[1..], c, d);
      var r := ReplaceAll(s, [c], [d]);
      var t := ReplaceAll(s[1..], [c], [d]);
      if s[..1] == [c] {
        assert r == [d] + t;
      } else {
        assert s[0] != c;
        assert r == [s[0]] + t;
      }
      assert forall k :: 1 <= k < |s| ==> s[k] == s[1..][k - 1] && r[k] == t[k - 1];
    }
  }

  /** Replacing a single character works piece by piece: no occurrence
      straddles the boundary of a concatenation. */
  lemma {:induction false} ReplaceAllCharAppend(a: string, b: string, c: char, rep: string)
    ensures ReplaceAll(a + b, [c], rep) == ReplaceAll(a, [c], rep) + ReplaceAll(b, [c], rep)
    decreases |a|
  {
    if |a| == 0 {
      assert a + b == b;
    } else {
      assert (a + b)[..1] == a[..1];
      assert (a + b)[1..] == a[1..] + b;
      ReplaceAllCharAppend(a[1..], b, c, rep);
    }
  }

  /** The pieces of a list written one after the other. */
  function Concat(xs: seq<string>): (r: string)
    ensures |xs| > 0 ==> |r| >= |xs[0]|
  {
    if |xs| == 0 then "" else xs[0] + Concat(xs[1..])
  }

  /** A token has no plain space in it. */
  lemma TokenLacksSpace(t: string)
    requires NoSpace(t)
    ensures Lacks(t, ' ')
  {
    forall k | 0 <= k < |t| ensures t[k] != ' ' {
      assert !IsSpace(t[k]);
    }
  }

  /** Deleting the spaces after a space-free head leaves the head in front. */
  lemma RemoveSpacesAfterHead(t: string, rest: string)
    requires Lacks(t, ' ')
    ensures ReplaceAll(t + (" " + rest), " ", "") == t + ReplaceAll(rest, " ", "")
  {
    ReplaceAllAbsent(t, " ", "");
    ReplaceAllCharAppend(t, " " + rest, ' ', "");
    ReplaceAllCharAppend(" ", rest, ' ', "");
    assert ReplaceAll(" ", " ", "") == "";
  }

  /** Deleting the spaces of a space-joined list of tokens leaves the tokens
      written one after the other. */
  lemma {:induction false} RemoveSpacesOfJoin(ts: seq<string>)
    requires AreTokens(ts)
    ensures ReplaceAll(Join(" ", ts), " ", "") == Concat(ts)
    decreases |ts|
  {
    if |ts| == 0 {
    } else {
      TokenLacksSpace(ts[0]);
      if |ts| == 1 {
        ReplaceAllAbsent(ts[0], " ", "");
        assert Concat(ts) == ts[0] + Concat(ts[1..]);
        assert ts[0] + "" == ts[0];
      } else {
        var rest := Join(" ", ts[1..]);
        assert Join(" ", ts) == ts[0] + (" " + rest);
        RemoveSpacesAfterHead(ts[0], rest);
        RemoveSpacesOfJoin(ts[1..]);
      }
    }
  }

  /** Replacing a single character by something without it removes it entirely. */
  lemma {:induction false} ReplaceAllRemovesChar(s: string, c: char, rep: string)
    requires Lacks(rep, c)
    ensures Lacks(ReplaceAll(s, [c], rep), c)
    decreases |s|
  {
    if |s| < 1 {
    } else if s[..1] == [c] {
      ReplaceAllRemovesChar(s[1..], c, rep);
    } else {
      assert s[0] != c;
      ReplaceAllRemovesChar(s[1..], c, rep);
    }
  }
}
