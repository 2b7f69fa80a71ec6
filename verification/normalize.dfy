/**
 The two sentence-normalisation passes. Pass 1 drops a leading colon and
 collapses inline cross-references such as "Article 12a T..." down to their
 final capital; pass 2 strips a leading structural heading such as
 "Article 4 Scope" so that the sentence starts at its substantive clause.
 */
module Normalize {
  import opened Text
  
  // ---------------------------------------------------------------------
  // Pass 1: the pattern \bArticle \s*\d\d?\d?[a-z]?\s*[A-Z]

  const ARTICLE_WORD: string := "Article "

  /** Only whitespace: the trailing `\s*` of the pattern. */
  predicate AllSpace(m: string) {
    forall k :: 0 <= k < |m| ==> IsSpace(m[k])
  }

  /** `[a-z]?\s*`: what may follow the digits. */
  predicate IsRefSuffix(m: string) {
    AllSpace(m) || (|m| > 0 && IsLower(m[0]) && AllSpace(m[1..]))
  }

  /** `m` is the rest of a reference number of which `taken` digits have been
      read: up to `3 - taken` further digits (at least one in all), then the
      suffix. */
  predicate IsRefNumber(m: string, taken: nat)
    decreases |m|
  {
    (taken >= 1 && IsRefSuffix(m))
    || (taken < 3 && |m| > 0 && IsDigit(m[0]) && IsRefNumber(m[1..], taken + 1))
  }

  /** The part `\s*\d\d?\d?[a-z]?\s*` of the pattern, as the set of strings it
      matches in full: leading whitespace, one to three digits, an optional
      lower-case letter, trailing whitespace. */
  predicate IsRefMiddle(m: string)
    decreases |m|
  {
    IsRefNumber(m, 0) || (|m| > 0 && IsSpace(m[0]) && IsRefMiddle(m[1..]))
  }

  /** `w` is, in full, an inline article reference: "Article ", the middle
      part, and one capital letter. */
  predicate IsArticleRef(w: string) {
    |w| > |ARTICLE_WORD| && w[..|ARTICLE_WORD|] == ARTICLE_WORD
    && IsUpper(w[|w| - 1]) && IsRefMiddle(w[|ARTICLE_WORD|..|w| - 1])
  }

  /** The regex matches `s[p..p+n]`: the text there is a reference and `p` is
      a word boundary (the reference starts with the word character 'A'). */
  predicate ArticleRefAt(s: string, p: nat, n: nat) {
    p + n <= |s| && (p == 0 || !IsWordChar(s[p - 1])) && IsArticleRef(s[p..p + n])
  }

  /** The regex has no match anywhere in `s`. */
  ghost predicate NoArticleRef(s: string) {
    forall p: nat, n: nat :: !ArticleRefAt(s, p, n)
  }

  /** The number and suffix of a reference hold no capital letter. */
  lemma {:induction false} RefNumberHasNoUpper(m: string, taken: nat)
    requires IsRefNumber(m, taken)
    ensures forall k :: 0 <= k < |m| ==> !IsUpper(m[k])
    decreases |m|
  {
    if taken >= 1 && IsRefSuffix(m) {
    } else {
      RefNumberHasNoUpper(m[1..], taken + 1);
      assert forall k :: 1 <= k < |m| ==> m[k] == m[1..][k - 1];
    }
  }

  /** The middle of a reference holds no capital letter. */
  lemma {:induction false} MiddleHasNoUpper(m: string)
    requires IsRefMiddle(m)
    ensures forall k :: 0 <= k < |m| ==> !IsUpper(m[k])
    decreases |m|
  {
    if IsRefNumber(m, 0) {
      RefNumberHasNoUpper(m, 0);
    } else {
      MiddleHasNoUpper(m[1..]);
      assert forall k :: 1 <= k < |m| ==> m[k] == m[1..][k - 1];
    }
  }

  /** A reference never extends to a longer one: its final capital would
      sit inside the longer one's middle part. */
  lemma ArticleRefNotPrefix(w: string, v: string)
    requires IsArticleRef(w)
    requires |w| < |v| && v[..|w|] == w
    ensures !IsArticleRef(v)
  {
    var L := |ARTICLE_WORD|;
    var x := |w| - 1 - L;
    var m := v[L..|v| - 1];
    assert v[|w| - 1] == w[|w| - 1];
    assert m[x] == v[|w| - 1];
    UpperBreaksMiddle(m, x);
  }

  /** At a given position the match is fully determined: a reference is never
      a proper prefix of another one. */
  lemma ArticleRefUnique(s: string, p: nat, n1: nat, n2: nat)
    requires ArticleRefAt(s, p, n1)
    requires n1 < n2
    ensures !ArticleRefAt(s, p, n2)
  {
    if p + n2 <= |s| {
      assert s[p..p + n2][..n1] == s[p..p + n1];
      ArticleRefNotPrefix(s[p..p + n1], s[p..p + n2]);
    }
  }

  /** A capital letter anywhere rules out the middle part. */
  lemma UpperBreaksMiddle(m: string, x: nat)
    requires x < |m| && IsUpper(m[x])
    ensures !IsRefMiddle(m)
  {
    if IsRefMiddle(m) {
      MiddleHasNoUpper(m);
    }
  }

  /** The shortest length, at least `n`, of a reference starting at `p`. */
  function RefLengthFrom(s: string, p: nat, n: nat): (r: Option<nat>)
    requires p + n <= |s| + 1
    ensures r.Some? ==> n <= r.value && ArticleRefAt(s, p, r.value)
    ensures r.Some? ==> forall m :: n <= m < r.value ==> !ArticleRefAt(s, p, m)
    ensures r.None? ==> forall m :: n <= m ==> !ArticleRefAt(s, p, m)
    decreases |s| + 1 - p - n
  {
    if p + n > |s| then
      None
    else if ArticleRefAt(s, p, n) then
      Some(n)
    else
      RefLengthFrom(s, p, n + 1)
  }

  /** The leftmost match at or after `from`, as (position, length). */
  function FirstArticleRef(s: string, from: nat): (r: Option<(nat, nat)>)
    requires from <= |s|
    ensures r.Some? ==> from <= r.value.0 && ArticleRefAt(s, r.value.0, r.value.1)
    ensures r.Some? ==> forall q: nat, n: nat :: from <= q < r.value.0 ==> !ArticleRefAt(s, q, n)
    ensures r.None? ==> forall q: nat, n: nat :: from <= q ==> !ArticleRefAt(s, q, n)
    decreases |s| - from
  {
    match RefLengthFrom(s, from, 0)
    case Some(n) => Some((from, n))
    case None => if from == |s| then None else FirstArticleRef(s, from + 1)
  }

  /** The match `re.findall` lists first is the leftmost one, and its length
      is the only length a reference at that position can have. */
  lemma FirstArticleRefIsRegexMatch(s: string)
    requires FirstArticleRef(s, 0).Some?
    ensures var (p, n) := FirstArticleRef(s, 0).value;
      ArticleRefAt(s, p, n)
      && (forall q: nat, m: nat :: ArticleRefAt(s, q, m) ==> p < q || (p == q && n == m))
  {
    var (p, n) := FirstArticleRef(s, 0).value;
    forall q: nat, m: nat | ArticleRefAt(s, q, m) && q == p
      ensures n == m
    {
      if n < m {
        ArticleRefUnique(s, p, n, m);
      } else if m < n {
        ArticleRefUnique(s, p, m, n);
      }
    }
  }

  /** The loop of pass 1: while the pattern matches, replace every literal
      occurrence of the leftmost matched text by its final capital letter. */
  function CollapseArticleRefs(s: string): (r: string)
    ensures NoArticleRef(r)
    ensures |r| <= |s|
    decreases |s|
  {
    match FirstArticleRef(s, 0)
    case None => s
    case Some((p, n)) =>
      var m := s[p..p + n];
      ReplaceAllShrinks(s, m, [m[n - 1]], p);
      CollapseArticleRefs(ReplaceAll(s, m, [m[n - 1]]))
  }

  /** A reference starts with 'A' and holds no other 'A' unless its final
      capital is one. */
  lemma ArticleRefLetters(w: string)
    requires IsArticleRef(w)
    ensures w[0] == 'A'
    ensures forall k :: 0 < k < |w| - 1 ==> w[k] != 'A'
  {
    var L := |ARTICLE_WORD|;
    var m := w[L..|w| - 1];
    MiddleHasNoUpper(m);
    forall k | 0 < k < |w| - 1 ensures w[k] != 'A' {
      if k < L {
        assert w[k] == w[..L][k] == ARTICLE_WORD[k];
      } else {
        assert w[k] == m[k - L];
      }
    }
  }

  /** A match has one length at a given position. */
  lemma ArticleRefLength(s: string, p: nat, n1: nat, n2: nat)
    requires ArticleRefAt(s, p, n1) && ArticleRefAt(s, p, n2)
    ensures n1 == n2
  {
    if n1 < n2 {
      ArticleRefUnique(s, p, n1, n2);
    } else if n2 < n1 {
      ArticleRefUnique(s, p, n2, n1);
    }
  }

  /** Every match starts at an 'A'. */
  lemma ArticleRefAtA(s: string, p: nat, n: nat)
    requires ArticleRefAt(s, p, n)
    ensures p < |s| && s[p] == 'A'
  {
    ArticleRefLetters(s[p..p + n]);
  }

  /** Text without an 'A' holds no reference, so the loop leaves it alone. */
  lemma CollapseWithoutA(t: string)
    requires Lacks(t, 'A')
    ensures NoArticleRef(t)
    ensures CollapseArticleRefs(t) == t
  {
    forall p: nat, n: nat ensures !ArticleRefAt(t, p, n) {
      if ArticleRefAt(t, p, n) {
        ArticleRefAtA(t, p, n);
      }
    }
  }

  /** In a text whose only 'A' starts the reference `w`, the first match is
      `w` itself. */
  lemma LoneRefIsFirst(a: string, w: string, b: string)
    requires IsArticleRef(w) && w[|w| - 1] != 'A'
    requires Lacks(a, 'A') && Lacks(b, 'A')
    requires |a| == 0 || !IsWordChar(a[|a| - 1])
    ensures FirstArticleRef(a + w + b, 0) == Some((|a|, |w|))
  {
    var s := a + w + b;
    ArticleRefLetters(w);
    assert s[|a|..|a| + |w|] == w;
    if |a| > 0 {
      assert s[|a| - 1] == a[|a| - 1];
    }
    assert ArticleRefAt(s, |a|, |w|);
    assert forall k | 0 <= k < |s| && k != |a| :: s[k] != 'A' by {
      forall k | 0 <= k < |s| && k != |a| ensures s[k] != 'A' {
        if k < |a| {
          assert s[k] == a[k];
        } else if k < |a| + |w| {
          assert s[k] == w[k - |a|];
        } else {
          assert s[k] == b[k - |a| - |w|];
        }
      }
    }
    var r := FirstArticleRef(s, 0);
    assert r.Some?;
    ArticleRefAtA(s, r.value.0, r.value.1);
    assert r.value.0 == |a|;
    ArticleRefLength(s, |a|, r.value.1, |w|);
  }

  /** The loop on a text holding one reference: the reference shrinks to its
      final capital and everything around it stays, as `replace(x, x[-1])`
      does. The surrounding text holds no 'A', so it holds no other
      reference, and the reference's own capital is not 'A', so none is
      created. */
  lemma CollapseLoneRef(a: string, w: string, b: string)
    requires IsArticleRef(w) && w[|w| - 1] != 'A'
    requires Lacks(a, 'A') && Lacks(b, 'A')
    requires |a| == 0 || !IsWordChar(a[|a| - 1])
    ensures CollapseArticleRefs(a + w + b) == a + [w[|w| - 1]] + b
  {
    var s := a + w + b;
    var cap := [w[|w| - 1]];
    LoneRefIsFirst(a, w, b);
    ArticleRefLetters(w);
    assert s[|a|..|a| + |w|] == w;
    ReplaceAllLone(a, w, cap, b);
    var t := a + cap + b;
    assert Lacks(t, 'A') by {
      forall k | 0 <= k < |t| ensures t[k] != 'A' {
        if k < |a| {
          assert t[k] == a[k];
        } else if k == |a| {
          assert t[k] == w[|w| - 1];
        } else {
          assert t[k] == b[k - |a| - 1];
        }
      }
    }
    CollapseWithoutA(t);
  }

  /** A match inside a stripped slice is a match in the whole text. */
  lemma ArticleRefInSlice(c: string, a: nat, b: nat, p: nat, n: nat)
    requires a <= b <= |c|
    requires a == 0 || IsSpace(c[a - 1])
    requires ArticleRefAt(c[a..b], p, n)
    ensures ArticleRefAt(c, a + p, n)
  {
    var t := c[a..b];
    assert forall i :: 0 <= i < |t| ==> t[i] == c[a + i];
    assert t[p..p + n] == c[a + p..a + p + n];
    if p > 0 {
      assert c[a..b][p - 1] == c[a + p - 1];
    }
  }

  /** Stripping cannot create a match. */
  lemma NoArticleRefStrip(c: string)
    requires NoArticleRef(c)
    ensures NoArticleRef(Strip(c))
  {
    var r := Strip(c);
    var a := LeadingSpaces(c);
    assert r == c[a..a + |r|];
    forall p: nat, n: nat
      ensures !ArticleRefAt(r, p, n)
    {
      if ArticleRefAt(r, p, n) {
        ArticleRefInSlice(c, a, a + |r|, p, n);
      }
    }
  }

  /** `clean_sentence_pass1`: drop one leading ':' (then strip), collapse the
      article references, strip. The source indexes `s[0]`, so the empty
      sentence is outside its domain. */
  function Pass1(s: string): (r: string)
    requires |s| > 0
    ensures NoArticleRef(r)
    ensures IsStripped(r)
    ensures |r| <= |s|
  {
    var t := if s[0] == ':' then Strip(s[1..]) else s;
    var c := CollapseArticleRefs(t);
    NoArticleRefStrip(c);
    Strip(c)
  }

  /** Pass 1 leaves its own output unchanged unless that output starts with
      ':' again. */
  lemma Pass1Idempotent(s: string)
    requires |s| > 0 && |Pass1(s)| > 0 && Pass1(s)[0] != ':'
    ensures Pass1(Pass1(s)) == Pass1(s)
  {
    var r := Pass1(s);
    assert FirstArticleRef(r, 0).None?;
    assert CollapseArticleRefs(r) == r;
    StripStripped(r);
  }

  /** Text too short for "Article " plus a digit and a capital has no match. */
  lemma ShortHasNoArticleRef(s: string)
    requires |s| < 10
    ensures CollapseArticleRefs(s) == s
  {
    assert FirstArticleRef(s, 0).None?;
  }

  /** Pass 1 is not idempotent: "::x" becomes ":x", which becomes "x". */
  lemma Pass1NotIdempotent()
    ensures Pass1("::x") == ":x"
    ensures Pass1(Pass1("::x")) == "x"
  {
    assert "::x"[1..] == ":x";
    StripStripped(":x");
    ShortHasNoArticleRef(":x");
    StripStripped(":x");
    assert ":x"[1..] == "x";
    StripStripped("x");
    ShortHasNoArticleRef("x");
  }

  // ---------------------------------------------------------------------
  // Pass 2: heading removal

  /** The token starts with an ASCII capital (`token[0].isupper()`). */
  predicate StartsUpper(t: string) {
    |t| > 0 && IsUpper(t[0])
  }

  /** `str.isnumeric()`, restricted to ASCII digits. */
  predicate IsNumeric(t: string) {
    |t| > 0 && forall k :: 0 <= k < |t| ==> IsDigit(t[k])
  }

  /** `get_index_of_next_upper_case_token`: the least index at or after
      `start` whose token starts with a capital, or -1. */
  function NextUpperIndex(ts: seq<string>, start: nat): (i: int)
    requires forall k :: start <= k < |ts| ==> |ts[k]| > 0
    ensures i == -1 || start <= i < |ts|
    ensures i >= 0 ==> StartsUpper(ts[i])
    ensures i >= 0 ==> forall k :: start <= k < i ==> !StartsUpper(ts[k])
    ensures i == -1 ==> forall k :: start <= k < |ts| ==> !StartsUpper(ts[k])
    decreases |ts| - start
  {
    if start >= |ts| then -1
    else if IsUpper(ts[start][0]) then start
    else NextUpperIndex(ts, start + 1)
  }

  /** `k` is where the substantive clause begins after "Label N Heading...":
      the least index from 3 on whose token is capitalised, or 3 if none is. */
  ghost predicate IsHeadingEnd(ts: seq<string>, k: int) {
    3 <= k <= |ts|
    && (forall j :: 3 <= j < k ==> !StartsUpper(ts[j]))
    && if exists j :: 3 <= j < |ts| && StartsUpper(ts[j]) then k < |ts| && StartsUpper(ts[k]) else k == 3
  }

  /** Pass 2 does not raise an IndexError: there is a first token, a second
      one after a structural label, and a third one after "Label N". */
  predicate Pass2Defined(labels: seq<string>, s: string) {
    var ts := Words(s);
    |ts| >= 1 && (ts[0] in labels ==> |ts| >= 2 && (IsNumeric(ts[1]) ==> |ts| >= 3))
  }

  /** `clean_sentence_pass2`, with the structural labels (`START_TOKENS`) as
      `labels`. Every branch of the source returns the space-join of a suffix
      of the tokens; `k` is where that suffix starts. */
  function Pass2(labels: seq<string>, s: string): (r: string)
    requires Pass2Defined(labels, s)
    ensures |Words(r)| <= |Words(s)|
    ensures Words(r) == Words(s)[|Words(s)| - |Words(r)|..]
    ensures r == Join(" ", Words(r))
    ensures forall k :: 0 <= k < |r| ==> r[k] == ' ' || !IsSpace(r[k])
    ensures IsStripped(r)
    ensures Words(s)[0] !in labels || !IsNumeric(Words(s)[1]) ==> Words(r) == Words(s)
    ensures Words(s)[0] in labels && IsNumeric(Words(s)[1]) && !StartsUpper(Words(s)[2])
      ==> Words(r) == Words(s)[2..]
    ensures Words(s)[0] in labels && IsNumeric(Words(s)[1]) && StartsUpper(Words(s)[2])
      ==> IsHeadingEnd(Words(s), |Words(s)| - |Words(r)|)
  {
    var ts := Words(s);
    var k :=
      if ts[0] in labels then
        if IsNumeric(ts[1]) then
          if IsUpper(ts[2][0]) then
            var i := NextUpperIndex(ts, 3);
            if i > 2 then i else 3
          else 2
        else 0
      else 0;
    assert AreTokens(ts[k..]);
    WordsOfJoin(ts[k..]);
    JoinSpacedChars(ts[k..]);
    JoinTokensStripped(ts[k..]);
    Join(" ", ts[k..])
  }

  /** A sentence that does not open with a structural label comes out of
      pass 2 unchanged (up to whitespace, which a token list fixes). */
  lemma Pass2KeepsUnlabelled(labels: seq<string>, ts: seq<string>)
    requires AreTokens(ts) && |ts| >= 1 && ts[0] !in labels
    ensures Pass2Defined(labels, Join(" ", ts))
    ensures Pass2(labels, Join(" ", ts)) == Join(" ", ts)
  {
    WordsOfJoin(ts);
  }

  /** "Label N word ..." loses its label and number. */
  lemma Pass2DropsLabelAndNumber(labels: seq<string>, ts: seq<string>)
    requires AreTokens(ts) && |ts| >= 3 && ts[0] in labels && IsNumeric(ts[1]) && !StartsUpper(ts[2])
    ensures Pass2Defined(labels, Join(" ", ts))
    ensures Pass2(labels, Join(" ", ts)) == Join(" ", ts[2..])
  {
    WordsOfJoin(ts);
  }

  /** "Label N Title Word ..." with a one-word title loses label, number and
      title. */
  lemma Pass2DropsOneWordTitle(labels: seq<string>, ts: seq<string>)
    requires AreTokens(ts) && |ts| >= 4 && ts[0] in labels && IsNumeric(ts[1])
    requires StartsUpper(ts[2]) && StartsUpper(ts[3])
    ensures Pass2Defined(labels, Join(" ", ts))
    ensures Pass2(labels, Join(" ", ts)) == Join(" ", ts[3..])
  {
    WordsOfJoin(ts);
    var r := Pass2(labels, Join(" ", ts));
    assert IsHeadingEnd(ts, |ts| - |Words(r)|);
    assert Words(r) == ts[3..];
  }

  /** On a sentence of tokens, pass 2 raises exactly when there is no token,
      when a structural label stands alone, or when a label is followed by a
      number and nothing else. */
  lemma Pass2RaisesOnTokens(labels: seq<string>, ts: seq<string>)
    requires AreTokens(ts)
    ensures !Pass2Defined(labels, Join(" ", ts)) <==>
      |ts| == 0 || (ts[0] in labels && (|ts| == 1 || (|ts| == 2 && IsNumeric(ts[1]))))
  {
    WordsOfJoin(ts);
  }
}
