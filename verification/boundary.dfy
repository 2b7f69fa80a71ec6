/**
 Locating the operative part of an act: the text strictly between an
 enacting formula ("HAS ADOPTED THIS REGULATION") and a signing formula
 ("Done at Brussels"), found with the pattern `(?<=b)(.*?)(?=e)` for each
 (b, e) pair in turn, and handed to the summary extractor after two
 line-break repairs.
 */
module Boundary {
  import opened Text
  import opened Rules
  import opened Summary

  /** The pattern `(?<=b)(.*?)(?=e)` (dot matching newlines) can match
      `text[p..q]`: `b` ends at `p` and `e` starts at `q`. */
  ghost predicate LookaroundAt(text: string, b: string, e: string, p: nat, q: nat) {
    |b| <= p <= q && OccursAt(text, b, p - |b|) && OccursAt(text, e, q)
  }

  /** The first match `findall` reports: the engine tries start positions left
      to right and, the group being lazy, the shortest span at the first start
      that admits one. Returns the span's bounds. */
  function MatchBounds(text: string, b: string, e: string): (r: Option<(nat, nat)>)
    ensures r.Some? ==> LookaroundAt(text, b, e, r.value.0, r.value.1)
    ensures r.Some? ==> forall p: nat, q: nat :: LookaroundAt(text, b, e, p, q) ==>
      r.value.0 < p || (r.value.0 == p && r.value.1 <= q)
    ensures r.None? <==> forall p: nat, q: nat :: !LookaroundAt(text, b, e, p, q)
  {
    match IndexOf(text, b, 0)
    case None =>
      assert forall p: nat, q: nat :: !LookaroundAt(text, b, e, p, q) by {
        forall p: nat, q: nat ensures !LookaroundAt(text, b, e, p, q) {
          if |b| <= p {
            assert !OccursAt(text, b, p - |b|);
          }
        }
      }
      None
    case Some(i) =>
      match IndexOf(text, e, i + |b|)
      case None =>
        assert forall p: nat, q: nat :: !LookaroundAt(text, b, e, p, q) by {
          forall p: nat, q: nat ensures !LookaroundAt(text, b, e, p, q) {
            if |b| <= p && OccursAt(text, b, p - |b|) {
              assert i + |b| <= p;
              assert !OccursAt(text, e, q) || q < p;
            }
          }
        }
        None
      case Some(j) =>
        assert forall p: nat, q: nat :: LookaroundAt(text, b, e, p, q) ==> i + |b| < p || (i + |b| == p && j <= q) by {
          forall p: nat, q: nat | LookaroundAt(text, b, e, p, q)
            ensures i + |b| < p || (i + |b| == p && j <= q)
          {
            assert !OccursAt(text, b, p - |b|) || i <= p - |b|;
            if i + |b| == p {
              assert !OccursAt(text, e, q) || j <= q;
            }
          }
        }
        assert LookaroundAt(text, b, e, i + |b|, j);
        Some((i + |b|, j))
  }

  /** Where the operative part was found: the indices of the begin and end
      phrases, and the bounds of the matched span. */
  datatype Hit = Hit(bi: nat, ei: nat, start: nat, stop: nat)

  /** Pair `(i1, j1)` is tried before pair `(i2, j2)`: begin phrases in the
      outer loop, end phrases in the inner one. */
  predicate TriedBefore(i1: nat, j1: nat, i2: nat, j2: nat) {
    i1 < i2 || (i1 == i2 && j1 < j2)
  }

  /** The nested loops of the extractor, from pair `(i, j)` on. */
  function FindHitFrom(text: string, begins: seq<string>, ends: seq<string>, i: nat, j: nat): (r: Option<Hit>)
    requires i <= |begins| && j <= |ends|
    ensures r.Some? ==>
              r.value.bi < |begins| && r.value.ei < |ends|
              && !TriedBefore(r.value.bi, r.value.ei, i, j)
              && MatchBounds(text, begins[r.value.bi], ends[r.value.ei]) == Some((r.value.start, r.value.stop))
    ensures r.Some? ==>
              forall i2: nat, j2: nat ::
                i2 < |begins| && j2 < |ends| && !TriedBefore(i2, j2, i, j) && TriedBefore(i2, j2, r.value.bi, r.value.ei)
                ==> MatchBounds(text, begins[i2], ends[j2]).None?
    ensures r.None? ==>
              forall i2: nat, j2: nat ::
                i2 < |begins| && j2 < |ends| && !TriedBefore(i2, j2, i, j)
                ==> MatchBounds(text, begins[i2], ends[j2]).None?
    decreases |begins| - i, |ends| - j
  {
    if i == |begins| then None
    else if j == |ends| then FindHitFrom(text, begins, ends, i + 1, 0)
    else
      match MatchBounds(text, begins[i], ends[j])
      case Some((p, q)) => Some(Hit(i, j, p, q))
      case None => FindHitFrom(text, begins, ends, i, j + 1)
  }

  /** No (begin, end) pair of phrases brackets any span of the text. */
  ghost predicate NoPairMatches(text: string, begins: seq<string>, ends: seq<string>) {
    forall i: nat, j: nat, p: nat, q: nat :: i < |begins| && j < |ends| ==>
      !LookaroundAt(text, begins[i], ends[j], p, q)
  }

  /** The first pair, in loop order, whose pattern matches, with its match. */
  function FindHit(text: string, begins: seq<string>, ends: seq<string>): (r: Option<Hit>)
    ensures r.Some? ==>
              r.value.bi < |begins| && r.value.ei < |ends|
              && MatchBounds(text, begins[r.value.bi], ends[r.value.ei]) == Some((r.value.start, r.value.stop))
    ensures r.Some? ==>
              forall i: nat, j: nat ::
                j < |ends| && TriedBefore(i, j, r.value.bi, r.value.ei)
                ==> MatchBounds(text, begins[i], ends[j]).None?
    ensures r.None? <==> NoPairMatches(text, begins, ends)
  {
    var r := FindHitFrom(text, begins, ends, 0, 0);
    if r.None? then
      assert NoPairMatches(text, begins, ends) by {
        forall i: nat, j: nat, p: nat, q: nat | i < |begins| && j < |ends|
          ensures !LookaroundAt(text, begins[i], ends[j], p, q)
        {
          assert MatchBounds(text, begins[i], ends[j]).None?;
        }
      }
      r
    else
      assert !NoPairMatches(text, begins, ends) by {
        var h := r.value;
        assert LookaroundAt(text, begins[h.bi], ends[h.ei], h.start, h.stop);
      }
      r
  }

  /** The two repairs applied to the matched span: line breaks become spaces,
      then every soft hyphen followed by a space is deleted. */
  function Sanitize(span: string): (r: string)
    ensures Lacks(r, '\n')
    ensures |r| <= |span|
  {
    var t := ReplaceAll(span, "\n", " ");
    ReplaceAllRemovesChar(span, '\n', " ");
    ReplaceAllShrinks(span, "\n", " ", 0);
    ReplaceAllKeepsOut(t, SOFT_HYPHEN_SPACE, "", '\n');
    ReplaceAllShrinks(t, SOFT_HYPHEN_SPACE, "", 0);
    ReplaceAll(t, SOFT_HYPHEN_SPACE, "")
  }

  /** A span with neither line breaks nor soft hyphens needs no repair. */
  lemma SanitizeKeepsCleanSpan(span: string)
    requires Lacks(span, '\n') && Lacks(span, '\U{00AD}')
    ensures Sanitize(span) == span
  {
    ReplaceAllAbsent(span, "\n", " ");
    ReplaceAllAbsent(span, SOFT_HYPHEN_SPACE, "");
  }

  /** Without soft hyphens, the repairs turn each line break into a space and
      keep every other character in place. */
  lemma SanitizeNewlines(span: string)
    requires Lacks(span, '\U{00AD}')
    ensures |Sanitize(span)| == |span|
    ensures forall k :: 0 <= k < |span| ==> Sanitize(span)[k] == (if span[k] == '\n' then ' ' else span[k])
  {
    var t := ReplaceAll(span, "\n", " ");
    ReplaceCharMap(span, '\n', ' ');
    ReplaceAllKeepsOut(span, "\n", " ", '\U{00AD}');
    ReplaceAllAbsent(t, SOFT_HYPHEN_SPACE, "");
  }

  /** A soft hyphen followed by a space is deleted, joining the word halves
      around it. */
  lemma SanitizeDropsSoftHyphen(a: string, b: string)
    requires Lacks(a, '\n') && Lacks(a, '\U{00AD}')
    requires Lacks(b, '\n') && Lacks(b, '\U{00AD}')
    ensures Sanitize(a + SOFT_HYPHEN_SPACE + b) == a + b
  {
    var s := a + SOFT_HYPHEN_SPACE + b;
    assert Lacks(s, '\n') by {
      forall k | 0 <= k < |s| ensures s[k] != '\n' {
        if k < |a| { assert s[k] == a[k]; }
        else if k < |a| + 2 { assert s[k] == SOFT_HYPHEN_SPACE[k - |a|]; }
        else { assert s[k] == b[k - |a| - 2]; }
      }
    }
    ReplaceAllAbsent(s, "\n", " ");
    ReplaceAllLone(a, SOFT_HYPHEN_SPACE, "", b);
    assert a + "" + b == a + b;
  }

  /** The operative text handed to the summary extractor, if any pair matched. */
  function OperativeSpan(text: string, begins: seq<string>, ends: seq<string>): (r: Option<string>)
    ensures r.None? <==> NoPairMatches(text, begins, ends)
    ensures r.Some? ==> Lacks(r.value, '\n')
  {
    match FindHit(text, begins, ends)
    case None => None
    case Some(h) =>
      assert h.start <= h.stop <= |text| by {
        assert LookaroundAt(text, begins[h.bi], ends[h.ei], h.start, h.stop);
      }
      Some(Sanitize(text[h.start..h.stop]))
  }

  /** Extracting the operative part does not raise: the segments of the span
      can all be processed. `segment` stands for the external sentence
      segmenter. */
  predicate OperativeDefined(cfg: Config, text: string, begins: seq<string>, ends: seq<string>,
                             segment: string -> seq<string>) {
    match OperativeSpan(text, begins, ends)
    case None => true
    case Some(span) => SegmentsDefined(cfg, segment(span))
  }

  /** `extract_text_from_pdf` and `extract_text_from_html` once the document's
      text has been retrieved: the summary of the first bracketed span, or the
      empty string when no pair of phrases brackets one. */
  function ExtractOperativeText(cfg: Config, text: string, begins: seq<string>, ends: seq<string>,
                                segment: string -> seq<string>): (r: string)
    requires OperativeDefined(cfg, text, begins, ends, segment)
    ensures NoPairMatches(text, begins, ends) ==> r == ""
    ensures !NoPairMatches(text, begins, ends) ==>
      var segs := segment(OperativeSpan(text, begins, ends).value);
      SegmentsDefined(cfg, segs)
      && (CleanSentences(cfg, segs) == [] ==> r == "")
      && (CleanSentences(cfg, segs) != [] ==> Split(r, SENTENCE_SEPARATOR) == CleanSentences(cfg, segs))
  {
    match OperativeSpan(text, begins, ends)
    case None => ""
    case Some(span) => ExtractSummary(cfg, segment(span))
  }

  /** The lazy group can be empty: when the end phrase directly follows the
      begin phrase, the first match is the empty span between them. */
  lemma EmptySpanMatches()
    ensures MatchBounds("BE", "B", "E") == Some((1, 1))
  {
    assert LookaroundAt("BE", "B", "E", 1, 1);
  }
}
