/**
 Summary assembly: every segment produced by the external sentence segmenter
 goes through pass 1, the validity filter and pass 2; the survivors are joined
 with the triple-newline sentence separator.
 */
module Summary {
  import opened Text
  import opened Rules
  import opened Normalize
  import opened Validity
  import opened Seqs

  /** Processing the segment does not raise: it is non-empty, and its pass-1
      form is a sentence the filter (which runs pass 2) can examine. */
  predicate SegmentDefined(cfg: Config, seg: string) {
    |seg| > 0 && ValidityDefined(cfg, Pass1(seg))
  }

  predicate SegmentsDefined(cfg: Config, segs: seq<string>) {
    forall k :: 0 <= k < |segs| ==> SegmentDefined(cfg, segs[k])
  }

  /** The segment survives the filter. */
  predicate Survives(cfg: Config, seg: string)
    requires SegmentDefined(cfg, seg)
  {
    IsValidSentence(cfg, Pass1(seg))
  }

  /** The text a segment contributes if it survives: pass 2 after pass 1. */
  function Clean(cfg: Config, seg: string): (r: string)
    requires SegmentDefined(cfg, seg)
    ensures Lacks(r, '\n') && IsStripped(r)
  {
    Pass2(cfg.startTokens, Pass1(seg))
  }

  /** What one segment contributes: its cleaned form if it survives. */
  function Outcome(cfg: Config, seg: string): Option<string>
  {
    if SegmentDefined(cfg, seg) && Survives(cfg, seg) then Some(Clean(cfg, seg)) else None
  }

  /** The loop of `extract_summary`: the cleaned survivors, in segmenter order. */
  function CleanSentences(cfg: Config, segs: seq<string>): (kept: seq<string>)
    requires SegmentsDefined(cfg, segs)
    ensures |kept| <= |segs|
    ensures forall k :: 0 <= k < |kept| ==>
              exists i :: 0 <= i < |segs| && Survives(cfg, segs[i]) && kept[k] == Clean(cfg, segs[i])
    ensures forall i :: 0 <= i < |segs| && Survives(cfg, segs[i]) ==> Clean(cfg, segs[i]) in kept
  {
    FilterMap(seg => Outcome(cfg, seg), segs)
  }

  /** No kept sentence has a line break, so the separator can be split on. */
  lemma CleanSentencesSingleLine(cfg: Config, segs: seq<string>)
    requires SegmentsDefined(cfg, segs)
    ensures forall k :: 0 <= k < |CleanSentences(cfg, segs)| ==> Lacks(CleanSentences(cfg, segs)[k], '\n')
  {
    FilterMapKeeps(seg => Outcome(cfg, seg), segs, x => Lacks(x, '\n'));
  }

  /** Cleaning distributes over concatenation: segments are processed one at
      a time, in order. */
  lemma CleanSentencesAppend(cfg: Config, a: seq<string>, b: seq<string>)
    requires SegmentsDefined(cfg, a) && SegmentsDefined(cfg, b)
    ensures SegmentsDefined(cfg, a + b)
    ensures CleanSentences(cfg, a + b) == CleanSentences(cfg, a) + CleanSentences(cfg, b)
  {
    FilterMapAppend(seg => Outcome(cfg, seg), a, b);
  }

  /** A single segment contributes its cleaned form exactly when it survives. */
  lemma CleanSentencesSingle(cfg: Config, seg: string)
    requires SegmentDefined(cfg, seg)
    ensures CleanSentences(cfg, [seg]) == if Survives(cfg, seg) then [Clean(cfg, seg)] else []
  {
    FilterMapSingle(seg => Outcome(cfg, seg), seg);
  }

  /** `extract_summary` over the segmenter's output. */
  function ExtractSummary(cfg: Config, segs: seq<string>): (r: string)
    requires SegmentsDefined(cfg, segs)
    ensures CleanSentences(cfg, segs) == [] ==> r == ""
    ensures CleanSentences(cfg, segs) != [] ==> Split(r, SENTENCE_SEPARATOR) == CleanSentences(cfg, segs)
  {
    var kept := CleanSentences(cfg, segs);
    var r := Join(SENTENCE_SEPARATOR, kept);
    CleanSentencesSingleLine(cfg, segs);
    if |kept| > 0 then SplitOfJoin(kept, SENTENCE_SEPARATOR, 0); r else r
  }
}
