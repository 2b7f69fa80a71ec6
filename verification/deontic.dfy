/**
 Deontic tagging: which obligation markers ("shall ", "must ", ...) occur in a
 sentence once its whitespace has been normalised, reported in list order.
 */
module Deontic {
  import opened Text
  import opened Rules
  import opened Seqs

  /** The tag of a sentence that carries no marker. */
  const NO_DEONTIC: string := "None"

  /** Separator between the markers of a tag. */
  const TAG_SEPARATOR: string := " | "

  /** The sentence with every run of whitespace collapsed to one space and the
      ends trimmed: `" ".join(sent.split())`. */
  function Normalized(sent: string): (r: string)
    ensures Words(r) == Words(sent)
    ensures IsStripped(r) && SingleSpaced(r)
  {
    var ts := Words(sent);
    assert AreTokens(ts);
    WordsOfJoin(ts);
    JoinTokensStripped(ts);
    JoinTokensSingleSpaced(ts);
    Join(" ", ts)
  }

  /** The markers found in `text`, in the order of `markers`. */
  function FoundMarkers(markers: seq<string>, text: string): (found: seq<string>)
    ensures |found| <= |markers|
    ensures forall m :: m in found <==> m in markers && Contains(text, m)
  {
    FilterMap((m: string) => if Contains(text, m) then Some(m) else None, markers)
  }

  /** Found markers are reported one marker at a time, in list order. */
  lemma FoundMarkersAppend(a: seq<string>, b: seq<string>, text: string)
    ensures FoundMarkers(a + b, text) == FoundMarkers(a, text) + FoundMarkers(b, text)
  {
    FilterMapAppend((m: string) => if Contains(text, m) then Some(m) else None, a, b);
  }

  /** A single marker is reported exactly when it occurs. */
  lemma FoundMarkersSingle(m: string, text: string)
    ensures FoundMarkers([m], text) == if Contains(text, m) then [m] else []
  {
    FilterMapSingle((m: string) => if Contains(text, m) then Some(m) else None, m);
  }

  /** No marker holds the bar of the tag separator, so a tag can be split
      back into its markers. */
  predicate MarkersLackBar(markers: seq<string>) {
    forall k :: 0 <= k < |markers| ==> Lacks(markers[k], TAG_SEPARATOR[1])
  }

  /** `get_deontic_type`: the found markers joined with " | ", or "None". */
  function DeonticType(markers: seq<string>, sent: string): (tag: string)
    ensures FoundMarkers(markers, Normalized(sent)) == [] ==> tag == NO_DEONTIC
    ensures MarkersLackBar(markers) && FoundMarkers(markers, Normalized(sent)) != [] ==>
              Split(tag, TAG_SEPARATOR) == FoundMarkers(markers, Normalized(sent))
    ensures FoundMarkers(markers, Normalized(sent)) != [] ==>
              StartsWith(tag, FoundMarkers(markers, Normalized(sent))[0])
    ensures forall i :: 0 <= i < |FoundMarkers(markers, Normalized(sent))| ==>
              Contains(tag, FoundMarkers(markers, Normalized(sent))[i])
  {
    var found := FoundMarkers(markers, Normalized(sent));
    if |found| == 0 then NO_DEONTIC
    else
      JoinStartsWithFirst(TAG_SEPARATOR, found);
      assert forall i :: 0 <= i < |found| ==> Contains(Join(TAG_SEPARATOR, found), found[i]) by {
        forall i | 0 <= i < |found|
          ensures Contains(Join(TAG_SEPARATOR, found), found[i])
        {
          JoinRunOccurs(TAG_SEPARATOR, found, i, i + 1);
          assert found[i..i + 1] == [found[i]];
        }
      }
      if MarkersLackBar(markers) then
        assert forall j :: 0 <= j < |found| ==> Lacks(found[j], TAG_SEPARATOR[1]) by {
          forall j | 0 <= j < |found| ensures Lacks(found[j], TAG_SEPARATOR[1]) {
            assert found[j] in found;
          }
        }
        SplitOfJoin(found, TAG_SEPARATOR, 1);
        Join(TAG_SEPARATOR, found)
      else
        Join(TAG_SEPARATOR, found)
  }

  /** No marker is empty or could be mistaken for the "None" tag. */
  predicate TagsDistinguishable(markers: seq<string>) {
    forall k :: 0 <= k < |markers| ==> |markers[k]| > 0 && markers[k][0] != NO_DEONTIC[0]
  }

  /** With distinguishable markers the tag is "None" exactly when the
      normalised sentence contains none of them. */
  lemma DeonticNoneIff(markers: seq<string>, sent: string)
    requires TagsDistinguishable(markers)
    ensures DeonticType(markers, sent) == NO_DEONTIC <==>
              forall k :: 0 <= k < |markers| ==> !Contains(Normalized(sent), markers[k])
  {
    var found := FoundMarkers(markers, Normalized(sent));
    if |found| > 0 {
      assert found[0] in found;
      var tag := DeonticType(markers, sent);
      assert tag[0] == found[0][0];
      assert tag != NO_DEONTIC;
      var k :| 0 <= k < |markers| && markers[k] == found[0];
    } else {
      forall k | 0 <= k < |markers| ensures !Contains(Normalized(sent), markers[k]) {
        assert markers[k] !in found;
      }
    }
  }

  /** The source's markers, as its configuration carries them, are
      distinguishable from the "None" tag, and its tags split back into their
      markers. */
  lemma SourceDeonticsDistinguishable()
    ensures TagsDistinguishable(DEONTICS) && TagsDistinguishable(SOURCE_CONFIG.deontics)
    ensures MarkersLackBar(DEONTICS) && MarkersLackBar(SOURCE_CONFIG.deontics)
  {
  }

  /** A prohibition is also an obligation: a sentence containing "shall not "
      contains "shall ", so both markers are reported. */
  lemma ProhibitionAlsoObligation(text: string)
    requires Contains(text, "shall not ")
    ensures "shall " in FoundMarkers(DEONTICS, text) && "shall not " in FoundMarkers(DEONTICS, text)
  {
    var i :| 0 <= i <= |text| && OccursAt(text, "shall not ", i);
    PrefixOccurs(text, "shall not ", "shall ", i);
  }
}
