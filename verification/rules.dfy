/**
 The fixed lookup tables of the extractor: the phrases that open and close the
 operative part of an act, the boilerplate that disqualifies a sentence, the
 structural labels that head an article, the deontic markers and the
 stopwords used for word counts.
 */
module Rules {

  /** Enacting formulas, in the order they are tried. */
  const BEGIN_PHRASES: seq<string> := [
    "HAS ADOPTED THIS REGULATION",
    "HAVE ADOPTED THIS REGULATION",
    "HAS DECIDED AS FOLLOWS",
    "HAVE ADOPTED THIS DECISION",
    "HAS ADOPTED THIS DECISION",
    "HAS ADOPTED THIS DIRECTIVE"
  ]

  /** Signing formulas that close the operative part, in the order they are tried. */
  const END_PHRASES: seq<string> := [
    "Done at Brussels",
    "Done at Luxembourg",
    "Done at Strasbourg",
    "Done at Frankfurt"
  ]

  /** Boilerplate whose presence (lower case) disqualifies a sentence. */
  const EXCLUDED_PHRASES: seq<string> := [
    "shall apply",
    "shall mean",
    "this regulation shall apply",
    "shall be binding in its entirety and directly applicable in the member states",
    "shall be binding in its entirety and directly applicable in all member states",
    "shall enter into force",
    "shall be based",
    "within the meaning",
    "shall be construed",
    "shall take effect"
  ]

  /** Lead-ins (lower case) that disqualify a sentence. */
  const EXCLUDED_START_PHRASES: seq<string> := [
    "amendments to decision",
    "amendments to implementing decision",
    "in this case,",
    "in such a case,",
    "in such cases,",
    "in all other cases,"
  ]

  /** Structural labels that can head a sentence. */
  const START_TOKENS: seq<string> := [
    "Article", "Chapter", "Section", "ARTICLE", "CHAPTER", "SECTION", "Paragraph", "PARAGRAPH"
  ]

  /** Obligation markers, in reporting order; each carries its trailing space. */
  const DEONTICS: seq<string> := ["shall ", "must ", "shall not ", "must not "]

  const DIGITS: string := "0123456789"

  /** Python's `string.punctuation`. */
  const PUNCTUATION: string := "!\"#$%&'()*+,-./:;<=>?@[\\]^_`{|}~"

  /** Words left out of the substantive word count. */
  const STOPWORDS: seq<string> := [
    "the", "and", "this", "that", "for", "with", "are", "its", "which", "have",
    "has", "these", "those", "from", "was", "were", "had", "into", "then"
  ]

  /** Separator between the sentences of an extracted summary. */
  const SENTENCE_SEPARATOR: string := "\n\n\n"

  /** Soft hyphen (U+00AD) followed by a space: a line-break artefact of the
      text retrieval. */
  const SOFT_HYPHEN_SPACE: string := "\U{00AD} "

  /** Near-duplicate threshold of the boilerplate filter (a 0..100 ratio). */
  const SIMILARITY_THRESHOLD: int := 90

  /** The lists the source keeps as module-level globals, passed explicitly so
      that the algorithms are stated for any list and the source's lists are
      one instance. */
  datatype Config = Config(
    beginPhrases: seq<string>,
    endPhrases: seq<string>,
    excludedPhrases: seq<string>,
    excludedStartPhrases: seq<string>,
    startTokens: seq<string>,
    deontics: seq<string>,
    stopwords: seq<string>)

  /** The configuration the source runs with. */
  const SOURCE_CONFIG: Config :=
    Config(BEGIN_PHRASES, END_PHRASES, EXCLUDED_PHRASES, EXCLUDED_START_PHRASES, START_TOKENS, DEONTICS, STOPWORDS)
}
