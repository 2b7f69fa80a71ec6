/**
 Turning an extracted summary into table rows: the document's length
 metrics, the near-boilerplate filter, the deontic tag and the identifier
 and format derived from the file name.
 */
module Aggregate {
  import opened Text
  import opened Rules
  import opened Seqs
  import opened Deontic
  import opened Summary
  import opened Boundary

  /** A similarity score in 0..100, as returned by the external fuzzy matcher. */
  type Score = x: int | 0 <= x <= 100

  // ---------------------------------------------------------------------
  // `remove_stop_words`

  /** `re.sub(r'[^\w\s]', '', t)`: only word characters and whitespace stay. */
  function KeepWordAndSpace(t: string): (r: string)
    ensures |r| <= |t|
    ensures forall k :: 0 <= k < |r| ==> (IsWordChar(r[k]) || IsSpace(r[k])) && r[k] in t
    ensures forall k :: 0 <= k < |t| && IsWordChar(t[k]) ==> t[k] in r
  {
    if |t| == 0 then []
    else
      var rest := KeepWordAndSpace(t[1..]);
      assert forall k :: 1 <= k < |t| ==> t[k] == t[1..][k - 1];
      assert forall c :: c in t[1..] ==> c in t;
      if IsWordChar(t[0]) || IsSpace(t[0]) then [t[0]] + rest else rest
  }

  /** A text of word characters and whitespace is left as it is. */
  lemma {:induction false} KeepWordAndSpaceFixes(t: string)
    requires forall k :: 0 <= k < |t| ==> IsWordChar(t[k]) || IsSpace(t[k])
    ensures KeepWordAndSpace(t) == t
  {
    if |t| > 0 {
      KeepWordAndSpaceFixes(t[1..]);
      assert [t[0]] + t[1..] == t;
    }
  }

  /** The removal works character by character: a text's parts are cleaned
      separately and the results concatenated. */
  lemma {:induction false} KeepWordAndSpaceAppend(a: string, b: string)
    ensures KeepWordAndSpace(a + b) == KeepWordAndSpace(a) + KeepWordAndSpace(b)
    decreases |a|
  {
    if |a| == 0 {
      assert a + b == b;
    } else {
      assert (a + b)[1..] == a[1..] + b;
      assert (a + b)[0] == a[0];
      KeepWordAndSpaceAppend(a[1..], b);
    }
  }

  /** One character stays exactly when it is a word character or whitespace. */
  lemma KeepWordAndSpaceSingle(c: char)
    ensures KeepWordAndSpace([c]) == if IsWordChar(c) || IsSpace(c) then [c] else []
  {
    assert [c][1..] == [];
  }

  /** The per-token clean-up: punctuation removed, then spaces removed. */
  function CleanToken(t: string): (r: string)
    ensures forall k :: 0 <= k < |r| ==> IsWordChar(r[k]) || IsSpace(r[k])
  {
    var u := KeepWordAndSpace(t);
    ReplaceAllChars(u, " ", "");
    ReplaceAll(u, " ", "")
  }

  /** On a token of `str.split()`, which has no whitespace, the space removal
      of the clean-up is a no-op and only word characters remain. */
  lemma CleanTokenOfToken(t: string)
    requires NoSpace(t)
    ensures CleanToken(t) == KeepWordAndSpace(t)
    ensures forall k :: 0 <= k < |CleanToken(t)| ==> IsWordChar(CleanToken(t)[k])
  {
    var u := KeepWordAndSpace(t);
    assert Lacks(u, ' ') by {
      forall k | 0 <= k < |u| ensures u[k] != ' ' {
        assert u[k] in t;
      }
    }
    ReplaceAllAbsent(u, " ", "");
  }

  /** A cleaned token is kept when its lower case is not a stopword and it is
      longer than two characters. */
  predicate IsRelevant(stopwords: seq<string>, t: string) {
    Lower(t) !in stopwords && |t| > 2
  }

  /** What one token contributes: its cleaned form, if that is relevant. */
  function Relevance(stopwords: seq<string>, w: string): Option<string>
  {
    var c := CleanToken(w);
    if IsRelevant(stopwords, c) then Some(c) else None
  }

  /** The relevant cleaned tokens among `ws`, in order. */
  function RelevantTokens(stopwords: seq<string>, ws: seq<string>): (ts: seq<string>)
    ensures |ts| <= |ws|
    ensures forall k :: 0 <= k < |ts| ==>
              exists i :: 0 <= i < |ws| && IsRelevant(stopwords, CleanToken(ws[i])) && ts[k] == CleanToken(ws[i])
    ensures forall i :: 0 <= i < |ws| && IsRelevant(stopwords, CleanToken(ws[i])) ==> CleanToken(ws[i]) in ts
  {
    FilterMap((w: string) => Relevance(stopwords, w), ws)
  }

  /** Tokens are judged one at a time, in order: the relevant tokens of a
      concatenation are those of its parts, concatenated. */
  lemma RelevantTokensAppend(stopwords: seq<string>, a: seq<string>, b: seq<string>)
    ensures RelevantTokens(stopwords, a + b) == RelevantTokens(stopwords, a) + RelevantTokens(stopwords, b)
  {
    FilterMapAppend((w: string) => Relevance(stopwords, w), a, b);
  }

  /** One token contributes its cleaned form exactly when that form is
      relevant, and nothing otherwise. */
  lemma RelevantTokensSingle(stopwords: seq<string>, w: string)
    ensures RelevantTokens(stopwords, [w]) == if IsRelevant(stopwords, CleanToken(w)) then [CleanToken(w)] else []
  {
    FilterMapSingle((w: string) => Relevance(stopwords, w), w);
  }

  /** Relevant tokens of whitespace-free tokens are relevant, non-empty and
      have no whitespace. */
  lemma RelevantTokensAreTokens(stopwords: seq<string>, ws: seq<string>)
    requires forall i :: 0 <= i < |ws| ==> NoSpace(ws[i])
    ensures AreTokens(RelevantTokens(stopwords, ws))
    ensures forall k :: 0 <= k < |RelevantTokens(stopwords, ws)| ==> IsRelevant(stopwords, RelevantTokens(stopwords, ws)[k])
  {
    var ts := RelevantTokens(stopwords, ws);
    forall k | 0 <= k < |ts| ensures |ts[k]| > 0 && NoSpace(ts[k]) && IsRelevant(stopwords, ts[k]) {
      var i :| 0 <= i < |ws| && Relevance(stopwords, ws[i]) == Some(ts[k]);
      CleanTokenOfToken(ws[i]);
    }
  }

  /** `remove_stop_words`, with the stopword list as a parameter. */
  function RemoveStopWords(stopwords: seq<string>, text: string): (r: string)
    ensures Words(r) == RelevantTokens(stopwords, Words(text))
    ensures forall k :: 0 <= k < |Words(r)| ==> |Words(r)[k]| > 2 && Lower(Words(r)[k]) !in stopwords
  {
    var ws := Words(text);
    var ts := RelevantTokens(stopwords, ws);
    RelevantTokensAreTokens(stopwords, ws);
    WordsOfJoin(ts);
    Join(" ", ts)
  }

  // ---------------------------------------------------------------------
  // `get_doc_lengths`

  /** The substantive word count and the sentence count of a summary. */
  datatype Lengths = Lengths(wordCount: nat, sentCount: nat)

  /** `get_doc_lengths`: the number of relevant words, and the number of
      pieces the text splits into at the sentence separator (at least one,
      even for the empty text). */
  function DocLengths(stopwords: seq<string>, text: string): (n: Lengths)
    ensures n.sentCount == |Split(text, SENTENCE_SEPARATOR)| >= 1
    ensures n.wordCount == |RelevantTokens(stopwords, Words(text))| <= |Words(text)|
  {
    Lengths(|Words(RemoveStopWords(stopwords, text))|, |Split(text, SENTENCE_SEPARATOR)|)
  }

  // ---------------------------------------------------------------------
  // `identify_info`

  /** One output row: [celex, sent, deontic, word_count, sent_count, doc_format]. */
  datatype Row = Row(celex: string, sentence: string, deontic: string,
                     wordCount: nat, sentCount: nat, docFormat: string)

  /** The document format column: "pdf" for a name ending in ".pdf" (this
      exact case), "html" for every other name. */
  function DocFormat(filename: string): string
  {
    if EndsWith(filename, ".pdf") then "pdf" else "html"
  }

  /** The identifier column: the file name with every ".pdf" and then every
      ".html" removed. */
  function Celex(filename: string): (c: string)
    ensures |c| <= |filename|
    ensures Lacks(filename, '.') ==> c == filename
  {
    var a := ReplaceAll(filename, ".pdf", "");
    ReplaceAllShrinks(filename, ".pdf", "", 0);
    ReplaceAllShrinks(a, ".html", "", 0);
    if Lacks(filename, '.') then
      ReplaceAllAbsent(filename, ".pdf", "");
      ReplaceAllAbsent(a, ".html", "");
      ReplaceAll(a, ".html", "")
    else
      ReplaceAll(a, ".html", "")
  }

  /** The identifier is the file name without its extension: a dot-free stem
      comes back from both "stem.pdf" and "stem.html". */
  lemma CelexDropsExtension(stem: string)
    requires Lacks(stem, '.')
    ensures Celex(stem + ".pdf") == stem
    ensures Celex(stem + ".html") == stem
  {
    ReplaceAllLone(stem, ".pdf", "", "");
    assert stem + ".pdf" + "" == stem + ".pdf";
    assert stem + "" == stem;
    ReplaceAllAbsent(stem, ".html", "");
    var h := stem + ".html";
    forall i | 0 <= i <= |h| ensures !OccursAt(h, ".pdf", i) {
      if i + 4 <= |h| {
        assert h[i..i + 4][0] == h[i];
        if i < |stem| {
          assert h[i] == stem[i];
        } else {
          assert h[i..i + 4][1] == h[i + 1];
        }
      }
    }
    ReplaceAllNoMatch(h, ".pdf", "");
    ReplaceAllLone(stem, ".html", "", "");
    assert stem + ".html" + "" == stem + ".html";
  }

  /** The near-boilerplate test: some excluded phrase scores at least the
      similarity threshold against the stripped sentence. */
  function NearBoilerplate(phrases: seq<string>, sent: string, ratio: (string, string) -> Score): (hit: bool)
    ensures hit <==> exists k :: 0 <= k < |phrases| && ratio(sent, phrases[k]) >= SIMILARITY_THRESHOLD
  {
    if |phrases| == 0 then false
    else
      var rest := NearBoilerplate(phrases[1..], sent, ratio);
      assert forall k :: 1 <= k < |phrases| ==> phrases[k] == phrases[1..][k - 1];
      ratio(sent, phrases[0]) >= SIMILARITY_THRESHOLD || rest
  }

  /** What a kept row says about its sentence and its document: the sentence
      is stripped, not near boilerplate, and holds at least one marker; the
      tag is the sentence's deontic type and splits back into the markers
      found; the other columns are the document's identifier, counts and
      format. */
  ghost predicate RowMeaning(cfg: Config, filename: string, n: Lengths, ratio: (string, string) -> Score, row: Row) {
    IsStripped(row.sentence)
    && !NearBoilerplate(cfg.excludedPhrases, row.sentence, ratio)
    && (exists k :: 0 <= k < |cfg.deontics| && Contains(Normalized(row.sentence), cfg.deontics[k]))
    && row.deontic != NO_DEONTIC && row.deontic == DeonticType(cfg.deontics, row.sentence)
    && (MarkersLackBar(cfg.deontics) ==>
          Split(row.deontic, TAG_SEPARATOR) == FoundMarkers(cfg.deontics, Normalized(row.sentence)))
    && row.celex == Celex(filename)
    && row.wordCount == n.wordCount && row.sentCount == n.sentCount
    && (row.docFormat == "pdf" <==> EndsWith(filename, ".pdf"))
    && (row.docFormat == "pdf" || row.docFormat == "html")
  }

  /** The row one piece of the summary yields, if it is kept: not near
      boilerplate and carrying at least one deontic marker. */
  function RowFor(cfg: Config, filename: string, n: Lengths, ratio: (string, string) -> Score,
                  piece: string): (r: Option<Row>)
    ensures r.Some? ==>
              !NearBoilerplate(cfg.excludedPhrases, Strip(piece), ratio)
              && exists k :: 0 <= k < |cfg.deontics| && Contains(Normalized(Strip(piece)), cfg.deontics[k])
    ensures TagsDistinguishable(cfg.deontics)
            && !NearBoilerplate(cfg.excludedPhrases, Strip(piece), ratio)
            && (exists k :: 0 <= k < |cfg.deontics| && Contains(Normalized(Strip(piece)), cfg.deontics[k]))
            ==> r.Some?
    ensures r.Some? ==> RowMeaning(cfg, filename, n, ratio, r.value) && r.value.sentence == Strip(piece)
  {
    var sent := Strip(piece);
    if NearBoilerplate(cfg.excludedPhrases, sent, ratio) then None
    else
      var tag := DeonticType(cfg.deontics, sent);
      if tag == NO_DEONTIC then
        if TagsDistinguishable(cfg.deontics) then DeonticNoneIff(cfg.deontics, sent); None else None
      else
        var found := FoundMarkers(cfg.deontics, Normalized(sent));
        assert found != [];
        assert found[0] in found;
        Some(Row(Celex(filename), sent, tag, n.wordCount, n.sentCount, DocFormat(filename)))
  }

  /** The rows the pieces of a summary yield, in order. */
  function KeptRows(cfg: Config, filename: string, n: Lengths, ratio: (string, string) -> Score,
                    pieces: seq<string>): (rows: seq<Row>)
    ensures |rows| <= |pieces|
    ensures forall k :: 0 <= k < |rows| ==>
              exists i :: 0 <= i < |pieces| && RowFor(cfg, filename, n, ratio, pieces[i]) == Some(rows[k])
    ensures forall i :: 0 <= i < |pieces| && RowFor(cfg, filename, n, ratio, pieces[i]).Some?
              ==> RowFor(cfg, filename, n, ratio, pieces[i]).value in rows
  {
    FilterMap((piece: string) => RowFor(cfg, filename, n, ratio, piece), pieces)
  }

  /** Rows come out one piece at a time, in the order of the pieces. */
  lemma KeptRowsAppend(cfg: Config, filename: string, n: Lengths, ratio: (string, string) -> Score,
                       a: seq<string>, b: seq<string>)
    ensures KeptRows(cfg, filename, n, ratio, a + b) == KeptRows(cfg, filename, n, ratio, a) + KeptRows(cfg, filename, n, ratio, b)
  {
    FilterMapAppend((piece: string) => RowFor(cfg, filename, n, ratio, piece), a, b);
  }

  /** A single piece yields its row exactly when it is kept. */
  lemma KeptRowsSingle(cfg: Config, filename: string, n: Lengths, ratio: (string, string) -> Score, piece: string)
    ensures KeptRows(cfg, filename, n, ratio, [piece]) ==
              if RowFor(cfg, filename, n, ratio, piece).Some? then [RowFor(cfg, filename, n, ratio, piece).value] else []
  {
    FilterMapSingle((piece: string) => RowFor(cfg, filename, n, ratio, piece), piece);
  }

  /** The rows are the candidates among the pieces: every row's sentence is a
      stripped piece, and, with distinguishable markers, every piece that is
      not near boilerplate and holds a marker has its row. */
  lemma KeptRowsArePieces(cfg: Config, filename: string, n: Lengths, ratio: (string, string) -> Score,
                          pieces: seq<string>)
    ensures forall k :: 0 <= k < |KeptRows(cfg, filename, n, ratio, pieces)| ==>
              exists i :: 0 <= i < |pieces| && KeptRows(cfg, filename, n, ratio, pieces)[k].sentence == Strip(pieces[i])
    ensures TagsDistinguishable(cfg.deontics) ==>
              forall i :: 0 <= i < |pieces|
                && !NearBoilerplate(cfg.excludedPhrases, Strip(pieces[i]), ratio)
                && (exists m :: 0 <= m < |cfg.deontics| && Contains(Normalized(Strip(pieces[i])), cfg.deontics[m]))
                ==> exists k :: 0 <= k < |KeptRows(cfg, filename, n, ratio, pieces)|
                      && KeptRows(cfg, filename, n, ratio, pieces)[k].sentence == Strip(pieces[i])
  {
    var rows := KeptRows(cfg, filename, n, ratio, pieces);
    forall k | 0 <= k < |rows| ensures exists i :: 0 <= i < |pieces| && rows[k].sentence == Strip(pieces[i]) {
      var i :| 0 <= i < |pieces| && RowFor(cfg, filename, n, ratio, pieces[i]) == Some(rows[k]);
    }
    if TagsDistinguishable(cfg.deontics) {
      forall i | 0 <= i < |pieces|
        && !NearBoilerplate(cfg.excludedPhrases, Strip(pieces[i]), ratio)
        && (exists m :: 0 <= m < |cfg.deontics| && Contains(Normalized(Strip(pieces[i])), cfg.deontics[m]))
        ensures exists k :: 0 <= k < |rows| && rows[k].sentence == Strip(pieces[i])
      {
        var row := RowFor(cfg, filename, n, ratio, pieces[i]).value;
        assert row in rows;
      }
    }
  }

  /** Every kept row means what `RowMeaning` says. */
  lemma KeptRowsShape(cfg: Config, filename: string, n: Lengths, ratio: (string, string) -> Score,
                      pieces: seq<string>)
    ensures forall k :: 0 <= k < |KeptRows(cfg, filename, n, ratio, pieces)| ==>
              RowMeaning(cfg, filename, n, ratio, KeptRows(cfg, filename, n, ratio, pieces)[k])
  {
    FilterMapKeeps((piece: string) => RowFor(cfg, filename, n, ratio, piece), pieces,
      (row: Row) => RowMeaning(cfg, filename, n, ratio, row));
  }

  /** `identify_info`: the rows of the pieces of the summary, all sharing the
      document's metrics. The fuzzy matcher is the parameter `ratio`; the tag
      always uses the configured deontic markers (the source ignores its own
      `deontics` argument). */
  function IdentifyInfo(cfg: Config, filename: string, text: string,
                        ratio: (string, string) -> Score): (rows: seq<Row>)
    ensures |rows| <= DocLengths(cfg.stopwords, text).sentCount
    ensures forall k :: 0 <= k < |rows| ==>
              RowMeaning(cfg, filename, DocLengths(cfg.stopwords, text), ratio, rows[k])
  {
    var n := DocLengths(cfg.stopwords, text);
    var pieces := Split(text, SENTENCE_SEPARATOR);
    KeptRowsShape(cfg, filename, n, ratio, pieces);
    KeptRows(cfg, filename, n, ratio, pieces)
  }

  /** The empty summary (no operative part found) yields no rows, whatever
      the fuzzy matcher says, as long as the markers are distinguishable. */
  lemma IdentifyInfoEmpty(cfg: Config, filename: string, ratio: (string, string) -> Score)
    requires TagsDistinguishable(cfg.deontics)
    ensures IdentifyInfo(cfg, filename, "", ratio) == []
  {
    var pieces := Split("", SENTENCE_SEPARATOR);
    assert pieces == [""];
    DeonticNoneIff(cfg.deontics, "");
    assert Normalized(Strip("")) == "";
    forall k | 0 <= k < |cfg.deontics| ensures !Contains(Normalized(Strip("")), cfg.deontics[k]) {
      assert |cfg.deontics[k]| > 0;
    }
    FilterMapEmpty((piece: string) => RowFor(cfg, filename, DocLengths(cfg.stopwords, ""), ratio, piece), pieces);
    assert KeptRows(cfg, filename, DocLengths(cfg.stopwords, ""), ratio, pieces) == [];
  }

  /** A document in which no pair of phrases brackets an operative part
      contributes no rows: its extracted text is empty, and the empty text
      yields none. */
  lemma NoOperativePartNoRows(cfg: Config, text: string, segment: string -> seq<string>,
                              filename: string, ratio: (string, string) -> Score)
    requires OperativeDefined(cfg, text, cfg.beginPhrases, cfg.endPhrases, segment)
    requires NoPairMatches(text, cfg.beginPhrases, cfg.endPhrases)
    requires TagsDistinguishable(cfg.deontics)
    ensures IdentifyInfo(cfg, filename, ExtractOperativeText(cfg, text, cfg.beginPhrases, cfg.endPhrases, segment), ratio) == []
  {
    IdentifyInfoEmpty(cfg, filename, ratio);
  }
}
