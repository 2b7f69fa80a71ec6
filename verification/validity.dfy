/**
 The validity filter: five independent reject rules deciding whether a
 pass-1-cleaned sentence can be a regulatory statement at all.
 */
module Validity {
  import opened Text
  import opened Rules
  import opened Normalize

  /** `is_valid_sentence` does not raise: it reads `s[0]` and runs pass 2. */
  predicate ValidityDefined(cfg: Config, s: string) {
    |s| > 0 && Pass2Defined(cfg.startTokens, s)
  }

  /** A character of `string.punctuation`: the printable ASCII characters
      that are neither letters, digits nor space. */
  predicate IsPunctuation(c: char) {
    ('!' <= c <= '/') || (':' <= c <= '@') || ('[' <= c <= '`') || ('{' <= c <= '~')
  }

  /** The character ranges above are exactly the characters of the source's
      `string.punctuation + DIGITS`. */
  lemma PunctuationOrDigitIsTable(c: char)
    ensures c in PUNCTUATION + DIGITS <==> IsPunctuation(c) || IsDigit(c)
  {
  }

  /** Rule 1: the sentence opens with punctuation or a digit. */
  predicate OpensWithSymbol(s: string)
    requires |s| > 0
  {
    IsPunctuation(s[0]) || IsDigit(s[0])
  }

  /** Rule 2: a page header ("EN Official Journal", any case) or a "PAGE"
      marker (upper case only) opens the stripped sentence. */
  predicate IsPageFurniture(s: string) {
    StartsWith(Strip(Lower(s)), "en official journal") || StartsWith(Strip(s), "PAGE")
  }

  /** Rule 3: fewer than 15 characters other than the plain space. */
  predicate IsTooShort(s: string) {
    |ReplaceAll(s, " ", "")| < 15
  }

  /** On a sentence of space-separated tokens, rule 3 counts the characters
      of the tokens. */
  lemma TooShortCountsTokenChars(ts: seq<string>)
    requires AreTokens(ts)
    ensures IsTooShort(Join(" ", ts)) <==> |Concat(ts)| < 15
  {
    RemoveSpacesOfJoin(ts);
  }

  /** Rule 4: a boilerplate phrase occurs in the lower-cased sentence or in its
      lower-cased pass-2 form. */
  ghost predicate HasBoilerplate(cfg: Config, s: string)
    requires Pass2Defined(cfg.startTokens, s)
  {
    exists ph :: ph in cfg.excludedPhrases
      && (Contains(Lower(s), ph) || Contains(Lower(Pass2(cfg.startTokens, s)), ph))
  }

  /** Rule 5: the lower-cased sentence opens with a disqualifying lead-in. */
  ghost predicate HasBadLeadIn(cfg: Config, s: string) {
    exists ph :: ph in cfg.excludedStartPhrases && StartsWith(Lower(s), ph)
  }

  /** The scan of rule 4 over a phrase list. */
  function AnyPhraseIn(phrases: seq<string>, a: string, b: string): (found: bool)
    ensures found <==> exists ph :: ph in phrases && (Contains(a, ph) || Contains(b, ph))
  {
    if |phrases| == 0 then false
    else
      assert forall ph :: ph in phrases <==> ph == phrases[0] || ph in phrases[1..];
      Contains(a, phrases[0]) || Contains(b, phrases[0]) || AnyPhraseIn(phrases[1..], a, b)
  }

  /** The scan of rule 5 over a phrase list. */
  function AnyLeadIn(phrases: seq<string>, a: string): (found: bool)
    ensures found <==> exists ph :: ph in phrases && StartsWith(a, ph)
  {
    if |phrases| == 0 then false
    else
      assert forall ph :: ph in phrases <==> ph == phrases[0] || ph in phrases[1..];
      StartsWith(a, phrases[0]) || AnyLeadIn(phrases[1..], a)
  }

  /** `is_valid_sentence`: every rule is evaluated (none short-circuits the
      others), and the sentence is valid exactly when none of them fires. */
  function IsValidSentence(cfg: Config, s: string): (valid: bool)
    requires ValidityDefined(cfg, s)
    ensures valid <==>
      !OpensWithSymbol(s) && !IsPageFurniture(s) && !IsTooShort(s)
      && !HasBoilerplate(cfg, s) && !HasBadLeadIn(cfg, s)
  {
    var rule1 := IsPunctuation(s[0]) || IsDigit(s[0]);
    var rule2 := StartsWith(Strip(Lower(s)), "en official journal") || StartsWith(Strip(s), "PAGE");
    var rule3 := |ReplaceAll(s, " ", "")| < 15;
    var rule4 := AnyPhraseIn(cfg.excludedPhrases, Lower(s), Lower(Pass2(cfg.startTokens, s)));
    var rule5 := AnyLeadIn(cfg.excludedStartPhrases, Lower(s));
    !(rule1 || rule2 || rule3 || rule4 || rule5)
  }

  /** Rule 1 fires on a sentence whose first token opens with punctuation or a
      digit, whatever follows. */
  lemma SymbolOpeningRejected(cfg: Config, ts: seq<string>)
    requires AreTokens(ts) && |ts| >= 1 && ts[0] !in cfg.startTokens
    requires IsPunctuation(ts[0][0]) || IsDigit(ts[0][0])
    ensures ValidityDefined(cfg, Join(" ", ts))
    ensures !IsValidSentence(cfg, Join(" ", ts))
  {
    Pass2KeepsUnlabelled(cfg.startTokens, ts);
    JoinStartsWithFirst(" ", ts);
  }

  /** Rule 4 fires as soon as a run of consecutive tokens spells, in lower
      case, a boilerplate phrase: "This Regulation shall apply from ..."
      is rejected for its run "shall apply". */
  lemma BoilerplateRunRejected(cfg: Config, ts: seq<string>, i: nat, j: nat)
    requires AreTokens(ts) && |ts| >= 1 && ts[0] !in cfg.startTokens
    requires i < j <= |ts| && Lower(Join(" ", ts[i..j])) in cfg.excludedPhrases
    ensures ValidityDefined(cfg, Join(" ", ts))
    ensures !IsValidSentence(cfg, Join(" ", ts))
  {
    var s := Join(" ", ts);
    Pass2KeepsUnlabelled(cfg.startTokens, ts);
    JoinRunOccurs(" ", ts, i, j);
    LowerContains(s, Join(" ", ts[i..j]));
    assert HasBoilerplate(cfg, s);
  }
}
