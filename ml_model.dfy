/** The post-processing of the statistical checker: the two classifier
    confidences become flags, three error patterns are searched for, and
    every collected error is turned into a (message, word, suggestion)
    triple. The classifiers and the regular-expression engine are inputs. */
module MlModel {
  import opened Wrappers
  import opened Strings

  /** One entry of `common_errors`: a regular expression and its message. */
  datatype ErrorPattern = ErrorPattern(regex: string, message: string)

  /** An entry of the `errors` list: the three-element low-confidence
      entries and the four-element `('pattern', msg, text, matched)` ones. */
  datatype ErrorEntry =
    | LowConfidence(kind: string, message: string, text: string)
    | PatternHit(message: string, text: string, matched: string)

  /** An entry of the returned list: a suggestion triple, or the single
      `('error', message, text)` entry that reports an exception. */
  datatype Report =
    | Suggestion(message: string, errorWord: string, suggestion: string)
    | AnalysisError(message: string, text: string)

  /** The two tests `spelling_pred[0] < 0.8` and `grammar_pred[0] < 0.8`. */
  datatype Confidence = Confidence(lowSpelling: bool, lowGrammar: bool)

  const CommonErrors: seq<ErrorPattern> := [
    ErrorPattern("\\b(அவன்|அவள்)\\s+\\w+கிறாள்\\b", "Gender mismatch"),
    ErrorPattern("\\b(நான்|நாங்கள்)\\s+\\w+கிறான்\\b", "Subject-verb mismatch"),
    ErrorPattern("\\b(அவள்|அவன்)\\s+\\w+கிறேன்\\b", "Honorific mismatch")]

  const SuggestionTable: map<string, map<string, string>> := map[
    "Gender mismatch" := map["அவள்" := "படிக்கிறாள்", "அவன்" := "படிக்கிறான்", "கிறேன்" := "கிறேன்"],
    "Subject-verb mismatch" := map["நான்" := "கிறேன்", "நாங்கள்" := "கிறோம்"],
    "Honorific mismatch" := map["அவள்" := "கிறாள்", "அவன்" := "கிறான்"]]

  const NoSuggestion: string := "No suggestion available"

  /** What Python says when a three-element entry is unpacked into four
      names. */
  const UnpackFailure: string := "not enough values to unpack (expected 4, got 3)"

  /** The entries `_analyze_patterns` collects: one per pattern that
      `re.search` finds, in pattern order. */
  function PatternErrors(patterns: seq<ErrorPattern>, search: (string, string) -> Option<string>,
                         text: string): (errors: seq<ErrorEntry>)
    ensures |errors| <= |patterns|
    ensures forall i :: 0 <= i < |errors| ==> errors[i].PatternHit? && errors[i].text == text
  {
    if patterns == [] then []
    else
      var last := patterns[|patterns| - 1];
      PatternErrors(patterns[..|patterns| - 1], search, text)
        + match search(last.regex, text)
          case Some(matched) => [PatternHit(last.message, text, matched)]
          case None => []
  }

  /** `suggestions.get(msg, {}).get(word, 'No suggestion available')`. */
  function Lookup(table: map<string, map<string, string>>, message: string, word: string): string {
    if message in table && word in table[message] then table[message][word] else NoSuggestion
  }

  /** The suggestion triples of a list of four-element entries. */
  function SuggestionsFor(table: map<string, map<string, string>>, errors: seq<ErrorEntry>): (r: seq<Report>)
    requires forall i :: 0 <= i < |errors| ==> errors[i].PatternHit?
    ensures |r| == |errors|
  {
    if errors == [] then []
    else
      var e := errors[|errors| - 1];
      SuggestionsFor(table, errors[..|errors| - 1]) + [Suggestion(e.message, e.matched, Lookup(table, e.message, e.matched))]
  }

  /** The low-confidence entries, spelling first: one three-element entry
      per flag that is set. */
  function ConfidenceErrors(confidence: Confidence, text: string): (errors: seq<ErrorEntry>)
    ensures |errors| == (if confidence.lowSpelling then 1 else 0) + (if confidence.lowGrammar then 1 else 0)
    ensures forall i :: 0 <= i < |errors| ==> errors[i].LowConfidence? && errors[i].text == text
  {
    (if confidence.lowSpelling then [LowConfidence("spelling", "Low spelling confidence", text)] else [])
      + (if confidence.lowGrammar then [LowConfidence("grammar", "Low grammar confidence", text)] else [])
  }

  /** What `check_text` returns. Feature extraction or prediction may fail
      with a message; a three-element entry makes the unpacking fail. */
  function CheckedReports(patterns: seq<ErrorPattern>, table: map<string, map<string, string>>,
                          text: string, prediction: Result<Confidence, string>,
                          search: (string, string) -> Option<string>): seq<Report>
  {
    match prediction
    case Failure(e) => [AnalysisError(e, text)]
    case Success(confidence) =>
      if confidence.lowSpelling || confidence.lowGrammar then [AnalysisError(UnpackFailure, text)]
      else SuggestionsFor(table, PatternErrors(patterns, search, text))
  }

  class StatisticalChecker {
    const errorPatterns: seq<ErrorPattern>
    const suggestions: map<string, map<string, string>>

    /** Training and the vectorizers are not modelled; what remains is the
        pattern table. */
    constructor()
      ensures errorPatterns == CommonErrors && suggestions == SuggestionTable
    {
      errorPatterns := CommonErrors;
      suggestions := SuggestionTable;
    }

    /** `_analyze_patterns`, with `re.search(...).group()` as `search`. */
    method AnalyzePatterns(text: string, search: (string, string) -> Option<string>)
      returns (errors: seq<ErrorEntry>)
      ensures errors == PatternErrors(errorPatterns, search, text)
    {
      errors := [];
      for n := 0 to |errorPatterns|
        invariant errors == PatternErrors(errorPatterns[..n], search, text)
      {
        assert errorPatterns[..n + 1][..n] == errorPatterns[..n];
        var pattern := errorPatterns[n];
        var found := search(pattern.regex, text);
        if found.Some? {
          errors := errors + [PatternHit(pattern.message, text, found.value)];
        }
      }
      assert errorPatterns[..|errorPatterns|] == errorPatterns;
    }

    /** The suggestion loop of `check_text`: the unpacking into four
        names raises on the first three-element entry. */
    method Suggest(errors: seq<ErrorEntry>) returns (result: Result<seq<Report>, string>)
      ensures (forall i :: 0 <= i < |errors| ==> errors[i].PatternHit?) ==>
        result == Success(SuggestionsFor(suggestions, errors))
      ensures (exists i :: 0 <= i < |errors| && errors[i].LowConfidence?) ==>
        result == Failure(UnpackFailure)
    {
      var reports: seq<Report> := [];
      for n := 0 to |errors|
        invariant forall i :: 0 <= i < n ==> errors[i].PatternHit?
        invariant reports == SuggestionsFor(suggestions, errors[..n])
      {
        assert errors[..n + 1][..n] == errors[..n];
        match errors[n]
        case LowConfidence(_, _, _) =>
          return Failure(UnpackFailure);
        case PatternHit(message, _, matched) =>
          reports := reports + [Suggestion(message, matched, Lookup(suggestions, message, matched))];
      }
      assert errors[..|errors|] == errors;
      return Success(reports);
    }

    /** `check_text` after the predictions: `prediction` is the outcome of
        feature extraction and of the two `< 0.8` tests. */
    method CheckText(text: string, prediction: Result<Confidence, string>,
                     search: (string, string) -> Option<string>)
      returns (result: seq<Report>)
      ensures result == CheckedReports(errorPatterns, suggestions, text, prediction, search)
    {
      if prediction.Failure? {
        return [AnalysisError(prediction.error, text)];
      }
      var confidence := prediction.value;
      var errors: seq<ErrorEntry> := [];
      if confidence.lowSpelling {
        errors := errors + [LowConfidence("spelling", "Low spelling confidence", text)];
      }
      if confidence.lowGrammar {
        errors := errors + [LowConfidence("grammar", "Low grammar confidence", text)];
      }
      assert errors == ConfidenceErrors(confidence, text);
      var patternErrors := AnalyzePatterns(text, search);
      errors := errors + patternErrors;
      assert errors == ConfidenceErrors(confidence, text) + PatternErrors(errorPatterns, search, text);
      if confidence.lowSpelling || confidence.lowGrammar {
        assert errors[0].LowConfidence?;
      } else {
        assert errors == patternErrors;
      }
      var suggested := Suggest(errors);
      match suggested
      case Success(reports) => result := reports;
      case Failure(message) => result := [AnalysisError(message, text)];
    }
  }

  // ---------------------------------------------------------------------
  // Properties

  /** Pattern order: the entries of a pattern list are those of its first
      part followed by those of its second. */
  lemma {:induction false} PatternErrorsAppend(p: seq<ErrorPattern>, q: seq<ErrorPattern>,
                                               search: (string, string) -> Option<string>, text: string)
    ensures PatternErrors(p + q, search, text) == PatternErrors(p, search, text) + PatternErrors(q, search, text)
  {
    if q == [] {
      assert p + q == p;
    } else {
      var q' := q[..|q| - 1];
      assert (p + q)[..|p + q| - 1] == p + q';
      PatternErrorsAppend(p, q', search, text);
    }
  }

  /** `_analyze_patterns` returns `[]` exactly when no pattern is found. */
  lemma {:induction false} PatternErrorsEmpty(patterns: seq<ErrorPattern>,
                                              search: (string, string) -> Option<string>, text: string)
    ensures PatternErrors(patterns, search, text) == []
      <==> forall k :: 0 <= k < |patterns| ==> search(patterns[k].regex, text).None?
  {
    if patterns != [] {
      var init := patterns[..|patterns| - 1];
      PatternErrorsEmpty(init, search, text);
      assert forall k :: 0 <= k < |init| ==> init[k] == patterns[k];
    }
  }

  /** Every entry comes from a pattern that was found, with what was found. */
  lemma {:induction false} PatternErrorsSound(patterns: seq<ErrorPattern>,
                                              search: (string, string) -> Option<string>, text: string, n: nat)
    requires n < |PatternErrors(patterns, search, text)|
    ensures exists k :: (0 <= k < |patterns| && search(patterns[k].regex, text).Some?
      && PatternErrors(patterns, search, text)[n]
         == PatternHit(patterns[k].message, text, search(patterns[k].regex, text).value))
  {
    var init := patterns[..|patterns| - 1];
    if n < |PatternErrors(init, search, text)| {
      PatternErrorsSound(init, search, text, n);
      var k :| 0 <= k < |init| && search(init[k].regex, text).Some?
        && PatternErrors(init, search, text)[n]
           == PatternHit(init[k].message, text, search(init[k].regex, text).value);
      assert patterns[k] == init[k];
    } else {
      var k := |patterns| - 1;
      assert search(patterns[k].regex, text).Some?;
      assert PatternErrors(patterns, search, text)[n]
        == PatternHit(patterns[k].message, text, search(patterns[k].regex, text).value);
    }
  }

  /** Every pattern that is found yields its entry. */
  lemma {:induction false} PatternErrorsComplete(patterns: seq<ErrorPattern>,
                                                 search: (string, string) -> Option<string>, text: string, k: nat)
    requires k < |patterns| && search(patterns[k].regex, text).Some?
    ensures PatternHit(patterns[k].message, text, search(patterns[k].regex, text).value)
      in PatternErrors(patterns, search, text)
  {
    var init := patterns[..|patterns| - 1];
    if k < |patterns| - 1 {
      assert init[k] == patterns[k];
      PatternErrorsComplete(init, search, text, k);
    }
  }

  predicate DistinctMessages(patterns: seq<ErrorPattern>) {
    forall i, j :: 0 <= i < j < |patterns| ==> patterns[i].message != patterns[j].message
  }

  /** With distinct messages, pattern `k`'s entry is present, carrying
      `matched`, exactly when the search for it finds `matched`: at most one
      entry per pattern. */
  lemma PatternErrorsExact(patterns: seq<ErrorPattern>, search: (string, string) -> Option<string>,
                           text: string, k: nat, matched: string)
    requires k < |patterns| && DistinctMessages(patterns)
    ensures PatternHit(patterns[k].message, text, matched) in PatternErrors(patterns, search, text)
      <==> search(patterns[k].regex, text) == Some(matched)
  {
    var errors := PatternErrors(patterns, search, text);
    if search(patterns[k].regex, text) == Some(matched) {
      PatternErrorsComplete(patterns, search, text, k);
    } else if PatternHit(patterns[k].message, text, matched) in errors {
      var n :| 0 <= n < |errors| && errors[n] == PatternHit(patterns[k].message, text, matched);
      PatternErrorsSound(patterns, search, text, n);
      assert false;
    }
  }

  lemma CommonErrorMessagesDistinct()
    ensures DistinctMessages(CommonErrors)
  {
  }

  /** A low-confidence flag always ends in the single unpacking error. */
  lemma LowConfidenceIsUnpackError(patterns: seq<ErrorPattern>, table: map<string, map<string, string>>,
                                   text: string, confidence: Confidence,
                                   search: (string, string) -> Option<string>)
    requires confidence.lowSpelling || confidence.lowGrammar
    ensures CheckedReports(patterns, table, text, Success(confidence), search) == [AnalysisError(UnpackFailure, text)]
  {
  }

  /** The reports are those of the collected list, low-confidence entries
      first: a three-element entry in it is the unpacking error, otherwise
      every entry gets its triple. */
  lemma ReportsOfCollectedErrors(patterns: seq<ErrorPattern>, table: map<string, map<string, string>>,
                                 text: string, confidence: Confidence,
                                 search: (string, string) -> Option<string>)
    ensures var errors := ConfidenceErrors(confidence, text) + PatternErrors(patterns, search, text);
      CheckedReports(patterns, table, text, Success(confidence), search)
        == if exists i :: 0 <= i < |errors| && errors[i].LowConfidence? then [AnalysisError(UnpackFailure, text)]
           else SuggestionsFor(table, errors)
  {
    var errors := ConfidenceErrors(confidence, text) + PatternErrors(patterns, search, text);
    if confidence.lowSpelling || confidence.lowGrammar {
      assert errors[0].LowConfidence?;
    } else {
      assert errors == PatternErrors(patterns, search, text);
    }
  }

  lemma {:induction false} SuggestionsForPointwise(table: map<string, map<string, string>>,
                                                   errors: seq<ErrorEntry>, i: nat)
    requires forall j :: 0 <= j < |errors| ==> errors[j].PatternHit?
    requires i < |errors|
    ensures SuggestionsFor(table, errors)[i]
      == Suggestion(errors[i].message, errors[i].matched, Lookup(table, errors[i].message, errors[i].matched))
  {
    var init := errors[..|errors| - 1];
    if i < |init| {
      SuggestionsForPointwise(table, init, i);
      assert init[i] == errors[i];
    }
  }

  /** With both flags clear, one triple per pattern entry, in the same
      order, with the entry's message and matched text. */
  lemma ConfidentReportsFollowPatterns(patterns: seq<ErrorPattern>, table: map<string, map<string, string>>,
                                       text: string, confidence: Confidence,
                                       search: (string, string) -> Option<string>, i: nat)
    requires !confidence.lowSpelling && !confidence.lowGrammar
    ensures |CheckedReports(patterns, table, text, Success(confidence), search)|
      == |PatternErrors(patterns, search, text)|
    ensures i < |PatternErrors(patterns, search, text)| ==>
      var e := PatternErrors(patterns, search, text)[i];
      CheckedReports(patterns, table, text, Success(confidence), search)[i]
        == Suggestion(e.message, e.matched, Lookup(table, e.message, e.matched))
  {
    if i < |PatternErrors(patterns, search, text)| {
      SuggestionsForPointwise(table, PatternErrors(patterns, search, text), i);
    }
  }

  /** With both flags clear and no pattern found, the result is `[]`. */
  lemma ConfidentCleanTextHasNoReports(patterns: seq<ErrorPattern>, table: map<string, map<string, string>>,
                                       text: string, confidence: Confidence,
                                       search: (string, string) -> Option<string>)
    requires !confidence.lowSpelling && !confidence.lowGrammar
    requires forall k :: 0 <= k < |patterns| ==> search(patterns[k].regex, text).None?
    ensures CheckedReports(patterns, table, text, Success(confidence), search) == []
  {
    PatternErrorsEmpty(patterns, search, text);
  }

  /** No word of the suggestion table contains whitespace. */
  lemma SuggestionKeysHaveNoSpace(message: string, word: string)
    requires message in SuggestionTable && word in SuggestionTable[message]
    ensures NoSpace(word)
  {
  }

  /** The table is keyed by single words, so a matched text holding
      whitespace (every `\s+` match does) gets the default. */
  lemma SpacedMatchGetsNoSuggestion(message: string, matched: string, i: nat)
    requires i < |matched| && IsSpace(matched[i])
    ensures Lookup(SuggestionTable, message, matched) == NoSuggestion
  {
    if message in SuggestionTable && matched in SuggestionTable[message] {
      SuggestionKeysHaveNoSpace(message, matched);
    }
  }
}
