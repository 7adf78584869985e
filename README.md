# Tamil spell and grammar checkers — a Dafny model

This project models the checking code of a small Tamil spell and grammar
checker repository and proves what that code promises. Five pieces of the
repository are modelled, each as its own module:

- **`RuleBasedModel`** (`models/rule_based_model.py`), with its properties in
  **`RuleBasedProperties`**. This is the rule-based checker: a word-class
  dictionary seeded with 15 words and overlaid by the lines of an optional
  file, a sentence splitter, and spelling findings. A spelling finding comes
  from a word-prefix rule, the unknown-word test or a missing-space rule.
  Grammar findings come from subject-verb agreement rules. `check_text`
  combines both kinds and turns an exception into one `error` finding. The
  checker is the class `RuleBasedChecker`. Its loops are methods proved equal
  to recursive specification functions. The lemmas state which findings
  appear and in which order.
- **`GrammarChecker`** (`grammar_checker.py`). The text is cut at every `.`.
  Each piece gets the agreement fix (`அவர்கள்` … `வருகிறான்` becomes
  `வருகிறார்கள்`) and then the word-order fix (`புத்தகம் அந்த` becomes
  `அந்த புத்தகம்`). The pieces are rejoined with `". "`.
- **`SpellChecker`** (`spell_checker.py`). Every whitespace-separated word
  that is not in the dictionary is replaced by the dictionary word nearest to
  it in Levenshtein distance. On a tie the earliest word wins, because
  `sorted` is stable.
- **`LstmApproach`** (`LSTM_Approach.py`). The first word of the sentence
  that is a key of a two-entry subject table decides the rewrite. Every
  occurrence of that word, even one inside another word, is replaced by the
  word the table maps it to.
- **`MlModel`** (`models/ML_model.py`). This covers the post-processing of
  the statistical checker: the pattern search of `_analyze_patterns` and the
  error and suggestion lists that `check_text` builds after the classifiers
  have predicted.

`Strings` models the Python string operations the code relies on:
- `str.strip`, `str.split()` and `str.split(c)`;
- `re.split` on a character class;
- `sep.join`, `str.replace` and `re.sub` with a literal pattern;
- the `in` test on strings.

It also holds the lemmas about them: `split()` inverts a single-space join,
a split-then-join round trip restores the string, and a replacement with a
self-clearing pair leaves no occurrence behind. `Wrappers` holds `Option`
and `Result`.

Function parameters stand in for what the model cannot see:
- Python's Unicode tables appear as `isWordChar` (the regex class `\w`) and
  `isDigit` (`str.isdigit`).
- The tokenizer's output is an input. A `Failure` input stands for the
  exception the tokenizer raises.
- The dictionary overlay file is an `Option` of its lines. `None` stands for
  a missing file.
- The classifiers' two `< 0.8` tests are two booleans. A `Failure` stands for
  an exception raised while extracting features or predicting.
- `re.search` with the statistical checker's patterns is the function
  `search`, which returns the matched text.

Some facts about the code that the model keeps:
- Every matching spelling or agreement rule emits its finding; nothing stops
  at the first match. `RuleHitsComplete` and `AgreementExample` prove this.
- No finding carries a replacement, and the rule-based checker has no code
  that applies corrections.
- The unknown-word test skips a word that contains any digit, not only a
  word that is all digits.
- `main.py` chains the spell corrector into the grammar rewriter, but it
  fails at import (see "Left out"). No code merges or scores the results of
  several checkers, so nothing of the kind is modelled.
- Only a missing overlay file is absorbed. An overlay line with fewer than
  two comma fields is skipped; any other failure to read the file is not
  absorbed.

The following definitions give the model its meaning. They carry no
contract of their own; the lemmas in the table below state their
properties.
- `Strings.Contains` (`sub in s`, for instance `grammar_checker.py:7`) and
  `Strings.StartsWith` (the literal `re.match` of
  `models/rule_based_model.py:72`).
- `Strings.Join` (`sep.join`, `grammar_checker.py:27` and
  `spell_checker.py:27`) and `Strings.ReplaceAll` (`str.replace` and the
  literal `re.sub`, `grammar_checker.py:8`, `grammar_checker.py:15` and
  `LSTM_Approach.py:9`): leftmost, non-overlapping, one pass.
- `RuleBasedModel.LineEntry` (`models/rule_based_model.py:51-54`),
  `RuleBasedModel.Overlay` (`models/rule_based_model.py:50-54`) and
  `RuleBasedModel.LoadedDictionary` (`models/rule_based_model.py:48-58`):
  the entry one overlay line sets, the seed overlaid line by line, and the
  seed when the file is missing.
- `RuleBasedModel.MatchesWord` and `RuleBasedModel.JoinedMatch` (the
  `re.match` of `models/rule_based_model.py:72` and `:81`): a literal prefix,
  or word characters, the infix and another word character.
- `RuleBasedModel.AgreementMatch` (`models/rule_based_model.py:93`): the
  verb follows an occurrence of the subject with no newline in between.
- `RuleBasedModel.RuleHits` (`models/rule_based_model.py:71-73` and
  `:80-82`): one finding per rule that matches the word, in rule order.
- `RuleBasedModel.HasDigit` (`models/rule_based_model.py:76`), and
  `RuleBasedModel.UnknownMessage` and `RuleBasedModel.UnknownHit`
  (`models/rule_based_model.py:76-77`): the digit test, the `Unknown word`
  message, and the finding the dictionary test emits.
- `RuleBasedModel.SentenceFindings` (`models/rule_based_model.py:92-94`): one
  finding per agreement rule that matches the sentence, in rule order.
- `RuleBasedModel.AnalysisErrorMessage` (`models/rule_based_model.py:116`):
  the message of the `error` finding.
- `RuleBasedModel.WordFindings`, `RuleBasedModel.SpellingFindings`,
  `RuleBasedModel.GrammarFindings` and `RuleBasedModel.TextFindings`
  (`models/rule_based_model.py:69-84`, `:90-94` and `:98-116`): the findings
  for one token, for all tokens, for all sentences, and of `check_text`.
- `GrammarChecker.CheckSentence` (`grammar_checker.py:23-24`): the agreement
  fix, then the word-order fix.
- `SpellChecker.IsTamilWord` (`spell_checker.py:8-9`), `SpellChecker.Levenshtein`
  (the distance of `spell_checker.py:13`, unit-cost insertion, deletion and
  substitution over code points) and `SpellChecker.Corrected`
  (`spell_checker.py:22-25`): kept when in the dictionary, otherwise its
  suggestion.
- `MlModel.Lookup` (the nested `.get` of `models/ML_model.py:125`) and
  `MlModel.CheckedReports` (`models/ML_model.py:100-130`): what `check_text`
  returns once the predictions are known.

## Model

| member | source | states |
|---|---|---|
| RuleBasedModel.RuleBasedChecker.constructor | models/rule_based_model.py:5-27 | the dictionary is the loaded one and the three rule tables are exactly the declared ones, in declaration order |
| RuleBasedModel.RuleBasedChecker.LoadTamilDictionary | models/rule_based_model.py:29-58 | the in-place loop yields the seed updated, line by line, with `parts[0] -> parts[1]` for every stripped non-blank line with at least two comma fields; a missing file leaves the seed |
| RuleBasedProperties.OverlayKeys | models/rule_based_model.py:50-54 | a word is a key of the result exactly when it is in the seed or some line sets it |
| RuleBasedProperties.OverlayLastLineWins | models/rule_based_model.py:50-54 | the last line that sets a word decides its class; earlier lines lose |
| RuleBasedProperties.OverlayUntouched | models/rule_based_model.py:48-58 | a word no line sets keeps its seed entry or stays absent |
| RuleBasedProperties.LineEntryOfPair | models/rule_based_model.py:51-54 | a line `word,class` with its newline sets `word -> class` |
| RuleBasedProperties.LineWithoutCommaIgnored | models/rule_based_model.py:52-53 | a line with a single comma field changes nothing |
| RuleBasedModel.SplitSentences | models/rule_based_model.py:60-63 | every sentence is non-empty, stripped and free of `.`, `!`, `?`, `।`; empty text gives no sentence |
| RuleBasedProperties.SplitSentencesAtEnd | models/rule_based_model.py:62-63 | cutting at a sentence end gives the sentences of the left side followed by those of the right side: original order |
| RuleBasedProperties.SplitSentencesOfOnePiece | models/rule_based_model.py:62-63 | text without a sentence end is one stripped sentence, or none when blank |
| RuleBasedModel.StrippedNonBlank | models/rule_based_model.py:63 | every kept piece is non-empty and stripped, and keeps the separator-freedom of the pieces it comes from |
| RuleBasedProperties.StrippedNonBlankAppend | models/rule_based_model.py:63 | the filtered, stripped pieces of a concatenation are those of each part, in order |
| RuleBasedModel.RuleBasedChecker.AppendRuleHits | models/rule_based_model.py:71-73 | the inner loop appends one finding per rule that matches the word, in rule order |
| RuleBasedModel.RuleBasedChecker.CheckSpelling | models/rule_based_model.py:65-84 | the nested loops yield, token by token, the pattern hits, then the unknown-word finding, then the spacing hits |
| RuleBasedProperties.RuleHitsSound | models/rule_based_model.py:71-73 | every emitted spelling finding comes from a rule that matches the word and carries that rule's message |
| RuleBasedProperties.RuleHitsComplete | models/rule_based_model.py:71-73 | every rule that matches the word emits its finding: no early exit |
| RuleBasedProperties.RuleHitsExact | models/rule_based_model.py:80-82 | with distinct messages, a rule's finding is present exactly when the rule matches the word |
| RuleBasedProperties.DeclaredMessagesDistinct | models/rule_based_model.py:9-27 | the messages within each declared table are distinct |
| RuleBasedProperties.UnknownWordExactly | models/rule_based_model.py:76-77 | `Unknown word: w` is emitted exactly when `w` is not a dictionary key and holds no digit character |
| RuleBasedProperties.SpellingFindingsAppend | models/rule_based_model.py:69-84 | findings follow token order: those of a token sequence are those of its first part, then its second |
| RuleBasedProperties.SpellingExample | models/rule_based_model.py:18 | `சொல்கிறேன்` draws both the `சொல்` pattern finding and the unknown-word finding |
| RuleBasedModel.RuleBasedChecker.CheckGrammar | models/rule_based_model.py:86-96 | the nested loops yield, sentence by sentence and in rule order, one finding per matching agreement rule |
| RuleBasedModel.RuleBasedChecker.AppendSentenceFindings | models/rule_based_model.py:92-94 | the inner loop appends one finding per agreement rule that matches the sentence, in rule order |
| RuleBasedProperties.SentenceFindingsSound | models/rule_based_model.py:92-94 | every grammar finding of a sentence comes from a rule that matches it |
| RuleBasedProperties.SentenceFindingsComplete | models/rule_based_model.py:92-94 | every matching agreement rule emits its finding for the sentence |
| RuleBasedProperties.GrammarFindingsMember | models/rule_based_model.py:90-94 | a finding is emitted exactly when it is emitted for one of the sentences |
| RuleBasedProperties.GrammarFindingsExact | models/rule_based_model.py:88-96 | with distinct messages, rule `k`'s finding for `s` is present exactly when `s` is a sentence and the rule matches it |
| RuleBasedProperties.GrammarFindingsAppend | models/rule_based_model.py:90-94 | the output is sentence-major |
| RuleBasedProperties.AgreementMatchOf | models/rule_based_model.py:93 | `subject.*verb` is found in any text where the verb follows the subject across a newline-free gap |
| RuleBasedProperties.SingularRuleMatchesTwoSubjects | models/rule_based_model.py:11 | the `அவன்.*செல்கிறான்` rule matches the two-subject sentence |
| RuleBasedProperties.HonorificRuleMatchesTwoSubjects | models/rule_based_model.py:15 | the `அவர்.*செல்கிறார்` rule matches the two-subject sentence |
| RuleBasedProperties.AgreementExample | models/rule_based_model.py:92-94 | a sentence matched by two agreement rules draws both findings |
| RuleBasedModel.RuleBasedChecker.CheckText | models/rule_based_model.py:98-116 | spelling findings then grammar findings, `[]` exactly when both are empty; a tokenizer exception gives the single `error` finding `Error in text analysis: ...` |
| Strings.Strip | models/rule_based_model.py:51-52 | the result has no whitespace at either end, and a string without whitespace is unchanged |
| Strings.SplitOn | models/rule_based_model.py:62 | at least one piece, and no piece holds a separator |
| Strings.SplitOnCount | grammar_checker.py:19 | one piece more than there are separators |
| Strings.JoinSplitOn | grammar_checker.py:19 | joining the pieces with the separator gives back the text |
| Strings.SplitOnAtSeparator | models/rule_based_model.py:62 | splitting at a separator splits each side |
| Strings.Words | spell_checker.py:18 | every word is non-empty and free of whitespace |
| Strings.WordsOfJoin | spell_checker.py:27 | `split()` of a single-space join of non-empty space-free words gives the words back |
| Strings.SplitStr | grammar_checker.py:19 | `s.split(pat)` has at least one piece, even for empty text |
| Strings.JoinSplitStr | grammar_checker.py:8 | joining `s.split(pat)`, the pieces `str.replace` rejoins, with `pat` gives `s` back |
| Strings.SplitStrPiecesFree | LSTM_Approach.py:9 | no piece of `s.split(pat)`, the pieces `str.replace` rejoins, contains `pat` |
| Strings.ReplaceAllIsJoinOfSplit | grammar_checker.py:8 | `s.replace(pat, rep)` is `rep.join(s.split(pat))` |
| Strings.ReplaceAllAbsent | grammar_checker.py:16 | without an occurrence, the replacement changes nothing |
| Strings.ReplaceAllRemovesAll | grammar_checker.py:8 | for a self-clearing pair no occurrence of the pattern is left |
| GrammarChecker.VerbReplacementSelfClearing | grammar_checker.py:8 | `வருகிறான்` -> `வருகிறார்கள்` is a self-clearing pair |
| GrammarChecker.CheckSubjectVerbAgreement | grammar_checker.py:4-9 | unchanged unless both words occur; a sentence with `அவர்கள்` holds no `வருகிறான்` afterwards |
| GrammarChecker.AgreementExample | grammar_checker.py:6-8 | `அவர்கள் வருகிறான்` becomes `அவர்கள் வருகிறார்கள்` |
| GrammarChecker.MisplacedThatHasBothWords | grammar_checker.py:14 | a sentence containing `புத்தகம் அந்த` contains both guard words |
| GrammarChecker.WithoutBothWordsNoMisplacedThat | grammar_checker.py:14-16 | when the guard fails there is nothing to replace |
| GrammarChecker.CheckWordOrder | grammar_checker.py:11-16 | the result is the plain replacement of every `புத்தகம் அந்த` by `அந்த புத்தகம்`: the guard never changes the outcome |
| GrammarChecker.WordOrderExample | grammar_checker.py:13-15 | `புத்தகம் அந்த` becomes `அந்த புத்தகம்` |
| GrammarChecker.WordOrderSinglePass | grammar_checker.py:15 | one left-to-right pass can leave a new `புத்தகம் அந்த` in the output |
| GrammarChecker.CheckedSentences | grammar_checker.py:22-25 | one checked piece per piece |
| GrammarChecker.CheckedSentencesPointwise | grammar_checker.py:22-25 | piece `i` of the output is piece `i` of the input after the agreement fix, then the word-order fix |
| GrammarChecker.GrammarCheck | grammar_checker.py:18-27 | the loop yields the checked `.`-pieces, in order, joined with `". "` |
| GrammarChecker.GrammarCheckPieces | grammar_checker.py:19 | the number of pieces is the number of dots plus one, and the pieces rejoin to the text |
| GrammarChecker.CheckedSentencesUnchanged | grammar_checker.py:22-25 | pieces the fixes leave alone come back as they were |
| GrammarChecker.GrammarCheckOfOneSentence | grammar_checker.py:19-27 | text without `.` comes back as that one piece, checked |
| GrammarChecker.GrammarCheckWithoutTriggers | grammar_checker.py:18-27 | text in which no `.`-piece holds both `அவர்கள்` and `வருகிறான்`, and which does not contain `புத்தகம் அந்த`, is only re-spaced: every `.` becomes `". "` |
| GrammarChecker.GrammarCheckSpacesDots | grammar_checker.py:27 | `a.b` becomes `a. b` |
| GrammarChecker.SplitStrOfChar | grammar_checker.py:19 | splitting on a one-character string is splitting on that character |
| GrammarChecker.ContainsInJoin | grammar_checker.py:27 | what a piece contains, the join contains |
| SpellChecker.LevenshteinSelf | spell_checker.py:13 | the distance from a word to itself is 0 |
| SpellChecker.LevenshteinZeroIsEqual | spell_checker.py:13 | distance 0 only between equal words |
| SpellChecker.LevenshteinBounds | spell_checker.py:13 | the distance lies between the length difference and the longer length |
| SpellChecker.LevenshteinSymmetric | spell_checker.py:13 | the distance is symmetric |
| SpellChecker.ClosestIndex | spell_checker.py:13-15 | the index the stable sort puts first: minimal distance, and strictly smaller than all earlier words |
| SpellChecker.SuggestCorrection | spell_checker.py:11-15 | the word itself for an empty dictionary, otherwise a dictionary word at minimal distance, the earliest one |
| SpellChecker.SuggestionOfDictionaryWord | spell_checker.py:11-15 | a dictionary word is its own suggestion |
| SpellChecker.CorrectedWords | spell_checker.py:21-25 | one output word per input word |
| SpellChecker.CorrectedWordsPointwise | spell_checker.py:22-25 | word `i` of the output is word `i` kept, or its suggestion when not in the dictionary |
| SpellChecker.SpellCheck | spell_checker.py:17-27 | the loop yields the corrected `split()` words, in order, joined with single spaces |
| SpellChecker.CorrectedWordIsKeptOrNearest | spell_checker.py:21-25 | a dictionary word is kept; any other word becomes a dictionary word at minimal distance, or stays with an empty dictionary |
| SpellChecker.SpellCheckWords | spell_checker.py:18 | `split()` of the output gives exactly the corrected words: whitespace runs and leading and trailing whitespace are gone |
| SpellChecker.SpellCheckOfKnownWords | spell_checker.py:21-27 | text made of dictionary words comes back with its words rejoined by single spaces |
| LstmApproach.FirstKey | LSTM_Approach.py:6-8 | none exactly when no word is a key; otherwise a key occurring as a word with no key before it |
| LstmApproach.CheckSubjectVerb | LSTM_Approach.py:1-10 | a sentence none of whose `split()` words is a key comes back unchanged; if word `i` is a key and no earlier word is, the sentence is cut at every occurrence of word `i` and rejoined with its mapped word |
| LstmApproach.FirstKeyIsFirstSubject | LSTM_Approach.py:7-9 | the first key word of the sentence is the one the loop finds |
| LstmApproach.NoSubjectUnchanged | LSTM_Approach.py:10 | a sentence with no key word is returned unchanged |
| LstmApproach.FirstKeyDecides | LSTM_Approach.py:7-9 | the first key word in sentence order decides; later keys are ignored |
| LstmApproach.RewriteIsSplitAndJoin | LSTM_Approach.py:9 | the rewrite cuts the whole sentence at the key, not its words, and rejoins with the mapped word |
| LstmApproach.LeadingSpaceKept | LSTM_Approach.py:9 | leading whitespace survives: the words are never rejoined |
| Strings.FirstCharAbsent | LSTM_Approach.py:9 | a string without the key's first character holds no occurrence of the key |
| LstmApproach.WordsOfExample | LSTM_Approach.py:6 | `அவர்கள் வருகிறான்` splits into its two words |
| LstmApproach.ReplaceOfExample | LSTM_Approach.py:9 | the replacement on that sentence rewrites only the subject |
| LstmApproach.RewriteExample | LSTM_Approach.py:2-9 | `அவர்கள் வருகிறான்` becomes `வருகிறார்கள் வருகிறான்` |
| LstmApproach.ReplaceBothHeads | LSTM_Approach.py:9 | in `pat pat…rest`, with `rest` free of `pat`, both occurrences are replaced, the one starting the second word included |
| LstmApproach.InsideWordReplaced | LSTM_Approach.py:9 | in `அவன் அவன்தான்` both occurrences of `அவன்` are replaced |
| LstmApproach.InsideWordExample | LSTM_Approach.py:7-9 | the rewrite reaches the `அவன்` inside the word `அவன்தான்` |
| MlModel.PatternErrors | models/ML_model.py:90-98 | at most one entry per pattern, each a four-element pattern entry for the checked text |
| MlModel.StatisticalChecker.constructor | models/ML_model.py:41-62 | the pattern list and the suggestion table are the declared ones, patterns in declaration order |
| MlModel.StatisticalChecker.AnalyzePatterns | models/ML_model.py:90-98 | the loop yields, in pattern order, one entry per pattern that the search finds, carrying the matched text |
| MlModel.PatternErrorsAppend | models/ML_model.py:93-96 | entries follow declaration order |
| MlModel.PatternErrorsEmpty | models/ML_model.py:91-98 | `[]` exactly when no pattern is found |
| MlModel.PatternErrorsSound | models/ML_model.py:94-96 | every entry comes from a pattern that was found, with its message and match |
| MlModel.PatternErrorsComplete | models/ML_model.py:94-96 | every pattern that is found has its entry |
| MlModel.PatternErrorsExact | models/ML_model.py:43-45 | with distinct messages, pattern `k`'s entry with `m` is present exactly when the search for it finds `m` |
| MlModel.CommonErrorMessagesDistinct | models/ML_model.py:42-46 | the three pattern messages are distinct |
| MlModel.ConfidenceErrors | models/ML_model.py:110-116 | one three-element entry for the checked text per flag that is set |
| MlModel.SuggestionsFor | models/ML_model.py:123-128 | one triple per four-element entry |
| MlModel.ReportsOfCollectedErrors | models/ML_model.py:108-128 | the reports follow the collected list, low-confidence entries then pattern entries: a three-element entry in it gives the unpacking error, otherwise every entry gets its triple |
| MlModel.StatisticalChecker.Suggest | models/ML_model.py:123-128 | one triple per four-element entry, in order; a three-element entry makes the unpacking fail |
| MlModel.StatisticalChecker.CheckText | models/ML_model.py:100-130 | the reports are those of `CheckedReports`: an exception's message, the unpacking failure, or the suggestion triples |
| MlModel.LowConfidenceIsUnpackError | models/ML_model.py:111-130 | any low-confidence flag ends in exactly `[('error', 'not enough values to unpack (expected 4, got 3)', text)]` |
| MlModel.SuggestionsForPointwise | models/ML_model.py:124-126 | triple `i` is entry `i`'s message, its matched text and the table lookup |
| MlModel.ConfidentReportsFollowPatterns | models/ML_model.py:119-128 | with both flags clear, one triple per pattern entry, in the same order |
| MlModel.ConfidentCleanTextHasNoReports | models/ML_model.py:119-128 | with both flags clear and no pattern found, the result is `[]` |
| MlModel.SuggestionKeysHaveNoSpace | models/ML_model.py:47-61 | no word of the suggestion table contains whitespace |
| MlModel.SpacedMatchGetsNoSuggestion | models/ML_model.py:125 | a matched text holding whitespace, as every `\s+` match does, gets `No suggestion available` |

## Left out

- `RuleBased_GrammerChk.py` is not part of this model. Its behaviour lies in
  Python's regex engine: lazy repetition, lookahead and back-references. It
  also runs its prints at import.
- `spellChecker.py` is not part of this model. It wraps a foreign spelling
  library and prints at import.
- `Statistical_ML.py`, `DL_Approach.py` and `dl_spell_grammar_checker.py`
  are not part of this model. They are foreign classifiers and pretrained
  pipelines.
- The training, feature extraction and prediction of `StatisticalChecker`
  (`_train_models`, `_extract_features`, the `predict_proba` calls) are not
  modelled. They are foreign numeric code with floating point. What remains
  of them is the two `< 0.8` outcomes or the failure they raise.
- `load_dictionary.py` is not modelled: it is CSV I/O. The spell corrector
  takes the dictionary as a sequence in its iteration order. The source's
  `set` has an order Python does not fix.
- `main.py` and `test_cases.py` are not modelled. They import names their
  modules do not define (`grammar_checker`, `check_subject_verb`,
  `load_dictionary` from `spell_checker`), so they fail at import. Past
  that, `process_text` would chain the spell corrector into the grammar
  rewriter, and the rest only prints.
- The tokenizer `trivial_tokenize` is foreign: its output, or the exception
  it raises, is an input.
- Python's Unicode tables are parameters: `\w` for the missing-space rules
  and `str.isdigit` for the unknown-word test. The whitespace set of
  `strip`/`split` is written out in `Strings.IsSpace`.
- The statistical checker's regular expressions (`\b`, `\s+`, `\w+`,
  alternation) are not interpreted. `re.search(...).group()` is the
  parameter `search`.
- File opening and reading in `_load_tamil_dictionary` are not modelled. The
  only failure modelled is a missing file. Decoding errors and other read
  failures, which the source does not catch, are not modelled.
- RuleBasedModel.RuleBasedChecker.CheckText: the only exception modelled is
  the tokenizer's. The other steps of the rule-based checker raise nothing.
- Exception messages are modelled only where the source fixes them: the
  unpacking error of the statistical checker. Otherwise the message is
  whatever the failing call reports.
- The module-level dictionary that `spell_checker.py` loads at import
  becomes the `dictionary` parameter.
