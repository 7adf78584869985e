/** The rule-based checker of models/rule_based_model.py: a word -> word
    class dictionary, a sentence splitter, and spelling and grammar findings
    produced by fixed rule tables.

    Two pieces of the platform are parameters of the model: the word
    tokenizer (its tokens, or the text of the exception it raised, are an
    input of `CheckText`), and the Unicode tables behind `str.isdigit` and
    the regular-expression class `\w` (two predicates on characters given to
    the constructor). */
module RuleBasedModel {
  import opened Wrappers
  import opened Strings

  datatype Kind = Spelling | Grammar | Error

  /** One finding `(kind, message, context)`.  No finding carries a
      replacement. */
  datatype Finding = Finding(kind: Kind, message: string, context: string)

  /** The two pattern shapes of the word tables; both are applied with
      `re.match`, that is, anchored at the start of the word. */
  datatype WordPattern =
    | Literal(text: string)   // a plain literal: a prefix test
    | Joined(infix: string)   // `\w+` infix `\w+`

  datatype WordRule = WordRule(pattern: WordPattern, message: string)

  /** The pattern `subject.*verb`, applied to a sentence with `re.search`. */
  datatype AgreementRule = AgreementRule(subject: string, verb: string, message: string)

  /** The three rule tables, each in declaration order. */
  datatype GrammarRules = GrammarRules(
    subjectVerbAgreement: seq<AgreementRule>,
    spellingPatterns: seq<WordRule>,
    wordSpacing: seq<WordRule>)

  const DeclaredRules := GrammarRules(
    [ AgreementRule("அவன்", "செல்கிறான்", "Third person singular with informal verb"),
      AgreementRule("அவள்", "செல்கிறாள்", "Third person singular feminine with informal verb"),
      AgreementRule("நாங்கள்", "செல்கிறோம்", "First person plural with appropriate verb"),
      AgreementRule("நீ", "செல்கிறாய்", "Second person singular with informal verb"),
      AgreementRule("அவர்", "செல்கிறார்", "Honorific subject with formal verb") ],
    [ WordRule(Literal("சொல்"), "Possible misspelling of சொல்"),
      WordRule(Literal("பாஷை"), "Possible misspelling of மொழி"),
      WordRule(Literal("எங்கே"), "Possible misspelling of எங்கு") ],
    [ WordRule(Joined("க்கு"), "Missing space before க்கு"),
      WordRule(Joined("ல்"), "Missing space before ல்"),
      WordRule(Joined("முடன்"), "Missing space before முடன்") ])

  /** The built-in dictionary used when there is no overlay file. */
  const Seed: map<string, string> := map[
    "அவன்" := "pronoun",
    "அவள்" := "pronoun",
    "நாங்கள்" := "pronoun",
    "பள்ளி" := "noun",
    "பள்ளிக்கு" := "noun",
    "செல்கிறான்" := "verb",
    "செல்கிறாள்" := "verb",
    "செல்கிறோம்" := "verb",
    "பாடல்" := "noun",
    "பாடுகிறாள்" := "verb",
    "ஆசிரியர்" := "noun",
    "நல்ல" := "adjective",
    "மொழி" := "noun",
    "கற்றுக்" := "verb",
    "கொடுக்கிறார்" := "verb"
  ]

  /** The characters `split_sentences` splits at. */
  const SentenceEnds: set<char> := {'.', '!', '?', '।'}

  // ---------------------------------------------------------------------
  // The dictionary

  /** The entry one overlay line contributes: for a non-blank line whose
      stripped text has at least two comma-separated fields, the first field
      mapped to the second. */
  function LineEntry(line: string): Option<(string, string)> {
    var t := Strip(line);
    if t == [] then None
    else
      var parts := SplitOn(t, {','});
      if |parts| >= 2 then Some((parts[0], parts[1])) else None
  }

  /** `line` sets the entry for `key`. */
  predicate SetsKey(line: string, key: string) {
    LineEntry(line).Some? && LineEntry(line).value.0 == key
  }

  /** `d` updated by every line in order. */
  function Overlay(d: map<string, string>, lines: seq<string>): map<string, string> {
    if lines == [] then d
    else
      var before := Overlay(d, lines[..|lines| - 1]);
      match LineEntry(lines[|lines| - 1])
      case None => before
      case Some((k, v)) => before[k := v]
  }

  /** The dictionary `_load_tamil_dictionary` returns: the seed, overlaid by
      the lines of the file when it exists (`None`: the file is missing). */
  function LoadedDictionary(overlay: Option<seq<string>>): map<string, string> {
    match overlay
    case None => Seed
    case Some(lines) => Overlay(Seed, lines)
  }

  // ---------------------------------------------------------------------
  // Sentences

  /** `[s.strip() for s in parts if s.strip()]`. */
  function StrippedNonBlank(parts: seq<string>, ghost seps: set<char>): (r: seq<string>)
    requires forall i :: 0 <= i < |parts| ==> Avoids(parts[i], seps)
    ensures forall i :: 0 <= i < |r| ==> r[i] != [] && IsStripped(r[i]) && Avoids(r[i], seps)
  {
    if parts == [] then []
    else
      var before := StrippedNonBlank(parts[..|parts| - 1], seps);
      var t := Strip(parts[|parts| - 1]);
      StripAvoids(parts[|parts| - 1], seps);
      if t == [] then before else before + [t]
  }

  /** `split_sentences`: the pieces between sentence-ending characters,
      stripped, blank ones dropped. */
  function SplitSentences(text: string): (sentences: seq<string>)
    ensures forall i :: 0 <= i < |sentences| ==>
      sentences[i] != [] && IsStripped(sentences[i]) && Avoids(sentences[i], SentenceEnds)
    ensures text == [] ==> sentences == []
  {
    var parts := SplitOn(text, SentenceEnds);
    assert text == [] ==> StrippedNonBlank(parts, SentenceEnds) == [] by {
      if text == [] {
        assert parts == [[]] && parts[..0] == [];
      }
    }
    StrippedNonBlank(parts, SentenceEnds)
  }

  // ---------------------------------------------------------------------
  // Matching

  predicate AllWordChars(isWordChar: char -> bool, s: string) {
    forall i :: 0 <= i < |s| ==> isWordChar(s[i])
  }

  /** `re.match(r'\w+' + infix + r'\w+', w)`: word characters from the
      start of `w`, then `infix`, then at least one word character. */
  predicate JoinedMatch(isWordChar: char -> bool, infix: string, w: string) {
    exists i | 1 <= i <= |w| - |infix| - 1 ::
      AllWordChars(isWordChar, w[..i]) && OccursAt(w, infix, i) && isWordChar(w[i + |infix|])
  }

  predicate MatchesWord(rule: WordRule, isWordChar: char -> bool, w: string) {
    match rule.pattern
    case Literal(t) => StartsWith(w, t)
    case Joined(x) => JoinedMatch(isWordChar, x, w)
  }

  /** `re.search(subject + '.*' + verb, s)`: `verb` occurs after an
      occurrence of `subject` with no newline in between. */
  predicate AgreementMatch(rule: AgreementRule, s: string) {
    exists i, j | 0 <= i && i + |rule.subject| <= j <= |s| - |rule.verb| ::
      OccursAt(s, rule.subject, i) && OccursAt(s, rule.verb, j)
      && '\n' !in s[i + |rule.subject|..j]
  }

  /** Python's `any(char.isdigit() for char in w)`. */
  predicate HasDigit(isDigit: char -> bool, w: string) {
    exists i | 0 <= i < |w| :: isDigit(w[i])
  }

  predicate DistinctMessages(rules: seq<WordRule>) {
    forall a, b :: 0 <= a < b < |rules| ==> rules[a].message != rules[b].message
  }

  predicate DistinctAgreementMessages(rules: seq<AgreementRule>) {
    forall a, b :: 0 <= a < b < |rules| ==> rules[a].message != rules[b].message
  }

  // ---------------------------------------------------------------------
  // Findings

  /** One spelling finding for every rule of `rules` that matches `w`, in
      rule order. */
  function RuleHits(rules: seq<WordRule>, isWordChar: char -> bool, w: string): seq<Finding> {
    if rules == [] then []
    else
      var last := rules[|rules| - 1];
      RuleHits(rules[..|rules| - 1], isWordChar, w)
        + (if MatchesWord(last, isWordChar, w) then [Finding(Spelling, last.message, w)] else [])
  }

  function UnknownMessage(w: string): string {
    "Unknown word: " + w
  }

  /** The unknown-word finding for `w`, if any. */
  function UnknownHit(dictionary: map<string, string>, isDigit: char -> bool, w: string): seq<Finding> {
    if w !in dictionary && !HasDigit(isDigit, w) then [Finding(Spelling, UnknownMessage(w), w)] else []
  }

  /** The findings for one word: pattern hits, the unknown-word finding,
      spacing hits. */
  function WordFindings(dictionary: map<string, string>, rules: GrammarRules,
                        isDigit: char -> bool, isWordChar: char -> bool, w: string): seq<Finding>
  {
    RuleHits(rules.spellingPatterns, isWordChar, w)
      + UnknownHit(dictionary, isDigit, w)
      + RuleHits(rules.wordSpacing, isWordChar, w)
  }

  lemma ConcatAssoc3<T>(a: seq<T>, b: seq<T>, c: seq<T>)
    ensures a + b + c == a + (b + c)
  {
  }

  lemma ConcatAssoc<T>(a: seq<T>, b: seq<T>, c: seq<T>, d: seq<T>)
    ensures a + b + c + d == a + (b + c + d)
  {
  }

  /** The findings `check_spelling` returns for the token sequence `words`. */
  function SpellingFindings(dictionary: map<string, string>, rules: GrammarRules,
                            isDigit: char -> bool, isWordChar: char -> bool,
                            words: seq<string>): seq<Finding>
  {
    if words == [] then []
    else
      SpellingFindings(dictionary, rules, isDigit, isWordChar, words[..|words| - 1])
        + WordFindings(dictionary, rules, isDigit, isWordChar, words[|words| - 1])
  }

  /** One grammar finding for every agreement rule that matches `s`. */
  function SentenceFindings(rules: seq<AgreementRule>, s: string): seq<Finding> {
    if rules == [] then []
    else
      var last := rules[|rules| - 1];
      SentenceFindings(rules[..|rules| - 1], s)
        + (if AgreementMatch(last, s) then [Finding(Grammar, last.message, s)] else [])
  }

  /** The findings `check_grammar` returns for the sentences `sentences`:
      sentence-major, rule order within a sentence. */
  function GrammarFindings(rules: seq<AgreementRule>, sentences: seq<string>): seq<Finding> {
    if sentences == [] then []
    else
      GrammarFindings(rules, sentences[..|sentences| - 1])
        + SentenceFindings(rules, sentences[|sentences| - 1])
  }

  function AnalysisErrorMessage(e: string): string {
    "Error in text analysis: " + e
  }

  /** What `check_text` returns: the spelling findings of the tokens followed
      by the grammar findings of the sentences, or one error finding when
      tokenizing raised `e`. */
  function TextFindings(dictionary: map<string, string>, rules: GrammarRules,
                        isDigit: char -> bool, isWordChar: char -> bool,
                        text: string, tokens: Result<seq<string>, string>): seq<Finding>
  {
    match tokens
    case Failure(e) => [Finding(Error, AnalysisErrorMessage(e), text)]
    case Success(words) =>
      SpellingFindings(dictionary, rules, isDigit, isWordChar, words)
        + GrammarFindings(rules.subjectVerbAgreement, SplitSentences(text))
  }

  // ---------------------------------------------------------------------
  // The checker

  class RuleBasedChecker {
    const tamilWords: map<string, string>
    const grammarRules: GrammarRules
    /** Python's `str.isdigit` on one character. */
    const isDigit: char -> bool
    /** Membership in the regular-expression class `\w`. */
    const isWordChar: char -> bool

    constructor (overlay: Option<seq<string>>, isDigit: char -> bool, isWordChar: char -> bool)
      ensures tamilWords == LoadedDictionary(overlay)
      ensures grammarRules == DeclaredRules
      ensures this.isDigit == isDigit && this.isWordChar == isWordChar
    {
      var d := LoadTamilDictionary(overlay);
      tamilWords := d;
      grammarRules := DeclaredRules;
      this.isDigit := isDigit;
      this.isWordChar := isWordChar;
    }

    /** `_load_tamil_dictionary`: the seed dictionary, updated in place by
        every usable line of the overlay. */
    static method LoadTamilDictionary(overlay: Option<seq<string>>) returns (d: map<string, string>)
      ensures d == LoadedDictionary(overlay)
    {
      d := Seed;
      if overlay.Some? {
        var lines := overlay.value;
        for n := 0 to |lines|
          invariant d == Overlay(Seed, lines[..n])
        {
          assert lines[..n + 1][..n] == lines[..n];
          var t := Strip(lines[n]);
          if t != [] {
            var parts := SplitOn(t, {','});
            if |parts| >= 2 {
              d := d[parts[0] := parts[1]];
            }
          }
        }
        assert lines[..|lines|] == lines;
      }
    }

    /** `check_spelling` on the tokens `words` of the text. */
    method CheckSpelling(words: seq<string>) returns (errors: seq<Finding>)
      ensures errors == SpellingFindings(tamilWords, grammarRules, isDigit, isWordChar, words)
    {
      errors := [];
      for n := 0 to |words|
        invariant errors == SpellingFindings(tamilWords, grammarRules, isDigit, isWordChar, words[..n])
      {
        assert words[..n + 1][..n] == words[..n];
        var word := words[n];
        ghost var before := errors;
        ghost var patternHits := RuleHits(grammarRules.spellingPatterns, isWordChar, word);
        ghost var unknown := UnknownHit(tamilWords, isDigit, word);
        ghost var spacingHits := RuleHits(grammarRules.wordSpacing, isWordChar, word);
        errors := AppendRuleHits(errors, grammarRules.spellingPatterns, word);
        if word !in tamilWords && !HasDigit(isDigit, word) {
          errors := errors + [Finding(Spelling, UnknownMessage(word), word)];
        }
        assert errors == before + patternHits + unknown;
        errors := AppendRuleHits(errors, grammarRules.wordSpacing, word);
        ConcatAssoc(before, patternHits, unknown, spacingHits);
      }
      assert words[..|words|] == words;
    }

    /** One inner loop of `check_spelling`: append a finding for every rule
        of `rules` that `re.match`es `word`. */
    method AppendRuleHits(errors: seq<Finding>, rules: seq<WordRule>, word: string)
      returns (extended: seq<Finding>)
      ensures extended == errors + RuleHits(rules, isWordChar, word)
    {
      extended := errors;
      for k := 0 to |rules|
        invariant extended == errors + RuleHits(rules[..k], isWordChar, word)
      {
        assert rules[..k + 1][..k] == rules[..k];
        if MatchesWord(rules[k], isWordChar, word) {
          extended := extended + [Finding(Spelling, rules[k].message, word)];
        }
      }
      assert rules[..|rules|] == rules;
    }

    /** `check_grammar`: every (sentence, matching agreement rule) pair. */
    method CheckGrammar(text: string) returns (errors: seq<Finding>)
      ensures errors == GrammarFindings(grammarRules.subjectVerbAgreement, SplitSentences(text))
    {
      errors := [];
      var sentences := SplitSentences(text);
      var rules := grammarRules.subjectVerbAgreement;
      for n := 0 to |sentences|
        invariant errors == GrammarFindings(rules, sentences[..n])
      {
        assert sentences[..n + 1][..n] == sentences[..n];
        errors := AppendSentenceFindings(errors, rules, sentences[n]);
      }
      assert sentences[..|sentences|] == sentences;
    }

    /** One inner loop of `check_grammar`: append a finding for every
        agreement rule that `re.search`es `sentence`. */
    method AppendSentenceFindings(errors: seq<Finding>, rules: seq<AgreementRule>, sentence: string)
      returns (extended: seq<Finding>)
      ensures extended == errors + SentenceFindings(rules, sentence)
    {
      extended := errors;
      for k := 0 to |rules|
        invariant extended == errors + SentenceFindings(rules[..k], sentence)
      {
        assert rules[..k + 1][..k] == rules[..k];
        if AgreementMatch(rules[k], sentence) {
          ConcatAssoc3(errors, SentenceFindings(rules[..k], sentence), [Finding(Grammar, rules[k].message, sentence)]);
          extended := extended + [Finding(Grammar, rules[k].message, sentence)];
        }
      }
      assert rules[..|rules|] == rules;
    }

    /** `check_text`: spelling findings, then grammar findings; an
        exception raised while tokenizing becomes one error finding. */
    method CheckText(text: string, tokens: Result<seq<string>, string>) returns (result: seq<Finding>)
      ensures result == TextFindings(tamilWords, grammarRules, isDigit, isWordChar, text, tokens)
      ensures tokens.Failure? ==>
        result == [Finding(Error, AnalysisErrorMessage(tokens.error), text)]
      ensures tokens.Success? ==>
        (result == [] <==>
          SpellingFindings(tamilWords, grammarRules, isDigit, isWordChar, tokens.value) == []
          && GrammarFindings(grammarRules.subjectVerbAgreement, SplitSentences(text)) == [])
    {
      match tokens
      case Failure(e) =>
        result := [Finding(Error, AnalysisErrorMessage(e), text)];
      case Success(words) =>
        var spellingErrors := CheckSpelling(words);
        var grammarErrors := CheckGrammar(text);
        var allErrors := spellingErrors + grammarErrors;
        if allErrors == [] {
          result := [];
        } else {
          result := allErrors;
        }
    }
  }
}
