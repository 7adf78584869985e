/** What the rule-based checker promises: how the dictionary is built, how
    sentences are cut, and exactly which findings are emitted, in which
    order. */
module RuleBasedProperties {
  import opened Wrappers
  import opened Strings
  import opened RuleBasedModel
  import opened TamilWords

  // ---------------------------------------------------------------------
  // The dictionary

  /** A key is in the overlaid dictionary exactly when it is in the base or
      some line sets it. */
  lemma OverlayKeys(d: map<string, string>, lines: seq<string>, k: string)
    ensures k in Overlay(d, lines) <==> k in d || exists i :: 0 <= i < |lines| && SetsKey(lines[i], k)
  {
    if k in Overlay(d, lines) && k !in d {
      var i := OverlayKeyOrigin(d, lines, k);
    }
    if exists i :: 0 <= i < |lines| && SetsKey(lines[i], k) {
      var i :| 0 <= i < |lines| && SetsKey(lines[i], k);
      OverlayKeyFromLine(d, lines, i, k);
    }
    if k in d {
      OverlayKeepsSeedKeys(d, lines, k);
    }
  }

  /** One step of the overlay adds the key of the line, if any. */
  lemma OverlayStep(d: map<string, string>, lines: seq<string>, k: string)
    requires lines != []
    ensures k in Overlay(d, lines)
      <==> k in Overlay(d, lines[..|lines| - 1]) || SetsKey(lines[|lines| - 1], k)
  {
  }

  lemma {:induction false} OverlayKeyOrigin(d: map<string, string>, lines: seq<string>, k: string) returns (i: nat)
    requires k in Overlay(d, lines) && k !in d
    ensures i < |lines| && SetsKey(lines[i], k)
  {
    var m := |lines| - 1;
    OverlayStep(d, lines, k);
    if SetsKey(lines[m], k) {
      i := m;
    } else {
      var init := lines[..m];
      i := OverlayKeyOrigin(d, init, k);
      assert init[i] == lines[i];
    }
  }

  lemma {:induction false} OverlayKeyFromLine(d: map<string, string>, lines: seq<string>, i: nat, k: string)
    requires i < |lines| && SetsKey(lines[i], k)
    ensures k in Overlay(d, lines)
  {
    var m := |lines| - 1;
    if i < m {
      var init := lines[..m];
      assert init[i] == lines[i];
      OverlayKeyFromLine(d, init, i, k);
      OverlayStep(d, lines, k);
    } else {
      OverlayKeyFromLastLine(d, lines, k);
    }
  }

  lemma OverlayKeyFromLastLine(d: map<string, string>, lines: seq<string>, k: string)
    requires lines != [] && SetsKey(lines[|lines| - 1], k)
    ensures k in Overlay(d, lines)
  {
    OverlayStep(d, lines, k);
  }

  lemma {:induction false} OverlayKeepsSeedKeys(d: map<string, string>, lines: seq<string>, k: string)
    requires k in d
    ensures k in Overlay(d, lines)
  {
    if lines != [] {
      OverlayStep(d, lines, k);
      OverlayKeepsSeedKeys(d, lines[..|lines| - 1], k);
    }
  }

  /** The last line that sets a key decides its class: a later line wins
      over an earlier one. */
  lemma {:induction false} OverlayLastLineWins(d: map<string, string>, lines: seq<string>, i: nat, k: string, v: string)
    requires i < |lines| && LineEntry(lines[i]) == Some((k, v))
    requires forall j :: i < j < |lines| ==> !SetsKey(lines[j], k)
    ensures k in Overlay(d, lines) && Overlay(d, lines)[k] == v
  {
    var init := lines[..|lines| - 1];
    if i < |lines| - 1 {
      assert init[i] == lines[i];
      assert forall j :: i < j < |init| ==> init[j] == lines[j];
      OverlayLastLineWins(d, init, i, k, v);
      assert !SetsKey(lines[|lines| - 1], k);
    }
  }

  /** A key no line sets keeps its base entry, or stays absent. */
  lemma {:induction false} OverlayUntouched(d: map<string, string>, lines: seq<string>, k: string)
    requires forall j :: 0 <= j < |lines| ==> !SetsKey(lines[j], k)
    ensures k in Overlay(d, lines) <==> k in d
    ensures k in d ==> Overlay(d, lines)[k] == d[k]
  {
    if lines != [] {
      var init := lines[..|lines| - 1];
      assert forall j :: 0 <= j < |init| ==> init[j] == lines[j];
      OverlayUntouched(d, init, k);
      assert !SetsKey(lines[|lines| - 1], k);
    }
  }

  /** A line `word,class` (newline included) contributes `word -> class`. */
  lemma LineEntryOfPair(word: string, wordClass: string)
    requires word != [] && !IsSpace(word[0]) && Avoids(word, {','})
    requires wordClass != [] && !IsSpace(wordClass[|wordClass| - 1]) && Avoids(wordClass, {','})
    ensures LineEntry(word + "," + wordClass + "\n") == Some((word, wordClass))
  {
    var t := word + "," + wordClass;
    var line := t + "\n";
    assert line[..|line| - 1] == t;
    assert StripRight(line) == StripRight(t);
    assert StripLeft(line) == line;
    assert Strip(line) == t;
    assert t == word + [','] + wordClass;
    SplitOnAtSeparator(word, ',', wordClass, {','});
    SplitOnAvoiding(word, {','});
    SplitOnAvoiding(wordClass, {','});
  }

  /** A line whose stripped text has no comma has a single field and is
      ignored. */
  lemma LineWithoutCommaIgnored(line: string)
    requires Avoids(Strip(line), {','})
    ensures LineEntry(line) == None
  {
    SplitOnAvoiding(Strip(line), {','});
  }

  // ---------------------------------------------------------------------
  // Sentences

  lemma {:induction false} StrippedNonBlankAppend(p: seq<string>, q: seq<string>, seps: set<char>)
    requires forall i :: 0 <= i < |p| ==> Avoids(p[i], seps)
    requires forall i :: 0 <= i < |q| ==> Avoids(q[i], seps)
    ensures StrippedNonBlank(p + q, seps) == StrippedNonBlank(p, seps) + StrippedNonBlank(q, seps)
  {
    if q == [] {
      assert p + q == p;
    } else {
      var q' := q[..|q| - 1];
      assert (p + q)[..|p + q| - 1] == p + q';
      StrippedNonBlankAppend(p, q', seps);
    }
  }

  /** Cutting at a sentence-ending character: the sentences of the two
      sides, in order. */
  lemma SplitSentencesAtEnd(a: string, c: char, b: string)
    requires c in SentenceEnds
    ensures SplitSentences(a + [c] + b) == SplitSentences(a) + SplitSentences(b)
  {
    SplitOnAtSeparator(a, c, b, SentenceEnds);
    StrippedNonBlankAppend(SplitOn(a, SentenceEnds), SplitOn(b, SentenceEnds), SentenceEnds);
  }

  /** A text without sentence-ending characters is one sentence, stripped,
      or none when it is blank. */
  lemma SplitSentencesOfOnePiece(s: string)
    requires Avoids(s, SentenceEnds)
    ensures SplitSentences(s) == if Strip(s) == [] then [] else [Strip(s)]
  {
    SplitOnAvoiding(s, SentenceEnds);
    assert [s][..0] == [];
    assert StrippedNonBlank([], SentenceEnds) == [];
    assert [] + [Strip(s)] == [Strip(s)];
  }

  // ---------------------------------------------------------------------
  // Word rules

  /** Every hit comes from a rule that matches the word. */
  lemma {:induction false} RuleHitsSound(rules: seq<WordRule>, isWordChar: char -> bool, w: string, n: nat)
    requires n < |RuleHits(rules, isWordChar, w)|
    ensures exists k :: (0 <= k < |rules| && MatchesWord(rules[k], isWordChar, w)
      && RuleHits(rules, isWordChar, w)[n] == Finding(Spelling, rules[k].message, w))
  {
    var init := rules[..|rules| - 1];
    if n < |RuleHits(init, isWordChar, w)| {
      RuleHitsSound(init, isWordChar, w, n);
      var k :| 0 <= k < |init| && MatchesWord(init[k], isWordChar, w)
        && RuleHits(init, isWordChar, w)[n] == Finding(Spelling, init[k].message, w);
      assert rules[k] == init[k];
    } else {
      var k := |rules| - 1;
      assert MatchesWord(rules[k], isWordChar, w);
      assert RuleHits(rules, isWordChar, w)[n] == Finding(Spelling, rules[k].message, w);
    }
  }

  /** Every rule that matches the word yields a hit: there is no early
      exit. */
  lemma {:induction false} RuleHitsComplete(rules: seq<WordRule>, isWordChar: char -> bool, w: string, k: nat)
    requires k < |rules| && MatchesWord(rules[k], isWordChar, w)
    ensures Finding(Spelling, rules[k].message, w) in RuleHits(rules, isWordChar, w)
  {
    var init := rules[..|rules| - 1];
    if k < |rules| - 1 {
      assert init[k] == rules[k];
      RuleHitsComplete(init, isWordChar, w, k);
    }
  }

  /** With distinct messages, a rule's finding is emitted for a word exactly
      when the rule matches it. */
  lemma RuleHitsExact(rules: seq<WordRule>, isWordChar: char -> bool, w: string, k: nat)
    requires k < |rules| && DistinctMessages(rules)
    ensures Finding(Spelling, rules[k].message, w) in RuleHits(rules, isWordChar, w)
      <==> MatchesWord(rules[k], isWordChar, w)
  {
    var hits := RuleHits(rules, isWordChar, w);
    if MatchesWord(rules[k], isWordChar, w) {
      RuleHitsComplete(rules, isWordChar, w, k);
    } else if Finding(Spelling, rules[k].message, w) in hits {
      var n :| 0 <= n < |hits| && hits[n] == Finding(Spelling, rules[k].message, w);
      RuleHitsSound(rules, isWordChar, w, n);
      assert false;
    }
  }

  lemma DeclaredMessagesDistinct()
    ensures DistinctMessages(DeclaredRules.spellingPatterns)
    ensures DistinctMessages(DeclaredRules.wordSpacing)
    ensures DistinctAgreementMessages(DeclaredRules.subjectVerbAgreement)
  {
  }

  /** With the declared tables, an `Unknown word: w` finding is emitted for
      `w` exactly when `w` is not a dictionary key and holds no digit. */
  lemma UnknownWordExactly(dictionary: map<string, string>, isDigit: char -> bool,
                           isWordChar: char -> bool, w: string)
    ensures Finding(Spelling, UnknownMessage(w), w)
        in WordFindings(dictionary, DeclaredRules, isDigit, isWordChar, w)
      <==> w !in dictionary && !HasDigit(isDigit, w)
  {
    var f := Finding(Spelling, UnknownMessage(w), w);
    var patterns := RuleHits(DeclaredRules.spellingPatterns, isWordChar, w);
    var spacing := RuleHits(DeclaredRules.wordSpacing, isWordChar, w);
    assert UnknownMessage(w)[0] == 'U';
    if f in patterns {
      var n :| 0 <= n < |patterns| && patterns[n] == f;
      RuleHitsSound(DeclaredRules.spellingPatterns, isWordChar, w, n);
      assert false;
    }
    if f in spacing {
      var n :| 0 <= n < |spacing| && spacing[n] == f;
      RuleHitsSound(DeclaredRules.wordSpacing, isWordChar, w, n);
      assert false;
    }
  }

  /** Findings follow token order: the findings of a token sequence are
      those of its first part followed by those of its second. */
  lemma {:induction false} SpellingFindingsAppend(dictionary: map<string, string>, rules: GrammarRules,
                                                  isDigit: char -> bool, isWordChar: char -> bool,
                                                  a: seq<string>, b: seq<string>)
    ensures SpellingFindings(dictionary, rules, isDigit, isWordChar, a + b)
      == SpellingFindings(dictionary, rules, isDigit, isWordChar, a)
         + SpellingFindings(dictionary, rules, isDigit, isWordChar, b)
  {
    if b == [] {
      assert a + b == a;
    } else {
      var b' := b[..|b| - 1];
      var w := b[|b| - 1];
      assert (a + b)[..|a + b| - 1] == a + b';
      assert (a + b)[|a + b| - 1] == w;
      SpellingFindingsAppend(dictionary, rules, isDigit, isWordChar, a, b');
      var fa := SpellingFindings(dictionary, rules, isDigit, isWordChar, a);
      var fb' := SpellingFindings(dictionary, rules, isDigit, isWordChar, b');
      var fw := WordFindings(dictionary, rules, isDigit, isWordChar, w);
      ConcatAssoc3(fa, fb', fw);
    }
  }

  /** A word that begins with `சொல்` draws the pattern finding and, when it
      is not in the seed and holds no digit, the unknown-word finding as
      well. */
  lemma SpellingExample(isDigit: char -> bool, isWordChar: char -> bool)
    requires forall c :: c in "சொல்கிறேன்" ==> !isDigit(c)
    ensures Finding(Spelling, "Possible misspelling of சொல்", "சொல்கிறேன்")
      in WordFindings(Seed, DeclaredRules, isDigit, isWordChar, "சொல்கிறேன்")
    ensures Finding(Spelling, UnknownMessage("சொல்கிறேன்"), "சொல்கிறேன்")
      in WordFindings(Seed, DeclaredRules, isDigit, isWordChar, "சொல்கிறேன்")
  {
    var w := "சொல்கிறேன்";
    assert MatchesWord(DeclaredRules.spellingPatterns[0], isWordChar, w) by {
      assert w[..4] == "சொல்";
    }
    RuleHitsComplete(DeclaredRules.spellingPatterns, isWordChar, w, 0);
    assert !HasDigit(isDigit, w) by {
      forall i | 0 <= i < |w| ensures !isDigit(w[i]) {
        assert w[i] in w;
      }
    }
    assert w !in Seed;
    UnknownWordExactly(Seed, isDigit, isWordChar, w);
  }

  // ---------------------------------------------------------------------
  // Agreement rules

  lemma {:induction false} SentenceFindingsSound(rules: seq<AgreementRule>, s: string, n: nat)
    requires n < |SentenceFindings(rules, s)|
    ensures exists k :: (0 <= k < |rules| && AgreementMatch(rules[k], s)
      && SentenceFindings(rules, s)[n] == Finding(Grammar, rules[k].message, s))
  {
    var init := rules[..|rules| - 1];
    if n < |SentenceFindings(init, s)| {
      SentenceFindingsSound(init, s, n);
      var k :| 0 <= k < |init| && AgreementMatch(init[k], s)
        && SentenceFindings(init, s)[n] == Finding(Grammar, init[k].message, s);
      assert rules[k] == init[k];
    } else {
      var k := |rules| - 1;
      assert AgreementMatch(rules[k], s);
      assert SentenceFindings(rules, s)[n] == Finding(Grammar, rules[k].message, s);
    }
  }

  lemma {:induction false} SentenceFindingsComplete(rules: seq<AgreementRule>, s: string, k: nat)
    requires k < |rules| && AgreementMatch(rules[k], s)
    ensures Finding(Grammar, rules[k].message, s) in SentenceFindings(rules, s)
  {
    var init := rules[..|rules| - 1];
    if k < |rules| - 1 {
      assert init[k] == rules[k];
      SentenceFindingsComplete(init, s, k);
    }
  }

  /** A finding is among those of a sentence sequence exactly when it is
      among those of one of its sentences. */
  lemma {:induction false} GrammarFindingsMember(rules: seq<AgreementRule>, sentences: seq<string>, f: Finding)
    ensures f in GrammarFindings(rules, sentences)
      <==> exists n :: 0 <= n < |sentences| && f in SentenceFindings(rules, sentences[n])
  {
    if f in GrammarFindings(rules, sentences) {
      var n := GrammarFindingsOrigin(rules, sentences, f);
    }
    if exists n :: 0 <= n < |sentences| && f in SentenceFindings(rules, sentences[n]) {
      var n :| 0 <= n < |sentences| && f in SentenceFindings(rules, sentences[n]);
      GrammarFindingsInclude(rules, sentences, n, f);
    }
  }

  lemma {:induction false} GrammarFindingsOrigin(rules: seq<AgreementRule>, sentences: seq<string>, f: Finding)
    returns (n: nat)
    requires f in GrammarFindings(rules, sentences)
    ensures n < |sentences| && f in SentenceFindings(rules, sentences[n])
  {
    var m := |sentences| - 1;
    var init := sentences[..m];
    if f in SentenceFindings(rules, sentences[m]) {
      n := m;
    } else {
      n := GrammarFindingsOrigin(rules, init, f);
      assert init[n] == sentences[n];
    }
  }

  lemma {:induction false} GrammarFindingsInclude(rules: seq<AgreementRule>, sentences: seq<string>, n: nat, f: Finding)
    requires n < |sentences| && f in SentenceFindings(rules, sentences[n])
    ensures f in GrammarFindings(rules, sentences)
  {
    var m := |sentences| - 1;
    var init := sentences[..m];
    var earlier, last := GrammarFindings(rules, init), SentenceFindings(rules, sentences[m]);
    assert GrammarFindings(rules, sentences) == earlier + last;
    if n < m {
      assert init[n] == sentences[n];
      GrammarFindingsInclude(rules, init, n, f);
      assert f in earlier;
    } else {
      assert f in last;
    }
  }

  /** With distinct messages, the finding of agreement rule `k` for
      sentence `s` is emitted exactly when `s` is one of the sentences and
      the rule matches it: one finding per (sentence, matching rule)
      pair. */
  lemma GrammarFindingsExact(rules: seq<AgreementRule>, sentences: seq<string>, k: nat, s: string)
    requires k < |rules| && DistinctAgreementMessages(rules)
    ensures Finding(Grammar, rules[k].message, s) in GrammarFindings(rules, sentences)
      <==> s in sentences && AgreementMatch(rules[k], s)
  {
    var f := Finding(Grammar, rules[k].message, s);
    GrammarFindingsMember(rules, sentences, f);
    if s in sentences && AgreementMatch(rules[k], s) {
      var n :| 0 <= n < |sentences| && sentences[n] == s;
      SentenceFindingsComplete(rules, s, k);
    } else if f in GrammarFindings(rules, sentences) {
      var n :| 0 <= n < |sentences| && f in SentenceFindings(rules, sentences[n]);
      var fs := SentenceFindings(rules, sentences[n]);
      var m :| 0 <= m < |fs| && fs[m] == f;
      SentenceFindingsSound(rules, sentences[n], m);
      assert false;
    }
  }

  /** The findings are sentence-major: those of a sentence sequence are those
      of its first part followed by those of its second. */
  lemma {:induction false} GrammarFindingsAppend(rules: seq<AgreementRule>, a: seq<string>, b: seq<string>)
    ensures GrammarFindings(rules, a + b) == GrammarFindings(rules, a) + GrammarFindings(rules, b)
  {
    if b == [] {
      assert a + b == a;
    } else {
      var b' := b[..|b| - 1];
      var t := b[|b| - 1];
      assert (a + b)[..|a + b| - 1] == a + b';
      assert (a + b)[|a + b| - 1] == t;
      GrammarFindingsAppend(rules, a, b');
      var fa := GrammarFindings(rules, a);
      var fb' := GrammarFindings(rules, b');
      var ft := SentenceFindings(rules, t);
      ConcatAssoc3(fa, fb', ft);
    }
  }

  /** A sentence with an honorific and a singular subject, each followed
      by its verb. */
  const TwoSubjects: string := HonorificHe + " " + GoesFormal + " " + He + " " + GoesInformal
  /** "goes", singular masculine. */
  const GoesInformal: string := "செல்கிறான்"
  /** "he" or "she", honorific singular. */
  const HonorificHe: string := "அவர்"
  /** "goes", honorific. */
  const GoesFormal: string := "செல்கிறார்"

  /** An agreement rule matches any sentence in which its subject is
      followed, across a newline-free gap, by its verb. */
  lemma AgreementMatchOf(rule: AgreementRule, a: string, gap: string, b: string)
    requires '\n' !in gap
    ensures AgreementMatch(rule, a + rule.subject + gap + rule.verb + b)
  {
    var s := a + rule.subject + gap + rule.verb + b;
    var i, j := |a|, |a| + |rule.subject| + |gap|;
    assert s[i..i + |rule.subject|] == rule.subject;
    assert s[j..j + |rule.verb|] == rule.verb;
    assert s[i + |rule.subject|..j] == gap;
    assert OccursAt(s, rule.subject, i) && OccursAt(s, rule.verb, j)
      && '\n' !in s[i + |rule.subject|..j];
  }

  lemma SingularRuleMatchesTwoSubjects()
    ensures AgreementMatch(DeclaredRules.subjectVerbAgreement[0], TwoSubjects)
  {
    var rule := DeclaredRules.subjectVerbAgreement[0];
    assert rule.subject == He && rule.verb == GoesInformal;
    AgreementMatchOf(rule, HonorificHe + " " + GoesFormal + " ", " ", []);
    assert TwoSubjects == HonorificHe + " " + GoesFormal + " " + He + " " + GoesInformal + [];
  }

  lemma HonorificRuleMatchesTwoSubjects()
    ensures AgreementMatch(DeclaredRules.subjectVerbAgreement[4], TwoSubjects)
  {
    var rule := DeclaredRules.subjectVerbAgreement[4];
    assert rule.subject == HonorificHe && rule.verb == GoesFormal;
    AgreementMatchOf(rule, [], " ", " " + He + " " + GoesInformal);
    Regroup(HonorificHe, " ", GoesFormal, " ", He, " ", GoesInformal);
  }

  lemma Regroup(x1: string, x2: string, x3: string, y1: string, y2: string, y3: string, y4: string)
    ensures [] + x1 + x2 + x3 + (y1 + y2 + y3 + y4) == x1 + x2 + x3 + y1 + y2 + y3 + y4
  {
  }

  /** Every matching agreement rule fires, not only the first: a sentence
      with both a singular and an honorific subject draws both findings. */
  lemma AgreementExample()
    ensures Finding(Grammar, "Third person singular with informal verb", TwoSubjects)
      in GrammarFindings(DeclaredRules.subjectVerbAgreement, [TwoSubjects])
    ensures Finding(Grammar, "Honorific subject with formal verb", TwoSubjects)
      in GrammarFindings(DeclaredRules.subjectVerbAgreement, [TwoSubjects])
  {
    SingularRuleMatchesTwoSubjects();
    HonorificRuleMatchesTwoSubjects();
    DeclaredMessagesDistinct();
    GrammarFindingsExact(DeclaredRules.subjectVerbAgreement, [TwoSubjects], 0, TwoSubjects);
    GrammarFindingsExact(DeclaredRules.subjectVerbAgreement, [TwoSubjects], 4, TwoSubjects);
  }
}
