/** The subject lookup rewriter: the first whitespace-separated word of the
    sentence that is a subject of the table decides the rewrite, and every
    occurrence of that word in the sentence, wherever it stands, becomes
    the verb the table pairs with it. */
module LstmApproach {
  import opened Wrappers
  import opened Strings
  import opened TamilWords

  /** The two-entry table of `check_subject_verb`. */
  const SubjectRules: map<string, string> := map[
    "அவர்கள்" := "வருகிறார்கள்",
    "அவன்" := "வருகிறான்"]

  /** The first of `words` that is a key of `rules`. */
  function FirstKey(words: seq<string>, rules: map<string, string>): (r: Option<string>)
    ensures r.None? <==> forall i :: 0 <= i < |words| ==> words[i] !in rules
    ensures r.Some? ==> r.value in rules && exists i :: (0 <= i < |words| && words[i] == r.value
      && forall j :: 0 <= j < i ==> words[j] !in rules)
  {
    if words == [] then None
    else if words[0] in rules then Some(words[0])
    else
      var r := FirstKey(words[1..], rules);
      FirstKeyShift(words, rules, r);
      r
  }

  /** What `FirstKey` promises for the words after a non-key first word
      holds for all the words. */
  lemma FirstKeyShift(words: seq<string>, rules: map<string, string>, r: Option<string>)
    requires words != [] && words[0] !in rules
    requires r.None? <==> forall i :: 0 <= i < |words[1..]| ==> words[1..][i] !in rules
    requires r.Some? ==> r.value in rules && exists i :: (0 <= i < |words[1..]| && words[1..][i] == r.value
      && forall j :: 0 <= j < i ==> words[1..][j] !in rules)
    ensures r.None? <==> forall i :: 0 <= i < |words| ==> words[i] !in rules
    ensures r.Some? ==> r.value in rules && exists i :: (0 <= i < |words| && words[i] == r.value
      && forall j :: 0 <= j < i ==> words[j] !in rules)
  {
    var tail := words[1..];
    assert forall i :: 1 <= i < |words| ==> words[i] == tail[i - 1];
    if r.Some? {
      var k :| 0 <= k < |tail| && tail[k] == r.value && forall j :: 0 <= j < k ==> tail[j] !in rules;
      assert words[k + 1] == r.value;
      assert forall j :: 0 <= j < k + 1 ==> words[j] !in rules;
    }
  }

  /** `check_subject_verb`: a sentence none of whose words is a subject
      comes back unchanged; otherwise the sentence is cut at every
      occurrence of its first subject word and rejoined with that
      subject's verb. */
  function CheckSubjectVerb(sentence: string): (r: string)
    ensures (forall i :: 0 <= i < |Words(sentence)| ==> Words(sentence)[i] !in SubjectRules) ==> r == sentence
    ensures forall i ::
      (0 <= i < |Words(sentence)| && Words(sentence)[i] in SubjectRules
       && forall j :: 0 <= j < i ==> Words(sentence)[j] !in SubjectRules)
      ==> r == Join(SplitStr(sentence, Words(sentence)[i]), SubjectRules[Words(sentence)[i]])
  {
    var words := Words(sentence);
    match FirstKey(words, SubjectRules)
    case None => sentence
    case Some(key) =>
      FirstKeyIsFirstSubject(words, SubjectRules);
      ReplaceAllIsJoinOfSplit(sentence, key, SubjectRules[key]);
      ReplaceAll(sentence, key, SubjectRules[key])
  }

  /** Whatever word is the first key of `words` is what `FirstKey` finds. */
  lemma FirstKeyIsFirstSubject(words: seq<string>, rules: map<string, string>)
    ensures forall i ::
      (0 <= i < |words| && words[i] in rules && forall j :: 0 <= j < i ==> words[j] !in rules)
      ==> FirstKey(words, rules) == Some(words[i])
  {
    forall i | 0 <= i < |words| && words[i] in rules && (forall j :: 0 <= j < i ==> words[j] !in rules)
      ensures FirstKey(words, rules) == Some(words[i])
    {
      FirstKeyDecides(words, rules, i);
    }
  }

  // ---------------------------------------------------------------------
  // Properties

  /** A sentence none of whose words is a subject is returned unchanged. */
  lemma NoSubjectUnchanged(sentence: string)
    requires forall i :: 0 <= i < |Words(sentence)| ==> Words(sentence)[i] !in SubjectRules
    ensures CheckSubjectVerb(sentence) == sentence
  {
  }

  /** Only the first subject in sentence order decides: with no subject
      before word `i` and a subject at `i`, later subjects play no part. */
  lemma {:induction false} FirstKeyDecides(words: seq<string>, rules: map<string, string>, i: nat)
    requires i < |words| && words[i] in rules
    requires forall j :: 0 <= j < i ==> words[j] !in rules
    ensures FirstKey(words, rules) == Some(words[i])
  {
    if i > 0 {
      assert forall j :: 0 <= j < i - 1 ==> words[1..][j] == words[j + 1];
      FirstKeyDecides(words[1..], rules, i - 1);
    }
  }

  /** The rewrite is a replacement over the whole sentence, not over its
      words: the sentence is cut at every occurrence of the subject (inside
      another word too) and the pieces rejoined with the verb. */
  lemma RewriteIsSplitAndJoin(sentence: string)
    requires FirstKey(Words(sentence), SubjectRules).Some?
    ensures var key := FirstKey(Words(sentence), SubjectRules).value;
      key != [] && CheckSubjectVerb(sentence) == Join(SplitStr(sentence, key), SubjectRules[key])
  {
    var key := FirstKey(Words(sentence), SubjectRules).value;
    ReplaceAllIsJoinOfSplit(sentence, key, SubjectRules[key]);
  }

  /** Leading whitespace survives: the words are looked up but never
      rejoined. */
  lemma LeadingSpaceKept(space: string, rest: string)
    requires forall i :: 0 <= i < |space| ==> IsSpace(space[i])
    requires FirstKey(Words(space + rest), SubjectRules).Some?
    ensures var key := FirstKey(Words(space + rest), SubjectRules).value;
      CheckSubjectVerb(space + rest) == space + ReplaceAll(rest, key, SubjectRules[key])
  {
    var key := FirstKey(Words(space + rest), SubjectRules).value;
    assert !IsSpace(key[0]) by {
      assert key == "அவர்கள்" || key == "அவன்";
    }
    forall i | 0 <= i < |space| ensures !OccursAt(space + rest, key, i) {
      assert (space + rest)[i] == space[i];
    }
    ReplaceAllSkip(space, rest, key, SubjectRules[key]);
  }

  lemma WordsOfExample()
    ensures Words(PluralSubject + " " + SingularVerb) == [PluralSubject, SingularVerb]
  {
    assert NoSpace(PluralSubject) && NoSpace(SingularVerb);
    WordsOfJoin([PluralSubject, SingularVerb]);
    assert Join([PluralSubject, SingularVerb], " ") == PluralSubject + " " + SingularVerb;
  }

  lemma ReplaceOfExample()
    ensures ReplaceAll(PluralSubject + " " + SingularVerb, PluralSubject, PluralVerb) == PluralVerb + " " + SingularVerb
  {
    var t := " " + SingularVerb;
    assert PluralSubject + " " + SingularVerb == PluralSubject + t;
    ReplaceAllAtHead(PluralSubject, t, PluralVerb);
    VerbUntouched();
  }

  lemma VerbUntouched()
    ensures ReplaceAll(" " + SingularVerb, PluralSubject, PluralVerb) == " " + SingularVerb
  {
    FirstCharAbsent(" " + SingularVerb, PluralSubject);
    ReplaceAllAbsent(" " + SingularVerb, PluralSubject, PluralVerb);
  }

  /** The sentence of `test_cases.py:13`: `அவர்கள் வருகிறான்` becomes
      `வருகிறார்கள் வருகிறான்`; the subject is rewritten, the verb left. */
  lemma RewriteExample()
    ensures CheckSubjectVerb(PluralSubject + " " + SingularVerb) == PluralVerb + " " + SingularVerb
  {
    WordsOfExample();
    FirstKeyDecides([PluralSubject, SingularVerb], SubjectRules, 0);
    assert SubjectRules[PluralSubject] == PluralVerb;
    ReplaceOfExample();
  }

  /** "only": `அவன்தான்` is "he alone", one word that begins with `அவன்`. */
  const Only: string := "தான்"

  /** `pat pat…rest` with `rest` free of `pat`: both occurrences are
      replaced, the one that starts the second word included. */
  lemma ReplaceBothHeads(pat: string, rest: string, rep: string)
    requires pat != [] && pat[0] != ' ' && !Contains(rest, pat)
    ensures ReplaceAll(pat + " " + (pat + rest), pat, rep) == rep + " " + (rep + rest)
  {
    var t := " " + (pat + rest);
    assert pat + " " + (pat + rest) == pat + t;
    ReplaceAllAtHead(pat, t, rep);
    assert !OccursAt(t, pat, 0) by {
      assert t[0] != pat[0];
    }
    ReplaceAllSkip(" ", pat + rest, pat, rep);
    ReplaceAllAtHead(pat, rest, rep);
    ReplaceAllAbsent(rest, pat, rep);
    assert rep + (" " + (rep + rest)) == rep + " " + (rep + rest);
  }

  lemma InsideWordReplaced()
    ensures ReplaceAll(He + " " + (He + Only), He, SubjectRules[He])
      == SubjectRules[He] + " " + (SubjectRules[He] + Only)
  {
    FirstCharAbsent(Only, He);
    assert He[0] != ' ';
    ReplaceBothHeads(He, Only, SubjectRules[He]);
  }

  /** The rewrite reaches inside other words: the second `அவன்` of
      `அவன் அவன்தான்` is not a word of the sentence, yet it is replaced too. */
  lemma InsideWordExample()
    ensures CheckSubjectVerb(He + " " + (He + Only)) == SubjectRules[He] + " " + (SubjectRules[He] + Only)
  {
    assert NoSpace(He) && NoSpace(He + Only);
    WordsOfJoin([He, He + Only]);
    assert Join([He, He + Only], " ") == He + " " + (He + Only);
    FirstKeyDecides([He, He + Only], SubjectRules, 0);
    InsideWordReplaced();
  }
}
