/** The edit-distance spell corrector: every whitespace-separated word that
    is not in the dictionary is replaced by the dictionary word nearest to
    it in Levenshtein distance, the earliest one on a tie. The dictionary is
    a parameter, listed in its iteration order. */
module SpellChecker {
  import opened Strings

  /** `is_tamil_word`. */
  predicate IsTamilWord(dictionary: seq<string>, word: string) {
    word in dictionary
  }

  function Min3(x: nat, y: nat, z: nat): nat {
    if x <= y && x <= z then x else if y <= z then y else z
  }

  /** Unit-cost edit distance (insertion, deletion, substitution) over code
      points. */
  function Levenshtein(a: string, b: string): nat
    decreases |a| + |b|
  {
    if a == [] then |b|
    else if b == [] then |a|
    else Min3(Levenshtein(a[1..], b) + 1,
              Levenshtein(a, b[1..]) + 1,
              Levenshtein(a[1..], b[1..]) + (if a[0] == b[0] then 0 else 1))
  }

  lemma {:induction false} LevenshteinSelf(a: string)
    ensures Levenshtein(a, a) == 0
  {
    if a != [] {
      LevenshteinSelf(a[1..]);
    }
  }

  /** Distance zero only between equal strings. */
  lemma {:induction false} LevenshteinZeroIsEqual(a: string, b: string)
    requires Levenshtein(a, b) == 0
    ensures a == b
    decreases |a| + |b|
  {
    if a != [] && b != [] {
      LevenshteinZeroIsEqual(a[1..], b[1..]);
      assert a == [a[0]] + a[1..] && b == [b[0]] + b[1..];
    }
  }

  function Max(x: nat, y: nat): nat {
    if x < y then y else x
  }

  /** The distance is at least the difference of the lengths and at most
      the longer length. */
  lemma {:induction false} LevenshteinBounds(a: string, b: string)
    ensures Levenshtein(a, b) <= Max(|a|, |b|)
    ensures |a| - |b| <= Levenshtein(a, b) && |b| - |a| <= Levenshtein(a, b)
    decreases |a| + |b|
  {
    if a != [] && b != [] {
      LevenshteinBounds(a[1..], b);
      LevenshteinBounds(a, b[1..]);
      LevenshteinBounds(a[1..], b[1..]);
    }
  }

  lemma {:induction false} LevenshteinSymmetric(a: string, b: string)
    ensures Levenshtein(a, b) == Levenshtein(b, a)
    decreases |a| + |b|
  {
    if a != [] && b != [] {
      LevenshteinSymmetric(a[1..], b);
      LevenshteinSymmetric(a, b[1..]);
      LevenshteinSymmetric(a[1..], b[1..]);
    }
  }

  /** The position that the stable sort on distance puts first: a word at
      minimal distance, the earliest of those. */
  function ClosestIndex(word: string, dictionary: seq<string>): (k: nat)
    requires dictionary != []
    ensures k < |dictionary|
    ensures forall j :: 0 <= j < |dictionary| ==>
      Levenshtein(word, dictionary[k]) <= Levenshtein(word, dictionary[j])
    ensures forall j :: 0 <= j < k ==>
      Levenshtein(word, dictionary[k]) < Levenshtein(word, dictionary[j])
  {
    if |dictionary| == 1 then 0
    else
      var init := dictionary[..|dictionary| - 1];
      var k := ClosestIndex(word, init);
      assert forall j :: 0 <= j < |init| ==> init[j] == dictionary[j];
      if Levenshtein(word, dictionary[|dictionary| - 1]) < Levenshtein(word, dictionary[k])
      then |dictionary| - 1
      else k
  }

  /** `suggest_correction`: the word itself for an empty dictionary,
      otherwise the earliest dictionary word at minimal distance. */
  function SuggestCorrection(dictionary: seq<string>, word: string): (s: string)
    ensures dictionary == [] ==> s == word
    ensures dictionary != [] ==> s in dictionary
    ensures forall j :: 0 <= j < |dictionary| ==> Levenshtein(word, s) <= Levenshtein(word, dictionary[j])
    ensures dictionary != [] ==> exists k :: (0 <= k < |dictionary| && dictionary[k] == s
      && forall j :: 0 <= j < k ==> Levenshtein(word, s) < Levenshtein(word, dictionary[j]))
  {
    if dictionary == [] then word
    else dictionary[ClosestIndex(word, dictionary)]
  }

  /** A dictionary word is its own suggestion. */
  lemma SuggestionOfDictionaryWord(dictionary: seq<string>, word: string)
    requires word in dictionary
    ensures SuggestCorrection(dictionary, word) == word
  {
    var s := SuggestCorrection(dictionary, word);
    var i :| 0 <= i < |dictionary| && dictionary[i] == word;
    LevenshteinSelf(word);
    assert Levenshtein(word, s) <= Levenshtein(word, dictionary[i]);
    LevenshteinZeroIsEqual(word, s);
  }

  /** One word of the output: kept when known, replaced otherwise. */
  function Corrected(dictionary: seq<string>, word: string): string {
    if !IsTamilWord(dictionary, word) then SuggestCorrection(dictionary, word) else word
  }

  /** The output words, one per input word and in the same order. */
  function CorrectedWords(dictionary: seq<string>, words: seq<string>): (r: seq<string>)
    ensures |r| == |words|
  {
    if words == [] then []
    else CorrectedWords(dictionary, words[..|words| - 1]) + [Corrected(dictionary, words[|words| - 1])]
  }

  lemma {:induction false} CorrectedWordsPointwise(dictionary: seq<string>, words: seq<string>, i: nat)
    requires i < |words|
    ensures CorrectedWords(dictionary, words)[i] == Corrected(dictionary, words[i])
  {
    var init := words[..|words| - 1];
    if i < |init| {
      CorrectedWordsPointwise(dictionary, init, i);
      assert init[i] == words[i];
    }
  }

  /** `spell_checker`. */
  method SpellCheck(dictionary: seq<string>, text: string) returns (corrected: string)
    ensures corrected == Join(CorrectedWords(dictionary, Words(text)), " ")
  {
    var words := Words(text);
    var correctedText: seq<string> := [];
    for n := 0 to |words|
      invariant correctedText == CorrectedWords(dictionary, words[..n])
    {
      assert words[..n + 1][..n] == words[..n];
      if !IsTamilWord(dictionary, words[n]) {
        correctedText := correctedText + [SuggestCorrection(dictionary, words[n])];
      } else {
        correctedText := correctedText + [words[n]];
      }
    }
    assert words[..|words|] == words;
    corrected := Join(correctedText, " ");
  }

  // ---------------------------------------------------------------------
  // Properties

  /** Word `i` of the output is word `i` of the input when that word is in
      the dictionary, and otherwise the earliest dictionary word at minimal
      distance from it (the word itself for an empty dictionary). */
  lemma CorrectedWordIsKeptOrNearest(dictionary: seq<string>, words: seq<string>, i: nat)
    requires i < |words|
    ensures words[i] in dictionary ==> CorrectedWords(dictionary, words)[i] == words[i]
    ensures words[i] !in dictionary && dictionary == [] ==> CorrectedWords(dictionary, words)[i] == words[i]
    ensures words[i] !in dictionary && dictionary != [] ==>
      CorrectedWords(dictionary, words)[i] in dictionary
      && forall j :: 0 <= j < |dictionary| ==>
           Levenshtein(words[i], CorrectedWords(dictionary, words)[i]) <= Levenshtein(words[i], dictionary[j])
  {
    CorrectedWordsPointwise(dictionary, words, i);
  }

  /** With a dictionary of non-empty words without whitespace, splitting
      the output on whitespace gives exactly the corrected words: one per
      input word, in order, and the output is single-spaced. */
  lemma SpellCheckWords(dictionary: seq<string>, text: string)
    requires forall j :: 0 <= j < |dictionary| ==> dictionary[j] != [] && NoSpace(dictionary[j])
    ensures Words(Join(CorrectedWords(dictionary, Words(text)), " ")) == CorrectedWords(dictionary, Words(text))
  {
    var words := Words(text);
    var out := CorrectedWords(dictionary, words);
    forall i | 0 <= i < |out| ensures out[i] != [] && NoSpace(out[i]) {
      CorrectedWordsPointwise(dictionary, words, i);
    }
    WordsOfJoin(out);
  }

  /** A text whose every word is in the dictionary comes back with its words
      unchanged, rejoined by single spaces. */
  lemma SpellCheckOfKnownWords(dictionary: seq<string>, text: string)
    requires forall i :: 0 <= i < |Words(text)| ==> Words(text)[i] in dictionary
    ensures Join(CorrectedWords(dictionary, Words(text)), " ") == Join(Words(text), " ")
  {
    var words := Words(text);
    forall i | 0 <= i < |words| ensures CorrectedWords(dictionary, words)[i] == words[i] {
      CorrectedWordsPointwise(dictionary, words, i);
    }
    assert CorrectedWords(dictionary, words) == words;
  }
}
