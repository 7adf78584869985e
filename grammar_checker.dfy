/** The stand-alone grammar checker: the text is cut at every `.`, each
    piece goes through a subject-verb agreement fix and a word-order fix,
    and the pieces are joined again with `". "`. */
module GrammarChecker {
  import opened Strings
  import opened TamilWords

  /** "book". */
  const Book: string := "புத்தகம்"
  /** "that" (demonstrative). */
  const That: string := "அந்த"
  /** "book that": the demonstrative placed after its noun. */
  const MisplacedThat: string := "புத்தகம் அந்த"
  /** "that book". */
  const ThatBook: string := "அந்த புத்தகம்"

  lemma MisplacedThatIsBookSpaceThat()
    ensures MisplacedThat == Book + " " + That
    ensures ThatBook == That + " " + Book
  {
  }

  /** Replacing the singular verb with the plural one leaves no singular
      verb behind. */
  lemma VerbReplacementSelfClearing()
    ensures SelfClearing(SingularVerb, PluralVerb)
  {
    assert PluralVerb[..|SingularVerb|][7] != SingularVerb[7];
  }

  /** `check_subject_verb_agreement`: in a sentence that has the plural
      subject and the singular verb, every singular verb becomes the plural
      one; any other sentence is returned as it is. */
  function CheckSubjectVerbAgreement(sentence: string): (r: string)
    ensures !Contains(sentence, PluralSubject) || !Contains(sentence, SingularVerb) ==> r == sentence
    ensures Contains(sentence, PluralSubject) ==> !Contains(r, SingularVerb)
  {
    if Contains(sentence, PluralSubject) && Contains(sentence, SingularVerb) then
      VerbReplacementSelfClearing();
      ReplaceAllRemovesAll(sentence, SingularVerb, PluralVerb);
      ReplaceAll(sentence, SingularVerb, PluralVerb)
    else
      sentence
  }

  /** A sentence that contains `புத்தகம் அந்த` contains both words, so the
      guard of `check_word_order` never blocks a replacement. */
  lemma MisplacedThatHasBothWords(s: string)
    requires Contains(s, MisplacedThat)
    ensures Contains(s, Book) && Contains(s, That)
  {
    MisplacedThatIsBookSpaceThat();
    var i :| 0 <= i <= |s| - |MisplacedThat| && OccursAt(s, MisplacedThat, i);
    assert s[i..i + |Book|] == MisplacedThat[..|Book|] == Book;
    var j := i + |Book| + 1;
    assert s[j..j + |That|] == MisplacedThat[|Book| + 1..] == That;
    assert OccursAt(s, Book, i) && OccursAt(s, That, j);
  }

  lemma WithoutBothWordsNoMisplacedThat(s: string)
    requires !Contains(s, Book) || !Contains(s, That)
    ensures !Contains(s, MisplacedThat)
  {
    if Contains(s, MisplacedThat) {
      MisplacedThatHasBothWords(s);
    }
  }

  /** `check_word_order`: every `புத்தகம் அந்த` becomes `அந்த புத்தகம்`,
      scanning from the left; the guard on both words changes nothing. */
  function CheckWordOrder(sentence: string): (r: string)
    ensures r == ReplaceAll(sentence, MisplacedThat, ThatBook)
  {
    if Contains(sentence, Book) && Contains(sentence, That) then
      ReplaceAll(sentence, MisplacedThat, ThatBook)
    else
      WithoutBothWordsNoMisplacedThat(sentence);
      ReplaceAllAbsent(sentence, MisplacedThat, ThatBook);
      sentence
  }

  /** One sentence, agreement fix first, then word order. */
  function CheckSentence(sentence: string): string {
    CheckWordOrder(CheckSubjectVerbAgreement(sentence))
  }

  /** The checked pieces, one per piece and in the same order. */
  function CheckedSentences(pieces: seq<string>): (r: seq<string>)
    ensures |r| == |pieces|
  {
    if pieces == [] then []
    else CheckedSentences(pieces[..|pieces| - 1]) + [CheckSentence(pieces[|pieces| - 1])]
  }

  /** `grammar_check`. */
  method GrammarCheck(text: string) returns (checked: string)
    ensures checked == Join(CheckedSentences(SplitOn(text, {'.'})), ". ")
  {
    var sentences := SplitOn(text, {'.'});
    var checkedText: seq<string> := [];
    for n := 0 to |sentences|
      invariant checkedText == CheckedSentences(sentences[..n])
    {
      assert sentences[..n + 1][..n] == sentences[..n];
      checkedText := checkedText + [CheckSentence(sentences[n])];
    }
    assert sentences[..|sentences|] == sentences;
    checked := Join(checkedText, ". ");
  }

  // ---------------------------------------------------------------------
  // Properties

  /** Piece `i` of the result is piece `i` of the text, checked. */
  lemma {:induction false} CheckedSentencesPointwise(pieces: seq<string>, i: nat)
    requires i < |pieces|
    ensures CheckedSentences(pieces)[i] == CheckSentence(pieces[i])
  {
    var init := pieces[..|pieces| - 1];
    if i < |init| {
      CheckedSentencesPointwise(init, i);
      assert init[i] == pieces[i];
    }
  }

  /** Pieces the fixes leave alone come back as they were. */
  lemma CheckedSentencesUnchanged(pieces: seq<string>)
    requires forall i :: 0 <= i < |pieces| ==> CheckSentence(pieces[i]) == pieces[i]
    ensures CheckedSentences(pieces) == pieces
  {
    var r := CheckedSentences(pieces);
    forall i | 0 <= i < |pieces| ensures r[i] == pieces[i] {
      CheckedSentencesPointwise(pieces, i);
    }
    SameElements(r, pieces);
  }

  lemma SameElements(a: seq<string>, b: seq<string>)
    requires |a| == |b| && forall i :: 0 <= i < |a| ==> a[i] == b[i]
    ensures a == b
  {
  }

  /** A text without `.` is one piece: the result is that piece checked. */
  lemma GrammarCheckOfOneSentence(text: string)
    requires Avoids(text, {'.'})
    ensures Join(CheckedSentences(SplitOn(text, {'.'})), ". ") == CheckSentence(text)
  {
    SplitOnAvoiding(text, {'.'});
  }

  /** The pieces are the text split at every `.`: one more than there are
      dots, each preserved in order. */
  lemma GrammarCheckPieces(text: string)
    ensures |CheckedSentences(SplitOn(text, {'.'}))| == CountIn(text, {'.'}) + 1
    ensures Join(SplitOn(text, {'.'}), ".") == text
  {
    SplitOnCount(text, {'.'});
    JoinSplitOn(text, '.');
  }

  /** Splitting on a one-character string is splitting on that character. */
  lemma {:induction false} SplitStrOfChar(s: string, c: char)
    ensures SplitStr(s, [c]) == SplitOn(s, {c})
    decreases |s|
  {
    if s != [] {
      SplitStrOfChar(s[1..], c);
      assert s[..1] == [s[0]];
    }
  }

  lemma {:induction false} ContainsInJoin(parts: seq<string>, sep: string, i: nat, sub: string)
    requires i < |parts| && Contains(parts[i], sub)
    ensures Contains(Join(parts, sep), sub)
  {
    if |parts| > 1 {
      if i == 0 {
        ContainsInLeft(parts[0], sep + Join(parts[1..], sep), sub);
        assert parts[0] + sep + Join(parts[1..], sep) == parts[0] + (sep + Join(parts[1..], sep));
      } else {
        ContainsInJoin(parts[1..], sep, i - 1, sub);
        ContainsInRight(parts[0] + sep, Join(parts[1..], sep), sub);
      }
    }
  }

  /** A text in which no `.`-piece holds both agreement words, and which
      does not contain `புத்தகம் அந்த`, is only re-spaced: every `.`
      becomes `". "`. */
  lemma GrammarCheckWithoutTriggers(text: string)
    requires forall i :: 0 <= i < |SplitOn(text, {'.'})| ==>
      !(Contains(SplitOn(text, {'.'})[i], PluralSubject) && Contains(SplitOn(text, {'.'})[i], SingularVerb))
    requires !Contains(text, MisplacedThat)
    ensures Join(CheckedSentences(SplitOn(text, {'.'})), ". ") == ReplaceAll(text, ".", ". ")
  {
    var pieces := SplitOn(text, {'.'});
    JoinSplitOn(text, '.');
    forall i | 0 <= i < |pieces| ensures CheckSentence(pieces[i]) == pieces[i] {
      if Contains(pieces[i], MisplacedThat) {
        ContainsInJoin(pieces, ".", i, MisplacedThat);
      }
      ReplaceAllAbsent(pieces[i], MisplacedThat, ThatBook);
    }
    CheckedSentencesUnchanged(pieces);
    SplitStrOfChar(text, '.');
    ReplaceAllIsJoinOfSplit(text, ".", ". ");
  }

  /** The example of `check_word_order`'s own comment. */
  lemma WordOrderExample()
    ensures CheckWordOrder("புத்தகம் அந்த") == "அந்த புத்தகம்"
  {
    assert ReplaceAll(MisplacedThat, MisplacedThat, ThatBook)
      == ThatBook + ReplaceAll([], MisplacedThat, ThatBook);
  }

  /** The example of `check_subject_verb_agreement`'s own comment:
      `அவர்கள் வருகிறான்` becomes `அவர்கள் வருகிறார்கள்`. */
  lemma AgreementExample()
    ensures CheckSubjectVerbAgreement(PluralSubject + " " + SingularVerb) == PluralSubject + " " + PluralVerb
  {
    var p := PluralSubject + " ";
    var s := p + SingularVerb;
    assert OccursAt(s, PluralSubject, 0);
    assert OccursAt(s, SingularVerb, |p|);
    forall i | 0 <= i < |p| ensures !OccursAt(p + SingularVerb, SingularVerb, i) {
      if i == 1 {
        assert s[1 + 2] != SingularVerb[2];
      } else {
        assert s[i] != SingularVerb[0];
      }
    }
    ReplaceAllSkip(p, SingularVerb, SingularVerb, PluralVerb);
    ReplaceAllAtHead(SingularVerb, [], PluralVerb);
    assert SingularVerb + [] == SingularVerb;
  }

  lemma SkipLeadingBook()
    ensures ReplaceAll(Book + " " + (MisplacedThat + " " + That), MisplacedThat, ThatBook)
      == Book + " " + ReplaceAll(MisplacedThat + " " + That, MisplacedThat, ThatBook)
  {
    var p := Book + " ";
    var t := MisplacedThat + " " + That;
    var s := p + t;
    forall i | 0 <= i < |p| ensures !OccursAt(p + t, MisplacedThat, i) {
      if i == 0 {
        assert s[9] != MisplacedThat[9];
      } else {
        assert s[i] != MisplacedThat[0];
      }
    }
    ReplaceAllSkip(p, t, MisplacedThat, ThatBook);
  }

  lemma ReplaceLeadingPair()
    ensures ReplaceAll(MisplacedThat + " " + That, MisplacedThat, ThatBook) == ThatBook + " " + That
  {
    var t := MisplacedThat + " " + That;
    assert t[..|MisplacedThat|] == MisplacedThat;
    assert t[|MisplacedThat|..] == " " + That;
  }

  /** `check_word_order` makes one left-to-right pass: in "book book-that
      that" the swap puts a new `புத்தகம் அந்த` in front, which stays. */
  lemma WordOrderSinglePass()
    ensures Contains(CheckWordOrder(Book + " " + (MisplacedThat + " " + That)), MisplacedThat)
  {
    SkipLeadingBook();
    ReplaceLeadingPair();
    var r := Book + " " + (ThatBook + " " + That);
    assert r[..|MisplacedThat|] == MisplacedThat;
    assert OccursAt(r, MisplacedThat, 0);
  }

  /** What the text does not contain, none of its `.`-pieces contains. */
  lemma PiecesWithout(text: string, sub: string)
    requires !Contains(text, sub)
    ensures forall i :: 0 <= i < |SplitOn(text, {'.'})| ==> !Contains(SplitOn(text, {'.'})[i], sub)
  {
    var pieces := SplitOn(text, {'.'});
    JoinSplitOn(text, '.');
    forall i | 0 <= i < |pieces| ensures !Contains(pieces[i], sub) {
      if Contains(pieces[i], sub) {
        ContainsInJoin(pieces, ".", i, sub);
      }
    }
  }

  /** A small instance: the dot of `a.b` gains a following space. */
  lemma GrammarCheckSpacesDots()
    ensures Join(CheckedSentences(SplitOn("a" + "." + "b", {'.'})), ". ") == "a" + ". " + "b"
  {
    var a, b := "a", "b";
    assert !Contains(a + "." + b, PluralSubject);
    PiecesWithout(a + "." + b, PluralSubject);
    GrammarCheckWithoutTriggers(a + "." + b);
    assert a + "." + b == a + ("." + b);
    ReplaceAllCopiesHead('a', "." + b, ".", ". ");
    assert "." + b == "." + b;
    ReplaceAllAtHead(".", b, ". ");
    assert ReplaceAll(b, ".", ". ") == b;
  }
}
