/** The operations on Python `str` values that the checkers use, with
    Python's semantics: `isspace`, `strip()`, `split()`, `split(sep)`,
    `re.split` on a character class, `sep.join(...)`, `str.replace` and the
    `in` operator on strings.  Strings are sequences of code points. */
module Strings {

  /** Python's `str.isspace` on one character: the characters that `strip()`
      and `split()` without arguments treat as whitespace. */
  predicate IsSpace(c: char) {
    || c == ' '
    || ('\t' <= c <= '\r')
    || ('\U{1C}' <= c <= '\U{1F}')
    || c == '\U{85}' || c == '\U{A0}' || c == '\U{1680}'
    || ('\U{2000}' <= c <= '\U{200A}')
    || c == '\U{2028}' || c == '\U{2029}' || c == '\U{202F}'
    || c == '\U{205F}' || c == '\U{3000}'
  }

  /** `w` holds no whitespace character. */
  predicate NoSpace(w: string) {
    forall i :: 0 <= i < |w| ==> !IsSpace(w[i])
  }

  /** `w` holds no character of `seps`. */
  predicate Avoids(w: string, seps: set<char>) {
    forall i :: 0 <= i < |w| ==> w[i] !in seps
  }

  /** `s` is already stripped: it does not begin or end with whitespace. */
  predicate IsStripped(s: string) {
    s == [] || (!IsSpace(s[0]) && !IsSpace(s[|s| - 1]))
  }

  // ---------------------------------------------------------------------
  // strip()

  /** Python's `s.lstrip()`. */
  function StripLeft(s: string): (r: string)
    ensures |r| <= |s|
    ensures r == [] || !IsSpace(r[0])
  {
    if s != [] && IsSpace(s[0]) then StripLeft(s[1..]) else s
  }

  /** Python's `s.rstrip()`. */
  function StripRight(s: string): (r: string)
    ensures |r| <= |s|
    ensures r == [] || !IsSpace(r[|r| - 1])
    ensures r != [] ==> r[0] == s[0]
  {
    if s != [] && IsSpace(s[|s| - 1]) then StripRight(s[..|s| - 1]) else s
  }

  /** Python's `s.strip()`. */
  function Strip(s: string): (r: string)
    ensures IsStripped(r)
    ensures NoSpace(s) ==> r == s
  {
    StripRight(StripLeft(s))
  }

  /** `lstrip` drops a prefix of whitespace and keeps the rest. */
  lemma {:induction false} StripLeftDropsSpace(s: string)
    ensures StripLeft(s) == s[|s| - |StripLeft(s)|..]
    ensures forall i :: 0 <= i < |s| - |StripLeft(s)| ==> IsSpace(s[i])
  {
    if s != [] && IsSpace(s[0]) {
      StripLeftDropsSpace(s[1..]);
    }
  }

  /** `rstrip` drops a suffix of whitespace and keeps the rest. */
  lemma {:induction false} StripRightDropsSpace(s: string)
    ensures StripRight(s) == s[..|StripRight(s)|]
    ensures forall i :: |StripRight(s)| <= i < |s| ==> IsSpace(s[i])
  {
    if s != [] && IsSpace(s[|s| - 1]) {
      StripRightDropsSpace(s[..|s| - 1]);
    }
  }

  /** `strip` keeps one slice of its input, dropping whitespace only. */
  lemma StripIsSlice(s: string)
    ensures |s| - |StripLeft(s)| + |Strip(s)| <= |s|
    ensures Strip(s) == s[|s| - |StripLeft(s)|..|s| - |StripLeft(s)| + |Strip(s)|]
  {
    StripLeftDropsSpace(s);
    StripRightDropsSpace(StripLeft(s));
  }

  /** Stripping a string that avoids `seps` leaves one that avoids `seps`. */
  lemma StripAvoids(s: string, seps: set<char>)
    requires Avoids(s, seps)
    ensures Avoids(Strip(s), seps)
  {
    StripIsSlice(s);
    var r, k := Strip(s), |s| - |StripLeft(s)|;
    assert forall i :: 0 <= i < |r| ==> r[i] == s[k + i];
  }

  // ---------------------------------------------------------------------
  // split() and ' '.join(...)

  /** The longest prefix of `s` without whitespace. */
  function TakeWord(s: string): (w: string)
    ensures |w| <= |s|
    ensures NoSpace(w)
    ensures |w| == |s| || IsSpace(s[|w|])
    ensures s != [] && !IsSpace(s[0]) ==> w != []
  {
    if s == [] || IsSpace(s[0]) then [] else [s[0]] + TakeWord(s[1..])
  }

  /** Python's `s.split()` with no argument: the maximal runs of
      non-whitespace characters, in order. */
  function Words(s: string): (ws: seq<string>)
    ensures forall i :: 0 <= i < |ws| ==> ws[i] != [] && NoSpace(ws[i])
    decreases |s|
  {
    var t := StripLeft(s);
    if t == [] then []
    else
      var w := TakeWord(t);
      var rest := Words(t[|w|..]);
      assert forall i :: 1 <= i < |[w] + rest| ==> ([w] + rest)[i] == rest[i - 1];
      [w] + rest
  }

  /** Python's `sep.join(parts)`. */
  function Join(parts: seq<string>, sep: string): string {
    if parts == [] then []
    else if |parts| == 1 then parts[0]
    else parts[0] + sep + Join(parts[1..], sep)
  }

  lemma JoinConsHead(c: char, first: string, rest: seq<string>, sep: string)
    ensures Join([[c] + first] + rest, sep) == [c] + Join([first] + rest, sep)
  {
    if rest != [] {
      assert ([[c] + first] + rest)[1..] == rest;
      assert ([first] + rest)[1..] == rest;
    }
  }

  lemma TakeWordOfJoin(w: string, rest: string)
    requires NoSpace(w)
    ensures TakeWord(w + " " + rest) == w
  {
    if w != [] {
      assert (w + " " + rest)[1..] == w[1..] + " " + rest;
      TakeWordOfJoin(w[1..], rest);
    }
  }

  /** Splitting on whitespace undoes joining with single spaces, as long as
      every part is a non-empty word. */
  lemma {:induction false} WordsOfJoin(parts: seq<string>)
    requires forall i :: 0 <= i < |parts| ==> parts[i] != [] && NoSpace(parts[i])
    ensures Words(Join(parts, " ")) == parts
  {
    if parts == [] {
    } else if |parts| == 1 {
      WordsOfWord(parts[0]);
    } else {
      WordsOfJoin(parts[1..]);
      WordsOfSpaced(parts[0], Join(parts[1..], " "));
      assert parts == [parts[0]] + parts[1..];
    }
  }

  lemma WordsOfWord(w: string)
    requires w != [] && NoSpace(w)
    ensures Words(w) == [w]
  {
    assert StripLeft(w) == w;
    TakeWordAll(w);
    assert w[|w|..] == [];
  }

  /** A leading word and one space are split off as the first word. */
  lemma WordsOfSpaced(w: string, rest: string)
    requires w != [] && NoSpace(w)
    ensures Words(w + " " + rest) == [w] + Words(rest)
  {
    var s := w + " " + rest;
    assert StripLeft(s) == s;
    TakeWordOfJoin(w, rest);
    assert s[|w|..] == " " + rest;
    assert StripLeft(" " + rest) == StripLeft(rest) by {
      assert (" " + rest)[1..] == rest;
    }
    assert Words(" " + rest) == Words(rest);
  }

  lemma TakeWordAll(w: string)
    requires NoSpace(w)
    ensures TakeWord(w) == w
  {
    if w != [] {
      TakeWordAll(w[1..]);
    }
  }

  // ---------------------------------------------------------------------
  // split(sep) and re.split('[...]', s)

  /** Python's `re.split` on a character class `seps` (and `s.split(c)` when
      `seps == {c}`): the pieces between separator characters, empty pieces
      included, in order. */
  function SplitOn(s: string, seps: set<char>): (parts: seq<string>)
    ensures |parts| >= 1
    ensures forall i :: 0 <= i < |parts| ==> Avoids(parts[i], seps)
  {
    if s == [] then [[]]
    else
      var rest := SplitOn(s[1..], seps);
      if s[0] in seps then [[]] + rest
      else [[s[0]] + rest[0]] + rest[1..]
  }

  /** The number of characters of `s` that belong to `seps`. */
  function CountIn(s: string, seps: set<char>): nat {
    if s == [] then 0 else (if s[0] in seps then 1 else 0) + CountIn(s[1..], seps)
  }

  /** There is one piece more than there are separators. */
  lemma {:induction false} SplitOnCount(s: string, seps: set<char>)
    ensures |SplitOn(s, seps)| == CountIn(s, seps) + 1
  {
    if s != [] {
      SplitOnCount(s[1..], seps);
    }
  }

  /** Joining the pieces of `s.split(c)` with `c` gives back `s`. */
  lemma {:induction false} JoinSplitOn(s: string, c: char)
    ensures Join(SplitOn(s, {c}), [c]) == s
  {
    if s != [] {
      var rest := SplitOn(s[1..], {c});
      JoinSplitOn(s[1..], c);
      if s[0] == c {
        assert Join([[]] + rest, [c]) == [] + [c] + Join(rest, [c]);
      } else {
        assert rest == [rest[0]] + rest[1..];
        JoinConsHead(s[0], rest[0], rest[1..], [c]);
      }
    }
  }

  /** A piece without separators splits into itself. */
  lemma {:induction false} SplitOnAvoiding(s: string, seps: set<char>)
    requires Avoids(s, seps)
    ensures SplitOn(s, seps) == [s]
  {
    if s != [] {
      SplitOnAvoiding(s[1..], seps);
      assert [s[0]] + s[1..] == s;
    }
  }

  /** Splitting at a separator character splits the pieces of both sides. */
  lemma {:induction false} SplitOnAtSeparator(a: string, c: char, b: string, seps: set<char>)
    requires c in seps
    ensures SplitOn(a + [c] + b, seps) == SplitOn(a, seps) + SplitOn(b, seps)
  {
    if a == [] {
      assert a + [c] + b == [c] + b;
      SplitOnCons(c, b, seps);
      assert SplitOn(a, seps) == [[]];
    } else {
      var tail := a[1..];
      SplitOnAtSeparator(tail, c, b, seps);
      SplitOnAtSeparatorStep(a[0], tail, c, b, seps);
      assert [a[0]] + tail == a;
      assert [a[0]] + (tail + [c] + b) == a + [c] + b;
    }
  }

  lemma SplitOnAtSeparatorStep(x: char, tail: string, c: char, b: string, seps: set<char>)
    requires SplitOn(tail + [c] + b, seps) == SplitOn(tail, seps) + SplitOn(b, seps)
    ensures SplitOn([x] + (tail + [c] + b), seps) == SplitOn([x] + tail, seps) + SplitOn(b, seps)
  {
    SplitOnCons(x, tail + [c] + b, seps);
    SplitOnCons(x, tail, seps);
    PieceConsAssoc(x in seps, x, SplitOn(tail, seps), SplitOn(b, seps));
  }

  /** The sequence algebra of one step of `SplitOn` over a concatenation. */
  lemma PieceConsAssoc(cut: bool, x: char, ra: seq<string>, rb: seq<string>)
    requires |ra| >= 1
    ensures (if cut then [[]] + (ra + rb) else [[x] + (ra + rb)[0]] + (ra + rb)[1..])
      == (if cut then [[]] + ra else [[x] + ra[0]] + ra[1..]) + rb
  {
    if !cut {
      assert (ra + rb)[0] == ra[0];
      assert (ra + rb)[1..] == ra[1..] + rb;
    }
  }

  lemma SplitOnCons(x: char, t: string, seps: set<char>)
    ensures SplitOn([x] + t, seps) == if x in seps then [[]] + SplitOn(t, seps)
      else [[x] + SplitOn(t, seps)[0]] + SplitOn(t, seps)[1..]
  {
    assert ([x] + t)[0] == x && ([x] + t)[1..] == t;
  }

  // ---------------------------------------------------------------------
  // substrings: `in`, s.split(pat), s.replace(pat, rep)

  /** `sub` occurs in `s` starting at index `i`. */
  predicate OccursAt(s: string, sub: string, i: int) {
    0 <= i && i + |sub| <= |s| && s[i..i + |sub|] == sub
  }

  /** Python's `sub in s`. */
  predicate Contains(s: string, sub: string) {
    exists i | 0 <= i <= |s| - |sub| :: OccursAt(s, sub, i)
  }

  /** `s` begins with `p` (the test `re.match` makes for a literal pattern). */
  predicate StartsWith(s: string, p: string) {
    |p| <= |s| && s[..|p|] == p
  }

  lemma ContainsInLeft(a: string, b: string, sub: string)
    requires Contains(a, sub)
    ensures Contains(a + b, sub)
  {
    var i :| 0 <= i <= |a| - |sub| && OccursAt(a, sub, i);
    assert (a + b)[i..i + |sub|] == a[i..i + |sub|];
    assert OccursAt(a + b, sub, i);
  }

  lemma ContainsInRight(a: string, b: string, sub: string)
    requires Contains(b, sub)
    ensures Contains(a + b, sub)
  {
    var i :| 0 <= i <= |b| - |sub| && OccursAt(b, sub, i);
    assert (a + b)[|a| + i..|a| + i + |sub|] == b[i..i + |sub|];
    assert OccursAt(a + b, sub, |a| + i);
  }

  /** Python's `s.split(pat)` for a non-empty `pat`: the pieces between the
      leftmost non-overlapping occurrences of `pat`. */
  function SplitStr(s: string, pat: string): (parts: seq<string>)
    requires pat != []
    ensures |parts| >= 1
    decreases |s|
  {
    if |s| < |pat| then [s]
    else if s[..|pat|] == pat then [[]] + SplitStr(s[|pat|..], pat)
    else
      var rest := SplitStr(s[1..], pat);
      [[s[0]] + rest[0]] + rest[1..]
  }

  /** Python's `s.replace(pat, rep)` (and `re.sub` with a literal pattern)
      for a non-empty `pat`: each leftmost non-overlapping occurrence of
      `pat`, scanning from the left, becomes `rep`. */
  function ReplaceAll(s: string, pat: string, rep: string): string
    requires pat != []
    decreases |s|
  {
    if |s| < |pat| then s
    else if s[..|pat|] == pat then rep + ReplaceAll(s[|pat|..], pat, rep)
    else [s[0]] + ReplaceAll(s[1..], pat, rep)
  }

  lemma {:induction false} SplitStrFirstIsPrefix(s: string, pat: string)
    requires pat != []
    ensures StartsWith(s, SplitStr(s, pat)[0])
    decreases |s|
  {
    if |s| >= |pat| && s[..|pat|] != pat {
      SplitStrFirstIsPrefix(s[1..], pat);
    }
  }

  /** The pieces of `s.split(pat)`, joined with `pat`, give back `s`. */
  lemma {:induction false} JoinSplitStr(s: string, pat: string)
    requires pat != []
    ensures Join(SplitStr(s, pat), pat) == s
    decreases |s|
  {
    if |s| < |pat| {
    } else if s[..|pat|] == pat {
      JoinSplitStr(s[|pat|..], pat);
      JoinEmptyHead(SplitStr(s[|pat|..], pat), pat);
      assert s == pat + s[|pat|..];
    } else {
      JoinSplitStr(s[1..], pat);
      JoinFirstPieceCons(s[0], SplitStr(s[1..], pat), pat);
      assert s == [s[0]] + s[1..];
    }
  }

  /** An empty first piece contributes only its separator. */
  lemma JoinEmptyHead(pieces: seq<string>, sep: string)
    requires pieces != []
    ensures Join([[]] + pieces, sep) == sep + Join(pieces, sep)
  {
    assert ([[]] + pieces)[1..] == pieces;
  }

  /** Growing the first piece by one character grows the join by it. */
  lemma JoinFirstPieceCons(c: char, pieces: seq<string>, sep: string)
    requires pieces != []
    ensures Join([[c] + pieces[0]] + pieces[1..], sep) == [c] + Join(pieces, sep)
  {
    assert pieces == [pieces[0]] + pieces[1..];
    JoinConsHead(c, pieces[0], pieces[1..], sep);
  }

  /** No piece of `s.split(pat)` contains `pat`: the cuts are made at every
      occurrence that the left-to-right scan meets. */
  lemma {:induction false} SplitStrPiecesFree(s: string, pat: string)
    requires pat != []
    ensures forall i :: 0 <= i < |SplitStr(s, pat)| ==> !Contains(SplitStr(s, pat)[i], pat)
    decreases |s|
  {
    var parts := SplitStr(s, pat);
    if |s| < |pat| {
    } else if s[..|pat|] == pat {
      SplitStrPiecesFree(s[|pat|..], pat);
      assert forall i :: 1 <= i < |parts| ==> parts[i] == SplitStr(s[|pat|..], pat)[i - 1];
    } else {
      var rest := SplitStr(s[1..], pat);
      SplitStrPiecesFree(s[1..], pat);
      FirstPieceFree(s, pat);
      assert forall i :: 1 <= i < |parts| ==> parts[i] == rest[i];
    }
  }

  /** The first piece, when `s` does not begin with `pat`, holds no `pat`. */
  lemma FirstPieceFree(s: string, pat: string)
    requires pat != [] && |s| >= |pat| && s[..|pat|] != pat
    requires !Contains(SplitStr(s[1..], pat)[0], pat)
    ensures !Contains([s[0]] + SplitStr(s[1..], pat)[0], pat)
  {
    var first := SplitStr(s[1..], pat)[0];
    SplitStrFirstIsPrefix(s[1..], pat);
    var p := [s[0]] + first;
    ConsPrefix(s, first);
    if |pat| <= |p| {
      assert p[..|pat|] == s[..|p|][..|pat|] == s[..|pat|];
    }
    NoOccurrenceAfterHead(s[0], first, pat);
  }

  lemma ConsPrefix(s: string, first: string)
    requires s != [] && StartsWith(s[1..], first)
    ensures [s[0]] + first == s[..|first| + 1]
  {
    var n := |first|;
    assert s[1..][..n] == s[1..n + 1];
    assert s[..n + 1] == [s[0]] + s[1..n + 1];
  }

  /** Python's identity `s.replace(pat, rep) == rep.join(s.split(pat))`:
      `rep` stands exactly where `pat` was cut out. */
  lemma {:induction false} ReplaceAllIsJoinOfSplit(s: string, pat: string, rep: string)
    requires pat != []
    ensures ReplaceAll(s, pat, rep) == Join(SplitStr(s, pat), rep)
    decreases |s|
  {
    if |s| < |pat| {
    } else if s[..|pat|] == pat {
      ReplaceAllIsJoinOfSplit(s[|pat|..], pat, rep);
      JoinEmptyHead(SplitStr(s[|pat|..], pat), rep);
    } else {
      ReplaceAllIsJoinOfSplit(s[1..], pat, rep);
      JoinFirstPieceCons(s[0], SplitStr(s[1..], pat), rep);
    }
  }

  /** An occurrence at the head is replaced and the scan resumes after it. */
  lemma ReplaceAllAtHead(pat: string, t: string, rep: string)
    requires pat != []
    ensures ReplaceAll(pat + t, pat, rep) == rep + ReplaceAll(t, pat, rep)
  {
    assert (pat + t)[..|pat|] == pat;
    assert (pat + t)[|pat|..] == t;
  }

  /** A string without the first character of `pat` holds no occurrence
      of `pat`. */
  lemma FirstCharAbsent(s: string, pat: string)
    requires pat != [] && forall i :: 0 <= i < |s| ==> s[i] != pat[0]
    ensures !Contains(s, pat)
  {
    forall i | 0 <= i <= |s| - |pat| ensures !OccursAt(s, pat, i) {
      assert s[i..i + |pat|][0] == s[i] != pat[0];
    }
  }

  /** A string without `pat` is left as it is. */
  lemma {:induction false} ReplaceAllAbsent(s: string, pat: string, rep: string)
    requires pat != [] && !Contains(s, pat)
    ensures ReplaceAll(s, pat, rep) == s
    decreases |s|
  {
    if |s| >= |pat| {
      assert !OccursAt(s, pat, 0);
      AbsentFromTail(s, pat);
      ReplaceAllAbsent(s[1..], pat, rep);
      assert ReplaceAll(s, pat, rep) == [s[0]] + s[1..];
    }
  }

  lemma AbsentFromTail(s: string, pat: string)
    requires s != [] && !Contains(s, pat)
    ensures !Contains(s[1..], pat)
  {
    forall i | 0 <= i <= |s[1..]| - |pat|
      ensures !OccursAt(s[1..], pat, i)
    {
      assert !OccursAt(s, pat, i + 1);
      assert s[1..][i..i + |pat|] == s[i + 1..i + 1 + |pat|];
    }
  }

  /** Characters in front of the first occurrence are copied unchanged. */
  lemma {:induction false} ReplaceAllSkip(p: string, s: string, pat: string, rep: string)
    requires pat != []
    requires forall i :: 0 <= i < |p| ==> !OccursAt(p + s, pat, i)
    ensures ReplaceAll(p + s, pat, rep) == p + ReplaceAll(s, pat, rep)
    decreases |p|
  {
    if p == [] {
      assert p + s == s;
    } else {
      var ps := p + s;
      assert ps[1..] == p[1..] + s;
      forall i | 0 <= i < |p[1..]|
        ensures !OccursAt(p[1..] + s, pat, i)
      {
        assert !OccursAt(ps, pat, i + 1);
        if i + |pat| <= |p[1..] + s| {
          assert (p[1..] + s)[i..i + |pat|] == ps[i + 1..i + 1 + |pat|];
        }
      }
      ReplaceAllSkip(p[1..], s, pat, rep);
      assert ps == [p[0]] + (p[1..] + s);
      ReplaceAllCopiesHead(p[0], p[1..] + s, pat, rep);
      assert p == [p[0]] + p[1..];
    }
  }

  /** A first character that does not start an occurrence is copied. */
  lemma ReplaceAllCopiesHead(x: char, t: string, pat: string, rep: string)
    requires pat != [] && !OccursAt([x] + t, pat, 0)
    ensures ReplaceAll([x] + t, pat, rep) == [x] + ReplaceAll(t, pat, rep)
  {
    var u := [x] + t;
    assert u[1..] == t;
    if |u| < |pat| {
      assert ReplaceAll(t, pat, rep) == t;
    }
  }

  /** A prefix of the result that holds no copy of `pat[0]` was copied from
      the input unchanged, whenever `rep` begins with `pat[0]`. */
  lemma {:induction false} ReplaceAllCopiedPrefix(t: string, pat: string, rep: string, k: nat)
    requires pat != [] && rep != [] && rep[0] == pat[0]
    requires k <= |ReplaceAll(t, pat, rep)|
    requires forall i :: 0 <= i < k ==> ReplaceAll(t, pat, rep)[i] != pat[0]
    ensures k <= |t| && ReplaceAll(t, pat, rep)[..k] == t[..k]
    decreases |t|
  {
    if |t| < |pat| {
    } else if t[..|pat|] == pat {
      assert ReplaceAll(t, pat, rep)[0] == pat[0];
      assert k == 0;
    } else if k > 0 {
      var r, r' := ReplaceAll(t, pat, rep), ReplaceAll(t[1..], pat, rep);
      assert r == [t[0]] + r';
      assert forall i :: 0 <= i < k - 1 ==> r'[i] == r[i + 1];
      ReplaceAllCopiedPrefix(t[1..], pat, rep, k - 1);
    }
  }

  /** The conditions under which a replacement leaves no occurrence of
      `pat` behind: `pat` and `rep` both begin with a character that occurs
      nowhere else in either, `rep` is at least as long as `pat` and does
      not begin with `pat`. */
  predicate SelfClearing(pat: string, rep: string) {
    && pat != [] && |rep| >= |pat| && rep[0] == pat[0]
    && (forall i :: 1 <= i < |pat| ==> pat[i] != pat[0])
    && (forall i :: 1 <= i < |rep| ==> rep[i] != pat[0])
    && rep[..|pat|] != pat
  }

  lemma NoOccurrenceAfterRep(r': string, pat: string, rep: string)
    requires SelfClearing(pat, rep) && !Contains(r', pat)
    ensures !Contains(rep + r', pat)
  {
    var r := rep + r';
    forall i | 0 <= i <= |r| - |pat| && OccursAt(r, pat, i)
      ensures false
    {
      if i >= |rep| {
        assert r'[i - |rep|..i - |rep| + |pat|] == r[i..i + |pat|];
        assert OccursAt(r', pat, i - |rep|);
      }
    }
  }

  lemma NoOccurrenceAfterCopy(s: string, pat: string, rep: string)
    requires SelfClearing(pat, rep) && |s| >= |pat| && s[..|pat|] != pat
    requires !Contains(ReplaceAll(s[1..], pat, rep), pat)
    ensures !Contains([s[0]] + ReplaceAll(s[1..], pat, rep), pat)
  {
    CopiedHeadNoOccurrence(s, pat, rep);
    NoOccurrenceAfterHead(s[0], ReplaceAll(s[1..], pat, rep), pat);
  }

  lemma NoOccurrenceAfterHead(x: char, r': string, pat: string)
    requires !Contains(r', pat) && !OccursAt([x] + r', pat, 0)
    ensures !Contains([x] + r', pat)
  {
    var r := [x] + r';
    forall i | 1 <= i <= |r| - |pat| ensures !OccursAt(r, pat, i) {
      assert r[i..i + |pat|] == r'[i - 1..i - 1 + |pat|];
      assert !OccursAt(r', pat, i - 1);
    }
  }

  /** The copied first character does not start an occurrence: the `|pat| - 1`
      characters after it hold no `pat[0]`, so they were copied too. */
  lemma CopiedHeadNoOccurrence(s: string, pat: string, rep: string)
    requires SelfClearing(pat, rep) && |s| >= |pat| && s[..|pat|] != pat
    ensures !OccursAt([s[0]] + ReplaceAll(s[1..], pat, rep), pat, 0)
  {
    var t := s[1..];
    var r' := ReplaceAll(t, pat, rep);
    var r := [s[0]] + r';
    if OccursAt(r, pat, 0) {
      var k := |pat| - 1;
      forall j | 0 <= j < k ensures r'[j] != pat[0] {
        assert r'[j] == r[j + 1] == pat[j + 1];
      }
      ReplaceAllCopiedPrefix(t, pat, rep, k);
      assert false;
    }
  }

  /** After replacing with a self-clearing pair no occurrence of `pat` is
      left anywhere in the result. */
  lemma {:induction false} ReplaceAllRemovesAll(s: string, pat: string, rep: string)
    requires SelfClearing(pat, rep)
    ensures !Contains(ReplaceAll(s, pat, rep), pat)
    decreases |s|
  {
    if |s| < |pat| {
    } else if s[..|pat|] == pat {
      ReplaceAllRemovesAll(s[|pat|..], pat, rep);
      NoOccurrenceAfterRep(ReplaceAll(s[|pat|..], pat, rep), pat, rep);
    } else {
      ReplaceAllRemovesAll(s[1..], pat, rep);
      NoOccurrenceAfterCopy(s, pat, rep);
    }
  }
}
