/**
  The address pattern of main.py, `[a-zA-Z0-9._%+-]+@[a-zA-Z0-9.-]+\.[a-zA-Z]{2,}`,
  and the search Python's `re.search` performs with it.

  Two descriptions are given and proved equal:
  - declarative: `Matches(s, i, j)` says `s[i..j]` is in the language of the
    pattern; the result of a search is the leftmost start, and at that start
    the longest end (`IsSearchResult`);
  - executable: `MatchAt` does what the backtracking engine does at one start
    (greedy local part, then the domain given back one character at a time
    until a `.` followed by two letters is found, then every following letter),
    and `SearchFrom` tries the starts from left to right.
*/
module EmailPattern {
  import opened Wrappers

  /** The three bracket expressions of the pattern. */
  datatype CharClass = LocalPart | DomainPart | Letter

  predicate IsAsciiLetter(c: char) {
    'a' <= c <= 'z' || 'A' <= c <= 'Z'
  }

  predicate IsAsciiDigit(c: char) {
    '0' <= c <= '9'
  }

  predicate InClass(c: char, cls: CharClass) {
    match cls
    case LocalPart =>
      IsAsciiLetter(c) || IsAsciiDigit(c) || c == '.' || c == '_' || c == '%' || c == '+' || c == '-'
    case DomainPart =>
      IsAsciiLetter(c) || IsAsciiDigit(c) || c == '.' || c == '-'
    case Letter =>
      IsAsciiLetter(c)
  }

  /** Every character of `s[lo..hi]` belongs to `cls`. */
  predicate AllIn(s: string, lo: int, hi: int, cls: CharClass)
    requires 0 <= lo && hi <= |s|
  {
    forall m :: lo <= m < hi ==> InClass(s[m], cls)
  }

  // ---------------------------------------------------------------------
  // Declarative description
  // ---------------------------------------------------------------------

  /** `s[i..j]` matches the pattern with the `@` at `a` and the `\.` at `d`. */
  ghost predicate SplitAt(s: string, i: int, a: int, d: int, j: int) {
    && 0 <= i < a
    && a + 1 < d
    && d + 3 <= j <= |s|
    && AllIn(s, i, a, LocalPart)
    && s[a] == '@'
    && AllIn(s, a + 1, d, DomainPart)
    && s[d] == '.'
    && AllIn(s, d + 1, j, Letter)
  }

  /** `s[i..j]` is in the language of the pattern. */
  ghost predicate Matches(s: string, i: int, j: int) {
    exists a, d :: SplitAt(s, i, a, d, j)
  }

  /** A whole string that is in the language of the pattern. */
  ghost predicate IsEmailAddress(w: string) {
    Matches(w, 0, |w|)
  }

  /** No match of the pattern starts before position `i`. */
  ghost predicate NoMatchBefore(s: string, i: int) {
    forall i', j' :: i' < i ==> !Matches(s, i', j')
  }

  /** `s[i..j]` matches and no longer match starts at `i`. */
  ghost predicate IsLongestAt(s: string, i: int, j: int) {
    Matches(s, i, j) && forall j' :: j < j' ==> !Matches(s, i, j')
  }

  /** The match `re.search` reports: leftmost start, longest end there. */
  ghost predicate IsSearchResult(s: string, i: int, j: int) {
    IsLongestAt(s, i, j) && NoMatchBefore(s, i)
  }

  ghost predicate NoMatch(s: string) {
    forall i, j :: !Matches(s, i, j)
  }

  // ---------------------------------------------------------------------
  // Executable scanner
  // ---------------------------------------------------------------------

  /** End of the maximal run of `cls` characters starting at `k`. */
  function RunEnd(s: string, k: nat, cls: CharClass): (e: nat)
    requires k <= |s|
    ensures k <= e <= |s|
    ensures AllIn(s, k, e, cls)
    ensures e < |s| ==> !InClass(s[e], cls)
    decreases |s| - k
  {
    if k == |s| || !InClass(s[k], cls) then k else RunEnd(s, k + 1, cls)
  }

  /** A `.` at `x` followed by at least two ASCII letters. */
  predicate IsTldDot(s: string, x: int) {
    0 <= x && x + 2 < |s| && s[x] == '.' && IsAsciiLetter(s[x + 1]) && IsAsciiLetter(s[x + 2])
  }

  /**
    The backtracking of the domain run: the positions `hi - 1, hi - 2, ..., lo`
    are tried in turn as the place of `\.`; the first that is followed by two
    letters wins.
  */
  function LastTldDot(s: string, lo: nat, hi: nat): (r: Option<nat>)
    ensures r.Some? ==> lo <= r.value < hi && IsTldDot(s, r.value)
    ensures r.Some? ==> forall y :: r.value < y < hi ==> !IsTldDot(s, y)
    ensures r.None? ==> forall y :: lo <= y < hi ==> !IsTldDot(s, y)
    decreases hi
  {
    if hi <= lo then None
    else if IsTldDot(s, hi - 1) then Some(hi - 1)
    else LastTldDot(s, lo, hi - 1)
  }

  /** The end of the match the engine finds when it starts at `i`, if any. */
  function MatchAt(s: string, i: nat): (r: Option<nat>)
    ensures r.Some? ==> i + 6 <= r.value <= |s|
  {
    if i >= |s| || !InClass(s[i], LocalPart) then None
    else
      var a := RunEnd(s, i, LocalPart);
      if a == |s| || s[a] != '@' then None
      else
        var e := RunEnd(s, a + 1, DomainPart);
        match LastTldDot(s, a + 2, e)
        case None => None
        case Some(d) =>
          assert IsAsciiLetter(s[d + 1]) && IsAsciiLetter(s[d + 2]);
          Some(RunEnd(s, d + 1, Letter))
  }

  /** `re.search` from position `i` on: the first start whose attempt succeeds. */
  function SearchFrom(s: string, i: nat): (r: Option<(nat, nat)>)
    ensures r.Some? ==> i <= r.value.0 && r.value.0 + 6 <= r.value.1 <= |s|
    decreases |s| - i
  {
    if i >= |s| then None
    else
      match MatchAt(s, i)
      case Some(j) => Some((i, j))
      case None => SearchFrom(s, i + 1)
  }

  function Search(s: string): (r: Option<(nat, nat)>)
    ensures r.Some? ==> r.value.0 + 6 <= r.value.1 <= |s|
  {
    SearchFrom(s, 0)
  }

  /** `re.search(EMAIL_REGEX, text)` followed by `match.group(0)`: a piece of the text. */
  function FindEmail(text: string): (r: Option<string>)
    ensures r.Some? ==> |r.value| >= 6 && exists i, j :: 0 <= i <= j <= |text| && text[i..j] == r.value
  {
    match Search(text)
    case None => None
    case Some((i, j)) => Some(text[i..j])
  }

  // ---------------------------------------------------------------------
  // The scanner agrees with the declarative description
  // ---------------------------------------------------------------------

  /** In any match starting at `i`, the `@` is where the local-part run ends. */
  lemma AtSignEndsLocalRun(s: string, i: nat, a: int, d: int, j: int)
    requires SplitAt(s, i, a, d, j)
    ensures a == RunEnd(s, i, LocalPart)
  {
  }

  /**
    In any match with its `@` at `a`, the `\.` is a candidate the backtracking
    tries, and the match ends inside the domain run.
  */
  lemma DotInsideDomainRun(s: string, i: nat, a: nat, d: int, j: int)
    requires SplitAt(s, i, a, d, j)
    ensures IsTldDot(s, d)
    ensures a + 2 <= d < j <= RunEnd(s, a + 1, DomainPart)
  {
  }

  /** No match starting at `i` ends after the end `MatchAt` reports. */
  lemma NoLongerMatch(s: string, i: nat, a': int, d': int, j': int)
    requires MatchAt(s, i).Some?
    requires SplitAt(s, i, a', d', j')
    ensures j' <= MatchAt(s, i).value
  {
    AtSignEndsLocalRun(s, i, a', d', j');
    DotInsideDomainRun(s, i, a', d', j');
    var e := RunEnd(s, a' + 1, DomainPart);
    var d := LastTldDot(s, a' + 2, e).value;
    assert !InClass(s[d], Letter);
  }

  lemma {:induction false} MatchAtCorrect(s: string, i: nat)
    ensures MatchAt(s, i).Some? ==> IsLongestAt(s, i, MatchAt(s, i).value)
    ensures MatchAt(s, i).None? ==> forall j :: !Matches(s, i, j)
  {
    match MatchAt(s, i)
    case Some(j) =>
      var a := RunEnd(s, i, LocalPart);
      var e := RunEnd(s, a + 1, DomainPart);
      var d := LastTldDot(s, a + 2, e).value;
      assert j == RunEnd(s, d + 1, Letter);
      assert SplitAt(s, i, a, d, j);
      forall j' | j < j'
        ensures !Matches(s, i, j')
      {
        if Matches(s, i, j') {
          var a', d' :| SplitAt(s, i, a', d', j');
          NoLongerMatch(s, i, a', d', j');
        }
      }
    case None =>
      forall j
        ensures !Matches(s, i, j)
      {
        if Matches(s, i, j) {
          var a', d' :| SplitAt(s, i, a', d', j);
          assert InClass(s[i], LocalPart);
          AtSignEndsLocalRun(s, i, a', d', j);
          DotInsideDomainRun(s, i, a', d', j);
          assert false;
        }
      }
  }

  lemma {:induction false} SearchFromCorrect(s: string, from: nat)
    ensures SearchFrom(s, from).Some? ==>
      var (i, j) := SearchFrom(s, from).value;
      IsLongestAt(s, i, j) && forall i', j' :: from <= i' < i ==> !Matches(s, i', j')
    ensures SearchFrom(s, from).None? ==> forall i', j' :: from <= i' ==> !Matches(s, i', j')
    decreases |s| - from
  {
    if from < |s| {
      MatchAtCorrect(s, from);
      if MatchAt(s, from).None? {
        SearchFromCorrect(s, from + 1);
      }
    }
  }

  /** No match starts before 0. */
  lemma NoMatchBeforeStart(s: string)
    ensures NoMatchBefore(s, 0)
  {
  }

  /**
    The scanner finds exactly the leftmost-longest match, and finds nothing
    exactly when the text holds no match at all.
  */
  lemma SearchCorrect(s: string)
    ensures Search(s).None? <==> NoMatch(s)
    ensures Search(s).Some? ==> IsSearchResult(s, Search(s).value.0, Search(s).value.1)
    ensures forall i, j :: IsSearchResult(s, i, j) ==> Search(s) == Some((i, j))
  {
    SearchFromCorrect(s, 0);
    NoMatchBeforeStart(s);
    if Search(s).Some? {
      var (i0, j0) := Search(s).value;
      assert !NoMatch(s) by {
        assert Matches(s, i0, j0);
      }
      forall i, j | IsSearchResult(s, i, j)
        ensures Search(s) == Some((i, j))
      {
      }
    } else {
      forall i, j
        ensures !Matches(s, i, j)
      {
        if i < 0 {
          assert NoMatchBefore(s, 0);
        }
      }
    }
  }

  /** A match inside a text is, on its own, an address of the pattern's shape. */
  lemma MatchIsEmailAddress(s: string, i: int, j: int)
    requires Matches(s, i, j)
    ensures 0 <= i <= j <= |s| && IsEmailAddress(s[i..j])
  {
    var a, d :| SplitAt(s, i, a, d, j);
    var w := s[i..j];
    assert SplitAt(w, 0, a - i, d - i, j - i) by {
      forall m | 0 <= m < a - i ensures InClass(w[m], LocalPart) {
        assert w[m] == s[i + m];
      }
      forall m | a - i + 1 <= m < d - i ensures InClass(w[m], DomainPart) {
        assert w[m] == s[i + m];
      }
      forall m | d - i + 1 <= m < j - i ensures InClass(w[m], Letter) {
        assert w[m] == s[i + m];
      }
    }
  }

  /**
    What `FindEmail` returns: `None` exactly when the text holds no match;
    otherwise the leftmost-longest match, an address of the pattern's shape.
  */
  lemma FindEmailCorrect(text: string)
    ensures FindEmail(text).None? <==> NoMatch(text)
    ensures FindEmail(text).Some? ==>
      exists i, j :: IsSearchResult(text, i, j) && 0 <= i <= j <= |text| && FindEmail(text).value == text[i..j]
    ensures FindEmail(text).Some? ==> IsEmailAddress(FindEmail(text).value)
  {
    SearchCorrect(text);
    if Search(text).Some? {
      var (i, j) := Search(text).value;
      MatchIsEmailAddress(text, i, j);
      assert IsSearchResult(text, i, j) && FindEmail(text).value == text[i..j];
    }
  }

  /**
    An address of the pattern's shape is at least six characters long and
    holds neither a comma nor a line break.
  */
  lemma EmailAddressShape(w: string)
    requires IsEmailAddress(w)
    ensures |w| >= 6
    ensures forall m :: 0 <= m < |w| ==> w[m] != ',' && w[m] != '\n'
  {
  }
}
