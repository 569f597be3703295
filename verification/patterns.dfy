/** The fixed-width patterns the report extracts with regular expressions:
    the folder date `\d{4}-\d{2}-\d{2}` and the visit code `L\d{3}R\d{3}`. Both
    match a fixed number of characters, so the leftmost match is the first
    window of that width whose characters fit the pattern. */
module Patterns {
  import opened Wrappers
  import opened Text

  /** One position of a pattern: any decimal digit, or one given character. */
  datatype CharClass = AnyDigit | Exactly(c: char)

  type Pattern = seq<CharClass>

  const FolderDatePattern: Pattern :=
    [AnyDigit, AnyDigit, AnyDigit, AnyDigit, Exactly('-'), AnyDigit, AnyDigit, Exactly('-'), AnyDigit, AnyDigit]

  const VisitCodePattern: Pattern :=
    [Exactly('L'), AnyDigit, AnyDigit, AnyDigit, Exactly('R'), AnyDigit, AnyDigit, AnyDigit]

  predicate Fits(k: CharClass, c: char) {
    match k
    case AnyDigit => IsDigit(c)
    case Exactly(x) => c == x
  }

  /** The pattern matches `s` starting at index `i`. */
  predicate MatchesAt(s: string, pat: Pattern, i: int) {
    0 <= i && i + |pat| <= |s| && forall j :: 0 <= j < |pat| ==> Fits(pat[j], s[i + j])
  }

  /** The pattern matches all of `w`. */
  predicate Matches(w: string, pat: Pattern) {
    MatchesAt(w, pat, 0) && |w| == |pat|
  }

  /** The first index at or after `from` where the pattern matches. */
  function MatchFrom(s: string, pat: Pattern, from: nat): (r: Option<nat>)
    ensures r.Some? ==> from <= r.value && MatchesAt(s, pat, r.value)
    ensures r.Some? ==> forall j :: from <= j < r.value ==> !MatchesAt(s, pat, j)
    ensures r.None? ==> forall j :: from <= j ==> !MatchesAt(s, pat, j)
    decreases |s| - from
  {
    if from + |pat| > |s| then None
    else if MatchesAt(s, pat, from) then Some(from)
    else MatchFrom(s, pat, from + 1)
  }

  /** The leftmost match of the pattern in `s`, as `str.extract` returns it. */
  function Extract(s: string, pat: Pattern): (r: Option<string>)
    ensures r.None? <==> forall i :: !MatchesAt(s, pat, i)
    ensures r.Some? ==> exists i :: MatchesAt(s, pat, i) && r.value == s[i..i + |pat|]
                          && forall j :: 0 <= j < i ==> !MatchesAt(s, pat, j)
  {
    match MatchFrom(s, pat, 0)
    case None => None
    case Some(i) => Some(s[i..i + |pat|])
  }

  /** Whatever is extracted fits the pattern entirely. */
  lemma ExtractMatches(s: string, pat: Pattern)
    requires Extract(s, pat).Some?
    ensures Matches(Extract(s, pat).value, pat)
  {
    var i :| MatchesAt(s, pat, i) && Extract(s, pat).value == s[i..i + |pat|];
    var w := Extract(s, pat).value;
    forall j | 0 <= j < |pat|
      ensures Fits(pat[j], w[j])
    {
      assert w[j] == s[i + j];
    }
  }

  /** A string that fits the pattern entirely is its own leftmost match, so
      extracting again from an extracted value returns it unchanged. */
  lemma ExtractWhole(w: string, pat: Pattern)
    requires Matches(w, pat)
    ensures Extract(w, pat) == Some(w)
  {
    assert w[0..|pat|] == w;
  }

  lemma ExtractIdempotent(s: string, pat: Pattern)
    requires Extract(s, pat).Some?
    ensures Extract(Extract(s, pat).value, pat) == Extract(s, pat)
  {
    ExtractMatches(s, pat);
    ExtractWhole(Extract(s, pat).value, pat);
  }

  /** The date a folder name carries: four digits, `-`, two digits, `-`, two
      digits, leftmost first; no calendar check. */
  function FolderDate(subfolder: string): (r: Option<string>)
    ensures r.Some? ==> Matches(r.value, FolderDatePattern)
    ensures r.None? <==> forall i :: !MatchesAt(subfolder, FolderDatePattern, i)
    ensures r.Some? ==> exists i :: MatchesAt(subfolder, FolderDatePattern, i)
                          && r.value == subfolder[i..i + |FolderDatePattern|]
                          && forall j :: 0 <= j < i ==> !MatchesAt(subfolder, FolderDatePattern, j)
  {
    var r := Extract(subfolder, FolderDatePattern);
    if r.Some? then ExtractMatches(subfolder, FolderDatePattern); r else r
  }

  /** The visit code a name carries: `L`, three digits, `R`, three digits,
      leftmost first. */
  function VisitCode(s: string): (r: Option<string>)
    ensures r.Some? ==> Matches(r.value, VisitCodePattern)
    ensures r.None? <==> forall i :: !MatchesAt(s, VisitCodePattern, i)
    ensures r.Some? ==> exists i :: MatchesAt(s, VisitCodePattern, i)
                          && r.value == s[i..i + |VisitCodePattern|]
                          && forall j :: 0 <= j < i ==> !MatchesAt(s, VisitCodePattern, j)
  {
    var r := Extract(s, VisitCodePattern);
    if r.Some? then ExtractMatches(s, VisitCodePattern); r else r
  }

  /** The visit code of a list of names, searched name by name: the code of
      the first name that has one. This is the column the report evidently
      means to read from the other files; pandas' `str.extract` applied to a
      cell holding a list yields a missing value instead. */
  function FirstVisitCode(names: seq<string>): (r: Option<string>)
    ensures r.None? <==> forall i :: 0 <= i < |names| ==> VisitCode(names[i]).None?
    ensures r.Some? ==> exists i :: 0 <= i < |names| && r == VisitCode(names[i])
                          && forall j :: 0 <= j < i ==> VisitCode(names[j]).None?
  {
    if |names| == 0 then None
    else if VisitCode(names[0]).Some? then VisitCode(names[0])
    else
      var r := FirstVisitCode(names[1..]);
      assert forall i :: 0 < i < |names| ==> names[i] == names[1..][i - 1];
      r
  }

  /** `combine_first`: the first value where it is present, else the second. */
  function CombineFirst<T>(a: Option<T>, b: Option<T>): (r: Option<T>)
    ensures a.Some? ==> r == a
    ensures a.None? ==> r == b
  {
    if a.Some? then a else b
  }

  /** The visit code from three sources tried in priority order. */
  function Prioritised<T>(first: Option<T>, second: Option<T>, third: Option<T>): (r: Option<T>)
    ensures r.None? <==> first.None? && second.None? && third.None?
    ensures r.Some? ==> r == first || r == second || r == third
    ensures first.Some? ==> r == first
    ensures first.None? && second.Some? ==> r == second
  {
    CombineFirst(CombineFirst(first, second), third)
  }

  /** Chained `combine_first` does not depend on how it is grouped. */
  lemma CombineFirstAssociative<T>(a: Option<T>, b: Option<T>, c: Option<T>)
    ensures CombineFirst(CombineFirst(a, b), c) == CombineFirst(a, CombineFirst(b, c))
  {
  }

  lemma FolderNameExample()
    ensures FolderDate("2023-07-15_L123R045_visit") == Some("2023-07-15")
    ensures VisitCode("2023-07-15_L123R045_visit") == Some("L123R045")
  {
    var s := "2023-07-15_L123R045_visit";
    assert MatchesAt(s, FolderDatePattern, 0);
    assert s[0..10] == "2023-07-15";
    assert MatchesAt(s, VisitCodePattern, 11);
    assert s[11..19] == "L123R045";
    assert forall k :: 0 <= k < 11 ==> s[k] != 'L';
    forall j | 0 <= j < 11
      ensures !MatchesAt(s, VisitCodePattern, j)
    {
      assert VisitCodePattern[0] == Exactly('L');
      assert !Fits(VisitCodePattern[0], s[j + 0]);
    }
  }

  /** A name that is exactly a dash-separated date is its own folder date. */
  lemma FolderDateOfDateName(s: string)
    requires |s| == 10 && s[4] == '-' && s[7] == '-'
    requires forall i :: 0 <= i < 10 && i != 4 && i != 7 ==> IsDigit(s[i])
    ensures FolderDate(s) == Some(s)
  {
    assert Matches(s, FolderDatePattern);
    ExtractWhole(s, FolderDatePattern);
  }

  /** The folder date is not checked against the calendar. */
  lemma FolderDateNotValidated()
    ensures FolderDate("9999-99-99") == Some("9999-99-99")
  {
    FolderDateOfDateName("9999-99-99");
  }
}
