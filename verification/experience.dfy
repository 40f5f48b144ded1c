/** The experience-entry extractor of resume_nlp.py: every line of the
    experience section holding a date range becomes an entry, with the
    line above as the role and the line above that as the company. */
module Experience {
  import opened Text

  /** `[-–]`: a hyphen or an en dash. */
  predicate IsDash(c: char) { c == '-' || c == '\U{2013}' }

  /** The end of `[A-Za-z]{3,9}\s+\d{4}` matched from p, or None. The
      letters must be the whole run of letters at p, since a shorter run
      leaves a letter where `\s+` needs a space; for the same reason the
      spaces are the whole run of spaces. */
  function MonthYearEnd(s: string, p: nat): (e: Option<nat>)
    requires p <= |s|
    ensures e.Some? ==> p < e.value <= |s|
  {
    var l := RunEnd(s, p, IsAlpha);
    if 3 <= l - p <= 9 then
      var d := RunEnd(s, l, IsSpace);
      if d > l && d + 4 <= |s| && IsDigits(s[d..d + 4]) then Some(d + 4) else None
    else None
  }

  /** "Present", in any case, at r and closed by `\b`. */
  predicate PresentAt(s: string, r: nat) {
    r + 7 <= |s| && Lower(s[r..r + 7]) == "present" && WordBoundary(s, r + 7)
  }

  /** The two groups of
      `\b([A-Za-z]{3,9}\s+\d{4})\s*[-–]\s*(Present|[A-Za-z]{3,9}\s+\d{4})\b`,
      case-insensitive, when it matches at p. The second group tries
      "Present" first and falls back to a month and year when the word
      boundary after "Present" fails. */
  function DateAt(s: string, p: nat): Option<(string, string)>
    requires p <= |s|
  {
    if !WordBoundary(s, p) then None
    else match MonthYearEnd(s, p)
      case None => None
      case Some(e1) =>
        var a := RunEnd(s, e1, IsSpace);
        if a < |s| && IsDash(s[a]) then
          var r := RunEnd(s, a + 1, IsSpace);
          if PresentAt(s, r) then
            Some((s[p..e1], s[r..r + 7]))
          else match MonthYearEnd(s, r)
            case Some(e2) => if WordBoundary(s, e2) then Some((s[p..e1], s[r..e2])) else None
            case None => None
        else None
  }

  /** date_re.search: the groups of the leftmost match at or after i. */
  function DateFrom(s: string, i: nat): Option<(string, string)>
    requires i <= |s|
  {
    Leftmost(|s|, i, DateScan(s))
  }

  /** DateAt over the positions of s. */
  function DateScan(s: string): nat -> Option<(string, string)> {
    (p: nat) => if p <= |s| then DateAt(s, p) else None
  }

  predicate HasDate(s: string) {
    DateFrom(s, 0).Some?
  }

  /** A month and a year: three to nine letters, spaces, four digits. */
  predicate MonthYear(x: string) {
    exists k | 3 <= k <= 9 && k < |x| - 4 :: MonthYearSplit(x, k)
  }

  /** x is k letters, then spaces, then four digits. */
  predicate MonthYearSplit(x: string, k: nat)
    requires k < |x| - 4
  {
    && (forall j | 0 <= j < k :: IsAlpha(x[j]))
    && (forall j | k <= j < |x| - 4 :: IsSpace(x[j]))
    && IsDigits(x[|x| - 4..])
  }

  lemma MonthYearEndShape(s: string, p: nat)
    requires p <= |s| && MonthYearEnd(s, p).Some?
    ensures MonthYear(s[p..MonthYearEnd(s, p).value])
  {
    var x := s[p..MonthYearEnd(s, p).value];
    var l := RunEnd(s, p, IsAlpha);
    RunEndAll(s, p, IsAlpha);
    RunEndAll(s, l, IsSpace);
    var k := l - p;
    assert forall j | 0 <= j < |x| :: x[j] == s[p + j];
    assert x[|x| - 4..] == s[MonthYearEnd(s, p).value - 4..MonthYearEnd(s, p).value];
    assert MonthYearSplit(x, k);
  }

  /** The start of a range is a month and a year; the end is "Present",
      in any case, or a month and a year. */
  lemma DateShape(s: string, p: nat)
    requires p <= |s| && DateAt(s, p).Some?
    ensures MonthYear(DateAt(s, p).value.0)
    ensures Lower(DateAt(s, p).value.1) == "present" || MonthYear(DateAt(s, p).value.1)
  {
    var e1, r, e2 := DateAtRuns(s, p);
    MonthYearEndShape(s, p);
    if !PresentAt(s, r) {
      MonthYearEndShape(s, r);
    }
  }

  // The date pattern described declaratively: a match from p whose groups
  // are s[p..e1] and s[r..e2].

  /** `\s*[-–]\s*` spans s[e1..r]. */
  predicate DashGap(s: string, e1: nat, r: nat) {
    e1 < r <= |s| && exists a | e1 <= a < r :: AllSpace(s, e1, a) && IsDash(s[a]) && AllSpace(s, a + 1, r)
  }

  /** The date pattern matches from p with groups s[p..e1] and s[r..e2]. */
  predicate DateMatch(s: string, p: nat, e1: nat, r: nat, e2: nat) {
    && p < e1 < r < e2 <= |s|
    && WordBoundary(s, p) && MonthYear(s[p..e1])
    && DashGap(s, e1, r)
    && WordBoundary(s, e2)
    && ((e2 == r + 7 && Lower(s[r..e2]) == "present") || MonthYear(s[r..e2]))
  }

  /** The match the regex reports among those from p: the alternation tries
      "Present" before a month and a year. */
  predicate PreferredDate(s: string, p: nat, e1: nat, r: nat, e2: nat) {
    DateMatch(s, p, e1, r, e2) && (PresentAt(s, r) ==> e2 == r + 7)
  }

  /** A month and a year from p ends where the scanner says. */
  lemma MonthYearEndIs(s: string, p: nat, e: nat)
    requires p < e <= |s| && MonthYear(s[p..e])
    ensures MonthYearEnd(s, p) == Some(e) && IsAlpha(s[p])
  {
    var x := s[p..e];
    var k :| 3 <= k <= 9 && k < |x| - 4 && MonthYearSplit(x, k);
    assert forall j | 0 <= j < |x| :: x[j] == s[p + j];
    assert x[|x| - 4..] == s[e - 4..e];
    assert forall j | p <= j < p + k :: IsAlpha(s[j]) by {
      forall j | p <= j < p + k ensures IsAlpha(s[j]) { assert IsAlpha(x[j - p]); }
    }
    assert forall j | p + k <= j < e - 4 :: IsSpace(s[j]) by {
      forall j | p + k <= j < e - 4 ensures IsSpace(s[j]) { assert IsSpace(x[j - p]); }
    }
    assert IsSpace(x[k]) && IsDigit(s[e - 4]) by { assert IsDigit(x[|x| - 4..][0]); }
    RunEndIs(s, p, IsAlpha, p + k);
    RunEndIs(s, p + k, IsSpace, e - 4);
  }

  /** A dash gap closed by a non-space ends where the scanner's runs end. */
  lemma DashGapEnds(s: string, e1: nat, r: nat)
    requires DashGap(s, e1, r) && (r == |s| || !IsSpace(s[r]))
    ensures var a := RunEnd(s, e1, IsSpace); a < |s| && IsDash(s[a]) && RunEnd(s, a + 1, IsSpace) == r
  {
    var a :| e1 <= a < r && AllSpace(s, e1, a) && IsDash(s[a]) && AllSpace(s, a + 1, r);
    RunEndIs(s, e1, IsSpace, a);
    RunEndIs(s, a + 1, IsSpace, r);
  }

  /** Any match from p can be turned into the preferred one: when
      "Present" closes at r, the match ending there. */
  lemma DateMatchPreferred(s: string, p: nat, e1: nat, r: nat, e2: nat)
    requires DateMatch(s, p, e1, r, e2)
    ensures PreferredDate(s, p, e1, r, if PresentAt(s, r) then r + 7 else e2)
  {
  }

  /** Wherever the preferred match from p has groups s[p..e1] and
      s[r..e2], the scanner reports them. */
  lemma DateAtComplete(s: string, p: nat, e1: nat, r: nat, e2: nat)
    requires PreferredDate(s, p, e1, r, e2)
    ensures DateAt(s, p) == Some((s[p..e1], s[r..e2]))
  {
    MonthYearEndIs(s, p, e1);
    if PresentAt(s, r) {
      PresentStartsWithP(s, r);
      DashGapEnds(s, e1, r);
      DateAtScanned(s, p, e1, r, e2);
    } else {
      MonthYearEndIs(s, r, e2);
      DashGapEnds(s, e1, r);
      DateAtScanned(s, p, e1, r, e2);
    }
  }

  lemma PresentStartsWithP(s: string, r: nat)
    requires PresentAt(s, r)
    ensures !IsSpace(s[r])
  {
    var x := s[r..r + 7];
    assert Lower(x)[0] == 'p';
    assert LowerChar(x[0]) == 'p' && x[0] == s[r];
  }

  /** DateAt once its runs are known: "Present" at r when it closes
      there, else the month and year the scanner reads from r. */
  lemma DateAtScanned(s: string, p: nat, e1: nat, r: nat, e2: nat)
    requires p < e1 < r < e2 <= |s| && WordBoundary(s, p) && MonthYearEnd(s, p) == Some(e1)
    requires var a := RunEnd(s, e1, IsSpace); a < |s| && IsDash(s[a]) && RunEnd(s, a + 1, IsSpace) == r
    requires PresentAt(s, r) ==> e2 == r + 7
    requires !PresentAt(s, r) ==> MonthYearEnd(s, r) == Some(e2) && WordBoundary(s, e2)
    ensures DateAt(s, p) == Some((s[p..e1], s[r..e2]))
  {
  }

  /** Every pair of groups the scanner reports at p is that of the
      preferred match from p. */
  lemma DateAtSound(s: string, p: nat)
    requires p <= |s| && DateAt(s, p).Some?
    ensures exists e1: nat, r: nat, e2: nat :: PreferredDate(s, p, e1, r, e2) && DateAt(s, p).value == (s[p..e1], s[r..e2])
  {
    var e1, r, e2 := DateAtRuns(s, p);
    RunsArePreferred(s, p, e1, r, e2);
  }

  /** The converse of DateAtScanned: the runs the scanner went through
      form the preferred match. */
  lemma RunsArePreferred(s: string, p: nat, e1: nat, r: nat, e2: nat)
    requires p < e1 < r < e2 <= |s| && WordBoundary(s, p) && MonthYearEnd(s, p) == Some(e1)
    requires var a := RunEnd(s, e1, IsSpace); a < |s| && IsDash(s[a]) && RunEnd(s, a + 1, IsSpace) == r
    requires PresentAt(s, r) ==> e2 == r + 7
    requires !PresentAt(s, r) ==> MonthYearEnd(s, r) == Some(e2) && WordBoundary(s, e2)
    ensures PreferredDate(s, p, e1, r, e2)
  {
    MonthYearEndShape(s, p);
    RunsDashGap(s, e1, r);
    if !PresentAt(s, r) {
      MonthYearEndShape(s, r);
    }
  }

  lemma RunsDashGap(s: string, e1: nat, r: nat)
    requires e1 <= |s|
    requires var a := RunEnd(s, e1, IsSpace); a < |s| && IsDash(s[a]) && RunEnd(s, a + 1, IsSpace) == r
    ensures DashGap(s, e1, r)
  {
    var a := RunEnd(s, e1, IsSpace);
    RunEndAll(s, e1, IsSpace);
    RunEndAll(s, a + 1, IsSpace);
    assert AllSpace(s, e1, a) && AllSpace(s, a + 1, r);
  }

  /** The runs the scanner went through when it reports a date at p. */
  lemma DateAtRuns(s: string, p: nat) returns (e1: nat, r: nat, e2: nat)
    requires p <= |s| && DateAt(s, p).Some?
    ensures p < e1 < r < e2 <= |s| && WordBoundary(s, p) && MonthYearEnd(s, p) == Some(e1)
    ensures var a := RunEnd(s, e1, IsSpace); a < |s| && IsDash(s[a]) && RunEnd(s, a + 1, IsSpace) == r
    ensures PresentAt(s, r) ==> e2 == r + 7
    ensures !PresentAt(s, r) ==> MonthYearEnd(s, r) == Some(e2) && WordBoundary(s, e2)
    ensures DateAt(s, p) == Some((s[p..e1], s[r..e2]))
  {
    e1 := MonthYearEnd(s, p).value;
    var a := RunEnd(s, e1, IsSpace);
    r := RunEnd(s, a + 1, IsSpace);
    e2 := if PresentAt(s, r) then r + 7 else MonthYearEnd(s, r).value;
  }

  /** date_re.search read declaratively: it finds nothing exactly when the
      pattern matches nowhere, and otherwise the groups of the preferred
      match from the leftmost position where one starts. */
  lemma DateFromIsLeftmost(s: string)
    ensures !HasDate(s) <==> forall p: nat, e1: nat, r: nat, e2: nat :: !DateMatch(s, p, e1, r, e2)
    ensures HasDate(s) ==>
      exists p: nat, e1: nat, r: nat, e2: nat ::
        && PreferredDate(s, p, e1, r, e2) && DateFrom(s, 0).value == (s[p..e1], s[r..e2])
        && forall p': nat, e1': nat, r': nat, e2': nat | p' < p :: !DateMatch(s, p', e1', r', e2')
  {
    var f := DateScan(s);
    LeftmostIsFirst(|s|, 0, f);
    forall p: nat, e1: nat, r: nat, e2: nat | DateMatch(s, p, e1, r, e2) ensures p <= |s| && f(p).Some? {
      DateMatchPreferred(s, p, e1, r, e2);
      DateAtComplete(s, p, e1, r, if PresentAt(s, r) then r + 7 else e2);
    }
    if HasDate(s) {
      var p :| 0 <= p <= |s| && f(p) == DateFrom(s, 0) && forall k | 0 <= k < p :: f(k).None?;
      DateAtSound(s, p);
    }
  }

  /** re.sub(r"\s{2,}", " ", s): every run of two or more whitespace
      characters becomes one space; a lone whitespace character stays. */
  function SquashRuns(s: string): (r: string)
    ensures forall i | 0 < i < |r| :: !(IsSpace(r[i - 1]) && IsSpace(r[i]))
    ensures s != [] ==> r != [] && (IsSpace(r[0]) <==> IsSpace(s[0]))
    ensures forall c :: c in r ==> c == ' ' || c in s
    decreases |s|
  {
    if s == [] then []
    else if IsSpace(s[0]) then
      var n := RunEnd(s, 0, IsSpace);
      var rest := SquashRuns(s[n..]);
      assert forall c :: c in rest ==> c == ' ' || c in s;
      (if n >= 2 then " " else [s[0]]) + rest
    else
      var rest := SquashRuns(s[1..]);
      assert forall c :: c in rest ==> c == ' ' || c in s;
      [s[0]] + rest
  }

  datatype Entry = Entry(role: string, company: string, start: string, end: string, tenure: string)

  /** The line `back` lines above line i, "" when there is none or when
      it holds a date range itself; whitespace runs squashed, stripped. */
  function Neighbour(lines: seq<string>, i: nat, back: nat): string
    requires i < |lines|
  {
    var raw := if i >= back then lines[i - back] else "";
    var kept := if HasDate(raw) then "" else raw;
    Strip(SquashRuns(kept))
  }

  /** The entry line i gives, if it holds a date range. */
  function EntryAt(lines: seq<string>, i: nat): Option<Entry>
    requires i < |lines|
  {
    match DateFrom(lines[i], 0)
    case None => None
    case Some((a, b)) => Some(Entry(Neighbour(lines, i, 1), Neighbour(lines, i, 2), a, b, a + " - " + b))
  }

  /** The entry (or None) of every line, in order. */
  function LineEntries(lines: seq<string>): (r: seq<Option<Entry>>)
    ensures |r| == |lines| && forall i | 0 <= i < |lines| :: r[i] == EntryAt(lines, i)
  {
    seq(|lines|, i requires 0 <= i < |lines| => EntryAt(lines, i))
  }

  /** The values of the present elements, in order. */
  function Somes<T>(xs: seq<Option<T>>): seq<T>
    decreases |xs|
  {
    if xs == [] then []
    else Somes(xs[..|xs| - 1]) + (if xs[|xs| - 1].Some? then [xs[|xs| - 1].value] else [])
  }

  /** The indices of the present elements, in order. */
  function SomeIndices<T>(xs: seq<Option<T>>): (r: seq<nat>)
    ensures forall k | 0 <= k < |r| :: r[k] < |xs|
    ensures forall k | 0 < k < |r| :: r[k - 1] < r[k]
    ensures forall i | 0 <= i < |xs| :: i in r <==> xs[i].Some?
    decreases |xs|
  {
    if xs == [] then []
    else
      var r := SomeIndices(xs[..|xs| - 1]);
      assert forall i | 0 <= i < |xs| - 1 :: xs[..|xs| - 1][i] == xs[i];
      if xs[|xs| - 1].Some? then r + [|xs| - 1] else r
  }

  /** Somes over one more element. */
  lemma SomesStep<T>(xs: seq<Option<T>>, i: nat)
    requires i < |xs|
    ensures Somes(xs[..i + 1]) == Somes(xs[..i]) + (if xs[i].Some? then [xs[i].value] else [])
  {
    assert xs[..i + 1][..i] == xs[..i];
  }

  /** The k-th value kept is the value at the k-th present index. */
  lemma {:induction false} SomesAtIndices<T>(xs: seq<Option<T>>)
    ensures |Somes(xs)| == |SomeIndices(xs)|
    ensures forall k | 0 <= k < |Somes(xs)| :: xs[SomeIndices(xs)[k]] == Some(Somes(xs)[k])
    decreases |xs|
  {
    if xs != [] {
      var init := xs[..|xs| - 1];
      SomesAtIndices(init);
      assert forall i | 0 <= i < |init| :: init[i] == xs[i];
    }
  }

  /** extract_experience_details, as a function. */
  function ExperienceOf(text: string, sections: map<string, string>): (r: (seq<Entry>, int))
    ensures GetOr(sections, "experience", "") == "" ==> r == ([], 0)
    ensures GetOr(sections, "experience", "") != "" ==> (r.1 == 80 <==> r.0 != []) && (r.1 == 40 <==> r.0 == [])
  {
    var exp := GetOr(sections, "experience", "");
    if exp == "" then ([], 0)
    else
      var lines := NonBlankLines(exp);
      var es := Somes(LineEntries(lines));
      (es, if es != [] then 80 else 40)
  }

  /** extract_experience_details */
  method ExtractExperienceDetails(text: string, sections: map<string, string>) returns (results: seq<Entry>, conf: int)
    ensures (results, conf) == ExperienceOf(text, sections)
  {
    var exp := GetOr(sections, "experience", "");
    if exp == "" {
      return [], 0;
    }
    var lines := NonBlankLines(exp);
    results := [];
    ghost var entries := LineEntries(lines);
    var i := 0;
    while i < |lines|
      invariant 0 <= i <= |lines|
      invariant results == Somes(entries[..i])
    {
      SomesStep(entries, i);
      assert entries[i] == EntryAt(lines, i);
      var m := DateFrom(lines[i], 0);
      if m.Some? {
        var (start, end) := m.value;
        var tenure := start + " - " + end;
        var role := if i >= 1 then lines[i - 1] else "";
        var company := if i >= 2 then lines[i - 2] else "";
        if HasDate(role) {
          role := "";
        }
        if HasDate(company) {
          company := "";
        }
        company := Strip(SquashRuns(company));
        role := Strip(SquashRuns(role));
        var e := Entry(role, company, start, end, tenure);
        assert EntryAt(lines, i) == Some(e);
        results := results + [e];
      } else {
        assert entries[i].None?;
      }
      i := i + 1;
    }
    assert entries[..i] == entries;
    conf := if results != [] then 80 else 40;
  }

  /** One entry per line holding a date range, in line order: the k-th
      entry is the entry of the k-th dated line. */
  lemma EntriesFollowDatedLines(lines: seq<string>)
    ensures var es := Somes(LineEntries(lines));
      var idx := SomeIndices(LineEntries(lines));
      && |es| == |idx|
      && (forall k | 0 <= k < |idx| :: idx[k] < |lines|)
      && (forall k | 0 < k < |idx| :: idx[k - 1] < idx[k])
      && (forall i | 0 <= i < |lines| :: i in idx <==> HasDate(lines[i]))
      && (forall k | 0 <= k < |es| :: EntryAt(lines, idx[k]) == Some(es[k]))
  {
    var xs := LineEntries(lines);
    SomesAtIndices(xs);
    forall i | 0 <= i < |lines| ensures xs[i].Some? <==> HasDate(lines[i]) {
      EntryAtSome(lines, i);
    }
  }

  lemma EntryAtSome(lines: seq<string>, i: nat)
    requires i < |lines|
    ensures EntryAt(lines, i).Some? <==> HasDate(lines[i])
  {
  }

  lemma NoDateInEmpty()
    ensures !HasDate("")
  {
    assert DateAt("", 0).None?;
  }

  /** Every entry's tenure is its start, " - " and its end; the start is a
      month and a year, and the end "Present" or a month and a year. */
  lemma EntryDates(lines: seq<string>, i: nat)
    requires i < |lines| && EntryAt(lines, i).Some?
    ensures var e := EntryAt(lines, i).value;
      && e.tenure == e.start + " - " + e.end
      && MonthYear(e.start)
      && (Lower(e.end) == "present" || MonthYear(e.end))
  {
    DateFromShape(lines[i]);
  }

  lemma DateFromShape(s: string)
    requires HasDate(s)
    ensures MonthYear(DateFrom(s, 0).value.0)
    ensures Lower(DateFrom(s, 0).value.1) == "present" || MonthYear(DateFrom(s, 0).value.1)
  {
    var P := (m: (string, string)) => MonthYear(m.0) && (Lower(m.1) == "present" || MonthYear(m.1));
    forall p | 0 <= p <= |s| && DateScan(s)(p).Some? ensures P(DateScan(s)(p).value) {
      DateShape(s, p);
    }
    LeftmostKeeps(|s|, 0, DateScan(s), P);
  }

  /** The role is blank when there is no line above or that line holds a
      date range itself, and likewise the company for the line two above;
      otherwise they are those lines with whitespace runs squashed. */
  lemma EntryNeighbours(lines: seq<string>, i: nat)
    requires i < |lines| && EntryAt(lines, i).Some?
    ensures var e := EntryAt(lines, i).value;
      && e.role == (if i == 0 || HasDate(lines[i - 1]) then "" else Strip(SquashRuns(lines[i - 1])))
      && e.company == (if i < 2 || HasDate(lines[i - 2]) then "" else Strip(SquashRuns(lines[i - 2])))
  {
    NoDateInEmpty();
    assert SquashRuns("") == "";
  }
}
