/** The employment classifier of resume_nlp.py: a years or months figure
    first, then fresher and internship signals, then the presence of an
    experience section. */
module Employment {
  import opened Text

  /** The units of the two figure patterns. */
  datatype Unit = Years | Months

  const YearUnits: seq<string> := ["years", "year", "yrs", "yr"]
  const MonthUnits: seq<string> := ["months", "month"]

  /** The maximal run of word characters from q. */
  function WordFrom(s: string, q: nat): string
    requires q <= |s|
  {
    s[q..RunEnd(s, q, IsWord)]
  }

  /** The end of `\d+(?:\.\d+)?` from the digit at p. A shorter run of
      digits would leave a digit where the rest of either pattern needs a
      space, a plus sign or a letter, so only the longest run can take
      part in a match. */
  function NumberEnd(s: string, p: nat): (g: nat)
    requires p < |s| && IsDigit(s[p])
    ensures p < g <= |s|
  {
    var e := RunEnd(s, p, IsDigit);
    if e + 1 < |s| && s[e] == '.' && IsDigit(s[e + 1]) then RunEnd(s, e + 1, IsDigit) else e
  }

  /** The end of `\s*\+?\s*` from g. */
  function PlusGapEnd(s: string, g: nat): (q: nat)
    requires g <= |s|
    ensures g <= q <= |s|
  {
    var a := RunEnd(s, g, IsSpace);
    var b := if a < |s| && s[a] == '+' then a + 1 else a;
    RunEnd(s, b, IsSpace)
  }

  /** The first group of the years pattern
      `(\d+(?:\.\d+)?)\s*\+?\s*(?:years|year|yrs|yr)\b` or of the months
      pattern `(\d+)\s*(?:months|month)\b` when it matches at p. Every
      unit ends with a word character, so `\b` after it holds exactly when
      the whole word there is the unit. */
  function FigureAt(s: string, p: nat, u: Unit): Option<string> {
    if p < |s| && IsDigit(s[p]) then
      match u
      case Years =>
        var g := NumberEnd(s, p);
        if WordFrom(s, PlusGapEnd(s, g)) in YearUnits then Some(s[p..g]) else None
      case Months =>
        var g := RunEnd(s, p, IsDigit);
        if WordFrom(s, RunEnd(s, g, IsSpace)) in MonthUnits then Some(s[p..g]) else None
    else None
  }

  /** re.search: the group of the leftmost match at or after i. */
  function FirstFigure(s: string, i: nat, u: Unit): Option<string>
    requires i <= |s|
  {
    Leftmost(|s|, i, FigureScan(s, u))
  }

  /** FigureAt over the positions of s. */
  function FigureScan(s: string, u: Unit): nat -> Option<string> {
    (p: nat) => FigureAt(s, p, u)
  }

  /** A decimal number: digits, optionally a point and more digits. */
  predicate IsNumber(x: string) {
    IsDigits(x) || exists d | 0 < d < |x| - 1 :: IsDigits(x[..d]) && x[d] == '.' && IsDigits(x[d + 1..])
  }

  // The patterns described declaratively: a match from p whose first
  // group is s[p..g].

  /** Unit w at c, closed by `\b`. */
  predicate UnitWordAt(s: string, c: nat, w: string) {
    c + |w| <= |s| && s[c..c + |w|] == w && WordBoundary(s, c + |w|)
  }

  /** One of the units at c. */
  predicate UnitAt(s: string, c: nat, units: seq<string>) {
    exists k | 0 <= k < |units| :: UnitWordAt(s, c, units[k])
  }

  /** s[g..c] matches `\s*\+?\s*`. */
  predicate PlusGap(s: string, g: nat, c: nat) {
    g <= c <= |s| && exists a | g <= a <= c ::
      AllSpace(s, g, a) && (AllSpace(s, a, c) || (a < c && s[a] == '+' && AllSpace(s, a + 1, c)))
  }

  /** `(\d+(?:\.\d+)?)\s*\+?\s*(?:years|year|yrs|yr)\b` matches from p
      with group s[p..g]. */
  predicate YearsMatch(s: string, p: nat, g: nat) {
    p < g <= |s| && IsNumber(s[p..g]) && exists c | g <= c <= |s| :: PlusGap(s, g, c) && UnitAt(s, c, YearUnits)
  }

  /** `(\d+)\s*(?:months|month)\b` matches from p with group s[p..g]. */
  predicate MonthsMatch(s: string, p: nat, g: nat) {
    p < g <= |s| && IsDigits(s[p..g]) && exists c | g <= c <= |s| :: AllSpace(s, g, c) && UnitAt(s, c, MonthUnits)
  }

  predicate FigureMatch(s: string, p: nat, g: nat, u: Unit) {
    if u == Years then YearsMatch(s, p, g) else MonthsMatch(s, p, g)
  }

  /** The units are non-empty words of lower-case letters. */
  lemma UnitsAreLetters()
    ensures forall k | 0 <= k < |YearUnits| :: YearUnits[k] != "" && forall j | 0 <= j < |YearUnits[k]| :: IsLower(YearUnits[k][j])
    ensures forall k | 0 <= k < |MonthUnits| :: MonthUnits[k] != "" && forall j | 0 <= j < |MonthUnits[k]| :: IsLower(MonthUnits[k][j])
  {
  }

  /** A unit of letters closed by `\b` is the whole word there. */
  lemma UnitIsWord(s: string, c: nat, w: string)
    requires UnitWordAt(s, c, w) && w != [] && forall j | 0 <= j < |w| :: IsLower(w[j])
    ensures c < |s| && IsLower(s[c])
    ensures WordFrom(s, c) == w
  {
    assert forall j | 0 <= j < |w| :: s[c + j] == w[j];
    assert IsWord(s[c + |w| - 1]);
    RunEndIs(s, c, IsWord, c + |w|);
  }

  /** The whole word at c, when it is a unit, is closed by `\b`. */
  lemma WordIsUnit(s: string, c: nat, units: seq<string>)
    requires c <= |s| && WordFrom(s, c) in units && "" !in units
    ensures UnitAt(s, c, units)
  {
    var q := RunEnd(s, c, IsWord);
    var k :| 0 <= k < |units| && units[k] == WordFrom(s, c);
    RunEndAll(s, c, IsWord);
    assert IsWord(s[q - 1]);
    assert UnitWordAt(s, c, units[k]);
  }

  /** A number followed by neither a digit nor a point is the number the
      scanner reads. */
  lemma NumberEndIs(s: string, p: nat, g: nat)
    requires p < g <= |s| && IsNumber(s[p..g])
    requires g == |s| || (!IsDigit(s[g]) && s[g] != '.')
    ensures IsDigit(s[p]) && NumberEnd(s, p) == g
  {
    var x := s[p..g];
    if IsDigits(x) {
      DigitsEndIs(s, p, g);
    } else {
      var d :| 0 < d < |x| - 1 && IsDigits(x[..d]) && x[d] == '.' && IsDigits(x[d + 1..]);
      assert x[..d] == s[p..p + d] && x[d + 1..] == s[p + d + 1..g] && s[p + d] == '.';
      DecimalEndIs(s, p, p + d, g);
    }
  }

  /** The digits of a slice, position by position. */
  lemma DigitsSlice(s: string, a: nat, b: nat)
    requires a <= b <= |s| && IsDigits(s[a..b])
    ensures a < b && forall k | a <= k < b :: IsDigit(s[k])
  {
    assert forall k | a <= k < b :: s[a..b][k - a] == s[k];
  }

  /** NumberEndIs for a number without a decimal point. */
  lemma DigitsEndIs(s: string, p: nat, g: nat)
    requires p < g <= |s| && IsDigits(s[p..g])
    requires g == |s| || (!IsDigit(s[g]) && s[g] != '.')
    ensures IsDigit(s[p]) && NumberEnd(s, p) == g
  {
    DigitsSlice(s, p, g);
    RunEndIs(s, p, IsDigit, g);
  }

  /** NumberEndIs for a number with a decimal point at e. */
  lemma DecimalEndIs(s: string, p: nat, e: nat, g: nat)
    requires p < e < g <= |s| && IsDigits(s[p..e]) && s[e] == '.' && IsDigits(s[e + 1..g])
    requires g == |s| || !IsDigit(s[g])
    ensures IsDigit(s[p]) && NumberEnd(s, p) == g
  {
    DigitsSlice(s, p, e);
    DigitsSlice(s, e + 1, g);
    RunEndIs(s, p, IsDigit, e);
    RunEndIs(s, e + 1, IsDigit, g);
  }

  /** A gap of spaces and one optional plus sign, followed by neither, is
      the gap the scanner skips. */
  lemma PlusGapEndIs(s: string, g: nat, c: nat)
    requires PlusGap(s, g, c) && c < |s| && !IsSpace(s[c]) && s[c] != '+'
    ensures PlusGapEnd(s, g) == c
  {
    var a :| g <= a <= c && AllSpace(s, g, a) && (AllSpace(s, a, c) || (a < c && s[a] == '+' && AllSpace(s, a + 1, c)));
    if AllSpace(s, a, c) {
      RunEndIs(s, g, IsSpace, c);
    } else {
      RunEndIs(s, g, IsSpace, a);
      RunEndIs(s, a + 1, IsSpace, c);
    }
  }

  /** Every group the scanner reports at p is that of a match from p. */
  lemma FigureAtSound(s: string, p: nat, u: Unit)
    requires FigureAt(s, p, u).Some?
    ensures exists g | p < g <= |s| :: FigureMatch(s, p, g, u) && FigureAt(s, p, u).value == s[p..g]
  {
    UnitsAreLetters();
    if u == Years {
      YearsSound(s, p);
    } else {
      MonthsSound(s, p);
    }
  }

  lemma YearsSound(s: string, p: nat)
    requires FigureAt(s, p, Years).Some? && "" !in YearUnits
    ensures var g := NumberEnd(s, p); YearsMatch(s, p, g) && FigureAt(s, p, Years).value == s[p..g]
  {
    var g := NumberEnd(s, p);
    var c := PlusGapEnd(s, g);
    NumberRunIsNumber(s, p);
    var a := RunEnd(s, g, IsSpace);
    var b := if a < |s| && s[a] == '+' then a + 1 else a;
    RunEndAll(s, g, IsSpace);
    RunEndAll(s, b, IsSpace);
    assert AllSpace(s, g, a) && AllSpace(s, b, c);
    assert PlusGap(s, g, c);
    WordIsUnit(s, c, YearUnits);
  }

  lemma MonthsSound(s: string, p: nat)
    requires FigureAt(s, p, Months).Some? && "" !in MonthUnits
    ensures var g := RunEnd(s, p, IsDigit); MonthsMatch(s, p, g) && FigureAt(s, p, Months).value == s[p..g]
  {
    var g := RunEnd(s, p, IsDigit);
    var c := RunEnd(s, g, IsSpace);
    DigitRunIsDigits(s, p);
    RunEndAll(s, g, IsSpace);
    assert AllSpace(s, g, c);
    WordIsUnit(s, c, MonthUnits);
  }

  /** Wherever a match from p has group s[p..g], the scanner reports that
      group: the group is the only one a match from p can have. */
  lemma FigureAtComplete(s: string, p: nat, g: nat, u: Unit)
    requires FigureMatch(s, p, g, u)
    ensures FigureAt(s, p, u) == Some(s[p..g])
  {
    UnitsAreLetters();
    if u == Years {
      YearsComplete(s, p, g);
    } else {
      MonthsComplete(s, p, g);
    }
  }

  lemma YearsComplete(s: string, p: nat, g: nat)
    requires YearsMatch(s, p, g)
    requires forall k | 0 <= k < |YearUnits| :: YearUnits[k] != "" && forall j | 0 <= j < |YearUnits[k]| :: IsLower(YearUnits[k][j])
    ensures FigureAt(s, p, Years) == Some(s[p..g])
  {
    var c :| g <= c <= |s| && PlusGap(s, g, c) && UnitAt(s, c, YearUnits);
    var k :| 0 <= k < |YearUnits| && UnitWordAt(s, c, YearUnits[k]);
    UnitIsWord(s, c, YearUnits[k]);
    GapStart(s, g, c);
    NumberEndIs(s, p, g);
    PlusGapEndIs(s, g, c);
  }

  /** What follows a number in a years match: a space, a plus sign or
      the unit's first letter. */
  lemma GapStart(s: string, g: nat, c: nat)
    requires PlusGap(s, g, c) && c < |s| && IsLower(s[c])
    ensures g < |s| && (IsSpace(s[g]) || s[g] == '+' || IsLower(s[g]))
  {
  }

  lemma MonthsComplete(s: string, p: nat, g: nat)
    requires MonthsMatch(s, p, g)
    requires forall k | 0 <= k < |MonthUnits| :: MonthUnits[k] != "" && forall j | 0 <= j < |MonthUnits[k]| :: IsLower(MonthUnits[k][j])
    ensures FigureAt(s, p, Months) == Some(s[p..g])
  {
    var c :| g <= c <= |s| && AllSpace(s, g, c) && UnitAt(s, c, MonthUnits);
    var k :| 0 <= k < |MonthUnits| && UnitWordAt(s, c, MonthUnits[k]);
    UnitIsWord(s, c, MonthUnits[k]);
    DigitsSlice(s, p, g);
    RunEndIs(s, p, IsDigit, g);
    RunEndIs(s, g, IsSpace, c);
  }

  /** re.search finds nothing exactly when the pattern matches nowhere,
      and otherwise the group of the leftmost match. */
  lemma FirstFigureIsLeftmost(s: string, u: Unit)
    ensures FirstFigure(s, 0, u).None? <==> forall p: nat, g: nat :: !FigureMatch(s, p, g, u)
    ensures FirstFigure(s, 0, u).Some? ==>
      exists p: nat, g: nat :: && FigureMatch(s, p, g, u) && FirstFigure(s, 0, u).value == s[p..g]
                               && forall p': nat, g': nat | p' < p :: !FigureMatch(s, p', g', u)
  {
    var f := FigureScan(s, u);
    LeftmostIsFirst(|s|, 0, f);
    forall p: nat, g: nat | FigureMatch(s, p, g, u) ensures p <= |s| && f(p).Some? {
      FigureAtComplete(s, p, g, u);
    }
    if FirstFigure(s, 0, u).Some? {
      var p :| 0 <= p <= |s| && f(p) == Leftmost(|s|, 0, f) && forall k | 0 <= k < p :: f(k).None?;
      FigureAtSound(s, p, u);
    }
  }

  /** The group of the years pattern is a decimal number and the group of
      the months pattern a run of digits. */
  lemma FigureIsNumber(s: string, p: nat, u: Unit)
    requires p <= |s| && FigureAt(s, p, u).Some?
    ensures u == Years ==> IsNumber(FigureAt(s, p, u).value)
    ensures u == Months ==> IsDigits(FigureAt(s, p, u).value)
  {
    if u == Years {
      NumberRunIsNumber(s, p);
    } else {
      DigitRunIsDigits(s, p);
    }
  }

  /** The digits from p form a run of digits. */
  lemma DigitRunIsDigits(s: string, p: nat)
    requires p < |s| && IsDigit(s[p])
    ensures IsDigits(s[p..RunEnd(s, p, IsDigit)])
  {
    RunEndAll(s, p, IsDigit);
  }

  /** The number from p is a decimal number. */
  lemma NumberRunIsNumber(s: string, p: nat)
    requires p < |s| && IsDigit(s[p])
    ensures IsNumber(s[p..NumberEnd(s, p)])
  {
    var e := RunEnd(s, p, IsDigit);
    DigitRunIsDigits(s, p);
    if e + 1 < |s| && s[e] == '.' && IsDigit(s[e + 1]) {
      var g := RunEnd(s, e + 1, IsDigit);
      DigitRunIsDigits(s, e + 1);
      var x := s[p..g];
      var d := e - p;
      assert x[..d] == s[p..e];
      assert x[d + 1..] == s[e + 1..g];
      assert IsDigits(x[..d]) && x[d] == '.' && IsDigits(x[d + 1..]);
    }
  }

  /** round(m / 12, 1) in tenths: the integer nearest to 5m/6, the even
      one on a tie. A tie means m/12 ends in .25 or .75, which is exact in
      binary floating point, and Python rounds it to even. */
  function RoundTenths(m: nat): (t: nat)
    ensures -3 <= 6 * t - 5 * m <= 3
    ensures (6 * t - 5 * m == 3 || 6 * t - 5 * m == -3) ==> t % 2 == 0
  {
    var n := 5 * m;
    var q := n / 6;
    var r := n % 6;
    assert n == 6 * q + r && 0 <= r < 6;
    if r < 3 then q else if r > 3 then q + 1 else if q % 2 == 0 then q else q + 1
  }

  /** str() of a float holding t tenths: whole part, point, one digit. */
  function TenthsText(t: nat): (r: string)
    ensures exists d | 0 < d < |r| - 1 :: IsDigits(r[..d]) && r[d] == '.' && IsDigits(r[d + 1..]) && |r[d + 1..]| == 1
  {
    var w := NatToString(t / 10);
    var f := NatToString(t % 10);
    assert |f| == 1;
    var r := w + "." + f;
    assert r[..|w|] == w && r[|w| + 1..] == f;
    r
  }

  /** The years figure of extract_employment: the years group when that
      pattern matches, else the months figure converted to years, else "". */
  function YearsFigure(hay: string): (y: string)
    ensures y == "" <==> FirstFigure(hay, 0, Years).None? && FirstFigure(hay, 0, Months).None?
    ensures y != "" ==> IsNumber(y)
  {
    FirstFigureIsNumber(hay, Years);
    FirstFigureIsNumber(hay, Months);
    match FirstFigure(hay, 0, Years)
    case Some(g) => g
    case None =>
      match FirstFigure(hay, 0, Months)
      case Some(g) => TenthsText(RoundTenths(DecimalValue(g)))
      case None => ""
  }

  /** The years figure read declaratively: the group of the leftmost years
      match; failing any, the group of the leftmost months match converted
      to years; failing both, "". */
  lemma YearsFigureIsLeftmost(hay: string)
    ensures YearsFigure(hay) == "" <==>
      (forall p: nat, g: nat :: !FigureMatch(hay, p, g, Years)) && (forall p: nat, g: nat :: !FigureMatch(hay, p, g, Months))
    ensures (exists p: nat, g: nat :: FigureMatch(hay, p, g, Years)) ==>
      exists p: nat, g: nat :: && FigureMatch(hay, p, g, Years) && YearsFigure(hay) == hay[p..g]
                               && forall p': nat, g': nat | p' < p :: !FigureMatch(hay, p', g', Years)
    ensures (forall p: nat, g: nat :: !FigureMatch(hay, p, g, Years)) && (exists p: nat, g: nat :: FigureMatch(hay, p, g, Months)) ==>
      exists p: nat, g: nat :: && FigureMatch(hay, p, g, Months) && YearsFigure(hay) == TenthsText(RoundTenths(DecimalValue(hay[p..g])))
                               && forall p': nat, g': nat | p' < p :: !FigureMatch(hay, p', g', Months)
  {
    FirstFigureIsLeftmost(hay, Years);
    FirstFigureIsLeftmost(hay, Months);
  }

  /** The group re.search finds is a number, and a run of digits for the
      months pattern. */
  lemma FirstFigureIsNumber(hay: string, u: Unit)
    ensures FirstFigure(hay, 0, u).Some? ==>
      if u == Years then IsNumber(FirstFigure(hay, 0, u).value) else IsDigits(FirstFigure(hay, 0, u).value)
  {
    var f := FigureScan(hay, u);
    var P := (x: string) => if u == Years then IsNumber(x) else IsDigits(x);
    forall p | 0 <= p <= |hay| && f(p).Some? ensures P(f(p).value) {
      FigureIsNumber(hay, p, u);
    }
    LeftmostKeeps(|hay|, 0, f, P);
  }

  const FresherSignals: seq<string> := ["fresher", "entry level", "recent graduate", "student"]
  const InternSignals: seq<string> := ["intern", "internship", "virtual internship", "trainee", "apprentice", "member", "club"]

  /** any(s in hay for s in signals): plain substring tests. */
  predicate AnySignal(hay: string, signals: seq<string>) {
    exists k | 0 <= k < |signals| :: Contains(hay, signals[k])
  }

  datatype Employment = Employment(status: string, years: string)

  /** The text the classifier reads: the experience section, a newline
      and the top section, lower-cased. */
  function EmploymentHay(sections: map<string, string>): string {
    Lower(GetOr(sections, "experience", "") + "\n" + GetOr(sections, "__top__", ""))
  }

  /** extract_employment: the first rule that applies decides. The text
      argument is not read. */
  function EmploymentOf(text: string, sections: map<string, string>): (r: (Employment, int))
    ensures r.0.status == "Experienced" || r.0.status == "Fresher"
    ensures r.0.status == "Fresher" ==> r.0.years == ""
    ensures r.1 == 90 <==> r.0.years != ""
    ensures r.0.years != "" ==> IsNumber(r.0.years)
    ensures r.1 in {90, 80, 65, 75}
  {
    var exp := GetOr(sections, "experience", "");
    var hay := EmploymentHay(sections);
    var years := YearsFigure(hay);
    if years != "" then (Employment("Experienced", years), 90)
    else if AnySignal(hay, FresherSignals) || AnySignal(hay, InternSignals) then (Employment("Fresher", ""), 80)
    else if Strip(exp) != "" then (Employment("Experienced", ""), 65)
    else (Employment("Fresher", ""), 75)
  }

  /** The rules in order: a figure gives Experienced at 0.90; without one,
      a signal gives Fresher at 0.80; without either, a non-blank
      experience section gives Experienced at 0.65; otherwise Fresher at
      0.75. */
  lemma FirstRuleWins(text: string, sections: map<string, string>)
    ensures var hay := EmploymentHay(sections);
      var figure := FirstFigure(hay, 0, Years).Some? || FirstFigure(hay, 0, Months).Some?;
      var signal := AnySignal(hay, FresherSignals) || AnySignal(hay, InternSignals);
      var (e, c) := EmploymentOf(text, sections);
      && (figure <==> e.status == "Experienced" && c == 90)
      && (!figure && signal <==> e == Employment("Fresher", "") && c == 80)
      && (!figure && !signal && Strip(GetOr(sections, "experience", "")) != "" <==> e == Employment("Experienced", "") && c == 65)
      && (!figure && !signal && Strip(GetOr(sections, "experience", "")) == "" <==> e == Employment("Fresher", "") && c == 75)
  {
  }

  /** Eighteen months are 1.5 years. */
  lemma EighteenMonths()
    ensures TenthsText(RoundTenths(18)) == "1.5"
  {
    assert RoundTenths(18) == 15;
    assert NatToString(1) == "1" && NatToString(5) == "5";
  }

  /** Three months are 0.25 years, which rounds half to even: "0.2". */
  lemma ThreeMonths()
    ensures TenthsText(RoundTenths(3)) == "0.2"
  {
    assert RoundTenths(3) == 2;
    assert NatToString(0) == "0" && NatToString(2) == "2";
  }

  /** Without a digit there is no figure. */
  lemma NoDigitNoFigure(hay: string)
    requires forall k | 0 <= k < |hay| :: !IsDigit(hay[k])
    ensures YearsFigure(hay) == ""
  {
    assert forall p | 0 <= p <= |hay| :: FigureAt(hay, p, Years).None? && FigureAt(hay, p, Months).None?;
    LeftmostIsFirst(|hay|, 0, FigureScan(hay, Years));
    LeftmostIsFirst(|hay|, 0, FigureScan(hay, Months));
  }

  /** The signals are substrings, not words: "international" holds
      "intern", so a top section reading "International" alone classifies
      the candidate as a fresher. */
  lemma SignalInsideWord()
    ensures EmploymentOf("", map["__top__" := "International"]) == (Employment("Fresher", ""), 80)
  {
    var sections := map["__top__" := "International"];
    var hay := EmploymentHay(sections);
    assert hay == "\ninternational";
    NoDigitNoFigure(hay);
    assert OccursAt(hay, InternSignals[0], 1);
  }

  /** Without an experience section, "Experienced" always comes with a
      years figure: the guess without one needs a non-blank section. */
  lemma NoSectionNoGuess(text: string, sections: map<string, string>)
    requires Strip(GetOr(sections, "experience", "")) == ""
    ensures EmploymentOf(text, sections).0.status == "Experienced" ==> EmploymentOf(text, sections).0.years != ""
  {
  }
}
