/** Email and phone detection of resume_nlp.py (find_email, find_phone).
    Each regular expression is modelled as a scanner that reproduces the
    match Python's backtracking engine returns, next to a declarative
    description of what a match is. */
module Contact {
  import opened Text

  // ---------------------------------------------------------------------
  // EMAIL_RE: \b[A-Z0-9._%+-]+@[A-Z0-9.-]+\.[A-Z]{2,}\b, case-insensitive

  predicate InLocal(c: char) {
    IsAlpha(c) || IsDigit(c) || c == '.' || c == '_' || c == '%' || c == '+' || c == '-'
  }

  predicate InDomain(c: char) {
    IsAlpha(c) || IsDigit(c) || c == '.' || c == '-'
  }

  /** The pieces of an email match s[i..t]: local part s[i..j], '@' at j,
      domain s[j+1..d], '.' at d and the letters of the top-level domain
      s[d+1..t]. */
  predicate EmailParts(s: string, i: nat, j: nat, d: nat, t: nat) {
    && i < j && j + 1 < d && d + 2 < t <= |s|
    && (forall k | i <= k < j :: InLocal(s[k]))
    && s[j] == '@'
    && (forall k | j < k < d :: InDomain(s[k]))
    && s[d] == '.'
    && (forall k | d < k < t :: IsAlpha(s[k]))
  }

  /** s[i..t] matches EMAIL_RE. */
  predicate EmailMatch(s: string, i: nat, t: nat) {
    && i < t <= |s|
    && WordBoundary(s, i) && WordBoundary(s, t)
    && exists j, d | i < j < d < t :: EmailParts(s, i, j, d, t)
  }

  /** The end of a top-level domain that follows the dot at k: the letter
      run after the dot, at least two letters long, closed by a word
      boundary. A shorter run of letters is always followed by a letter,
      so only the whole run can be closed by the boundary. */
  function TldEnd(s: string, k: nat): (t: Option<nat>)
    requires k < |s|
    ensures t.Some? ==> k + 3 <= t.value <= |s|
  {
    var t := RunEnd(s, k + 1, IsAlpha);
    if t - (k + 1) >= 2 && (t == |s| || !IsWord(s[t])) then Some(t) else None
  }

  /** A dot at k that a top-level domain follows. */
  predicate DotAt(s: string, k: nat)
    requires k < |s|
  {
    s[k] == '.' && TldEnd(s, k).Some?
  }

  /** The domain gives characters back from the right: the last dot in
      s[lo..hi) that a top-level domain follows. */
  function LastDot(s: string, lo: nat, hi: nat): (d: Option<nat>)
    requires hi <= |s|
    ensures d.Some? ==> lo <= d.value < hi && DotAt(s, d.value)
    ensures forall k | (if d.Some? then d.value + 1 else lo) <= k < hi :: !DotAt(s, k)
    decreases hi
  {
    if hi <= lo then None
    else if DotAt(s, hi - 1) then Some(hi - 1)
    else LastDot(s, lo, hi - 1)
  }

  /** The end of the match EMAIL_RE makes at i, if it makes one. */
  function EmailAt(s: string, i: nat): (t: Option<nat>)
    requires i <= |s|
  {
    if i < |s| && WordBoundary(s, i) then
      var j := RunEnd(s, i, InLocal);
      if i < j < |s| && s[j] == '@' then
        var e := RunEnd(s, j + 1, InDomain);
        match LastDot(s, j + 2, e)
        case Some(d) => TldEnd(s, d)
        case None => None
      else None
    else None
  }

  /** Every match the scanner reports is a match of the pattern. */
  lemma EmailAtSound(s: string, i: nat)
    requires i <= |s|
    ensures EmailAt(s, i).Some? ==> EmailMatch(s, i, EmailAt(s, i).value)
  {
    if EmailAt(s, i).Some? {
      var t := EmailAt(s, i).value;
      var j := RunEnd(s, i, InLocal);
      var e := RunEnd(s, j + 1, InDomain);
      RunEndAll(s, i, InLocal);
      RunEndAll(s, j + 1, InDomain);
      var d := LastDot(s, j + 2, e).value;
      RunEndAll(s, d + 1, IsAlpha);
      assert EmailParts(s, i, j, d, t);
      assert IsWord(s[t - 1]);
    }
  }

  /** Wherever the pattern matches at i, the scanner reports a match at i. */
  lemma EmailAtComplete(s: string, i: nat, t: nat)
    requires EmailMatch(s, i, t)
    ensures EmailAt(s, i).Some?
  {
    var j: nat, d: nat :| i < j < d < t && EmailParts(s, i, j, d, t);
    RunEndIs(s, i, InLocal, j);
    var e := RunEnd(s, j + 1, InDomain);
    RunEndReaches(s, j + 1, InDomain, d + 1);
    assert IsWord(s[t - 1]);
    RunEndIs(s, d + 1, IsAlpha, t);
    assert DotAt(s, d);
    assert LastDot(s, j + 2, e).Some?;
  }

  /** The scanner's match is the longest at i: the greedy domain gives
      back characters only down to the last dot that a top-level domain
      follows, and a match ending at any earlier dot ends before it. */
  lemma EmailAtLongest(s: string, i: nat, u: nat)
    requires EmailMatch(s, i, u)
    ensures EmailAt(s, i).Some? && u <= EmailAt(s, i).value
  {
    var j: nat, d': nat :| i < j < d' < u && EmailParts(s, i, j, d', u);
    LongestWithParts(s, i, j, d', u);
  }

  /** EmailAtLongest, for a match with known parts. */
  lemma LongestWithParts(s: string, i: nat, j: nat, d': nat, u: nat)
    requires EmailParts(s, i, j, d', u) && i < |s| && WordBoundary(s, i) && WordBoundary(s, u)
    ensures EmailAt(s, i).Some? && u <= EmailAt(s, i).value
  {
    RunEndIs(s, i, InLocal, j);
    var e := RunEnd(s, j + 1, InDomain);
    RunEndReaches(s, j + 1, InDomain, d' + 1);
    assert IsWord(s[u - 1]);
    RunEndIs(s, d' + 1, IsAlpha, u);
    assert DotAt(s, d');
    var d := LastDot(s, j + 2, e).value;
    EmailAtDot(s, i, j, e, d);
    LettersStopAtDot(s, d', u, d);
  }

  /** The scanner at i, once the local part, the domain run and the last
      dot are known. */
  lemma EmailAtDot(s: string, i: nat, j: nat, e: nat, d: nat)
    requires i < j < |s| && s[j] == '@' && WordBoundary(s, i) && RunEnd(s, i, InLocal) == j
    requires e == RunEnd(s, j + 1, InDomain) && LastDot(s, j + 2, e) == Some(d)
    ensures EmailAt(s, i) == TldEnd(s, d)
  {
  }

  /** The letters after one dot stop before any later dot. */
  lemma LettersStopAtDot(s: string, d': nat, u: nat, d: nat)
    requires d' < u <= |s| && d' <= d < |s| && s[d] == '.'
    requires forall k | d' < k < u :: IsAlpha(s[k])
    ensures d' < d ==> u <= d
  {
  }

  /** re.search: the leftmost position at or after i where EMAIL_RE
      matches, with the end of that match. */
  function EmailFrom(s: string, i: nat): (m: Option<(nat, nat)>)
    requires i <= |s|
    ensures m.Some? ==> i <= m.value.0 < |s| && EmailAt(s, m.value.0) == Some(m.value.1)
    ensures forall a | i <= a <= (if m.Some? then m.value.0 - 1 else |s|) :: EmailAt(s, a).None?
    decreases |s| - i
  {
    if i == |s| then None
    else
      match EmailAt(s, i)
      case Some(t) => Some((i, t))
      case None => EmailFrom(s, i + 1)
  }

  /** find_email: the first match with confidence 0.98, or ("", 0). */
  function FindEmail(text: string): (string, int) {
    match EmailFrom(text, 0)
    case Some((i, t)) => (text[i..t], 98)
    case None => ("", 0)
  }

  /** EMAIL_RE matches nowhere before position i. */
  predicate NoEmailBefore(s: string, i: nat) {
    forall a: nat, u: nat | a < i && u <= |s| :: !EmailMatch(s, a, u)
  }

  /** When find_email finds something, it is the leftmost match of the
      pattern, and the longest match at that position. */
  lemma FindEmailFound(text: string)
    ensures FindEmail(text).1 == 98 ==>
      exists i: nat, t: nat | i < t <= |text| ::
        && EmailMatch(text, i, t) && FindEmail(text).0 == text[i..t] && NoEmailBefore(text, i)
        && forall u: nat | t < u <= |text| :: !EmailMatch(text, i, u)
  {
    match EmailFrom(text, 0)
    case Some((i, t)) =>
      EmailAtSound(text, i);
      forall u: nat | t < u <= |text| ensures !EmailMatch(text, i, u) {
        if EmailMatch(text, i, u) { EmailAtLongest(text, i, u); }
      }
      forall a: nat, u: nat | a < i && u <= |text| ensures !EmailMatch(text, a, u) {
        if EmailMatch(text, a, u) { EmailAtComplete(text, a, u); }
      }
    case None =>
  }

  /** When find_email finds nothing, the pattern matches nowhere and the
      result is ("", 0). */
  lemma FindEmailNotFound(text: string)
    ensures FindEmail(text).1 != 98 ==> FindEmail(text) == ("", 0) && NoEmailBefore(text, |text|)
  {
    if EmailFrom(text, 0).None? {
      forall a: nat, u: nat | a < |text| && u <= |text| ensures !EmailMatch(text, a, u) {
        if EmailMatch(text, a, u) { EmailAtComplete(text, a, u); }
      }
    }
  }

  /** The local part and the rest of a match hold no '@'. */
  lemma EmailPartsOneAt(s: string, i: nat, j: nat, d: nat, t: nat)
    requires EmailParts(s, i, j, d, t)
    ensures s[i..t] == s[i..j] + "@" + s[j + 1..t]
    ensures '@' !in s[i..j] && '@' !in s[j + 1..t]
  {
    assert s[i..t] == s[i..j] + [s[j]] + s[j + 1..t];
  }

  /** A found email holds exactly one '@'. */
  lemma FindEmailOneAt(text: string)
    ensures var m := FindEmail(text).0;
      m != "" ==> exists j | 0 <= j < |m| :: m[j] == '@' && '@' !in m[..j] && '@' !in m[j + 1..]
  {
    if EmailFrom(text, 0).Some? {
      var (i, t) := EmailFrom(text, 0).value;
      EmailAtSound(text, i);
      var j: nat, d: nat :| i < j < d < t && EmailParts(text, i, j, d, t);
      EmailPartsOneAt(text, i, j, d, t);
      var m := text[i..t];
      assert m[..j - i] == text[i..j];
      assert m[j - i + 1..] == text[j + 1..t];
    }
  }

  // ---------------------------------------------------------------------
  // find_phone

  /** re.sub(r"\b(\d{1,3})\+\s*", r"+\1 ", s[i..]), the word boundary
      being judged in the whole of s: "91+ 784" becomes "+91 784". */
  function FixPlusFrom(s: string, i: nat): string
    requires i <= |s|
    decreases |s| - i
  {
    if i == |s| then []
    else
      var (out, next) := PlusStep(s, i);
      out + FixPlusFrom(s, next)
  }

  /** One step of the substitution at i: the replacement and where the
      scan resumes when the pattern matches there, else s[i] and i + 1.
      The greedy \d{1,3} can only reach the '+' when the whole run of
      digits is one to three long. */
  function PlusStep(s: string, i: nat): (r: (string, nat))
    requires i < |s|
    ensures i < r.1 <= |s|
  {
    match PlusAfterDigits(s, i)
    case Some(p) => ("+" + s[i..p] + " ", RunEnd(s, p + 1, IsSpace))
    case None => ([s[i]], i + 1)
  }

  /** Where `\b(\d{1,3})\+` matches at i: the position of the '+'. */
  function PlusAfterDigits(s: string, i: nat): (r: Option<nat>)
    requires i < |s|
    ensures r.Some? ==> i < r.value < |s| && s[r.value] == '+' && r.value == RunEnd(s, i, IsDigit)
  {
    var r := RunEnd(s, i, IsDigit);
    if WordBoundary(s, i) && 1 <= r - i <= 3 && r < |s| && s[r] == '+' then Some(r) else None
  }

  function FixPlus(s: string): string {
    FixPlusFrom(s, 0)
  }

  /** Moving the plus sign keeps every digit, in order. */
  lemma {:induction false} FixPlusKeepsDigits(s: string, i: nat)
    requires i <= |s|
    ensures DigitsOnly(FixPlusFrom(s, i)) == DigitsOnly(s[i..])
    decreases |s| - i
  {
    if i < |s| {
      var (out, next) := PlusStep(s, i);
      FixPlusKeepsDigits(s, next);
      PlusStepKeepsDigits(s, i);
      DigitsOnlyAppend(out, FixPlusFrom(s, next));
      assert s[i..] == s[i..next] + s[next..];
      DigitsOnlyAppend(s[i..next], s[next..]);
    }
  }

  /** One step keeps the digits of the text it consumes. */
  lemma PlusStepKeepsDigits(s: string, i: nat)
    requires i < |s|
    ensures DigitsOnly(PlusStep(s, i).0) == DigitsOnly(s[i..PlusStep(s, i).1])
  {
    match PlusAfterDigits(s, i)
    case Some(p) =>
      var w := RunEnd(s, p + 1, IsSpace);
      var ds := s[i..p];
      assert DigitsOnly(s[i..w]) == ds by {
        RunEndAll(s, i, IsDigit);
        RunEndAll(s, p + 1, IsSpace);
        DigitsThenGap(s, i, p, w);
      }
      assert DigitsOnly("+" + ds + " ") == ds by {
        RunEndAll(s, i, IsDigit);
        assert forall k | 0 <= k < |ds| :: IsDigit(ds[k]);
        PlusDigitsSpace(ds);
      }
    case None =>
      assert s[i..i + 1] == [s[i]];
  }

  /** The digits of "ddd+   " are ddd. */
  lemma DigitsThenGap(s: string, i: nat, r: nat, w: nat)
    requires i < r < w <= |s|
    requires forall k | i <= k < r :: IsDigit(s[k])
    requires s[r] == '+'
    requires forall k | r < k < w :: IsSpace(s[k])
    ensures DigitsOnly(s[i..w]) == s[i..r]
  {
    var ds := s[i..r];
    var gap := s[r..w];
    assert forall k | 0 <= k < |ds| :: IsDigit(ds[k]);
    DigitsOnlyOfDigits(ds);
    assert forall k | 0 <= k < |gap| :: !IsDigit(gap[k]);
    NoDigits(gap);
    assert s[i..w] == ds + gap;
    DigitsOnlyAppend(ds, gap);
  }

  /** The digits of "+ddd " are ddd. */
  lemma PlusDigitsSpace(ds: string)
    requires forall k | 0 <= k < |ds| :: IsDigit(ds[k])
    ensures DigitsOnly("+" + ds + " ") == ds
  {
    var u := ds + [' '];
    assert "+" + ds + " " == ['+'] + u;
    assert DigitsOnly(['+'] + u) == DigitsOnly(u) by { DigitsOnlyCons('+', u); }
    assert DigitsOnly(u) == ds by {
      DigitsOnlyAppend(ds, [' ']);
      DigitsOnlyOfDigits(ds);
      DigitsOnlyCons(' ', []);
      assert [' '] + [] == [' '];
    }
  }

  lemma {:induction false} NoDigits(s: string)
    requires forall k | 0 <= k < |s| :: !IsDigit(s[k])
    ensures DigitsOnly(s) == []
    decreases |s|
  {
    if s != [] {
      NoDigits(s[1..]);
    }
  }

  /** The odd format the substitution exists for. */
  lemma FixPlusExample()
    ensures FixPlus(OddPhone) == "+91 784274592"
  {
    OddPhoneHead();
    OddPhoneTail();
    assert FixPlus(OddPhone) == "+91 " + FixPlusFrom(OddPhone, 4);
    assert "+91 " + "784274592" == "+91 784274592";
  }

  const OddPhone: string := "91+ 784274592"

  lemma OddPhoneHead()
    ensures PlusStep(OddPhone, 0) == ("+91 ", 4)
  {
    var s := OddPhone;
    assert RunEnd(s, 0, IsDigit) == 2;
    assert WordBoundary(s, 0);
    assert PlusAfterDigits(s, 0) == Some(2);
    assert RunEnd(s, 3, IsSpace) == 4;
    assert "+" + s[0..2] + " " == "+91 ";
  }

  lemma OddPhoneTail()
    ensures FixPlusFrom(OddPhone, 4) == "784274592"
  {
    assert OddPhone[4..] == "784274592";
    FixPlusNoPlus(OddPhone, 4);
  }

  /** Without a '+' from i on, the substitution leaves s[i..] alone. */
  lemma {:induction false} FixPlusNoPlus(s: string, i: nat)
    requires i <= |s|
    requires forall k | i <= k < |s| :: s[k] != '+'
    ensures FixPlusFrom(s, i) == s[i..]
    decreases |s| - i
  {
    if i < |s| {
      assert PlusStep(s, i) == ([s[i]], i + 1);
      FixPlusNoPlus(s, i + 1);
      assert s[i..] == [s[i]] + s[i + 1..];
    }
  }

  predicate InPhoneBody(c: char) {
    IsDigit(c) || IsSpace(c) || c == '(' || c == ')' || c == '.' || c == '-'
  }

  /** Where the digits of a PHONE_RE match at i begin: after an optional
      leading '+'. */
  function PhoneStart(s: string, i: nat): nat
    requires i < |s|
  {
    if s[i] == '+' then i + 1 else i
  }

  /** s[i..t] matches PHONE_RE = \+?\d[\d\s().-]{7,}\d. */
  predicate PhoneMatch(s: string, i: nat, t: nat) {
    && i < |s|
    && var b := PhoneStart(s, i);
    && b + 9 <= t <= |s|
    && IsDigit(s[b]) && IsDigit(s[t - 1])
    && forall k | b < k < t - 1 :: InPhoneBody(s[k])
  }

  /** The largest k in [lo, hi) holding a digit. */
  function LastDigit(s: string, lo: nat, hi: nat): (k: Option<nat>)
    requires hi <= |s|
    ensures k.Some? ==> lo <= k.value < hi && IsDigit(s[k.value])
    ensures forall m | (if k.Some? then k.value + 1 else lo) <= m < hi :: !IsDigit(s[m])
    decreases hi
  {
    if hi <= lo then None
    else if IsDigit(s[hi - 1]) then Some(hi - 1)
    else LastDigit(s, lo, hi - 1)
  }

  /** The end of the match PHONE_RE makes at i: the body is greedy, so the
      closing digit is the last digit of the body's run. */
  function PhoneAt(s: string, i: nat): (t: Option<nat>)
    requires i < |s|
    ensures t.Some? ==> i < t.value <= |s|
  {
    var b := PhoneStart(s, i);
    if b < |s| && IsDigit(s[b]) then
      match LastDigit(s, b + 8, RunEnd(s, b + 1, InPhoneBody))
      case Some(k) => Some(k + 1)
      case None => None
    else None
  }

  /** The scanner finds the longest match at i, and a match whenever one
      exists. */
  lemma PhoneAtGreedy(s: string, i: nat)
    requires i < |s|
    ensures PhoneAt(s, i).Some? ==> PhoneMatch(s, i, PhoneAt(s, i).value)
    ensures forall t: nat | (if PhoneAt(s, i).Some? then PhoneAt(s, i).value + 1 else 0) <= t
      :: !PhoneMatch(s, i, t)
  {
    var b := PhoneStart(s, i);
    if b < |s| {
      RunEndAll(s, b + 1, InPhoneBody);
    }
    forall t: nat | PhoneMatch(s, i, t) ensures PhoneAt(s, i).Some? && t <= PhoneAt(s, i).value {
      var e := RunEnd(s, b + 1, InPhoneBody);
      assert InPhoneBody(s[t - 1]);
      assert t - 1 < e;
    }
  }

  /** Begins and ends with a character that is not whitespace. */
  predicate Unpadded(c: string) {
    c != [] && !IsSpace(c[0]) && !IsSpace(c[|c| - 1])
  }

  /** re.findall(PHONE_RE, s[i..]): non-overlapping matches, left to right. */
  function PhoneMatches(s: string, i: nat): (cs: seq<string>)
    requires i <= |s|
    ensures forall c | c in cs :: |c| >= 9 && Unpadded(c)
    decreases |s| - i
  {
    if i == |s| then []
    else
      match PhoneAt(s, i)
      case Some(t) =>
        PhoneAtGreedy(s, i);
        var c := s[i..t];
        assert c[0] == s[i] && c[|c| - 1] == s[t - 1];
        [c] + PhoneMatches(s, t)
      case None => PhoneMatches(s, i + 1)
  }

  function DigitCount(c: string): nat {
    |DigitsOnly(c)|
  }

  /** A candidate find_phone accepts: 9 to 13 digits. */
  predicate Plausible(c: string) {
    9 <= DigitCount(c) <= 13
  }

  /** cs[k] is the first plausible candidate with n digits. */
  predicate FirstWithCount(cs: seq<string>, k: nat, n: nat) {
    && k < |cs| && Plausible(cs[k]) && DigitCount(cs[k]) == n
    && forall m | 0 <= m < k :: !(Plausible(cs[m]) && DigitCount(cs[m]) == n)
  }

  /** No plausible candidate has more than n digits. */
  predicate Dominates(cs: seq<string>, n: nat) {
    forall c | c in cs && Plausible(c) :: DigitCount(c) <= n
  }

  predicate NonePlausible(cs: seq<string>) {
    forall c | c in cs :: !Plausible(c)
  }

  /** The loop of find_phone over cs: the best candidate so far, stripped,
      and its digit count; a later candidate replaces it only with strictly
      more digits. */
  function BestPhone(cs: seq<string>): (string, nat)
    decreases |cs|
  {
    if cs == [] then ("", 0)
    else
      var prev := BestPhone(cs[..|cs| - 1]);
      var c := cs[|cs| - 1];
      if Plausible(c) && DigitCount(c) > prev.1 then (Strip(c), DigitCount(c)) else prev
  }

  /** BestPhone's count is the largest digit count of a plausible
      candidate, and 0 with no plausible candidate, in which case no number
      is kept. */
  lemma {:induction false} BestPhoneCount(cs: seq<string>)
    ensures BestPhone(cs).1 == 0 <==> NonePlausible(cs)
    ensures BestPhone(cs).1 == 0 ==> BestPhone(cs).0 == ""
    ensures BestPhone(cs).1 == 0 || 9 <= BestPhone(cs).1 <= 13
    ensures Dominates(cs, BestPhone(cs).1)
    decreases |cs|
  {
    if cs != [] {
      var init := cs[..|cs| - 1];
      BestPhoneCount(init);
      assert cs == init + [cs[|cs| - 1]];
      assert forall c | c in cs :: c in init || c == cs[|cs| - 1];
    }
  }

  /** BestPhone keeps the first candidate that reaches the largest count. */
  lemma {:induction false} BestPhoneFirst(cs: seq<string>)
    ensures BestPhone(cs).1 > 0 ==>
      exists k: nat :: FirstWithCount(cs, k, BestPhone(cs).1) && BestPhone(cs).0 == Strip(cs[k])
    decreases |cs|
  {
    if cs != [] {
      var init := cs[..|cs| - 1];
      var last := cs[|cs| - 1];
      BestPhoneFirst(init);
      BestPhoneCount(init);
      var n0 := BestPhone(init).1;
      var n := BestPhone(cs).1;
      if Plausible(last) && DigitCount(last) > n0 {
        forall m | 0 <= m < |cs| - 1 ensures !(Plausible(cs[m]) && DigitCount(cs[m]) == n) {
          assert cs[m] == init[m];
          assert init[m] in init;
        }
        assert FirstWithCount(cs, |cs| - 1, n);
      } else if n0 > 0 {
        var k: nat :| FirstWithCount(init, k, n0) && BestPhone(init).0 == Strip(init[k]);
        forall m | 0 <= m < k ensures !(Plausible(cs[m]) && DigitCount(cs[m]) == n) {
          assert cs[m] == init[m];
        }
        assert FirstWithCount(cs, k, n);
      }
    }
  }

  /** The candidates of find_phone: PHONE_RE.findall after the plus sign
      has been moved. */
  function Candidates(text: string): seq<string> {
    PhoneMatches(FixPlus(text), 0)
  }

  /** What find_phone returns for its candidates cs. */
  function PhoneResult(cs: seq<string>): (string, int) {
    var best := BestPhone(cs);
    if best.0 == "" then ("", 0)
    else (best.0, if best.1 == 10 || best.1 == 12 || best.1 == 13 then 92 else 85)
  }

  /** find_phone, as a function of the text. */
  function PhoneOf(text: string): (string, int) {
    PhoneResult(Candidates(text))
  }

  /** find_phone: the loop over the candidates. */
  method FindPhone(text: string) returns (phone: string, conf: int)
    ensures (phone, conf) == PhoneOf(text)
  {
    var candidates := Candidates(text);
    var best, bestLen := BestCandidate(candidates);
    if best == "" {
      return "", 0;
    }
    phone := best;
    conf := if bestLen == 10 || bestLen == 12 || bestLen == 13 then 92 else 85;
  }

  /** The loop of find_phone: the best candidate and its digit count. */
  method BestCandidate(candidates: seq<string>) returns (best: string, bestLen: nat)
    ensures (best, bestLen) == BestPhone(candidates)
  {
    best, bestLen := "", 0;
    var i := 0;
    while i < |candidates|
      invariant 0 <= i <= |candidates|
      invariant (best, bestLen) == BestPhone(candidates[..i])
    {
      BestPhoneStep(candidates, i);
      var digits := DigitsOnly(candidates[i]);
      if 9 <= |digits| <= 13 && |digits| > bestLen {
        best := Strip(candidates[i]);
        bestLen := |digits|;
      }
      i := i + 1;
    }
    assert candidates[..i] == candidates;
  }

  /** BestPhone over one more candidate. */
  lemma BestPhoneStep(cs: seq<string>, i: nat)
    requires i < |cs|
    ensures var prev := BestPhone(cs[..i]);
      BestPhone(cs[..i + 1])
      == if Plausible(cs[i]) && DigitCount(cs[i]) > prev.1 then (Strip(cs[i]), DigitCount(cs[i])) else prev
  {
    assert cs[..i + 1][..i] == cs[..i];
  }

  /** find_phone reports nothing exactly when no candidate has 9 to 13
      digits, and then with confidence 0. */
  lemma PhoneResultNone(cs: seq<string>)
    requires forall c | c in cs :: Unpadded(c)
    ensures PhoneResult(cs).0 == "" <==> NonePlausible(cs)
    ensures PhoneResult(cs).0 == "" ==> PhoneResult(cs).1 == 0
  {
    var n := BestPhone(cs).1;
    assert (n == 0 <==> NonePlausible(cs)) && (n == 0 ==> BestPhone(cs).0 == "") by { BestPhoneCount(cs); }
    if n > 0 {
      BestPhoneFirst(cs);
      var k: nat :| FirstWithCount(cs, k, n) && BestPhone(cs).0 == Strip(cs[k]);
      assert Strip(cs[k]) == cs[k] && cs[k] != "" by {
        assert cs[k] in cs;
        StripNoop(cs[k]);
      }
    }
  }

  /** A number find_phone reports is the first candidate with the most
      digits, unchanged, with confidence 0.92 for 10, 12 or 13 digits and
      0.85 otherwise. */
  lemma PhoneResultFound(cs: seq<string>)
    requires forall c | c in cs :: Unpadded(c)
    ensures PhoneResult(cs).0 != "" ==>
      exists k: nat | k < |cs| ::
        && FirstWithCount(cs, k, DigitCount(cs[k])) && Dominates(cs, DigitCount(cs[k]))
        && PhoneResult(cs).0 == cs[k]
        && PhoneResult(cs).1 == (if DigitCount(cs[k]) in {10, 12, 13} then 92 else 85)
  {
    var n := BestPhone(cs).1;
    assert Dominates(cs, n) && (n == 0 ==> BestPhone(cs).0 == "") by { BestPhoneCount(cs); }
    if n > 0 {
      BestPhoneFirst(cs);
      var k: nat :| FirstWithCount(cs, k, n) && BestPhone(cs).0 == Strip(cs[k]);
      assert Strip(cs[k]) == cs[k] by {
        assert cs[k] in cs;
        StripNoop(cs[k]);
      }
      assert DigitCount(cs[k]) == n;
    }
  }

  /** The candidates of the text satisfy what the two lemmas above ask. */
  lemma CandidatesUnpadded(text: string)
    ensures forall c | c in Candidates(text) :: |c| >= 9 && Unpadded(c)
  {
  }

  /** An empty text holds neither an email nor a phone number. */
  lemma EmptyContact()
    ensures FindEmail("") == ("", 0)
    ensures PhoneOf("") == ("", 0)
  {
    assert FixPlus("") == "";
    assert Candidates("") == [];
  }
}
