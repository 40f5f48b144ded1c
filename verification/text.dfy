/** Character classes and string helpers shared by the resume model.
    Python's Unicode-aware classes (\s, \w, \d, str.isspace, lower, upper)
    are restricted to ASCII. */
module Text {

  datatype Option<T> = None | Some(value: T)

  /** Python's str.isspace() and the regex class \s, on ASCII:
      tab, newline, vertical tab, form feed, carriage return,
      the four separators 0x1C..0x1F, and space. */
  predicate IsSpace(c: char) {
    ('\t' <= c <= '\r') || ('\U{1C}' <= c <= '\U{1F}') || c == ' '
  }

  predicate IsDigit(c: char) { '0' <= c <= '9' }
  predicate IsUpper(c: char) { 'A' <= c <= 'Z' }
  predicate IsLower(c: char) { 'a' <= c <= 'z' }
  predicate IsAlpha(c: char) { IsUpper(c) || IsLower(c) }

  /** The regex class \w. */
  predicate IsWord(c: char) { IsAlpha(c) || IsDigit(c) || c == '_' }

  function LowerChar(c: char): char {
    if IsUpper(c) then (c as int + 32) as char else c
  }

  function UpperChar(c: char): char {
    if IsLower(c) then (c as int - 32) as char else c
  }

  /** str.lower() */
  function Lower(s: string): (r: string)
    ensures |r| == |s|
    ensures forall i :: 0 <= i < |s| ==> r[i] == LowerChar(s[i])
  {
    seq(|s|, i requires 0 <= i < |s| => LowerChar(s[i]))
  }

  /** str.upper() */
  function Upper(s: string): (r: string)
    ensures |r| == |s|
    ensures forall i :: 0 <= i < |s| ==> r[i] == UpperChar(s[i])
  {
    seq(|s|, i requires 0 <= i < |s| => UpperChar(s[i]))
  }

  lemma LowerAppend(a: string, b: string)
    ensures Lower(a + b) == Lower(a) + Lower(b)
  {
    assert forall i :: 0 <= i < |a + b| ==> Lower(a + b)[i] == (Lower(a) + Lower(b))[i];
  }

  predicate HasDigit(s: string) {
    exists i | 0 <= i < |s| :: IsDigit(s[i])
  }

  /** str.isdigit(): non-empty and every character a digit. */
  predicate IsDigits(s: string) {
    |s| > 0 && forall i | 0 <= i < |s| :: IsDigit(s[i])
  }

  /** re.sub(r"\D", "", s): the digits of s, in order. */
  function DigitsOnly(s: string): (r: string)
    ensures |r| <= |s|
    decreases |s|
  {
    if s == [] then []
    else (if IsDigit(s[0]) then [s[0]] else []) + DigitsOnly(s[1..])
  }

  lemma {:induction false} DigitsOnlyAppend(a: string, b: string)
    ensures DigitsOnly(a + b) == DigitsOnly(a) + DigitsOnly(b)
    decreases |a|
  {
    if a != [] {
      assert (a + b)[1..] == a[1..] + b;
      assert (a + b)[0] == a[0];
      DigitsOnlyAppend(a[1..], b);
      var h := if IsDigit(a[0]) then [a[0]] else [];
      assert DigitsOnly(a + b) == h + DigitsOnly(a[1..] + b);
    } else {
      assert a + b == b;
    }
  }

  lemma DigitsOnlyCons(c: char, t: string)
    ensures DigitsOnly([c] + t) == (if IsDigit(c) then [c] else []) + DigitsOnly(t)
  {
    assert ([c] + t)[1..] == t;
  }

  /** A digit string is its own digits. */
  lemma {:induction false} DigitsOnlyOfDigits(s: string)
    requires forall i | 0 <= i < |s| :: IsDigit(s[i])
    ensures DigitsOnly(s) == s
    decreases |s|
  {
    if s != [] {
      DigitsOnlyOfDigits(s[1..]);
    }
  }

  /** End of the longest run of characters satisfying p that starts at i. */
  function RunEnd(s: string, i: nat, p: char -> bool): (j: nat)
    requires i <= |s|
    ensures i <= j <= |s|
    ensures j == |s| || !p(s[j])
    decreases |s| - i
  {
    if i < |s| && p(s[i]) then RunEnd(s, i + 1, p) else i
  }

  lemma AppendAssoc<T>(a: seq<T>, b: seq<T>, c: seq<T>)
    ensures a + (b + c) == a + b + c
  {
  }

  /** Every character of the run satisfies p. */
  lemma {:induction false} RunEndAll(s: string, i: nat, p: char -> bool)
    requires i <= |s|
    ensures forall k | i <= k < RunEnd(s, i, p) :: p(s[k])
    decreases |s| - i
  {
    if i < |s| && p(s[i]) {
      RunEndAll(s, i + 1, p);
    }
  }

  /** A run of p from i to j that p does not continue is the run RunEnd
      finds. */
  lemma {:induction false} RunEndIs(s: string, i: nat, p: char -> bool, j: nat)
    requires i <= j <= |s|
    requires forall k | i <= k < j :: p(s[k])
    requires j == |s| || !p(s[j])
    ensures RunEnd(s, i, p) == j
    decreases j - i
  {
    if i < j {
      RunEndIs(s, i + 1, p, j);
    }
  }

  /** The run from i reaches at least as far as any stretch of p from i. */
  lemma {:induction false} RunEndReaches(s: string, i: nat, p: char -> bool, j: nat)
    requires i <= j <= |s|
    requires forall k | i <= k < j :: p(s[k])
    ensures j <= RunEnd(s, i, p)
    decreases j - i
  {
    if i < j {
      RunEndReaches(s, i + 1, p, j);
    }
  }

  /** s[a..b] is whitespace only (`\s*` matches it). */
  predicate AllSpace(s: string, a: nat, b: nat)
    requires a <= b <= |s|
  {
    forall k | a <= k < b :: IsSpace(s[k])
  }

  /** Regex \b at position i. */
  predicate WordBoundary(s: string, i: nat)
    requires i <= |s|
  {
    (i > 0 && IsWord(s[i - 1])) != (i < |s| && IsWord(s[i]))
  }

  /** Python's `p in s`. */
  predicate Contains(s: string, p: string) {
    exists i | 0 <= i <= |s| - |p| :: OccursAt(s, p, i)
  }

  predicate OccursAt(s: string, p: string, i: nat) {
    i + |p| <= |s| && s[i..i + |p|] == p
  }

  /** The regex (?<!\w)k(?!\w): k occurs with no word character right
      before or right after it. */
  predicate WholeWord(h: string, k: string) {
    exists i | 0 <= i <= |h| - |k| :: WholeWordAt(h, k, i)
  }

  predicate WholeWordAt(h: string, k: string, i: nat) {
    && OccursAt(h, k, i)
    && (i == 0 || !IsWord(h[i - 1]))
    && (i + |k| == |h| || !IsWord(h[i + |k|]))
  }

  /** d.get(k, default) */
  function GetOr<K, V>(m: map<K, V>, k: K, default: V): V {
    if k in m then m[k] else default
  }

  /** s.count(c) */
  function CountChar(s: string, c: char): (n: nat)
    ensures n <= |s|
    decreases |s|
  {
    if s == [] then 0 else (if s[0] == c then 1 else 0) + CountChar(s[1..], c)
  }

  // ---------------------------------------------------------------------
  // Stripping

  /** Drops the leading characters satisfying p. */
  function TrimLeft(s: string, p: char -> bool): (r: string)
    ensures |r| <= |s|
    ensures forall k :: 0 <= k < |s| - |r| ==> p(s[k])
    ensures r == [] || !p(r[0])
    decreases |s|
  {
    if s != [] && p(s[0]) then TrimLeft(s[1..], p) else s
  }

  /** Drops the trailing characters satisfying p. */
  function TrimRight(s: string, p: char -> bool): (r: string)
    ensures |r| <= |s| && (r != [] ==> r[0] == s[0])
    ensures forall k :: |r| <= k < |s| ==> p(s[k])
    ensures r == [] || !p(r[|r| - 1])
    decreases |s|
  {
    if s != [] && p(s[|s| - 1]) then TrimRight(s[..|s| - 1], p) else s
  }

  /** str.strip(chars) for the character class p. */
  function Trim(s: string, p: char -> bool): (r: string)
    ensures r == [] || (!p(r[0]) && !p(r[|r| - 1]))
  {
    TrimRight(TrimLeft(s, p), p)
  }

  /** TrimLeft drops a prefix. */
  lemma {:induction false} TrimLeftIsSuffix(s: string, p: char -> bool)
    ensures TrimLeft(s, p) == s[|s| - |TrimLeft(s, p)|..]
    decreases |s|
  {
    if s != [] && p(s[0]) {
      TrimLeftIsSuffix(s[1..], p);
      assert s[1..][|s| - 1 - |TrimLeft(s, p)|..] == s[|s| - |TrimLeft(s, p)|..];
    }
  }

  /** TrimRight drops a suffix. */
  lemma {:induction false} TrimRightIsPrefix(s: string, p: char -> bool)
    ensures TrimRight(s, p) == s[..|TrimRight(s, p)|]
    decreases |s|
  {
    if s != [] && p(s[|s| - 1]) {
      TrimRightIsPrefix(s[..|s| - 1], p);
      assert s[..|s| - 1][..|TrimRight(s, p)|] == s[..|TrimRight(s, p)|];
    }
  }

  /** Trim returns a contiguous slice of its argument. */
  lemma TrimIsSlice(s: string, p: char -> bool)
    ensures exists a, b :: 0 <= a <= b <= |s| && Trim(s, p) == s[a..b]
  {
    var l := TrimLeft(s, p);
    var a := |s| - |l|;
    var r := TrimRight(l, p);
    TrimLeftIsSuffix(s, p);
    TrimRightIsPrefix(l, p);
    assert r == l[..|r|] == s[a..a + |r|];
  }

  /** str.strip() */
  function Strip(s: string): (r: string)
    ensures r == [] || (!IsSpace(r[0]) && !IsSpace(r[|r| - 1]))
  {
    Trim(s, IsSpace)
  }

  /** Characters of Trim's result come from its argument. */
  lemma TrimChars(s: string, p: char -> bool)
    ensures forall c :: c in Trim(s, p) ==> c in s
  {
    TrimIsSlice(s, p);
  }

  lemma TrimNoop(s: string, p: char -> bool)
    requires s == [] || (!p(s[0]) && !p(s[|s| - 1]))
    ensures Trim(s, p) == s
  {
  }

  lemma StripNoop(s: string)
    requires s == [] || (!IsSpace(s[0]) && !IsSpace(s[|s| - 1]))
    ensures Strip(s) == s
  {
    TrimNoop(s, IsSpace);
  }

  lemma {:induction false} TrimLeftOfNonEmpty(s: string, p: char -> bool, k: nat)
    requires k < |s| && !p(s[k])
    ensures TrimLeft(s, p) != []
    decreases |s|
  {
    if s != [] && p(s[0]) {
      TrimLeftOfNonEmpty(s[1..], p, k - 1);
    }
  }

  /** A string with a character outside p keeps a non-empty Trim. */
  lemma TrimOfNonEmpty(s: string, p: char -> bool, k: nat)
    requires k < |s| && !p(s[k])
    ensures Trim(s, p) != []
  {
    TrimLeftOfNonEmpty(s, p, k);
  }

  // ---------------------------------------------------------------------
  // Splitting and joining

  /** str.split(sep) for a one-character separator: never empty; an empty
      string gives [""]. */
  function SplitOn(s: string, sep: char): (r: seq<string>)
    ensures |r| >= 1
    ensures forall x :: x in r ==> sep !in x
    decreases |s|
  {
    if s == [] then [[]]
    else
      var rest := SplitOn(s[1..], sep);
      if s[0] == sep then [[]] + rest
      else [[s[0]] + rest[0]] + rest[1..]
  }

  /** sep.join(xs) */
  function JoinWith(xs: seq<string>, sep: string): string
    decreases |xs|
  {
    if |xs| == 0 then ""
    else if |xs| == 1 then xs[0]
    else xs[0] + sep + JoinWith(xs[1..], sep)
  }

  lemma {:induction false} SplitJoin(xs: seq<string>, sep: char)
    requires |xs| >= 1
    requires forall x :: x in xs ==> sep !in x
    ensures SplitOn(JoinWith(xs, [sep]), sep) == xs
    decreases |xs|, |xs[0]|
  {
    if |xs| == 1 {
      SplitNoSep(xs[0], sep);
    } else if xs[0] == [] {
      var tail := JoinWith(xs[1..], [sep]);
      assert JoinWith(xs, [sep]) == [sep] + tail;
      assert ([sep] + tail)[1..] == tail;
      SplitJoin(xs[1..], sep);
      assert xs == [[]] + xs[1..];
    } else {
      var ys := [xs[0][1..]] + xs[1..];
      assert ys[1..] == xs[1..];
      assert JoinWith(ys, [sep]) == xs[0][1..] + [sep] + JoinWith(xs[1..], [sep]);
      assert JoinWith(xs, [sep]) == [xs[0][0]] + JoinWith(ys, [sep]);
      assert xs[0][0] in xs[0];
      assert forall y :: y in ys ==> sep !in y by {
        forall y | y in ys ensures sep !in y {
          if y == xs[0][1..] {
            assert forall c :: c in y ==> c in xs[0];
          } else {
            assert y in xs;
          }
        }
      }
      SplitJoin(ys, sep);
      assert ([xs[0][0]] + JoinWith(ys, [sep]))[1..] == JoinWith(ys, [sep]);
      assert [xs[0][0]] + xs[0][1..] == xs[0];
    }
  }

  lemma {:induction false} SplitNoSep(s: string, sep: char)
    requires sep !in s
    ensures SplitOn(s, sep) == [s]
    decreases |s|
  {
    if s != [] {
      assert s[1..] + [] == s[1..];
      assert forall c :: c in s[1..] ==> c in s;
      SplitNoSep(s[1..], sep);
      assert [s[0]] + s[1..] == s;
    }
  }

  /** The stripped, non-blank lines of s:
      [ln.strip() for ln in s.split("\n") if ln.strip()] */
  function NonBlankLines(s: string): seq<string> {
    StrippedNonBlank(SplitOn(s, '\n'))
  }

  /** Every line kept is non-empty, stripped and free of newlines. */
  lemma NonBlankLinesShape(s: string)
    ensures forall x :: x in NonBlankLines(s) ==> x != [] && Strip(x) == x && '\n' !in x
  {
    StrippedNonBlankShape(SplitOn(s, '\n'));
  }

  /** The stripped non-blank elements of ls, in order. */
  function StrippedNonBlank(ls: seq<string>): (r: seq<string>)
    ensures |r| <= |ls|
    decreases |ls|
  {
    if ls == [] then []
    else
      var t := Strip(ls[0]);
      (if t != "" then [t] else []) + StrippedNonBlank(ls[1..])
  }

  lemma {:induction false} StrippedNonBlankShape(ls: seq<string>)
    requires forall x :: x in ls ==> '\n' !in x
    ensures forall x :: x in StrippedNonBlank(ls) ==> x != [] && Strip(x) == x && '\n' !in x
    decreases |ls|
  {
    if ls != [] {
      StripFacts(ls[0]);
      assert forall x :: x in ls[1..] ==> x in ls;
      StrippedNonBlankShape(ls[1..]);
    }
  }

  lemma StripFacts(s: string)
    ensures Strip(Strip(s)) == Strip(s)
    ensures forall c :: c in Strip(s) ==> c in s
  {
    TrimChars(s, IsSpace);
    TrimNoop(Strip(s), IsSpace);
  }

  predicate NotSpace(c: char) { !IsSpace(c) }

  /** str.split() without arguments: the maximal runs of non-space
      characters. */
  function Words(s: string): (ws: seq<string>)
    decreases |s|
  {
    var t := TrimLeft(s, IsSpace);
    if t == [] then []
    else
      assert NotSpace(t[0]);
      var n := RunEnd(t, 0, NotSpace);
      assert 0 < n;
      [t[..n]] + Words(t[n..])
  }

  /** Two spaces side by side at i. */
  predicate SpacePair(t: string, i: nat)
    requires i + 1 < |t|
  {
    t[i] == ' ' && t[i + 1] == ' '
  }

  /** No two spaces side by side. */
  predicate NoDoubleSpace(t: string) {
    forall i: nat | i + 1 < |t| :: !SpacePair(t, i)
  }

  /** re.search over positions: f at the leftmost position p in [i, n]
      where f finds a match. */
  function Leftmost<U>(n: nat, i: nat, f: nat -> Option<U>): Option<U>
    requires i <= n
    decreases n - i
  {
    if f(i).Some? then f(i)
    else if i == n then None
    else Leftmost(n, i + 1, f)
  }

  /** The search finds nothing exactly when no position matches, and
      otherwise the match at the leftmost matching position. */
  lemma {:induction false} LeftmostIsFirst<U>(n: nat, i: nat, f: nat -> Option<U>)
    requires i <= n
    ensures Leftmost(n, i, f).None? <==> forall p | i <= p <= n :: f(p).None?
    ensures Leftmost(n, i, f).Some? ==>
      exists p | i <= p <= n :: f(p) == Leftmost(n, i, f) && forall k | i <= k < p :: f(k).None?
    decreases n - i
  {
    if f(i).None? && i < n {
      LeftmostIsFirst(n, i + 1, f);
      if Leftmost(n, i, f).Some? {
        var p :| i + 1 <= p <= n && f(p) == Leftmost(n, i, f) && forall k | i + 1 <= k < p :: f(k).None?;
        assert forall k | i <= k < p :: f(k).None?;
      }
    }
  }

  /** A property of every match is a property of the leftmost one. */
  lemma {:induction false} LeftmostKeeps<U>(n: nat, i: nat, f: nat -> Option<U>, P: U -> bool)
    requires i <= n
    requires forall p | i <= p <= n :: f(p).Some? ==> P(f(p).value)
    ensures Leftmost(n, i, f).Some? ==> P(Leftmost(n, i, f).value)
    decreases n - i
  {
    if f(i).None? && i < n {
      LeftmostKeeps(n, i + 1, f, P);
    }
  }

  /** A text is its prefix and the rest. */
  lemma PrefixRest<T>(s: seq<T>, n: nat)
    requires n <= |s|
    ensures s[..n] + s[n..] == s
  {
  }

  /** A slice of a text without double spaces has none either. */
  lemma NoDoubleSpaceSlice(t: string, a: nat, b: nat)
    requires a <= b <= |t| && NoDoubleSpace(t)
    ensures NoDoubleSpace(t[a..b])
  {
    var u := t[a..b];
    forall i: nat | i + 1 < |u| ensures !SpacePair(u, i) {
      assert !SpacePair(t, a + i);
      assert u[i] == t[a + i] && u[i + 1] == t[a + i + 1];
    }
  }

  /** Two texts without double spaces, not both touching the seam with a
      space, join into one without. */
  lemma NoDoubleSpaceAppend(a: string, b: string)
    requires NoDoubleSpace(a) && NoDoubleSpace(b)
    requires a != [] && b != [] ==> a[|a| - 1] != ' ' || b[0] != ' '
    ensures NoDoubleSpace(a + b)
  {
    var t := a + b;
    forall i: nat | i + 1 < |t| ensures !SpacePair(t, i) {
      if i + 1 < |a| {
        assert !SpacePair(a, i);
      } else if i + 1 == |a| {
        assert t[i] == a[|a| - 1] && t[i + 1] == b[0];
      } else {
        assert !SpacePair(b, i - |a|);
        assert t[i] == b[i - |a|] && t[i + 1] == b[i - |a| + 1];
      }
    }
  }

  /** re.sub(r"\s+", " ", s): every run of whitespace becomes one space. */
  function CollapseSpace(s: string): (r: string)
    ensures forall c :: c in r ==> c == ' ' || (c in s && !IsSpace(c))
    ensures s != [] ==> r != [] && (r[0] == ' ' <==> IsSpace(s[0]))
    decreases |s|
  {
    if s == [] then []
    else if IsSpace(s[0]) then
      var n := RunEnd(s, 0, IsSpace);
      [' '] + CollapseSpace(s[n..])
    else [s[0]] + CollapseSpace(s[1..])
  }

  /** Collapsed text never holds two spaces side by side. */
  lemma {:induction false} CollapseNoDouble(s: string)
    ensures NoDoubleSpace(CollapseSpace(s))
    decreases |s|
  {
    if s != [] {
      var r := CollapseSpace(s);
      var n := if IsSpace(s[0]) then RunEnd(s, 0, IsSpace) else 1;
      var rest := CollapseSpace(s[n..]);
      CollapseNoDouble(s[n..]);
      assert r == [r[0]] + rest;
      forall i: nat | i + 1 < |r| ensures !SpacePair(r, i) {
        if i == 0 {
          if r[0] == ' ' {
            assert IsSpace(s[0]) && n < |s| ==> !IsSpace(s[n]);
            assert rest != [] ==> (rest[0] == ' ' <==> IsSpace(s[n..][0]));
          }
        } else {
          assert !SpacePair(rest, i - 1);
        }
      }
    }
  }

  /** The only whitespace character is the space. */
  predicate OnlySpaces(t: string) {
    forall i | 0 <= i < |t| :: IsSpace(t[i]) ==> t[i] == ' '
  }

  /** Text whose only whitespace is single spaces is its own collapse. */
  lemma {:induction false} CollapseNoop(s: string)
    requires OnlySpaces(s) && NoDoubleSpace(s)
    ensures CollapseSpace(s) == s
    decreases |s|
  {
    if s != [] {
      NoDoubleSpaceSlice(s, 1, |s|);
      assert s[1..|s|] == s[1..];
      assert forall k | 0 <= k < |s| - 1 :: s[1..][k] == s[k + 1];
      CollapseNoop(s[1..]);
      if IsSpace(s[0]) {
        if 1 < |s| {
          assert !SpacePair(s, 0);
        }
        RunEndIs(s, 0, IsSpace, 1);
      }
    }
  }

  /** The digits of s as a natural number: int(s) for a digit string. */
  function DecimalValue(s: string): nat
    decreases |s|
  {
    if s == [] then 0
    else DecimalValue(s[..|s| - 1]) * 10 + (if IsDigit(s[|s| - 1]) then s[|s| - 1] as int - '0' as int else 0)
  }

  /** str(n) for a natural number. */
  function NatToString(n: nat): (r: string)
    ensures |r| >= 1 && IsDigits(r)
    decreases n
  {
    var d := [('0' as int + n % 10) as char];
    if n < 10 then d else NatToString(n / 10) + d
  }

  lemma {:induction false} NatToStringRoundTrip(n: nat)
    ensures DecimalValue(NatToString(n)) == n
    decreases n
  {
    var r := NatToString(n);
    if n >= 10 {
      NatToStringRoundTrip(n / 10);
      assert r[..|r| - 1] == NatToString(n / 10);
    }
  }
}
