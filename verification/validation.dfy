/** The field validators of deet-schema/validation.py and the error list
    validate_profile accumulates. The validators accept any JSON value and
    reject everything that is not a string. */
module Validation {
  import opened Text

  /** A decoded JSON value. Numbers are integers here. */
  datatype Json =
    | Null
    | Bool(b: bool)
    | Num(n: int)
    | Str(s: string)
    | Arr(items: seq<Json>)
    | Obj(fields: map<string, Json>)

  /** Python truthiness: None, False, 0 and the empty string, list and
      dict are false. */
  predicate Truthy(j: Json) {
    match j
    case Null => false
    case Bool(b) => b
    case Num(n) => n != 0
    case Str(s) => s != ""
    case Arr(items) => items != []
    case Obj(fields) => fields != map[]
  }

  /** Every character of s satisfies p. */
  predicate Every(s: string, p: char -> bool) {
    forall k | 0 <= k < |s| :: p(s[k])
  }

  // ---------------------------------------------------------------------
  // validate_email

  /** The class [\w\.-]. */
  predicate IsEmailChar(c: char) { IsWord(c) || c == '.' || c == '-' }

  /** The pattern [\w\.-]+@[\w\.-]+\.\w+ spans t with its "@" at `at` and
      its escaped dot at `dot`. */
  predicate EmailAt(t: string, at: nat, dot: nat) {
    && 0 < at && at + 1 < dot && dot + 1 < |t|
    && Every(t[..at], IsEmailChar) && t[at] == '@'
    && Every(t[at + 1..dot], IsEmailChar) && t[dot] == '.'
    && Every(t[dot + 1..], IsWord)
  }

  /** t is one match of the pattern, whatever the split. */
  ghost predicate EmailShape(t: string) {
    exists at: nat, dot: nat | at < dot < |t| :: EmailAt(t, at, dot)
  }

  /** re.match with ^ and $: the whole string matches, or all of it but a
      final line break, since $ also matches just before a final "\n". */
  ghost predicate EmailMatch(s: string) {
    EmailShape(s) || (s != [] && s[|s| - 1] == '\n' && EmailShape(s[..|s| - 1]))
  }

  /** The position of the last '.' of t, or |t| when there is none. */
  function LastDot(t: string): (d: nat)
    ensures d <= |t|
    ensures d < |t| ==> t[d] == '.'
    ensures forall k | d < k < |t| :: t[k] != '.'
    ensures d == |t| ==> forall k | 0 <= k < |t| :: t[k] != '.'
    decreases |t|
  {
    if t == [] then 0
    else if t[|t| - 1] == '.' then |t| - 1
    else
      var d := LastDot(t[..|t| - 1]);
      if d == |t| - 1 then |t| else d
  }

  /** A deterministic matcher: the "@" ends the leading run of the class,
      since "@" is not in it; the escaped dot is the last dot, since \w+
      holds none. */
  function ScanEmail(t: string): bool {
    var at := RunEnd(t, 0, IsEmailChar);
    var dot := LastDot(t);
    && 0 < at < |t| && t[at] == '@'
    && at + 1 < dot && dot + 1 < |t|
    && Every(t[at + 1..dot], IsEmailChar) && Every(t[dot + 1..], IsWord)
  }

  /** The matcher accepts exactly the strings the pattern spans. */
  lemma ScanEmailIsShape(t: string)
    ensures ScanEmail(t) <==> EmailShape(t)
  {
    var at := RunEnd(t, 0, IsEmailChar);
    var dot := LastDot(t);
    RunEndAll(t, 0, IsEmailChar);
    if ScanEmail(t) {
      assert EmailAt(t, at, dot);
    }
    if EmailShape(t) {
      var a: nat, d: nat :| a < d < |t| && EmailAt(t, a, d);
      assert forall k | 0 <= k < a :: IsEmailChar(t[k]) by {
        assert forall k | 0 <= k < a :: t[..a][k] == t[k];
      }
      RunEndIs(t, 0, IsEmailChar, a);
      assert forall k | d < k < |t| :: IsWord(t[k]) by {
        assert forall k | d < k < |t| :: t[d + 1..][k - d - 1] == t[k];
      }
      assert dot == d;
    }
  }

  /** validate_email */
  function ValidEmail(email: Json): (ok: bool)
    ensures ok ==> email.Str?
  {
    match email
    case Str(s) => ScanEmail(s) || (s != [] && s[|s| - 1] == '\n' && ScanEmail(s[..|s| - 1]))
    case _ => false
  }

  /** validate_email holds exactly for the strings re.match accepts. */
  lemma ValidEmailMatches(email: Json)
    ensures ValidEmail(email) <==> email.Str? && EmailMatch(email.s)
  {
    if email.Str? {
      var s := email.s;
      ScanEmailIsShape(s);
      if s != [] {
        ScanEmailIsShape(s[..|s| - 1]);
      }
    }
  }

  /** A plain address passes; a line break after it still passes, because
      of $; a missing dot or a non-string fails. */
  lemma EmailExamples()
    ensures ValidEmail(Str("a@b.io"))
    ensures ValidEmail(Str("a@b.io\n"))
    ensures !ValidEmail(Str("a@b"))
    ensures !ValidEmail(Num(7))
  {
    var t := "a@b.io";
    assert RunEnd(t, 0, IsEmailChar) == 1 by {
      RunEndIs(t, 0, IsEmailChar, 1);
    }
    assert LastDot(t) == 3 by {
      assert LastDot(t[..5]) == 3;
    }
    assert t[2..3] == "b" && t[4..] == "io";
    assert ScanEmail(t);
    assert "a@b.io\n"[..6] == t;
    assert LastDot("a@b") == 3;
  }

  // ---------------------------------------------------------------------
  // validate_phone and validate_year

  /** validate_phone: a string of exactly ten digits. */
  function ValidPhone(phone: Json): (ok: bool)
    ensures ok <==> phone.Str? && |phone.s| == 10 && forall k | 0 <= k < 10 :: IsDigit(phone.s[k])
  {
    phone.Str? && IsDigits(phone.s) && |phone.s| == 10
  }

  /** validate_year: a string of digits whose value, leading zeros
      allowed, lies in 1900..2100. */
  function ValidYear(year: Json): (ok: bool)
    ensures ok ==> year.Str? && IsDigits(year.s)
  {
    year.Str? && IsDigits(year.s) && 1900 <= DecimalValue(year.s) <= 2100
  }

  /** A year written out in decimal passes exactly when it lies in
      1900..2100. */
  lemma YearRange(n: nat)
    ensures ValidYear(Str(NatToString(n))) <==> 1900 <= n <= 2100
  {
    NatToStringRoundTrip(n);
  }

  /** int() ignores leading zeros, so "02000" is a valid year, and the
      empty string is not. */
  lemma YearExamples()
    ensures ValidYear(Str("02000"))
    ensures !ValidYear(Str(""))
    ensures !ValidYear(Num(2000))
  {
    var s := "02000";
    assert s[..4] == "0200" && s[..3] == "020" && s[..2] == "02" && s[..1] == "0";
    assert "02"[..1] == "0" && "020"[..2] == "02" && "0200"[..3] == "020";
    assert DecimalValue("0") == 0;
    assert DecimalValue("02") == 2;
    assert DecimalValue("020") == 20;
    assert DecimalValue("0200") == 200;
  }

  // ---------------------------------------------------------------------
  // validate_profile

  /** The four messages of validate_profile, in the order it checks. */
  datatype Error = NameRequired | InvalidEmail | InvalidPhone | InvalidYear

  function Message(e: Error): string {
    match e
    case NameRequired => "Name is required"
    case InvalidEmail => "Invalid email"
    case InvalidPhone => "Invalid phone number"
    case InvalidYear => "Invalid passing year"
  }

  /** data.get("profile", data). */
  function ProfileOf(data: Json): Json
    requires data.Obj?
  {
    if "profile" in data.fields then data.fields["profile"] else data
  }

  /** An object holding the keys listed. */
  predicate HasKeys(j: Json, keys: set<string>) {
    j.Obj? && keys <= j.fields.Keys
  }

  /** The lookups of validate_profile all succeed. */
  predicate Keyed(data: Json) {
    && data.Obj?
    && var p := ProfileOf(data);
    && HasKeys(p, {"personal", "education"})
    && HasKeys(p.fields["personal"], {"name", "email", "phone"})
    && HasKeys(p.fields["education"], {"year_of_passing"})
  }

  function Personal(data: Json, key: string): Json
    requires Keyed(data) && key in {"name", "email", "phone"}
  {
    ProfileOf(data).fields["personal"].fields[key]
  }

  function PassingYear(data: Json): Json
    requires Keyed(data)
  {
    ProfileOf(data).fields["education"].fields["year_of_passing"]
  }

  /** The check that reports e fails. */
  predicate Fails(data: Json, e: Error)
    requires Keyed(data)
  {
    match e
    case NameRequired => !Truthy(Personal(data, "name"))
    case InvalidEmail => !ValidEmail(Personal(data, "email"))
    case InvalidPhone => !ValidPhone(Personal(data, "phone"))
    case InvalidYear => !ValidYear(PassingYear(data))
  }

  /** The message when the flag is raised, else nothing. */
  function When(flag: bool, e: Error): seq<string> {
    if flag then [Message(e)] else []
  }

  /** The messages validate_profile reports, in its order. */
  function Errors(data: Json): seq<string>
    requires Keyed(data)
  {
    When(Fails(data, NameRequired), NameRequired) + When(Fails(data, InvalidEmail), InvalidEmail)
      + When(Fails(data, InvalidPhone), InvalidPhone) + When(Fails(data, InvalidYear), InvalidYear)
  }

  /** validate_profile */
  method ValidateProfile(data: Json) returns (errors: seq<string>)
    requires Keyed(data)
    ensures errors == Errors(data)
  {
    errors := [];
    var profile := if "profile" in data.fields then data.fields["profile"] else data;
    var personal := profile.fields["personal"];
    if !Truthy(personal.fields["name"]) {
      errors := errors + [Message(NameRequired)];
    }
    assert errors == When(Fails(data, NameRequired), NameRequired);
    ghost var before := errors;
    if !ValidEmail(personal.fields["email"]) {
      errors := errors + [Message(InvalidEmail)];
    }
    assert errors == before + When(Fails(data, InvalidEmail), InvalidEmail);
    before := errors;
    if !ValidPhone(personal.fields["phone"]) {
      errors := errors + [Message(InvalidPhone)];
    }
    assert errors == before + When(Fails(data, InvalidPhone), InvalidPhone);
    before := errors;
    if !ValidYear(profile.fields["education"].fields["year_of_passing"]) {
      errors := errors + [Message(InvalidYear)];
    }
    assert errors == before + When(Fails(data, InvalidYear), InvalidYear);
  }

  /** Each message names one check. */
  lemma MessagesDistinct(e: Error, f: Error)
    ensures Message(e) == Message(f) <==> e == f
  {
    assert Message(InvalidPhone)[9] != Message(InvalidYear)[9];
  }

  /** A message is reported exactly when its check fails. */
  lemma ErrorsReported(data: Json, e: Error)
    requires Keyed(data)
    ensures Message(e) in Errors(data) <==> Fails(data, e)
  {
    forall f: Error {
      MessagesDistinct(e, f);
    }
  }

  /** Each check reports at most once, so no message repeats. */
  lemma ErrorsDistinct(data: Json)
    requires Keyed(data)
    ensures forall i, j | 0 <= i < j < |Errors(data)| :: Errors(data)[i] != Errors(data)[j]
  {
    forall e: Error, f: Error {
      MessagesDistinct(e, f);
    }
  }

  /** The list is empty exactly when all four checks pass. */
  lemma NoErrorsIffValid(data: Json)
    requires Keyed(data)
    ensures Errors(data) == [] <==>
      && Truthy(Personal(data, "name")) && ValidEmail(Personal(data, "email"))
      && ValidPhone(Personal(data, "phone")) && ValidYear(PassingYear(data))
  {
  }

  /** With a "profile" key present, only the nested record is checked: the
      other top-level entries can be anything. */
  lemma OuterIgnored(data: Json, k: string, v: Json)
    requires Keyed(data) && "profile" in data.fields && k != "profile"
    ensures Keyed(Obj(data.fields[k := v]))
    ensures Errors(Obj(data.fields[k := v])) == Errors(data)
  {
    assert ProfileOf(Obj(data.fields[k := v])) == ProfileOf(data);
  }
}
