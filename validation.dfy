/** The decision made by `validateField` (main.js): a field's trimmed value is
    checked against the required rule and one type rule, and at most one error
    message results. The email and phone checks are the two regular
    expressions of the source; the URL check is the browser's URL parser,
    passed in as an opaque predicate. */
module Validation {

  // ---------------------------------------------------------------------
  // Whitespace and trimming
  // ---------------------------------------------------------------------

  /** The characters matched by the regular-expression class `\s`, which are
      also the characters `String.prototype.trim` strips: the ECMAScript
      WhiteSpace and LineTerminator code points. */
  predicate IsSpace(c: char) {
    || c == '\t' || c == '\n' || c == '\U{B}' || c == '\U{C}' || c == '\r'
    || c == ' ' || c == '\U{A0}' || c == '\U{1680}'
    || ('\U{2000}' <= c <= '\U{200A}')
    || c == '\U{2028}' || c == '\U{2029}' || c == '\U{202F}' || c == '\U{205F}'
    || c == '\U{3000}' || c == '\U{FEFF}'
  }

  /** A value that `trim` turns into the empty string. */
  predicate Blank(s: string) {
    forall i :: 0 <= i < |s| ==> IsSpace(s[i])
  }

  /** The number of whitespace characters `s` starts with. */
  function LeadingSpaces(s: string): (n: nat)
    ensures n <= |s|
    ensures forall i :: 0 <= i < n ==> IsSpace(s[i])
    ensures n < |s| ==> !IsSpace(s[n])
  {
    if s != [] && IsSpace(s[0]) then
      var n := 1 + LeadingSpaces(s[1..]);
      assert forall i :: 1 <= i < n ==> s[i] == s[1..][i - 1];
      n
    else 0
  }

  /** Where the whitespace that `s` ends with begins, looking no further
      back than `lo`. */
  function TrailingStart(s: string, lo: nat): (n: nat)
    requires lo <= |s|
    ensures lo <= n <= |s|
    ensures forall i :: n <= i < |s| ==> IsSpace(s[i])
    ensures lo < n ==> !IsSpace(s[n - 1])
    decreases |s|
  {
    if lo < |s| && IsSpace(s[|s| - 1]) then
      var n := TrailingStart(s[..|s| - 1], lo);
      assert forall i :: n <= i < |s| - 1 ==> s[i] == s[..|s| - 1][i];
      n
    else |s|
  }

  /** `String.prototype.trim`: `s` with the whitespace at both ends cut off,
      so that what is left neither starts nor ends with whitespace; empty
      exactly when `s` is blank. */
  function Trim(s: string): (t: string)
    ensures exists lo, hi ::
              && 0 <= lo <= hi <= |s| && t == s[lo..hi]
              && (forall i :: 0 <= i < lo ==> IsSpace(s[i]))
              && (forall i :: hi <= i < |s| ==> IsSpace(s[i]))
    ensures t != [] ==> !IsSpace(t[0]) && !IsSpace(t[|t| - 1])
    ensures t == [] <==> Blank(s)
  {
    var lo := LeadingSpaces(s);
    var hi := TrailingStart(s, lo);
    assert lo < hi ==> s[lo..hi][0] == s[lo] && s[lo..hi][hi - lo - 1] == s[hi - 1];
    s[lo..hi]
  }

  /** A value with no whitespace at either end is left as it is by `trim`. */
  lemma TrimKeepsTrimmed(s: string)
    requires s != [] && !IsSpace(s[0]) && !IsSpace(s[|s| - 1])
    ensures Trim(s) == s
  {
  }

  // ---------------------------------------------------------------------
  // Email: /^[^\s@]+@[^\s@]+\.[^\s@]+$/
  // ---------------------------------------------------------------------

  /** A character of the class `[^\s@]`. */
  predicate EmailChar(c: char) {
    !IsSpace(c) && c != '@'
  }

  /** A string matched by `[^\s@]+`. */
  predicate EmailRun(t: string) {
    |t| > 0 && forall i :: 0 <= i < |t| ==> EmailChar(t[i])
  }

  /** The language of the email regular expression: three non-empty runs
      separated by an '@' and a '.', the regex engine being free to pick any
      '@' and any '.' that make the three runs match. */
  ghost predicate EmailPattern(s: string) {
    exists i, j :: 0 < i < j < |s| && s[i] == '@' && s[j] == '.'
      && EmailRun(s[..i]) && EmailRun(s[i + 1..j]) && EmailRun(s[j + 1..])
  }

  /** The same language described by its shape: no whitespace, exactly one
      '@', something before it, and after it a '.' that is neither the first
      nor the last character. */
  ghost predicate EmailShape(s: string) {
    && (forall k :: 0 <= k < |s| ==> !IsSpace(s[k]))
    && (exists i :: 0 < i < |s| && s[i] == '@'
          && (forall k :: 0 <= k < |s| && s[k] == '@' ==> k == i)
          && HasInnerDot(s[i + 1..]))
  }

  /** A '.' somewhere strictly inside `d`. */
  predicate HasInnerDot(d: string) {
    exists k :: 0 < k < |d| - 1 && d[k] == '.'
  }

  /** The position of the first `c` in `s`, or `|s|` when there is none. */
  function IndexOf(s: string, c: char): (i: nat)
    ensures i <= |s|
    ensures i < |s| ==> s[i] == c
    ensures forall k :: 0 <= k < i ==> s[k] != c
  {
    if s == [] then 0
    else if s[0] == c then 0
    else 1 + IndexOf(s[1..], c)
  }

  /** The email check as a deterministic test: split at the first '@'. */
  predicate IsEmail(s: string) {
    var at := IndexOf(s, '@');
    && at < |s|
    && EmailRun(s[..at])
    && (forall k :: at < k < |s| ==> EmailChar(s[k]))
    && HasInnerDot(s[at + 1..])
  }

  /** A stretch of `s` made of email characters is a run. */
  lemma EmailRunSlice(s: string, lo: int, hi: int)
    requires 0 <= lo < hi <= |s|
    requires forall k :: lo <= k < hi ==> EmailChar(s[k])
    ensures EmailRun(s[lo..hi])
  {
    forall q | 0 <= q < hi - lo ensures EmailChar(s[lo..hi][q]) {
      assert s[lo..hi][q] == s[lo + q];
    }
  }

  /** A run inside `s` holds no '@' and no whitespace. */
  lemma EmailRunChars(s: string, lo: int, hi: int)
    requires 0 <= lo <= hi <= |s|
    requires EmailRun(s[lo..hi])
    ensures forall k :: lo <= k < hi ==> EmailChar(s[k])
  {
    forall k | lo <= k < hi ensures EmailChar(s[k]) {
      assert s[lo..hi][k - lo] == s[k];
    }
  }

  /** Every string the deterministic check accepts is in the regex language. */
  lemma IsEmailInPattern(s: string)
    requires IsEmail(s)
    ensures EmailPattern(s)
  {
    var at := IndexOf(s, '@');
    var d := s[at + 1..];
    var k :| 0 < k < |d| - 1 && d[k] == '.';
    var j := at + 1 + k;
    assert s[j] == '.';
    EmailRunSlice(s, at + 1, j);
    EmailRunSlice(s, j + 1, |s|);
    assert s[j + 1..] == s[j + 1..|s|];
  }

  /** Two stretches of email characters joined by a '.' make one. */
  lemma DotJoinsRuns(s: string, i: int, j: int)
    requires 0 <= i < j < |s| && s[j] == '.'
    requires forall k :: i < k < j ==> EmailChar(s[k])
    requires forall k :: j < k < |s| ==> EmailChar(s[k])
    ensures forall k :: i < k < |s| ==> EmailChar(s[k])
  {
    assert EmailChar('.');
  }

  /** A string split by an '@' at `i` and a '.' at `j` into three non-empty
      stretches of email characters passes the deterministic check. */
  lemma SplitIsEmail(s: string, i: int, j: int)
    requires 0 < i && i + 1 < j < |s| - 1 && s[i] == '@' && s[j] == '.'
    requires forall k :: 0 <= k < i ==> EmailChar(s[k])
    requires forall k :: i < k < j ==> EmailChar(s[k])
    requires forall k :: j < k < |s| ==> EmailChar(s[k])
    ensures IsEmail(s)
  {
    var at := IndexOf(s, '@');
    assert at == i by {
      assert at <= i;
      assert s[at] == '@';
    }
    assert EmailRun(s[..at]) by {
      EmailRunSlice(s, 0, at);
      assert s[..at] == s[0..at];
    }
    DotJoinsRuns(s, i, j);
    var d := s[at + 1..];
    assert 0 < j - at - 1 < |d| - 1 && d[j - at - 1] == '.';
  }

  /** Every string of the regex language passes the deterministic check: the
      '@' the regex uses is the first one, and the rest holds no other. */
  lemma PatternIsEmail(s: string)
    requires EmailPattern(s)
    ensures IsEmail(s)
  {
    var i, j :| 0 < i < j < |s| && s[i] == '@' && s[j] == '.'
      && EmailRun(s[..i]) && EmailRun(s[i + 1..j]) && EmailRun(s[j + 1..]);
    assert s[..i] == s[0..i];
    assert s[j + 1..] == s[j + 1..|s|];
    EmailRunChars(s, 0, i);
    EmailRunChars(s, i + 1, j);
    EmailRunChars(s, j + 1, |s|);
    SplitIsEmail(s, i, j);
  }

  /** The deterministic check accepts exactly the language of the regular
      expression. */
  lemma IsEmailMatchesPattern(s: string)
    ensures IsEmail(s) <==> EmailPattern(s)
  {
    if IsEmail(s) { IsEmailInPattern(s); }
    if EmailPattern(s) { PatternIsEmail(s); }
  }

  /** The deterministic check accepts exactly the strings of the stated shape. */
  lemma IsEmailMatchesShape(s: string)
    ensures IsEmail(s) <==> EmailShape(s)
  {
    var at := IndexOf(s, '@');
    if IsEmail(s) {
      forall k | 0 <= k < |s| ensures !IsSpace(s[k]) {
        if k < at { assert s[..at][k] == s[k]; }
      }
      assert forall k :: 0 <= k < |s| && s[k] == '@' ==> k == at;
    }
    if EmailShape(s) {
      var i :| 0 < i < |s| && s[i] == '@'
        && (forall k :: 0 <= k < |s| && s[k] == '@' ==> k == i)
        && HasInnerDot(s[i + 1..]);
      assert at == i;
      assert EmailRun(s[..at]) by {
        forall q | 0 <= q < at ensures EmailChar(s[..at][q]) {
          assert s[..at][q] == s[q];
        }
      }
    }
  }

  // ---------------------------------------------------------------------
  // Phone: /^[\+]?[0-9\s\-\(\)]+$/
  // ---------------------------------------------------------------------

  /** A character of the class `[0-9\s\-\(\)]`. */
  predicate PhoneChar(c: char) {
    ('0' <= c <= '9') || IsSpace(c) || c == '-' || c == '(' || c == ')'
  }

  /** A string matched by `[0-9\s\-\(\)]+`. */
  predicate PhoneRun(t: string) {
    |t| > 0 && forall i :: 0 <= i < |t| ==> PhoneChar(t[i])
  }

  /** The language of the phone regular expression: the optional '+' either
      skipped or taken, then one or more phone characters. */
  ghost predicate PhonePattern(s: string) {
    PhoneRun(s) || (|s| > 0 && s[0] == '+' && PhoneRun(s[1..]))
  }

  /** The phone check as a deterministic test: take a leading '+' if there
      is one. */
  predicate IsPhone(s: string) {
    if |s| > 0 && s[0] == '+' then PhoneRun(s[1..]) else PhoneRun(s)
  }

  /** Taking the '+' greedily loses no match, because '+' is not a phone
      character; and a '+' is only ever accepted at the very front, with at
      least one character after it. */
  lemma IsPhoneMatchesPattern(s: string)
    ensures IsPhone(s) <==> PhonePattern(s)
    ensures IsPhone(s) ==> forall i :: 0 < i < |s| ==> s[i] != '+'
    ensures IsPhone(s) && s[0] == '+' ==> |s| >= 2
  {
    if |s| > 0 && s[0] == '+' {
      assert !PhoneChar(s[0]);
      assert !PhoneRun(s);
      if IsPhone(s) {
        forall i | 0 < i < |s| ensures s[i] != '+' {
          assert s[1..][i - 1] == s[i];
        }
      }
    }
  }

  // ---------------------------------------------------------------------
  // validateField
  // ---------------------------------------------------------------------

  /** The input types that have a rule of their own; every other `type`
      attribute value is `OtherKind`. */
  datatype Kind = Email | Tel | Url | OtherKind

  /** The parts of an input that `validateField` looks at: whether the input
      sits inside a `.form-group`, its `required` attribute, its `type` and
      its raw value. */
  datatype Field = Field(inFormGroup: bool, required: bool, kind: Kind, value: string)

  datatype Verdict = Valid | Invalid(message: string)

  const RequiredMessage := "Este campo es obligatorio"
  const EmailMessage := "Por favor ingresa un email válido"
  const PhoneMessage := "Por favor ingresa un teléfono válido"
  const UrlMessage := "Por favor ingresa una URL válida"

  /** The message of the type rule for `k`, for the three kinds that have one. */
  function KindMessage(k: Kind): string
    requires k != OtherKind
  {
    match k
    case Email => EmailMessage
    case Tel => PhoneMessage
    case Url => UrlMessage
  }

  /** The type rule of `validateField` for a non-empty trimmed value: the
      one regular expression (or the URL parser) of the field's type. */
  function TypeRule(k: Kind, value: string, parsesAsUrl: string -> bool): (v: Verdict)
    ensures v.Invalid? ==> k != OtherKind && v.message == KindMessage(k)
  {
    match k
    case Email => if IsEmail(value) then Valid else Invalid(EmailMessage)
    case Tel => if IsPhone(value) then Valid else Invalid(PhoneMessage)
    case Url => if parsesAsUrl(value) then Valid else Invalid(UrlMessage)
    case OtherKind => Valid
  }

  /** `validateField`: the if/else-if chain on the trimmed value; the first
      rule that applies decides, so at most one message comes out. Every type
      rule is guarded by a non-empty value, so an empty value that is not
      required passes. */
  function Validate(f: Field, parsesAsUrl: string -> bool): (v: Verdict)
    ensures v.Invalid? ==> f.inFormGroup
    ensures v.Invalid? ==> v.message in {RequiredMessage, EmailMessage, PhoneMessage, UrlMessage}
  {
    var value := Trim(f.value);
    if !f.inFormGroup then Valid
    else if f.required && value == [] then Invalid(RequiredMessage)
    else if value == [] then Valid
    else TypeRule(f.kind, value, parsesAsUrl)
  }

  /** What an acceptable field is, stated on the raw value and the regular
      expressions' languages rather than on the checks. */
  ghost predicate Acceptable(f: Field, parsesAsUrl: string -> bool) {
    var t := Trim(f.value);
    || !f.inFormGroup
    || (&& (f.required ==> !Blank(f.value))
        && (!Blank(f.value) ==>
              match f.kind
              case Email => EmailPattern(t)
              case Tel => PhonePattern(t)
              case Url => parsesAsUrl(t)
              case OtherKind => true))
  }

  /** A field passes exactly when it is acceptable. */
  lemma ValidateAcceptsAcceptable(f: Field, parsesAsUrl: string -> bool)
    ensures Validate(f, parsesAsUrl) == Valid <==> Acceptable(f, parsesAsUrl)
  {
    var t := Trim(f.value);
    if f.inFormGroup && t != [] {
      match f.kind
      case Email => IsEmailMatchesPattern(t);
      case Tel => IsPhoneMatchesPattern(t);
      case Url =>
      case OtherKind =>
    }
  }

  /** The rule order: a blank required field fails with the required message
      whatever its type; a blank optional field passes; a field outside any
      form group passes; any other message is the one of the field's own
      type, on a non-blank value. */
  lemma ValidateRuleOrder(f: Field, parsesAsUrl: string -> bool)
    ensures !f.inFormGroup ==> Validate(f, parsesAsUrl) == Valid
    ensures f.inFormGroup && f.required && Blank(f.value) ==>
      Validate(f, parsesAsUrl) == Invalid(RequiredMessage)
    ensures !f.required && Blank(f.value) ==> Validate(f, parsesAsUrl) == Valid
    ensures Validate(f, parsesAsUrl).Invalid? && !(f.required && Blank(f.value)) ==>
      !Blank(f.value) && f.kind != OtherKind && Validate(f, parsesAsUrl).message == KindMessage(f.kind)
  {
    var t := Trim(f.value);
    assert t == [] <==> Blank(f.value);
  }

  /** Worked example: an empty required email field. */
  lemma ValidateEmptyRequiredEmail(parsesAsUrl: string -> bool)
    ensures Validate(Field(true, true, Email, ""), parsesAsUrl) == Invalid(RequiredMessage)
  {
  }

  /** Worked example: a well-formed email address. */
  lemma ValidateGoodEmail(parsesAsUrl: string -> bool)
    ensures Validate(Field(true, true, Email, "a@b.com"), parsesAsUrl) == Valid
  {
    var e := "a@b.com";
    assert IsEmail(e) by {
      assert e[..1] == "a" && e[2..3] == "b" && e[4..] == "com";
      assert EmailRun("a") && EmailRun("b") && EmailRun("com");
      assert e[1] == '@' && e[3] == '.';
      PatternIsEmail(e);
    }
    TrimKeepsTrimmed(e);
  }

  /** The outcome of the phone rule on a field whose value is already
      trimmed and not empty. */
  lemma ValidateTrimmedPhone(f: Field, parsesAsUrl: string -> bool)
    requires f.inFormGroup && f.kind == Tel && f.value != []
    requires !IsSpace(f.value[0]) && !IsSpace(f.value[|f.value| - 1])
    ensures Validate(f, parsesAsUrl) == if IsPhone(f.value) then Valid else Invalid(PhoneMessage)
  {
    TrimKeepsTrimmed(f.value);
  }

  /** Worked example: an international phone number passes. */
  lemma ValidateGoodPhone(parsesAsUrl: string -> bool)
    ensures Validate(Field(true, false, Tel, "+1 (555) 123-4567"), parsesAsUrl) == Valid
  {
    var p := "+1 (555) 123-4567";
    assert IsPhone(p) by {
      var body := p[1..];
      assert body == "1 (555) 123-4567";
      forall i | 0 <= i < |body| ensures PhoneChar(body[i]) {
        assert body[i] in "0123456789 ()-";
      }
    }
    assert !IsSpace(p[0]) && !IsSpace(p[|p| - 1]);
    ValidateTrimmedPhone(Field(true, false, Tel, p), parsesAsUrl);
  }

  /** Worked example: words fail the phone rule. */
  lemma ValidateWordsAsPhone(parsesAsUrl: string -> bool)
    ensures Validate(Field(true, false, Tel, "call me"), parsesAsUrl) == Invalid(PhoneMessage)
  {
    var c := "call me";
    assert !IsPhone(c) by {
      assert c[0] == 'c' && !PhoneChar(c[0]);
    }
    assert !IsSpace(c[0]) && !IsSpace(c[|c| - 1]);
    ValidateTrimmedPhone(Field(true, false, Tel, c), parsesAsUrl);
  }

  /** Worked example: a lone '+' fails the phone rule. */
  lemma ValidateLonePlus(parsesAsUrl: string -> bool)
    ensures Validate(Field(true, false, Tel, "+"), parsesAsUrl) == Invalid(PhoneMessage)
  {
    assert !IsPhone("+") by {
      assert "+"[1..] == [];
    }
    assert !IsSpace('+');
    ValidateTrimmedPhone(Field(true, false, Tel, "+"), parsesAsUrl);
  }

  /** Worked example: a '+' after the first character fails the phone rule. */
  lemma ValidateInnerPlus(parsesAsUrl: string -> bool)
    ensures Validate(Field(true, false, Tel, "1+2"), parsesAsUrl) == Invalid(PhoneMessage)
  {
    var q := "1+2";
    assert !IsPhone(q) by {
      assert q[1] == '+' && !PhoneChar(q[1]);
    }
    assert !IsSpace(q[0]) && !IsSpace(q[|q| - 1]);
    ValidateTrimmedPhone(Field(true, false, Tel, q), parsesAsUrl);
  }
}
