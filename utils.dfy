/** The field validators of utils.py: pure predicates over strings and
    numbers. Regular expressions are modelled by a computable predicate that
    follows how the match succeeds (`EmailMatch`, `NameMatch`) and, for the
    email pattern, by a declarative description of the strings the pattern
    accepts (`EmailPattern`), with a lemma that the two agree. */
module Utils {
  import opened Results

  // ---------------------------------------------------------------------
  // Character classes

  predicate IsAsciiUpper(c: char) { 'A' <= c <= 'Z' }

  predicate IsAsciiLower(c: char) { 'a' <= c <= 'z' }

  predicate IsAsciiLetter(c: char) { IsAsciiUpper(c) || IsAsciiLower(c) }

  predicate IsAsciiDigit(c: char) { '0' <= c <= '9' }

  /** Python's notion of whitespace: what `\s` matches in a str pattern, what
      `str.isspace` accepts and what `str.strip()` removes. */
  predicate IsWhitespace(c: char)
  {
    || ('\t' <= c <= '\r')             // \t \n \x0b \x0c \r
    || ('\U{1C}' <= c <= ' ')          // \x1c..\x1f and the space
    || c == '\U{85}' || c == '\U{A0}' || c == '\U{1680}'
    || ('\U{2000}' <= c <= '\U{200A}')
    || c == '\U{2028}' || c == '\U{2029}' || c == '\U{202F}' || c == '\U{205F}' || c == '\U{3000}'
  }

  /** Every character of `s` satisfies `p`. */
  predicate Every(s: string, p: char -> bool)
  {
    forall k :: 0 <= k < |s| ==> p(s[k])
  }

  /** `re.search` with a one-character class: a left-to-right scan. */
  function Search(s: string, p: char -> bool): (found: bool)
    ensures found <==> exists k :: 0 <= k < |s| && p(s[k])
  {
    if s == [] then false
    else if p(s[0]) then true
    else
      var found := Search(s[1..], p);
      assert forall k :: 1 <= k < |s| ==> s[k] == s[1..][k - 1];
      found
  }

  function FirstIndexOf(s: string, x: char): (r: Option<nat>)
    ensures r.None? <==> x !in s
    ensures r.Some? ==> r.value < |s| && s[r.value] == x && x !in s[..r.value]
  {
    if s == [] then None
    else if s[0] == x then Some(0)
    else
      match FirstIndexOf(s[1..], x)
      case None => None
      case Some(i) =>
        assert s[..i + 1] == [s[0]] + s[1..][..i];
        Some(i + 1)
  }

  function LastIndexOf(s: string, x: char): (r: Option<nat>)
    ensures r.None? <==> x !in s
    ensures r.Some? ==> r.value < |s| && s[r.value] == x && x !in s[r.value + 1..]
  {
    if s == [] then None
    else if s[|s| - 1] == x then Some(|s| - 1)
    else
      var r := LastIndexOf(s[..|s| - 1], x);
      assert s == s[..|s| - 1] + [s[|s| - 1]];
      r
  }

  // ---------------------------------------------------------------------
  // Case folding (str.lower, used by the registry)

  /** `str.lower` on one character, for the ASCII range. */
  function LowerChar(c: char): (l: char)
    ensures IsAsciiUpper(c) ==> IsAsciiLower(l) && l as int == c as int + 32
    ensures !IsAsciiUpper(c) ==> l == c
  {
    if IsAsciiUpper(c) then (c as int + 32) as char else c
  }

  /** `str.lower`, character by character. */
  function Lower(s: string): (r: string)
    ensures |r| == |s|
    ensures forall k :: 0 <= k < |s| ==> r[k] == LowerChar(s[k])
  {
    if s == [] then [] else [LowerChar(s[0])] + Lower(s[1..])
  }

  lemma LowerIdempotent(s: string)
    ensures Lower(Lower(s)) == Lower(s)
  {
  }

  /** A string without ASCII capitals is its own lower-case form. */
  lemma LowerKeepsLowercase(s: string)
    requires forall k :: 0 <= k < |s| ==> !IsAsciiUpper(s[k])
    ensures Lower(s) == s
  {
  }

  // ---------------------------------------------------------------------
  // validate_email: the anchored regex of utils.py, line 7

  predicate IsLocalChar(c: char)
  {
    IsAsciiLetter(c) || IsAsciiDigit(c) || c == '.' || c == '_' || c == '%' || c == '+' || c == '-'
  }

  predicate IsDomainChar(c: char)
  {
    IsAsciiLetter(c) || IsAsciiDigit(c) || c == '.' || c == '-'
  }

  /** `s` splits at positions `a` ('@') and `b` (the '.' before the
      top-level domain) into the parts the pattern describes. */
  ghost predicate EmailSplit(s: string, a: int, b: int)
  {
    && 1 <= a && a + 2 <= b && b + 3 <= |s|
    && Every(s[..a], IsLocalChar)
    && s[a] == '@'
    && Every(s[a + 1..b], IsDomainChar)
    && s[b] == '.'
    && Every(s[b + 1..], IsAsciiLetter)
  }

  /** The strings the pattern (without the `$` newline allowance) matches:
      a non-empty local part, one '@', a non-empty domain, a '.', and a
      top-level domain of two or more letters. */
  ghost predicate EmailPattern(s: string)
  {
    exists a, b :: EmailSplit(s, a, b)
  }

  /** How the pattern matches: the local part cannot hold '@', so it ends at
      the first '@'; the top-level domain cannot hold '.', so it starts after
      the last '.' of the rest. */
  predicate EmailMatch(s: string)
  {
    match FirstIndexOf(s, '@')
    case None => false
    case Some(a) =>
      var rest := s[a + 1..];
      && 1 <= a
      && Every(s[..a], IsLocalChar)
      && Every(rest, IsDomainChar)
      && match LastIndexOf(rest, '.')
         case None => false
         case Some(d) => 1 <= d && d + 3 <= |rest| && Every(rest[d + 1..], IsAsciiLetter)
  }

  /** `$` matches at the end of the string or just before a final newline. */
  predicate ValidateEmail(email: string)
  {
    || EmailMatch(email)
    || (|email| > 0 && email[|email| - 1] == '\n' && EmailMatch(email[..|email| - 1]))
  }

  /** A slice of a string whose characters all satisfy `p` satisfies `p`. */
  lemma EverySlice(s: string, p: char -> bool, i: int, j: int)
    requires Every(s, p) && 0 <= i <= j <= |s|
    ensures Every(s[i..j], p)
  {
    assert forall k :: 0 <= k < j - i ==> s[i..j][k] == s[i + k];
  }

  /** A character `p` rejects does not occur where every character satisfies `p`. */
  lemma EveryExcludes(s: string, p: char -> bool, x: char)
    requires Every(s, p) && !p(x)
    ensures x !in s
  {
  }

  lemma EmailMatchGivesPattern(s: string)
    requires EmailMatch(s)
    ensures EmailPattern(s)
  {
    var a := FirstIndexOf(s, '@').value;
    var rest := s[a + 1..];
    var d := LastIndexOf(rest, '.').value;
    EmailSplitAt(s, a, d);
  }

  /** The positions the matcher finds split the string as the pattern says. */
  lemma EmailSplitAt(s: string, a: int, d: int)
    requires 1 <= a < |s| && s[a] == '@' && Every(s[..a], IsLocalChar)
    requires Every(s[a + 1..], IsDomainChar)
    requires 1 <= d && d + 3 <= |s[a + 1..]| && s[a + 1..][d] == '.' && Every(s[a + 1..][d + 1..], IsAsciiLetter)
    ensures EmailSplit(s, a, a + 1 + d)
  {
    var rest := s[a + 1..];
    var b := a + 1 + d;
    assert s[a + 1..b] == rest[..d];
    EverySlice(rest, IsDomainChar, 0, d);
    assert s[b + 1..] == rest[d + 1..];
  }

  lemma FirstIndexAt(s: string, x: char, i: nat)
    requires i < |s| && s[i] == x && x !in s[..i]
    ensures FirstIndexOf(s, x) == Some(i)
  {
  }

  lemma LastIndexAt(s: string, x: char, i: nat)
    requires i < |s| && s[i] == x && x !in s[i + 1..]
    ensures LastIndexOf(s, x) == Some(i)
  {
  }

  /** The part after the '@' of a split address: all domain characters, and
      its last '.' is the one before the top-level domain. */
  lemma EmailSplitRest(s: string, a: int, b: int)
    requires EmailSplit(s, a, b)
    ensures Every(s[a + 1..], IsDomainChar)
    ensures LastIndexOf(s[a + 1..], '.') == Some(b - a - 1)
  {
    var rest := s[a + 1..];
    var d := b - a - 1;
    forall k | 0 <= k < |rest| ensures IsDomainChar(rest[k]) {
      if k < d {
        assert rest[k] == s[a + 1..b][k];
      } else if k > d {
        assert rest[k] == s[b + 1..][k - d - 1];
      }
    }
    assert rest[d + 1..] == s[b + 1..];
    EveryExcludes(s[b + 1..], IsAsciiLetter, '.');
    LastIndexAt(rest, '.', d);
  }

  lemma PatternGivesEmailMatch(s: string)
    requires EmailPattern(s)
    ensures EmailMatch(s)
  {
    var a, b :| EmailSplit(s, a, b);
    // the first '@' is at a, since the local part holds none
    EveryExcludes(s[..a], IsLocalChar, '@');
    FirstIndexAt(s, '@', a);
    EmailSplitRest(s, a, b);
    assert s[a + 1..][b - a..] == s[b + 1..];
  }

  lemma EmailMatchIsPattern(s: string)
    ensures EmailMatch(s) <==> EmailPattern(s)
  {
    if EmailMatch(s) { EmailMatchGivesPattern(s); }
    if EmailPattern(s) { PatternGivesEmailMatch(s); }
  }

  lemma ValidateEmailIsPattern(email: string)
    ensures ValidateEmail(email) <==>
      || EmailPattern(email)
      || (|email| > 0 && email[|email| - 1] == '\n' && EmailPattern(email[..|email| - 1]))
    ensures '\n' !in email ==> (ValidateEmail(email) <==> EmailPattern(email))
  {
    EmailMatchIsPattern(email);
    if |email| > 0 {
      EmailMatchIsPattern(email[..|email| - 1]);
    }
  }
  /** Addresses from the test suite: the ones used as valid are accepted,
      one without '@' is rejected. */
  lemma EmailExamples()
    ensures ValidateEmail("john@example.com")
    ensures ValidateEmail("dr.test@example.com")
    ensures !ValidateEmail("bademail.com")
  {
    EmailExampleJohn();
    EmailExampleDr();
    EmailExampleBad();
  }

  lemma EmailExampleJohn()
    ensures ValidateEmail("john@example.com")
  {
    var s := "john@example.com";
    assert Every(s[..4], IsLocalChar);
    assert Every(s[5..12], IsDomainChar);
    assert Every(s[13..], IsAsciiLetter);
    EmailAccepted(s, 4, 12);
  }

  lemma EmailExampleDr()
    ensures ValidateEmail("dr.test@example.com")
  {
    var s := "dr.test@example.com";
    assert Every(s[..7], IsLocalChar);
    assert Every(s[8..15], IsDomainChar);
    assert Every(s[16..], IsAsciiLetter);
    EmailAccepted(s, 7, 15);
  }

  lemma EmailExampleBad()
    ensures !ValidateEmail("bademail.com")
  {
    var s := "bademail.com";
    assert forall k :: 0 <= k < |s| ==> s[k] != '@';
    EmailWithoutAt(s);
  }

  lemma EmailAccepted(s: string, a: int, b: int)
    requires EmailSplit(s, a, b)
    ensures ValidateEmail(s)
  {
    ValidateEmailIsPattern(s);
  }

  lemma EmailWithoutAt(s: string)
    requires '@' !in s
    ensures !ValidateEmail(s)
  {
    ValidateEmailIsPattern(s);
    if |s| > 0 {
      assert '@' !in s[..|s| - 1];
    }
  }

  // ---------------------------------------------------------------------
  // validate_name: re.match(r'^[a-zA-Z\s]+$', name)

  predicate IsNameChar(c: char) { IsAsciiLetter(c) || IsWhitespace(c) }

  predicate NameMatch(s: string) { |s| >= 1 && Every(s, IsNameChar) }

  predicate ValidateName(name: string)
  {
    || NameMatch(name)
    || (|name| > 0 && name[|name| - 1] == '\n' && NameMatch(name[..|name| - 1]))
  }

  /** The `$` allowance adds nothing, since '\n' is itself in `\s`; in
      particular digits and apostrophes are rejected. */
  lemma ValidateNameIff(name: string)
    ensures ValidateName(name) <==> |name| >= 1 && Every(name, IsNameChar)
    ensures ValidateName(name) ==> forall k :: 0 <= k < |name| ==> name[k] != '\'' && !IsAsciiDigit(name[k])
  {
    if |name| > 0 && name[|name| - 1] == '\n' && NameMatch(name[..|name| - 1]) {
      forall k | 0 <= k < |name| ensures IsNameChar(name[k]) {
        if k < |name| - 1 {
          assert name[k] == name[..|name| - 1][k];
        }
      }
    }
  }
  /** Names from the test suite: letters and spaces pass, digits do not. */
  lemma NameExamples()
    ensures ValidateName("john") && ValidateName("Dr Test")
    ensures !ValidateName("123gad")
  {
    ValidateNameIff("john");
    ValidateNameIff("Dr Test");
    ValidateNameIff("123gad");
    assert !IsNameChar("123gad"[0]);
  }

  // ---------------------------------------------------------------------
  // nonempty: bool(value and value.strip())

  function StripLeading(s: string): (r: string)
    ensures r == [] <==> Every(s, IsWhitespace)
    ensures r != [] ==> !IsWhitespace(r[0])
  {
    if s != [] && IsWhitespace(s[0]) then
      var r := StripLeading(s[1..]);
      assert forall k :: 1 <= k < |s| ==> s[k] == s[1..][k - 1];
      r
    else s
  }

  function StripTrailing(s: string): (r: string)
    ensures r == [] <==> Every(s, IsWhitespace)
    ensures r != [] ==> !IsWhitespace(r[|r| - 1])
  {
    if s != [] && IsWhitespace(s[|s| - 1]) then
      var r := StripTrailing(s[..|s| - 1]);
      assert forall k :: 0 <= k < |s| - 1 ==> s[k] == s[..|s| - 1][k];
      r
    else s
  }

  /** `str.strip()` without arguments. */
  function Strip(s: string): string
  {
    StripTrailing(StripLeading(s))
  }

  predicate Nonempty(value: string)
  {
    |value| > 0 && |Strip(value)| > 0
  }

  /** A value is non-empty exactly when some character is not whitespace. */
  lemma NonemptyIff(value: string)
    ensures Nonempty(value) <==> exists k :: 0 <= k < |value| && !IsWhitespace(value[k])
  {
    var t := StripLeading(value);
    if t != [] {
      assert !Every(t, IsWhitespace) by { assert !IsWhitespace(t[0]); }
    }
  }

  // ---------------------------------------------------------------------
  // password

  predicate IsPasswordSpecial(c: char)
  {
    c in "!@#$%^&*(),.?\":{}|<>"
  }

  /** At least eight characters, with an upper-case letter, a lower-case
      letter, a digit and one of the listed special characters. */
  predicate Password(password: string)
  {
    if |password| < 8 then false
    else if !Search(password, IsAsciiUpper) then false
    else if !Search(password, IsAsciiLower) then false
    else if !Search(password, IsAsciiDigit) then false
    else if !Search(password, IsPasswordSpecial) then false
    else true
  }

  lemma PasswordIff(password: string)
    ensures Password(password) <==>
      && |password| >= 8
      && (exists k :: 0 <= k < |password| && IsAsciiUpper(password[k]))
      && (exists k :: 0 <= k < |password| && IsAsciiLower(password[k]))
      && (exists k :: 0 <= k < |password| && IsAsciiDigit(password[k]))
      && (exists k :: 0 <= k < |password| && IsPasswordSpecial(password[k]))
  {
  }

  // ---------------------------------------------------------------------
  // The range checks, as written: each returns false inside its range.

  predicate ValidAge(age: int)
  {
    if 10 < age < 30 then false else true
  }

  predicate ValidYear(year: int)
  {
    if 1 <= year <= 5 then false else true
  }

  predicate ValidGrade(grade: real)
  {
    if 0.0 <= grade <= 100.0 then false else true
  }

  /** The three range checks accept exactly the values outside their ranges. */
  lemma RangeChecksInverted(age: int, year: int, grade: real)
    ensures !ValidAge(age) <==> 10 < age < 30
    ensures !ValidYear(year) <==> 1 <= year <= 5
    ensures !ValidGrade(grade) <==> 0.0 <= grade <= 100.0
  {
  }
}
