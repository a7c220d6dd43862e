/** The input validators of the helpers package: password strength, e-mail
    shape and age from a date of birth. */
module Validators {
  import opened Text
  import opened Dates

  const SpecialChars: string := "!@#$%^&*()_+-=[]{}|;:',.<>/?`~\\"
  /** The digit set as the source spells it: '8' is missing. */
  const NumericalChars: string := "123456790"
  const UppercaseChars: string := "ABCDEFGHIJKLMNOPQRSTUVWXYZ"
  const LowercaseChars: string := "abcdefghijkmlnopqrstuvwxyz"

  /** Some character of `s` belongs to the character set `chars`. */
  predicate HasCharFrom(s: string, chars: string)
  {
    exists i :: 0 <= i < |s| && s[i] in chars
  }

  /** At least six runes, and at least one special character, one digit, one
      upper-case and one lower-case letter. */
  predicate PasswordStrong(password: string)
  {
    |password| >= 6
    && HasCharFrom(password, SpecialChars)
    && HasCharFrom(password, NumericalChars)
    && HasCharFrom(password, UppercaseChars)
    && HasCharFrom(password, LowercaseChars)
  }

  lemma HasCharFromPrefix(s: string, i: int, chars: string)
    requires 0 <= i < |s|
    ensures HasCharFrom(s[..i + 1], chars) <==> HasCharFrom(s[..i], chars) || s[i] in chars
  {
    if HasCharFrom(s[..i + 1], chars) && !(s[i] in chars) {
      var j :| 0 <= j < i + 1 && s[..i + 1][j] in chars;
      assert s[..i][j] == s[j];
    }
    if HasCharFrom(s[..i], chars) {
      var j :| 0 <= j < i && s[..i][j] in chars;
      assert s[..i + 1][j] == s[j];
    }
    if s[i] in chars {
      assert s[..i + 1][i] == s[i];
    }
  }

  lemma HasCharFromWhole(s: string, i: int, chars: string)
    requires 0 <= i <= |s|
    requires HasCharFrom(s[..i], chars)
    ensures HasCharFrom(s, chars)
  {
    var j :| 0 <= j < i && s[..i][j] in chars;
    assert s[j] == s[..i][j];
  }

  /** Scans the runes once, setting a flag per character class and stopping
      early once all four are set; the answer is the same as checking every
      class over the whole password. */
  method IsPasswordStrong(password: string) returns (strong: bool)
    ensures strong == PasswordStrong(password)
  {
    var hasSpecialChar, hasNumericalChar, hasUpperCaseChar, hasLowerCaseChar := false, false, false, false;
    if |password| < 6 {
      return false;
    }
    var i := 0;
    while i < |password|
      invariant 0 <= i <= |password|
      invariant hasSpecialChar == HasCharFrom(password[..i], SpecialChars)
      invariant hasNumericalChar == HasCharFrom(password[..i], NumericalChars)
      invariant hasUpperCaseChar == HasCharFrom(password[..i], UppercaseChars)
      invariant hasLowerCaseChar == HasCharFrom(password[..i], LowercaseChars)
    {
      if hasSpecialChar && hasNumericalChar && hasLowerCaseChar && hasUpperCaseChar {
        break;
      }
      var c := password[i];
      HasCharFromPrefix(password, i, SpecialChars);
      HasCharFromPrefix(password, i, NumericalChars);
      HasCharFromPrefix(password, i, UppercaseChars);
      HasCharFromPrefix(password, i, LowercaseChars);
      if !hasSpecialChar && c in SpecialChars {
        hasSpecialChar := true;
      }
      if !hasNumericalChar && c in NumericalChars {
        hasNumericalChar := true;
      }
      if !hasUpperCaseChar && c in UppercaseChars {
        hasUpperCaseChar := true;
      }
      if !hasLowerCaseChar && c in LowercaseChars {
        hasLowerCaseChar := true;
      }
      i := i + 1;
    }
    if hasSpecialChar && hasNumericalChar && hasLowerCaseChar && hasUpperCaseChar {
      HasCharFromWhole(password, i, SpecialChars);
      HasCharFromWhole(password, i, NumericalChars);
      HasCharFromWhole(password, i, UppercaseChars);
      HasCharFromWhole(password, i, LowercaseChars);
      strong := true;
    } else {
      assert password[..i] == password;
      strong := false;
    }
  }

  /** A password whose only digit is '8' never passes the digit rule. */
  lemma EightIsNotADigit(password: string)
    requires forall i :: 0 <= i < |password| && IsDigit(password[i]) ==> password[i] == '8'
    ensures !PasswordStrong(password)
  {
    assert '8' !in NumericalChars;
    if HasCharFrom(password, NumericalChars) {
      var i :| 0 <= i < |password| && password[i] in NumericalChars;
      assert IsDigit(password[i]);
    }
  }

  /** `helpers.IsEmailValid`: something before the first '@', and a non-empty
      second '@'-segment that splits on '.' into exactly two parts. */
  function IsEmailValid(email: string): (valid: bool)
    ensures valid ==> '@' in email
  {
    if email == "" || '@' !in email then false
    else
      SplitCount(email, '@');
      var emailParts := Split(email, '@');
      var firstPart, secondPart := emailParts[0], emailParts[1];
      if firstPart == "" || secondPart == "" then false
      else '.' in secondPart && |Split(secondPart, '.')| == 2
  }

  lemma EmailSegments(local: string, domain: string, rest: string)
    requires '@' !in local && '@' !in domain
    requires rest == "" || rest[0] == '@'
    ensures var parts := Split(local + "@" + domain + rest, '@');
      |parts| >= 2 && parts[0] == local && parts[1] == domain
  {
    var tail := domain + rest;
    assert local + "@" + domain + rest == local + ['@'] + tail;
    SplitAt(local, tail, '@');
    FirstSegment(domain, rest);
  }

  /** The segment before a following '@' (or the end) is the whole domain. */
  lemma FirstSegment(domain: string, rest: string)
    requires '@' !in domain
    requires rest == "" || rest[0] == '@'
    ensures Split(domain + rest, '@')[0] == domain
  {
    if rest == "" {
      assert domain + rest == domain;
      SplitNoSep(domain, '@');
    } else {
      assert domain + rest == domain + ['@'] + rest[1..];
      SplitAt(domain, rest[1..], '@');
    }
  }

  lemma DomainRule(domain: string)
    ensures ('.' in domain && |Split(domain, '.')| == 2) <==> multiset(domain)['.'] == 1
  {
    SplitCount(domain, '.');
    assert '.' in domain <==> '.' in multiset(domain);
  }

  /** Every string with an '@' is `local + "@" + domain + rest` with no '@'
      in `local` or `domain` and `rest` empty or starting at the next '@'.
      It is a valid e-mail exactly when `local` and `domain` are non-empty
      and `domain` holds exactly one '.'. */
  lemma EmailValidIff(local: string, domain: string, rest: string)
    requires '@' !in local && '@' !in domain
    requires rest == "" || rest[0] == '@'
    ensures IsEmailValid(local + "@" + domain + rest)
      <==> local != "" && domain != "" && multiset(domain)['.'] == 1
  {
    var email := local + "@" + domain + rest;
    assert email[|local|] == '@';
    EmailSegments(local, domain, rest);
    DomainRule(domain);
  }

  /** A second '.' in the domain makes the address invalid. */
  lemma EmailTwoDotsInvalid()
    ensures !IsEmailValid("a@b.c.d")
  {
    EmailValidIff("a", "b.c.d", "");
    assert "a" + "@" + "b.c.d" + "" == "a@b.c.d";
    assert multiset("b.c.d")['.'] == 2;
  }

  /** Segments after the second '@' are never looked at. */
  lemma EmailThirdSegmentIgnored()
    ensures IsEmailValid("a@b.c@x")
  {
    EmailValidIff("a", "b.c", "@x");
    assert "a" + "@" + "b.c" + "@x" == "a@b.c@x";
    assert multiset("b.c")['.'] == 1;
  }

  /** The domain needs a '.'. */
  lemma EmailDotlessDomainInvalid()
    ensures !IsEmailValid("a@bc")
  {
    EmailValidIff("a", "bc", "");
    assert "a" + "@" + "bc" + "" == "a@bc";
    assert multiset("bc")['.'] == 0;
  }

  /** `helpers.CalculateAgeFromTime` with today's date passed in. */
  function CalculateAge(dateOfBirth: Date, today: Date): (age: int)
    ensures age == -1 <==> today.year < dateOfBirth.year
    ensures today.year == dateOfBirth.year ==> age == 0
    ensures age >= -1
  {
    if today.year < dateOfBirth.year then -1
    else if today.year == dateOfBirth.year then 0
    else
      var age := today.year - dateOfBirth.year;
      if today.month < dateOfBirth.month then age - 1
      else if today.month == dateOfBirth.month && today.day < dateOfBirth.day then age - 1
      else age
  }

  /** Calendar order on dates. */
  predicate OnOrBefore(a: Date, b: Date)
  {
    a.year < b.year
    || (a.year == b.year && (a.month < b.month || (a.month == b.month && a.day <= b.day)))
  }

  /** The `n`th birthday of someone born on `dateOfBirth`. */
  function Anniversary(dateOfBirth: Date, n: int): Date
  {
    Date(dateOfBirth.year + n, dateOfBirth.month, dateOfBirth.day)
  }

  /** In a later year than the birth year the age is the number of completed
      years: the last birthday reached on or before today. */
  lemma AgeIsCompletedYears(dateOfBirth: Date, today: Date)
    requires today.year > dateOfBirth.year
    ensures var age := CalculateAge(dateOfBirth, today);
      age >= 0
      && OnOrBefore(Anniversary(dateOfBirth, age), today)
      && !OnOrBefore(Anniversary(dateOfBirth, age + 1), today)
  {
  }
}
