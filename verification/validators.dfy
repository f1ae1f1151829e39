/** The two input validators of the authentication module.

    Each source validator is `re.match` of an anchored pattern. Under Python's `re`, `$`
    matches at the end of the string and also just before a final newline, so both
    validators accept a valid string followed by one '\n'. The patterns' languages are
    stated here as ghost predicates over character classes and lengths; `ValidateUsername`
    and `ValidateEmail` are direct scanners proved to decide exactly those languages. */
module Validators {
  import opened Common

  predicate IsAsciiLetter(c: char)
  {
    'a' <= c <= 'z' || 'A' <= c <= 'Z'
  }

  predicate IsAsciiDigit(c: char)
  {
    '0' <= c <= '9'
  }

  /** The class `[a-zA-Z0-9_]`. */
  predicate IsUsernameChar(c: char)
  {
    IsAsciiLetter(c) || IsAsciiDigit(c) || c == '_'
  }

  /** The class `[a-zA-Z0-9._%+-]` of the part before '@'. */
  predicate IsLocalChar(c: char)
  {
    IsAsciiLetter(c) || IsAsciiDigit(c) || c == '.' || c == '_' || c == '%' || c == '+' || c == '-'
  }

  /** The class `[a-zA-Z0-9.-]` of the part after '@'. */
  predicate IsDomainChar(c: char)
  {
    IsAsciiLetter(c) || IsAsciiDigit(c) || c == '.' || c == '-'
  }

  predicate IsDot(c: char)
  {
    c == '.'
  }

  predicate EndsWithNewline(s: string)
  {
    |s| > 0 && s[|s| - 1] == '\n'
  }

  /** The text `$` must see before it: `s` without its final newline, if it has one. */
  function Body(s: string): (b: string)
    ensures |b| <= |s| && b == s[..|b|]
  {
    if EndsWithNewline(s) then s[..|s| - 1] else s
  }

  // ---------------------------------------------------------------------------
  // The languages of the two patterns

  /** `[a-zA-Z0-9_]{3,20}` */
  ghost predicate UsernameShape(b: string)
  {
    3 <= |b| <= 20 && forall i :: 0 <= i < |b| ==> IsUsernameChar(b[i])
  }

  /** What `re.match(r'^[a-zA-Z0-9_]{3,20}$', s)` matches. */
  ghost predicate MatchesUsernamePattern(s: string)
  {
    UsernameShape(s) || (EndsWithNewline(s) && UsernameShape(s[..|s| - 1]))
  }

  /** `b` splits as local '@' domain '.' tld, with the '@' at `at` and the '.' at `dot`:
      local non-empty over IsLocalChar, domain non-empty over IsDomainChar, tld at least two
      ASCII letters. */
  ghost predicate EmailSplit(b: string, at: int, dot: int)
  {
    && 1 <= at && at + 2 <= dot && dot + 3 <= |b|
    && b[at] == '@' && b[dot] == '.'
    && (forall k :: 0 <= k < at ==> IsLocalChar(b[k]))
    && (forall k :: at < k < dot ==> IsDomainChar(b[k]))
    && (forall k :: dot < k < |b| ==> IsAsciiLetter(b[k]))
  }

  /** `[a-zA-Z0-9._%+-]+@[a-zA-Z0-9.-]+\.[a-zA-Z]{2,}` */
  ghost predicate EmailShape(b: string)
  {
    exists at, dot :: EmailSplit(b, at, dot)
  }

  /** What `re.match(r'^[a-zA-Z0-9._%+-]+@[a-zA-Z0-9.-]+\.[a-zA-Z]{2,}$', s)` matches. */
  ghost predicate MatchesEmailPattern(s: string)
  {
    EmailShape(s) || (EndsWithNewline(s) && EmailShape(s[..|s| - 1]))
  }

  // ---------------------------------------------------------------------------
  // The validators

  /** validate_username: the run of word characters at the front must be 3 to 20 long and
      be followed by the end of the text or by a final newline. */
  function ValidateUsername(username: string): bool
  {
    var k := Span(username, IsUsernameChar);
    3 <= k <= 20 && (k == |username| || (k == |username| - 1 && username[k] == '\n'))
  }

  /** The address part of an email, without the final newline `$` tolerates: the local run
      must end at an '@', everything after it must be domain characters, and the text after
      the last '.' of that must be two or more letters with something before the '.'. */
  function EmailBodyOk(b: string): bool
  {
    var at := Span(b, IsLocalChar);
    if 1 <= at < |b| && b[at] == '@' then
      var domain := b[at + 1..];
      Span(domain, IsDomainChar) == |domain| &&
      match LastMatch(domain, IsDot)
      case None => false
      case Some(d) => 1 <= d && d + 3 <= |domain| && Span(domain[d + 1..], IsAsciiLetter) == |domain| - d - 1
    else
      false
  }

  /** validate_email */
  function ValidateEmail(email: string): bool
  {
    EmailBodyOk(Body(email))
  }

  // ---------------------------------------------------------------------------
  // The scanners decide the patterns' languages

  lemma {:induction false} ValidateUsernameCorrect(s: string)
    ensures ValidateUsername(s) <==> MatchesUsernamePattern(s)
  {
    var k := Span(s, IsUsernameChar);
    if ValidateUsername(s) && k < |s| {
      var b := s[..|s| - 1];
      forall i | 0 <= i < |b|
        ensures IsUsernameChar(b[i])
      {
        assert b[i] == s[i];
      }
    }
    if EndsWithNewline(s) && UsernameShape(s[..|s| - 1]) {
      forall i | 0 <= i < |s| - 1
        ensures IsUsernameChar(s[i])
      {
        assert s[i] == s[..|s| - 1][i];
      }
      assert !IsUsernameChar(s[|s| - 1]);
    }
  }

  /** No email ends in a newline: its last character is a letter of the top-level domain. */
  lemma EmailShapeNoFinalNewline(b: string)
    requires EmailShape(b)
    ensures !EndsWithNewline(b)
  {
    var at, dot :| EmailSplit(b, at, dot);
    assert IsAsciiLetter(b[|b| - 1]);
  }

  /** Every address the scanner accepts has the pattern's shape. */
  lemma EmailBodyOkSound(b: string)
    requires EmailBodyOk(b)
    ensures EmailShape(b)
  {
    var at := Span(b, IsLocalChar);
    var domain := b[at + 1..];
    var d := LastMatch(domain, IsDot).value;
    var dot := at + 1 + d;
    assert domain[d] == b[dot];
    forall k | at < k < dot
      ensures IsDomainChar(b[k])
    {
      assert b[k] == domain[k - at - 1];
    }
    var tld := domain[d + 1..];
    forall k | dot < k < |b|
      ensures IsAsciiLetter(b[k])
    {
      assert b[k] == tld[k - dot - 1];
    }
    assert EmailSplit(b, at, dot);
  }

  /** Every address of the pattern's shape is accepted by the scanner. */
  lemma EmailBodyOkComplete(b: string, at: int, dot: int)
    requires EmailSplit(b, at, dot)
    ensures EmailBodyOk(b)
  {
    assert !IsLocalChar(b[at]);
    assert Span(b, IsLocalChar) == at;
    var domain := b[at + 1..];
    var d := dot - at - 1;
    forall k | 0 <= k < |domain|
      ensures IsDomainChar(domain[k])
    {
      assert domain[k] == b[at + 1 + k];
    }
    assert Span(domain, IsDomainChar) == |domain|;
    assert IsDot(domain[d]);
    forall k | d < k < |domain|
      ensures !IsDot(domain[k])
    {
      assert domain[k] == b[at + 1 + k];
    }
    assert LastMatch(domain, IsDot) == Some(d);
    var tld := domain[d + 1..];
    forall k | 0 <= k < |tld|
      ensures IsAsciiLetter(tld[k])
    {
      assert tld[k] == b[dot + 1 + k];
    }
    assert Span(tld, IsAsciiLetter) == |tld|;
  }

  lemma EmailBodyOkCorrect(b: string)
    ensures EmailBodyOk(b) <==> EmailShape(b)
  {
    if EmailBodyOk(b) {
      EmailBodyOkSound(b);
    }
    if EmailShape(b) {
      var at, dot :| EmailSplit(b, at, dot);
      EmailBodyOkComplete(b, at, dot);
    }
  }

  lemma ValidateEmailCorrect(s: string)
    ensures ValidateEmail(s) <==> MatchesEmailPattern(s)
  {
    EmailBodyOkCorrect(Body(s));
    if EmailShape(s) {
      EmailShapeNoFinalNewline(s);
    }
  }

  /** A valid email holds exactly one '@': the local part and the domain exclude it. */
  lemma ValidEmailHasOneAt(s: string)
    requires ValidateEmail(s)
    ensures exists at :: 0 <= at < |s| && s[at] == '@'
    ensures forall i, j :: 0 <= i < j < |s| && s[i] == '@' ==> s[j] != '@'
  {
    ValidateEmailCorrect(s);
    var b := Body(s);
    EmailShapeNoFinalNewline(b);
    var at, dot :| EmailSplit(b, at, dot);
    assert s[at] == b[at];
    forall i, j | 0 <= i < j < |s| && s[i] == '@'
      ensures s[j] != '@'
    {
      if j < |b| {
        assert s[i] == b[i] && s[j] == b[j];
        assert !IsLocalChar(b[i]) && !IsDomainChar(b[i]) && !IsAsciiLetter(b[i]);
        assert i == at;
      }
    }
  }

  /** `$` tolerates one final newline: appending it to a text that has none changes neither
      verdict. */
  lemma UsernameTrailingNewline(s: string)
    requires !EndsWithNewline(s)
    ensures ValidateUsername(s + "\n") <==> ValidateUsername(s)
  {
    var t := s + "\n";
    assert t[..|t| - 1] == s;
    ValidateUsernameCorrect(s);
    ValidateUsernameCorrect(t);
    assert !IsUsernameChar(t[|t| - 1]);
  }

  lemma EmailTrailingNewline(s: string)
    requires !EndsWithNewline(s)
    ensures ValidateEmail(s + "\n") <==> ValidateEmail(s)
  {
    var t := s + "\n";
    assert Body(t) == s;
  }

  /** Examples. */
  lemma UsernameExamples()
    ensures ValidateUsername("alice_01")
    ensures !ValidateUsername("ab")
  {
    ValidateUsernameCorrect("alice_01");
    ValidateUsernameCorrect("ab");
  }

  lemma EmailExamples()
    ensures ValidateEmail("a@b.co")
  {
    assert EmailSplit("a@b.co", 1, 3);
    ValidateEmailCorrect("a@b.co");
  }
}
