/**
 * The input validators run before every contact insert or update
 * (`validate_name`, `validate_phone`, `validate_email`). Version 1 and
 * version 2 define `validate_name` and `validate_phone` with the same text,
 * so both versions use these definitions.
 *
 * The phone and e-mail rules are regular expressions tried with `re.match`;
 * each is modelled by what the pattern accepts, with Python's `$` (which
 * also matches just before one final newline) written out.
 */
module Validation {
  import opened Text

  /** Every character of `s` satisfies `p`. */
  predicate All(s: string, p: char -> bool) {
    forall k :: 0 <= k < |s| ==> p(s[k])
  }

  /** Python's `$` without MULTILINE: at the end of `s`, or just before a final newline. */
  predicate DollarAt(s: string, i: int) {
    i == |s| || (0 <= i == |s| - 1 && s[i] == '\n')
  }

  // ---------------------------------------------------------------- name

  /** `validate_name`: present and at least two characters once stripped. */
  function ValidateName(name: string): (ok: bool)
    ensures ok <==> |Strip(name)| >= 2
    ensures |name| < 2 ==> !ok
  {
    name != [] && |Strip(name)| >= 2
  }

  /** The handlers pass names that are already stripped; for those the rule is
      a plain length check. */
  lemma StrippedName(name: string)
    requires NoOuterSpace(name)
    ensures ValidateName(name) <==> |name| >= 2
  {
    StripFixed(name);
  }

  // --------------------------------------------------------------- phone

  /** The class `[\d\s\-\+\(\)]` on ASCII. */
  predicate IsPhoneChar(c: char) {
    IsDigit(c) || IsSpace(c) || c == '-' || c == '+' || c == '(' || c == ')'
  }

  /** `validate_phone`: empty, or `^[\d\s\-\+\(\)]{7,20}$` matches. */
  function ValidatePhone(phone: string): (ok: bool)
    ensures ok <==>
      || phone == []
      || (7 <= |phone| <= 20 && All(phone, IsPhoneChar))
      || (|phone| == 21 && phone[20] == '\n' && All(phone[..20], IsPhoneChar))
  {
    PhoneMatchShape(phone);
    phone == [] || PhoneMatch(phone)
  }

  /** `^[\d\s\-\+\(\)]{7,20}$` matches `s`: the repetition covers a prefix of
      seven to twenty characters and `$` holds right after it. */
  predicate PhoneMatch(s: string) {
    exists n | 7 <= n <= 20 && n <= |s| :: All(s[..n], IsPhoneChar) && DollarAt(s, n)
  }

  /** Where the match can stop: the whole string, or all but a final newline,
      which the class itself also accepts. */
  lemma PhoneMatchShape(s: string)
    ensures PhoneMatch(s) <==>
      || (7 <= |s| <= 20 && All(s, IsPhoneChar))
      || (|s| == 21 && s[20] == '\n' && All(s[..20], IsPhoneChar))
  {
    if PhoneMatch(s) {
      var n :| 7 <= n <= 20 && n <= |s| && All(s[..n], IsPhoneChar) && DollarAt(s, n);
      if n < |s| && |s| <= 20 {
        forall k | 0 <= k < |s| ensures IsPhoneChar(s[k]) {
          if k < n {
            assert s[..n][k] == s[k];
          }
        }
      }
      if n == |s| {
        assert s[..n] == s;
      }
    }
    if 7 <= |s| <= 20 && All(s, IsPhoneChar) {
      assert s[..|s|] == s;
      assert All(s[..|s|], IsPhoneChar) && DollarAt(s, |s|);
    }
    if |s| == 21 && s[20] == '\n' && All(s[..20], IsPhoneChar) {
      assert DollarAt(s, 20);
    }
  }

  /** The handlers pass stripped phone numbers, which cannot end in a newline:
      for them the rule is seven to twenty characters of the class. */
  lemma StrippedPhone(phone: string)
    requires NoOuterSpace(phone)
    ensures ValidatePhone(phone) <==> phone == [] || (7 <= |phone| <= 20 && All(phone, IsPhoneChar))
  {
    if |phone| == 21 {
      assert !IsSpace(phone[20]);
    }
  }

  lemma PhoneExamples()
    ensures !ValidatePhone("12")
    ensures ValidatePhone("+1 (555) 123-4567")
    ensures ValidatePhone("")
  {
    assert All("+1 (555) 123-4567", IsPhoneChar);
  }

  // --------------------------------------------------------------- email

  /** The class `[a-zA-Z0-9._%+-]` of the local part. */
  predicate IsLocalChar(c: char) {
    IsLetter(c) || IsDigit(c) || c == '.' || c == '_' || c == '%' || c == '+' || c == '-'
  }

  /** The class `[a-zA-Z0-9.-]` of the domain. */
  predicate IsDomainChar(c: char) {
    IsLetter(c) || IsDigit(c) || c == '.' || c == '-'
  }

  /** `^[a-zA-Z0-9._%+-]+@[a-zA-Z0-9.-]+\.[a-zA-Z]{2,}$` matches `s` with the
      `@` at index `at`, the `\.` at index `dot` and the `$` at index `end`. */
  predicate EmailSplit(s: string, at: int, dot: int, end: int) {
    && 0 < at && at + 1 < dot && dot + 3 <= end && end <= |s|
    && s[at] == '@' && s[dot] == '.'
    && All(s[..at], IsLocalChar)
    && All(s[at + 1..dot], IsDomainChar)
    && All(s[dot + 1..end], IsLetter)
    && DollarAt(s, end)
  }

  /** `validate_email`: empty, or the address pattern matches. */
  function ValidateEmail(email: string): (ok: bool)
    ensures email == [] ==> ok
    ensures ok && email != [] ==> |email| >= 6 && IsLocalChar(email[0]) && '@' in email
  {
    email == [] ||
    exists at, dot, end | 0 <= at < dot < end <= |email| :: EmailSplit(email, at, dot, end)
  }

  /** What an accepted non-empty address looks like: exactly one `@`, after a
      non-empty local part; then a non-empty domain part, a `.` and at least
      two letters, optionally followed by one newline. */
  lemma EmailParts(email: string) returns (at: nat, dot: nat, end: nat)
    requires email != [] && ValidateEmail(email)
    ensures 0 < at < dot < end <= |email|
    ensures email[at] == '@' && forall k :: 0 <= k < |email| && k != at ==> email[k] != '@'
    ensures All(email[..at], IsLocalChar)
    ensures at + 1 < dot && email[dot] == '.' && All(email[at + 1..dot], IsDomainChar)
    ensures end - dot - 1 >= 2 && All(email[dot + 1..end], IsLetter)
    ensures end == |email| || (end == |email| - 1 && email[end] == '\n')
  {
    at, dot, end :| 0 <= at < dot < end <= |email| && EmailSplit(email, at, dot, end);
    forall k | 0 <= k < |email| && k != at ensures email[k] != '@' {
      if k < at {
        assert IsLocalChar(email[..at][k]);
      } else if k < dot {
        assert IsDomainChar(email[at + 1..dot][k - at - 1]);
      } else if dot < k < end {
        assert IsLetter(email[dot + 1..end][k - dot - 1]);
      }
    }
  }

  /** Every address built from a local part, a domain and a top-level name of
      the right classes is accepted. */
  lemma EmailAccepted(local: string, domain: string, tld: string)
    requires local != [] && All(local, IsLocalChar)
    requires domain != [] && All(domain, IsDomainChar)
    requires |tld| >= 2 && All(tld, IsLetter)
    ensures ValidateEmail(local + "@" + domain + "." + tld)
  {
    var email := local + "@" + domain + "." + tld;
    var at := |local|;
    var dot := at + 1 + |domain|;
    assert email[..at] == local;
    assert email[at + 1..dot] == domain;
    assert email[dot + 1..|email|] == tld;
    assert EmailSplit(email, at, dot, |email|);
  }

  /** A non-empty address without an `@` is refused. */
  lemma EmailNeedsAt(email: string)
    requires email != [] && forall k :: 0 <= k < |email| ==> email[k] != '@'
    ensures !ValidateEmail(email)
  {
    if ValidateEmail(email) {
      var at, dot, end := EmailParts(email);
    }
  }

  /** The handlers pass stripped addresses; for them the pattern must reach the
      very end of the string. */
  lemma StrippedEmailEnds(email: string) returns (at: nat, dot: nat)
    requires email != [] && NoOuterSpace(email) && ValidateEmail(email)
    ensures 0 < at && at + 1 < dot && dot + 3 <= |email|
    ensures email[at] == '@' && email[dot] == '.'
    ensures All(email[dot + 1..], IsLetter)
  {
    var end;
    at, dot, end := EmailParts(email);
    assert end == |email|;
    assert email[dot + 1..] == email[dot + 1..end];
  }
}
