/** The regular expressions of the scripts, each written out as a predicate
    on the whole string (every pattern is anchored with `^…$`). */
module Patterns {
  import opened Text

  /** `[A-Za-z\s'-]` */
  predicate IsNameChar(c: char)
  {
    IsLetter(c) || IsWhitespace(c) || c == '\'' || c == '-'
  }

  /** `^[A-Za-z][A-Za-z\s'-]*$` (form-validation.js `patterns.name`). */
  predicate MatchesName(s: string)
  {
    |s| >= 1 && IsLetter(s[0]) && forall k :: 1 <= k < |s| ==> IsNameChar(s[k])
  }

  /** `[^\s@]` */
  predicate IsEmailChar(c: char)
  {
    !IsWhitespace(c) && c != '@'
  }

  /** `[^\s@]+` */
  predicate EmailChars(s: string)
  {
    |s| >= 1 && forall k :: 0 <= k < |s| ==> IsEmailChar(s[k])
  }

  /** `[^\s@]+\.[^\s@]+`: a dot with at least one allowed character on each
      side. Since `.` is itself in `[^\s@]`, the whole domain is made of
      allowed characters and the dot may be any one that is not at an end. */
  predicate MatchesDomain(d: string)
  {
    EmailChars(d) && exists dot :: 0 < dot < |d| - 1 && d[dot] == '.'
  }

  /** `^[^\s@]+@[^\s@]+\.[^\s@]+$` (form-validation.js `patterns.email`,
      and the `emailRegex` of the register handler in auth.js). */
  predicate MatchesEmail(s: string)
  {
    exists at :: 0 < at < |s| && s[at] == '@' && EmailChars(s[..at]) && MatchesDomain(s[at + 1..])
  }

  /** `^[6-9]\d{9}$` (form-validation.js `patterns.phone`). */
  predicate MatchesPhone(s: string)
  {
    |s| == 10 && '6' <= s[0] <= '9' && forall k :: 0 <= k < |s| ==> IsDigit(s[k])
  }

  predicate HasUpper(s: string) { exists k :: 0 <= k < |s| && IsUpper(s[k]) }

  predicate HasLower(s: string) { exists k :: 0 <= k < |s| && IsLower(s[k]) }

  predicate HasDigit(s: string) { exists k :: 0 <= k < |s| && IsDigit(s[k]) }

  /** `^(?=.*[a-z])(?=.*[A-Z])(?=.*\d).{8,}$` (form-validation.js
      `patterns.password`): at least eight characters, none a line
      terminator (which `.` does not match), with a lower-case letter, an
      upper-case letter and a digit somewhere. */
  predicate MatchesPassword(s: string)
  {
    |s| >= 8 && (forall k :: 0 <= k < |s| ==> !IsLineTerminator(s[k])) &&
    HasLower(s) && HasUpper(s) && HasDigit(s)
  }

  /** `[A-Za-z0-9._%+-]` */
  predicate IsGmailLocalChar(c: char)
  {
    IsLetter(c) || IsDigit(c) || c == '.' || c == '_' || c == '%' || c == '+' || c == '-'
  }

  const GmailSuffix: string := "@gmail.com"

  /** `^[A-Za-z0-9._%+-]+@gmail\.com$` (script.js newsletter check). The
      domain is matched case-sensitively. */
  predicate MatchesGmail(s: string)
  {
    |s| > |GmailSuffix| && s[|s| - |GmailSuffix|..] == GmailSuffix &&
    forall k :: 0 <= k < |s| - |GmailSuffix| ==> IsGmailLocalChar(s[k])
  }

  /** Allowed email characters contain no whitespace and no '@'. */
  lemma EmailCharsClean(t: string)
    requires forall k :: 0 <= k < |t| ==> IsEmailChar(t[k])
    ensures !HasWhitespace(t) && multiset(t)['@'] == 0
  {
    assert '@' !in t;
  }

  /** Splits a string matching the email pattern at its '@'. */
  lemma EmailSplit(s: string) returns (at: nat)
    requires MatchesEmail(s)
    ensures 0 < at < |s| && s[at] == '@' && EmailChars(s[..at]) && MatchesDomain(s[at + 1..])
    ensures s == s[..at] + ['@'] + s[at + 1..]
  {
    at :| 0 < at < |s| && s[at] == '@' && EmailChars(s[..at]) && MatchesDomain(s[at + 1..]);
    assert s == s[..at] + [s[at]] + s[at + 1..];
  }

  /** A string matching the email pattern has no whitespace and exactly one
      '@'. */
  lemma EmailClean(s: string)
    requires MatchesEmail(s)
    ensures !HasWhitespace(s)
    ensures multiset(s)['@'] == 1
  {
    var at := EmailSplit(s);
    var local, d := s[..at], s[at + 1..];
    EmailCharsClean(local);
    EmailCharsClean(d);
    assert multiset(s) == multiset(local) + multiset{'@'} + multiset(d);
    forall k | 0 <= k < |s|
      ensures !IsWhitespace(s[k])
    {
      if k < at {
        assert s[k] == local[k];
      } else if k > at {
        assert s[k] == d[k - at - 1];
      }
    }
  }

  /** In a string matching the email pattern, the '@' is followed, later
      on, by a dot that has allowed characters, and at least one, on each
      side up to the '@' and up to the end. */
  lemma EmailShape(s: string) returns (at: nat, dot: nat)
    requires MatchesEmail(s)
    ensures 0 < at && at + 1 < dot < |s| - 1 && s[at] == '@' && s[dot] == '.'
    ensures EmailChars(s[..at]) && EmailChars(s[at + 1..dot]) && EmailChars(s[dot + 1..])
  {
    at := EmailSplit(s);
    var i := DomainSplit(s[at + 1..]);
    dot := at + 1 + i;
    assert s[at + 1..dot] == s[at + 1..][..i];
    assert s[dot + 1..] == s[at + 1..][i + 1..];
  }

  /** Splits a domain matching `[^\s@]+\.[^\s@]+` at one of its inner dots. */
  lemma DomainSplit(d: string) returns (i: nat)
    requires MatchesDomain(d)
    ensures 0 < i < |d| - 1 && d[i] == '.'
    ensures EmailChars(d[..i]) && EmailChars(d[i + 1..])
  {
    i :| 0 < i < |d| - 1 && d[i] == '.';
    var head, tail := d[..i], d[i + 1..];
    assert forall k :: 0 <= k < |head| ==> head[k] == d[k];
    assert forall k :: 0 <= k < |tail| ==> tail[k] == d[i + 1 + k];
  }

  /** Conversely, a string built as local part, '@', domain label, '.',
      and top-level part, each non-empty and free of whitespace and '@',
      matches the email pattern. */
  lemma EmailFromParts(local: string, host: string, tld: string)
    requires EmailChars(local) && EmailChars(host) && EmailChars(tld)
    ensures MatchesEmail(local + "@" + host + "." + tld)
  {
    var s := local + "@" + host + "." + tld;
    var at := |local|;
    assert s[..at] == local;
    var d := s[at + 1..];
    assert d == host + "." + tld;
    assert d[|host|] == '.';
    assert EmailChars(d) by {
      forall k | 0 <= k < |d| ensures IsEmailChar(d[k]) {
        if k < |host| { assert d[k] == host[k]; }
        else if k > |host| { assert d[k] == tld[k - |host| - 1]; }
      }
    }
    assert MatchesDomain(d);
  }

  /** Every address the newsletter accepts also matches the general email
      pattern. */
  lemma GmailIsEmail(s: string)
    requires MatchesGmail(s)
    ensures MatchesEmail(s)
  {
    var n := |s| - |GmailSuffix|;
    var local := s[..n];
    assert forall k :: 0 <= k < |local| ==> IsGmailLocalChar(local[k]);
    assert s == local + "@" + "gmail" + "." + "com";
    EmailFromParts(local, "gmail", "com");
  }

}
