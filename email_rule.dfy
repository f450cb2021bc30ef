/** The e-mail check of `register`: the regular expression
    `^[a-zA-Z0-9._%+-]+@[a-zA-Z0-9.-]+\.[a-zA-Z]{2,}$`, stated as a
    declarative predicate and decided by a scanner proved equal to it. */
module EmailRule {
  import opened Common
  import opened Text

  predicate IsAsciiLetter(c: char) { 'a' <= c <= 'z' || 'A' <= c <= 'Z' }
  predicate IsDigit(c: char) { '0' <= c <= '9' }

  /** `[a-zA-Z0-9._%+-]` */
  predicate IsLocalChar(c: char) {
    IsAsciiLetter(c) || IsDigit(c) || c == '.' || c == '_' || c == '%' || c == '+' || c == '-'
  }

  /** `[a-zA-Z0-9.-]` */
  predicate IsDomainChar(c: char) {
    IsAsciiLetter(c) || IsDigit(c) || c == '.' || c == '-'
  }

  predicate AllLocal(s: string) { forall i :: 0 <= i < |s| ==> IsLocalChar(s[i]) }
  predicate AllDomain(s: string) { forall i :: 0 <= i < |s| ==> IsDomainChar(s[i]) }
  predicate AllLetters(s: string) { forall i :: 0 <= i < |s| ==> IsAsciiLetter(s[i]) }

  /** `s` reads as local part `s[..at]`, `@`, domain `s[at+1..dot]`, `.`,
      top-level label `s[dot+1..]`, with the lengths the quantifiers
      `+`, `+` and `{2,}` demand. */
  predicate SplitsAsEmail(s: string, at: nat, dot: nat) {
    && 1 <= at && at + 2 <= dot && dot + 3 <= |s|
    && s[at] == '@' && s[dot] == '.'
    && AllLocal(s[..at]) && AllDomain(s[at + 1..dot]) && AllLetters(s[dot + 1..])
  }

  /** What the regular expression accepts. */
  ghost predicate MatchesEmailPattern(s: string) {
    exists at: nat, dot: nat :: SplitsAsEmail(s, at, dot)
  }

  /** The executable test: split at the first `@`, then at the last `.` of
      what follows it. It accepts exactly what the pattern accepts. */
  function IsValidEmail(s: string): (ok: bool)
    ensures ok <==> MatchesEmailPattern(s)
  {
    match IndexOf(s, '@')
    case None =>
      NoAtNoMatch(s);
      false
    case Some(at) =>
      match LastIndexOf(s[at + 1..], '.')
      case None =>
        NoDotNoMatch(s, at);
        false
      case Some(k) =>
        OnlySplit(s, at, at + 1 + k);
        SplitsAsEmail(s, at, at + 1 + k)
  }

  lemma NoAtNoMatch(s: string)
    requires '@' !in s
    ensures !MatchesEmailPattern(s)
  {
    forall at: nat, dot: nat ensures !SplitsAsEmail(s, at, dot) {
      if at < |s| { assert s[at] in s; }
    }
  }

  /** With the first `@` at `at` and no `.` after it, nothing matches. */
  lemma NoDotNoMatch(s: string, at: nat)
    requires at < |s| && s[at] == '@' && '@' !in s[..at]
    requires '.' !in s[at + 1..]
    ensures !MatchesEmailPattern(s)
  {
    assert forall i :: 0 <= i < at ==> s[..at][i] == s[i];
    assert forall i :: at < i < |s| ==> s[at + 1..][i - at - 1] == s[i];
  }

  /** Any split the pattern allows uses the first `@`, since the local part
      holds no `@`. */
  lemma FirstAt(s: string, at: nat, a: nat, d: nat)
    requires at < |s| && s[at] == '@' && '@' !in s[..at]
    requires SplitsAsEmail(s, a, d)
    ensures a == at
  {
    assert forall i :: 0 <= i < at ==> s[..at][i] == s[i];
    assert forall i :: 0 <= i < a ==> s[..a][i] == s[i];
  }

  /** Given the first `@` at `at` and the last `.` after it at `dot`, a split
      exists exactly when the split at (`at`, `dot`) is one. */
  lemma OnlySplit(s: string, at: nat, dot: nat)
    requires at < dot < |s| && s[at] == '@' && '@' !in s[..at]
    requires s[dot] == '.' && '.' !in s[dot + 1..]
    ensures MatchesEmailPattern(s) <==> SplitsAsEmail(s, at, dot)
  {
    forall a: nat, d: nat | SplitsAsEmail(s, a, d) ensures a == at && d == dot {
      FirstAt(s, at, a, d);
      assert forall i :: dot < i < |s| ==> s[dot + 1..][i - dot - 1] == s[i];
      assert forall i :: d < i < |s| ==> s[d + 1..][i - d - 1] == s[i];
    }
  }
}
