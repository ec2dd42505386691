/** The contact form's email pattern `/^[^\s@]+@[^\s@]+\.[^\s@]+$/`: its
    language, an executable test, and the proof that the two agree. */
module EmailPattern {

  import opened JsString

  /** A character of the class `[^\s@]`. */
  predicate IsPlain(c: char) {
    !IsSpace(c) && c != '@'
  }

  /** Every character of `s` from `lo` up to (not including) `hi` is plain. */
  predicate PlainBetween(s: string, lo: nat, hi: nat)
    requires lo <= hi <= |s|
  {
    forall k :: lo <= k < hi ==> IsPlain(s[k])
  }

  /** The language of the pattern, read off its structure: a non-empty run of
      plain characters, `@`, a non-empty run, a literal `.`, and a non-empty
      run, spanning the whole string (`^` and `$` without the multiline flag).
      `at` and `dot` are the positions the `@` and the escaped `\.` match. */
  ghost predicate InPatternLanguage(s: string) {
    exists at, dot ::
      && 0 < at && at + 1 < dot && dot + 1 < |s|
      && s[at] == '@' && s[dot] == '.'
      && PlainBetween(s, 0, at) && PlainBetween(s, at + 1, dot) && PlainBetween(s, dot + 1, |s|)
  }

  /** `emailPattern.test(email)`, decided directly: no whitespace, exactly one
      `@` with something before it, and after it a `.` that is neither the
      first nor the last character of the part after the `@`. The runs may
      themselves contain dots, so any such dot will do. */
  predicate MatchesEmailPattern(s: string) {
    && (forall k :: 0 <= k < |s| ==> !IsSpace(s[k]))
    && exists at ::
      && 0 < at < |s| && s[at] == '@'
      && (forall k :: 0 <= k < |s| && k != at ==> s[k] != '@')
      && exists dot :: at + 1 < dot < |s| - 1 && s[dot] == '.'
  }

  lemma TestAcceptsLanguage(s: string)
    requires InPatternLanguage(s)
    ensures MatchesEmailPattern(s)
  {
    var at, dot :|
      && 0 < at && at + 1 < dot && dot + 1 < |s|
      && s[at] == '@' && s[dot] == '.'
      && PlainBetween(s, 0, at) && PlainBetween(s, at + 1, dot) && PlainBetween(s, dot + 1, |s|);
    assert forall k :: 0 <= k < |s| && k != at && k != dot ==> IsPlain(s[k]);
  }

  lemma LanguageContainsAccepted(s: string)
    requires MatchesEmailPattern(s)
    ensures InPatternLanguage(s)
  {
    var at :|
      && 0 < at < |s| && s[at] == '@'
      && (forall k :: 0 <= k < |s| && k != at ==> s[k] != '@')
      && exists dot :: at + 1 < dot < |s| - 1 && s[dot] == '.';
    var dot :| at + 1 < dot < |s| - 1 && s[dot] == '.';
    assert PlainBetween(s, 0, at) && PlainBetween(s, at + 1, dot) && PlainBetween(s, dot + 1, |s|);
  }

  /** The test accepts exactly the pattern's language, in both directions. */
  lemma MatchesEmailPatternIffInLanguage(s: string)
    ensures MatchesEmailPattern(s) <==> InPatternLanguage(s)
  {
    if InPatternLanguage(s) {
      TestAcceptsLanguage(s);
    }
    if MatchesEmailPattern(s) {
      LanguageContainsAccepted(s);
    }
  }

  /** The empty string is not an email address; the form reports it as missing
      before the pattern is consulted, and the pattern would reject it anyway. */
  lemma EmptyNotInLanguage()
    ensures !InPatternLanguage([])
  {
  }
}
