/** The Finnish personal identity code (henkilötunnus) validator of the
    validation package: `isSsnValid` and `isFakeYtlSsn`. The current year,
    which the source reads from the clock, is a parameter. */
module Ssn {
  import opened Wrappers
  import opened Text

  /** The check character for each remainder mod 31: the digits, then the
      letters A to Y without G, I, O and Q. */
  const CHECK_CODES: string := "0123456789ABCDEFHJKLMNPRSTUVWXY"

  /** `CHECK_CODES[k]`, computed rather than looked up; `CheckCharTable`
      shows the two agree. */
  function CheckChar(k: nat): (c: char)
    requires k < 31
    ensures IsDigit(c) || IsUpper(c)
  {
    if k < 10 then ('0' as int + k) as char
    else if k < 16 then ('A' as int + (k - 10)) as char
    else if k == 16 then 'H'
    else if k < 22 then ('J' as int + (k - 17)) as char
    else if k == 22 then 'P'
    else ('R' as int + (k - 23)) as char
  }

  /** The only code the age rules let through unconditionally. */
  const SPECIAL_FAKE: string := "010101-0101"

  /** Century signs of the 2000s, which the age rules compare with the current year. */
  predicate Is21stCentury(c: char) { 'A' <= c <= 'F' }

  // ---------------------------------------------------------------------
  // The shape: /^([0-9]{6})([-+]|[A-F]|[a-f]|[Yy]|[Xx]|[Ww]|[Vv]|[Uu])([\d]{3}|U[\d]{2})([\dA-Ya-y])$/

  predicate IsCenturySign(c: char) {
    c == '-' || c == '+' || 'A' <= c <= 'F' || 'a' <= c <= 'f' || 'U' <= c <= 'Y' || 'u' <= c <= 'y'
  }

  /** Three digits, or an upper-case `U` and two digits. */
  predicate IsIndividual(s: string) {
    |s| == 3 && (AllDigits(s) || (s[0] == 'U' && AllDigits(s[1..])))
  }

  predicate IsCheckClass(c: char) { IsDigit(c) || 'A' <= c <= 'Y' || 'a' <= c <= 'y' }

  /** The regular expression's four groups. */
  datatype SsnMatch = SsnMatch(birthDate: string, separator: char, individual: string, checkChar: char)

  predicate HasShape(t: string) {
    |t| == 11 && AllDigits(t[..6]) && IsCenturySign(t[6]) && IsIndividual(t[7..10]) && IsCheckClass(t[10])
  }

  /** Matching the whole (trimmed) string against the pattern. */
  function MatchSsn(t: string): (m: Option<SsnMatch>)
    ensures m.Some? <==> HasShape(t)
    ensures m.Some? ==> |m.value.birthDate| == 6 && AllDigits(m.value.birthDate)
                        && IsIndividual(m.value.individual)
  {
    if HasShape(t) then
      Some(SsnMatch(t[..6], t[6], t[7..10], t[10]))
    else None
  }

  /** `Number(String(year).slice(-2))` for a year of the common era. */
  function TwoDigitYear(fullYear: nat): (yy: nat)
    ensures yy < 100
  {
    fullYear % 100
  }

  /** The remainder the check character stands for: the nine digits of the
      birth date and the individual number, as one number, mod 31. */
  function CheckIndex(birthDate: string, individual: string): (k: nat)
    requires AllDigits(birthDate) && AllDigits(individual)
    ensures k < 31
  {
    DecimalValue(birthDate + individual) % 31
  }

  /** `isSsnValid(ssn, ageSanityCheckForExams)` in the year `currentFullYear`. */
  function IsSsnValid(ssn: string, ageSanityCheck: bool, currentFullYear: nat): bool {
    ValidTrimmed(Trim(ssn), ageSanityCheck, currentFullYear)
  }

  /** The decision on the trimmed string: it must match, and then pass `Decide`. */
  predicate ValidTrimmed(t: string, ageSanityCheck: bool, currentFullYear: nat) {
    var m := MatchSsn(t);
    m.Some? && Decide(t, m.value, ageSanityCheck, currentFullYear)
  }

  /** What follows a successful match of the trimmed string `t`. */
  function Decide(t: string, m: SsnMatch, ageSanityCheck: bool, currentFullYear: nat): bool
    requires |m.birthDate| == 6 && AllDigits(m.birthDate) && IsIndividual(m.individual)
  {
    if m.individual[0] == 'U' then true
    else
      var separator := ToUpper(m.separator);
      var yy := DecimalValue(m.birthDate[4..]);
      var current := TwoDigitYear(currentFullYear);
      if ageSanityCheck && t == SPECIAL_FAKE then true
      else if ageSanityCheck && separator == '+' then false
      else if ageSanityCheck && separator == '-' && yy < current then false
      else if ageSanityCheck && Is21stCentury(separator) && yy > current then false
      else ToUpper(m.checkChar) == CheckChar(CheckIndex(m.birthDate, m.individual))
  }

  /** `isFakeYtlSsn`: /\d{6}(AU|-U)\d{2}\w$/, searched anywhere in the string. */
  predicate IsFakeYtlSsn(s: string) {
    exists i | 0 <= i <= |s| :: FakeAt(s, i)
  }

  /** The pattern matches from position `i` to the end of `s` (the `$`). */
  predicate FakeAt(s: string, i: nat)
    requires i <= |s|
  {
    && i + 11 == |s|
    && AllDigits(s[i..i + 6])
    && (s[i + 6..i + 8] == "AU" || s[i + 6..i + 8] == "-U")
    && AllDigits(s[i + 8..i + 10])
    && IsWordChar(s[i + 10])
  }

  // ---------------------------------------------------------------------
  // Properties of isSsnValid

  /** Whatever the flags, a string whose trimmed form does not have the shape
      is rejected. */
  lemma ShapeRequired(ssn: string, ageSanityCheck: bool, currentFullYear: nat)
    requires IsSsnValid(ssn, ageSanityCheck, currentFullYear)
    ensures HasShape(Trim(ssn))
  {
  }

  /** An individual part starting with `U` is accepted with no checksum and
      no age rule. */
  lemma FakeIndividualAccepted(ssn: string, ageSanityCheck: bool, currentFullYear: nat)
    requires HasShape(Trim(ssn)) && Trim(ssn)[7] == 'U'
    ensures IsSsnValid(ssn, ageSanityCheck, currentFullYear)
  {
    var t := Trim(ssn);
    assert MatchSsn(t).value.individual[0] == t[7];
  }

  /** Without the age rules, a well-shaped code with a numeric individual part
      is valid exactly when its check character, upper-cased, is the table
      entry at (DDMMYYNNN mod 31); the current year plays no part. */
  lemma ChecksumDecides(ssn: string, currentFullYear: nat)
    requires HasShape(Trim(ssn)) && AllDigits(Trim(ssn)[7..10])
    ensures var t := Trim(ssn);
            IsSsnValid(ssn, false, currentFullYear)
            <==> ToUpper(t[10]) == CheckChar(CheckIndex(t[..6], t[7..10]))
  {
    var t := Trim(ssn);
    assert MatchSsn(t).value.individual[0] == t[7];
  }

  lemma YearIrrelevantWithoutAgeRules(ssn: string, year1: nat, year2: nat)
    ensures IsSsnValid(ssn, false, year1) == IsSsnValid(ssn, false, year2)
  {
  }

  /** The age rules, in the order the source applies them, for a well-shaped
      code with a numeric individual part. */
  lemma AgeRules(ssn: string, currentFullYear: nat)
    requires HasShape(Trim(ssn)) && AllDigits(Trim(ssn)[7..10])
    ensures var t := Trim(ssn);
            var separator, yy, current := ToUpper(t[6]), DecimalValue(t[4..6]), currentFullYear % 100;
            && (t == SPECIAL_FAKE ==> IsSsnValid(ssn, true, currentFullYear))
            && (t != SPECIAL_FAKE && separator == '+' ==> !IsSsnValid(ssn, true, currentFullYear))
            && (t != SPECIAL_FAKE && separator == '-' && yy < current ==> !IsSsnValid(ssn, true, currentFullYear))
            && (t != SPECIAL_FAKE && Is21stCentury(separator) && yy > current
                ==> !IsSsnValid(ssn, true, currentFullYear))
            && (t != SPECIAL_FAKE && separator != '+'
                && !(separator == '-' && yy < current) && !(Is21stCentury(separator) && yy > current)
                ==> IsSsnValid(ssn, true, currentFullYear) == IsSsnValid(ssn, false, currentFullYear))
  {
    var t := Trim(ssn);
    var m := MatchSsn(t).value;
    assert m.individual[0] == t[7] && m.birthDate[4..] == t[4..6];
  }

  /** None of the three age rules rejects this sign and year. */
  predicate PassesAgeRules(separator: char, yy: nat, current: nat) {
    && separator != '+'
    && !(separator == '-' && yy < current)
    && !(Is21stCentury(separator) && yy > current)
  }

  /** Sufficient for acceptance: the shape, a numeric individual part, the
      right check character and, when the age rules apply, a sign and year
      they let through. */
  lemma AcceptedByChecksum(t: string, ageSanityCheck: bool, currentFullYear: nat)
    requires HasShape(t) && AllDigits(t[7..10])
    requires ToUpper(t[10]) == CheckChar(CheckIndex(t[..6], t[7..10]))
    requires ageSanityCheck ==> PassesAgeRules(ToUpper(t[6]), DecimalValue(t[4..6]), TwoDigitYear(currentFullYear))
    ensures IsSsnValid(t, ageSanityCheck, currentFullYear)
  {
    TrimmedAccepted(t, ageSanityCheck, currentFullYear);
    Untrimmed(t);
    ValidOfTrimmed(t, ageSanityCheck, currentFullYear);
  }

  lemma TrimmedAccepted(t: string, ageSanityCheck: bool, currentFullYear: nat)
    requires HasShape(t) && AllDigits(t[7..10])
    requires ToUpper(t[10]) == CheckChar(CheckIndex(t[..6], t[7..10]))
    requires ageSanityCheck ==> PassesAgeRules(ToUpper(t[6]), DecimalValue(t[4..6]), TwoDigitYear(currentFullYear))
    ensures ValidTrimmed(t, ageSanityCheck, currentFullYear)
  {
    var m := MatchSsn(t).value;
    assert m.individual[0] == t[7] && m.birthDate[4..] == t[4..6];
  }

  /** The age rules only ever turn an accepted code into a rejected one,
      except for the one special code. */
  lemma AgeRulesOnlyReject(ssn: string, currentFullYear: nat)
    requires Trim(ssn) != SPECIAL_FAKE
    ensures IsSsnValid(ssn, true, currentFullYear) ==> IsSsnValid(ssn, false, currentFullYear)
  {
  }

  /** The century sign and the check character may be written in either case:
      two well-shaped codes that differ at most in the case of those two
      characters get the same verdict. */
  lemma CaseInsensitive(t: string, u: string, ageSanityCheck: bool, currentFullYear: nat)
    requires HasShape(t) && Recasing(t, u)
    ensures IsSsnValid(u, ageSanityCheck, currentFullYear) == IsSsnValid(t, ageSanityCheck, currentFullYear)
  {
    RecasedVerdict(t, u, ageSanityCheck, currentFullYear);
    SameValidity(t, u, ageSanityCheck, currentFullYear);
  }

  lemma RecasedVerdict(t: string, u: string, ageSanityCheck: bool, currentFullYear: nat)
    requires HasShape(t) && Recasing(t, u)
    ensures Trim(t) == t && Trim(u) == u
    ensures ValidTrimmed(u, ageSanityCheck, currentFullYear) == ValidTrimmed(t, ageSanityCheck, currentFullYear)
  {
    Recased(t, u);
    SameParts(t, u, ageSanityCheck, currentFullYear);
    Untrimmed(t);
    Untrimmed(u);
  }

  /** `u` is `t` with the century sign and the check character replaced by
      characters the shape allows that upper-case to the same ones. */
  predicate Recasing(t: string, u: string) {
    && |t| == |u| == 11 && t[..6] == u[..6] && t[7..10] == u[7..10]
    && ToUpper(t[6]) == ToUpper(u[6]) && ToUpper(t[10]) == ToUpper(u[10])
    && IsCenturySign(u[6]) && IsCheckClass(u[10])
  }

  /** Two well-shaped strings whose matches differ only in the case of the
      sign and the check character get the same verdict once trimmed. */
  lemma SameParts(t: string, u: string, ageSanityCheck: bool, currentFullYear: nat)
    requires MatchSsn(t).Some? && MatchSsn(u).Some?
    requires var m, n := MatchSsn(t).value, MatchSsn(u).value;
             && m.birthDate == n.birthDate && m.individual == n.individual
             && ToUpper(m.separator) == ToUpper(n.separator) && ToUpper(m.checkChar) == ToUpper(n.checkChar)
    requires (t == SPECIAL_FAKE) == (u == SPECIAL_FAKE)
    ensures ValidTrimmed(u, ageSanityCheck, currentFullYear) == ValidTrimmed(t, ageSanityCheck, currentFullYear)
  {
    SameDecision(t, u, MatchSsn(t).value, MatchSsn(u).value, ageSanityCheck, currentFullYear);
  }

  /** Two trimmed strings on which the decision agrees are both valid or both invalid. */
  lemma SameValidity(t: string, u: string, ageSanityCheck: bool, currentFullYear: nat)
    requires Trim(t) == t && Trim(u) == u
    requires ValidTrimmed(u, ageSanityCheck, currentFullYear) == ValidTrimmed(t, ageSanityCheck, currentFullYear)
    ensures IsSsnValid(u, ageSanityCheck, currentFullYear) == IsSsnValid(t, ageSanityCheck, currentFullYear)
  {
    ValidOfTrimmed(t, ageSanityCheck, currentFullYear);
    ValidOfTrimmed(u, ageSanityCheck, currentFullYear);
  }

  lemma ValidOfTrimmed(t: string, ageSanityCheck: bool, currentFullYear: nat)
    requires Trim(t) == t
    ensures IsSsnValid(t, ageSanityCheck, currentFullYear) == ValidTrimmed(t, ageSanityCheck, currentFullYear)
  {
  }

  /** Re-casing the sign and the check character keeps the shape and
      changes only those two groups of the match. */
  lemma Recased(t: string, u: string)
    requires HasShape(t) && Recasing(t, u)
    ensures && HasShape(u)
            && MatchSsn(u) == Some(SsnMatch(t[..6], u[6], t[7..10], u[10]))
            && MatchSsn(t) == Some(SsnMatch(t[..6], t[6], t[7..10], t[10]))
            && (t == SPECIAL_FAKE <==> u == SPECIAL_FAKE)
  {
    SpecialFakeCase(t, u);
  }

  /** The decision reads the sign and the check character only upper-cased. */
  lemma SameDecision(t: string, u: string, m: SsnMatch, n: SsnMatch, ageSanityCheck: bool, currentFullYear: nat)
    requires |m.birthDate| == 6 && AllDigits(m.birthDate) && IsIndividual(m.individual)
    requires m.birthDate == n.birthDate && m.individual == n.individual
    requires ToUpper(m.separator) == ToUpper(n.separator) && ToUpper(m.checkChar) == ToUpper(n.checkChar)
    requires (t == SPECIAL_FAKE) == (u == SPECIAL_FAKE)
    ensures Decide(t, m, ageSanityCheck, currentFullYear) == Decide(u, n, ageSanityCheck, currentFullYear)
  {
  }

  /** A well-shaped string begins with a digit and ends with a letter or digit,
      so trimming leaves it alone. */
  lemma Untrimmed(t: string)
    requires HasShape(t)
    ensures Trim(t) == t
  {
    TrimOfTrimmed(t);
  }

  /** Re-casing the sign and check character of the special code changes
      nothing, since `-` and `1` have no case. */
  lemma SpecialFakeCase(t: string, u: string)
    requires |t| == |u| == 11 && t[..6] == u[..6] && t[7..10] == u[7..10]
    requires ToUpper(t[6]) == ToUpper(u[6]) && ToUpper(t[10]) == ToUpper(u[10])
    ensures t == SPECIAL_FAKE <==> u == SPECIAL_FAKE
  {
    assert t == t[..6] + [t[6]] + t[7..10] + [t[10]];
    assert u == u[..6] + [u[6]] + u[7..10] + [u[10]];
    assert SPECIAL_FAKE == SPECIAL_FAKE[..6] + ['-'] + SPECIAL_FAKE[7..10] + ['1'];
    Caseless('-', t[6], u[6]);
    Caseless('1', t[10], u[10]);
  }

  /** A character without case is the only one that upper-cases to itself. */
  lemma Caseless(c: char, x: char, y: char)
    requires !IsLetter(c) && ToUpper(x) == ToUpper(y)
    ensures x == c <==> y == c
  {
  }

  /** The computed check characters are the source's table. */
  lemma CheckCharTable()
    ensures |CHECK_CODES| == 31
    ensures forall k | 0 <= k < 31 :: CheckChar(k) == CHECK_CODES[k]
  {
  }

  /** Every check character is one the shape allows, and has no lower case. */
  lemma CheckCharShape(k: nat)
    requires k < 31
    ensures IsCheckClass(CheckChar(k)) && ToUpper(CheckChar(k)) == CheckChar(k)
    ensures CheckChar(k) !in "GIOQ"
  {
  }

  // ---------------------------------------------------------------------
  // Properties of isFakeYtlSsn

  /** The search can only succeed on the last 11 characters. */
  lemma FakeIffSuffix(s: string)
    ensures IsFakeYtlSsn(s) <==> |s| >= 11 && FakeAt(s, |s| - 11)
  {
    if |s| >= 11 && FakeAt(s, |s| - 11) {
      assert FakeAt(s, |s| - 11);
    }
  }

  /** The pattern is not anchored at the start: any prefix may come before. */
  lemma FakeUnanchored(p: string, s: string)
    requires IsFakeYtlSsn(s)
    ensures IsFakeYtlSsn(p + s)
  {
    var i :| 0 <= i <= |s| && FakeAt(s, i);
    var ps, j := p + s, |p| + i;
    assert ps[j..j + 6] == s[i..i + 6] && ps[j + 6..j + 8] == s[i + 6..i + 8];
    assert ps[j + 8..j + 10] == s[i + 8..i + 10] && ps[j + 10] == s[i + 10];
    assert FakeAt(ps, j);
  }

  /** An 11-character fake code whose last character the shape also allows
      is accepted by `isSsnValid`, whatever the flags. */
  lemma FakeIsValid(s: string, ageSanityCheck: bool, currentFullYear: nat)
    requires |s| == 11 && IsFakeYtlSsn(s) && IsCheckClass(s[10])
    ensures IsSsnValid(s, ageSanityCheck, currentFullYear)
  {
    FakeIffSuffix(s);
    assert FakeAt(s, 0);
    assert s[6..8] == [s[6], s[7]];
    assert (s[6] == 'A' || s[6] == '-') && s[7] == 'U';
    assert s[0..6] == s[..6] && s[7..10][1..] == s[8..10];
    assert IsIndividual(s[7..10]);
    assert HasShape(s);
    Untrimmed(s);
    FakeIndividualAccepted(s, ageSanityCheck, currentFullYear);
  }
}
