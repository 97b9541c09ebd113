/** `isValidEmail` of the validation package: at most 254 characters and
    either empty or a match of one regular expression. The expression is
    written here as the grammar it denotes, one predicate per group, and each
    group is then characterised character by character. */
module Email {
  import opened Text

  const MAX_LENGTH: nat := 254

  /** The local-part class `[-!#$%&'*+/0-9=?A-Z^_a-z`{|}~]`. */
  predicate IsLocalChar(c: char) {
    || IsAlnum(c)
    || c == '-' || c == '!' || c == '#' || c == '$' || c == '%' || c == '&' || c == '\''
    || c == '*' || c == '+' || c == '/' || c == '=' || c == '?' || c == '^' || c == '_'
    || c == '`' || c == '{' || c == '|' || c == '}' || c == '~'
  }

  // ---------------------------------------------------------------------
  // The expression, group by group:
  //   ^ L(\.?L)* @ D(-*\.?D)* \. [a-zA-Z](-?D)+ $   with D = [a-zA-Z0-9]

  /** `L(\.?L)*` */
  predicate LocalPart(s: string) {
    |s| >= 1 && IsLocalChar(s[0]) && LocalUnits(s[1..])
  }

  /** `(\.?L)*` */
  predicate LocalUnits(s: string)
    decreases |s|
  {
    || s == []
    || (IsLocalChar(s[0]) && LocalUnits(s[1..]))
    || (|s| >= 2 && s[0] == '.' && IsLocalChar(s[1]) && LocalUnits(s[2..]))
  }

  /** `D(-*\.?D)*`, the domain up to its last dot. */
  predicate DomainHead(s: string) {
    |s| >= 1 && IsAlnum(s[0]) && HeadUnits(s[1..])
  }

  /** `(-*\.?D)*` */
  predicate HeadUnits(s: string)
    decreases |s|, 1
  {
    s == [] || HeadUnit(s)
  }

  /** One `-*\.?D` followed by `HeadUnits`. */
  predicate HeadUnit(s: string)
    decreases |s|, 0
  {
    && s != []
    && (|| (s[0] == '-' && HeadUnit(s[1..]))
        || (|s| >= 2 && s[0] == '.' && IsAlnum(s[1]) && HeadUnits(s[2..]))
        || (IsAlnum(s[0]) && HeadUnits(s[1..])))
  }

  /** `[a-zA-Z](-?D)+`, the top-level domain. */
  predicate DomainTail(s: string) {
    |s| >= 1 && IsLetter(s[0]) && TailUnits(s[1..])
  }

  /** `(-?D)+` */
  predicate TailUnits(s: string)
    decreases |s|
  {
    || (|s| >= 1 && IsAlnum(s[0]) && (|s| == 1 || TailUnits(s[1..])))
    || (|s| >= 2 && s[0] == '-' && IsAlnum(s[1]) && (|s| == 2 || TailUnits(s[2..])))
  }

  /** `D(-*\.?D)*\.[a-zA-Z](-?D)+`: some dot splits it into head and tail. */
  predicate Domain(s: string) {
    exists j | 0 <= j < |s| :: s[j] == '.' && DomainHead(s[..j]) && DomainTail(s[j + 1..])
  }

  /** The whole expression, anchored at both ends: some `@` splits the string. */
  predicate MatchesEmail(s: string) {
    exists i | 0 <= i < |s| :: s[i] == '@' && LocalPart(s[..i]) && Domain(s[i + 1..])
  }

  /** `isValidEmail(email)` */
  predicate IsValidEmail(s: string) {
    |s| <= MAX_LENGTH && (MatchesEmail(s) || |s| == 0)
  }

  // ---------------------------------------------------------------------
  // Character-level descriptions of the groups

  /** Every character is a unit, or a separator directly followed by a unit. */
  predicate SepGuarded(s: string, sep: char, isUnit: char -> bool) {
    forall i | 0 <= i < |s| :: isUnit(s[i]) || (s[i] == sep && i + 1 < |s| && isUnit(s[i + 1]))
  }

  /** A local part as people describe it: local characters and dots, no dot
      first or last, and never two dots in a row. */
  predicate LocalShape(s: string) {
    && |s| >= 1 && s[0] != '.' && s[|s| - 1] != '.'
    && (forall i | 0 <= i < |s| :: IsLocalChar(s[i]) || s[i] == '.')
    && (forall i | 0 <= i < |s| - 1 :: !(s[i] == '.' && s[i + 1] == '.'))
  }

  /** Letters, digits, hyphens and dots, each dot followed by a letter or
      digit, and a letter or digit last. */
  predicate HeadShape(s: string) {
    && (forall i | 0 <= i < |s| :: IsAlnum(s[i]) || s[i] == '-' || (s[i] == '.' && i + 1 < |s| && IsAlnum(s[i + 1])))
    && (s == [] || IsAlnum(s[|s| - 1]))
  }

  lemma GuardedStep(s: string, sep: char, isUnit: char -> bool)
    requires s != []
    ensures SepGuarded(s, sep, isUnit)
            <==> (isUnit(s[0]) || (s[0] == sep && |s| >= 2 && isUnit(s[1]))) && SepGuarded(s[1..], sep, isUnit)
  {
    if (isUnit(s[0]) || (s[0] == sep && |s| >= 2 && isUnit(s[1]))) && SepGuarded(s[1..], sep, isUnit) {
      forall i | 1 <= i < |s|
        ensures isUnit(s[i]) || (s[i] == sep && i + 1 < |s| && isUnit(s[i + 1]))
      {
        assert s[i] == s[1..][i - 1];
      }
    }
  }

  /** `(\.?L)*` is exactly the dot-guarded strings of local characters. */
  lemma {:induction false} LocalUnitsIff(s: string)
    ensures LocalUnits(s) <==> SepGuarded(s, '.', IsLocalChar)
    decreases |s|
  {
    if s != [] {
      GuardedStep(s, '.', IsLocalChar);
      LocalUnitsIff(s[1..]);
      if |s| >= 2 {
        LocalUnitsIff(s[2..]);
        GuardedStep(s[1..], '.', IsLocalChar);
        assert s[1..][1..] == s[2..];
      }
    }
  }

  /** The local-part group matches exactly the strings that `LocalShape`
      describes. */
  lemma LocalPartIff(s: string)
    ensures LocalPart(s) <==> LocalShape(s)
  {
    if s != [] {
      LocalUnitsIff(s[1..]);
      GuardedStep(s, '.', IsLocalChar);
      var t := s[1..];
      if LocalShape(s) {
        forall i | 0 <= i < |t|
          ensures IsLocalChar(t[i]) || (t[i] == '.' && i + 1 < |t| && IsLocalChar(t[i + 1]))
        {
          assert t[i] == s[i + 1];
          if i + 1 < |t| { assert t[i + 1] == s[i + 2]; }
        }
      }
      if LocalPart(s) {
        forall i | 0 <= i < |s|
          ensures IsLocalChar(s[i]) || s[i] == '.'
        {
          if i > 0 { assert s[i] == t[i - 1]; }
        }
        forall i | 0 <= i < |s| - 1
          ensures !(s[i] == '.' && s[i + 1] == '.')
        {
          if i > 0 { assert s[i] == t[i - 1] && s[i + 1] == t[i]; }
        }
        if |s| > 1 { assert s[|s| - 1] == t[|t| - 1]; }
      }
    }
  }

  lemma HeadStep(s: string)
    requires s != []
    ensures HeadShape(s)
            <==> && (IsAlnum(s[0]) || s[0] == '-' || (s[0] == '.' && |s| >= 2 && IsAlnum(s[1])))
                 && HeadShape(s[1..])
                 && (IsAlnum(s[0]) || |s| >= 2)
  {
    var t := s[1..];
    if |s| >= 2 { assert s[|s| - 1] == t[|t| - 1]; }
    if && (IsAlnum(s[0]) || s[0] == '-' || (s[0] == '.' && |s| >= 2 && IsAlnum(s[1])))
       && HeadShape(t) && (IsAlnum(s[0]) || |s| >= 2)
    {
      forall i | 1 <= i < |s|
        ensures IsAlnum(s[i]) || s[i] == '-' || (s[i] == '.' && i + 1 < |s| && IsAlnum(s[i + 1]))
      {
        assert s[i] == t[i - 1];
      }
    }
  }

  /** `(-*\.?D)*` is exactly `HeadShape`; one or more units, the non-empty ones. */
  lemma {:induction false} HeadUnitsIff(s: string)
    ensures HeadUnits(s) <==> HeadShape(s)
    ensures HeadUnit(s) <==> s != [] && HeadShape(s)
    decreases |s|
  {
    if s != [] {
      HeadStep(s);
      HeadUnitsIff(s[1..]);
      if |s| >= 2 {
        HeadUnitsIff(s[2..]);
        HeadStep(s[1..]);
        assert s[1..][1..] == s[2..];
      }
    }
  }

  /** The head group matches exactly the non-empty `HeadShape` strings that
      start with a letter or digit. */
  lemma DomainHeadIff(s: string)
    ensures DomainHead(s) <==> s != [] && IsAlnum(s[0]) && HeadShape(s)
  {
    if s != [] {
      HeadUnitsIff(s[1..]);
      HeadStep(s);
    }
  }

  /** `(-?D)+` is exactly the non-empty hyphen-guarded strings of letters and digits. */
  lemma {:induction false} TailUnitsIff(s: string)
    ensures TailUnits(s) <==> s != [] && SepGuarded(s, '-', IsAlnum)
    decreases |s|
  {
    if s != [] {
      GuardedStep(s, '-', IsAlnum);
      if |s| >= 2 {
        TailUnitsIff(s[1..]);
        GuardedStep(s[1..], '-', IsAlnum);
        if |s| >= 3 {
          TailUnitsIff(s[2..]);
          assert s[1..][1..] == s[2..];
        } else {
          GuardedStep(s[1..], '-', IsAlnum);
          assert s[1..][1..] == [];
        }
      }
    }
  }

  /** The top-level domain: a letter, then letters, digits and single
      hyphens, ending in a letter or digit; two characters at least. */
  lemma DomainTailIff(s: string)
    ensures DomainTail(s) <==> |s| >= 2 && IsLetter(s[0]) && SepGuarded(s[1..], '-', IsAlnum)
  {
    if s != [] { TailUnitsIff(s[1..]); }
  }

  // ---------------------------------------------------------------------
  // Properties of isValidEmail

  lemma EmptyIsValid()
    ensures IsValidEmail("")
  {
  }

  lemma TooLongIsInvalid(s: string)
    requires |s| > MAX_LENGTH
    ensures !IsValidEmail(s)
  {
  }

  /** No `@` and nothing beyond ASCII. */
  predicate PlainChars(s: string) {
    forall k | 0 <= k < |s| :: s[k] != '@' && IsAscii(s[k])
  }

  lemma LocalPlain(l: string)
    requires LocalShape(l)
    ensures PlainChars(l)
  {
  }

  lemma DomainPlain(d: string)
    requires Domain(d)
    ensures PlainChars(d)
  {
    var j :| 0 <= j < |d| && d[j] == '.' && DomainHead(d[..j]) && DomainTail(d[j + 1..]);
    DomainHeadIff(d[..j]);
    HeadPlain(d[..j]);
    DomainTailIff(d[j + 1..]);
    TailPlain(d[j + 1..]);
    PlainSplit(d, j);
  }

  lemma HeadPlain(h: string)
    requires HeadShape(h)
    ensures PlainChars(h)
  {
  }

  lemma TailPlain(t: string)
    requires |t| >= 1 && IsLetter(t[0]) && SepGuarded(t[1..], '-', IsAlnum)
    ensures PlainChars(t)
  {
    forall k | 1 <= k < |t| ensures t[k] != '@' && IsAscii(t[k]) {
      assert t[k] == t[1..][k - 1];
    }
  }

  /** Plain on both sides of a plain character at `j` is plain throughout. */
  lemma PlainSplit(s: string, j: nat)
    requires j < |s| && PlainChars(s[..j]) && s[j] != '@' && IsAscii(s[j]) && PlainChars(s[j + 1..])
    ensures PlainChars(s)
  {
    forall k | 0 <= k < |s| ensures s[k] != '@' && IsAscii(s[k]) {
      if k < j { assert s[k] == s[..j][k]; }
      else if k > j { assert s[k] == s[j + 1..][k - j - 1]; }
    }
  }

  /** Nothing the expression accepts contains an `@` outside its one split
      point, or a character beyond ASCII. */
  lemma ValidEmailShape(s: string)
    requires IsValidEmail(s) && s != []
    ensures exists i | 0 <= i < |s| :: && s[i] == '@'
                                        && '@' !in s[..i] && '@' !in s[i + 1..]
                                        && LocalShape(s[..i])
    ensures forall k | 0 <= k < |s| :: IsAscii(s[k])
  {
    var i :| 0 <= i < |s| && s[i] == '@' && LocalPart(s[..i]) && Domain(s[i + 1..]);
    var l, d := s[..i], s[i + 1..];
    LocalPartIff(l);
    LocalPlain(l);
    DomainPlain(d);
    forall k | 0 <= k < |s| ensures IsAscii(s[k]) {
      if k < i { assert s[k] == l[k]; } else if k > i { assert s[k] == d[k - i - 1]; }
    }
  }

  /** The example the tests use: `a@a.com` is valid. */
  lemma ShortAddressIsValid()
    ensures IsValidEmail("a@a.com")
  {
    var s := "a@a.com";
    var d := s[2..];
    assert d[..1] == "a" && d[2..] == "com";
    assert TailUnits("om") by { assert "om"[1..] == "m"; }
    assert DomainTail(d[2..]) by { assert d[2..][1..] == "om"; }
    assert DomainHead(d[..1]);
    assert Domain(d);
    assert s[..1] == "a";
    assert LocalPart(s[..1]);
  }

  /** In a valid address every `@` is the separator: whatever precedes any
      `@` is the whole local part. */
  lemma LocalPartBeforeAt(s: string, k: nat)
    requires IsValidEmail(s) && k < |s| && s[k] == '@'
    ensures LocalShape(s[..k]) && '@' !in s[k + 1..]
  {
    ValidEmailShape(s);
    var i :| 0 <= i < |s| && s[i] == '@' && '@' !in s[..i] && '@' !in s[i + 1..] && LocalShape(s[..i]);
  }

  /** A string whose text before some `@` is not a local part is rejected. */
  lemma NotLocalBeforeAt(s: string, k: nat)
    requires k < |s| && s[k] == '@' && !LocalShape(s[..k])
    ensures !IsValidEmail(s)
  {
    if IsValidEmail(s) {
      LocalPartBeforeAt(s, k);
    }
  }

  /** Examples the tests reject: a doubled dot, a leading dot, two `@`. */
  lemma DoubleDotRejected()
    ensures !IsValidEmail("test..user@example.com")
  {
    var a := "test..user@example.com";
    assert a[10] == '@' && a[..10][4] == '.' && a[..10][5] == '.';
    NotLocalBeforeAt(a, 10);
  }

  lemma LeadingDotRejected()
    ensures !IsValidEmail(".test.user@example.com")
  {
    var a := ".test.user@example.com";
    assert a[10] == '@' && a[..10][0] == '.';
    NotLocalBeforeAt(a, 10);
  }

  lemma DoubleAtRejected()
    ensures !IsValidEmail("test.user@@example.com")
  {
    var a := "test.user@@example.com";
    assert a[10] == '@' && a[..10][9] == '@';
    NotLocalBeforeAt(a, 10);
  }
}
