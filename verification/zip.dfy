/** `createZipName`: the file name of an exported zip. The stem
    `prefix_name` has every run of characters outside `[a-zA-Z0-9.-]`
    replaced by one underscore and is cut to 72 characters; the suffix
    follows a dot. */
module Zip {
  import opened Wrappers
  import opened Text

  /** `MAX_ZIP_NAME_LENGTH`. */
  const MaxZipNameLength: nat := 72

  /** `[a-zA-Z0-9.-]`, the characters the sanitiser keeps. */
  predicate IsNameChar(c: char) { IsAlnum(c) || c == '.' || c == '-' }

  /** No two underscores side by side. */
  predicate NoDoubleUnderscore(s: string) {
    forall i | 0 <= i < |s| - 1 :: !(s[i] == '_' && s[i + 1] == '_')
  }

  /** What a sanitised stem looks like: kept characters and single
      underscores. */
  predicate IsCleanStem(s: string) {
    (forall i | 0 <= i < |s| :: IsNameChar(s[i]) || s[i] == '_') && NoDoubleUnderscore(s)
  }

  /** `s.replace(/[^a-zA-Z0-9.-]+/g, '_')`, read left to right: a kept
      character is copied, and a maximal run of other characters (`_`
      among them) becomes one `_`. `inRun` says the character before `s`
      already belonged to a replaced run. */
  function Sanitize(s: string, inRun: bool): (r: string)
    ensures |r| <= |s|
    ensures IsCleanStem(r)
    ensures inRun && r != [] ==> r[0] != '_'
    decreases |s|
  {
    if s == [] then []
    else if IsNameChar(s[0]) then
      var rest := Sanitize(s[1..], false);
      assert ([s[0]] + rest)[1..] == rest;
      [s[0]] + rest
    else if inRun then Sanitize(s[1..], true)
    else
      var rest := Sanitize(s[1..], true);
      assert ("_" + rest)[1..] == rest;
      "_" + rest
  }

  /** A string ending in a kept character is sanitised on its own: what
      follows starts outside any replaced run. */
  lemma {:induction false} KeptThenRest(a: string, t: string, inRun: bool)
    requires a != [] && IsNameChar(a[|a| - 1])
    ensures Sanitize(a + t, inRun) == Sanitize(a, inRun) + Sanitize(t, false)
    decreases |a|
  {
    var c := a[0];
    assert (a + t)[0] == c && (a + t)[1..] == a[1..] + t;
    if |a| == 1 {
      assert a[1..] + t == t;
      assert Sanitize(a, inRun) == [c] + Sanitize([], false);
    } else {
      var r := a[1..];
      assert r[|r| - 1] == a[|a| - 1];
      if IsNameChar(c) {
        KeptThenRest(r, t, false);
        SeqAssoc([c], Sanitize(r, false), Sanitize(t, false));
      } else if inRun {
        KeptThenRest(r, t, true);
      } else {
        KeptThenRest(r, t, true);
        SeqAssoc("_", Sanitize(r, true), Sanitize(t, false));
      }
    }
  }

  /** A run of replaced characters leaves nothing once a run is open, when
      a kept character or the end follows it. */
  lemma {:induction false} JunkAbsorbed(y: string, b: string)
    requires forall i | 0 <= i < |y| :: !IsNameChar(y[i])
    requires b == [] || IsNameChar(b[0])
    ensures Sanitize(y + b, true) == Sanitize(b, false)
    decreases |y|
  {
    if y == [] {
      assert y + b == b;
    } else {
      assert (y + b)[0] == y[0] && (y + b)[1..] == y[1..] + b;
      JunkAbsorbed(y[1..], b);
    }
  }

  /** Each maximal run of characters outside `[a-zA-Z0-9.-]`, `_` included,
      becomes exactly one `_` in its place. */
  lemma RunBecomesOneUnderscore(a: string, x: string, b: string)
    requires a == [] || IsNameChar(a[|a| - 1])
    requires x != [] && forall i | 0 <= i < |x| :: !IsNameChar(x[i])
    requires b == [] || IsNameChar(b[0])
    ensures Sanitize(a + x + b, false) == Sanitize(a, false) + "_" + Sanitize(b, false)
  {
    var xb := x + b;
    RunToUnderscore(x, b);
    SeqAssoc(a, x, b);
    if a == [] {
      assert a + xb == xb;
    } else {
      KeptThenRest(a, xb, false);
      SeqAssoc(Sanitize(a, false), "_", Sanitize(b, false));
    }
  }

  /** A run at the start, outside any earlier run, opens with one `_`. */
  lemma RunToUnderscore(x: string, b: string)
    requires x != [] && forall i | 0 <= i < |x| :: !IsNameChar(x[i])
    requires b == [] || IsNameChar(b[0])
    ensures Sanitize(x + b, false) == "_" + Sanitize(b, false)
  {
    var xb := x + b;
    assert xb[0] == x[0] && xb[1..] == x[1..] + b;
    JunkAbsorbed(x[1..], b);
  }

  lemma SeqAssoc(a: string, b: string, c: string)
    ensures a + (b + c) == (a + b) + c
  {
  }

  /** The kept characters of a string, in order. */
  function NameChars(s: string): (r: string)
    ensures forall i | 0 <= i < |r| :: IsNameChar(r[i])
  {
    if s == [] then []
    else if IsNameChar(s[0]) then [s[0]] + NameChars(s[1..])
    else NameChars(s[1..])
  }

  lemma {:induction false} NameCharsAppend(a: string, b: string)
    ensures NameChars(a + b) == NameChars(a) + NameChars(b)
  {
    if a == [] {
      assert a + b == b;
    } else {
      assert (a + b)[0] == a[0];
      assert (a + b)[1..] == a[1..] + b;
      NameCharsAppend(a[1..], b);
    }
  }

  /** The sanitiser loses no kept character and adds none: only the runs of
      other characters change. */
  lemma {:induction false} SanitizeKeepsNameChars(s: string, inRun: bool)
    ensures NameChars(Sanitize(s, inRun)) == NameChars(s)
    decreases |s|
  {
    if s != [] {
      var r := Sanitize(s, inRun);
      if IsNameChar(s[0]) {
        SanitizeKeepsNameChars(s[1..], false);
        assert r == [s[0]] + Sanitize(s[1..], false);
        assert r[0] == s[0] && r[1..] == Sanitize(s[1..], false);
      } else if inRun {
        SanitizeKeepsNameChars(s[1..], true);
      } else {
        SanitizeKeepsNameChars(s[1..], true);
        assert r == "_" + Sanitize(s[1..], true);
        assert r[0] == '_' && r[1..] == Sanitize(s[1..], true);
      }
    }
  }

  /** The sanitiser leaves a string alone exactly when it already looks like
      a sanitised stem (after a replaced run, one that does not start with
      `_`). */
  lemma {:induction false} SanitizeFixedIff(s: string, inRun: bool)
    ensures Sanitize(s, inRun) == s <==> IsCleanStem(s) && (inRun && s != [] ==> s[0] != '_')
    decreases |s|
  {
    if s != [] {
      var c, t := s[0], s[1..];
      assert s == [c] + t;
      CleanCons(c, t);
      if IsNameChar(c) {
        SanitizeFixedIff(t, false);
        var rest := Sanitize(t, false);
        assert ([c] + rest == s) <==> (rest == t) by {
          if [c] + rest == s { assert ([c] + rest)[1..] == rest; }
        }
      } else if inRun {
        assert |Sanitize(t, true)| < |s|;
      } else {
        SanitizeFixedIff(t, true);
        var rest := Sanitize(t, true);
        assert ("_" + rest == s) <==> (c == '_' && rest == t) by {
          if "_" + rest == s { assert ("_" + rest)[1..] == rest; assert ("_" + rest)[0] == '_'; }
        }
      }
    }
  }

  /** A stem splits at its first character. */
  lemma CleanCons(c: char, t: string)
    ensures IsCleanStem([c] + t) <==>
      (IsNameChar(c) || c == '_') && IsCleanStem(t) && (c == '_' && t != [] ==> t[0] != '_')
  {
    var s := [c] + t;
    assert forall i | 1 <= i < |s| :: s[i] == t[i - 1];
    assert s[0] == c;
    assert t != [] ==> s[1] == t[0];
    if (IsNameChar(c) || c == '_') && IsCleanStem(t) && (c == '_' && t != [] ==> t[0] != '_') {
      forall i | 0 <= i < |s| ensures IsNameChar(s[i]) || s[i] == '_' {
        if i > 0 { assert s[i] == t[i - 1]; }
      }
      forall i | 0 <= i < |s| - 1 ensures !(s[i] == '_' && s[i + 1] == '_') {
        if i > 0 { assert s[i] == t[i - 1] && s[i + 1] == t[i]; }
      }
    }
    if IsCleanStem(s) {
      forall i | 0 <= i < |t| ensures IsNameChar(t[i]) || t[i] == '_' {
        assert t[i] == s[i + 1];
      }
      forall i | 0 <= i < |t| - 1 ensures !(t[i] == '_' && t[i + 1] == '_') {
        assert t[i] == s[i + 1] && t[i + 1] == s[i + 2];
      }
    }
  }

  /** Sanitising twice is sanitising once. */
  lemma SanitizeIdempotent(s: string)
    ensures Sanitize(Sanitize(s, false), false) == Sanitize(s, false)
  {
    SanitizeFixedIff(Sanitize(s, false), false);
  }

  /** `substring(0, n)`: the first `n` characters, or all of a shorter string. */
  function Take(s: string, n: nat): (r: string)
    ensures |r| <= n && |r| <= |s|
    ensures r == s[..|r|]
    ensures |s| <= n ==> r == s
  {
    if |s| <= n then s else s[..n]
  }

  /** A prefix of a sanitised stem is one too. */
  lemma CleanPrefix(s: string, k: nat)
    requires IsCleanStem(s) && k <= |s|
    ensures IsCleanStem(s[..k])
  {
    assert forall i | 0 <= i < k :: s[..k][i] == s[i];
  }

  /** The kept characters of a prefix are a prefix of the kept characters. */
  lemma NameCharsOfPrefix(s: string, k: nat)
    requires k <= |s|
    ensures StartsWith(NameChars(s), NameChars(s[..k]))
  {
    assert s == s[..k] + s[k..];
    NameCharsAppend(s[..k], s[k..]);
  }

  /** `suffix || 'meb'`: an absent or empty suffix falls back to `meb`. */
  function ZipSuffix(suffix: Option<string>): (r: string)
    ensures suffix.Some? && suffix.value != "" ==> r == suffix.value
    ensures suffix.None? || suffix.value == "" ==> r == "meb"
    ensures r != ""
  {
    if suffix.Some? && suffix.value != "" then suffix.value else "meb"
  }

  /** The stem: `${prefix}_${name}` sanitised and cut to 72 characters.
      It holds the kept characters of `prefix` then `name`, in order, all of
      them when `prefix_name` fits in 72 characters. */
  function ZipStem(prefix: string, name: string): (r: string)
    ensures |r| <= MaxZipNameLength
    ensures IsCleanStem(r)
    ensures StartsWith(NameChars(prefix) + NameChars(name), NameChars(r))
    ensures |prefix| + 1 + |name| <= MaxZipNameLength ==> NameChars(r) == NameChars(prefix) + NameChars(name)
  {
    var joined := prefix + "_" + name;
    var s := Sanitize(joined, false);
    var r := Take(s, MaxZipNameLength);
    CleanPrefix(s, |r|);
    JoinedNameChars(prefix, name);
    SanitizeKeepsNameChars(joined, false);
    NameCharsOfPrefix(s, |r|);
    r
  }

  /** The underscore between prefix and name is not a kept character. */
  lemma JoinedNameChars(prefix: string, name: string)
    ensures NameChars(prefix + "_" + name) == NameChars(prefix) + NameChars(name)
  {
    var u := "_";
    assert NameChars(u) == [] by {
      assert !IsNameChar(u[0]) && u[1..] == [];
    }
    NameCharsAppend(prefix, u);
    assert NameChars(prefix + u) == NameChars(prefix);
    NameCharsAppend(prefix + u, name);
  }

  /** `createZipName(prefix, name, suffix)`. */
  function CreateZipName(prefix: string, name: string, suffix: Option<string>): (r: string)
  {
    ZipStem(prefix, name) + "." + ZipSuffix(suffix)
  }

  /** The name read back: a stem of at most 72 characters made of
      `[A-Za-z0-9._-]` with no doubled underscore, a dot, and the suffix
      (`meb` when none is given). */
  lemma CreateZipNameShape(prefix: string, name: string, suffix: Option<string>)
    ensures var r := CreateZipName(prefix, name, suffix);
            var k := |r| - |ZipSuffix(suffix)| - 1;
            && 0 <= k <= MaxZipNameLength
            && IsCleanStem(r[..k]) && r[k] == '.' && r[k + 1..] == ZipSuffix(suffix)
            && r[..k] == ZipStem(prefix, name)
  {
    var stem := ZipStem(prefix, name);
    var r := CreateZipName(prefix, name, suffix);
    assert r[..|stem|] == stem && r[|stem|] == '.' && r[|stem| + 1..] == ZipSuffix(suffix);
  }

  /** A `prefix_name` that is already a sanitised stem and fits is used as
      it is, so the tests' `('exported', 'mathexam')` gives
      `exported_mathexam.meb`, or `exported_mathexam.zip` with suffix `zip`. */
  lemma CleanNameKept(prefix: string, name: string, suffix: Option<string>)
    requires IsCleanStem(prefix + "_" + name)
    requires |prefix| + 1 + |name| <= MaxZipNameLength
    ensures CreateZipName(prefix, name, suffix) == prefix + "_" + name + "." + ZipSuffix(suffix)
  {
    SanitizeFixedIff(prefix + "_" + name, false);
  }
}
