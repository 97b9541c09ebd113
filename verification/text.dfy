/** Character classes and string helpers with the meaning the JavaScript
    built-ins give them in the packages: the regular-expression classes `\d`,
    `\w` and `\s`, `String.prototype.trim`, `split`/`join` on one separator,
    `padStart`, ASCII case mapping and decimal rendering of numbers. */
module Text {
  import opened Wrappers

  predicate IsDigit(c: char) { '0' <= c <= '9' }
  predicate IsUpper(c: char) { 'A' <= c <= 'Z' }
  predicate IsLower(c: char) { 'a' <= c <= 'z' }
  predicate IsLetter(c: char) { IsUpper(c) || IsLower(c) }
  predicate IsAlnum(c: char) { IsLetter(c) || IsDigit(c) }
  predicate IsAscii(c: char) { c as int < 128 }

  /** `\w`: ASCII letters, digits and underscore. */
  predicate IsWordChar(c: char) { IsAlnum(c) || c == '_' }

  /** `[0-9a-f]` under the case-insensitive flag. */
  predicate IsHexDigit(c: char) { IsDigit(c) || 'a' <= c <= 'f' || 'A' <= c <= 'F' }

  /** `\s`, which is also the set `trim` removes: WhiteSpace and LineTerminator. */
  predicate IsSpace(c: char) {
    || c == '\t' || c == '\n' || c == '\U{B}' || c == '\U{C}' || c == '\r' || c == ' '
    || c == '\U{A0}' || c == '\U{1680}' || ('\U{2000}' <= c <= '\U{200A}')
    || c == '\U{2028}' || c == '\U{2029}' || c == '\U{202F}' || c == '\U{205F}'
    || c == '\U{3000}' || c == '\U{FEFF}'
  }

  predicate AllDigits(s: string) { forall i | 0 <= i < |s| :: IsDigit(s[i]) }

  /** `toUpperCase` restricted to ASCII letters; every other character is kept. */
  function ToUpper(c: char): (r: char)
    ensures IsLower(c) ==> IsUpper(r) && r as int == c as int - 32
    ensures !IsLower(c) ==> r == c
  {
    if IsLower(c) then (c as int - 32) as char else c
  }

  /** `toLowerCase` restricted to ASCII letters; every other character is kept. */
  function ToLower(c: char): (r: char)
    ensures IsUpper(c) ==> IsLower(r) && r as int == c as int + 32
    ensures !IsUpper(c) ==> r == c
  {
    if IsUpper(c) then (c as int + 32) as char else c
  }

  function UpperString(s: string): (r: string)
    ensures |r| == |s|
    ensures forall i | 0 <= i < |s| :: r[i] == ToUpper(s[i])
  {
    seq(|s|, i requires 0 <= i < |s| => ToUpper(s[i]))
  }

  function LowerString(s: string): (r: string)
    ensures |r| == |s|
    ensures forall i | 0 <= i < |s| :: r[i] == ToLower(s[i])
  {
    seq(|s|, i requires 0 <= i < |s| => ToLower(s[i]))
  }

  /** Removes leading characters of `\s`. */
  function TrimStart(s: string): (r: string)
    ensures |r| <= |s| && r == s[|s| - |r|..]
    ensures r == [] || !IsSpace(r[0])
    ensures forall i | 0 <= i < |s| - |r| :: IsSpace(s[i])
  {
    if s != [] && IsSpace(s[0]) then
      var r := TrimStart(s[1..]);
      assert s[1..][|s| - 1 - |r|..] == s[|s| - |r|..];
      assert forall i | 1 <= i < |s| - |r| :: s[i] == s[1..][i - 1];
      r
    else s
  }

  /** Removes trailing characters of `\s`. */
  function TrimEnd(s: string): (r: string)
    ensures |r| <= |s| && r == s[..|r|]
    ensures r == [] || !IsSpace(r[|r| - 1])
    ensures forall i | |r| <= i < |s| :: IsSpace(s[i])
  {
    if s != [] && IsSpace(s[|s| - 1]) then
      var r := TrimEnd(s[..|s| - 1]);
      assert s[..|s| - 1][..|r|] == s[..|r|];
      assert forall i | |r| <= i < |s| - 1 :: s[i] == s[..|s| - 1][i];
      r
    else s
  }

  /** `String.prototype.trim`. */
  function Trim(s: string): (r: string)
    ensures r == [] || (!IsSpace(r[0]) && !IsSpace(r[|r| - 1]))
  {
    TrimEnd(TrimStart(s))
  }

  /** A string that neither starts nor ends with `\s` is its own trim. */
  lemma TrimOfTrimmed(s: string)
    requires s == [] || (!IsSpace(s[0]) && !IsSpace(s[|s| - 1]))
    ensures Trim(s) == s
  {
  }

  /** Trimming leaves a string alone exactly when it neither starts nor
      ends with `\s`. */
  lemma TrimFixedIff(s: string)
    ensures Trim(s) == s <==> s == [] || (!IsSpace(s[0]) && !IsSpace(s[|s| - 1]))
  {
    if s == [] || (!IsSpace(s[0]) && !IsSpace(s[|s| - 1])) {
      TrimOfTrimmed(s);
    } else {
      var t := TrimStart(s);
      if IsSpace(s[0]) {
        assert |t| < |s| by { assert |t| == |s| ==> t == s; }
      } else {
        assert t == s;
        var r := TrimEnd(s);
        assert |r| < |s| by { assert |r| == |s| ==> r == s; }
      }
      assert |Trim(s)| < |s|;
    }
  }

  /** `indexOf`: the first position of `x`, or None (the source's `-1`). */
  function IndexOf<T(==)>(s: seq<T>, x: T): (r: Option<nat>)
    ensures r.None? <==> x !in s
    ensures r.Some? ==> r.value < |s| && s[r.value] == x && x !in s[..r.value]
  {
    if s == [] then None
    else if s[0] == x then Some(0)
    else match IndexOf(s[1..], x)
      case None => None
      case Some(i) =>
        assert s[1..][..i] == s[1..i + 1];
        Some(i + 1)
  }

  /** `lastIndexOf`: the last position of `x`, or None. */
  function LastIndexOf<T(==)>(s: seq<T>, x: T): (r: Option<nat>)
    ensures r.None? <==> x !in s
    ensures r.Some? ==> r.value < |s| && s[r.value] == x && x !in s[r.value + 1..]
  {
    if s == [] then None
    else if s[|s| - 1] == x then Some(|s| - 1)
    else LastIndexOf(s[..|s| - 1], x)
  }

  /** A position holding `x` with no earlier `x` is what `indexOf` finds. */
  lemma IndexOfFirst<T>(s: seq<T>, x: T, i: nat)
    requires i < |s| && s[i] == x && x !in s[..i]
    ensures IndexOf(s, x) == Some(i)
  {
    var j := IndexOf(s, x).value;
    assert forall k | 0 <= k < i :: s[..i][k] == s[k];
    assert forall k | 0 <= k < j :: s[..j][k] == s[k];
  }

  /** In a sequence without repetitions the first position of an element is its only one. */
  lemma IndexOfDistinct<T>(s: seq<T>, i: nat)
    requires i < |s|
    requires forall a, b | 0 <= a < b < |s| :: s[a] != s[b]
    ensures IndexOf(s, s[i]) == Some(i)
  {
    assert s[i] !in s[..i] by {
      forall a | 0 <= a < i ensures s[..i][a] != s[i] { assert s[..i][a] == s[a]; }
    }
    IndexOfFirst(s, s[i], i);
  }

  predicate StartsWith(s: string, p: string) { |p| <= |s| && s[..|p|] == p }
  predicate EndsWith(s: string, p: string) { |p| <= |s| && s[|s| - |p|..] == p }

  /** `s.includes(sub)`: `sub` occurs somewhere in `s`. */
  predicate Contains(s: string, sub: string)
    decreases |s|
  {
    StartsWith(s, sub) || (s != [] && Contains(s[1..], sub))
  }

  /** `includes` finds exactly the occurrences at some position. */
  lemma {:induction false} ContainsAt(s: string, sub: string, i: nat)
    requires i + |sub| <= |s| && s[i..i + |sub|] == sub
    ensures Contains(s, sub)
    decreases i
  {
    if i > 0 {
      assert s[1..][i - 1..i - 1 + |sub|] == s[i..i + |sub|];
      ContainsAt(s[1..], sub, i - 1);
    } else {
      assert s[..|sub|] == s[0..|sub|];
    }
  }

  /** `str.split(c)` on a one-character separator. */
  function Split(s: string, c: char): (r: seq<string>)
    ensures |r| >= 1
    ensures forall k | 0 <= k < |r| :: c !in r[k]
    decreases |s|
  {
    match IndexOf(s, c)
    case None => [s]
    case Some(i) => [s[..i]] + Split(s[i + 1..], c)
  }

  /** `parts.join(sep)`. */
  function Join(parts: seq<string>, sep: string): string
  {
    if |parts| == 0 then ""
    else if |parts| == 1 then parts[0]
    else parts[0] + sep + Join(parts[1..], sep)
  }

  /** A string without the separator splits into itself alone. */
  lemma SplitWithout(s: string, c: char)
    requires c !in s
    ensures Split(s, c) == [s]
  {
  }

  /** Joining the pieces of a split with the same separator gives the string back. */
  lemma {:induction false} JoinSplit(s: string, c: char)
    ensures Join(Split(s, c), [c]) == s
    decreases |s|
  {
    match IndexOf(s, c)
    case None =>
    case Some(i) =>
      JoinSplit(s[i + 1..], c);
      assert Split(s, c) == [s[..i]] + Split(s[i + 1..], c);
      assert s == s[..i] + [c] + s[i + 1..];
  }

  /** Splitting a join of separator-free parts recovers the parts. */
  lemma {:induction false} SplitJoin(parts: seq<string>, c: char)
    requires |parts| >= 1
    requires forall k | 0 <= k < |parts| :: c !in parts[k]
    ensures Split(Join(parts, [c]), c) == parts
    decreases |parts|
  {
    if |parts| > 1 {
      var p0, tail := parts[0], parts[1..];
      var rest := Join(tail, [c]);
      var s := p0 + [c] + rest;
      assert Join(parts, [c]) == s;
      assert s[..|p0|] == p0 && s[|p0|] == c;
      IndexOfFirst(s, c, |p0|);
      assert s[|p0| + 1..] == rest;
      assert Split(s, c) == [p0] + Split(rest, c);
      assert forall k | 0 <= k < |tail| :: tail[k] == parts[k + 1];
      SplitJoin(tail, c);
      assert parts == [p0] + tail;
    } else {
      SplitWithout(parts[0], c);
    }
  }

  function Repeat(c: char, n: nat): (r: string)
    ensures |r| == n
    ensures forall i | 0 <= i < n :: r[i] == c
  {
    seq(n, _ => c)
  }

  /** `s.padStart(width, c)`: left-pads `s` with `c` up to `width` characters. */
  function PadStart(s: string, width: nat, c: char): (r: string)
    ensures |r| == if |s| >= width then |s| else width
    ensures EndsWith(r, s)
    ensures forall i | 0 <= i < |r| - |s| :: r[i] == c
  {
    if |s| >= width then s else Repeat(c, width - |s|) + s
  }

  function Pow10(k: nat): (r: nat)
    ensures r >= 1
  {
    if k == 0 then 1 else 10 * Pow10(k - 1)
  }

  function DigitChar(d: nat): (c: char)
    requires d < 10
    ensures IsDigit(c)
  {
    ('0' as int + d) as char
  }

  function DigitValue(c: char): (d: nat)
    requires IsDigit(c)
    ensures d < 10 && DigitChar(d) == c
  {
    c as int - '0' as int
  }

  /** `n.toString(10)` for a non-negative integer: no sign, no leading zero. */
  function NatToDecimal(n: nat): (s: string)
    ensures |s| >= 1 && AllDigits(s)
    ensures |s| > 1 ==> s[0] != '0'
    decreases n
  {
    if n < 10 then [DigitChar(n)] else NatToDecimal(n / 10) + [DigitChar(n % 10)]
  }

  /** The number a string of decimal digits denotes (`parseInt(s, 10)`). */
  function DecimalValue(s: string): nat
    requires AllDigits(s)
  {
    if s == [] then 0 else 10 * DecimalValue(s[..|s| - 1]) + DigitValue(s[|s| - 1])
  }

  /** `String(i)` for any integer. */
  function IntToString(i: int): (s: string)
    ensures i >= 0 ==> s == NatToDecimal(i)
    ensures i < 0 ==> s == "-" + NatToDecimal(-i)
  {
    if i < 0 then "-" + NatToDecimal(-i) else NatToDecimal(i)
  }

  /** Reading back a rendered number gives the number. */
  lemma {:induction false} DecimalRoundTrip(n: nat)
    ensures DecimalValue(NatToDecimal(n)) == n
    decreases n
  {
    if n >= 10 {
      DecimalRoundTrip(n / 10);
      var s := NatToDecimal(n);
      assert s[..|s| - 1] == NatToDecimal(n / 10);
    }
  }

  /** A number below 10^k renders in at most k digits. */
  lemma {:induction false} DecimalLength(n: nat, k: nat)
    requires k >= 1 && n < Pow10(k)
    ensures |NatToDecimal(n)| <= k
    decreases k
  {
    if n >= 10 {
      assert n / 10 < Pow10(k - 1);
      DecimalLength(n / 10, k - 1);
    }
  }

  /** The value of a digit string is below 10 to the power of its length. */
  lemma {:induction false} DecimalValueBound(s: string)
    requires AllDigits(s)
    ensures DecimalValue(s) < Pow10(|s|)
    decreases |s|
  {
    if s != [] {
      DecimalValueBound(s[..|s| - 1]);
    }
  }

  /** Appending digits: the value shifts left by the length of the suffix. */
  lemma {:induction false} DecimalValueAppend(a: string, b: string)
    requires AllDigits(a) && AllDigits(b)
    ensures DecimalValue(a + b) == DecimalValue(a) * Pow10(|b|) + DecimalValue(b)
    decreases |b|
  {
    if b == [] {
      assert a + b == a;
    } else {
      var b' := b[..|b| - 1];
      var d := DigitValue(b[|b| - 1]);
      assert (a + b)[..|a + b| - 1] == a + b';
      assert (a + b)[|a + b| - 1] == b[|b| - 1];
      DecimalValueAppend(a, b');
      AppendStep(DecimalValue(a + b), DecimalValue(a + b'), DecimalValue(a), Pow10(|b'|),
                 DecimalValue(b'), DecimalValue(b), d);
    }
  }

  lemma AppendStep(v: int, x: int, a: int, p: int, b: int, vb: int, d: int)
    requires v == 10 * x + d && x == a * p + b && vb == 10 * b + d
    ensures v == a * (10 * p) + vb
  {
    ShiftDigit(a, p, b, d);
  }

  lemma ShiftDigit(a: int, p: int, b: int, d: int)
    ensures 10 * (a * p + b) + d == a * (10 * p) + (10 * b + d)
  {
  }

  /** Leading zeros do not change the value of a digit string. */
  lemma LeadingZeros(z: nat, s: string)
    requires AllDigits(s)
    ensures AllDigits(Repeat('0', z) + s)
    ensures DecimalValue(Repeat('0', z) + s) == DecimalValue(s)
  {
    DecimalValueAppend(Repeat('0', z), s);
    ZerosValue(z);
  }

  lemma {:induction false} ZerosValue(z: nat)
    ensures DecimalValue(Repeat('0', z)) == 0
    decreases z
  {
    if z > 0 {
      assert Repeat('0', z)[..z - 1] == Repeat('0', z - 1);
      ZerosValue(z - 1);
    }
  }

  /** `n.toString(10).padStart(k, '0')` for `n < 10^k`: exactly `k` digits
      that read back as `n`. */
  lemma PaddedDecimal(n: nat, k: nat)
    requires k >= 1 && n < Pow10(k)
    ensures |PadStart(NatToDecimal(n), k, '0')| == k
    ensures AllDigits(PadStart(NatToDecimal(n), k, '0'))
    ensures DecimalValue(PadStart(NatToDecimal(n), k, '0')) == n
  {
    var s := NatToDecimal(n);
    DecimalLength(n, k);
    DecimalRoundTrip(n);
    LeadingZeros(k - |s|, s);
  }
}
