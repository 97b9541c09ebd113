/** The random personal identity code generator of the testing package:
    `doCreateRandomHetu`, with `Math.random()` values and the current year as
    parameters, and the `createRandomHetu` memo that never hands out the same
    code twice. */
module Hetu {
  import opened Wrappers
  import opened Text
  import Ssn

  /** `getRandomInt(lo, hi)` for integer bounds and a `Math.random()` value
      `u`: the floor of `u * (hi - lo)`, plus `lo`. */
  function RandomInt(lo: int, hi: int, u: real): (r: int)
    requires lo < hi && 0.0 <= u < 1.0
    ensures lo <= r < hi
  {
    var w := (hi - lo) as real;
    assert u * w < w by { ScaleBelow(u, w); }
    (u * w).Floor + lo
  }

  lemma ScaleBelow(u: real, w: real)
    requires 0.0 <= u < 1.0 && w > 0.0
    ensures 0.0 <= u * w < w
  {
  }

  /** `pad(n, width)`: the last `width` characters of `width` zeros followed
      by the decimal digits of `n`. A width of 0 keeps the whole string,
      since `slice(-0)` is `slice(0)`. */
  function Pad(n: nat, width: nat): (r: string)
    ensures width > 0 ==> |r| == width
    ensures AllDigits(r)
  {
    var s := Repeat('0', width) + NatToDecimal(n);
    assert AllDigits(s) by { LeadingZeros(width, NatToDecimal(n)); }
    if width == 0 then s else s[|s| - width..]
  }

  /** A number that fits is padded exactly as `padStart` would, and reads back. */
  lemma PadFits(n: nat, width: nat)
    requires width >= 1 && n < Pow10(width)
    ensures Pad(n, width) == PadStart(NatToDecimal(n), width, '0')
    ensures DecimalValue(Pad(n, width)) == n
  {
    var d := NatToDecimal(n);
    DecimalLength(n, width);
    var z := width - |d|;
    RepeatSplit('0', |d|, z);
    var s := Repeat('0', |d|) + (Repeat('0', z) + d);
    assert Repeat('0', width) + d == s;
    assert s[|d|..] == Repeat('0', z) + d;
    PaddedDecimal(n, width);
  }

  lemma RepeatSplit(c: char, a: nat, b: nat)
    ensures Repeat(c, a + b) == Repeat(c, a) + Repeat(c, b)
  {
  }

  /** The code for drawn values: date, separator, individual number, check
      character. The separator is `A` for a year before the current one in
      the century, and `-` otherwise. */
  function Generate(year: nat, day: nat, month: nat, uniq: nat, currentFullYear: nat): (h: string)
    ensures |h| == 11
  {
    var date := Pad(day, 2) + Pad(month, 2) + Pad(year, 2);
    var separator := if year < Ssn.TwoDigitYear(currentFullYear) then 'A' else '-';
    var individual := Pad(uniq, 3);
    date + [separator] + individual + [Ssn.CheckChar(Ssn.CheckIndex(date, individual))]
  }

  /** `doCreateRandomHetu()` with the four `Math.random()` values it draws, in
      the order it draws them. */
  function DoCreateRandomHetu(uYear: real, uDay: real, uMonth: real, uUniq: real, currentFullYear: nat): (h: string)
    requires 0.0 <= uYear < 1.0 && 0.0 <= uDay < 1.0 && 0.0 <= uMonth < 1.0 && 0.0 <= uUniq < 1.0
    ensures |h| == 11
  {
    var year := RandomInt(0, 100, uYear);
    var day := RandomInt(1, 32, uDay);
    var month := RandomInt(1, 13, uMonth);
    var uniq := RandomInt(2, 900, uUniq);
    Generate(year, day, month, uniq, currentFullYear)
  }

  /** The ranges of the four draws. */
  predicate InRange(year: nat, day: nat, month: nat, uniq: nat) {
    year < 100 && 1 <= day < 32 && 1 <= month < 13 && 2 <= uniq < 900
  }

  lemma DrawsInRange(uYear: real, uDay: real, uMonth: real, uUniq: real)
    requires 0.0 <= uYear < 1.0 && 0.0 <= uDay < 1.0 && 0.0 <= uMonth < 1.0 && 0.0 <= uUniq < 1.0
    ensures InRange(RandomInt(0, 100, uYear), RandomInt(1, 32, uDay), RandomInt(1, 13, uMonth), RandomInt(2, 900, uUniq))
  {
  }

  /** Field by field: the date digits read back as day, month and year, the
      individual number as `uniq`, and the separator follows the year. */
  lemma GeneratedFields(year: nat, day: nat, month: nat, uniq: nat, currentFullYear: nat)
    requires InRange(year, day, month, uniq)
    ensures var h := Generate(year, day, month, uniq, currentFullYear);
            && AllDigits(h[..6]) && AllDigits(h[7..10])
            && AllDigits(h[0..2]) && AllDigits(h[2..4]) && AllDigits(h[4..6])
            && DecimalValue(h[0..2]) == day && DecimalValue(h[2..4]) == month
            && DecimalValue(h[4..6]) == year && DecimalValue(h[7..10]) == uniq
            && (h[6] == 'A' <==> year < currentFullYear % 100)
            && (h[6] == 'A' || h[6] == '-')
            && h[10] == Ssn.CheckChar(Ssn.CheckIndex(h[..6], h[7..10]))
  {
    PadFits(day, 2);
    PadFits(month, 2);
    PadFits(year, 2);
    PadFits(uniq, 3);
    var dd, mm, yy, nnn := Pad(day, 2), Pad(month, 2), Pad(year, 2), Pad(uniq, 3);
    var separator := if year < Ssn.TwoDigitYear(currentFullYear) then 'A' else '-';
    var check := Ssn.CheckChar(Ssn.CheckIndex(dd + mm + yy, nnn));
    Slices(dd, mm, yy, separator, nnn, check);
  }

  /** Where the pieces of a code sit in it. */
  lemma Slices(dd: string, mm: string, yy: string, separator: char, nnn: string, check: char)
    requires |dd| == |mm| == |yy| == 2 && |nnn| == 3
    ensures var h := dd + mm + yy + [separator] + nnn + [check];
            && h[..6] == dd + mm + yy && h[0..2] == dd && h[2..4] == mm && h[4..6] == yy
            && h[6] == separator && h[7..10] == nnn && h[10] == check
  {
  }

  /** Every generated code passes the validator, with or without the age
      rules, in the year it was generated. */
  lemma GeneratedIsValid(year: nat, day: nat, month: nat, uniq: nat, currentFullYear: nat, ageSanityCheck: bool)
    requires InRange(year, day, month, uniq)
    ensures Ssn.IsSsnValid(Generate(year, day, month, uniq, currentFullYear), ageSanityCheck, currentFullYear)
  {
    var h := Generate(year, day, month, uniq, currentFullYear);
    GeneratedFields(year, day, month, uniq, currentFullYear);
    var k := Ssn.CheckIndex(h[..6], h[7..10]);
    Ssn.CheckCharShape(k);
    GeneratedShape(h, k);
    Ssn.AcceptedByChecksum(h, ageSanityCheck, currentFullYear);
  }

  /** What the test of the generator checks: whatever the random draws,
      `isSsnValid` accepts the code. */
  lemma RandomHetuIsValid(uYear: real, uDay: real, uMonth: real, uUniq: real, currentFullYear: nat, ageSanityCheck: bool)
    requires 0.0 <= uYear < 1.0 && 0.0 <= uDay < 1.0 && 0.0 <= uMonth < 1.0 && 0.0 <= uUniq < 1.0
    ensures Ssn.IsSsnValid(DoCreateRandomHetu(uYear, uDay, uMonth, uUniq, currentFullYear), ageSanityCheck, currentFullYear)
  {
    DrawsInRange(uYear, uDay, uMonth, uUniq);
    GeneratedIsValid(RandomInt(0, 100, uYear), RandomInt(1, 32, uDay), RandomInt(1, 13, uMonth),
                     RandomInt(2, 900, uUniq), currentFullYear, ageSanityCheck);
  }

  lemma GeneratedShape(h: string, k: nat)
    requires |h| == 11 && AllDigits(h[..6]) && AllDigits(h[7..10]) && (h[6] == 'A' || h[6] == '-')
    requires k < 31 && h[10] == Ssn.CheckChar(k)
    ensures Ssn.HasShape(h)
  {
    Ssn.CheckCharShape(k);
  }

  /** `createRandomHetu()` over the codes handed out so far and the
      candidates the generator would produce, in order: the first candidate
      not yet handed out, and the memo with it added. The source retries
      forever; here running out of candidates is `None`. */
  function CreateRandomHetu(seen: set<string>, candidates: seq<string>): (r: Option<(string, set<string>)>)
    ensures r.None? <==> forall c | c in candidates :: c in seen
    ensures r.Some? ==> r.value.0 in candidates && r.value.0 !in seen && r.value.1 == seen + {r.value.0}
    ensures r.Some? ==> IsFirstFresh(seen, candidates, r.value.0)
  {
    if candidates == [] then None
    else if candidates[0] !in seen then Some((candidates[0], seen + {candidates[0]}))
    else
      var r := CreateRandomHetu(seen, candidates[1..]);
      assert r.Some? ==> IsFirstFresh(seen, candidates, r.value.0) by {
        if r.Some? { FirstFreshShift(seen, candidates, r.value.0); }
      }
      r
  }

  /** `c` is the first of `candidates` that is not in `seen`: the generator
      is retried exactly until it produces an unseen code. */
  predicate IsFirstFresh(seen: set<string>, candidates: seq<string>, c: string) {
    exists i | 0 <= i < |candidates| :: candidates[i] == c && forall j | 0 <= j < i :: candidates[j] in seen
  }

  lemma FirstFreshShift(seen: set<string>, candidates: seq<string>, c: string)
    requires candidates != [] && candidates[0] in seen
    requires IsFirstFresh(seen, candidates[1..], c)
    ensures IsFirstFresh(seen, candidates, c)
  {
    var i :| 0 <= i < |candidates[1..]| && candidates[1..][i] == c
      && forall j | 0 <= j < i :: candidates[1..][j] in seen;
    assert forall j | 1 <= j < i + 1 :: candidates[j] == candidates[1..][j - 1];
    assert candidates[i + 1] == c;
  }

  /** Successive calls, each with its own candidate stream, until one runs out. */
  function CreateMany(seen: set<string>, streams: seq<seq<string>>): (out: seq<string>)
    decreases |streams|
  {
    if streams == [] then []
    else
      var r := CreateRandomHetu(seen, streams[0]);
      if r.None? then [] else [r.value.0] + CreateMany(r.value.1, streams[1..])
  }

  /** No element repeats. */
  predicate Distinct(out: seq<string>) {
    forall i, j | 0 <= i < j < |out| :: out[i] != out[j]
  }

  /** No code is handed out twice, and none that was already in the memo. */
  lemma {:induction false} CreateManyDistinct(seen: set<string>, streams: seq<seq<string>>)
    ensures Distinct(CreateMany(seen, streams))
    ensures forall c | c in CreateMany(seen, streams) :: c !in seen
    decreases |streams|
  {
    if streams != [] {
      var r := CreateRandomHetu(seen, streams[0]);
      if r.Some? {
        var h, seen' := r.value.0, r.value.1;
        CreateManyDistinct(seen', streams[1..]);
        var rest := CreateMany(seen', streams[1..]);
        assert CreateMany(seen, streams) == [h] + rest;
        assert forall c | c in rest :: c !in seen && c != h;
      }
    }
  }
}
