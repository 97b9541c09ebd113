/** The examination helpers: the storage path of an exam paper copy, and the
    examination period of a date (given as its year and month, since the
    source reads the clock). */
module Examination {
  import opened Wrappers
  import opened Text

  /** The last piece of a split, `split(c).pop()`. */
  function LastPiece(parts: seq<string>): string
    requires |parts| >= 1
  {
    parts[|parts| - 1]
  }

  /** The last piece of `s.split(c)` is the text after the last `c`, or all
      of `s` when it has none. */
  lemma {:induction false} LastPieceIsTail(s: string, c: char)
    ensures var ext := LastPiece(Split(s, c));
            && |ext| <= |s| && s[|s| - |ext|..] == ext && c !in ext
            && (c in s ==> |ext| < |s| && s[|s| - |ext| - 1] == c)
            && (c !in s ==> ext == s)
    decreases |s|
  {
    var ext := LastPiece(Split(s, c));
    match IndexOf(s, c)
    case None =>
    case Some(i) =>
      var t := s[i + 1..];
      LastPieceIsTail(t, c);
      SplitLast(s, c, i);
      assert ext == LastPiece(Split(t, c));
      assert s[|s| - |ext|..] == t[|t| - |ext|..];
      if c in t {
        assert s[|s| - |ext| - 1] == t[|t| - |ext| - 1];
      } else {
        assert s[|s| - |ext| - 1] == s[i];
      }
  }

  /** Splitting steps past the first separator. */
  lemma SplitLast(s: string, c: char, i: nat)
    requires IndexOf(s, c) == Some(i)
    ensures LastPiece(Split(s, c)) == LastPiece(Split(s[i + 1..], c))
  {
    assert Split(s, c) == [s[..i]] + Split(s[i + 1..], c);
  }

  /** A position holding `x` with no `x` after it is where `lastIndexOf`
      points. */
  lemma LastIndexOfUnique(s: string, x: char, p: nat)
    requires p < |s| && s[p] == x && x !in s[p + 1..]
    ensures LastIndexOf(s, x) == Some(p)
  {
  }

  /** The extension `split('.').pop()` of a name that has a dot: the text
      after its last dot. */
  lemma ExtensionAfterLastDot(filename: string)
    requires '.' in filename
    ensures LastPiece(Split(filename, '.')) == filename[LastIndexOf(filename, '.').value + 1..]
  {
    var ext := LastPiece(Split(filename, '.'));
    var p := |filename| - |ext| - 1;
    assert 0 <= p < |filename| && filename[p] == '.' && filename[p + 1..] == ext && '.' !in ext by {
      LastPieceIsTail(filename, '.');
    }
    LastIndexOfUnique(filename, '.', p);
  }

  /** `examCopyFileNameToS3Path(filename)`: a name without a dot (the empty
      name among them) is returned as it is; otherwise its first five
      characters, the lowercased extension and the name itself, joined by
      `/`. */
  function ExamCopyFileNameToS3Path(filename: string): (r: string)
    ensures EndsWith(r, filename)
    ensures '.' !in filename ==> r == filename
  {
    if filename == "" || '.' !in filename then filename
    else
      var prefix := if |filename| <= 5 then filename else filename[..5];
      var ext := LastPiece(Split(filename, '.'));
      var r := prefix + "/" + LowerString(ext) + "/" + filename;
      assert r[|r| - |filename|..] == filename;
      r
  }

  /** The path of a name with a dot, read back: the name's first five
      characters (all of a shorter name), a slash, the text after its last
      dot in lower case, a slash, and the name with its case kept. */
  lemma S3PathShape(filename: string)
    requires '.' in filename
    ensures var prefix := filename[..if |filename| <= 5 then |filename| else 5];
            var ext := filename[LastIndexOf(filename, '.').value + 1..];
            ExamCopyFileNameToS3Path(filename) == prefix + "/" + LowerString(ext) + "/" + filename
  {
    var ext := filename[LastIndexOf(filename, '.').value + 1..];
    var prefix := filename[..if |filename| <= 5 then |filename| else 5];
    var lower := LowerString(LastPiece(Split(filename, '.')));
    assert lower == LowerString(ext) by { ExtensionAfterLastDot(filename); }
    assert (if |filename| <= 5 then filename else filename[..5]) == prefix;
    calc {
      ExamCopyFileNameToS3Path(filename);
      (if |filename| <= 5 then filename else filename[..5]) + "/" + lower + "/" + filename;
      prefix + "/" + LowerString(ext) + "/" + filename;
    }
  }

  /** The extension segment holds no dot and no upper-case ASCII letter. */
  lemma S3PathExtension(filename: string)
    requires '.' in filename
    ensures var ext := LowerString(LastPiece(Split(filename, '.')));
            '.' !in ext && forall i | 0 <= i < |ext| :: !IsUpper(ext[i])
  {
    var raw := LastPiece(Split(filename, '.'));
    LastPieceIsTail(filename, '.');
    var ext := LowerString(raw);
    forall i | 0 <= i < |ext| ensures ext[i] != '.' && !IsUpper(ext[i]) {
      assert raw[i] != '.';
    }
  }

  /** `getCurrentExaminationPeriod()` for a date in `year` and `month`
      (1 to 12): the year, then `K` (spring) for months 1 to 7 and `S`
      (autumn) for months 8 to 12. */
  function GetCurrentExaminationPeriod(year: int, month: int): (r: string)
    requires 1 <= month <= 12
    ensures |r| >= 2
    ensures r[|r| - 1] == 'K' <==> month < 8
    ensures r[|r| - 1] == 'S' <==> month >= 8
  {
    IntToString(year) + (if month < 8 then "K" else "S")
  }

  /** A period reads back as the year it was made from, followed by exactly
      one letter. */
  lemma PeriodReadsBack(year: nat, month: int)
    requires 1 <= month <= 12
    ensures var r := GetCurrentExaminationPeriod(year, month);
            AllDigits(r[..|r| - 1]) && DecimalValue(r[..|r| - 1]) == year && !IsDigit(r[|r| - 1])
  {
    var r := GetCurrentExaminationPeriod(year, month);
    assert r[..|r| - 1] == NatToDecimal(year);
    DecimalRoundTrip(year);
  }

  /** The examples of the tests: January and August 2012. */
  lemma PeriodExamples()
    ensures GetCurrentExaminationPeriod(2012, 1) == "2012K"
    ensures GetCurrentExaminationPeriod(2012, 8) == "2012S"
  {
    assert NatToDecimal(2012) == "2012";
  }
}
