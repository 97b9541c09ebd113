/** The database migration helpers: the path of a new migration file, and
    the runner that decides which files are pending, in which order they
    run, and what happens around the schema-table lock. The clock, the file
    system and the database answers are parameters. */
module Migration {
  import opened Wrappers
  import opened Text

  /** A calendar date and time of day, to the second. */
  datatype DateTime = DateTime(year: nat, month: nat, day: nat, hour: nat, minute: nat, second: nat)

  predicate IsLeapYear(y: nat) { y % 4 == 0 && (y % 100 != 0 || y % 400 == 0) }

  function DaysInMonth(y: nat, m: nat): (n: nat)
    requires 1 <= m <= 12
    ensures 28 <= n <= 31
  {
    if m == 2 then (if IsLeapYear(y) then 29 else 28)
    else if m == 4 || m == 6 || m == 9 || m == 11 then 30
    else 31
  }

  /** A date that exists in the calendar, with a time of day that exists. */
  predicate IsValidDate(d: DateTime) {
    && 1 <= d.month <= 12 && 1 <= d.day <= DaysInMonth(d.year, d.month)
    && d.hour < 24 && d.minute < 60 && d.second < 60
  }

  /** `n` on `k` digits with leading zeros. */
  function Digits(n: nat, k: nat): string {
    PadStart(NatToDecimal(n), k, '0')
  }

  /** `new Date().toISOString()` rewritten by the regular expression to
      `YYYYMMDD-HHMMSS`: the UTC fields, zero-padded, milliseconds dropped.
      Each field reads back from its place. */
  function TimestampPart(now: DateTime): (r: string)
    requires IsValidDate(now) && now.year < 10000
    ensures |r| == 15 && AllDigits(r[..8]) && r[8] == '-' && AllDigits(r[9..15])
    ensures AllDigits(r[0..4]) && DecimalValue(r[0..4]) == now.year
    ensures AllDigits(r[4..6]) && DecimalValue(r[4..6]) == now.month
    ensures AllDigits(r[6..8]) && DecimalValue(r[6..8]) == now.day
    ensures AllDigits(r[9..11]) && DecimalValue(r[9..11]) == now.hour
    ensures AllDigits(r[11..13]) && DecimalValue(r[11..13]) == now.minute
    ensures AllDigits(r[13..15]) && DecimalValue(r[13..15]) == now.second
  {
    var y, mo, d := Digits(now.year, 4), Digits(now.month, 2), Digits(now.day, 2);
    var h, mi, sec := Digits(now.hour, 2), Digits(now.minute, 2), Digits(now.second, 2);
    DigitsFit(now);
    StampPieces(y, mo, d, h, mi, sec);
    y + mo + d + "-" + h + mi + sec
  }

  /** Where six digit groups sit in `yyyyMMdd-HHmmss`. */
  lemma StampPieces(y: string, mo: string, d: string, h: string, mi: string, sec: string)
    requires |y| == 4 && |mo| == 2 && |d| == 2 && |h| == 2 && |mi| == 2 && |sec| == 2
    requires AllDigits(y) && AllDigits(mo) && AllDigits(d) && AllDigits(h) && AllDigits(mi) && AllDigits(sec)
    ensures var t := y + mo + d + "-" + h + mi + sec;
            && |t| == 15 && t[0..4] == y && t[4..6] == mo && t[6..8] == d && t[8] == '-'
            && t[9..11] == h && t[11..13] == mi && t[13..15] == sec
            && AllDigits(t[..8]) && AllDigits(t[9..15])
  {
    var t := y + mo + d + "-" + h + mi + sec;
    assert t[..8] == y + mo + d;
    assert t[9..15] == h + mi + sec;
    forall i | 0 <= i < 8 ensures IsDigit(t[..8][i]) {
      if i < 4 { assert t[..8][i] == y[i]; }
      else if i < 6 { assert t[..8][i] == mo[i - 4]; }
      else { assert t[..8][i] == d[i - 6]; }
    }
    forall i | 0 <= i < 6 ensures IsDigit(t[9..15][i]) {
      if i < 2 { assert t[9..15][i] == h[i]; }
      else if i < 4 { assert t[9..15][i] == mi[i - 2]; }
      else { assert t[9..15][i] == sec[i - 4]; }
    }
  }

  /** Every field of a valid date fits its width and reads back. */
  lemma DigitsFit(d: DateTime)
    requires IsValidDate(d) && d.year < 10000
    ensures |Digits(d.year, 4)| == 4 && AllDigits(Digits(d.year, 4)) && DecimalValue(Digits(d.year, 4)) == d.year
    ensures |Digits(d.month, 2)| == 2 && AllDigits(Digits(d.month, 2)) && DecimalValue(Digits(d.month, 2)) == d.month
    ensures |Digits(d.day, 2)| == 2 && AllDigits(Digits(d.day, 2)) && DecimalValue(Digits(d.day, 2)) == d.day
    ensures |Digits(d.hour, 2)| == 2 && AllDigits(Digits(d.hour, 2)) && DecimalValue(Digits(d.hour, 2)) == d.hour
    ensures |Digits(d.minute, 2)| == 2 && AllDigits(Digits(d.minute, 2)) && DecimalValue(Digits(d.minute, 2)) == d.minute
    ensures |Digits(d.second, 2)| == 2 && AllDigits(Digits(d.second, 2)) && DecimalValue(Digits(d.second, 2)) == d.second
  {
    assert Pow10(2) == 100 && Pow10(4) == 10000;
    PaddedDecimal(d.year, 4);
    PaddedDecimal(d.month, 2);
    PaddedDecimal(d.day, 2);
    PaddedDecimal(d.hour, 2);
    PaddedDecimal(d.minute, 2);
    PaddedDecimal(d.second, 2);
  }

  /** `name.replace(/\s/g, '')`. */
  function RemoveSpaces(s: string): (r: string)
    ensures forall i | 0 <= i < |r| :: !IsSpace(r[i])
    ensures |r| <= |s|
    ensures (forall i | 0 <= i < |s| :: !IsSpace(s[i])) ==> r == s
  {
    if s == [] then []
    else if IsSpace(s[0]) then RemoveSpaces(s[1..])
    else
      var rest := RemoveSpaces(s[1..]);
      assert ([s[0]] + rest)[1..] == rest;
      assert s == [s[0]] + s[1..];
      [s[0]] + rest
  }

  /** No two slashes side by side. */
  predicate NoDoubleSlash(s: string) {
    forall i | 0 <= i < |s| - 1 :: !(s[i] == '/' && s[i + 1] == '/')
  }

  /** The part of `path.normalize` this module relies on: every run of
      slashes becomes one. `afterSlash` says the character before `s` was a
      slash. */
  function CollapseSlashes(s: string, afterSlash: bool): (r: string)
    ensures |r| <= |s|
    ensures NoDoubleSlash(r)
    ensures afterSlash && r != [] ==> r[0] != '/'
    decreases |s|
  {
    if s == [] then []
    else if s[0] == '/' then
      if afterSlash then CollapseSlashes(s[1..], true)
      else
        var rest := CollapseSlashes(s[1..], true);
        assert ("/" + rest)[1..] == rest;
        "/" + rest
    else
      var rest := CollapseSlashes(s[1..], false);
      assert ([s[0]] + rest)[1..] == rest;
      [s[0]] + rest
  }

  /** Text without slashes after the last one passes through unchanged. */
  lemma {:induction false} CollapsePlainTail(a: string, b: string, afterSlash: bool)
    requires '/' !in b
    ensures CollapseSlashes(a + b, afterSlash) == CollapseSlashes(a, afterSlash) + b
    decreases |a|
  {
    if a == [] {
      assert a + b == b;
      PlainUnchanged(b, afterSlash);
    } else {
      assert (a + b)[0] == a[0] && (a + b)[1..] == a[1..] + b;
      CollapsePlainTail(a[1..], b, a[0] == '/');
    }
  }

  lemma {:induction false} PlainUnchanged(b: string, afterSlash: bool)
    requires '/' !in b
    ensures CollapseSlashes(b, afterSlash) == b
    decreases |b|
  {
    if b != [] {
      PlainUnchanged(b[1..], false);
      assert b == [b[0]] + b[1..];
    }
  }

  /** The name of the migration file: timestamp, `-`, the name, `.sql`. */
  function MigrationFileName(now: DateTime, name: string): string
    requires IsValidDate(now) && now.year < 10000
  {
    TimestampPart(now) + "-" + name + ".sql"
  }

  /** `generateMigrationPath(folder, name)` at time `now` (UTC fields of a
      date in years 0 to 9999): whitespace is removed from the name, an
      empty name or one with `/` is refused, and the path is the folder,
      `/` and the file name, with runs of slashes collapsed. */
  function GenerateMigrationPath(folder: string, name: string, now: DateTime): (r: Result<string, string>)
    requires IsValidDate(now) && now.year < 10000
    ensures RemoveSpaces(name) == "" ==> r == Failure("No migration name")
    ensures RemoveSpaces(name) != "" && '/' in RemoveSpaces(name) ==> r == Failure("Migration name cannot contain '/'")
    ensures r.Success? <==> RemoveSpaces(name) != "" && '/' !in RemoveSpaces(name)
    ensures r.Success? ==> NoDoubleSlash(r.value) && EndsWith(r.value, MigrationFileName(now, RemoveSpaces(name)))
  {
    var trimmed := RemoveSpaces(name);
    if trimmed == "" then Failure("No migration name")
    else if '/' in trimmed then Failure("Migration name cannot contain '/'")
    else
      var file := MigrationFileName(now, trimmed);
      FileNameHasNoSlash(now, trimmed);
      NormalizedEndsWith(folder, file);
      Success(CollapseSlashes(folder + "/" + file, false))
  }

  /** A file name made of a timestamp and a name without `/` has no `/`. */
  lemma FileNameHasNoSlash(now: DateTime, name: string)
    requires IsValidDate(now) && now.year < 10000
    requires '/' !in name
    ensures '/' !in MigrationFileName(now, name)
  {
    var t := TimestampPart(now);
    TimestampHasNoSlash(now);
    NotInAppend('/', t, "-");
    NotInAppend('/', t + "-", name);
    NotInAppend('/', t + "-" + name, ".sql");
  }

  lemma NotInAppend(c: char, a: string, b: string)
    requires c !in a && c !in b
    ensures c !in a + b
  {
  }

  /** Collapsing the slashes of `folder/file` keeps a slash-free `file` at
      the end. */
  lemma NormalizedEndsWith(folder: string, file: string)
    requires '/' !in file
    ensures EndsWith(CollapseSlashes(folder + "/" + file, false), file)
  {
    CollapsePlainTail(folder + "/", file, false);
    var r := CollapseSlashes(folder + "/" + file, false);
    assert r[|r| - |file|..] == file;
  }

  lemma TimestampHasNoSlash(now: DateTime)
    requires IsValidDate(now) && now.year < 10000
    ensures '/' !in TimestampPart(now)
  {
    var t := TimestampPart(now);
    forall i | 0 <= i < 15 ensures t[i] != '/' {
      if i < 8 { assert t[i] == t[..8][i]; }
      else if i > 8 { assert t[i] == t[9..15][i - 9]; }
    }
  }

  /** `/^\d{8}-\d{6}(?=-\S+\.sql$)/`: eight digits, `-`, six digits, then
      `-`, at least one non-space character and a lower-case `.sql` at the
      very end. */
  predicate MatchesMigrationName(str: string) {
    && |str| >= 21
    && AllDigits(str[..8]) && str[8] == '-' && AllDigits(str[9..15])
    && str[15] == '-' && str[|str| - 4..] == ".sql"
    && forall i | 16 <= i < |str| - 4 :: !IsSpace(str[i])
  }

  /** The date `yyyyMMdd-HHmmss` of a name that matches. */
  function TimestampOf(str: string): DateTime
    requires MatchesMigrationName(str)
  {
    DigitsWithin(str, 0, 8, 0, 4);
    DigitsWithin(str, 0, 8, 4, 6);
    DigitsWithin(str, 0, 8, 6, 8);
    DigitsWithin(str, 9, 15, 9, 11);
    DigitsWithin(str, 9, 15, 11, 13);
    DigitsWithin(str, 9, 15, 13, 15);
    DateTime(DecimalValue(str[0..4]), DecimalValue(str[4..6]), DecimalValue(str[6..8]),
             DecimalValue(str[9..11]), DecimalValue(str[11..13]), DecimalValue(str[13..15]))
  }

  /** A slice of a run of digits is digits. */
  lemma DigitsWithin(str: string, i: nat, j: nat, a: nat, b: nat)
    requires i <= a <= b <= j <= |str| && AllDigits(str[i..j])
    ensures AllDigits(str[a..b])
  {
    assert forall k | 0 <= k < b - a :: str[a..b][k] == str[i..j][k + a - i];
  }

  /** The error `parseDateFromMigrationFilePath` throws. */
  function InvalidDateMessage(str: string): string {
    "Date " + str + " in migration file name is not valid, the format should be yyyyMMdd-HHmmss"
  }

  /** What date-fns' `parse` with `yyyyMMdd-HHmmss` followed by `isValid`
      accepts: a date that exists in the calendar, in a year after 0, which
      the `yyyy` token refuses. */
  predicate IsParsableDate(d: DateTime) {
    IsValidDate(d) && d.year >= 1
  }

  /** `parseDateFromMigrationFilePath(str)`: the date of a name that matches
      and whose date date-fns accepts; an error otherwise. */
  function ParseDateFromMigrationFilePath(str: string): (r: Result<DateTime, string>)
    ensures r.Success? <==> MatchesMigrationName(str) && IsParsableDate(TimestampOf(str))
    ensures r.Success? ==> IsValidDate(r.value) && r.value.year >= 1
    ensures r.Failure? ==> r.error == InvalidDateMessage(str)
  {
    if !MatchesMigrationName(str) then Failure(InvalidDateMessage(str))
    else
      var d := TimestampOf(str);
      if !IsParsableDate(d) then Failure(InvalidDateMessage(str)) else Success(d)
  }

  /** A generated migration file name is accepted by the runner and parses
      back to the calendar fields it was made from, in any year from 1 to
      9999. */
  lemma GeneratedNameParses(now: DateTime, name: string)
    requires IsValidDate(now) && 1 <= now.year < 10000
    requires name != "" && forall i | 0 <= i < |name| :: !IsSpace(name[i])
    ensures ParseDateFromMigrationFilePath(MigrationFileName(now, name)) == Success(now)
  {
    GeneratedTimestamp(now, name);
  }

  /** A generated file name matches the pattern and carries `now`'s fields. */
  lemma GeneratedTimestamp(now: DateTime, name: string)
    requires IsValidDate(now) && now.year < 10000
    requires name != "" && forall i | 0 <= i < |name| :: !IsSpace(name[i])
    ensures MatchesMigrationName(MigrationFileName(now, name))
    ensures TimestampOf(MigrationFileName(now, name)) == now
  {
    var t := TimestampPart(now);
    var s := MigrationFileName(now, name);
    NameSlices(t, name);
    assert MatchesMigrationName(s);
    var d := TimestampOf(s);
    assert d.year == now.year && d.month == now.month && d.day == now.day;
    assert d.hour == now.hour && d.minute == now.minute && d.second == now.second;
  }

  /** Where the timestamp and the name sit in a file name. */
  lemma NameSlices(t: string, name: string)
    requires |t| == 15
    ensures var s := t + "-" + name + ".sql";
            && |s| == 20 + |name|
            && s[..8] == t[..8] && s[8] == t[8] && s[9..15] == t[9..15]
            && s[0..4] == t[0..4] && s[4..6] == t[4..6] && s[6..8] == t[6..8]
            && s[9..11] == t[9..11] && s[11..13] == t[11..13] && s[13..15] == t[13..15]
            && s[15] == '-' && s[|s| - 4..] == ".sql"
            && forall i | 16 <= i < |s| - 4 :: s[i] == name[i - 16]
  {
  }

  /** The path of a new migration ends with a file name that the runner
      accepts and dates with the calendar fields it was generated from. */
  lemma GeneratedPathParses(folder: string, name: string, now: DateTime)
    requires IsValidDate(now) && 1 <= now.year < 10000
    requires GenerateMigrationPath(folder, name, now).Success?
    ensures var path := GenerateMigrationPath(folder, name, now).value;
            var file := MigrationFileName(now, RemoveSpaces(name));
            EndsWith(path, file) && ParseDateFromMigrationFilePath(file) == Success(now)
  {
    GeneratedNameParses(now, RemoveSpaces(name));
  }

  /** A name generated in the year 0 is refused by the runner, since
      date-fns' `yyyy` does not accept the year 0000. */
  lemma YearZeroNameRefused(now: DateTime, name: string)
    requires IsValidDate(now) && now.year == 0
    requires name != "" && forall i | 0 <= i < |name| :: !IsSpace(name[i])
    ensures ParseDateFromMigrationFilePath(MigrationFileName(now, name)).Failure?
  {
    GeneratedTimestamp(now, name);
  }

  /** A name ending in upper-case `.SQL` is never parsed. */
  lemma UpperCaseSqlFails(str: string)
    requires |str| >= 4 && str[|str| - 4..] == ".SQL"
    ensures ParseDateFromMigrationFilePath(str).Failure?
  {
  }

  /** `name.match(/\.sql$/i) !== null`. */
  predicate IsSqlName(name: string) {
    |name| >= 4 && LowerString(name[|name| - 4..]) == ".sql"
  }

  /** `.SQL` passes the file filter, though the parser then refuses it. */
  lemma UpperCaseSqlIsSqlName(str: string)
    requires |str| >= 4 && str[|str| - 4..] == ".SQL"
    ensures IsSqlName(str)
  {
    var l := LowerString(str[|str| - 4..]);
    assert l[0] == '.' && l[1] == 's' && l[2] == 'q' && l[3] == 'l';
    assert l == ".sql";
  }

  /** The directory entries that are `.sql` files not yet applied, in
      directory order. */
  function PendingNames(applied: seq<string>, entries: seq<string>): (r: seq<string>)
    ensures forall x :: x in r <==> x in entries && IsSqlName(x) && x !in applied
    ensures |r| <= |entries|
  {
    if entries == [] then []
    else
      var rest := PendingNames(applied, entries[1..]);
      assert forall x :: x in entries <==> x == entries[0] || x in entries[1..];
      if IsSqlName(entries[0]) && entries[0] !in applied then [entries[0]] + rest else rest
  }

  /** `names.map(parseDateFromMigrationFilePath)`, each outcome kept. */
  function ParseAll(names: seq<string>): (r: seq<Result<DateTime, string>>)
    ensures |r| == |names|
    ensures forall i | 0 <= i < |names| :: r[i] == ParseDateFromMigrationFilePath(names[i])
  {
    seq(|names|, i requires 0 <= i < |names| => ParseDateFromMigrationFilePath(names[i]))
  }

  /** The error of the first outcome that failed, if any: `map` runs in
      order and the first throw ends it. */
  function FirstFailure<T>(rs: seq<Result<T, string>>): (r: Option<string>)
    ensures r.None? <==> forall i | 0 <= i < |rs| :: rs[i].Success?
    ensures r.Some? ==> exists i | 0 <= i < |rs| ::
      rs[i].Failure? && r.value == rs[i].error && forall j | 0 <= j < i :: rs[j].Success?
  {
    if rs == [] then None
    else if rs[0].Failure? then Some(rs[0].error)
    else
      var r := FirstFailure(rs[1..]);
      assert forall i | 1 <= i < |rs| :: rs[i] == rs[1..][i - 1];
      FirstFailureShift(rs, r);
      r
  }

  lemma FirstFailureShift<T>(rs: seq<Result<T, string>>, r: Option<string>)
    requires rs != [] && rs[0].Success?
    requires r.Some? ==> exists i | 0 <= i < |rs[1..]| ::
      rs[1..][i].Failure? && r.value == rs[1..][i].error && forall j | 0 <= j < i :: rs[1..][j].Success?
    ensures r.Some? ==> exists i | 0 <= i < |rs| ::
      rs[i].Failure? && r.value == rs[i].error && forall j | 0 <= j < i :: rs[j].Success?
  {
    if r.Some? {
      var i :| 0 <= i < |rs[1..]| && rs[1..][i].Failure? && r.value == rs[1..][i].error
        && forall j | 0 <= j < i :: rs[1..][j].Success?;
      assert forall j | 1 <= j < i + 1 :: rs[j] == rs[1..][j - 1];
      assert rs[i + 1] == rs[1..][i];
    }
  }

  /** `date.valueOf()` order: a valid date as the number `yyyyMMddHHmmss`,
      which orders dates as time does. */
  function Stamp(d: DateTime): nat {
    ((((d.year * 100 + d.month) * 100 + d.day) * 100 + d.hour) * 100 + d.minute) * 100 + d.second
  }

  /** The sort key of a pending file: the stamp of its date. Every name
      sorted has parsed. */
  function Key(name: string): nat {
    var d := ParseDateFromMigrationFilePath(name);
    if d.Success? then Stamp(d.value) else 0
  }

  predicate SortedBy<T>(s: seq<T>, key: T -> nat) {
    forall i, j | 0 <= i < j < |s| :: key(s[i]) <= key(s[j])
  }

  /** Insertion after every element whose key is not greater, which keeps
      elements of equal key in their order, as the stable `sort` does. */
  function Insert<T(==)>(x: T, s: seq<T>, key: T -> nat): (r: seq<T>)
    requires SortedBy(s, key)
    ensures SortedBy(r, key)
    ensures multiset(r) == multiset(s) + multiset{x}
  {
    if s == [] then [x]
    else if key(x) < key(s[0]) then
      assert forall i | 0 <= i < |s| :: key(x) < key(s[i]);
      [x] + s
    else
      var rest := Insert(x, s[1..], key);
      assert s == [s[0]] + s[1..];
      RestAboveHead(x, s, rest, key);
      InsertHead(s[0], rest, key);
      [s[0]] + rest
  }

  /** What is inserted after the head of a sorted sequence has keys no
      smaller than the head's. */
  lemma RestAboveHead<T>(x: T, s: seq<T>, rest: seq<T>, key: T -> nat)
    requires SortedBy(s, key) && s != [] && key(s[0]) <= key(x)
    requires multiset(rest) == multiset(s[1..]) + multiset{x}
    ensures forall i | 0 <= i < |rest| :: key(s[0]) <= key(rest[i])
  {
    forall i | 0 <= i < |rest| ensures key(s[0]) <= key(rest[i]) {
      assert rest[i] in multiset(rest);
      if rest[i] != x {
        assert rest[i] in multiset(s[1..]);
        var j :| 0 <= j < |s[1..]| && s[1..][j] == rest[i];
        assert s[j + 1] == rest[i];
      }
    }
  }

  lemma InsertHead<T>(h: T, rest: seq<T>, key: T -> nat)
    requires SortedBy(rest, key)
    requires forall i | 0 <= i < |rest| :: key(h) <= key(rest[i])
    ensures SortedBy([h] + rest, key)
  {
    var s := [h] + rest;
    forall i, j | 0 <= i < j < |s| ensures key(s[i]) <= key(s[j]) {
      assert s[j] == rest[j - 1];
      if i > 0 { assert s[i] == rest[i - 1]; }
    }
  }

  /** `sort((a, b) => a.date.valueOf() - b.date.valueOf())`. */
  function SortBy<T(==)>(s: seq<T>, key: T -> nat): (r: seq<T>)
    ensures SortedBy(r, key)
    ensures multiset(r) == multiset(s)
  {
    if s == [] then []
    else
      assert s == s[..|s| - 1] + [s[|s| - 1]];
      Insert(s[|s| - 1], SortBy(s[..|s| - 1], key), key)
  }

  /** The elements of `s` whose key is `k`, in their order in `s`. */
  function KeyRun<T>(s: seq<T>, key: T -> nat, k: nat): (r: seq<T>)
    ensures forall i | 0 <= i < |r| :: key(r[i]) == k
  {
    if s == [] then [] else (if key(s[0]) == k then [s[0]] else []) + KeyRun(s[1..], key, k)
  }

  lemma {:induction false} KeyRunAppend<T>(a: seq<T>, b: seq<T>, key: T -> nat, k: nat)
    ensures KeyRun(a + b, key, k) == KeyRun(a, key, k) + KeyRun(b, key, k)
    decreases |a|
  {
    if a == [] {
      assert a + b == b;
    } else {
      assert (a + b)[0] == a[0] && (a + b)[1..] == a[1..] + b;
      KeyRunAppend(a[1..], b, key, k);
      var h := if key(a[0]) == k then [a[0]] else [];
      assert h + (KeyRun(a[1..], key, k) + KeyRun(b, key, k))
          == (h + KeyRun(a[1..], key, k)) + KeyRun(b, key, k);
    }
  }

  lemma {:induction false} KeyRunAbove<T>(s: seq<T>, key: T -> nat, k: nat)
    requires forall i | 0 <= i < |s| :: k < key(s[i])
    ensures KeyRun(s, key, k) == []
    decreases |s|
  {
    if s != [] {
      KeyRunAbove(s[1..], key, k);
    }
  }

  /** `KeyRun` through a leading element. */
  lemma KeyRunCons<T>(h: T, t: seq<T>, key: T -> nat, k: nat)
    ensures KeyRun([h] + t, key, k) == (if key(h) == k then [h] else []) + KeyRun(t, key, k)
  {
    assert ([h] + t)[0] == h && ([h] + t)[1..] == t;
  }

  /** An element with a smaller key than the head goes in front. */
  lemma InsertFront<T>(x: T, s: seq<T>, key: T -> nat)
    requires SortedBy(s, key) && s != [] && key(x) < key(s[0])
    ensures Insert(x, s, key) == [x] + s
    ensures forall i | 0 <= i < |s| :: key(x) < key(s[i])
  {
  }

  /** Otherwise it goes somewhere after the head. */
  lemma InsertLater<T>(x: T, s: seq<T>, key: T -> nat)
    requires SortedBy(s, key) && s != [] && key(s[0]) <= key(x)
    ensures SortedBy(s[1..], key)
    ensures Insert(x, s, key) == [s[0]] + Insert(x, s[1..], key)
  {
  }

  /** Insertion puts `x` after the elements of its key already there. */
  lemma {:induction false} InsertStable<T>(x: T, s: seq<T>, key: T -> nat, k: nat)
    requires SortedBy(s, key)
    ensures KeyRun(Insert(x, s, key), key, k) == KeyRun(s, key, k) + (if key(x) == k then [x] else [])
    decreases |s|
  {
    var hx := if key(x) == k then [x] else [];
    if s == [] {
      assert Insert(x, s, key) == [x] + [];
      KeyRunCons(x, [], key, k);
    } else if key(x) < key(s[0]) {
      InsertFront(x, s, key);
      KeyRunCons(x, s, key, k);
      if key(x) == k {
        KeyRunAbove(s, key, k);
      }
    } else {
      InsertLater(x, s, key);
      var t := s[1..];
      var rest := Insert(x, t, key);
      InsertStable(x, t, key, k);
      KeyRunCons(s[0], rest, key, k);
      assert s == [s[0]] + t;
      KeyRunCons(s[0], t, key, k);
      SeqAssoc(if key(s[0]) == k then [s[0]] else [], KeyRun(t, key, k), hx);
    }
  }

  lemma SeqAssoc<T>(a: seq<T>, b: seq<T>, c: seq<T>)
    ensures a + (b + c) == (a + b) + c
  {
  }

  lemma SortBySnoc<T>(s: seq<T>, key: T -> nat)
    requires s != []
    ensures SortBy(s, key) == Insert(s[|s| - 1], SortBy(s[..|s| - 1], key), key)
  {
  }

  lemma KeyRunSnoc<T>(init: seq<T>, last: T, key: T -> nat, k: nat)
    ensures KeyRun(init + [last], key, k) == KeyRun(init, key, k) + (if key(last) == k then [last] else [])
  {
    KeyRunAppend(init, [last], key, k);
    assert ([last])[1..] == [];
  }

  /** The sort is stable: for every key, the elements with that key keep
      their order, as `Array.prototype.sort` promises. Names with the same
      date therefore run in directory order. */
  lemma {:induction false} SortByStable<T>(s: seq<T>, key: T -> nat, k: nat)
    ensures KeyRun(SortBy(s, key), key, k) == KeyRun(s, key, k)
    decreases |s|
  {
    if s != [] {
      var init, last := s[..|s| - 1], s[|s| - 1];
      assert s == init + [last];
      var sorted := SortBy(init, key);
      SortBySnoc(s, key);
      SortByStable(init, key, k);
      InsertStable(last, sorted, key, k);
      KeyRunSnoc(init, last, key, k);
    }
  }

  /** Some name of `names` carries no date. */
  predicate SomeNameUnparsable(names: seq<string>) {
    exists i | 0 <= i < |names| :: ParseDateFromMigrationFilePath(names[i]).Failure?
  }

  predicate SortedByDate(names: seq<string>) {
    SortedBy(names, Key)
  }

  /** `getUnappliedMigrationFiles`: no directory means nothing to run;
      otherwise the pending names, each parsed (the first that fails is
      the error), sorted by date. */
  function GetUnappliedMigrationFiles(applied: seq<string>, dirExists: bool, entries: seq<string>): (r: Result<seq<string>, string>)
    ensures !dirExists ==> r == Success([])
    ensures dirExists && r.Success? ==> multiset(r.value) == multiset(PendingNames(applied, entries)) && SortedByDate(r.value)
    ensures dirExists ==> (r.Failure? <==> SomeNameUnparsable(PendingNames(applied, entries)))
  {
    if !dirExists then Success([])
    else
      var pending := PendingNames(applied, entries);
      match FirstFailure(ParseAll(pending))
      case Some(e) => Failure(e)
      case None => Success(SortBy(pending, Key))
  }

  /** `e` is the error of the first of `names` that does not parse. */
  predicate IsFirstParseError(names: seq<string>, e: string) {
    exists i | 0 <= i < |names| ::
      && e == InvalidDateMessage(names[i])
      && ParseDateFromMigrationFilePath(names[i]).Failure?
      && forall j | 0 <= j < i :: ParseDateFromMigrationFilePath(names[j]).Success?
  }

  /** The first failed parse of a list of names is that of the first name
      that does not parse. */
  lemma FirstParseFailure(names: seq<string>)
    requires FirstFailure(ParseAll(names)).Some?
    ensures IsFirstParseError(names, FirstFailure(ParseAll(names)).value)
  {
    var rs := ParseAll(names);
    var f := FirstFailure(rs);
    var i :| 0 <= i < |rs| && rs[i].Failure? && f.value == rs[i].error
      && forall j | 0 <= j < i :: rs[j].Success?;
    assert f.value == InvalidDateMessage(names[i]);
  }

  /** The error, when there is one, is that of the first pending name
      that does not parse. */
  lemma UnappliedError(applied: seq<string>, entries: seq<string>)
    requires GetUnappliedMigrationFiles(applied, true, entries).Failure?
    ensures IsFirstParseError(PendingNames(applied, entries), GetUnappliedMigrationFiles(applied, true, entries).error)
  {
    var pending := PendingNames(applied, entries);
    assert GetUnappliedMigrationFiles(applied, true, entries).error == FirstFailure(ParseAll(pending)).value;
    FirstParseFailure(pending);
  }

  /** Every pending name is a `.sql` entry of the directory that was not
      applied, dated by its name, and every such entry is pending. */
  lemma PendingAreExactlyUnapplied(applied: seq<string>, entries: seq<string>)
    requires GetUnappliedMigrationFiles(applied, true, entries).Success?
    ensures var files := GetUnappliedMigrationFiles(applied, true, entries).value;
            && (forall x :: x in files <==> x in entries && IsSqlName(x) && x !in applied)
            && (forall x | x in files :: ParseDateFromMigrationFilePath(x).Success?)
  {
    var pending := PendingNames(applied, entries);
    var files := GetUnappliedMigrationFiles(applied, true, entries).value;
    SameElements(files, pending);
    AllNamesParse(pending);
  }

  /** Sequences that are permutations of each other hold the same elements. */
  lemma SameElements<T>(a: seq<T>, b: seq<T>)
    requires multiset(a) == multiset(b)
    ensures forall x :: x in a <==> x in b
  {
    forall x ensures x in a <==> x in b {
      assert x in a <==> x in multiset(a);
      assert x in b <==> x in multiset(b);
    }
  }

  lemma AllNamesParse(names: seq<string>)
    requires !SomeNameUnparsable(names)
    ensures forall x | x in names :: ParseDateFromMigrationFilePath(x).Success?
  {
    forall x | x in names ensures ParseDateFromMigrationFilePath(x).Success? {
      var i :| 0 <= i < |names| && names[i] == x;
    }
  }

  /** `dbNames.some(name => dbUrl.includes(name))`, and an `aws` url only
      with `YTL_AWS_STACK` set to a non-empty value. */
  predicate CanMigrate(dbNames: seq<string>, dbUrl: string, awsStack: Option<string>) {
    && (exists i | 0 <= i < |dbNames| :: Contains(dbUrl, dbNames[i]))
    && (Contains(dbUrl, "aws") ==> awsStack.Some? && awsStack.value != "")
  }

  /** The answer to `LOCK TABLE … NOWAIT`. */
  datatype LockResult = Locked | NotLocked | LockError(code: string)

  /** How a run inside the transaction ended without throwing. */
  datatype RunResult =
    | LockNotTaken
    | LockBusy
    | Ran(recorded: seq<string>, failed: Option<string>)

  /** The apply loop: each file's script runs and its name is recorded;
      `failing` are the files whose script or record fails. The first
      failure ends the loop and is swallowed. */
  function ApplyMigrations(files: seq<string>, failing: set<string>): (r: (seq<string>, Option<string>))
    ensures |r.0| <= |files| && r.0 == files[..|r.0|]
    ensures forall i | 0 <= i < |r.0| :: r.0[i] !in failing
    ensures r.1.None? ==> r.0 == files
    ensures r.1.Some? ==> |r.0| < |files| && r.1.value == files[|r.0|] && r.1.value in failing
  {
    if files == [] then ([], None)
    else if files[0] in failing then ([], Some(files[0]))
    else
      var (rec, failed) := ApplyMigrations(files[1..], failing);
      assert files == [files[0]] + files[1..];
      assert forall i | 1 <= i < |rec| + 1 :: ([files[0]] + rec)[i] == rec[i - 1];
      ([files[0]] + rec, failed)
  }

  /** `runMigrationsInTransaction`: a lock that is not taken, or refused
      with `55P03`, ends the run quietly; any other lock error is thrown.
      With the lock the pending files run in order. */
  function RunMigrationsInTransaction(lock: LockResult, applied: seq<string>, dirExists: bool,
                                     entries: seq<string>, failing: set<string>): (r: Result<RunResult, string>)
    ensures lock.NotLocked? ==> r == Success(LockNotTaken)
    ensures lock.LockError? && lock.code == "55P03" ==> r == Success(LockBusy)
    ensures lock.LockError? && lock.code != "55P03" ==> r == Failure(lock.code)
    ensures lock.Locked? && r.Success? ==> r.value.Ran? && GetUnappliedMigrationFiles(applied, dirExists, entries).Success?
  {
    match lock
    case NotLocked => Success(LockNotTaken)
    case LockError(code) => if code == "55P03" then Success(LockBusy) else Failure(code)
    case Locked =>
      match GetUnappliedMigrationFiles(applied, dirExists, entries)
      case Failure(e) => Failure(e)
      case Success(files) =>
        var (rec, failed) := ApplyMigrations(files, failing);
        Success(Ran(rec, failed))
  }

  /** `migrate`: the environment guard, then the run. */
  function Migrate(dbNames: seq<string>, dbUrl: string, awsStack: Option<string>, lock: LockResult,
                   applied: seq<string>, dirExists: bool, entries: seq<string>, failing: set<string>): (r: Result<RunResult, string>)
    ensures !CanMigrate(dbNames, dbUrl, awsStack) ==> r == Failure("Cannot migrate to given environment")
  {
    if !CanMigrate(dbNames, dbUrl, awsStack) then Failure("Cannot migrate to given environment")
    else RunMigrationsInTransaction(lock, applied, dirExists, entries, failing)
  }

  /** With the lock taken and every pending file parsed, the recorded files
      are the pending ones in date order up to the first failure, none of
      them applied before; a failure is not thrown. */
  lemma LockedRunRecords(dbNames: seq<string>, dbUrl: string, awsStack: Option<string>,
                         applied: seq<string>, entries: seq<string>, failing: set<string>)
    requires CanMigrate(dbNames, dbUrl, awsStack)
    requires GetUnappliedMigrationFiles(applied, true, entries).Success?
    ensures var r := Migrate(dbNames, dbUrl, awsStack, Locked, applied, true, entries, failing);
            var files := GetUnappliedMigrationFiles(applied, true, entries).value;
            && r.Success? && r.value.Ran?
            && r.value.recorded == files[..|r.value.recorded|]
            && SortedByDate(r.value.recorded)
            && (forall x | x in r.value.recorded :: x !in applied && x !in failing)
            && (r.value.failed.None? ==> r.value.recorded == files)
  {
    var files := GetUnappliedMigrationFiles(applied, true, entries).value;
    var rec := ApplyMigrations(files, failing).0;
    assert Migrate(dbNames, dbUrl, awsStack, Locked, applied, true, entries, failing)
      == Success(Ran(rec, ApplyMigrations(files, failing).1));
    assert SortedByDate(rec) by { SortedPrefix(files, |rec|, Key); }
    assert forall x | x in rec :: x !in applied by {
      PendingAreExactlyUnapplied(applied, entries);
      forall x | x in rec ensures x in files {
        var i :| 0 <= i < |rec| && rec[i] == x;
        assert files[i] == x;
      }
    }
  }

  /** A prefix of a sorted sequence is sorted. */
  lemma SortedPrefix<T>(s: seq<T>, k: nat, key: T -> nat)
    requires SortedBy(s, key) && k <= |s|
    ensures SortedBy(s[..k], key)
  {
    assert forall i | 0 <= i < k :: s[..k][i] == s[i];
  }

  /** A url naming none of the databases is refused. */
  lemma UnknownDatabaseRefused(dbNames: seq<string>, dbUrl: string, awsStack: Option<string>)
    requires forall i | 0 <= i < |dbNames| :: !Contains(dbUrl, dbNames[i])
    ensures !CanMigrate(dbNames, dbUrl, awsStack)
  {
  }

  /** An `aws` url is refused unless `YTL_AWS_STACK` is set. */
  lemma AwsNeedsStack(dbNames: seq<string>, dbUrl: string)
    requires Contains(dbUrl, "aws")
    ensures !CanMigrate(dbNames, dbUrl, None) && !CanMigrate(dbNames, dbUrl, Some(""))
  {
  }
}
