/** Table file names: `<work dir><level>_<number>.sst`, built from a table's
    level and file number and parsed back when the store starts. */
module FileUtils {
  import opened Wrappers
  import opened Bytes

  /** The store's working directory; it ends with the path separator. */
  const WorkDir: string := "/tmp/kvstore/"

  /** The extension of table files. */
  const SstableSuffix: string := ".sst"

  /** What both parsers return for a blank path or a bare file name. */
  const Unparsed: int := -99

  // ---------------------------------------------------------------------------
  // Decimal text, as `Long.toString` / `Integer.toString` write it and
  // `Long.valueOf` / `Integer.valueOf` read it.
  // ---------------------------------------------------------------------------

  predicate IsDigit(c: char)
  {
    '0' <= c <= '9'
  }

  predicate AllDigits(s: string)
  {
    forall i :: 0 <= i < |s| ==> IsDigit(s[i])
  }

  /** The digits of `n`, most significant first, with no leading zero. */
  function Digits(n: nat): (r: string)
    ensures 1 <= |r| && AllDigits(r)
    ensures |r| > 1 ==> r[0] != '0'
  {
    var last := ['0' + (n % 10) as char];
    if n < 10 then last
    else
      var front := Digits(n / 10);
      assert front[0] == (front + last)[0];
      front + last
  }

  /** The number a string of decimal digits denotes. */
  function DigitsValue(s: string): (r: nat)
    requires AllDigits(s)
    ensures |s| == 0 ==> r == 0
  {
    if |s| == 0 then 0
    else DigitsValue(s[..|s| - 1]) * 10 + (s[|s| - 1] - '0') as int
  }

  /** `String.valueOf` of a `long` or an `int`. */
  function Decimal(n: int): (r: string)
    ensures 1 <= |r|
    ensures n < 0 ==> r[0] == '-' && AllDigits(r[1..])
    ensures n >= 0 ==> AllDigits(r)
  {
    if n < 0 then "-" + Digits(-n) else Digits(n)
  }

  /** The text `Long.parseLong` / `Integer.parseInt` accept in radix ten: an
      optional sign followed by at least one digit. */
  predicate WellFormedDecimal(s: string)
  {
    && |s| >= 1
    && var ds := if s[0] == '-' || s[0] == '+' then s[1..] else s;
       |ds| >= 1 && AllDigits(ds)
  }

  /** The value of well-formed decimal text, sign included. */
  function SignedValue(s: string): int
    requires WellFormedDecimal(s)
  {
    if s[0] == '-' then 0 - DigitsValue(s[1..])
    else if s[0] == '+' then DigitsValue(s[1..])
    else DigitsValue(s)
  }

  /** Radix-ten parsing into the range `lo..hi`: malformed text and values
      outside the range are both a `NumberFormatException`. */
  function ParseDecimal(s: string, lo: int, hi: int): (r: Result<int>)
    ensures r.Success? <==> WellFormedDecimal(s) && lo <= SignedValue(s) <= hi
    ensures r.Success? ==> r.value == SignedValue(s) && lo <= r.value <= hi
    ensures r.Failure? ==> r.error == NumberFormat
  {
    if !WellFormedDecimal(s) then Failure(NumberFormat)
    else
      var v := SignedValue(s);
      if lo <= v <= hi then Success(v) else Failure(NumberFormat)
  }

  /** `Long.valueOf(s)`. */
  function ParseLong(s: string): (r: Result<int64>)
    ensures r.Success? <==> ParseDecimal(s, -0x8000_0000_0000_0000, 0x7FFF_FFFF_FFFF_FFFF).Success?
    ensures r.Success? ==> r.value == ParseDecimal(s, -0x8000_0000_0000_0000, 0x7FFF_FFFF_FFFF_FFFF).value
    ensures r.Failure? ==> r.error == NumberFormat
  {
    var v :- ParseDecimal(s, -0x8000_0000_0000_0000, 0x7FFF_FFFF_FFFF_FFFF);
    Success(v)
  }

  /** `Integer.valueOf(s)`. */
  function ParseInt(s: string): (r: Result<int32>)
    ensures r.Success? <==> ParseDecimal(s, -0x8000_0000, 0x7FFF_FFFF).Success?
    ensures r.Success? ==> r.value == ParseDecimal(s, -0x8000_0000, 0x7FFF_FFFF).value
    ensures r.Failure? ==> r.error == NumberFormat
  {
    var v :- ParseDecimal(s, -0x8000_0000, 0x7FFF_FFFF);
    Success(v)
  }

  lemma {:induction false} DigitsValueOfDigits(n: nat)
    ensures DigitsValue(Digits(n)) == n
  {
    if n >= 10 {
      var front, last := Digits(n / 10), ['0' + (n % 10) as char];
      DigitsValueOfDigits(n / 10);
      assert (front + last)[..|front + last| - 1] == front;
    }
  }

  /** Reading back what `Decimal` writes gives the number. */
  lemma DecimalRoundTrip(n: int)
    ensures WellFormedDecimal(Decimal(n)) && SignedValue(Decimal(n)) == n
  {
    if n < 0 {
      NegativeDecimal(n);
    } else {
      DigitsValueOfDigits(n);
    }
  }

  lemma NegativeDecimal(n: int)
    requires n < 0
    ensures WellFormedDecimal(Decimal(n)) && SignedValue(Decimal(n)) == n
  {
    assert Decimal(n)[1..] == Digits(-n);
    DigitsValueOfDigits(-n);
  }

  lemma LongRoundTrip(n: int64)
    ensures ParseLong(Decimal(n)) == Success(n)
  {
    DecimalRoundTrip(n);
  }

  lemma IntRoundTrip(n: int32)
    ensures ParseInt(Decimal(n)) == Success(n)
  {
    DecimalRoundTrip(n);
  }

  // ---------------------------------------------------------------------------
  // The string operations the parsers use.
  // ---------------------------------------------------------------------------

  /** `Character.isWhitespace`: the Unicode space, line and paragraph
      separators other than the no-break spaces, and the controls
      U+0009..U+000D and U+001C..U+001F. */
  predicate IsWhitespace(c: char)
  {
    || c == ' '
    || '\t' <= c <= '\r'
    || '\U{1C}' <= c <= '\U{1F}'
    || c == '\U{1680}'
    || '\U{2000}' <= c <= '\U{2006}'
    || '\U{2008}' <= c <= '\U{200A}'
    || c == '\U{2028}' || c == '\U{2029}'
    || c == '\U{205F}' || c == '\U{3000}'
  }

  /** `StringUtils.isBlank`: empty or whitespace only. */
  predicate IsBlank(s: string)
  {
    forall i :: 0 <= i < |s| ==> IsWhitespace(s[i])
  }

  /** `s.indexOf(c)`: the first position of `c`, or -1. */
  function IndexOf(s: string, c: char): (r: int)
    ensures -1 <= r < |s|
    ensures r == -1 <==> c !in s
    ensures r >= 0 ==> s[r] == c && c !in s[..r]
  {
    if |s| == 0 then -1
    else if s[0] == c then 0
    else
      var t := IndexOf(s[1..], c);
      assert s == [s[0]] + s[1..];
      if t == -1 then -1
      else
        assert s[..t + 1] == [s[0]] + s[1..][..t];
        t + 1
  }

  /** `s.lastIndexOf(c)`: the last position of `c`, or -1. */
  function LastIndexOf(s: string, c: char): (r: int)
    ensures -1 <= r < |s|
    ensures r == -1 <==> c !in s
    ensures r >= 0 ==> s[r] == c && c !in s[r + 1..]
  {
    if |s| == 0 then -1
    else if s[|s| - 1] == c then |s| - 1
    else
      var t := LastIndexOf(s[..|s| - 1], c);
      assert s == s[..|s| - 1] + [s[|s| - 1]];
      if t == -1 then -1
      else
        assert s[t + 1..] == s[..|s| - 1][t + 1..] + [s[|s| - 1]];
        t
  }

  /** `s.substring(b, e)`, which throws unless `0 <= b <= e <= |s|`. */
  function Substring(s: string, b: int, e: int): (r: Result<string>)
    ensures r.Success? <==> 0 <= b <= e <= |s|
    ensures r.Success? ==> r.value == s[b..e]
    ensures r.Failure? ==> r.error == IndexOutOfBounds
  {
    if 0 <= b <= e <= |s| then Success(s[b..e]) else Failure(IndexOutOfBounds)
  }

  // ---------------------------------------------------------------------------
  // The file-name codec.
  // ---------------------------------------------------------------------------

  /** `buildSstableFilePath(fileNumber, level)`. */
  function BuildSstableFilePath(fileNumber: int64, level: int32): (r: string)
    ensures |r| > |WorkDir| + |SstableSuffix|
    ensures r[..|WorkDir|] == WorkDir
    ensures r[|r| - |SstableSuffix|..] == SstableSuffix
  {
    var name := Decimal(level) + "_" + Decimal(fileNumber) + SstableSuffix;
    assert (WorkDir + name)[..|WorkDir|] == WorkDir;
    assert (WorkDir + name)[|WorkDir + name| - |SstableSuffix|..] == SstableSuffix;
    WorkDir + name
  }

  /** The part of a path after its last '/', when it has one. */
  function FileName(path: string): (r: Option<string>)
    ensures r.None? <==> IsBlank(path) || '/' !in path
    ensures r.Some? ==> '/' !in r.value && |r.value| < |path| && path[|path| - |r.value|..] == r.value
  {
    if IsBlank(path) then None
    else
      var last := LastIndexOf(path, '/');
      if last == -1 then None else Some(path[last + 1..])
  }

  /** `parseFileNumber(filePath)`: the text between the first '_' and the
      first '.' of the file name, as a `long`. */
  function ParseFileNumber(filePath: string): (r: Result<int64>)
    ensures IsBlank(filePath) || '/' !in filePath ==> r == Success(Unparsed)
    ensures r.Failure? ==> r.error in {IndexOutOfBounds, NumberFormat}
  {
    match FileName(filePath)
    case None => Success(Unparsed)
    case Some(fileName) => NumberOfFileName(fileName)
  }

  /** The number part of a file name: between its first '_' and first '.'. */
  function NumberOfFileName(fileName: string): (r: Result<int64>)
    ensures r.Failure? ==> r.error in {IndexOutOfBounds, NumberFormat}
    ensures '.' !in fileName ==> r == Failure(IndexOutOfBounds)
  {
    var digits :- Substring(fileName, IndexOf(fileName, '_') + 1, IndexOf(fileName, '.'));
    ParseLong(digits)
  }

  /** `parseSstableFileLevel(filePath)`: the text before the first '_' of the
      file name, as an `int`. */
  function ParseSstableFileLevel(filePath: string): (r: Result<int32>)
    ensures IsBlank(filePath) || '/' !in filePath ==> r == Success(Unparsed)
    ensures r.Failure? ==> r.error in {IndexOutOfBounds, NumberFormat}
  {
    match FileName(filePath)
    case None => Success(Unparsed)
    case Some(fileName) => LevelOfFileName(fileName)
  }

  /** The level part of a file name: before its first '_'. */
  function LevelOfFileName(fileName: string): (r: Result<int32>)
    ensures r.Failure? ==> r.error in {IndexOutOfBounds, NumberFormat}
    ensures '_' !in fileName ==> r == Failure(IndexOutOfBounds)
  {
    var digits :- Substring(fileName, 0, IndexOf(fileName, '_'));
    ParseInt(digits)
  }

  /** The first `c` in `a + [c] + b` is the one after `a` when `a` lacks `c`. */
  lemma {:induction false} IndexOfFirst(a: string, c: char, b: string)
    requires c !in a
    ensures IndexOf(a + [c] + b, c) == |a|
  {
    if |a| > 0 {
      assert (a + [c] + b)[1..] == a[1..] + [c] + b;
      IndexOfFirst(a[1..], c, b);
    }
  }

  /** The last `c` in `a + [c] + b` is the one after `a` when `b` lacks `c`. */
  lemma {:induction false} LastIndexOfLast(a: string, c: char, b: string)
    requires c !in b
    ensures LastIndexOf(a + [c] + b, c) == |a|
  {
    if |b| > 0 {
      var s := a + [c] + b;
      assert s[..|s| - 1] == a + [c] + b[..|b| - 1];
      assert s[|s| - 1] == b[|b| - 1];
      LastIndexOfLast(a, c, b[..|b| - 1]);
    }
  }

  /** The file name that follows the directory's final '/'. */
  lemma FileNameAfterDirectory(dir: string, name: string)
    requires |dir| >= 1 && dir[|dir| - 1] == '/' && '/' !in name
    ensures FileName(dir + name) == Some(name)
  {
    var path := dir + name;
    assert path == dir[..|dir| - 1] + ['/'] + name;
    assert !IsWhitespace(path[|dir| - 1]);
    LastIndexOfLast(dir[..|dir| - 1], '/', name);
    assert path[|dir|..] == name;
  }

  /** A file name `level_number.rest` read by `parseFileNumber`: the number is
      the text between the first '_' and the first '.'. */
  lemma ParseFileNumberOfName(dir: string, level: string, number: string, rest: string)
    requires |dir| >= 1 && dir[|dir| - 1] == '/'
    requires '/' !in level && '/' !in number && '/' !in rest
    requires '_' !in level && '.' !in level && '.' !in number
    ensures ParseFileNumber(dir + (level + ['_'] + number + ['.'] + rest)) == ParseLong(number)
  {
    var name := level + ['_'] + number + ['.'] + rest;
    FileNameAfterDirectory(dir, name);
    NumberOfName(level, number, rest);
  }

  lemma NumberOfName(level: string, number: string, rest: string)
    requires '_' !in level && '.' !in level && '.' !in number
    ensures NumberOfFileName(level + ['_'] + number + ['.'] + rest) == ParseLong(number)
  {
    var name := level + ['_'] + number + ['.'] + rest;
    NumberBounds(level, number, rest);
    assert name[|level| + 1..|level| + 1 + |number|] == number;
  }

  /** Where the first '_' and the first '.' of `level_number.rest` sit. */
  lemma NumberBounds(level: string, number: string, rest: string)
    requires '_' !in level && '.' !in level && '.' !in number
    ensures IndexOf(level + ['_'] + number + ['.'] + rest, '_') == |level|
    ensures IndexOf(level + ['_'] + number + ['.'] + rest, '.') == |level| + 1 + |number|
  {
    var front := level + ['_'] + number;
    assert front + ['.'] + rest == level + ['_'] + (number + ['.'] + rest);
    IndexOfFirst(level, '_', number + ['.'] + rest);
    assert '.' !in front;
    IndexOfFirst(front, '.', rest);
  }

  /** A file name `level_rest` read by `parseSstableFileLevel`: the level is
      the text before the first '_'. */
  lemma ParseLevelOfName(dir: string, level: string, rest: string)
    requires |dir| >= 1 && dir[|dir| - 1] == '/'
    requires '/' !in level && '/' !in rest
    requires '_' !in level
    ensures ParseSstableFileLevel(dir + (level + ['_'] + rest)) == ParseInt(level)
  {
    FileNameAfterDirectory(dir, level + ['_'] + rest);
    LevelOfName(level, rest);
  }

  lemma LevelOfName(level: string, rest: string)
    requires '_' !in level
    ensures LevelOfFileName(level + ['_'] + rest) == ParseInt(level)
  {
    var name := level + ['_'] + rest;
    IndexOfFirst(level, '_', rest);
    assert name[0..|level|] == level;
  }

  /** Decimal text holds none of the separators the parsers look for. */
  lemma DecimalHasNoSeparators(n: int)
    ensures '/' !in Decimal(n) && '_' !in Decimal(n) && '.' !in Decimal(n)
  {
    var d := Decimal(n);
    assert forall i :: 0 <= i < |d| ==> d[i] == '-' || IsDigit(d[i]);
  }

  /** Both parsers recover what `buildSstableFilePath` wrote, for every
      `long` file number and `int` level. */
  lemma PathRoundTrip(fileNumber: int64, level: int32)
    ensures ParseFileNumber(BuildSstableFilePath(fileNumber, level)) == Success(fileNumber)
    ensures ParseSstableFileLevel(BuildSstableFilePath(fileNumber, level)) == Success(level)
  {
    var l, n := Decimal(level), Decimal(fileNumber);
    var path := BuildSstableFilePath(fileNumber, level);
    DecimalHasNoSeparators(level);
    DecimalHasNoSeparators(fileNumber);
    assert WorkDir[|WorkDir| - 1] == '/';
    assert path == WorkDir + (l + ['_'] + n + ['.'] + "sst");
    assert path == WorkDir + (l + ['_'] + (n + ".sst"));
    assert ParseFileNumber(path) == Success(fileNumber) by {
      ParseFileNumberOfName(WorkDir, l, n, "sst");
      LongRoundTrip(fileNumber);
    }
    assert ParseSstableFileLevel(path) == Success(level) by {
      ParseLevelOfName(WorkDir, l, n + ".sst");
      IntRoundTrip(level);
    }
  }
}
