/** The output file name of `ImageProcessor.processImage`: a fixed prefix, the
    current time in milliseconds in decimal, and the `.jpeg` extension,
    appended to the output directory as given. */
module OutputPath {

  const FileNamePrefix: string := "bitmapmanipulator_"
  const FileNameSuffix: string := ".jpeg"

  predicate IsDigit(ch: char)
  {
    '0' as int <= ch as int <= '9' as int
  }

  predicate AllDigits(s: string)
  {
    forall i :: 0 <= i < |s| ==> IsDigit(s[i])
  }

  /** Decimal digits of `n`, most significant first, with no leading zero. */
  function NatToDecimal(n: nat): (s: string)
    ensures |s| >= 1 && AllDigits(s)
    ensures s[0] == '0' ==> n == 0
    decreases n
  {
    if n < 10 then [('0' as int + n) as char]
    else NatToDecimal(n / 10) + [('0' as int + n % 10) as char]
  }

  /** `String.valueOf(long)`, the text string concatenation gives a `long`. */
  function LongToString(n: int): (s: string)
    ensures |s| >= 1
    ensures n >= 0 <==> IsDigit(s[0])
  {
    if n < 0 then "-" + NatToDecimal(-n) else NatToDecimal(n)
  }

  function DecimalValue(s: string): nat
    requires AllDigits(s)
  {
    if s == [] then 0
    else
      assert IsDigit(s[|s| - 1]);
      DecimalValue(s[..|s| - 1]) * 10 + (s[|s| - 1] as int - '0' as int)
  }

  /** Reads back what `LongToString` writes. */
  function ParseLong(s: string): int
    requires |s| >= 1
    requires AllDigits(if s[0] == '-' then s[1..] else s)
  {
    if s[0] == '-' then -(DecimalValue(s[1..]) as int) else DecimalValue(s)
  }

  lemma {:induction false} DecimalRoundTrip(n: nat)
    ensures DecimalValue(NatToDecimal(n)) == n
  {
    var s := NatToDecimal(n);
    if n >= 10 {
      DecimalRoundTrip(n / 10);
      assert s[..|s| - 1] == NatToDecimal(n / 10);
    }
  }

  lemma LongRoundTrip(n: int)
    ensures var s := LongToString(n);
      AllDigits(if s[0] == '-' then s[1..] else s) && ParseLong(s) == n
  {
    var s := LongToString(n);
    if n < 0 {
      DecimalRoundTrip(-n);
      assert s[1..] == NatToDecimal(-n);
    } else {
      DecimalRoundTrip(n);
    }
  }

  function FileName(millis: int): string
  {
    FileNamePrefix + LongToString(millis) + FileNameSuffix
  }

  /** `outputDirectoryPath + fileName`: no separator is put in between. */
  function OutputPathFor(outputDirectoryPath: string, millis: int): (path: string)
    ensures |path| > |outputDirectoryPath| + |FileNamePrefix| + |FileNameSuffix|
    ensures path[..|outputDirectoryPath|] == outputDirectoryPath
    ensures path[|outputDirectoryPath|..|outputDirectoryPath| + |FileNamePrefix|] == FileNamePrefix
    ensures path[|path| - |FileNameSuffix|..] == FileNameSuffix
  {
    outputDirectoryPath + FileName(millis)
  }

  /** The path starts with the directory exactly as given, the file name follows
      at once with its prefix, the extension ends it, and what lies between
      reads back as the timestamp. */
  lemma OutputPathParts(outputDirectoryPath: string, millis: int)
    ensures var path := OutputPathFor(outputDirectoryPath, millis);
      var start := |outputDirectoryPath| + |FileNamePrefix|;
      start + |FileNameSuffix| < |path| &&
      path[..|outputDirectoryPath|] == outputDirectoryPath &&
      path[|outputDirectoryPath|..start] == FileNamePrefix &&
      path[|path| - |FileNameSuffix|..] == FileNameSuffix &&
      var stamp := path[start..|path| - |FileNameSuffix|];
      |stamp| >= 1 && AllDigits(if stamp[0] == '-' then stamp[1..] else stamp) &&
      ParseLong(stamp) == millis
  {
    var path := OutputPathFor(outputDirectoryPath, millis);
    var start := |outputDirectoryPath| + |FileNamePrefix|;
    var stamp := LongToString(millis);
    assert path == outputDirectoryPath + FileNamePrefix + stamp + FileNameSuffix;
    assert path[start..|path| - |FileNameSuffix|] == stamp;
    LongRoundTrip(millis);
  }

  /** Distinct timestamps give distinct paths in the same directory. */
  lemma OutputPathInjective(outputDirectoryPath: string, millis1: int, millis2: int)
    requires OutputPathFor(outputDirectoryPath, millis1) == OutputPathFor(outputDirectoryPath, millis2)
    ensures millis1 == millis2
  {
    var d := outputDirectoryPath + FileNamePrefix;
    var s1, s2 := LongToString(millis1), LongToString(millis2);
    var path := OutputPathFor(outputDirectoryPath, millis1);
    assert path == d + s1 + FileNameSuffix;
    assert path == d + s2 + FileNameSuffix;
    assert s1 == path[|d|..|path| - |FileNameSuffix|];
    assert s2 == path[|d|..|path| - |FileNameSuffix|];
    LongRoundTrip(millis1);
    LongRoundTrip(millis2);
  }

  /** A directory without a trailing slash runs into the file name. */
  lemma NoSeparatorInserted()
    ensures OutputPathFor("/sdcard/out", 7) == "/sdcard/outbitmapmanipulator_7.jpeg"
  {
    assert LongToString(7) == "7";
  }
}
