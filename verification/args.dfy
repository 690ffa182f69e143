/**
  `parse_args` and `print_usage`: the line width and file name are taken from
  exactly two arguments, the first a decimal integer greater than zero. Where
  the program prints and calls `exit(1)`, the model returns a value that says
  what would be printed and with which status the process ends.
 */
module Args {
  import opened Wrappers

  predicate IsDigit(c: char) {
    '0' <= c <= '9'
  }

  predicate AllDigits(s: string) {
    forall i :: 0 <= i < |s| ==> IsDigit(s[i])
  }

  /** The value of a string of decimal digits, most significant first. */
  function DigitsValue(s: string): nat
    requires AllDigits(s)
  {
    if |s| == 0 then 0 else DigitsValue(s[..|s| - 1]) * 10 + (s[|s| - 1] as int - '0' as int)
  }

  /** An optional `+` or `-` followed by at least one decimal digit. */
  predicate IsIntLiteral(s: string) {
    if |s| > 0 && (s[0] == '+' || s[0] == '-') then |s| > 1 && AllDigits(s[1..])
    else |s| > 0 && AllDigits(s)
  }

  /** `int(s)` restricted to ASCII literals: `None` stands for the `ValueError` it raises. */
  function ParseInt(s: string): (r: Option<int>)
    ensures r.Some? <==> IsIntLiteral(s)
    ensures r.Some? && AllDigits(s) ==> r.value >= 0
    ensures r.Some? && s[0] == '-' ==> r.value <= 0
  {
    if |s| > 0 && (s[0] == '+' || s[0] == '-') then
      if |s| > 1 && AllDigits(s[1..]) then
        var magnitude: int := DigitsValue(s[1..]);
        Some(if s[0] == '-' then -magnitude else magnitude)
      else None
    else if |s| > 0 && AllDigits(s) then Some(DigitsValue(s))
    else None
  }

  /** The decimal digits of a natural number, without leading zeros. */
  function NatDigits(x: nat): (s: string)
    ensures |s| > 0 && AllDigits(s)
    ensures DigitsValue(s) == x
    ensures |s| > 1 ==> s[0] != '0'
  {
    var last := ('0' as int + x % 10) as char;
    if x < 10 then [last]
    else
      var init := NatDigits(x / 10);
      var s := init + [last];
      assert s[..|s| - 1] == init;
      s
  }

  /** `str(x)` for an integer: a minus sign for negative values, then the digits. */
  function Decimal(x: int): string {
    if x < 0 then "-" + NatDigits(-x) else NatDigits(x)
  }

  /** Every integer is read back from its decimal rendering. */
  lemma ParseIntRoundTrip(x: int)
    ensures ParseInt(Decimal(x)) == Some(x)
  {
    if x < 0 {
      assert Decimal(x)[1..] == NatDigits(-x);
    }
  }

  /** A leading `+` does not change the value. */
  lemma ParseIntPlus(d: string)
    requires |d| > 0 && AllDigits(d)
    ensures ParseInt("+" + d) == ParseInt(d)
  {
    assert ("+" + d)[1..] == d;
  }

  /** A leading `-` negates the value. */
  lemma ParseIntMinus(d: string)
    requires |d| > 0 && AllDigits(d)
    ensures ParseInt(d).Some? && ParseInt("-" + d) == Some(-ParseInt(d).value)
  {
    assert ("-" + d)[1..] == d;
  }

  /** A leading zero digit does not change the value of a digit string. */
  lemma {:induction false} DigitsValueLeadingZero(d: string)
    requires AllDigits(d)
    ensures AllDigits("0" + d) && DigitsValue("0" + d) == DigitsValue(d)
  {
    if |d| > 0 {
      var z := "0" + d;
      assert z[..|z| - 1] == "0" + d[..|d| - 1];
      DigitsValueLeadingZero(d[..|d| - 1]);
    }
  }

  /**
    A leading zero does not change the value. With `ParseIntPlus`,
    `ParseIntMinus` and `ParseIntRoundTrip` this fixes the value of every literal.
   */
  lemma ParseIntLeadingZero(d: string)
    requires |d| > 0 && AllDigits(d)
    ensures ParseInt("0" + d) == ParseInt(d)
  {
    DigitsValueLeadingZero(d);
  }

  /** Why the first argument was refused: the `ValueError` printed after `Error:`. */
  datatype ParseError =
    | InvalidLiteral(text: string)  // `int()` could not read the text
    | NotPositive(value: int)       // it read a value `<= 0`

  /**
    What `parse_args` ends in: the validated pair, or the usage exit, carrying
    the parse error when one was printed before the usage line.
   */
  datatype ArgsResult =
    | Ok(bytesPerLine: nat, fileName: string)
    | UsageError(cause: Option<ParseError>)

  /** The outcome of `parse_args` for the argument list `args` (program name excluded). */
  function ParseArgs(args: seq<string>): (r: ArgsResult)
    ensures r.Ok? <==> |args| == 2 && ParseInt(args[0]).Some? && ParseInt(args[0]).value > 0
    ensures r.Ok? ==> r.bytesPerLine > 0 && Some(r.bytesPerLine as int) == ParseInt(args[0]) && r.fileName == args[1]
    ensures r == UsageError(None) <==> |args| != 2
    ensures |args| == 2 && ParseInt(args[0]).None? ==> r == UsageError(Some(InvalidLiteral(args[0])))
    ensures |args| == 2 && ParseInt(args[0]).Some? && ParseInt(args[0]).value <= 0
      ==> r == UsageError(Some(NotPositive(ParseInt(args[0]).value)))
  {
    if |args| != 2 then UsageError(None)
    else match ParseInt(args[0])
      case None => UsageError(Some(InvalidLiteral(args[0])))
      case Some(v) => if v <= 0 then UsageError(Some(NotPositive(v))) else Ok(v, args[1])
  }

  /** Any positive width written in decimal, with any file name, is accepted as given. */
  lemma ParseArgsAccepts(n: int, fileName: string)
    requires n > 0
    ensures ParseArgs([Decimal(n), fileName]) == Ok(n, fileName)
  {
    ParseIntRoundTrip(n);
  }

  /** The message of the `ValueError` shown on the error line. */
  function ErrorMessage(e: ParseError): (m: string)
    ensures e.NotPositive? ==> m == "Bytes per line must be a positive integer."
    ensures e.InvalidLiteral? ==>
      && |m| >= |e.text| + 2
      && m[|m| - |e.text| - 2] == '\'' && m[|m| - 1] == '\''
      && m[|m| - |e.text| - 1..|m| - 1] == e.text
  {
    match e
    case InvalidLiteral(text) => "invalid literal for int() with base 10: '" + text + "'"
    case NotPositive(_) => "Bytes per line must be a positive integer."
  }

  /** The line `print_usage` writes for program name `program`. */
  function UsageLine(program: string): (line: string)
    ensures |line| == |program| + 35
    ensures line[..7] == "Usage: " && line[7..7 + |program|] == program
    ensures line[7 + |program|..] == " [bytes per line] [filename]"
  {
    "Usage: " + program + " [bytes per line] [filename]"
  }

  /** How the process ends: its exit status and the lines written to standard output. */
  datatype Exit = Exit(status: int, output: seq<string>)

  /**
    The exit `parse_args` takes on a usage error: the error line if the first
    argument was refused, then the usage line, then status 1.
   */
  function UsageExit(cause: Option<ParseError>, program: string): (e: Exit)
    ensures e.status == 1
    ensures |e.output| > 0 && e.output[|e.output| - 1] == UsageLine(program)
    ensures |e.output| == 2 <==> cause.Some?
    ensures cause.Some? ==> e.output[0] == "Error: " + ErrorMessage(cause.value)
    ensures cause.None? ==> e.output == [UsageLine(program)]
  {
    match cause
    case None => Exit(1, [UsageLine(program)])
    case Some(err) => Exit(1, ["Error: " + ErrorMessage(err), UsageLine(program)])
  }

  /**
    Every refused argument list ends the process with status 1 and a usage line.
    With two arguments the line before it reports why the first was refused;
    with any other count the usage line is all that is printed.
   */
  lemma RefusedArgsExit(args: seq<string>, program: string)
    requires ParseArgs(args).UsageError?
    ensures var e := UsageExit(ParseArgs(args).cause, program);
      && e.status == 1
      && e.output[|e.output| - 1] == UsageLine(program)
      && (|args| != 2 ==> e.output == [UsageLine(program)])
      && (|args| == 2 ==> |e.output| == 2 && ParseArgs(args).cause.Some?)
      && (|args| == 2 ==> e.output[0] == "Error: " + ErrorMessage(ParseArgs(args).cause.value))
      && (|args| == 2 && ParseInt(args[0]).None? ==> e.output[0] == "Error: " + ErrorMessage(InvalidLiteral(args[0])))
      && (|args| == 2 && ParseInt(args[0]).Some? ==> e.output[0] == "Error: " + ErrorMessage(NotPositive(ParseInt(args[0]).value)))
  {
  }

  /** The documented cases of `parse_args`. */
  lemma ParseArgsExamples()
    ensures ParseArgs(["16", "example.bin"]) == Ok(16, "example.bin")
    ensures ParseArgs([]) == UsageError(None)
    ensures ParseArgs(["x"]) == UsageError(None)
    ensures ParseArgs(["0", "f.bin"]) == UsageError(Some(NotPositive(0)))
    ensures ParseArgs(["-3", "f.bin"]) == UsageError(Some(NotPositive(-3)))
    ensures ParseArgs(["x", "f.bin"]) == UsageError(Some(InvalidLiteral("x")))
  {
    assert NatDigits(16) == "16";
    ParseArgsAccepts(16, "example.bin");
    assert ParseInt("0") == Some(0);
    assert ParseInt("-3") == Some(-3) by { assert "-3"[1..] == "3"; }
  }
}
