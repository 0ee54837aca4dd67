/**
 * The failure path of the compiler: the optimizer's log is read for a source
 * position, `src:line(col):` or `(line,col):`, and a window of source lines
 * around that position is chosen for the listing.
 */
module ErrorLog {
  import opened Text

  const Int32Max: int := 0x7FFF_FFFF

  /** A value held in an int32_t: its low 32 bits read as a two's-complement number. */
  function AsInt32(v: int): (r: int)
    ensures -0x8000_0000 <= r <= Int32Max
    ensures (r - v) % 0x1_0000_0000 == 0
    ensures -0x8000_0000 <= v <= Int32Max ==> r == v
  {
    var w := v % 0x1_0000_0000;
    if w > Int32Max then w - 0x1_0000_0000 else w
  }

  /** A number converted by %u, and the position just after its last digit. */
  datatype Converted = Converted(value: int, end: nat)

  predicate SignAt(log: string, b: nat) {
    b < |log| && (log[b] == '+' || log[b] == '-')
  }

  /**
   * sscanf's %u at `i`, read as strtoul reads it: blanks, one optional '+' or
   * '-', then at least one decimal digit. A '-' negates the value; the value is
   * kept unbounded here and stored modulo 2^32 by AsInt32.
   */
  function ScanConversion(log: string, i: nat): (r: Option<Converted>)
    requires i <= |log|
    ensures r.Some? ==> i < r.value.end <= |log|
    ensures r.Some? ==> r.value.end == |log| || !IsDigit(log[r.value.end])
    decreases |log| - i, 1
  {
    ConversionFrom(log, i)
  }

  /** One step of the conversion: a blank is skipped, anything else starts the optional sign and the digits. */
  function ConversionFrom(log: string, i: nat): (r: Option<Converted>)
    requires i <= |log|
    ensures r.Some? ==> i < r.value.end <= |log|
    ensures r.Some? ==> r.value.end == |log| || !IsDigit(log[r.value.end])
    decreases |log| - i, 0
  {
    if i < |log| && IsSpace(log[i]) then ScanConversion(log, i + 1)
    else
      var d := if SignAt(log, i) then i + 1 else i;
      var e := DigitsEnd(log, d);
      if e == d then None
      else
        var v: int := DecimalValue(log[d..e]);
        Some(Converted(if log[i] == '-' then -v else v, e))
  }

  /** Without a sign, a conversion reads what the unsigned scan reads, and fails where it fails. */
  lemma {:induction false} ConversionWithoutSign(log: string, i: nat)
    requires i <= |log| && !SignAt(log, SkipSpace(log, i))
    ensures match ScanUnsigned(log, i)
      case None => ScanConversion(log, i).None?
      case Some(n) => ScanConversion(log, i) == Some(Converted(n.value, n.end))
    decreases |log| - i
  {
    assert ScanConversion(log, i) == ConversionFrom(log, i);
    if i < |log| && IsSpace(log[i]) {
      assert SkipSpace(log, i) == SkipSpace(log, i + 1);
      ConversionWithoutSign(log, i + 1);
    }
  }

  /** A negative value comes from a '-' after the blanks. */
  lemma {:induction false} ConversionNegative(log: string, i: nat)
    requires i <= |log|
    requires ScanConversion(log, i).Some? && ScanConversion(log, i).value.value < 0
    ensures SignAt(log, SkipSpace(log, i)) && log[SkipSpace(log, i)] == '-'
    decreases |log| - i
  {
    assert ScanConversion(log, i) == ConversionFrom(log, i);
    if i < |log| && IsSpace(log[i]) {
      ConversionNegative(log, i + 1);
    }
  }

  /** What one call of sscanf leaves behind: its count of conversions and the line and column it stored. */
  datatype Conversions = Conversions(count: nat, line: Option<int>, column: Option<int>)

  /** A literal character of a format must be the very next character of the input. */
  predicate LiteralAt(log: string, i: nat, c: char) {
    i < |log| && log[i] == c
  }

  /**
   * sscanf(log, "%u:%u(%u):", ...): source, line and column. Conversion stops at
   * the first mismatch; the values stored before it stay stored. The literals
   * after the third number are never reached by the count.
   */
  function ScanSourceLineColumn(log: string): (c: Conversions)
    ensures c.count <= 3
    ensures c.count == 3 <==> c.column.Some?
    ensures c.column.Some? ==> c.line.Some?
  {
    match ScanConversion(log, 0)
    case None => Conversions(0, None, None)
    case Some(src) =>
      if !LiteralAt(log, src.end, ':') then Conversions(1, None, None)
      else match ScanConversion(log, src.end + 1)
        case None => Conversions(1, None, None)
        case Some(ln) =>
          if !LiteralAt(log, ln.end, '(') then Conversions(2, Some(ln.value), None)
          else match ScanConversion(log, ln.end + 1)
            case None => Conversions(2, Some(ln.value), None)
            case Some(col) => Conversions(3, Some(ln.value), Some(col.value))
  }

  /** sscanf(log, "(%u,%u):", ...): line and column. */
  function ScanLineColumn(log: string): (c: Conversions)
    ensures c.count <= 2
    ensures c.count == 2 <==> c.column.Some?
    ensures c.column.Some? ==> c.line.Some?
    ensures c.count > 0 ==> LiteralAt(log, 0, '(')
  {
    if !LiteralAt(log, 0, '(') then Conversions(0, None, None)
    else match ScanConversion(log, 1)
      case None => Conversions(0, None, None)
      case Some(ln) =>
        if !LiteralAt(log, ln.end, ',') then Conversions(1, Some(ln.value), None)
        else match ScanConversion(log, ln.end + 1)
          case None => Conversions(1, Some(ln.value), None)
          case Some(col) => Conversions(2, Some(ln.value), Some(col.value))
  }

  /** The second format is tried only when the first did not convert all three numbers. */
  function SecondScan(log: string): Conversions {
    if ScanSourceLineColumn(log).count == 3 then Conversions(0, None, None) else ScanLineColumn(log)
  }

  /** The log starts with a source position in one of the two forms. */
  predicate PositionFound(log: string) {
    ScanSourceLineColumn(log).count == 3 || SecondScan(log).count == 2
  }

  /** The line and column handed to the listing, with the window of lines it shows. */
  datatype ErrorReport = ErrorReport(line: int, column: int, start: int, end: int)

  function StoredValue(first: Option<int>, second: Option<int>): int {
    AsInt32(if second.Some? then second.value else if first.Some? then first.value else 0)
  }

  function Max(a: int, b: int): int { if a < b then b else a }

  /**
   * bx::uint32_imax on two int32 values: it picks by the sign bit of the
   * wrapped difference b - a, `a` when it is set and `b` otherwise, which is
   * the larger value unless that difference overflows.
   */
  function IMax(a: int, b: int): (r: int)
    ensures -0x8000_0000 <= b - a <= Int32Max ==> r == Max(a, b)
  {
    if AsInt32(b - a) < 0 then a else b
  }

  /**
   * The report for a failed compile. With a position found and a line other than
   * 0 the window starts ten lines before the line, never before line 1, and runs
   * twenty lines; otherwise it is the whole source, 0 to INT32_MAX. A negative
   * line down to -2^31 + 11 gives the window 1..21; at -2^31 + 10 the difference
   * the maximum tests overflows and the window starts at -2^31.
   */
  function ReportError(log: string): (r: ErrorReport)
    ensures !PositionFound(log) || r.line == 0 ==> r.start == 0 && r.end == Int32Max
    ensures PositionFound(log) && 0 < r.line <= Int32Max - 10 ==>
      && r.start == Max(1, r.line - 10)
      && r.end == r.start + 20
      && 1 <= r.start <= r.line <= r.end
    ensures PositionFound(log) && -0x8000_0000 + 11 <= r.line < 0 ==> r.start == 1 && r.end == 21
    ensures PositionFound(log) && r.line == -0x8000_0000 + 10 ==> r.start == -0x8000_0000 && r.end == -0x8000_0000 + 20
  {
    var a := ScanSourceLineColumn(log);
    var b := SecondScan(log);
    var line := StoredValue(a.line, b.line);
    var column := StoredValue(a.column, b.column);
    if PositionFound(log) && line != 0 then
      var start := IMax(1, AsInt32(line - 10));
      ErrorReport(line, column, start, AsInt32(start + 20))
    else
      ErrorReport(line, column, 0, Int32Max)
  }

  /** A non-empty run of decimal digits. */
  predicate Digits(d: string) {
    |d| > 0 && forall k :: 0 <= k < |d| ==> IsDigit(d[k])
  }

  /** Digits `d` in [i, e), ended by a non-digit, convert to the number they write. */
  lemma ConversionIs(log: string, i: nat, e: nat, d: string)
    requires Digits(d) && i <= e <= |log| && log[i..e] == d
    requires e == |log| || !IsDigit(log[e])
    ensures ScanConversion(log, i) == Some(Converted(DecimalValue(d), e))
  {
    assert e == i + |d|;
    ScanUnsignedIs(log, i, d);
    assert log[i] == d[0];
    assert SkipSpace(log, i) == i;
    ConversionWithoutSign(log, i);
  }

  /** `src:line(col)` followed by anything converts all three numbers and stores the line and the column written. */
  lemma SourceLineColumnRead(d1: string, d2: string, d3: string, rest: string)
    requires Digits(d1) && Digits(d2) && Digits(d3)
    ensures ScanSourceLineColumn(d1 + ":" + d2 + "(" + d3 + ")" + rest)
      == Conversions(3, Some(DecimalValue(d2)), Some(DecimalValue(d3)))
  {
    var q := d1 + ":" + d2;
    var p := q + "(" + d3;
    var log := p + ")" + rest;
    PrefixThen(p, ')', rest);
    PrefixThen(q, '(', d3);
    PrefixThen(d1, ':', d2);
    PrefixOfPrefix(log, p, q);
    PrefixOfPrefix(log, p, d1);
    PrefixEnd(log, d1 + ":", d2);
    PrefixEnd(log, q + "(", d3);
    SourceLineColumnAt(log, d1, d2, d3, |d1|, |q|, |p|);
  }

  /** `x` followed by the character `c` and anything: `x` is the prefix and `c` comes next. */
  lemma PrefixThen(x: string, c: char, y: string)
    ensures (x + [c] + y)[..|x|] == x && (x + [c] + y)[|x|] == c
  {
  }

  /** A prefix of a prefix is a prefix, with the character after it. */
  lemma PrefixOfPrefix(s: string, p: string, q: string)
    requires |q| < |p| <= |s| && s[..|p|] == p && p[..|q|] == q
    ensures s[..|q|] == q && s[|q|] == p[|q|]
  {
    assert s[..|q|] == s[..|p|][..|q|];
  }

  /** The three numbers at their places in the log, with the literals between them. */
  lemma SourceLineColumnAt(log: string, d1: string, d2: string, d3: string, a: nat, b: nat, c: nat)
    requires Digits(d1) && Digits(d2) && Digits(d3)
    requires a == |d1| && b == a + 1 + |d2| && c == b + 1 + |d3| && c < |log|
    requires log[0..a] == d1 && log[a] == ':'
    requires log[a + 1..b] == d2 && log[b] == '('
    requires log[b + 1..c] == d3 && log[c] == ')'
    ensures ScanSourceLineColumn(log) == Conversions(3, Some(DecimalValue(d2)), Some(DecimalValue(d3)))
  {
    ConversionIs(log, 0, a, d1);
    ConversionIs(log, a + 1, b, d2);
    ConversionIs(log, b + 1, c, d3);
    ThreeConversions(log, DecimalValue(d1), a, DecimalValue(d2), b, DecimalValue(d3), c);
  }

  lemma ThreeConversions(log: string, v1: int, a: nat, v2: int, b: nat, v3: int, c: nat)
    requires a < b < |log|
    requires ScanConversion(log, 0) == Some(Converted(v1, a)) && log[a] == ':'
    requires ScanConversion(log, a + 1) == Some(Converted(v2, b)) && log[b] == '('
    requires ScanConversion(log, b + 1) == Some(Converted(v3, c))
    ensures ScanSourceLineColumn(log) == Conversions(3, Some(v2), Some(v3))
  {
  }

  /** `(line,col)` followed by anything fails the first format and converts both numbers of the second. */
  lemma LineColumnRead(d2: string, d3: string, rest: string)
    requires Digits(d2) && Digits(d3)
    ensures ScanSourceLineColumn("(" + d2 + "," + d3 + ")" + rest) == Conversions(0, None, None)
    ensures ScanLineColumn("(" + d2 + "," + d3 + ")" + rest)
      == Conversions(2, Some(DecimalValue(d2)), Some(DecimalValue(d3)))
  {
    var q := "(" + d2;
    var p := q + "," + d3;
    var log := p + ")" + rest;
    PrefixThen(p, ')', rest);
    PrefixThen(q, ',', d3);
    PrefixOfPrefix(log, p, q);
    assert log[0] == q[0] == '(';
    OpeningParenthesis(log);
    PrefixEnd(log, "(", d2);
    PrefixEnd(log, q + ",", d3);
    LineColumnAt(log, d2, d3, |q|, |p|);
  }

  /** The two numbers at their places in the log, with the literals around them. */
  lemma LineColumnAt(log: string, d2: string, d3: string, b: nat, c: nat)
    requires Digits(d2) && Digits(d3)
    requires b == 1 + |d2| && c == b + 1 + |d3| && c < |log| && log[0] == '('
    requires log[1..b] == d2 && log[b] == ','
    requires log[b + 1..c] == d3 && log[c] == ')'
    ensures ScanLineColumn(log) == Conversions(2, Some(DecimalValue(d2)), Some(DecimalValue(d3)))
  {
    ConversionIs(log, 1, b, d2);
    ConversionIs(log, b + 1, c, d3);
    TwoConversions(log, DecimalValue(d2), b, DecimalValue(d3), c);
  }

  /** When `x + d` is a prefix of `s`, `d` is the stretch of `s` after `x`. */
  lemma PrefixEnd(s: string, x: string, d: string)
    requires |x + d| <= |s| && s[..|x + d|] == x + d
    ensures s[|x|..|x| + |d|] == d
  {
    assert s[|x|..|x| + |d|] == s[..|x + d|][|x|..];
  }

  /** A log that starts with '(' converts nothing of the first format. */
  lemma OpeningParenthesis(log: string)
    requires 0 < |log| && log[0] == '('
    ensures ScanSourceLineColumn(log) == Conversions(0, None, None)
  {
    assert ScanConversion(log, 0) == ConversionFrom(log, 0);
    assert DigitsEnd(log, 0) == 0;
  }

  lemma TwoConversions(log: string, v2: int, b: nat, v3: int, c: nat)
    requires b < |log| && log[0] == '('
    requires ScanConversion(log, 1) == Some(Converted(v2, b)) && log[b] == ','
    requires ScanConversion(log, b + 1) == Some(Converted(v3, c))
    ensures ScanLineColumn(log) == Conversions(2, Some(v2), Some(v3))
  {
  }

  /**
   * The report for a log that starts `src:line(col)`: the line and the column
   * written, stored as int32, and the window around that line.
   */
  lemma ReportSourceLineColumn(d1: string, d2: string, d3: string, rest: string)
    requires Digits(d1) && Digits(d2) && Digits(d3)
    ensures var r := ReportError(d1 + ":" + d2 + "(" + d3 + ")" + rest);
      && r.line == AsInt32(DecimalValue(d2))
      && r.column == AsInt32(DecimalValue(d3))
      && (r.line == 0 ==> r.start == 0 && r.end == Int32Max)
      && (0 < r.line <= Int32Max - 10 ==> r.start == Max(1, r.line - 10) && r.end == r.start + 20)
      && (-0x8000_0000 + 11 <= r.line < 0 ==> r.start == 1 && r.end == 21)
      && (r.line == -0x8000_0000 + 10 ==> r.start == -0x8000_0000 && r.end == -0x8000_0000 + 20)
  {
    SourceLineColumnRead(d1, d2, d3, rest);
  }

  /** The same for a log that starts `(line,col)`. */
  lemma ReportLineColumn(d2: string, d3: string, rest: string)
    requires Digits(d2) && Digits(d3)
    ensures var r := ReportError("(" + d2 + "," + d3 + ")" + rest);
      && r.line == AsInt32(DecimalValue(d2))
      && r.column == AsInt32(DecimalValue(d3))
      && (r.line == 0 ==> r.start == 0 && r.end == Int32Max)
      && (0 < r.line <= Int32Max - 10 ==> r.start == Max(1, r.line - 10) && r.end == r.start + 20)
      && (-0x8000_0000 + 11 <= r.line < 0 ==> r.start == 1 && r.end == 21)
      && (r.line == -0x8000_0000 + 10 ==> r.start == -0x8000_0000 && r.end == -0x8000_0000 + 20)
  {
    LineColumnRead(d2, d3, rest);
  }

  /** The log "0:12(4): error" reports line 12, column 4 and the window 2..22. */
  lemma ReportExample()
    ensures ReportError("0:12(4): error") == ErrorReport(12, 4, 2, 22)
  {
    assert "0:12(4): error" == "0" + ":" + "12" + "(" + "4" + ")" + ": error";
    assert DecimalValue("12") == 12;
    ReportSourceLineColumn("0", "12", "4", ": error");
  }

  /** Line 4294967295 is stored as -1, and the window then starts at line 1. */
  lemma WrappedLineExample(log: string)
    requires log == "0:4294967295(1):"
    ensures ReportError(log) == ErrorReport(-1, 1, 1, 21)
  {
    var d2 := "4294967295";
    assert log == "0" + ":" + d2 + "(" + "1" + ")" + ":";
    DecimalValueOfMaxUnsigned();
    assert AsInt32(DecimalValue(d2)) == -1;
    ReportSourceLineColumn("0", d2, "1", ":");
  }

  /**
   * Line 2147483659 is stored as -2^31 + 11, the lowest line whose window the
   * maximum still computes without overflow: the window is 1..21.
   */
  lemma LowestWrappedLineExample(log: string)
    requires log == "0:2147483659(1):"
    ensures ReportError(log) == ErrorReport(-0x8000_0000 + 11, 1, 1, 21)
  {
    var d2 := "2147483659";
    assert log == "0" + ":" + d2 + "(" + "1" + ")" + ":";
    DecimalValueOfLowestWrapped();
    assert AsInt32(DecimalValue(d2)) == -0x8000_0000 + 11;
    ReportSourceLineColumn("0", d2, "1", ":");
  }

  /** The ten digits of 2^31 + 11. */
  lemma DecimalValueOfLowestWrapped()
    ensures DecimalValue("2147483659") == 0x8000_0000 + 11
  {
    var d := "2147483659";
    assert d[..1] == "2";
    Digit(d, 1, 2);
    Digit(d, 2, 21);
    Digit(d, 3, 214);
    Digit(d, 4, 2147);
    Digit(d, 5, 21474);
    Digit(d, 6, 214748);
    Digit(d, 7, 2147483);
    Digit(d, 8, 21474836);
    Digit(d, 9, 214748365);
    assert d[..10] == d;
  }

  /** One more digit: ten times the value so far, plus that digit. */
  lemma DecimalStep(d: string, c: char)
    requires forall k :: 0 <= k < |d| ==> IsDigit(d[k])
    requires IsDigit(c)
    ensures DecimalValue(d + [c]) == DecimalValue(d) * 10 + (c as int - '0' as int)
  {
    assert (d + [c])[..|d|] == d;
  }

  /** The ten digits of 2^32 - 1. */
  lemma DecimalValueOfMaxUnsigned()
    ensures DecimalValue("4294967295") == 4294967295
  {
    var d := "4294967295";
    assert d[..1] == "4";
    Digit(d, 1, 4);
    Digit(d, 2, 42);
    Digit(d, 3, 429);
    Digit(d, 4, 4294);
    Digit(d, 5, 42949);
    Digit(d, 6, 429496);
    Digit(d, 7, 4294967);
    Digit(d, 8, 42949672);
    Digit(d, 9, 429496729);
    assert d[..10] == d;
  }

  /** The value of the first k + 1 digits of `d`, from the value of the first k. */
  lemma Digit(d: string, k: nat, v: nat)
    requires k < |d| && forall j :: 0 <= j < |d| ==> IsDigit(d[j])
    requires DecimalValue(d[..k]) == v
    ensures DecimalValue(d[..k + 1]) == v * 10 + (d[k] as int - '0' as int)
  {
    assert d[..k + 1] == d[..k] + [d[k]];
    DecimalStep(d[..k], d[k]);
  }

  /** %u takes a sign: "-1" converts, is stored as -1, and the window starts at line 1. */
  lemma SignedLineExample()
    ensures ReportError("0:-1(1):") == ErrorReport(-1, 1, 1, 21)
  {
    var log := "0:-1(1):";
    ConversionIs(log, 0, 1, "0");
    SkipSpaceIs(log, 2, 2);
    DigitsEndIs(log, 3, 4);
    assert log[3..4] == "1";
    assert ScanConversion(log, 2) == Some(Converted(-1, 4));
    assert log[5..6] == "1";
    ConversionIs(log, 5, 6, "1");
    assert ScanSourceLineColumn(log) == Conversions(3, Some(-1), Some(1));
  }
}
