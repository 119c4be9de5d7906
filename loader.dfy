/**
 Loading a pattern file. The file is given as its lines, each as the line
 reader returns it (with its trailing newline, if any). Line 0 holds the
 dimensions, read as by `sscanf(line, "%d %d", ...)`; line k, for k in
 1..rows, holds body row k, whose cell j is the character code of column j
 minus the code of '0'.
 */
module Loader {
  import opened Life
  import opened Matrix

  datatype Option<T> = None | Some(value: T)

  datatype LoadError =
    | MissingDimensions                        // the file has no first line
    | MalformedDimensions                      // the first line does not start with two integers
    | InvalidDimensions(rows: int, cols: int)  // a dimension is zero or negative
    | MissingRow(row: nat)                     // the file ends before body row `row`
    | ShortRow(row: nat)                       // body row `row` has fewer than `cols` characters

  datatype Loaded = Loaded(rows: nat, cols: nat, grid: seq<seq<int>>)

  datatype Result = Ok(value: Loaded) | Err(error: LoadError)

  // ---------------------------------------------------------------------------
  // Reading an integer as %d does

  /** White space as the C locale's `isspace` sees it: space, \t, \n, \v, \f, \r. */
  predicate IsSpace(c: char) {
    c == ' ' || '\t' <= c <= '\r'
  }

  predicate IsDigit(c: char) {
    '0' <= c <= '9'
  }

  predicate AllDigits(d: string) {
    forall k :: 0 <= k < |d| ==> IsDigit(d[k])
  }

  /** The first position at or after `p` that does not hold white space. */
  function SkipSpaces(s: string, p: nat): (q: nat)
    requires p <= |s|
    ensures p <= q <= |s|
    ensures forall k :: p <= k < q ==> IsSpace(s[k])
    ensures q == |s| || !IsSpace(s[q])
    decreases |s| - p
  {
    if p < |s| && IsSpace(s[p]) then SkipSpaces(s, p + 1) else p
  }

  /** The end of the run of digits starting at `p`. */
  function DigitsEnd(s: string, p: nat): (q: nat)
    requires p <= |s|
    ensures p <= q <= |s| && AllDigits(s[p..q])
    ensures q == |s| || !IsDigit(s[q])
    decreases |s| - p
  {
    if p < |s| && IsDigit(s[p]) then DigitsEnd(s, p + 1) else p
  }

  /** The value of a string of decimal digits, most significant first. */
  function DigitsValue(d: string): nat
    requires AllDigits(d)
  {
    if |d| == 0 then 0 else DigitsValue(d[..|d| - 1]) * 10 + (d[|d| - 1] as int - '0' as int)
  }

  /** The run of digits at `b`: its value and the position after it, or None when there is none. */
  function ScanDigits(s: string, b: nat): (r: Option<(int, nat)>)
    requires b <= |s|
    ensures r.Some? ==> b < r.value.1 <= |s|
  {
    var e := DigitsEnd(s, b);
    if e == b then None else Some((DigitsValue(s[b..e]) as int, e))
  }

  /**
   One %d conversion starting at `p`: leading white space is skipped, then an
   optional sign and at least one digit are read. The result is the value
   and the position just after the last digit; None is a matching failure.
   */
  function ScanInt(s: string, p: nat): (r: Option<(int, nat)>)
    requires p <= |s|
    ensures r.Some? ==> p < r.value.1 <= |s|
  {
    var a := SkipSpaces(s, p);
    if a < |s| && s[a] == '-' then
      match ScanDigits(s, a + 1)
      case None => None
      case Some((v, e)) => Some((-v, e))
    else if a < |s| && s[a] == '+' then ScanDigits(s, a + 1)
    else ScanDigits(s, a)
  }

  /**
   The format "%d %d": two conversions, the second starting where the first
   stopped. The blank between them matches any run of white space, which the
   second %d skips anyway.
   */
  function ScanDims(line: string): (r: Option<(int, int)>)
    ensures r.Some? <==> ScanInt(line, 0).Some? && ScanInt(line, ScanInt(line, 0).value.1).Some?
    ensures r.Some? ==> r.value == (ScanInt(line, 0).value.0, ScanInt(line, ScanInt(line, 0).value.1).value.0)
  {
    match ScanInt(line, 0)
    case None => None
    case Some((rows, p)) =>
      match ScanInt(line, p)
      case None => None
      case Some((cols, _)) => Some((rows, cols))
  }

  // ---------------------------------------------------------------------------
  // The file

  /** The value stored for a character of a body line. */
  function CellOf(c: char): int {
    c as int - '0' as int
  }

  /** A cell character becomes its digit value: '0' is dead, '1' alive. */
  lemma CellOfDigit(c: char)
    ensures IsDigit(c) <==> 0 <= CellOf(c) <= 9
    ensures CellOf(c) == 1 <==> c == '1'
    ensures CellOf(c) == 0 <==> c == '0'
  {
  }

  /** Body row k is present and has at least `cols` characters. */
  predicate RowOk(lines: seq<string>, cols: nat, k: nat) {
    k < |lines| && |lines[k]| >= cols
  }

  /** `k` is the first body row from `i` on that is missing or short. */
  predicate FirstBad(lines: seq<string>, rows: nat, cols: nat, i: nat, k: nat) {
    i <= k <= rows && !RowOk(lines, cols, k) && forall k' :: i <= k' < k ==> RowOk(lines, cols, k')
  }

  /** There is only one first bad row. */
  lemma FirstBadUnique(lines: seq<string>, rows: nat, cols: nat, i: nat, k: nat, k': nat)
    requires FirstBad(lines, rows, cols, i, k) && FirstBad(lines, rows, cols, i, k')
    ensures k == k'
  {
  }

  /** Checks body rows i..rows in order and reports the first missing or short one. */
  function CheckRows(lines: seq<string>, rows: nat, cols: nat, i: nat): (e: Option<LoadError>)
    decreases rows + 1 - i
    ensures e.None? <==> forall k :: i <= k <= rows ==> RowOk(lines, cols, k)
    ensures e.Some? ==> (e.value.MissingRow? || e.value.ShortRow?) && FirstBad(lines, rows, cols, i, e.value.row)
    ensures e.Some? ==> (e.value.MissingRow? <==> e.value.row >= |lines|)
  {
    if i > rows then None
    else if i >= |lines| then assert !RowOk(lines, cols, i); Some(MissingRow(i))
    else if |lines[i]| < cols then assert !RowOk(lines, cols, i); Some(ShortRow(i))
    else CheckRows(lines, rows, cols, i + 1)
  }

  /** The cells of one body line. */
  function RowOf(line: string, cols: nat): seq<int>
    requires cols <= |line|
  {
    seq(cols, j requires 0 <= j < cols => CellOf(line[j]))
  }

  /** The grid of a file whose body rows are all present: row 0 is the sentinel [rows, cols]. */
  function GridOf(lines: seq<string>, rows: nat, cols: nat): seq<seq<int>>
    requires forall k :: 1 <= k <= rows ==> RowOk(lines, cols, k)
  {
    seq(rows + 1, k requires 0 <= k <= rows => if k == 0 then [rows as int, cols as int] else assert RowOk(lines, cols, k); RowOf(lines[k], cols))
  }

  /** The dimensions on the first line, if it has two integers. */
  function Dims(lines: seq<string>): Option<(int, int)> {
    if |lines| == 0 then None else ScanDims(lines[0])
  }

  /** Both dimensions were read and both are positive. */
  predicate GoodDims(lines: seq<string>) {
    Dims(lines).Some? && Dims(lines).value.0 > 0 && Dims(lines).value.1 > 0
  }

  /** The grid a pattern file describes, or the reason it is rejected. */
  function Parse(lines: seq<string>): (r: Result)
    ensures r.Ok? <==> (GoodDims(lines) &&
      forall k :: 1 <= k <= Dims(lines).value.0 ==> RowOk(lines, Dims(lines).value.1, k))
    ensures r.Ok? ==>
      && (r.value.rows as int, r.value.cols as int) == Dims(lines).value
      && IsGrid(r.value.grid, r.value.rows, r.value.cols)
      && r.value.grid[0] == [r.value.rows as int, r.value.cols as int]
      && forall i, j :: InBounds(r.value.rows, r.value.cols, i, j) ==>
           RowOk(lines, r.value.cols, i) && r.value.grid[i][j] == CellOf(lines[i][j])
    ensures r.Err? ==> match r.error
      case MissingDimensions => |lines| == 0
      case MalformedDimensions => |lines| > 0 && Dims(lines).None?
      case InvalidDimensions(a, b) => Dims(lines) == Some((a, b)) && (a <= 0 || b <= 0)
      case MissingRow(k) => GoodDims(lines) && FirstBad(lines, Dims(lines).value.0, Dims(lines).value.1, 1, k) && k >= |lines|
      case ShortRow(k) => GoodDims(lines) && FirstBad(lines, Dims(lines).value.0, Dims(lines).value.1, 1, k) && k < |lines|
  {
    if |lines| == 0 then Err(MissingDimensions)
    else match ScanDims(lines[0])
      case None => Err(MalformedDimensions)
      case Some((rows, cols)) =>
        if rows <= 0 || cols <= 0 then Err(InvalidDimensions(rows, cols))
        else match CheckRows(lines, rows, cols, 1)
          case Some(e) => Err(e)
          case None => Ok(Loaded(rows, cols, GridOf(lines, rows, cols)))
  }

  // ---------------------------------------------------------------------------
  // Writing a pattern file that reading gives back

  /** The decimal digits of `n`, most significant first, without leading zeros. */
  function NatString(n: nat): (d: string)
    ensures |d| > 0 && AllDigits(d) && DigitsValue(d) == n
    decreases n
  {
    var last := ['0' + (n % 10) as char];
    if n < 10 then last
    else
      var d := NatString(n / 10) + last;
      assert d[..|d| - 1] == NatString(n / 10);
      d
  }

  /** `x` written in decimal, with a '-' when negative. */
  function Numeral(x: int): string {
    if x < 0 then "-" + NatString(-x) else NatString(x)
  }

  /** The character a 0/1 cell is written as. */
  function CellChar(v: int): char {
    if v == 1 then '1' else '0'
  }

  /** The line for one body row: a character per cell, then a newline. */
  function RowText(row: seq<int>): (t: string)
    ensures |t| == |row| + 1 && t[|row|] == '\n'
    ensures forall j :: 0 <= j < |row| ==> t[j] == CellChar(row[j])
  {
    seq(|row|, j requires 0 <= j < |row| => CellChar(row[j])) + "\n"
  }

  /** The dimension line of a pattern file. */
  function DimensionLine(rows: int, cols: int): (line: string)
    ensures var p := |Numeral(rows)|;
      && |line| == p + |Numeral(cols)| + 2
      && line[..p] == Numeral(rows) && line[p] == ' '
      && line[p + 1..|line| - 1] == Numeral(cols) && line[|line| - 1] == '\n'
  {
    Numeral(rows) + " " + Numeral(cols) + "\n"
  }

  /** A pattern file for grid `g`: the dimension line, then one line per body row. */
  function Format(g: seq<seq<int>>, rows: nat, cols: nat): (lines: seq<string>)
    requires IsGrid(g, rows, cols)
    ensures |lines| == rows + 1 && lines[0] == DimensionLine(rows, cols)
    ensures forall k :: 1 <= k <= rows ==> lines[k] == RowText(g[k])
  {
    seq(rows + 1, k requires 0 <= k <= rows => if k == 0 then DimensionLine(rows, cols) else RowText(g[k]))
  }

  // ---------------------------------------------------------------------------
  // Properties of reading

  /** Skipping white space over a run of blanks stops right after it. */
  lemma {:induction false} SkipSpacesOver(s: string, p: nat, n: nat)
    requires p + n <= |s|
    requires forall k :: p <= k < p + n ==> IsSpace(s[k])
    requires p + n == |s| || !IsSpace(s[p + n])
    ensures SkipSpaces(s, p) == p + n
    decreases n
  {
    if n > 0 {
      SkipSpacesOver(s, p + 1, n - 1);
    }
  }

  /** The run of digits starting at `p` ends where the digits of `s[p..p + n]` do. */
  lemma {:induction false} DigitsEndOver(s: string, p: nat, n: nat)
    requires p + n <= |s|
    requires AllDigits(s[p..p + n])
    requires p + n == |s| || !IsDigit(s[p + n])
    ensures DigitsEnd(s, p) == p + n
    decreases n
  {
    if n > 0 {
      assert IsDigit(s[p..p + n][0]);
      assert s[p + 1..p + 1 + (n - 1)] == s[p..p + n][1..];
      DigitsEndOver(s, p + 1, n - 1);
    }
  }

  /** The digits `d` at `b`, followed by a non-digit, scan as the value of `d`. */
  lemma {:induction false} ScanDigitsAt(s: string, b: nat, d: string)
    requires |d| > 0 && AllDigits(d)
    requires b + |d| <= |s| && s[b..b + |d|] == d && (b + |d| == |s| || !IsDigit(s[b + |d|]))
    ensures ScanDigits(s, b) == Some((DigitsValue(d) as int, b + |d|))
  {
    DigitsEndOver(s, b, |d|);
  }

  /** The value of the digits `d` after the sign `sign`: negated after '-'. */
  function SignedValue(sign: string, d: string): int
    requires AllDigits(d)
  {
    if sign == "-" then -(DigitsValue(d) as int) else DigitsValue(d)
  }

  /**
   After white space from `p` up to `a`, an optional sign and a non-empty run
   of digits `d` (leading zeros allowed) followed by a non-digit, %d reads the
   value of `d`, negated after '-', and stops after the last digit.
   */
  lemma {:induction false} ScanIntReads(s: string, p: nat, a: nat, sign: string, d: string)
    requires p <= a <= |s| && forall k :: p <= k < a ==> IsSpace(s[k])
    requires sign == "" || sign == "+" || sign == "-"
    requires |d| > 0 && AllDigits(d)
    requires a + |sign| + |d| <= |s|
    requires s[a..a + |sign|] == sign && s[a + |sign|..a + |sign| + |d|] == d
    requires a + |sign| + |d| == |s| || !IsDigit(s[a + |sign| + |d|])
    ensures ScanInt(s, p) == Some((SignedValue(sign, d), a + |sign| + |d|))
  {
    var b := a + |sign|;
    if sign == "" {
      assert s[a] == s[b..b + |d|][0] == d[0];
    } else {
      assert s[a] == s[a..b][0] == sign[0];
    }
    SkipSpacesOver(s, p, a - p);
    ScanDigitsAt(s, b, d);
    var v := ScanDigits(s, b);
    if sign == "-" {
      assert ScanInt(s, p) == Some((-v.value.0, v.value.1));
    } else if sign == "+" {
      assert ScanInt(s, p) == v;
    } else {
      assert !IsDigit('-') && !IsDigit('+');
      assert ScanInt(s, p) == v;
    }
  }

  /** %d fails when no digit follows the white space and the optional sign. */
  lemma {:induction false} ScanIntRejects(s: string, p: nat, a: nat)
    requires p <= a <= |s| && forall k :: p <= k < a ==> IsSpace(s[k])
    requires a == |s| || !IsSpace(s[a])
    requires var b := if a < |s| && (s[a] == '+' || s[a] == '-') then a + 1 else a;
      b == |s| || !IsDigit(s[b])
    ensures ScanInt(s, p) == None
  {
    SkipSpacesOver(s, p, a - p);
  }

  /** A leading zero does not change the value of a run of digits. */
  lemma {:induction false} LeadingZeroIgnored(d: string)
    requires AllDigits(d)
    ensures AllDigits("0" + d) && DigitsValue("0" + d) == DigitsValue(d)
    decreases |d|
  {
    if |d| > 0 {
      var d' := d[..|d| - 1];
      assert ("0" + d)[..|d|] == "0" + d';
      LeadingZeroIgnored(d');
    }
  }

  /** A numeral is a '-' and the digits of a negative number, or the digits of any other. */
  lemma NumeralShape(x: int)
    ensures |Numeral(x)| > 0
    ensures x < 0 ==> Numeral(x)[0] == '-' && Numeral(x)[1..] == NatString(-x)
    ensures x >= 0 ==> IsDigit(Numeral(x)[0]) && Numeral(x) == NatString(x)
  {
    if x < 0 {
      assert Numeral(x)[1..] == NatString(-x);
    }
  }

  /** %d reads back a negative numeral: the '-' and then the digits of its magnitude. */
  lemma {:induction false} ScanIntReadsNegative(s: string, p: nat, n: nat, x: int)
    requires x < 0 && p + n + |Numeral(x)| <= |s|
    requires forall k :: p <= k < p + n ==> IsSpace(s[k])
    requires s[p + n..p + n + |Numeral(x)|] == Numeral(x)
    requires p + n + |Numeral(x)| == |s| || !IsDigit(s[p + n + |Numeral(x)|])
    ensures ScanInt(s, p) == Some((x, p + n + |Numeral(x)|))
  {
    var a := p + n;
    var e := a + |Numeral(x)|;
    var d := NatString(-x);
    assert Numeral(x) == "-" + d;
    assert s[a..e][1..] == d && s[a..e][..1] == "-";
    assert s[a + 1..e] == s[a..e][1..] && s[a..a + 1] == s[a..e][..1];
    ScanIntReads(s, p, a, "-", d);
  }

  /** %d reads back a numeral without a sign: the digits of the number itself. */
  lemma {:induction false} ScanIntReadsNonNegative(s: string, p: nat, n: nat, x: int)
    requires x >= 0 && p + n + |Numeral(x)| <= |s|
    requires forall k :: p <= k < p + n ==> IsSpace(s[k])
    requires s[p + n..p + n + |Numeral(x)|] == Numeral(x)
    requires p + n + |Numeral(x)| == |s| || !IsDigit(s[p + n + |Numeral(x)|])
    ensures ScanInt(s, p) == Some((x, p + n + |Numeral(x)|))
  {
    var a := p + n;
    NumeralShape(x);
    ScanIntReads(s, p, a, "", NatString(x));
  }

  /** %d reads back what Numeral writes, after any white space and before any non-digit. */
  lemma {:induction false} ScanIntReadsNumeral(s: string, p: nat, n: nat, x: int)
    requires p + n + |Numeral(x)| <= |s|
    requires forall k :: p <= k < p + n ==> IsSpace(s[k])
    requires s[p + n..p + n + |Numeral(x)|] == Numeral(x)
    requires p + n + |Numeral(x)| == |s| || !IsDigit(s[p + n + |Numeral(x)|])
    ensures ScanInt(s, p) == Some((x, p + n + |Numeral(x)|))
  {
    if x < 0 {
      ScanIntReadsNegative(s, p, n, x);
    } else {
      ScanIntReadsNonNegative(s, p, n, x);
    }
  }

  /** The dimension line written for (rows, cols) reads back as (rows, cols). */
  lemma ScanDimsReadsDimensionLine(rows: int, cols: int)
    ensures ScanDims(DimensionLine(rows, cols)) == Some((rows, cols))
  {
    var line := DimensionLine(rows, cols);
    var p := |Numeral(rows)|;
    ScanIntReadsNumeral(line, 0, 0, rows);
    ScanIntReadsNumeral(line, p, 1, cols);
  }

  /** "%d %d" gives the values of its two conversions when both succeed. */
  lemma ScanDimsOf(line: string, x: int, e1: nat, y: int, e2: nat)
    requires e1 <= |line| && ScanInt(line, 0) == Some((x, e1)) && ScanInt(line, e1) == Some((y, e2))
    ensures ScanDims(line) == Some((x, y))
  {
  }

  /**
   "%d %d" on a line that holds white space up to `a1`, an optional sign and
   the digits `d1`, then white space up to `a2`, an optional sign and the
   digits `d2`, then a non-digit or the end of the line, reads the two
   signed values; whatever follows is ignored.
   */
  lemma {:induction false} ScanDimsReads(line: string, a1: nat, sign1: string, d1: string, a2: nat, sign2: string, d2: string)
    requires a1 <= |line| && forall k :: 0 <= k < a1 ==> IsSpace(line[k])
    requires sign1 == "" || sign1 == "+" || sign1 == "-"
    requires sign2 == "" || sign2 == "+" || sign2 == "-"
    requires |d1| > 0 && AllDigits(d1) && |d2| > 0 && AllDigits(d2)
    requires a1 + |sign1| + |d1| <= a2 && a2 + |sign2| + |d2| <= |line|
    requires line[a1..a1 + |sign1|] == sign1 && line[a1 + |sign1|..a1 + |sign1| + |d1|] == d1
    requires !IsDigit(line[a1 + |sign1| + |d1|])
    requires forall k :: a1 + |sign1| + |d1| <= k < a2 ==> IsSpace(line[k])
    requires line[a2..a2 + |sign2|] == sign2 && line[a2 + |sign2|..a2 + |sign2| + |d2|] == d2
    requires a2 + |sign2| + |d2| == |line| || !IsDigit(line[a2 + |sign2| + |d2|])
    ensures ScanDims(line) == Some((SignedValue(sign1, d1), SignedValue(sign2, d2)))
  {
    var e1 := a1 + |sign1| + |d1|;
    ScanIntReads(line, 0, a1, sign1, d1);
    ScanIntReads(line, e1, a2, sign2, d2);
    ScanDimsOf(line, SignedValue(sign1, d1), e1, SignedValue(sign2, d2), a2 + |sign2| + |d2|);
  }

  /** "%d %d" fails when its first conversion finds no digit after the white space and the optional sign. */
  lemma {:induction false} ScanDimsRejectsFirst(line: string, a1: nat)
    requires a1 <= |line| && forall k :: 0 <= k < a1 ==> IsSpace(line[k])
    requires a1 == |line| || !IsSpace(line[a1])
    requires var b := if a1 < |line| && (line[a1] == '+' || line[a1] == '-') then a1 + 1 else a1;
      b == |line| || !IsDigit(line[b])
    ensures ScanDims(line) == None
  {
    ScanIntRejects(line, 0, a1);
  }

  /**
   "%d %d" fails when its first conversion reads the optional sign and the
   digits `d1` but the second finds no digit after the white space up to `a2`
   and the optional sign.
   */
  lemma {:induction false} ScanDimsRejectsSecond(line: string, a1: nat, sign1: string, d1: string, a2: nat)
    requires a1 <= |line| && forall k :: 0 <= k < a1 ==> IsSpace(line[k])
    requires sign1 == "" || sign1 == "+" || sign1 == "-"
    requires |d1| > 0 && AllDigits(d1)
    requires a1 + |sign1| + |d1| <= a2 <= |line|
    requires line[a1..a1 + |sign1|] == sign1 && line[a1 + |sign1|..a1 + |sign1| + |d1|] == d1
    requires a1 + |sign1| + |d1| == |line| || !IsDigit(line[a1 + |sign1| + |d1|])
    requires forall k :: a1 + |sign1| + |d1| <= k < a2 ==> IsSpace(line[k])
    requires a2 == |line| || !IsSpace(line[a2])
    requires var b := if a2 < |line| && (line[a2] == '+' || line[a2] == '-') then a2 + 1 else a2;
      b == |line| || !IsDigit(line[b])
    ensures ScanDims(line) == None
  {
    var e1 := a1 + |sign1| + |d1|;
    ScanIntReads(line, 0, a1, sign1, d1);
    ScanIntRejects(line, e1, a2);
  }

  /** "%d %d" accepts a '+' sign. */
  lemma ScanDimsPlusSign()
    ensures ScanDims("+3 4\n") == Some((3, 4))
  {
    assert SignedValue("+", "3") == 3 && SignedValue("", "4") == 4;
    ScanDimsReads("+3 4\n", 0, "+", "3", 3, "", "4");
  }

  /** "%d %d" accepts leading zeros. */
  lemma ScanDimsLeadingZeros()
    ensures ScanDims("007 4\n") == Some((7, 4))
  {
    assert DigitsValue("7") == 7 && DigitsValue("4") == 4;
    LeadingZeroIgnored("7");
    assert "0" + "7" == "07";
    LeadingZeroIgnored("07");
    assert "0" + "07" == "007";
    assert SignedValue("", "007") == 7 && SignedValue("", "4") == 4;
    ScanDimsReads("007 4\n", 0, "", "007", 4, "", "4");
  }

  /** "%d %d" needs no blank before a '-' that starts the second number. */
  lemma ScanDimsMinusWithoutBlank()
    ensures ScanDims("3-4\n") == Some((3, -4))
  {
    assert SignedValue("", "3") == 3 && SignedValue("-", "4") == -4;
    ScanDimsReads("3-4\n", 0, "", "3", 1, "-", "4");
  }

  /** "%d %d" ignores text after the second number. */
  lemma ScanDimsTrailingText()
    ensures ScanDims("3 4 5\n") == Some((3, 4))
  {
    assert SignedValue("", "3") == 3 && SignedValue("", "4") == 4;
    ScanDimsReads("3 4 5\n", 0, "", "3", 2, "", "4");
  }

  /** "%d %d" rejects a line where a conversion finds no digit. */
  lemma ScanDimsNoDigit()
    ensures ScanDims("3x4\n") == None
    ensures ScanDims("- 3 4\n") == None
  {
    ScanDimsRejectsSecond("3x4\n", 0, "", "3", 1);
    ScanDimsRejectsFirst("- 3 4\n", 0);
  }

  /**
   A line counts with its newline: a body line one cell short that ends in a
   newline is accepted, and the newline's cell holds '\n' - '0' (-38).
   */
  lemma NewlineCellKept()
    ensures Parse(["1 3\n", "01\n"]) == Ok(Loaded(1, 3, [[1, 3], [0, 1, -38]]))
  {
    var lines := ["1 3\n", "01\n"];
    ScanDimsReads(lines[0], 0, "", "1", 2, "", "3");
    assert Dims(lines) == Some((1, 3)) && GoodDims(lines);
    assert RowOk(lines, 3, 1) && CheckRows(lines, 1, 3, 2) == None;
    assert CheckRows(lines, 1, 3, 1) == None;
    var row := RowOf(lines[1], 3);
    assert |row| == 3;
    assert row[0] == CellOf('0') == 0;
    assert row[1] == CellOf('1') == 1;
    assert row[2] == CellOf('\n') == -38;
    assert row == [0, 1, -38];
    var g := GridOf(lines, 1, 3);
    assert g == [[1, 3], row];
    assert Parse(lines) == Ok(Loaded(1, 3, g));
  }

  /** The same line without its newline is too short, and the file is rejected. */
  lemma ShortLastLineRejected()
    ensures Parse(["1 3\n", "01"]) == Err(ShortRow(1))
  {
    ScanDimsReads("1 3\n", 0, "", "1", 2, "", "3");
  }

  /** Reading the file written for a 0/1 grid whose sentinel holds its dimensions gives that grid back. */
  lemma ParseFormat(g: seq<seq<int>>, rows: nat, cols: nat)
    requires IsGrid(g, rows, cols) && Binary(g, rows, cols)
    requires rows > 0 && cols > 0 && g[0] == [rows as int, cols as int]
    ensures Parse(Format(g, rows, cols)) == Ok(Loaded(rows, cols, g))
  {
    var lines := Format(g, rows, cols);
    ScanDimsReadsDimensionLine(rows, cols);
    assert Dims(lines) == Some((rows as int, cols as int));
    var r := Parse(lines);
    assert r.Ok?;
    forall i | 1 <= i <= rows
      ensures r.value.grid[i] == g[i]
    {
      forall j | 0 <= j < cols
        ensures r.value.grid[i][j] == g[i][j]
      {
        assert lines[i][j] == CellChar(g[i][j]);
      }
    }
    assert r.value.grid == g;
  }

  /** A file whose dimension line has a dimension that is not positive is rejected with the dimensions read. */
  lemma BadDimensionsRejected(rows: int, cols: int, body: seq<string>)
    requires rows <= 0 || cols <= 0
    ensures Parse([DimensionLine(rows, cols)] + body) == Err(InvalidDimensions(rows, cols))
  {
    var lines := [DimensionLine(rows, cols)] + body;
    ScanDimsReadsDimensionLine(rows, cols);
    assert Dims(lines) == Some((rows, cols));
  }

  /** A file that ends before its last body row is rejected at the first missing row. */
  lemma TruncatedFileRejected(g: seq<seq<int>>, rows: nat, cols: nat, n: nat)
    requires IsGrid(g, rows, cols) && cols > 0 && 1 <= n <= rows
    ensures Parse(Format(g, rows, cols)[..n]) == Err(MissingRow(n))
  {
    var lines := Format(g, rows, cols)[..n];
    ScanDimsReadsDimensionLine(rows, cols);
    assert Dims(lines) == Some((rows as int, cols as int));
    assert FirstBad(lines, rows, cols, 1, n);
    var r := Parse(lines);
    FirstBadUnique(lines, rows, cols, 1, r.error.row, n);
  }

  // ---------------------------------------------------------------------------
  // Building the matrix

  /** Fills a new row with the cells of one body line. */
  method ReadRow(line: string, cols: nat) returns (row: array<int>)
    requires cols <= |line|
    ensures fresh(row) && row[..] == RowOf(line, cols)
  {
    row := new int[cols];
    var j := 0;
    while j < cols
      invariant 0 <= j <= cols
      invariant forall l :: 0 <= l < j ==> row[l] == CellOf(line[l])
    {
      row[j] := CellOf(line[j]);
      j := j + 1;
    }
  }

  /**
   Builds the matrix of a file whose dimensions have been read: a sentinel
   row of two cells holding the dimensions, then one row per body line,
   stopping with no matrix at the first line that is missing or too short.
   */
  method ReadBody(lines: seq<string>, rows: nat, cols: nat) returns (m: array?<array<int>>)
    ensures m == null <==> exists k :: 1 <= k <= rows && !RowOk(lines, cols, k)
    ensures m != null ==>
      && fresh(m) && (forall k :: 0 <= k < m.Length ==> fresh(m[k]))
      && IsMatrix(m, rows, cols) && m[0][..] == [rows as int, cols as int]
      && (forall k :: 1 <= k <= rows ==> RowOk(lines, cols, k))
      && Rows(m) == GridOf(lines, rows, cols)
  {
    var sentinel := new int[2];
    sentinel[0], sentinel[1] := rows, cols;
    m := new array<int>[rows + 1](_ => sentinel);
    var i := 1;
    while i <= rows
      invariant 1 <= i <= rows + 1
      invariant fresh(m) && m.Length == rows + 1
      invariant forall k :: 0 <= k <= rows ==> fresh(m[k])
      invariant m[0] == sentinel && sentinel[..] == [rows as int, cols as int]
      invariant forall a, b :: 0 <= a < b < i ==> m[a] != m[b]
      invariant forall k :: 1 <= k < i ==> RowOk(lines, cols, k) && m[k][..] == RowOf(lines[k], cols)
    {
      if i >= |lines| || |lines[i]| < cols {
        assert !RowOk(lines, cols, i);
        return null;
      }
      var row := ReadRow(lines[i], cols);
      assert forall k :: 0 <= k < i ==> m[k] != row;
      m[i] := row;
      i := i + 1;
    }
    assert forall k :: 0 <= k <= rows ==> Rows(m)[k] == GridOf(lines, rows, cols)[k];
  }

  /**
   Reads the dimension line and rejects a file without one, with a malformed
   one or with a dimension that is not positive; then builds the matrix.
   */
  method Load(lines: seq<string>) returns (m: array?<array<int>>, rows: nat, cols: nat)
    ensures m == null <==> Parse(lines).Err?
    ensures m != null ==>
      && fresh(m) && (forall k :: 0 <= k < m.Length ==> fresh(m[k]))
      && IsMatrix(m, rows, cols)
      && Parse(lines) == Ok(Loaded(rows, cols, Rows(m)))
  {
    if |lines| == 0 {
      return null, 0, 0;
    }
    var dims := ScanDims(lines[0]);
    if dims.None? {
      return null, 0, 0;
    }
    if dims.value.0 <= 0 || dims.value.1 <= 0 {
      return null, 0, 0;
    }
    rows, cols := dims.value.0, dims.value.1;
    assert GoodDims(lines) && Dims(lines) == Some((rows as int, cols as int));
    m := ReadBody(lines, rows, cols);
  }
}
