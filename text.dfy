/** Text helpers the engines rely on: Python's `str` and `int` for integers,
    `'\n'.join` and `split`, and the rendered snapshot of a grid. */
module Text {
  import opened Wrappers
  import opened Cells

  predicate IsDigit(c: char)
  {
    '0' <= c <= '9'
  }

  predicate AllDigits(s: string)
  {
    forall k :: 0 <= k < |s| ==> IsDigit(s[k])
  }

  function DigitChar(d: int): (c: char)
    requires 0 <= d < 10
    ensures IsDigit(c)
  {
    ('0' as int + d) as char
  }

  function DigitValue(c: char): (d: int)
    requires IsDigit(c)
    ensures 0 <= d < 10 && DigitChar(d) == c
  {
    c as int - '0' as int
  }

  /** `str(n)` for a non-negative integer: decimal, no leading zeros. */
  function NatToString(n: nat): (s: string)
    decreases n
  {
    if n < 10 then [DigitChar(n)] else NatToString(n / 10) + [DigitChar(n % 10)]
  }

  /** `str(n)` for any integer: a `-` exactly for a negative `n`, and
      otherwise only decimal digits. */
  function IntToString(n: int): (s: string)
    ensures |s| > 0 && (s[0] == '-' <==> n < 0)
    ensures n >= 0 ==> AllDigits(s)
    ensures n < 0 ==> AllDigits(s[1..])
  {
    if n < 0 then
      NatToStringDigits(-n);
      "-" + NatToString(-n)
    else
      NatToStringDigits(n);
      NatToString(n)
  }

  /** The value of a string of decimal digits. */
  function DigitsValue(s: string): nat
    requires AllDigits(s)
  {
    if |s| == 0 then 0 else DigitsValue(s[..|s| - 1]) * 10 + DigitValue(s[|s| - 1])
  }

  predicate IsSpace(c: char)
  {
    c == ' ' || c == '\t' || c == '\n' || c == '\r' || c == '\U{000B}' || c == '\U{000C}'
  }

  function StripLeft(s: string): string
  {
    if |s| > 0 && IsSpace(s[0]) then StripLeft(s[1..]) else s
  }

  function StripRight(s: string): string
  {
    if |s| > 0 && IsSpace(s[|s| - 1]) then StripRight(s[..|s| - 1]) else s
  }

  /** `int(s)`: surrounding white space, an optional sign, then decimal digits. */
  function ParseInt(s: string): (r: Result<int>)
    ensures r.Ok? ==> |StripRight(StripLeft(s))| > 0
    ensures r.Err? ==> r.error == ValueError
    ensures |s| > 0 && AllDigits(s) ==> r == Ok(DigitsValue(s))
  {
    var u := StripRight(StripLeft(s));
    if |u| > 0 && (u[0] == '-' || u[0] == '+') then
      var d := u[1..];
      if |d| > 0 && AllDigits(d) then
        var v: int := DigitsValue(d);
        Ok(if u[0] == '-' then -v else v)
      else Err(ValueError)
    else if |u| > 0 && AllDigits(u) then Ok(DigitsValue(u))
    else Err(ValueError)
  }

  lemma {:induction false} NatToStringDigits(n: nat)
    ensures |NatToString(n)| > 0 && AllDigits(NatToString(n))
    ensures DigitsValue(NatToString(n)) == n
    decreases n
  {
    var s := NatToString(n);
    if n >= 10 {
      NatToStringDigits(n / 10);
      assert s[..|s| - 1] == NatToString(n / 10);
    }
  }

  /** `int(str(n)) == n`: the rendered generation and population read back. */
  lemma IntRoundTrip(n: int)
    ensures ParseInt(IntToString(n)) == Ok(n)
  {
    var m := if n < 0 then -n else n;
    NatToStringDigits(m);
    var s := IntToString(n);
    assert s[0] == '-' || IsDigit(s[0]);
    assert StripLeft(s) == s;
    assert IsDigit(s[|s| - 1]);
    assert StripRight(s) == s;
    if n < 0 {
      assert s[1..] == NatToString(m);
    }
  }

  /** Python's `""[:-1] == ""`: the last character dropped, if any. */
  function DropLast(s: string): string
  {
    if |s| == 0 then "" else s[..|s| - 1]
  }

  // ---------------------------------------------------------------------
  // Joining and splitting lines
  // ---------------------------------------------------------------------

  /** `sep.join(parts)`. */
  function Join(parts: seq<string>, sep: char): string
  {
    if |parts| == 0 then ""
    else if |parts| == 1 then parts[0]
    else parts[0] + [sep] + Join(parts[1..], sep)
  }

  /** The index of the first `sep` in `s`, or `|s|` when there is none. */
  function Find(s: string, sep: char): (k: nat)
    ensures k <= |s|
    ensures forall m :: 0 <= m < k ==> s[m] != sep
    ensures k < |s| ==> s[k] == sep
  {
    if |s| == 0 then 0 else if s[0] == sep then 0 else 1 + Find(s[1..], sep)
  }

  /** `s.split(sep)`: always at least one part. */
  function Split(s: string, sep: char): (parts: seq<string>)
    ensures |parts| >= 1
    decreases |s|
  {
    var k := Find(s, sep);
    if k == |s| then [s] else [s[..k]] + Split(s[k + 1..], sep)
  }

  predicate Free(s: string, sep: char)
  {
    forall m :: 0 <= m < |s| ==> s[m] != sep
  }

  lemma FindFirst(a: string, b: string, sep: char)
    requires Free(a, sep)
    ensures Find(a + [sep] + b, sep) == |a|
    ensures Free(a, sep) ==> Find(a, sep) == |a|
  {
    var s := a + [sep] + b;
    var k := Find(s, sep);
    assert s[|a|] == sep;
    FindNone(a, sep);
  }

  lemma FindNone(a: string, sep: char)
    requires Free(a, sep)
    ensures Find(a, sep) == |a|
  {
  }

  /** Splitting a join gives the parts back, when no part holds the separator. */
  lemma {:induction false} SplitJoin(parts: seq<string>, sep: char)
    requires |parts| >= 1
    requires forall p :: 0 <= p < |parts| ==> Free(parts[p], sep)
    ensures Split(Join(parts, sep), sep) == parts
  {
    var s := Join(parts, sep);
    if |parts| == 1 {
      FindNone(parts[0], sep);
    } else {
      var rest := Join(parts[1..], sep);
      FindFirst(parts[0], rest, sep);
      var k := |parts[0]|;
      assert s[..k] == parts[0];
      assert s[k + 1..] == rest;
      SplitJoin(parts[1..], sep);
      assert [parts[0]] + parts[1..] == parts;
    }
  }

  // ---------------------------------------------------------------------
  // Rendering a grid
  // ---------------------------------------------------------------------

  /** `'\n'.join(''.join(row) for row in grid)`: a row's cells are its characters. */
  function Render(g: Grid): string
  {
    Join(g, '\n')
  }

  /** What the output file holds: the generation, the population, then the grid. */
  function Snapshot(generation: int, population: int, g: Grid): string
  {
    "gen: " + IntToString(generation) + "\n" + "pop: " + IntToString(population) + "\n" + Render(g)
  }

  predicate NoNewline(g: Grid)
  {
    forall i :: 0 <= i < |g| ==> Free(g[i], '\n')
  }

  /** The rendered grid splits back into its rows, one line per row of
      exactly `cols` characters, with no trailing newline. */
  lemma RenderLines(g: Grid, rows: int, cols: int)
    requires Shaped(g, rows, cols) && |g| > 0 && NoNewline(g)
    ensures Split(Render(g), '\n') == g
    ensures forall i :: 0 <= i < |g| ==> |Split(Render(g), '\n')[i]| == Dim(cols)
    ensures Dim(cols) > 0 ==> Render(g)[|Render(g)| - 1] != '\n'
  {
    SplitJoin(g, '\n');
    JoinEndsWithLast(g, '\n');
    var s, last := Render(g), g[|g| - 1];
    if Dim(cols) > 0 {
      assert s[|s| - 1] == s[|s| - |last|..][|last| - 1];
    }
  }

  /** A join ends with its last part. */
  lemma {:induction false} JoinEndsWithLast(parts: seq<string>, sep: char)
    requires |parts| >= 1
    ensures |Join(parts, sep)| >= |parts[|parts| - 1]|
    ensures Join(parts, sep)[|Join(parts, sep)| - |parts[|parts| - 1]|..] == parts[|parts| - 1]
  {
    if |parts| > 1 {
      JoinEndsWithLast(parts[1..], sep);
    }
  }

  lemma IntToStringFree(n: int)
    ensures Free(IntToString(n), '\n')
  {
    NatToStringDigits(if n < 0 then -n else n);
  }

  /** The snapshot splits into the two header lines followed by the grid rows. */
  lemma SnapshotLines(generation: int, population: int, g: Grid)
    requires |g| > 0 && NoNewline(g)
    ensures Split(Snapshot(generation, population, g), '\n')
         == ["gen: " + IntToString(generation), "pop: " + IntToString(population)] + g
  {
    var h1 := "gen: " + IntToString(generation);
    var h2 := "pop: " + IntToString(population);
    var parts := [h1, h2] + g;
    IntToStringFree(generation);
    IntToStringFree(population);
    assert parts[1..] == [h2] + g && parts[2..] == g;
    assert Join(parts, '\n') == h1 + ['\n'] + (h2 + ['\n'] + Join(g, '\n'));
    assert Snapshot(generation, population, g) == Join(parts, '\n');
    forall p | 0 <= p < |parts| ensures Free(parts[p], '\n') {
      if p >= 2 { assert parts[p] == g[p - 2]; }
    }
    SplitJoin(parts, '\n');
  }
}
