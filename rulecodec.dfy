/** The rule-name codec: `read_rule`, `write_rule`, the `b<digits>s<digits>`
    automaton name and the digit runs `re.findall(r"\d+", name)` finds. */
module RuleCodec {
  import opened Wrappers
  import opened Text

  /** `read_rule`: one `int(c)` per character of the string. */
  function ReadRule(s: string): (r: Result<seq<int>>)
    ensures r.Ok? <==> AllDigits(s)
    ensures r.Err? ==> r.error == ValueError
    ensures r.Ok? ==> |r.value| == |s| && forall k :: 0 <= k < |s| ==> r.value[k] == DigitValue(s[k])
  {
    if |s| == 0 then Ok([])
    else if !IsDigit(s[0]) then Err(ValueError)
    else
      var rest :- ReadRule(s[1..]);
      Ok([DigitValue(s[0])] + rest)
  }

  /** `write_rule`: the concatenation of `str(x)` over the list. Every value
      writes at least one character, and a list without negative values is
      written in digits only, so `read_rule` accepts it. */
  function WriteRule(l: seq<int>): (s: string)
    ensures |s| >= |l|
    ensures (forall k :: 0 <= k < |l| ==> l[k] >= 0) ==> AllDigits(s)
  {
    if |l| == 0 then "" else IntToString(l[0]) + WriteRule(l[1..])
  }

  /** Every value is a single neighbour-count digit. */
  predicate Digits(l: seq<int>)
  {
    forall k :: 0 <= k < |l| ==> 0 <= l[k] <= 9
  }

  /** For single digits `write_rule` writes one character per value. */
  lemma {:induction false} WriteRuleDigits(l: seq<int>)
    requires Digits(l)
    ensures |WriteRule(l)| == |l| && AllDigits(WriteRule(l))
    ensures forall k :: 0 <= k < |l| ==> DigitValue(WriteRule(l)[k]) == l[k]
  {
    if |l| > 0 {
      WriteRuleDigits(l[1..]);
      var w := WriteRule(l);
      assert IntToString(l[0]) == [DigitChar(l[0])];
      forall k | 0 <= k < |l| ensures DigitValue(w[k]) == l[k] {
        if k > 0 { assert w[k] == WriteRule(l[1..])[k - 1]; }
      }
    }
  }

  /** `write_rule(read_rule(s)) == s` for a digit string. */
  lemma {:induction false} WriteReadRule(s: string)
    requires AllDigits(s)
    ensures WriteRule(ReadRule(s).value) == s
  {
    if |s| > 0 {
      WriteReadRule(s[1..]);
      var l := ReadRule(s).value;
      assert l[1..] == ReadRule(s[1..]).value;
      assert l[0] == DigitValue(s[0]) && DigitChar(l[0]) == s[0];
      assert IntToString(l[0]) == NatToString(l[0]) == [s[0]];
      assert WriteRule(l) == [s[0]] + WriteRule(l[1..]);
      assert s == [s[0]] + s[1..];
    }
  }

  /** `read_rule(write_rule(l)) == l` for a list of single digits. */
  lemma {:induction false} ReadWriteRule(l: seq<int>)
    requires Digits(l)
    ensures ReadRule(WriteRule(l)) == Ok(l)
  {
    var w := WriteRule(l);
    WriteRuleDigits(l);
    var r := ReadRule(w);
    assert r.Ok? && |r.value| == |l|;
    forall k | 0 <= k < |l| ensures r.value[k] == l[k] {
      assert r.value[k] == DigitValue(w[k]);
    }
    assert r.value == l;
  }

  /** A value of ten or more does not survive the round trip: it is written as
      several digits and read back as several values. */
  lemma ReadWriteMultiDigit()
    ensures ReadRule(WriteRule([10])) == Ok([1, 0])
  {
    assert NatToString(10) == NatToString(1) + [DigitChar(0)] == "10";
    assert [10][1..] == [];
    assert WriteRule([10]) == "10";
    var r := ReadRule("10");
    assert IsDigit('1') && IsDigit('0') && AllDigits("10");
    assert |r.value| == 2 && r.value[0] == 1 && r.value[1] == 0;
    assert r.value == [1, 0];
  }

  /** The automaton name `b<newborn>s<keepalive>`. */
  function AutomatonName(newborn: seq<int>, keepalive: seq<int>): string
  {
    "b" + WriteRule(newborn) + "s" + WriteRule(keepalive)
  }

  // ---------------------------------------------------------------------
  // re.findall(r"\d+", name)
  // ---------------------------------------------------------------------

  /** The length of the run of digits at the start of `s`. */
  function LeadingDigits(s: string): (k: nat)
    ensures k <= |s| && AllDigits(s[..k])
    ensures k < |s| ==> !IsDigit(s[k])
  {
    if |s| == 0 || !IsDigit(s[0]) then 0
    else
      var k := 1 + LeadingDigits(s[1..]);
      assert s[..k] == [s[0]] + s[1..][..k - 1];
      k
  }

  /** The maximal runs of digits of `s`, left to right. */
  function DigitRuns(s: string): (runs: seq<string>)
    ensures forall r :: 0 <= r < |runs| ==> |runs[r]| > 0 && AllDigits(runs[r])
    decreases |s|
  {
    if |s| == 0 then []
    else if !IsDigit(s[0]) then DigitRuns(s[1..])
    else
      var k := LeadingDigits(s);
      [s[..k]] + DigitRuns(s[k..])
  }

  lemma {:induction false} LeadingDigitsOf(x: string, rest: string)
    requires AllDigits(x)
    requires |rest| == 0 || !IsDigit(rest[0])
    ensures LeadingDigits(x + rest) == |x|
    decreases |x|
  {
    var s := x + rest;
    if |x| > 0 {
      assert s[1..] == x[1..] + rest;
      assert IsDigit(s[0]);
      LeadingDigitsOf(x[1..], rest);
    } else {
      assert s == rest;
    }
  }

  lemma DigitRunsOfRun(x: string, rest: string)
    requires |x| > 0 && AllDigits(x)
    requires |rest| == 0 || !IsDigit(rest[0])
    ensures DigitRuns(x + rest) == [x] + DigitRuns(rest)
  {
    LeadingDigitsOf(x, rest);
    var s := x + rest;
    assert s[..|x|] == x && s[|x|..] == rest;
  }

  /** For a name matching `^(b|B)[0-9]+(s|S)[0-9]+$` the digit runs are the
      two digit strings. */
  lemma DigitRunsOfName(p: char, x: string, q: char, y: string)
    requires p in {'b', 'B'} && q in {'s', 'S'}
    requires |x| > 0 && AllDigits(x) && |y| > 0 && AllDigits(y)
    ensures DigitRuns([p] + x + [q] + y) == [x, y]
  {
    var name := [p] + x + [q] + y;
    assert name[1..] == x + ([q] + y);
    DigitRunsOfRun(x, [q] + y);
    assert ([q] + y)[1..] == y;
    DigitRunsOfRun(y, "");
    assert y + "" == y;
  }
}
