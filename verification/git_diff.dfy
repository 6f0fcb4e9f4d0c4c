/** The parse inside `_gitDiff` (backup.js:43-47): the first line of
    `git diff --numstat <file>` read as the numbers of added and deleted
    lines. */
module GitDiff {
  import opened JsString

  predicate IsDigit(c: char) {
    '0' <= c <= '9'
  }

  predicate AllDigits(s: string) {
    forall i :: 0 <= i < |s| ==> IsDigit(s[i])
  }

  /** The value of a string of decimal digits. */
  function DigitsValue(s: string): nat
    requires AllDigits(s)
  {
    if |s| == 0 then 0
    else DigitsValue(s[..|s| - 1]) * 10 + (s[|s| - 1] as int - '0' as int)
  }

  /** `+tok || 0`: a token of decimal digits gives its value; anything
      else (the empty token, `-` for a binary file, a file name) gives 0,
      because `+tok` is then `NaN` or `0`. */
  function ToNumber(tok: string): (n: nat)
    ensures n != 0 ==> |tok| > 0 && AllDigits(tok)
  {
    if |tok| > 0 && AllDigits(tok) then DigitsValue(tok) else 0
  }

  /** The decimal digits of `n`, as git prints them. */
  function Decimal(n: nat): (s: string)
    ensures |s| > 0 && AllDigits(s)
  {
    var c := ('0' as int + n % 10) as char;
    if n < 10 then [c] else Decimal(n / 10) + [c]
  }

  /** Reading back what git prints gives the number. */
  lemma {:induction false} DecimalRoundTrip(n: nat)
    ensures ToNumber(Decimal(n)) == n
  {
    var s := Decimal(n);
    var c := ('0' as int + n % 10) as char;
    assert s[|s| - 1] == c;
    assert c as int - '0' as int == n % 10;
    if n < 10 {
      assert s[..|s| - 1] == [];
      assert DigitsValue(s) == DigitsValue([]) * 10 + n % 10;
    } else {
      DecimalRoundTrip(n / 10);
      assert s[..|s| - 1] == Decimal(n / 10);
      assert DigitsValue(s) == DigitsValue(Decimal(n / 10)) * 10 + n % 10;
    }
  }

  /** The `{a, d}` that `_gitDiff` returns. */
  datatype Counts = Counts(a: nat, d: nat)

  /** `t.split(/\s+/).map(i => +i || 0)` destructured as `[a = 0, d = 0]`:
      the first token always exists, the second defaults to 0. */
  function DiffStat(t: string): (r: Counts)
  {
    var toks := SplitWs(t);
    Counts(ToNumber(toks[0]), if |toks| > 1 then ToNumber(toks[1]) else 0)
  }

  /** Two words each followed by white space are the two counts. */
  lemma {:induction false} DiffStatWords(w1: string, w2: string, c1: char, c2: char, rest: string)
    requires NoSpace(w1) && NoSpace(w2) && |w2| > 0
    requires IsSpace(c1) && IsSpace(c2)
    ensures DiffStat(w1 + [c1] + w2 + [c2] + rest) == Counts(ToNumber(w1), ToNumber(w2))
  {
    SplitWsTwoWords(w1, w2, c1, c2, rest);
  }

  /** A numstat line `a<TAB>d<TAB>file...` gives back `a` and `d`, whatever
      white space separates the columns and whatever follows. */
  lemma {:induction false} DiffStatNumstat(a: nat, d: nat, c1: char, c2: char, rest: string)
    requires IsSpace(c1) && IsSpace(c2)
    ensures DiffStat(Decimal(a) + [c1] + Decimal(d) + [c2] + rest) == Counts(a, d)
  {
    assert NoSpace(Decimal(a)) && NoSpace(Decimal(d));
    DiffStatWords(Decimal(a), Decimal(d), c1, c2, rest);
    DecimalRoundTrip(a);
    DecimalRoundTrip(d);
  }

  /** A single word counts as additions only: the deletions default to
      0. */
  lemma {:induction false} DiffStatOneWord(w: string)
    requires NoSpace(w)
    ensures DiffStat(w) == Counts(ToNumber(w), 0)
  {
    SplitWsWord(w);
  }

  /** No output (the file is unchanged) counts nothing. */
  lemma {:induction false} DiffStatEmpty()
    ensures DiffStat("") == Counts(0, 0)
  {
  }

  /** Output made only of white space counts nothing. */
  lemma {:induction false} DiffStatBlank(t: string)
    requires forall i :: 0 <= i < |t| ==> IsSpace(t[i])
    ensures DiffStat(t) == Counts(0, 0)
  {
    SplitWsBlank(t);
  }

  /** A binary file, which numstat shows as `-<TAB>-<TAB>file`, counts
      nothing. */
  lemma {:induction false} DiffStatBinary(c1: char, c2: char, rest: string)
    requires IsSpace(c1) && IsSpace(c2)
    ensures DiffStat("-" + [c1] + "-" + [c2] + rest) == Counts(0, 0)
  {
    assert NoSpace("-");
    assert !IsDigit("-"[0]);
    DiffStatWords("-", "-", c1, c2, rest);
  }

  /** The example `3 1 grouplist` counts 3 added and 1 deleted line. */
  lemma {:induction false} DiffStatExample()
    ensures DiffStat("3\t1\tgrouplist\n") == Counts(3, 1)
  {
    assert Decimal(3) == "3" && Decimal(1) == "1";
    DiffStatNumstat(3, 1, '\t', '\t', "grouplist\n");
    assert "3" + ['\t'] + "1" + ['\t'] + "grouplist\n" == "3\t1\tgrouplist\n";
  }
}
