/**
 * Text helpers shared by the history formats: ASCII decimal digits,
 * Python's `str(int)`, `'\n'.join`, `str.rstrip("\n")` and the
 * `print(x, file=fp)` line discipline.
 */
module Text {

  predicate IsDigit(c: char) { '0' <= c <= '9' }

  predicate AllDigits(s: string) {
    s == [] || (IsDigit(s[0]) && AllDigits(s[1..]))
  }

  lemma {:induction false} AllDigitsInit(s: string)
    requires AllDigits(s) && s != []
    ensures AllDigits(s[..|s| - 1]) && IsDigit(s[|s| - 1])
  {
    if |s| > 1 {
      AllDigitsInit(s[1..]);
      assert s[..|s| - 1][1..] == s[1..][..|s| - 2];
    }
  }

  lemma {:induction false} AllDigitsSnoc(s: string, c: char)
    requires AllDigits(s) && IsDigit(c)
    ensures AllDigits(s + [c])
  {
    if s != [] {
      assert (s + [c])[1..] == s[1..] + [c];
      AllDigitsSnoc(s[1..], c);
    } else {
      assert (s + [c])[1..] == [];
    }
  }

  /** A non-empty digit string without leading zeros: what `str(n)` prints for `n >= 0`. */
  predicate Canonical(s: string) {
    |s| > 0 && AllDigits(s) && (s[0] == '0' ==> |s| == 1)
  }

  function DigitValue(c: char): nat
    requires IsDigit(c)
  {
    (c as int) - ('0' as int)
  }

  function DigitChar(d: nat): (c: char)
    requires d < 10
    ensures IsDigit(c) && DigitValue(c) == d
  {
    (('0' as int) + d) as char
  }

  /** Python's `int(s)` on a string of ASCII digits. */
  function DigitsValue(s: string): nat
    requires AllDigits(s)
  {
    if s == [] then 0
    else
      AllDigitsInit(s);
      DigitsValue(s[..|s| - 1]) * 10 + DigitValue(s[|s| - 1])
  }

  /** Python's `str(n)` for `n >= 0`. */
  function NatToDecimal(n: nat): (s: string)
    ensures |s| > 0 && AllDigits(s)
  {
    if n < 10 then
      assert [DigitChar(n)][1..] == [];
      [DigitChar(n)]
    else
      AllDigitsSnoc(NatToDecimal(n / 10), DigitChar(n % 10));
      NatToDecimal(n / 10) + [DigitChar(n % 10)]
  }

  /** Python's `str(i)` (also `"{0}".format(i)`) for any integer. */
  function IntToDecimal(i: int): string {
    if i < 0 then "-" + NatToDecimal(-i) else NatToDecimal(i)
  }

  /** Printing a number and reading it back gives the number, and the printed form is canonical. */
  lemma {:induction false} DecimalRoundTrip(n: nat)
    ensures Canonical(NatToDecimal(n))
    ensures DigitsValue(NatToDecimal(n)) == n
  {
    var s := NatToDecimal(n);
    if n >= 10 {
      DecimalRoundTrip(n / 10);
      assert s[..|s| - 1] == NatToDecimal(n / 10);
    }
  }

  lemma {:induction false} LeadingDigitBound(s: string)
    requires |s| > 0 && AllDigits(s) && s[0] != '0'
    ensures DigitsValue(s) >= 1
  {
    if |s| > 1 {
      AllDigitsInit(s);
      LeadingDigitBound(s[..|s| - 1]);
    }
  }

  /** Reading a canonical digit string and printing the value gives the string back. */
  lemma {:induction false} CanonicalRoundTrip(s: string)
    requires Canonical(s)
    ensures NatToDecimal(DigitsValue(s)) == s
  {
    var n := DigitsValue(s);
    var init := s[..|s| - 1];
    if |s| == 1 {
      assert init == [] && DigitsValue(init) == 0;
      assert n == DigitValue(s[0]);
      assert NatToDecimal(n) == [DigitChar(n)];
    } else {
      assert s[0] != '0';
      AllDigitsInit(s);
      LeadingDigitBound(init);
      assert Canonical(init);
      CanonicalRoundTrip(init);
      assert n / 10 == DigitsValue(init) && n % 10 == DigitValue(s[|s| - 1]);
      assert s == init + [s[|s| - 1]];
    }
  }

  /** Python's `sep.join(xs)`. */
  function Join(xs: seq<string>, sep: string): string {
    if |xs| == 0 then ""
    else if |xs| == 1 then xs[0]
    else xs[0] + sep + Join(xs[1..], sep)
  }

  /** What `print(x, file=fp)` writes for each `x` in turn: every string followed by a newline. */
  function Lines(xs: seq<string>): string {
    if xs == [] then "" else xs[0] + "\n" + Lines(xs[1..])
  }

  /** A sequence from position `j` on is its element at `j` followed by the rest. */
  lemma SliceCons<T>(s: seq<T>, j: nat)
    requires j < |s|
    ensures s[j..] == [s[j]] + s[j + 1..]
  {
  }

  /** A sequence is its prefix up to `j`, its element at `j` and the rest. */
  lemma SplitAround<T>(s: seq<T>, j: nat)
    requires j < |s|
    ensures s == s[..j] + ([s[j]] + s[j + 1..])
  {
  }

  /** The part of a concatenation from a position in its second half on. */
  lemma AppendSlice<T>(x: seq<T>, y: seq<T>, j: nat)
    requires j < |y|
    ensures (x + y)[|x| + j] == y[j] && (x + y)[|x| + j + 1..] == y[j + 1..]
  {
  }

  /** The head and the tail of a sequence built by putting one element in front. */
  lemma ConsParts<T>(x: T, s: seq<T>)
    ensures ([x] + s)[0] == x && ([x] + s)[1..] == s
  {
  }

  /** Concatenation regroups freely. */
  lemma AppendAssoc<T>(x: seq<T>, y: seq<T>, z: seq<T>)
    ensures (x + y) + z == x + (y + z)
  {
  }

  lemma {:induction false} LinesAppend(xs: seq<string>, ys: seq<string>)
    ensures Lines(xs + ys) == Lines(xs) + Lines(ys)
  {
    if xs == [] {
      assert xs + ys == ys;
    } else {
      var zs := xs + ys;
      assert zs[0] == xs[0] && zs[1..] == xs[1..] + ys;
      LinesAppend(xs[1..], ys);
      calc {
        Lines(zs);
        xs[0] + "\n" + Lines(xs[1..] + ys);
        xs[0] + "\n" + (Lines(xs[1..]) + Lines(ys));
        (xs[0] + "\n" + Lines(xs[1..])) + Lines(ys);
      }
    }
  }

  /** Printing one more string appends it and its newline. */
  lemma LinesSnoc(xs: seq<string>, x: string)
    ensures Lines(xs + [x]) == Lines(xs) + (x + "\n")
  {
    LinesAppend(xs, [x]);
    assert [x][1..] == [];
  }

  /** Printing a newline-joined block is the same as printing its lines one by one. */
  lemma {:induction false} JoinThenPrint(xs: seq<string>)
    requires |xs| > 0
    ensures Join(xs, "\n") + "\n" == Lines(xs)
  {
    if |xs| > 1 {
      JoinThenPrint(xs[1..]);
    }
  }

  /** Python's `s.rstrip("\n")`: every trailing newline removed, nothing else. */
  function StripNewlines(s: string): (r: string)
    ensures |r| <= |s| && r == s[..|r|]
    ensures r == [] || r[|r| - 1] != '\n'
    ensures forall i :: |r| <= i < |s| ==> s[i] == '\n'
  {
    if s != [] && s[|s| - 1] == '\n' then StripNewlines(s[..|s| - 1]) else s
  }

  /** A string with no newline at all is left alone by `rstrip("\n")`. */
  lemma StripNewlinesTerminated(s: string)
    requires '\n' !in s
    ensures StripNewlines(s + "\n") == s
  {
    assert (s + "\n")[..|s|] == s;
  }

  /** The lines of a file as `for line in fp` yields them: each followed by its newline. */
  function Terminated(lines: seq<string>): (fp: seq<string>)
    ensures |fp| == |lines|
  {
    seq(|lines|, i requires 0 <= i < |lines| => lines[i] + "\n")
  }

}
