/**
 * The zsh extended-history format: every line reads
 * `: <start>:<duration>;<command>`. Lines of any other shape are skipped
 * (the source logs them at debug level). Records that share a start second
 * are told apart by a counter, as in the bash format.
 */
module ZshHistory {
  import opened Wrappers
  import opened Text
  import opened Records

  // ---------------------------------------------------------------------
  // The line pattern `^: (?P<ts>\d+):\d+;(?P<cmd>.*)$`
  // ---------------------------------------------------------------------

  /** The length of the run of digits at the front of `s`. */
  function DigitRun(s: string): (n: nat)
    ensures n <= |s| && AllDigits(s[..n])
    ensures n < |s| ==> !IsDigit(s[n])
  {
    if s == [] || !IsDigit(s[0]) then 0
    else
      var n := 1 + DigitRun(s[1..]);
      assert s[..n] == [s[0]] + s[1..][..n - 1];
      n
  }

  /**
   * The `(?P<cmd>.*)$` part: `.` stops at a newline and `$` also matches just
   * before a final newline, so the command is the rest of the line less one
   * final newline, and there is no match when any other newline is left.
   */
  function MatchCommand(tail: string): (r: Option<string>)
    ensures r.Some? ==> '\n' !in r.value
    ensures r.Some? ==> tail == r.value || tail == r.value + "\n"
    ensures r.None? ==> exists i :: 0 <= i < |tail| - 1 && tail[i] == '\n'
  {
    var cmd := if tail != [] && tail[|tail| - 1] == '\n' then tail[..|tail| - 1] else tail;
    if '\n' in cmd then None else Some(cmd)
  }

  /** The `\d+;(?P<cmd>.*)$` part, after the start and its colon. */
  function MatchDuration(b: string): Option<string> {
    var n := DigitRun(b);
    if n == 0 || n == |b| || b[n] != ';' then None else MatchCommand(b[n + 1..])
  }

  /** The `(?P<ts>\d+):` part and what follows it, after the leading `": "`. */
  function MatchStart(a: string): Option<Entry> {
    var n := DigitRun(a);
    if n == 0 || n == |a| || a[n] != ':' then None
    else
      match MatchDuration(a[n + 1..]) {
        case None => None
        case Some(cmd) => Some(Entry(DigitsValue(a[..n]), cmd))
      }
  }

  /** What the pattern captures from one line: the start second and the command, or None when the line does not match. */
  function MatchLine(line: string): Option<Entry> {
    if |line| < 2 || line[..2] != ": " then None else MatchStart(line[2..])
  }

  /**
   * The grammar of a matching line, written out: a start and a duration of one
   * or more digits each, a command without newlines and at most one final
   * newline.
   */
  predicate Shape(line: string, start: string, duration: string, cmd: string, end: string) {
    line == ": " + (start + (":" + (duration + (";" + (cmd + end)))))
    && |start| > 0 && AllDigits(start)
    && |duration| > 0 && AllDigits(duration)
    && '\n' !in cmd
    && (end == "" || end == "\n")
  }

  lemma DigitRunOf(d: string, rest: string)
    requires AllDigits(d)
    requires rest != [] && !IsDigit(rest[0])
    ensures DigitRun(d + rest) == |d|
  {
    if d != [] {
      assert (d + rest)[1..] == d[1..] + rest;
      DigitRunOf(d[1..], rest);
    } else {
      assert d + rest == rest;
    }
  }

  lemma MatchCommandOf(cmd: string, end: string)
    requires '\n' !in cmd && (end == "" || end == "\n")
    ensures MatchCommand(cmd + end) == Some(cmd)
  {
    var tail := cmd + end;
    if end == "\n" {
      assert tail[..|tail| - 1] == cmd;
    } else {
      assert tail == cmd;
      assert tail != [] ==> tail[|tail| - 1] in cmd;
    }
  }

  lemma MatchDurationOf(duration: string, rest: string)
    requires |duration| > 0 && AllDigits(duration)
    ensures MatchDuration(duration + (";" + rest)) == MatchCommand(rest)
  {
    var b := duration + (";" + rest);
    DigitRunOf(duration, ";" + rest);
    PartsOf(duration, ';', rest);
  }

  lemma MatchStartOf(start: string, rest: string)
    requires |start| > 0 && AllDigits(start)
    ensures MatchStart(start + (":" + rest)) ==
      match MatchDuration(rest) {
        case None => None
        case Some(cmd) => Some(Entry(DigitsValue(start), cmd))
      }
  {
    var a := start + (":" + rest);
    DigitRunOf(start, ":" + rest);
    PartsOf(start, ':', rest);
  }

  /** Every line of the grammar matches, with its start second and its command. */
  lemma MatchLineComplete(line: string, start: string, duration: string, cmd: string, end: string)
    requires Shape(line, start, duration, cmd, end)
    ensures MatchLine(line) == Some(Entry(DigitsValue(start), cmd))
  {
    MatchCommandOf(cmd, end);
    MatchDurationOf(duration, cmd + end);
    MatchStartOf(start, duration + (";" + (cmd + end)));
    var a := start + (":" + (duration + (";" + (cmd + end))));
    assert line[..2] == ": " && line[2..] == a;
  }

  lemma MatchCommandSound(tail: string) returns (end: string)
    requires MatchCommand(tail).Some?
    ensures tail == MatchCommand(tail).value + end && (end == "" || end == "\n")
  {
    end := if tail != [] && tail[|tail| - 1] == '\n' then "\n" else "";
    if end == "\n" {
      assert tail == tail[..|tail| - 1] + end;
    }
  }

  lemma MatchDurationSound(b: string) returns (duration: string, end: string)
    requires MatchDuration(b).Some?
    ensures b == duration + (";" + (MatchDuration(b).value + end))
    ensures |duration| > 0 && AllDigits(duration) && (end == "" || end == "\n")
  {
    var n := DigitRun(b);
    duration := b[..n];
    end := MatchCommandSound(b[n + 1..]);
    SplitAround(b, n);
    assert [b[n]] == ";";
  }

  /** The pieces of `p`, one separator and `q`, read back from their concatenation. */
  lemma PartsOf(p: string, c: char, q: string)
    ensures var a := p + ([c] + q); |a| > |p| && a[|p|] == c && a[..|p|] == p && a[|p| + 1..] == q
  {
    var a := p + ([c] + q);
    assert a[|p| + 1..] == q;
  }

  lemma SplitAt(s: string, n: nat, c: char)
    requires n < |s| && s[n] == c
    ensures s == s[..n] + ([c] + s[n + 1..])
  {
  }

  lemma MatchStartUnfold(a: string)
    requires MatchStart(a).Some?
    ensures 0 < DigitRun(a) < |a| && a[DigitRun(a)] == ':'
    ensures MatchDuration(a[DigitRun(a) + 1..]).Some?
    ensures MatchStart(a).value == Entry(DigitsValue(a[..DigitRun(a)]), MatchDuration(a[DigitRun(a) + 1..]).value)
  {
  }

  lemma MatchStartSound(a: string) returns (start: string, duration: string, end: string)
    requires MatchStart(a).Some?
    ensures a == start + (":" + (duration + (";" + (MatchStart(a).value.command + end))))
    ensures |start| > 0 && AllDigits(start) && MatchStart(a).value.timestamp == DigitsValue(start)
    ensures |duration| > 0 && AllDigits(duration) && (end == "" || end == "\n")
  {
    var n := DigitRun(a);
    MatchStartUnfold(a);
    SplitAt(a, n, ':');
    start := a[..n];
    duration, end := MatchDurationSound(a[n + 1..]);
  }

  /** Every line that matches belongs to the grammar, with the start and command it reports. */
  lemma MatchLineSound(line: string) returns (start: string, duration: string, end: string)
    requires MatchLine(line).Some?
    ensures Shape(line, start, duration, MatchLine(line).value.command, end)
    ensures MatchLine(line).value.timestamp == DigitsValue(start)
  {
    start, duration, end := MatchStartSound(line[2..]);
    assert line == line[..2] + line[2..];
  }

  // ---------------------------------------------------------------------
  // Parsing a file
  // ---------------------------------------------------------------------

  /** The records of the lines `recognise` accepts, in file order; the other lines are skipped. */
  function Collect(recognise: string -> Option<Entry>, fp: seq<string>): seq<Entry> {
    if fp == [] then []
    else
      var last := recognise(fp[|fp| - 1]);
      Collect(recognise, fp[..|fp| - 1]) + if last.Some? then [last.value] else []
  }

  /** The records of a zsh history file. */
  function Matched(fp: seq<string>): seq<Entry> {
    Collect(MatchLine, fp)
  }

  /**
   * The records are exactly the accepted lines, one each and in file order:
   * the k-th record comes from line `idx[k]`, the indices increase and every
   * accepted line has one.
   */
  lemma {:induction false} CollectLines(recognise: string -> Option<Entry>, fp: seq<string>) returns (idx: seq<nat>)
    ensures |idx| == |Collect(recognise, fp)|
    ensures forall k :: 0 <= k < |idx| ==> idx[k] < |fp| && recognise(fp[idx[k]]) == Some(Collect(recognise, fp)[k])
    ensures forall k, l :: 0 <= k < l < |idx| ==> idx[k] < idx[l]
    ensures forall i :: 0 <= i < |fp| && recognise(fp[i]).Some? ==> i in idx
  {
    if fp == [] {
      idx := [];
    } else {
      var init := fp[..|fp| - 1];
      var last := |fp| - 1;
      var prev := CollectLines(recognise, init);
      forall k | 0 <= k < |prev|
        ensures prev[k] < |fp| && recognise(fp[prev[k]]) == Some(Collect(recognise, fp)[k])
      {
        assert fp[prev[k]] == init[prev[k]];
      }
      if recognise(fp[last]).Some? {
        idx := prev + [last];
      } else {
        idx := prev;
      }
      forall i | 0 <= i < |fp| && recognise(fp[i]).Some?
        ensures i in idx
      {
        if i < last {
          assert fp[i] == init[i];
          assert i in prev;
        }
      }
    }
  }

  /** The records of a zsh file are its matching lines, one each and in file order. */
  lemma MatchedLines(fp: seq<string>) returns (idx: seq<nat>)
    ensures |idx| == |Matched(fp)|
    ensures forall k :: 0 <= k < |idx| ==> idx[k] < |fp| && MatchLine(fp[idx[k]]) == Some(Matched(fp)[k])
    ensures forall k, l :: 0 <= k < l < |idx| ==> idx[k] < idx[l]
    ensures forall i :: 0 <= i < |fp| && MatchLine(fp[i]).Some? ==> i in idx
  {
    idx := CollectLines(MatchLine, fp);
  }

  lemma MatchedStep(fp: seq<string>, i: nat)
    requires i < |fp|
    ensures Matched(fp[..i + 1]) == Matched(fp[..i]) + if MatchLine(fp[i]).Some? then [MatchLine(fp[i]).value] else []
  {
    assert fp[..i + 1][..i] == fp[..i];
  }

  /**
   * The zsh `history_iter`: each matching line becomes a row whose counter is
   * the number of earlier records with the same start second (`countdict`),
   * and the iterator yields the row's column dictionary.
   */
  method HistoryIter(fp: seq<string>) returns (dicts: seq<SqlDict>)
    ensures dicts == SqlDicts(Numbered(Matched(fp)))
  {
    var countdict: map<int, nat> := map[];
    dicts := [];
    ghost var seen: seq<Entry> := [];
    for i := 0 to |fp|
      invariant seen == Matched(fp[..i])
      invariant forall t :: Get(countdict, t) == Tally(seen, t)
      invariant dicts == SqlDicts(Numbered(seen))
    {
      MatchedStep(fp, i);
      var m := MatchLine(fp[i]);
      if m.Some? {
        var unixTs := m.value.timestamp;
        var row := Row(Instant(unixTs), Get(countdict, unixTs), m.value.command);
        CountStep(seen, m.value, countdict);
        countdict := countdict[unixTs := Get(countdict, unixTs) + 1];
        dicts := dicts + [row.AsSqlDict()];
        seen := seen + [m.value];
      } else {
        assert seen + [] == seen;
      }
    }
    assert fp[..|fp|] == fp;
  }

  /** Every record the iterator yields carries a counter no other record of the same second has. */
  lemma CountersDistinct(fp: seq<string>)
    ensures var ds := SqlDicts(Numbered(Matched(fp)));
      forall i, j :: 0 <= i < j < |ds| && ds[i].timestamp == ds[j].timestamp ==> ds[i].counter < ds[j].counter
  {
    NumberedUnique(Matched(fp));
  }

  lemma CollectPair(recognise: string -> Option<Entry>, l1: string, l2: string, e1: Entry, e2: Entry)
    requires recognise(l1) == Some(e1) && recognise(l2) == Some(e2)
    ensures Collect(recognise, [l1, l2]) == [e1, e2]
  {
    assert [l1][..0] == [];
    assert Collect(recognise, [l1]) == [] + [e1];
    assert [l1, l2][..1] == [l1];
    assert Collect(recognise, [l1, l2]) == [e1] + [e2];
  }

  /** Two commands in the same second get counters 0 and 1, however the second is written. */
  lemma SameSecond(l1: string, s1: string, d1: string, c1: string, e1: string,
                   l2: string, s2: string, d2: string, c2: string, e2: string)
    requires Shape(l1, s1, d1, c1, e1) && Shape(l2, s2, d2, c2, e2)
    requires DigitsValue(s1) == DigitsValue(s2)
    ensures Numbered(Matched([l1, l2])) ==
            [Row(Instant(DigitsValue(s1)), 0, c1), Row(Instant(DigitsValue(s1)), 1, c2)]
  {
    var t := DigitsValue(s1);
    MatchLineComplete(l1, s1, d1, c1, e1);
    MatchLineComplete(l2, s2, d2, c2, e2);
    CollectPair(MatchLine, l1, l2, Entry(t, c1), Entry(t, c2));
    NumberedPair(t, c1, c2);
  }

  lemma NumberedPair(t: int, c1: string, c2: string)
    ensures Numbered([Entry(t, c1), Entry(t, c2)]) == [Row(Instant(t), 0, c1), Row(Instant(t), 1, c2)]
  {
    var es := [Entry(t, c1), Entry(t, c2)];
    assert es[..0] == [] && es[..1] == [Entry(t, c1)];
    assert [Entry(t, c1)][..0] == [];
    assert Tally(es[..1], t) == 1;
  }

  // ---------------------------------------------------------------------
  // Writing a file
  // ---------------------------------------------------------------------

  /** The line `history_output` prints for a record (duration always 0), without its newline. */
  function OutputLine(e: Entry): string {
    ": " + IntToDecimal(e.timestamp) + ":0;" + e.command
  }

  function OutputLines(es: seq<Entry>): (ls: seq<string>)
    ensures |ls| == |es|
  {
    seq(|es|, i requires 0 <= i < |es| => OutputLine(es[i]))
  }

  /** The text `history_output` writes for `rows`: one printed line per row. */
  function Output(rows: seq<Row>): string {
    Lines(OutputLines(Keys(rows)))
  }

  /** The zsh `history_output`: prints each row in turn. */
  method HistoryOutput(rows: seq<Row>) returns (out: string)
    ensures out == Output(rows)
  {
    out := "";
    for i := 0 to |rows|
      invariant out == Lines(OutputLines(Keys(rows[..i])))
    {
      var line := ": " + IntToDecimal(rows[i].Unix()) + ":0;" + rows[i].command;
      OutputStep(rows, i);
      out := out + line + "\n";
    }
    assert rows[..|rows|] == rows;
  }

  lemma OutputLinesSnoc(es: seq<Entry>, e: Entry)
    ensures OutputLines(es + [e]) == OutputLines(es) + [OutputLine(e)]
  {
    var a, b := OutputLines(es + [e]), OutputLines(es) + [OutputLine(e)];
    forall k | 0 <= k < |es|
      ensures a[k] == b[k]
    {
      assert (es + [e])[k] == es[k];
    }
  }

  lemma OutputStep(rows: seq<Row>, i: nat)
    requires i < |rows|
    ensures Lines(OutputLines(Keys(rows[..i + 1]))) ==
      Lines(OutputLines(Keys(rows[..i]))) + (": " + IntToDecimal(rows[i].Unix()) + ":0;" + rows[i].command) + "\n"
  {
    var e := Entry(rows[i].Unix(), rows[i].command);
    KeysPrefix(rows, i);
    OutputLinesSnoc(Keys(rows[..i]), e);
    LinesSnoc(OutputLines(Keys(rows[..i])), OutputLine(e));
  }

  // ---------------------------------------------------------------------
  // Round trip
  // ---------------------------------------------------------------------

  /** Records `history_output` can write and read back: a start second that is not negative, a one-line command. */
  predicate Writable(es: seq<Entry>) {
    forall i :: 0 <= i < |es| ==> es[i].timestamp >= 0 && '\n' !in es[i].command
  }

  /** A printed line matches the pattern and gives back its record. */
  lemma OutputLineMatches(e: Entry)
    requires e.timestamp >= 0 && '\n' !in e.command
    ensures MatchLine(OutputLine(e) + "\n") == Some(e)
  {
    var digits := NatToDecimal(e.timestamp);
    DecimalRoundTrip(e.timestamp);
    var cmd := e.command;
    assert OutputLine(e) + "\n" == ": " + (digits + (":" + ("0" + (";" + (cmd + "\n")))));
    MatchLineComplete(OutputLine(e) + "\n", digits, "0", cmd, "\n");
  }

  /** When the recogniser accepts every line, the records are what it gives for each line, in order. */
  lemma {:induction false} CollectAll(recognise: string -> Option<Entry>, fp: seq<string>, es: seq<Entry>)
    requires |fp| == |es|
    requires forall i :: 0 <= i < |fp| ==> recognise(fp[i]) == Some(es[i])
    ensures Collect(recognise, fp) == es
  {
    if fp != [] {
      var n := |fp| - 1;
      forall i | 0 <= i < n
        ensures recognise(fp[..n][i]) == Some(es[..n][i])
      {
        assert fp[..n][i] == fp[i] && es[..n][i] == es[i];
      }
      CollectAll(recognise, fp[..n], es[..n]);
      assert es == es[..n] + [es[n]];
    }
  }

  lemma MatchedOutput(es: seq<Entry>)
    requires Writable(es)
    ensures Matched(Terminated(OutputLines(es))) == es
  {
    var fp := Terminated(OutputLines(es));
    forall i | 0 <= i < |fp|
      ensures MatchLine(fp[i]) == Some(es[i])
    {
      assert fp[i] == OutputLine(es[i]) + "\n";
      OutputLineMatches(es[i]);
    }
    CollectAll(MatchLine, fp, es);
  }

  /**
   * Writing records and parsing the file back gives the same records, each
   * numbered by its place among those of the same second.
   */
  lemma RoundTripRecords(es: seq<Entry>)
    requires Writable(es)
    ensures Numbered(Matched(Terminated(OutputLines(Keys(Numbered(es)))))) == Numbered(es)
  {
    NumberedKeys(es);
    MatchedOutput(es);
  }

  /**
   * Reading a file whose every line has duration 0, a start printed as
   * `str` prints it and a one-line command, then writing it out again,
   * reproduces the file.
   */
  lemma RoundTripFile(es: seq<Entry>)
    requires Writable(es)
    ensures Output(Numbered(Matched(Terminated(OutputLines(es))))) == Lines(OutputLines(es))
  {
    MatchedOutput(es);
    NumberedKeys(es);
  }
}
