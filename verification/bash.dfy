/**
 * The bash history format (schist/bash.py).
 *
 * A history file alternates timestamp markers `#<digits>` with command lines.
 * `Parse` follows the source's recursive `parse` step by step, with its
 * optional state (`ts`, `cmds`, `rows`) and the counter dictionary threaded
 * through; `Blocks` and `Expected` are an independent description of the same
 * outcome in terms of marker blocks, and `HistoryIterMatchesReference` ties the
 * two together.
 */
module BashHistory {
  import opened Wrappers
  import opened Text
  import opened Records

  /** How `history_iter` fails. */
  datatype BashError =
    | MarkerAfterMarker  // `assert cmds is not None`: a marker right after a marker
    | AppendToNone       // `rows.append(...)` while `rows` is still None
    | NotIterable        // `parse` returned None, which the `for` loop cannot iterate

  // ---------------------------------------------------------------------
  // Line classification (`_TS_RE = ^#\d+$`)
  // ---------------------------------------------------------------------

  /** A timestamp marker: `#` followed by one or more digits and nothing else. */
  predicate IsMarker(line: string) {
    |line| >= 2 && line[0] == '#' && AllDigits(line[1..])
  }

  /** A marker whose digits are what `str` prints for its value: no leading zeros. */
  predicate CanonicalMarker(line: string) {
    IsMarker(line) && Canonical(line[1..])
  }

  /** `arrow.get(line[1:])`, kept as unix seconds. */
  function MarkerValue(line: string): nat
    requires IsMarker(line)
  {
    DigitsValue(line[1..])
  }

  /** What `history_output` prints for a timestamp is a marker line carrying that timestamp. */
  lemma MarkerRoundTrip(t: nat)
    ensures IsMarker("#" + NatToDecimal(t))
    ensures MarkerValue("#" + NatToDecimal(t)) == t
  {
    DecimalRoundTrip(t);
    assert ("#" + NatToDecimal(t))[1..] == NatToDecimal(t);
  }

  /** The lines as `parse` sees them: each one with its trailing newlines stripped. */
  function StripAll(fp: seq<string>): (ls: seq<string>)
    ensures |ls| == |fp|
    ensures forall i :: 0 <= i < |fp| ==> ls[i] == StripNewlines(fp[i])
  {
    seq(|fp|, i requires 0 <= i < |fp| => StripNewlines(fp[i]))
  }

  // ---------------------------------------------------------------------
  // The parser as written
  // ---------------------------------------------------------------------

  /** `mkrow(ts, ary)` with `count(ts)`: the row and the counter dictionary after counting it. */
  function MkRow(ts: int, ary: seq<string>, counts: map<int, nat>): (Row, map<int, nat>) {
    (Row(Instant(ts), Get(counts, ts), Join(ary, "\n")), counts[ts := Get(counts, ts) + 1])
  }

  /** `parse(lines, ts, cmds, rows)`; `Success(None)` is the source returning None. */
  function Parse(lines: seq<string>, ts: Option<int>, cmds: Option<seq<string>>,
                 rows: Option<seq<Row>>, counts: map<int, nat>): Result<Option<seq<Row>>, BashError>
    decreases |lines|
  {
    if |lines| == 0 then
      if ts.Some? && cmds.Some? && cmds.value != [] then
        if rows.None? then Failure(AppendToNone)
        else Success(Some(rows.value + [MkRow(ts.value, cmds.value, counts).0]))
      else Success(rows)
    else if IsMarker(lines[0]) then
      if ts.None? then
        Parse(lines[1..], Some(MarkerValue(lines[0])), None, rows, counts)
      else if cmds.None? then
        Failure(MarkerAfterMarker)
      else
        var (row, counts') := MkRow(ts.value, cmds.value, counts);
        Parse(lines[1..], Some(MarkerValue(lines[0])), None, Some(rows.GetOr([]) + [row]), counts')
    else
      Parse(lines[1..], ts, Some(cmds.GetOr([]) + [lines[0]]), rows, counts)
  }

  /** `history_iter(fp)`: every row, or the error the generator raises before yielding any. */
  function HistoryIter(fp: seq<string>): Result<seq<Row>, BashError> {
    Yield(Parse(StripAll(fp), None, None, None, map[]))
  }

  /** `for row in parse(...)`: iterating None fails, a list yields its rows. */
  function Yield(r: Result<Option<seq<Row>>, BashError>): Result<seq<Row>, BashError> {
    match r
    case Success(None) => Failure(NotIterable)
    case Success(Some(rows)) => Success(rows)
    case Failure(e) => Failure(e)
  }

  /** `history_iter` with `rows` initialised to an empty list, as the caller evidently intends. */
  function HistoryIterInitialised(fp: seq<string>): Result<seq<Row>, BashError> {
    match Parse(StripAll(fp), None, None, Some([]), map[])
    case Success(rows) => Success(rows.GetOr([]))
    case Failure(e) => Failure(e)
  }

  // ---------------------------------------------------------------------
  // Reference: marker blocks
  // ---------------------------------------------------------------------

  /** The number of leading lines that are not markers. */
  function Run(ls: seq<string>): (n: nat)
    ensures n <= |ls|
    ensures forall i :: 0 <= i < n ==> !IsMarker(ls[i])
    ensures n < |ls| ==> IsMarker(ls[n])
  {
    NextMarker(ls, 0)
  }

  /** The position of the first marker at or after `k`, or the end of the lines. */
  function NextMarker(ls: seq<string>, k: nat): (n: nat)
    requires k <= |ls|
    ensures k <= n <= |ls|
    ensures forall i :: k <= i < n ==> !IsMarker(ls[i])
    ensures n < |ls| ==> IsMarker(ls[n])
    decreases |ls| - k
  {
    if k == |ls| || IsMarker(ls[k]) then k else NextMarker(ls, k + 1)
  }

  /** The run of non-markers is the only length with no marker before it and a marker (or the end) at it. */
  lemma RunUnique(ls: seq<string>, n: nat)
    requires n <= |ls|
    requires forall i :: 0 <= i < n ==> !IsMarker(ls[i])
    requires n < |ls| ==> IsMarker(ls[n])
    ensures Run(ls) == n
  {
  }

  /** A command line in front lengthens the run by one. */
  lemma RunCons(x: string, ls: seq<string>)
    requires !IsMarker(x)
    ensures Run([x] + ls) == 1 + Run(ls)
  {
    var j := Run(ls);
    var xs := [x] + ls;
    forall i | 0 <= i < 1 + j ensures !IsMarker(xs[i]) {
      if i > 0 {
        assert xs[i] == ls[i - 1];
      }
    }
    if j < |ls| {
      assert xs[1 + j] == ls[j];
    }
    RunUnique(xs, 1 + j);
  }

  predicate NoMarker(ls: seq<string>) {
    forall i :: 0 <= i < |ls| ==> !IsMarker(ls[i])
  }

  /** A marker line and the command lines that follow it up to the next marker. */
  datatype Block = Block(marker: string, cmds: seq<string>)

  /** Every block starts at a marker and holds no other marker. */
  predicate WellFormed(bs: seq<Block>) {
    bs == [] || (IsMarker(bs[0].marker) && NoMarker(bs[0].cmds) && WellFormed(bs[1..]))
  }

  lemma {:induction false} WellFormedAt(bs: seq<Block>, k: nat)
    requires WellFormed(bs) && k < |bs|
    ensures IsMarker(bs[k].marker) && NoMarker(bs[k].cmds)
  {
    if k > 0 {
      WellFormedAt(bs[1..], k - 1);
    }
  }

  /** The lines a sequence of blocks was cut from. */
  function Flatten(bs: seq<Block>): seq<string> {
    if bs == [] then [] else [bs[0].marker] + bs[0].cmds + Flatten(bs[1..])
  }

  /** The blocks of `marker` followed by `rest`: one per marker. */
  function BlocksFrom(marker: string, rest: seq<string>): (bs: seq<Block>)
    requires IsMarker(marker)
    ensures |bs| > 0 && bs[0].marker == marker && WellFormed(bs)
    decreases |rest|
  {
    var j := Run(rest);
    if j == |rest| then
      assert rest[..j] == rest;
      [Block(marker, rest)]
    else
      var tail := BlocksFrom(rest[j], rest[j + 1..]);
      var bs := [Block(marker, rest[..j])] + tail;
      assert bs[0] == Block(marker, rest[..j]) && bs[1..] == tail;
      bs
  }

  lemma FlattenCons(b: Block, tail: seq<Block>)
    ensures Flatten([b] + tail) == [b.marker] + b.cmds + Flatten(tail)
  {
    assert ([b] + tail)[0] == b && ([b] + tail)[1..] == tail;
  }

  /** Cutting into blocks loses no line: flattened, the blocks give the lines back. */
  lemma {:induction false} BlocksFromFlatten(marker: string, rest: seq<string>)
    requires IsMarker(marker)
    ensures Flatten(BlocksFrom(marker, rest)) == [marker] + rest
    decreases |rest|
  {
    var j := Run(rest);
    if j == |rest| {
      assert rest[..j] == rest;
      FlattenCons(Block(marker, rest), []);
    } else {
      BlocksFromStep(marker, rest, j);
      BlocksFromFlatten(rest[j], rest[j + 1..]);
      FlattenCons(Block(marker, rest[..j]), BlocksFrom(rest[j], rest[j + 1..]));
      SplitAround(rest, j);
      AppendAssoc([marker], rest[..j], [rest[j]] + rest[j + 1..]);
    }
  }

  /** The blocks of a whole file: lines before the first marker belong to none. */
  function Blocks(ls: seq<string>): (bs: seq<Block>)
    ensures WellFormed(bs)
  {
    var j := Run(ls);
    if j == |ls| then [] else BlocksFrom(ls[j], ls[j + 1..])
  }

  lemma BlocksAt(ls: seq<string>, j: nat)
    requires j == Run(ls) && j < |ls|
    ensures Blocks(ls) == BlocksFrom(ls[j], ls[j + 1..])
  {
  }

  lemma BlocksNone(ls: seq<string>)
    requires Run(ls) == |ls|
    ensures Blocks(ls) == []
  {
  }

  /** The blocks of a whole file give back the file from its first marker on. */
  lemma BlocksFlatten(ls: seq<string>)
    ensures Flatten(Blocks(ls)) == ls[Run(ls)..]
  {
    var j := Run(ls);
    if j < |ls| {
      var m, rest := ls[j], ls[j + 1..];
      assert Blocks(ls) == BlocksFrom(m, rest);
      BlocksFromFlatten(m, rest);
      SliceCons(ls, j);
    } else {
      assert Blocks(ls) == [] && ls[j..] == [];
    }
  }

  /** One record per block that has command lines, its lines joined by newlines. */
  function BlockRecords(bs: seq<Block>): (es: seq<Entry>)
    requires WellFormed(bs)
    ensures |es| <= |bs|
  {
    if bs == [] then []
    else
      (if bs[0].cmds == [] then [] else [Entry(MarkerValue(bs[0].marker), Join(bs[0].cmds, "\n"))])
      + BlockRecords(bs[1..])
  }

  /** Some block other than the last has no command lines. */
  predicate EmptyBeforeLast(bs: seq<Block>) {
    |bs| >= 2 && (bs[0].cmds == [] || EmptyBeforeLast(bs[1..]))
  }

  /** What `history_iter` yields, described by blocks. */
  function Expected(ls: seq<string>): Result<seq<Row>, BashError> {
    BlocksExpected(Blocks(ls))
  }

  /** What `history_iter` yields for a file cut into the blocks `bs`. */
  function BlocksExpected(bs: seq<Block>): Result<seq<Row>, BashError>
    requires WellFormed(bs)
  {
    if bs == [] then Failure(NotIterable)
    else if EmptyBeforeLast(bs) then Failure(MarkerAfterMarker)
    else if |bs| == 1 then (if bs[0].cmds == [] then Failure(NotIterable) else Failure(AppendToNone))
    else Success(Numbered(BlockRecords(bs)))
  }

  // ---------------------------------------------------------------------
  // The parser agrees with the reference
  // ---------------------------------------------------------------------

  /** The command buffer after appending `xs` to `cmds` (`cmds = cmds or []; cmds.append(...)`). */
  function Gather(cmds: Option<seq<string>>, xs: seq<string>): Option<seq<string>> {
    if xs == [] then cmds else Some(cmds.GetOr([]) + xs)
  }

  /** Command lines only grow the buffer. */
  lemma {:induction false} SkipCommands(ls: seq<string>, k: nat, ts: Option<int>, cmds: Option<seq<string>>,
                                        rows: Option<seq<Row>>, counts: map<int, nat>)
    requires k <= |ls| && forall i :: 0 <= i < k ==> !IsMarker(ls[i])
    ensures Parse(ls, ts, cmds, rows, counts) == Parse(ls[k..], ts, Gather(cmds, ls[..k]), rows, counts)
  {
    if k > 0 {
      var cmds' := Some(cmds.GetOr([]) + [ls[0]]);
      assert Parse(ls, ts, cmds, rows, counts) == Parse(ls[1..], ts, cmds', rows, counts);
      SkipCommands(ls[1..], k - 1, ts, cmds', rows, counts);
      assert ls[1..][k - 1..] == ls[k..];
      var ys := ls[1..][..k - 1];
      assert ls[..k] == [ls[0]] + ys;
      if ys == [] {
        assert ls[..k] == [ls[0]];
        assert Gather(cmds', ys) == cmds' == Gather(cmds, ls[..k]);
      } else {
        assert cmds.GetOr([]) + ls[..k] == cmds.GetOr([]) + [ls[0]] + ys;
        assert Gather(cmds', ys) == Some(cmds.GetOr([]) + [ls[0]] + ys);
      }
    } else {
      assert ls[k..] == ls;
    }
  }

  /** `mkrow` on the dictionary of an earlier batch extends that batch's numbering by one row. */
  lemma MkRowExtends(es: seq<Entry>, t: int, ary: seq<string>)
    ensures MkRow(t, ary, CountsOf(es)).1 == CountsOf(es + [Entry(t, Join(ary, "\n"))])
    ensures Numbered(es) + [MkRow(t, ary, CountsOf(es)).0] == Numbered(es + [Entry(t, Join(ary, "\n"))])
  {
    var e := Entry(t, Join(ary, "\n"));
    assert (es + [e])[..|es + [e]| - 1] == es;
    NumberedSnoc(es, e);
  }

  /** The outcome of `parse` from just after the first marker of `bs`, with the rows of `es` already emitted. */
  function Outcome(bs: seq<Block>, es: seq<Entry>, rows: Option<seq<Row>>): Result<Option<seq<Row>>, BashError>
    requires WellFormed(bs) && |bs| > 0
  {
    if EmptyBeforeLast(bs) then Failure(MarkerAfterMarker)
    else if rows.None? && |bs| == 1 then
      (if bs[0].cmds == [] then Success(None) else Failure(AppendToNone))
    else Success(Some(Numbered(es + BlockRecords(bs))))
  }

  /** The last block: at end of input the pending record is appended, if there is one. */
  lemma LastBlock(m: string, rest: seq<string>, es: seq<Entry>, rows: Option<seq<Row>>)
    requires IsMarker(m) && NoMarker(rest)
    requires rows == Some(Numbered(es)) || (rows == None && es == [])
    ensures Parse(rest, Some(MarkerValue(m)), None, rows, CountsOf(es)) == Outcome(BlocksFrom(m, rest), es, rows)
  {
    var t := MarkerValue(m);
    var bs := BlocksFrom(m, rest);
    SkipCommands(rest, |rest|, Some(t), None, rows, CountsOf(es));
    assert rest[|rest|..] == [] && rest[..|rest|] == rest;
    assert Run(rest) == |rest|;
    assert bs == [Block(m, rest)];
    if rest == [] {
      assert BlockRecords(bs) == [];
      assert es + [] == es;
    } else {
      var e := Entry(t, Join(rest, "\n"));
      assert [] + rest == rest;
      assert Gather(None, rest) == Some(rest);
      MkRowExtends(es, t, rest);
      assert bs[1..] == [] && BlockRecords(bs) == [e];
      assert !EmptyBeforeLast(bs);
      if rows.Some? {
        assert Parse([], Some(t), Some(rest), rows, CountsOf(es)) == Success(Some(Numbered(es + [e])));
      }
    }
  }

  /** A non-empty block that ends at a marker: `parse` emits its row and starts the next block. */
  lemma ParseBlockStep(m: string, rest: seq<string>, es: seq<Entry>, rows: Option<seq<Row>>)
    requires IsMarker(m) && 0 < Run(rest) < |rest|
    requires rows == Some(Numbered(es)) || (rows == None && es == [])
    ensures var j := Run(rest);
            var e := Entry(MarkerValue(m), Join(rest[..j], "\n"));
            Parse(rest, Some(MarkerValue(m)), None, rows, CountsOf(es))
            == Parse(rest[j + 1..], Some(MarkerValue(rest[j])), None, Some(Numbered(es + [e])), CountsOf(es + [e]))
  {
    var t := MarkerValue(m);
    var j := Run(rest);
    SkipCommands(rest, j, Some(t), None, rows, CountsOf(es));
    var after := rest[j..];
    assert after[0] == rest[j] && after[1..] == rest[j + 1..];
    assert [] + rest[..j] == rest[..j];
    assert Gather(None, rest[..j]) == Some(rest[..j]);
    MkRowExtends(es, t, rest[..j]);
  }

  /** A block that ends at a marker is followed by the blocks from that marker on. */
  lemma BlocksFromStep(m: string, rest: seq<string>, j: nat)
    requires IsMarker(m) && j == Run(rest) && j < |rest|
    ensures BlocksFrom(m, rest) == [Block(m, rest[..j])] + BlocksFrom(rest[j], rest[j + 1..])
  {
  }

  /** The outcome after a non-empty block that is not the last is the outcome of the blocks that follow it. */
  lemma OutcomeCons(b: Block, tail: seq<Block>, es: seq<Entry>, rows: Option<seq<Row>>)
    requires IsMarker(b.marker) && NoMarker(b.cmds) && b.cmds != []
    requires WellFormed([b] + tail) && WellFormed(tail) && |tail| > 0
    ensures var e := Entry(MarkerValue(b.marker), Join(b.cmds, "\n"));
            Outcome([b] + tail, es, rows) == Outcome(tail, es + [e], Some(Numbered(es + [e])))
  {
    var bs := [b] + tail;
    var e := Entry(MarkerValue(b.marker), Join(b.cmds, "\n"));
    assert bs[0] == b && bs[1..] == tail;
    assert EmptyBeforeLast(bs) == EmptyBeforeLast(tail);
    assert BlockRecords(bs) == [e] + BlockRecords(tail);
    assert es + [e] + BlockRecords(tail) == es + BlockRecords(bs);
  }

  /** The reference outcome after a non-empty block is the outcome of the blocks that follow it. */
  lemma OutcomeBlockStep(m: string, rest: seq<string>, es: seq<Entry>, rows: Option<seq<Row>>)
    requires IsMarker(m) && 0 < Run(rest) < |rest|
    ensures var j := Run(rest);
            var e := Entry(MarkerValue(m), Join(rest[..j], "\n"));
            Outcome(BlocksFrom(m, rest), es, rows)
            == Outcome(BlocksFrom(rest[j], rest[j + 1..]), es + [e], Some(Numbered(es + [e])))
  {
    var j := Run(rest);
    BlocksFromStep(m, rest, j);
    assert rest[..j] != [];
    OutcomeCons(Block(m, rest[..j]), BlocksFrom(rest[j], rest[j + 1..]), es, rows);
  }

  /** After a non-empty block that ends at a marker, parser and reference agree if they agree from that marker on. */
  lemma BlockStep(m: string, rest: seq<string>, es: seq<Entry>, rows: Option<seq<Row>>)
    requires IsMarker(m) && 0 < Run(rest) < |rest|
    requires rows == Some(Numbered(es)) || (rows == None && es == [])
    requires var j := Run(rest);
             var e := Entry(MarkerValue(m), Join(rest[..j], "\n"));
             Parse(rest[j + 1..], Some(MarkerValue(rest[j])), None, Some(Numbered(es + [e])), CountsOf(es + [e]))
             == Outcome(BlocksFrom(rest[j], rest[j + 1..]), es + [e], Some(Numbered(es + [e])))
    ensures Parse(rest, Some(MarkerValue(m)), None, rows, CountsOf(es)) == Outcome(BlocksFrom(m, rest), es, rows)
  {
    ParseBlockStep(m, rest, es, rows);
    OutcomeBlockStep(m, rest, es, rows);
  }

  /** A marker right after a marker: `parse` trips its assertion, and the reference agrees. */
  lemma EmptyBlockStep(m: string, rest: seq<string>, es: seq<Entry>, rows: Option<seq<Row>>)
    requires IsMarker(m) && Run(rest) == 0 < |rest|
    ensures Parse(rest, Some(MarkerValue(m)), None, rows, CountsOf(es)) == Failure(MarkerAfterMarker)
    ensures Outcome(BlocksFrom(m, rest), es, rows) == Failure(MarkerAfterMarker)
  {
    var bs := BlocksFrom(m, rest);
    BlocksFromStep(m, rest, 0);
    assert bs[0] == Block(m, []) && |bs| >= 2;
    assert EmptyBeforeLast(bs);
  }

  /** A block that ends at a marker: an empty one trips the assertion, otherwise its row is emitted. */
  lemma {:induction false} ParseFromMarker(m: string, rest: seq<string>, es: seq<Entry>, rows: Option<seq<Row>>)
    requires IsMarker(m)
    requires rows == Some(Numbered(es)) || (rows == None && es == [])
    ensures Parse(rest, Some(MarkerValue(m)), None, rows, CountsOf(es)) == Outcome(BlocksFrom(m, rest), es, rows)
    decreases |rest|
  {
    var t := MarkerValue(m);
    var j := Run(rest);
    if j == |rest| {
      LastBlock(m, rest, es, rows);
    } else if j == 0 {
      EmptyBlockStep(m, rest, es, rows);
    } else {
      var e := Entry(t, Join(rest[..j], "\n"));
      ParseFromMarker(rest[j], rest[j + 1..], es + [e], Some(Numbered(es + [e])));
      BlockStep(m, rest, es, rows);
    }
  }

  /** From the first marker on, the parser's outcome is the reference outcome of the blocks. */
  lemma ParseFromStart(ls: seq<string>, rows: Option<seq<Row>>)
    requires Run(ls) < |ls|
    requires rows == None || rows == Some([])
    ensures Parse(ls, None, None, rows, map[]) == Outcome(Blocks(ls), [], rows)
  {
    var j := Run(ls);
    SkipCommands(ls, j, None, None, rows, map[]);
    var after := ls[j..];
    assert after[0] == ls[j] && after[1..] == ls[j + 1..];
    assert Parse(after, None, Gather(None, ls[..j]), rows, map[])
        == Parse(ls[j + 1..], Some(MarkerValue(ls[j])), None, rows, map[]);
    assert CountsOf([]) == map[] && Numbered([]) == [];
    ParseFromMarker(ls[j], ls[j + 1..], [], rows);
  }

  /** The block description is the reference outcome from the first marker, iterated. */
  lemma ExpectedIsOutcome(bs: seq<Block>)
    requires WellFormed(bs) && |bs| > 0
    ensures BlocksExpected(bs) == Yield(Outcome(bs, [], None))
  {
    if !EmptyBeforeLast(bs) && |bs| > 1 {
      assert [] + BlockRecords(bs) == BlockRecords(bs);
    }
  }

  /** The parser as written yields exactly what the block description says. */
  lemma HistoryIterMatchesReference(fp: seq<string>)
    ensures HistoryIter(fp) == Expected(StripAll(fp))
  {
    var ls := StripAll(fp);
    var j := Run(ls);
    if j < |ls| {
      ParseFromStart(ls, None);
      ExpectedIsOutcome(Blocks(ls));
    } else {
      SkipCommands(ls, j, None, None, None, map[]);
      assert ls[j..] == [];
    }
  }

  /** With `rows` initialised, the parser yields one row per non-empty block and fails only on adjacent markers. */
  lemma HistoryIterInitialisedMatchesReference(fp: seq<string>)
    ensures HistoryIterInitialised(fp) ==
      if EmptyBeforeLast(Blocks(StripAll(fp))) then Failure(MarkerAfterMarker)
      else Success(Numbered(BlockRecords(Blocks(StripAll(fp)))))
  {
    var ls := StripAll(fp);
    var j := Run(ls);
    if j < |ls| {
      ParseFromStart(ls, Some([]));
      assert [] + BlockRecords(Blocks(ls)) == BlockRecords(Blocks(ls));
    } else {
      SkipCommands(ls, j, None, None, Some([]), map[]);
      assert ls[j..] == [];
    }
  }

  // ---------------------------------------------------------------------
  // What the reference says about the lines
  // ---------------------------------------------------------------------

  /** Line `i` is a marker and so is line `i + 1`. */
  predicate AdjacentAt(ls: seq<string>, i: int) {
    0 <= i < |ls| - 1 && IsMarker(ls[i]) && IsMarker(ls[i + 1])
  }

  /** Some marker is immediately followed by another marker. */
  predicate Adjacent(ls: seq<string>) {
    exists i :: 0 <= i < |ls| && AdjacentAt(ls, i)
  }

  lemma AdjacentSkip(ls: seq<string>, k: nat)
    requires k <= |ls| && forall i :: 0 <= i < k ==> !IsMarker(ls[i])
    ensures Adjacent(ls) <==> Adjacent(ls[k..])
  {
    if Adjacent(ls) {
      var i :| 0 <= i < |ls| && AdjacentAt(ls, i);
      assert i >= k;
      assert ls[k..][i - k] == ls[i] && ls[k..][i - k + 1] == ls[i + 1];
      assert AdjacentAt(ls[k..], i - k);
    }
    if Adjacent(ls[k..]) {
      var i :| 0 <= i < |ls[k..]| && AdjacentAt(ls[k..], i);
      assert ls[k..][i] == ls[i + k] && ls[k..][i + 1] == ls[i + k + 1];
      assert AdjacentAt(ls, i + k);
    }
  }

  lemma AdjacentCons(m: string, rest: seq<string>)
    requires rest != [] && !IsMarker(rest[0])
    ensures Adjacent([m] + rest) <==> Adjacent(rest)
  {
    var ls := [m] + rest;
    if Adjacent(ls) {
      var i :| 0 <= i < |ls| && AdjacentAt(ls, i);
      assert ls[1] == rest[0];
      assert i > 0;
      assert ls[i] == rest[i - 1] && ls[i + 1] == rest[i];
      assert AdjacentAt(rest, i - 1);
    }
    if Adjacent(rest) {
      var i :| 0 <= i < |rest| && AdjacentAt(rest, i);
      assert ls[i + 1] == rest[i] && ls[i + 2] == rest[i + 1];
      assert AdjacentAt(ls, i + 1);
    }
  }

  lemma NoAdjacentBlock(m: string, rest: seq<string>)
    requires NoMarker(rest)
    ensures !Adjacent([m] + rest)
  {
    var ls := [m] + rest;
    forall i | 0 <= i < |ls| ensures !AdjacentAt(ls, i) {
      if i + 1 < |ls| {
        assert ls[i + 1] == rest[i];
      }
    }
  }

  lemma {:induction false} EmptyBlockIffAdjacentFrom(m: string, rest: seq<string>)
    requires IsMarker(m)
    ensures EmptyBeforeLast(BlocksFrom(m, rest)) <==> Adjacent([m] + rest)
    decreases |rest|
  {
    var j := Run(rest);
    var bs := BlocksFrom(m, rest);
    if j == |rest| {
      NoAdjacentBlock(m, rest);
      assert |bs| == 1;
    } else {
      var tail := BlocksFrom(rest[j], rest[j + 1..]);
      assert bs == [Block(m, rest[..j])] + tail && bs[1..] == tail;
      EmptyBlockIffAdjacentFrom(rest[j], rest[j + 1..]);
      assert [rest[j]] + rest[j + 1..] == rest[j..];
      if j == 0 {
        assert AdjacentAt([m] + rest, 0);
      } else {
        AdjacentSkip(rest, j);
        AdjacentCons(m, rest);
      }
    }
  }

  /** A block without command lines before the last block is exactly a marker followed by a marker. */
  lemma AdjacentIffEmptyBlock(ls: seq<string>)
    ensures Adjacent(ls) <==> EmptyBeforeLast(Blocks(ls))
  {
    var j := Run(ls);
    AdjacentSkip(ls, j);
    if j < |ls| {
      assert ls[j..] == [ls[j]] + ls[j + 1..];
      EmptyBlockIffAdjacentFrom(ls[j], ls[j + 1..]);
    } else {
      assert ls[j..] == [];
    }
  }

  function MarkerCount(ls: seq<string>): nat {
    if ls == [] then 0 else (if IsMarker(ls[0]) then 1 else 0) + MarkerCount(ls[1..])
  }

  lemma {:induction false} MarkerCountAppend(a: seq<string>, b: seq<string>)
    ensures MarkerCount(a + b) == MarkerCount(a) + MarkerCount(b)
  {
    if a == [] {
      assert a + b == b;
    } else {
      MarkerCountAppend(a[1..], b);
      assert (a + b)[1..] == a[1..] + b;
    }
  }

  lemma {:induction false} NoMarkerCount(a: seq<string>)
    requires NoMarker(a)
    ensures MarkerCount(a) == 0
  {
    if a != [] {
      NoMarkerCount(a[1..]);
    }
  }

  lemma {:induction false} FlattenCount(bs: seq<Block>)
    requires WellFormed(bs)
    ensures MarkerCount(Flatten(bs)) == |bs|
  {
    if bs != [] {
      FlattenCount(bs[1..]);
      NoMarkerCount(bs[0].cmds);
      MarkerCountAppend([bs[0].marker] + bs[0].cmds, Flatten(bs[1..]));
      MarkerCountAppend([bs[0].marker], bs[0].cmds);
    }
  }

  /** There is one block per marker line. */
  lemma BlocksCount(ls: seq<string>)
    ensures |Blocks(ls)| == MarkerCount(ls)
  {
    var j := Run(ls);
    assert ls == ls[..j] + ls[j..];
    MarkerCountAppend(ls[..j], ls[j..]);
    NoMarkerCount(ls[..j]);
    BlocksFlatten(ls);
    FlattenCount(Blocks(ls));
  }

  lemma {:induction false} FlattenLast(bs: seq<Block>)
    requires |bs| > 0
    ensures |Flatten(bs)| > 0
    ensures var b := bs[|bs| - 1]; var f := Flatten(bs);
      f[|f| - 1] == if b.cmds == [] then b.marker else b.cmds[|b.cmds| - 1]
  {
    if |bs| > 1 {
      FlattenLast(bs[1..]);
    } else {
      assert Flatten(bs[1..]) == [];
    }
  }

  /** The last block has no command lines exactly when the last line is a marker. */
  lemma LastBlockEmpty(ls: seq<string>)
    requires Blocks(ls) != []
    ensures var bs := Blocks(ls);
      |ls| > 0 && (bs[|bs| - 1].cmds == [] <==> IsMarker(ls[|ls| - 1]))
  {
    var bs := Blocks(ls);
    FlattenLast(bs);
    var b := bs[|bs| - 1];
    BlocksFlatten(ls);
    WellFormedAt(bs, |bs| - 1);
    assert ls[|ls| - 1] == ls[Run(ls)..][|ls| - Run(ls) - 1];
  }

  /** The number of non-empty blocks: all of them unless one before the last is empty, or the last is. */
  lemma {:induction false} RecordsCount(bs: seq<Block>)
    requires WellFormed(bs) && |bs| > 0 && !EmptyBeforeLast(bs)
    ensures |BlockRecords(bs)| == |bs| - (if bs[|bs| - 1].cmds == [] then 1 else 0)
  {
    if |bs| > 1 {
      RecordsCount(bs[1..]);
    } else {
      assert bs[1..] == [];
    }
  }

  /**
   * How `history_iter` ends, in terms of lines: a marker right after a marker
   * trips the assertion; fewer than two markers never initialise `rows`, so the
   * call fails whether a record is pending or not; otherwise there is one row
   * per marker, less one when the file ends on a marker.
   */
  lemma HistoryIterOutcome(fp: seq<string>)
    ensures var ls := StripAll(fp);
      && (HistoryIter(fp) == Failure(MarkerAfterMarker) <==> Adjacent(ls))
      && (HistoryIter(fp) == Failure(AppendToNone) <==>
            !Adjacent(ls) && MarkerCount(ls) == 1 && !IsMarker(ls[|ls| - 1]))
      && (HistoryIter(fp) == Failure(NotIterable) <==>
            MarkerCount(ls) == 0 || (MarkerCount(ls) == 1 && IsMarker(ls[|ls| - 1])))
      && (HistoryIter(fp).Success? <==> !Adjacent(ls) && MarkerCount(ls) >= 2)
      && (HistoryIter(fp).Success? ==>
            && HistoryIter(fp).value == Numbered(BlockRecords(Blocks(ls)))
            && |HistoryIter(fp).value| == MarkerCount(ls) - (if IsMarker(ls[|ls| - 1]) then 1 else 0))
  {
    var ls := StripAll(fp);
    var bs := Blocks(ls);
    HistoryIterMatchesReference(fp);
    AdjacentIffEmptyBlock(ls);
    BlocksCount(ls);
    if bs != [] {
      LastBlockEmpty(ls);
      if !EmptyBeforeLast(bs) {
        RecordsCount(bs);
      }
    }
  }

  /** Lines before the first marker never reach a record: prefixing them changes nothing. */
  lemma LeadingCommandsDiscarded(junk: seq<string>, fp: seq<string>)
    requires forall l :: l in junk ==> !IsMarker(StripNewlines(l))
    ensures HistoryIter(junk + fp) == HistoryIter(fp)
    ensures HistoryIterInitialised(junk + fp) == HistoryIterInitialised(fp)
  {
    var a, b := StripAll(junk), StripAll(fp);
    assert StripAll(junk + fp) == a + b;
    assert NoMarker(a) by {
      forall i | 0 <= i < |a| ensures !IsMarker(a[i]) {
        assert junk[i] in junk;
      }
    }
    BlocksPrefix(a, b);
    HistoryIterMatchesReference(junk + fp);
    HistoryIterMatchesReference(fp);
    HistoryIterInitialisedMatchesReference(junk + fp);
    HistoryIterInitialisedMatchesReference(fp);
  }

  /** A command line in front of the lines changes nothing about their blocks. */
  lemma {:induction false} BlocksCons(x: string, ls: seq<string>)
    requires !IsMarker(x)
    ensures Blocks([x] + ls) == Blocks(ls)
  {
    var xs := [x] + ls;
    ConsParts(x, ls);
    RunCons(x, ls);
    var j := Run(ls);
    if j < |ls| {
      AppendSlice([x], ls, j);
      BlocksAt(xs, 1 + j);
      BlocksAt(ls, j);
    } else {
      BlocksNone(xs);
      BlocksNone(ls);
    }
  }

  lemma {:induction false} BlocksPrefix(a: seq<string>, b: seq<string>)
    requires NoMarker(a)
    ensures Blocks(a + b) == Blocks(b)
    decreases |a|
  {
    if a == [] {
      assert a + b == b;
    } else {
      ConsParts(a[0], a[1..]);
      assert a == [a[0]] + a[1..];
      AppendAssoc([a[0]], a[1..], b);
      BlocksCons(a[0], a[1..] + b);
      BlocksPrefix(a[1..], b);
    }
  }

  // ---------------------------------------------------------------------
  // Serialisation (`history_output`) and the round trip
  // ---------------------------------------------------------------------

  /** The two printed lines per record: `#<unix>` and the command, in order. */
  function RecordLines(es: seq<Entry>): (out: seq<string>)
    ensures |out| == 2 * |es|
  {
    if es == [] then []
    else
      var e := es[|es| - 1];
      RecordLines(es[..|es| - 1]) + ["#" + IntToDecimal(e.timestamp), e.command]
  }

  /** Everything `history_output` writes for `rows`; it reads only `row.unix` and `row.command`. */
  function Output(rows: seq<Row>): string {
    Lines(RecordLines(Keys(rows)))
  }

  /** `history_output(row_iter, fp)`: the text written to `fp`. */
  method HistoryOutput(rows: seq<Row>) returns (out: string)
    ensures out == Output(rows)
  {
    out := "";
    for i := 0 to |rows|
      invariant out == Lines(RecordLines(Keys(rows[..i])))
    {
      var row := rows[i];
      var mark := "#" + IntToDecimal(row.Unix());
      OutputStep(rows, i);
      out := out + mark + "\n";
      out := out + row.command + "\n";
    }
    assert rows[..|rows|] == rows;
  }

  /** One more row prints its marker line and its command line. */
  lemma OutputStep(rows: seq<Row>, i: nat)
    requires i < |rows|
    ensures Lines(RecordLines(Keys(rows[..i + 1]))) ==
      Lines(RecordLines(Keys(rows[..i]))) + ("#" + IntToDecimal(rows[i].Unix()) + "\n") + (rows[i].command + "\n")
  {
    var row := rows[i];
    var e := Entry(row.Unix(), row.command);
    var mark := "#" + IntToDecimal(row.Unix());
    var ks := Keys(rows[..i]);
    assert Keys(rows[..i + 1]) == ks + [e];
    assert (ks + [e])[..|ks + [e]| - 1] == ks;
    assert RecordLines(ks + [e]) == RecordLines(ks) + [mark, row.command];
    LinesAppend(RecordLines(ks), [mark, row.command]);
    assert [mark, row.command][1..] == [row.command] && [row.command][1..] == [];
    assert Lines([row.command]) == row.command + "\n";
    assert Lines([mark, row.command]) == mark + "\n" + (row.command + "\n");
  }

  /** One more record prints two more lines. */
  lemma RecordLinesSnoc(es: seq<Entry>, e: Entry)
    ensures RecordLines(es + [e]) == RecordLines(es) + ["#" + IntToDecimal(e.timestamp), e.command]
  {
    assert (es + [e])[..|es|] == es;
  }

  lemma {:induction false} RecordLinesAppend(a: seq<Entry>, b: seq<Entry>)
    ensures RecordLines(a + b) == RecordLines(a) + RecordLines(b)
    decreases |b|
  {
    if b == [] {
      assert a + b == a;
    } else {
      var b', e := b[..|b| - 1], b[|b| - 1];
      var tail := ["#" + IntToDecimal(e.timestamp), e.command];
      assert b == b' + [e];
      assert a + b == (a + b') + [e];
      RecordLinesAppend(a, b');
      RecordLinesSnoc(a + b', e);
      RecordLinesSnoc(b', e);
      AppendAssoc(RecordLines(a), RecordLines(b'), tail);
    }
  }

  /** Every block is non-empty when none before the last is and the last one is not. */
  lemma {:induction false} AllBlocksNonEmpty(bs: seq<Block>)
    requires |bs| > 0 && !EmptyBeforeLast(bs) && bs[|bs| - 1].cmds != []
    ensures forall k :: 0 <= k < |bs| ==> bs[k].cmds != []
  {
    if |bs| > 1 {
      AllBlocksNonEmpty(bs[1..]);
      forall k | 0 < k < |bs| ensures bs[k].cmds != [] {
        assert bs[k] == bs[1..][k - 1];
      }
    }
  }

  lemma {:induction false} MarkerInFlatten(bs: seq<Block>, k: nat)
    requires k < |bs|
    ensures bs[k].marker in Flatten(bs)
  {
    if k > 0 {
      MarkerInFlatten(bs[1..], k - 1);
    }
  }

  /** The record of one block of command lines. */
  function BlockEntry(b: Block): Entry
    requires IsMarker(b.marker)
  {
    Entry(MarkerValue(b.marker), Join(b.cmds, "\n"))
  }

  /** One non-empty block with a canonical marker prints back as its own lines. */
  lemma BlockRoundTrip(b: Block)
    requires CanonicalMarker(b.marker) && b.cmds != []
    ensures Lines(RecordLines([BlockEntry(b)])) == Lines([b.marker] + b.cmds)
  {
    var e := BlockEntry(b);
    var mark := "#" + IntToDecimal(e.timestamp);
    assert [e][..0] == [];
    assert RecordLines([e]) == [mark, e.command];
    CanonicalRoundTrip(b.marker[1..]);
    assert mark == b.marker;
    JoinThenPrint(b.cmds);
    assert [mark, e.command][1..] == [e.command] && [e.command][1..] == [];
    assert Lines([e.command]) == e.command + "\n";
    assert Lines([mark, e.command]) == mark + "\n" + (e.command + "\n");
    assert ([b.marker] + b.cmds)[1..] == b.cmds;
  }

  /** Printing the records of non-empty blocks with canonical markers reprints the blocks' lines. */
  lemma {:induction false} BlocksRoundTrip(bs: seq<Block>)
    requires WellFormed(bs)
    requires forall k :: 0 <= k < |bs| ==> bs[k].cmds != [] && CanonicalMarker(bs[k].marker)
    ensures Lines(RecordLines(BlockRecords(bs))) == Lines(Flatten(bs))
  {
    if bs != [] {
      var b := bs[0];
      var rest := BlockRecords(bs[1..]);
      BlocksRoundTrip(bs[1..]);
      assert BlockRecords(bs) == [BlockEntry(b)] + rest;
      RecordLinesAppend([BlockEntry(b)], rest);
      LinesAppend(RecordLines([BlockEntry(b)]), RecordLines(rest));
      BlockRoundTrip(b);
      LinesAppend([b.marker] + b.cmds, Flatten(bs[1..]));
    }
  }

  lemma StripTerminated(lines: seq<string>)
    requires forall l :: l in lines ==> '\n' !in l
    ensures StripAll(Terminated(lines)) == lines
  {
    forall i | 0 <= i < |lines| ensures StripNewlines(lines[i] + "\n") == lines[i] {
      assert lines[i] in lines;
      StripNewlinesTerminated(lines[i]);
    }
  }

  /** Every marker of every block is one of the lines it was cut from. */
  lemma BlockMarkersCanonical(lines: seq<string>)
    requires forall l :: l in lines && IsMarker(l) ==> Canonical(l[1..])
    ensures forall k :: 0 <= k < |Blocks(lines)| ==> CanonicalMarker(Blocks(lines)[k].marker)
  {
    var bs := Blocks(lines);
    BlocksFlatten(lines);
    forall k | 0 <= k < |bs| ensures CanonicalMarker(bs[k].marker) {
      WellFormedAt(bs, k);
      MarkerInFlatten(bs, k);
      var i :| 0 <= i < |lines[Run(lines)..]| && lines[Run(lines)..][i] == bs[k].marker;
      assert lines[Run(lines) + i] in lines;
    }
  }

  /** The reference round trip: no empty block, and the file does not end on a marker. */
  lemma ReferenceRoundTrip(lines: seq<string>)
    requires forall l :: l in lines && IsMarker(l) ==> Canonical(l[1..])
    requires |lines| > 0 && !IsMarker(lines[|lines| - 1])
    requires !Adjacent(lines)
    ensures Lines(RecordLines(BlockRecords(Blocks(lines)))) == Lines(lines[Run(lines)..])
  {
    var bs := Blocks(lines);
    AdjacentIffEmptyBlock(lines);
    if bs != [] {
      LastBlockEmpty(lines);
      AllBlocksNonEmpty(bs);
      BlockMarkersCanonical(lines);
      BlocksRoundTrip(bs);
      BlocksFlatten(lines);
    }
  }

  /**
   * Round trip of the parser as written: whenever it succeeds on a file that
   * does not end on a marker and whose markers are printed without leading
   * zeros, printing its rows gives back the file from the first marker on.
   */
  lemma RoundTrip(lines: seq<string>)
    requires forall l :: l in lines ==> '\n' !in l
    requires forall l :: l in lines && IsMarker(l) ==> Canonical(l[1..])
    requires |lines| > 0 && !IsMarker(lines[|lines| - 1])
    requires HistoryIter(Terminated(lines)).Success?
    ensures Output(HistoryIter(Terminated(lines)).value) == Lines(lines[Run(lines)..])
  {
    StripTerminated(lines);
    HistoryIterOutcome(Terminated(lines));
    ReferenceRoundTrip(lines);
    NumberedKeys(BlockRecords(Blocks(lines)));
  }

  /** Round trip of the corrected parser: every file without adjacent markers that does not end on one. */
  lemma RoundTripInitialised(lines: seq<string>)
    requires forall l :: l in lines ==> '\n' !in l
    requires forall l :: l in lines && IsMarker(l) ==> Canonical(l[1..])
    requires |lines| > 0 && !IsMarker(lines[|lines| - 1])
    requires !Adjacent(lines)
    ensures HistoryIterInitialised(Terminated(lines)).Success?
    ensures Output(HistoryIterInitialised(Terminated(lines)).value) == Lines(lines[Run(lines)..])
  {
    StripTerminated(lines);
    HistoryIterInitialisedMatchesReference(Terminated(lines));
    AdjacentIffEmptyBlock(lines);
    ReferenceRoundTrip(lines);
    NumberedKeys(BlockRecords(Blocks(lines)));
  }

  // ---------------------------------------------------------------------
  // Files with fewer than two markers
  // ---------------------------------------------------------------------

  /**
   * A file holding a single multi-line record makes the parser as written fail
   * on `rows.append` (rows was never initialised); with `rows` initialised the
   * same file yields the one record, its lines joined.
   */
  lemma SingleRecordFile()
    ensures HistoryIter(["#100\n", "ls x\n", "ls y\n", "ls z\n"]) == Failure(AppendToNone)
    ensures HistoryIterInitialised(["#100\n", "ls x\n", "ls y\n", "ls z\n"])
         == Success([Row(Instant(100), 0, "ls x\nls y\nls z")])
  {
    StripFourLines();
    SingleRecordParse(None);
    SingleRecordInitialised();
  }

  lemma SingleRecordInitialised()
    ensures Parse(["#100", "ls x", "ls y", "ls z"], None, None, Some([]), map[])
         == Success(Some([Row(Instant(100), 0, "ls x\nls y\nls z")]))
  {
    var cmds := ["ls x", "ls y", "ls z"];
    SingleRecordParse(Some([]));
    assert Join(cmds, "\n") == "ls x\nls y\nls z" by {
      assert cmds[1..] == ["ls y", "ls z"] && cmds[1..][1..] == ["ls z"];
    }
    var row := Row(Instant(100), 0, "ls x\nls y\nls z");
    assert MkRow(100, cmds, map[]).0 == row;
    assert [] + [row] == [row];
  }

  /** The four lines leave the parser at the end of input with the three commands pending under timestamp 100. */
  lemma SingleRecordParse(rows: Option<seq<Row>>)
    ensures Parse(["#100", "ls x", "ls y", "ls z"], None, None, rows, map[])
         == Parse([], Some(100), Some(["ls x", "ls y", "ls z"]), rows, map[])
  {
    var ls := ["#100", "ls x", "ls y", "ls z"];
    var cmds := ["ls x", "ls y", "ls z"];
    MarkerHundred();
    ConsParts("#100", cmds);
    assert ls == ["#100"] + cmds;
    assert Parse(ls, None, None, rows, map[]) == Parse(cmds, Some(100), None, rows, map[]);
    assert !IsMarker(cmds[0]) && !IsMarker(cmds[1]) && !IsMarker(cmds[2]);
    SkipCommands(cmds, 3, Some(100), None, rows, map[]);
    assert cmds[3..] == [] && cmds[..3] == cmds && [] + cmds == cmds;
  }

  lemma StripFourLines()
    ensures StripAll(["#100\n", "ls x\n", "ls y\n", "ls z\n"]) == ["#100", "ls x", "ls y", "ls z"]
  {
    var ls := ["#100", "ls x", "ls y", "ls z"];
    var fp := ["#100\n", "ls x\n", "ls y\n", "ls z\n"];
    forall i | 0 <= i < 4 ensures Terminated(ls)[i] == fp[i] {
    }
    assert Terminated(ls) == fp;
    StripTerminated(ls);
  }

  lemma MarkerHundred()
    ensures IsMarker("#100") && MarkerValue("#100") == 100
  {
    assert NatToDecimal(100) == "100" by {
      assert NatToDecimal(1) == "1" && NatToDecimal(10) == "10";
    }
    MarkerRoundTrip(100);
    assert "#100" == "#" + NatToDecimal(100);
  }

  /** A file without timestamps makes the parser as written fail (parse returns None); initialised, it yields nothing. */
  lemma NoMarkerFile()
    ensures HistoryIter(["ls\n"]) == Failure(NotIterable)
    ensures HistoryIterInitialised(["ls\n"]) == Success([])
  {
    StripNewlinesTerminated("ls");
    assert "ls" + "\n" == "ls\n";
    var ls := StripAll(["ls\n"]);
    assert ls[0] == "ls";
    assert ls == ["ls"];
    assert !IsMarker("ls");
    assert ls[1..] == [];
    assert Parse(ls, None, None, None, map[]) == Parse([], None, Some(["ls"]), None, map[]);
    assert Parse(ls, None, None, Some([]), map[]) == Parse([], None, Some(["ls"]), Some([]), map[]);
  }
}
