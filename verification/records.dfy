/**
 * The record model shared by both history formats and the store
 * (src/schist/db.py `Row`), and the per-timestamp counter that both
 * parsers assign.
 */
module Records {

  /** An `arrow.Arrow` at one-second resolution, kept as unix seconds. */
  datatype Instant = Instant(unix: int)

  /** The named parameters a row binds in SQL (`Row.as_sql_dict`): the timestamp as unix seconds. */
  datatype SqlDict = SqlDict(timestamp: int, counter: nat, command: string)

  /** One table row, which is also the table's primary key `(timestamp, command)`. */
  datatype Entry = Entry(timestamp: int, command: string)

  /** A parsed or stored history record. */
  datatype Row = Row(timestamp: Instant, counter: nat, command: string) {

    /** `Row.unix`. */
    function Unix(): (u: int)
      ensures Instant(u) == timestamp
    {
      timestamp.unix
    }

    /** `Row.as_sql_dict`: the same fields, with the timestamp turned into unix seconds. */
    function AsSqlDict(): (d: SqlDict)
      ensures d.timestamp == Unix()
    {
      SqlDict(timestamp.unix, counter, command)
    }

    /** `Row.__iter__`: the pair `(timestamp, command)` that `ts, cmd = row` unpacks. */
    function Fields(): (p: (Instant, string))
      ensures KeyOf(AsSqlDict()) == Entry(p.0.unix, p.1)
    {
      (timestamp, command)
    }
  }

  /** `Row(**d)`: the `arrow.get` converter turns unix seconds back into an instant. */
  function FromSql(d: SqlDict): (r: Row)
    ensures r.AsSqlDict() == d
  {
    Row(Instant(d.timestamp), d.counter, d.command)
  }

  /** `Row(**row.as_sql_dict())` rebuilds the row it came from. */
  lemma SqlRoundTrip(r: Row)
    ensures FromSql(r.AsSqlDict()) == r
  {
  }

  /** The two named parameters `:timestamp` and `:command` that `REPLACE INTO` binds. */
  function KeyOf(d: SqlDict): Entry {
    Entry(d.timestamp, d.command)
  }

  /** A row read back by `select timestamp, command`; the table keeps no counter, so it is 0. */
  function StoredRow(e: Entry): (r: Row)
    ensures KeyOf(r.AsSqlDict()) == e
    ensures r.counter == 0
  {
    Row(Instant(e.timestamp), 0, e.command)
  }

  /** The table keys of a batch of rows, in order. */
  function Keys(rows: seq<Row>): (ks: seq<Entry>)
    ensures |ks| == |rows|
  {
    seq(|rows|, i requires 0 <= i < |rows| => KeyOf(rows[i].AsSqlDict()))
  }

  /** The keys of one more row are the keys so far and that row's key. */
  lemma KeysPrefix(rows: seq<Row>, i: nat)
    requires i < |rows|
    ensures Keys(rows[..i + 1]) == Keys(rows[..i]) + [Entry(rows[i].Unix(), rows[i].command)]
  {
    var a, b := Keys(rows[..i + 1]), Keys(rows[..i]);
    forall k | 0 <= k < i
      ensures a[k] == b[k]
    {
      assert rows[..i + 1][k] == rows[..i][k];
    }
  }

  /** What an iterator yielding `row.as_sql_dict()` for each row produces. */
  function SqlDicts(rows: seq<Row>): (ds: seq<SqlDict>)
    ensures |ds| == |rows|
    ensures forall i :: 0 <= i < |rows| ==> FromSql(ds[i]) == rows[i]
  {
    seq(|rows|, i requires 0 <= i < |rows| => rows[i].AsSqlDict())
  }

  lemma SqlDictsSnoc(rows: seq<Row>, r: Row)
    ensures SqlDicts(rows + [r]) == SqlDicts(rows) + [r.AsSqlDict()]
  {
  }

  /**
   * One step of a parser's counting loop: when the dictionary holds, for
   * every timestamp, the number of records seen with it, the next row takes
   * the dictionary's value for its timestamp, and bumping that entry keeps
   * the dictionary in step with one more record.
   */
  lemma CountStep(seen: seq<Entry>, e: Entry, counts: map<int, nat>)
    requires forall t :: Get(counts, t) == Tally(seen, t)
    ensures forall t :: Get(counts[e.timestamp := Get(counts, e.timestamp) + 1], t) == Tally(seen + [e], t)
    ensures SqlDicts(Numbered(seen)) + [Row(Instant(e.timestamp), Get(counts, e.timestamp), e.command).AsSqlDict()]
      == SqlDicts(Numbered(seen + [e]))
  {
    assert (seen + [e])[..|seen|] == seen;
    CountsOfTally(seen, e.timestamp);
    NumberedSnoc(seen, e);
    SqlDictsSnoc(Numbered(seen), Row(Instant(e.timestamp), Get(counts, e.timestamp), e.command));
  }

  /** The rows a table reads back as, in rowid order. */
  function StoredRows(es: seq<Entry>): (rs: seq<Row>)
    ensures Keys(rs) == es
  {
    seq(|es|, i requires 0 <= i < |es| => StoredRow(es[i]))
  }

  // ---------------------------------------------------------------------
  // Counters: the first record with a given unix timestamp gets 0, the
  // next one 1, and so on (bash `count`/`mkrow`, zsh `countdict`).
  // ---------------------------------------------------------------------

  /** How many of `es` carry unix timestamp `t`. */
  function Tally(es: seq<Entry>, t: int): nat {
    if es == [] then 0
    else Tally(es[..|es| - 1], t) + (if es[|es| - 1].timestamp == t then 1 else 0)
  }

  /** The rows for a batch of records: each counter is the number of earlier records with the same timestamp. */
  function Numbered(es: seq<Entry>): (rows: seq<Row>)
    ensures |rows| == |es|
  {
    seq(|es|, i requires 0 <= i < |es| =>
      Row(Instant(es[i].timestamp), Tally(es[..i], es[i].timestamp), es[i].command))
  }

  /** A `defaultdict(int)` lookup. */
  function Get(m: map<int, nat>, t: int): nat {
    if t in m then m[t] else 0
  }

  /** The counter dictionary after counting `es` one by one (`countdict[ts] += 1`). */
  function CountsOf(es: seq<Entry>): map<int, nat> {
    if es == [] then map[]
    else
      var m := CountsOf(es[..|es| - 1]);
      var t := es[|es| - 1].timestamp;
      m[t := Get(m, t) + 1]
  }

  /** Counting one more record bumps its timestamp's entry and leaves the others alone. */
  lemma CountsOfSnoc(es: seq<Entry>, e: Entry)
    ensures CountsOf(es + [e]) == CountsOf(es)[e.timestamp := Get(CountsOf(es), e.timestamp) + 1]
  {
    assert (es + [e])[..|es|] == es;
  }

  /** The counter dictionary holds, for every timestamp, how many records carried it. */
  lemma {:induction false} CountsOfTally(es: seq<Entry>, t: int)
    ensures Get(CountsOf(es), t) == Tally(es, t)
  {
    if es != [] {
      CountsOfTally(es[..|es| - 1], t);
    }
  }

  /**
   * Appending one record to the batch appends one row whose counter is the
   * dictionary's current value for its timestamp: the step both parsers take.
   */
  lemma NumberedSnoc(es: seq<Entry>, e: Entry)
    ensures Numbered(es + [e]) ==
      Numbered(es) + [Row(Instant(e.timestamp), Get(CountsOf(es), e.timestamp), e.command)]
  {
    var a, b := Numbered(es + [e]), Numbered(es) + [Row(Instant(e.timestamp), Get(CountsOf(es), e.timestamp), e.command)];
    CountsOfTally(es, e.timestamp);
    assert (es + [e])[..|es|] == es;
    forall i | 0 <= i < |es|
      ensures a[i] == b[i]
    {
      assert (es + [e])[..i] == es[..i];
    }
  }

  /** The number of records in a prefix that carry `t` only grows, by one at each record carrying `t`. */
  lemma {:induction false} TallyGrows(es: seq<Entry>, i: nat, j: nat)
    requires i < j <= |es|
    ensures Tally(es[..j], es[i].timestamp) >= Tally(es[..i], es[i].timestamp) + 1
  {
    var t := es[i].timestamp;
    assert es[..j][..j - 1] == es[..j - 1];
    if j - 1 > i {
      TallyGrows(es, i, j - 1);
    } else {
      assert es[..j][j - 1] == es[i];
    }
  }

  /** Within one batch no two rows share both timestamp and counter. */
  lemma NumberedUnique(es: seq<Entry>)
    ensures forall i, j :: 0 <= i < j < |es| && Numbered(es)[i].timestamp == Numbered(es)[j].timestamp ==>
      Numbered(es)[i].counter < Numbered(es)[j].counter
  {
    var rows := Numbered(es);
    forall i, j | 0 <= i < j < |es| && rows[i].timestamp == rows[j].timestamp
      ensures rows[i].counter < rows[j].counter
    {
      TallyGrows(es, i, j);
    }
  }

  /** Numbering a batch and taking the table keys gives the batch back: the store drops the counter. */
  lemma NumberedKeys(es: seq<Entry>)
    ensures Keys(Numbered(es)) == es
  {
  }
}
