/**
 * The history store adapter: a configuration naming a table, the format's
 * parser and printer, and (once opened) a database connection. The
 * configuration itself never changes (opening yields a copy holding the
 * connection); the statements it runs change the tables behind the
 * connection.
 */
module HistStore {
  import opened Wrappers
  import opened Records
  import opened Table
  import Text
  import BashHistory

  /** Why an operation fails: the source's two exceptions, and the database and parser errors that reach the caller. */
  datatype DbError =
    | AlreadyOpen      // AlreadyOpenException
    | NoConnection     // NoConnectionError
    | Closed           // a statement on a connection that was closed
    | NoSuchTable      // a statement on a table that was never created
    | EmptyHistory     // last_cmd on an empty table: fetchone() is None
    | HistoryFailed    // the format's history iterator raised

  /** The tables every connection sees keep their primary key. */
  predicate ValidTables(tables: map<string, seq<Entry>>) {
    forall name :: name in tables ==> NoDups(tables[name])
  }

  /** `CREATE TABLE IF NOT EXISTS`: an empty table when there is none by that name. */
  function Created(tables: map<string, seq<Entry>>, name: string): (r: map<string, seq<Entry>>)
    ensures name in r && r.Keys == tables.Keys + {name}
    ensures forall n :: n in tables ==> r[n] == tables[n]
    ensures name !in tables ==> r[name] == []
  {
    if name in tables then tables else tables[name := []]
  }

  /**
   * What `insert` leaves: the parsed records REPLACEd into the table one by
   * one, or, when the table is missing or the parser raises, an error and
   * (the transaction rolled back) the tables as they were.
   */
  function Loaded(tables: map<string, seq<Entry>>, name: string,
                  historyIter: seq<string> -> Option<seq<Row>>, fp: seq<string>): Result<map<string, seq<Entry>>, DbError>
  {
    if name !in tables then Failure(NoSuchTable)
    else match historyIter(fp) {
      case None => Failure(HistoryFailed)
      case Some(rows) => Success(tables[name := ReplaceAll(tables[name], Keys(rows))])
    }
  }

  /** Creating the table a second time changes nothing. */
  lemma CreatedIdempotent(tables: map<string, seq<Entry>>, name: string)
    ensures Created(Created(tables, name), name) == Created(tables, name)
  {
  }

  /** Inserting the same history file twice leaves the tables as inserting it once did. */
  lemma LoadedIdempotent(tables: map<string, seq<Entry>>, name: string,
                         historyIter: seq<string> -> Option<seq<Row>>, fp: seq<string>)
    requires Loaded(tables, name, historyIter, fp).Success?
    ensures Loaded(Loaded(tables, name, historyIter, fp).value, name, historyIter, fp) ==
            Loaded(tables, name, historyIter, fp)
  {
    var es := Keys(historyIter(fp).value);
    ReplaceAllIdempotent(tables[name], es);
    var once := Loaded(tables, name, historyIter, fp).value;
    assert once[name := ReplaceAll(once[name], es)] == once;
  }

  /** Inserting records with distinct keys into an empty table stores them in file order. */
  lemma LoadedFresh(name: string, historyIter: seq<string> -> Option<seq<Row>>, fp: seq<string>, rows: seq<Row>)
    requires historyIter(fp) == Some(rows) && NoDups(Keys(rows))
    ensures Loaded(map[name := []], name, historyIter, fp) == Success(map[name := Keys(rows)])
  {
    var empty: map<string, seq<Entry>> := map[name := []];
    var es := Keys(rows);
    ReplaceAllFresh(es);
    assert name in empty && empty[name] == [];
    assert ReplaceAll(empty[name], es) == es;
    assert empty[name := es] == map[name := es];
  }

  /** Inserting keeps every table's primary key and touches no other table. */
  lemma LoadedValid(tables: map<string, seq<Entry>>, name: string,
                    historyIter: seq<string> -> Option<seq<Row>>, fp: seq<string>)
    requires ValidTables(tables)
    ensures Loaded(tables, name, historyIter, fp).Success? ==>
      var after := Loaded(tables, name, historyIter, fp).value;
      ValidTables(after) && after.Keys == tables.Keys &&
      forall n :: n in tables && n != name ==> after[n] == tables[n]
  {
    if Loaded(tables, name, historyIter, fp).Success? {
      ReplaceAllNoDups(tables[name], Keys(historyIter(fp).value));
    }
  }

  /** A database connection: the tables of the database it is attached to, and whether it was closed. */
  class Connection {
    var tables: map<string, seq<Entry>>
    var closed: bool

    predicate Valid()
      reads this
    {
      ValidTables(tables)
    }

    /** What the connection factory returns for a database file holding `tables`. */
    constructor (tables: map<string, seq<Entry>>)
      requires ValidTables(tables)
      ensures Valid()
      ensures this.tables == tables && !closed
    {
      this.tables := tables;
      closed := false;
    }
  }

  class HistConfig {
    const tableName: string
    /** The format's `history_iter`: the records of a history file, or None when it raises. */
    const historyIter: seq<string> -> Option<seq<Row>>
    /** The format's `history_output`: the text written for the rows. */
    const output: seq<Row> -> string
    const histfile: string
    const dbPath: string
    const conn: Option<Connection>

    /** A configuration that holds no connection yet. */
    constructor (tableName: string, historyIter: seq<string> -> Option<seq<Row>>,
                 output: seq<Row> -> string, histfile: string, dbPath: string)
      ensures this.tableName == tableName && this.historyIter == historyIter && this.output == output
      ensures this.histfile == histfile && this.dbPath == dbPath
      ensures conn.None?
    {
      this.tableName := tableName;
      this.historyIter := historyIter;
      this.output := output;
      this.histfile := histfile;
      this.dbPath := dbPath;
      conn := None;
    }

    /** `evolve(conn=c)`: a copy of `other` that holds `c`. */
    constructor Evolve(other: HistConfig, c: Connection)
      ensures tableName == other.tableName && historyIter == other.historyIter && output == other.output
      ensures histfile == other.histfile && dbPath == other.dbPath
      ensures conn == Some(c)
    {
      tableName := other.tableName;
      historyIter := other.historyIter;
      output := other.output;
      histfile := other.histfile;
      dbPath := other.dbPath;
      conn := Some(c);
    }

    /** The objects the statements read and write. */
    function Footprint(): set<object> {
      if conn.Some? then {conn.value} else {}
    }

    predicate Valid()
      reads Footprint()
    {
      conn.Some? ==> conn.value.Valid()
    }

    /** The `conn` property: the connection held, or NoConnectionError when there is none. */
    function Conn(): (r: Result<Connection, DbError>)
      ensures r.Failure? <==> conn.None?
      ensures r.Failure? ==> r.error == NoConnection
      ensures r.Success? ==> Some(r.value) == conn
    {
      if conn.None? then Failure(NoConnection) else Success(conn.value)
    }

    /**
     * `_open` for `open`: fails when a connection is already held; otherwise
     * a copy of this configuration holding `c`, the connection the factory
     * made for `db_path`.
     */
    method Open(c: Connection) returns (r: Result<HistConfig, DbError>)
      ensures conn.Some? ==> r == Failure(AlreadyOpen)
      ensures conn.None? ==> r.Success? && fresh(r.value) && r.value.conn == Some(c)
      ensures r.Success? ==>
        && r.value.tableName == tableName && r.value.historyIter == historyIter
        && r.value.output == output && r.value.histfile == histfile && r.value.dbPath == dbPath
    {
      if conn.Some? {
        return Failure(AlreadyOpen);
      }
      var hc := new HistConfig.Evolve(this, c);
      return Success(hc);
    }

    /** `_close`: closes the connection held, if any; closing a closed connection fails. */
    method Close() returns (r: Result<(), DbError>)
      modifies Footprint()
      ensures conn.None? ==> r.Success?
      ensures conn.Some? ==> conn.value.tables == old(conn.value.tables) && conn.value.closed
      ensures conn.Some? ==> (r.Failure? <==> old(conn.value.closed))
      ensures r.Failure? ==> r.error == Closed
    {
      if conn.Some? {
        var c := conn.value;
        if c.closed {
          return Failure(Closed);
        }
        c.closed := true;
      }
      return Success(());
    }

    /** The rows of this configuration's table in rowid order, or why no statement on it can run. */
    function Stored(): (r: Result<seq<Entry>, DbError>)
      reads Footprint()
      ensures r.Success? <==> conn.Some? && !conn.value.closed && tableName in conn.value.tables
      ensures r.Success? ==> r.value == conn.value.tables[tableName]
    {
      if conn.None? then Failure(NoConnection)
      else if conn.value.closed then Failure(Closed)
      else if tableName !in conn.value.tables then Failure(NoSuchTable)
      else Success(conn.value.tables[tableName])
    }

    /** `table_exists`: whether the database has a table of this name. */
    function TableExists(): (r: Result<bool, DbError>)
      reads Footprint()
      ensures r.Failure? <==> conn.None? || conn.value.closed
      ensures r.Success? ==> (r.value <==> Stored().Success?)
    {
      if conn.None? then Failure(NoConnection)
      else if conn.value.closed then Failure(Closed)
      else Success(tableName in conn.value.tables)
    }

    /** `create_table`: `CREATE TABLE IF NOT EXISTS`. */
    method CreateTable() returns (r: Result<(), DbError>)
      requires Valid()
      modifies Footprint()
      ensures Valid()
      ensures r.Failure? <==> old(TableExists()).Failure?
      ensures r.Failure? ==> r == Failure(old(TableExists()).error)
      ensures conn.Some? ==> conn.value.closed == old(conn.value.closed)
      ensures conn.Some? && r.Success? ==> conn.value.tables == Created(old(conn.value.tables), tableName)
      ensures conn.Some? && r.Failure? ==> conn.value.tables == old(conn.value.tables)
    {
      if conn.None? {
        return Failure(NoConnection);
      }
      var c := conn.value;
      if c.closed {
        return Failure(Closed);
      }
      c.tables := Created(c.tables, tableName);
      return Success(());
    }

    /** `init_db`: creates the table only when it is absent; afterwards it exists. */
    method InitDb() returns (r: Result<(), DbError>)
      requires Valid()
      modifies Footprint()
      ensures Valid()
      ensures r.Failure? <==> old(TableExists()).Failure?
      ensures r.Success? ==> TableExists() == Success(true)
      ensures conn.Some? ==> conn.value.closed == old(conn.value.closed)
      ensures conn.Some? && r.Success? ==> conn.value.tables == Created(old(conn.value.tables), tableName)
      ensures conn.Some? && r.Failure? ==> conn.value.tables == old(conn.value.tables)
    {
      var present := TableExists();
      if present.Failure? {
        return Failure(present.error);
      }
      if !present.value {
        r := CreateTable();
      } else {
        r := Success(());
      }
    }

    /**
     * `insert`: REPLACEs the records the format's parser reads from the
     * history file into the table, one statement per record, in one
     * transaction: on any error the table is left as it was.
     */
    method Insert(fp: seq<string>) returns (r: Result<(), DbError>)
      requires Valid()
      modifies Footprint()
      ensures Valid()
      ensures conn.None? ==> r == Failure(NoConnection)
      ensures conn.Some? ==> conn.value.closed == old(conn.value.closed)
      ensures conn.Some? && old(conn.value.closed) ==>
        r == Failure(Closed) && conn.value.tables == old(conn.value.tables)
      ensures conn.Some? && !old(conn.value.closed) ==>
        match Loaded(old(conn.value.tables), tableName, historyIter, fp) {
          case Success(after) => r.Success? && conn.value.tables == after
          case Failure(e) => r == Failure(e) && conn.value.tables == old(conn.value.tables)
        }
    {
      if conn.None? {
        return Failure(NoConnection);
      }
      var c := conn.value;
      if c.closed {
        return Failure(Closed);
      }
      if tableName !in c.tables {
        return Failure(NoSuchTable);
      }
      var rows := historyIter(fp);
      if rows.None? {
        return Failure(HistoryFailed);
      }
      var es := Keys(rows.value);
      var before := c.tables;
      var t := ReplaceRows(before[tableName], es);
      LoadedValid(before, tableName, historyIter, fp);
      c.tables := before[tableName := t];
      return Success(());
    }

    /**
     * `with config.open() as h: h.init_db(); h.insert()`: opens a copy
     * holding `c`, creates the table when missing, loads the history file,
     * and closes `c` on the way out whether or not the body failed. A
     * configuration already holding a connection refuses and leaves `c` alone.
     */
    method Backup(c: Connection, fp: seq<string>) returns (r: Result<(), DbError>)
      requires c.Valid() && !c.closed
      modifies c
      ensures conn.Some? ==> r == Failure(AlreadyOpen) && c.tables == old(c.tables) && !c.closed
      ensures conn.None? ==> c.closed && c.Valid()
      ensures conn.None? ==>
        match Loaded(Created(old(c.tables), tableName), tableName, historyIter, fp) {
          case Success(after) => r.Success? && c.tables == after
          case Failure(e) => r == Failure(e) && c.tables == Created(old(c.tables), tableName)
        }
    {
      var session := Open(c);
      if session.Failure? {
        return Failure(session.error);
      }
      var hc := session.value;
      r := hc.InitDb();
      ghost var created := c.tables;
      assert created == Created(old(c.tables), tableName);
      if r.Success? {
        r := hc.Insert(fp);
      }
      var closing := hc.Close();
    }

    /** `count`: the number of rows in the table. */
    function Count(): (r: Result<nat, DbError>)
      reads Footprint()
      ensures r.Failure? <==> Stored().Failure?
      ensures r.Success? ==> r.value == |Rows(None).value|
    {
      match Stored() {
        case Failure(e) => Failure(e)
        case Success(t) => Success(|t|)
      }
    }

    /** `rows(limit)`: the table's rows in rowid order, the first `limit` of them when a limit is given. */
    function Rows(limit: Option<int>): (r: Result<seq<Row>, DbError>)
      reads Footprint()
      ensures r.Failure? <==> Stored().Failure?
      ensures r.Success? ==> Keys(r.value) == Take(Stored().value, limit)
      ensures r.Success? ==> forall i :: 0 <= i < |r.value| ==> r.value[i].counter == 0
    {
      match Stored() {
        case Failure(e) => Failure(e)
        case Success(t) => Success(StoredRows(Take(t, limit)))
      }
    }

    /** `cmds_since(ts)`: how many rows are strictly newer than `ts`. */
    function CmdsSince(ts: int): (r: Result<nat, DbError>)
      reads Footprint()
      ensures r.Failure? <==> Stored().Failure?
      ensures r.Success? ==> r.value == |After(Stored().value, ts)| && r.value <= |Stored().value|
    {
      match Stored() {
        case Failure(e) => Failure(e)
        case Success(t) => Success(CountSince(t, ts))
      }
    }

    /** `last_cmd`: the timestamp of the row stored last (highest rowid); an empty table has none. */
    function LastCmd(): (r: Result<int, DbError>)
      reads Footprint()
      ensures Stored().Failure? ==> r == Failure(Stored().error)
      ensures Stored().Success? && Stored().value == [] ==> r == Failure(EmptyHistory)
      ensures Stored().Success? && Stored().value != [] ==>
        r == Success(Stored().value[|Stored().value| - 1].timestamp)
    {
      match Stored() {
        case Failure(e) => Failure(e)
        case Success(t) =>
          match LastTimestamp(t) {
            case None => Failure(EmptyHistory)
            case Some(ts) => Success(ts)
          }
      }
    }

    /** `search(term, limit)`: the rows whose command is LIKE `term`, newest first, at most `limit` of them. */
    function Search(term: string, limit: int): (r: Result<seq<Row>, DbError>)
      reads Footprint()
      ensures r.Failure? <==> Stored().Failure?
      ensures r.Success? ==> Keys(r.value) == Table.Search(Stored().value, term, limit)
      ensures r.Success? ==> forall i :: 0 <= i < |r.value| ==>
        Like(term, r.value[i].command) && KeyOf(r.value[i].AsSqlDict()) in Stored().value
      ensures r.Success? ==> forall i :: 0 <= i < |r.value| ==> r.value[i].counter == 0
    {
      match Stored() {
        case Failure(e) => Failure(e)
        case Success(t) =>
          SearchSpec(t, term, limit);
          Success(StoredRows(Table.Search(t, term, limit)))
      }
    }

    /** `restore`: the text the format's printer writes for all rows. */
    function Restore(): (r: Result<string, DbError>)
      reads Footprint()
      ensures r.Failure? <==> Stored().Failure?
      ensures r.Success? ==> r.value == output(Rows(None).value)
    {
      match Rows(None) {
        case Failure(e) => Failure(e)
        case Success(rows) => Success(output(rows))
      }
    }
  }

  /** The statement loop of `insert`: one REPLACE per record, in file order. */
  method ReplaceRows(t: seq<Entry>, es: seq<Entry>) returns (r: seq<Entry>)
    ensures r == ReplaceAll(t, es)
  {
    r := t;
    for i := 0 to |es|
      invariant r == ReplaceAll(t, es[..i])
    {
      ReplacePrefix(t, es, i);
      r := Replace(r, es[i]);
    }
    assert es[..|es|] == es;
  }

  /** The bash format's `history_iter`, with its exceptions folded into None. */
  function BashIter(fp: seq<string>): (r: Option<seq<Row>>)
    ensures r.Some? <==> BashHistory.HistoryIter(fp).Success?
    ensures r.Some? ==> r.value == BashHistory.HistoryIter(fp).value
  {
    match BashHistory.HistoryIter(fp) {
      case Success(rows) => Some(rows)
      case Failure(_) => None
    }
  }

  /** The bash format's configuration: its table, parser, printer and default history file. */
  method BashConfig() returns (hc: HistConfig)
    ensures fresh(hc) && hc.conn.None?
    ensures hc.tableName == "bash_history" && hc.histfile == "~/.bash_history"
    ensures hc.historyIter == BashIter && hc.output == BashHistory.Output
  {
    hc := new HistConfig("bash_history", BashIter, BashHistory.Output, "~/.bash_history", "~/.schist.sq3");
  }

  /**
   * A bash backup and restore against a fresh database: open, create the
   * table, insert the history file twice, restore, close. When the file's
   * records have distinct keys, the second insert changes nothing and the
   * restored text is the file less the command lines before its first
   * marker.
   */
  method BashBackupRestore(lines: seq<string>) returns (count: Result<nat, DbError>, out: Result<string, DbError>)
    requires forall l :: l in lines ==> '\n' !in l
    requires forall l :: l in lines && BashHistory.IsMarker(l) ==> Text.Canonical(l[1..])
    requires |lines| > 0 && !BashHistory.IsMarker(lines[|lines| - 1])
    requires BashHistory.HistoryIter(Text.Terminated(lines)).Success?
    requires NoDups(Keys(BashHistory.HistoryIter(Text.Terminated(lines)).value))
    ensures count == Success(|BashHistory.HistoryIter(Text.Terminated(lines)).value|)
    ensures out == Success(Text.Lines(lines[BashHistory.Run(lines)..]))
  {
    var fp := Text.Terminated(lines);
    var rows := BashHistory.HistoryIter(fp).value;
    var config := BashConfig();
    var c := new Connection(map[]);
    var session := config.Open(c);
    var hc := session.value;
    var init := hc.InitDb();
    InsertTwice(hc, fp, rows);
    count := hc.Count();
    out := hc.Restore();
    BashHistory.RoundTrip(lines);
    assert Keys(hc.Rows(None).value) == Keys(rows);
    var closing := hc.Close();
  }

  /**
   * Two inserts of a history file into an empty table whose records have
   * distinct keys: the table holds those records once, in file order.
   */
  method InsertTwice(hc: HistConfig, fp: seq<string>, rows: seq<Row>)
    requires hc.Valid() && hc.conn.Some? && !hc.conn.value.closed
    requires hc.conn.value.tables == map[hc.tableName := []]
    requires hc.historyIter(fp) == Some(rows) && NoDups(Keys(rows))
    modifies hc.Footprint()
    ensures hc.Valid() && !hc.conn.value.closed
    ensures hc.conn.value.tables == map[hc.tableName := Keys(rows)]
  {
    LoadedFresh(hc.tableName, hc.historyIter, fp, rows);
    LoadedIdempotent(map[hc.tableName := []], hc.tableName, hc.historyIter, fp);
    var first := hc.Insert(fp);
    var second := hc.Insert(fp);
  }
}
