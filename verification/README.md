# schist history core, modelled in Dafny

schist backs up shell history into a SQLite database and restores it in a
shell's own format. This project models its core:

- the **bash history format** (`schist/bash.py`). `history_iter` reads a
  file of `#<unix time>` marker lines, each followed by the command lines of
  one record. It numbers records that share a second with a counter.
  `history_output` prints rows back in the same format.
- the **zsh extended-history format** (`zshbackup/zsh.py`). `history_iter`
  matches every line against `^: <start>:<duration>;<command>$`, numbers
  the records, yields their SQL dictionaries and skips lines that do not
  match. `history_output` prints `: <start>:0;<command>` lines.
- the **history store adapter** (`src/schist/db.py`):
  - `Row`, with its SQL dictionary and its unix time;
  - `HistConfig`, which opens and closes a connection, creates the table, and
    `REPLACE`s a history file's records into it;
  - the read queries: rows in insertion order with a limit, count, commands
    since a time, last command, `LIKE` search newest first, and restore.

The database is a `Connection` object holding a map from table name to the
table's rows in row-id order. Statements change that map in place. Each row
is a (timestamp, command) pair, which is the table's primary key.

Modules:

- `Wrappers` holds `Option` and `Result`.
- `Text` holds decimal digits, `'\n'.join`, `print` and `rstrip("\n")`.
- `Records` holds `Row`, the SQL dictionary, and the per-second counter,
  specified by `Numbered`.
- `BashHistory` and `ZshHistory` hold the two formats.
- `Table` holds the table as a sequence: `REPLACE`, `LIMIT`, `LIKE`,
  `ORDER BY timestamp DESC`.
- `HistStore` holds the `Connection` and `HistConfig` classes.

Two behaviours of the bash parser are kept as the code has them:

- A marker line straight after another marker fails the assertion at
  `schist/bash.py:49`; the model returns the error `MarkerAfterMarker`.
- A file with one marker and commands after it makes `parse` call
  `rows.append` on `None` (`schist/bash.py:39`), and a file with no
  marker, or whose only marker is its last line, makes it return `None`
  (`schist/bash.py:40`), which the caller cannot iterate. "## Findings"
  gives the corrected version.

The parsers build `Row(timestamp, counter, command)`. The `Row` of
`src/schist/db.py` has no counter field. The model's `Row` carries the
counter the parsers assign, and rows read back from the table carry
counter 0. The `schist/db.py` that `schist/bash.py` imports is not part of
this model.

## Model

| member | source | states |
|---|---|---|
| Records.Row.Unix | src/schist/db.py:42-44 | the unix time of a row is its timestamp's seconds |
| Records.Row.AsSqlDict | src/schist/db.py:37-40 | the SQL dictionary carries the row's fields, with the timestamp as integer seconds |
| Records.Row.Fields | src/schist/db.py:46-47 | iterating a row gives its timestamp and its command, in that order |
| Records.SqlRoundTrip | src/schist/db.py:37-40 | rebuilding a row from its SQL dictionary gives the row back |
| Records.SqlDicts | zshbackup/zsh.py:38 | one SQL dictionary per row, in order, each rebuilding that row |
| Records.StoredRow | src/schist/db.py:176-177 | a row read back from the table has the stored time and command and counter 0 |
| Records.StoredRows | src/schist/db.py:176-177 | rows read back are one per stored key, in order, and their keys are the stored keys |
| Records.CountsOfTally | schist/bash.py:19-24 | after a run of records, the counter dictionary maps every second to the number of records seen in it |
| Records.NumberedSnoc | schist/bash.py:26-31 | a new record's counter is the number of earlier records in the same second |
| Records.NumberedUnique | zshbackup/zsh.py:30-36 | within one parse, no two rows share both timestamp and counter |
| Records.CountStep | zshbackup/zsh.py:30-38 | one loop step of the zsh iterator: when the dictionary counts the records seen per second, the counter it reads and the dictionary it yields extend the numbered records, and the bumped dictionary counts one more record |
| Text.DecimalRoundTrip | schist/bash.py:65 | the decimal print of a non-negative unix time reads back as that time and has no leading zero |
| Text.CanonicalRoundTrip | schist/bash.py:42-45 | a digit string without a leading zero is the decimal print of its value |
| Text.JoinThenPrint | schist/bash.py:63-66 | printing a command joined by newlines gives its lines, each newline-terminated |
| Text.StripNewlines | schist/bash.py:59 | `rstrip("\n")` leaves no trailing newline and removes only newlines |
| Text.StripNewlinesTerminated | schist/bash.py:59 | stripping a newline-terminated line without inner newlines gives the line |
| Text.LinesAppend | schist/bash.py:63-66 | printing two runs of lines prints the first and then the second |
| BashHistory.MarkerRoundTrip | schist/bash.py:16 | the printed marker of any unix time matches the marker pattern and reads back as that time |
| BashHistory.Blocks | schist/bash.py:42-57 | every block opens with a marker line and holds no marker among its command lines |
| BashHistory.BlocksFlatten | schist/bash.py:42-57 | the blocks, flattened, are the file from its first marker on |
| BashHistory.Run | schist/bash.py:42-45 | the command lines before the first marker are a maximal marker-free prefix |
| BashHistory.HistoryIterMatchesReference | schist/bash.py:18-60 | the recursive parser gives the reference result: marker after marker is an error, a file whose records never became a list is an error, and otherwise the numbered blocks |
| BashHistory.HistoryIterOutcome | schist/bash.py:36-57 | each outcome has a precise condition: marker-after-marker iff two markers are adjacent; append to None iff exactly one marker and a command after it; not iterable iff no marker, or one marker last; otherwise success with one row per non-final-empty block |
| BashHistory.AdjacentIffEmptyBlock | schist/bash.py:49 | two adjacent markers occur exactly when some block before the last has no command lines |
| BashHistory.BlocksCount | schist/bash.py:42-53 | there is one block per marker line |
| BashHistory.LeadingCommandsDiscarded | schist/bash.py:54-57 | command lines before the first marker do not change the result |
| BashHistory.HistoryOutput | schist/bash.py:63-66 | the printed text is every row's marker line followed by its command, in row order |
| BashHistory.OutputStep | schist/bash.py:64-66 | the printed text of one more row is the old text followed by that row's two prints |
| BashHistory.RoundTrip | tests/schist/bash_test.py:27-28 | a file of canonical markers that ends in a command and parses prints back as itself, less the lines before its first marker |
| BashHistory.HistoryIterInitialisedMatchesReference | schist/bash.py:50 | with the row list initialised, only adjacent markers fail, and the result is the numbered blocks |
| BashHistory.RoundTripInitialised | schist/bash.py:50 | with the row list initialised, every such file without adjacent markers round-trips |
| BashHistory.SingleRecordFile | schist/bash.py:36-40 | a file with one record fails as written, and gives that record once the row list is initialised |
| BashHistory.NoMarkerFile | schist/bash.py:36-40 | a file with no marker fails as written, and gives no rows once the row list is initialised |
| ZshHistory.DigitRun | zshbackup/zsh.py:16 | the longest run of digits at the start of a string |
| ZshHistory.MatchCommand | zshbackup/zsh.py:16 | the command group never holds a newline and is the rest of the line less at most one final newline; there is no match exactly when a newline is left before the last character |
| ZshHistory.MatchCommandOf | zshbackup/zsh.py:16 | a one-line command, with or without a final newline, is captured whole |
| ZshHistory.MatchCommandSound | zshbackup/zsh.py:16 | a captured command is the tail less an optional final newline |
| ZshHistory.MatchLineComplete | zshbackup/zsh.py:16 | every line of the shape `: <digits>:<digits>;<command>` with an optional final newline matches, with that start time and command |
| ZshHistory.MatchLineSound | zshbackup/zsh.py:16 | every line that matches has that shape, and its time is the value of its start digits |
| ZshHistory.CollectLines | zshbackup/zsh.py:22-40 | the records are the accepted lines, in file order, one for each accepted line, and rejected lines give nothing |
| ZshHistory.MatchedLines | zshbackup/zsh.py:22-40 | the zsh records are exactly the lines that match the pattern, in file order |
| ZshHistory.HistoryIter | zshbackup/zsh.py:19-40 | the yielded dictionaries are the matched records, numbered per second, in file order |
| ZshHistory.CountersDistinct | zshbackup/zsh.py:20-36 | no two yielded rows share timestamp and counter |
| ZshHistory.CollectPair | zshbackup/zsh.py:22-38 | two accepted lines give their two records, in order |
| ZshHistory.SameSecond | zshbackup/zsh.py:26-36 | two lines in the same second give counters 0 and 1 |
| ZshHistory.NumberedPair | zshbackup/zsh.py:30-36 | two records in one second are numbered 0 and 1 |
| ZshHistory.HistoryOutput | zshbackup/zsh.py:43-45 | the printed text is one `: <time>:0;<command>` line per row, in order |
| ZshHistory.OutputStep | zshbackup/zsh.py:44-45 | printing one more row appends its line |
| ZshHistory.OutputLineMatches | zshbackup/zsh.py:16 | a printed line of a record with a non-negative time and a one-line command matches the pattern and gives that record back |
| ZshHistory.MatchedOutput | zshbackup/zsh.py:19-45 | parsing the printed records gives the records back |
| ZshHistory.RoundTripRecords | zshbackup/zsh.py:19-45 | printing and parsing gives the records back, numbered per second |
| ZshHistory.RoundTripFile | zshbackup/zsh.py:19-45 | parsing a printed file and printing the result gives the same text |
| Table.Drop | src/schist/db.py:137-140 | keeps exactly the rows whose key is not dropped, never adds a row, and leaves a table none of whose keys is dropped as it was |
| Table.DropAppend | src/schist/db.py:137-140 | deleting from two runs of rows keeps the first run's survivors before the second's, so the rows that stay keep their row-id order |
| Table.Replace | src/schist/db.py:137-140 | `REPLACE` of a row: it becomes the row with the highest row id, every other old row stays, and the primary key still holds |
| Table.ReplaceOrder | src/schist/db.py:137-140 | the rows before the replaced one are the old rows without its key, in their row-id order |
| Table.DropNoDups | src/schist/db.py:127 | dropping rows keeps the primary key |
| Table.ReplaceAllShape | src/schist/db.py:133-143 | replacing a batch leaves the old rows not in the batch, in order, followed by the batch replaced into an empty table: each of its keys once, at its last occurrence |
| Table.ReplaceAllMembers | src/schist/db.py:133-143 | after a batch, the stored keys are the old keys plus the batch's |
| Table.ReplaceAllIdempotent | tests/schist/bash_test.py:102-104 | replacing the same batch a second time changes nothing |
| Table.ReplaceAllNoDups | src/schist/db.py:127 | replacing a batch keeps the primary key |
| Table.ReplaceAllFresh | tests/schist/bash_test.py:97-98 | a batch with distinct keys replaced into an empty table is stored as it was given |
| Table.Take | src/schist/db.py:168-177 | no limit, or a negative one, gives every row; otherwise the first min(limit, count) rows in row-id order |
| Table.After | src/schist/db.py:179-181 | keeps exactly the rows strictly after the given time |
| Table.AfterMultiset | src/schist/db.py:179-181 | each row strictly after the given time is kept as many times as it is stored, and no other row is, so `cmds_since` counts exactly those rows |
| Table.CountSinceMonotone | src/schist/db.py:179-181 | a later time counts no more commands |
| Table.CountSinceBounds | src/schist/db.py:179-181 | the count is at most the table's size, and is the table's size when every row is strictly later |
| Table.LastTimestamp | src/schist/db.py:183-188 | none exactly on an empty table, otherwise the time of the row with the highest row id |
| Table.LastAfterReplace | tests/schist/bash_test.py:112 | after a batch of REPLACEs, the last command is the batch's last record |
| Table.LastIsNotNewest | src/schist/db.py:183-188 | the last command by row id need not be the newest by time |
| Table.LikeLiteral | src/schist/db.py:149 | a pattern without wildcards matches exactly the strings equal to it up to ASCII case |
| Table.LikePercent | src/schist/db.py:149 | a leading `%` matches exactly when the rest matches some suffix |
| Table.LikePrefix | src/schist/db.py:149 | a literal word followed by `%` matches exactly the strings that start with that word |
| Table.LikeAnything | src/schist/db.py:149 | `%` matches every command |
| Table.LikeContains | src/schist/app.py:281-284 | `%word%` matches exactly the commands that contain the word |
| Table.Matching | src/schist/db.py:149 | keeps exactly the rows whose command matches |
| Table.MatchingMultiset | src/schist/db.py:149 | each matching row is kept as many times as it is stored, and no other row is |
| Table.InsertDescPerm | src/schist/db.py:149 | inserting a row into an ordered run adds exactly that row |
| Table.InsertDescSorted | src/schist/db.py:149 | inserting a row into a run ordered newest first keeps it ordered |
| Table.SortDescSpec | src/schist/db.py:149 | `ORDER BY timestamp DESC` is a permutation of its input, newest first |
| Table.SearchSpec | src/schist/db.py:145-153 | the results are stored rows that match, newest first, min(limit, matches) of them (all for a negative limit), and no row left out is newer than one returned |
| HistStore.Created | src/schist/db.py:122-131 | `CREATE TABLE IF NOT EXISTS` adds an empty table only when the name is new, and changes no other table |
| HistStore.CreatedIdempotent | src/schist/db.py:113-115 | creating the table twice is the same as creating it once |
| HistStore.LoadedIdempotent | src/schist/db.py:133-143 | inserting the same history file twice leaves the tables as inserting it once |
| HistStore.LoadedFresh | tests/schist/bash_test.py:97-98 | inserting records with distinct keys into an empty table stores exactly their keys, in file order |
| HistStore.LoadedValid | src/schist/db.py:127 | inserting keeps the primary key of every table |
| HistStore.Connection.constructor | src/schist/db.py:102-104 | a new connection is open and holds the given tables |
| HistStore.HistConfig.constructor | src/schist/db.py:56-79 | a configuration is built with its fields as given and no connection |
| HistStore.HistConfig.Evolve | src/schist/db.py:190-191 | the copy has the same fields and the given connection |
| HistStore.HistConfig.Conn | src/schist/db.py:106-111 | the connection, or `NoConnectionError` when there is none |
| HistStore.HistConfig.Open | src/schist/db.py:81-89 | `AlreadyOpen` when a connection is held, with nothing changed; otherwise a copy holding the given connection |
| HistStore.HistConfig.Close | src/schist/db.py:91-100 | closes the held connection and leaves its tables as they were; closing a closed connection fails; without a connection nothing happens |
| HistStore.HistConfig.TableExists | src/schist/db.py:156-161 | true exactly when the connection has a table by that name |
| HistStore.HistConfig.CreateTable | src/schist/db.py:122-131 | the tables become `Created` of the old tables |
| HistStore.HistConfig.InitDb | src/schist/db.py:113-115 | afterwards the table exists, and the tables are `Created` of the old ones |
| HistStore.HistConfig.Insert | src/schist/db.py:133-143 | the tables become `Loaded`: the file's records REPLACEd into the table, or unchanged with the error |
| HistStore.ReplaceRows | src/schist/db.py:137-143 | the statement loop, one REPLACE per record in file order, leaves the table `ReplaceAll` gives |
| HistStore.HistConfig.Backup | src/schist/db.py:81-143 | open, create the table, insert and close: unchanged on `AlreadyOpen`, otherwise the connection is closed holding the inserted records |
| HistStore.HistConfig.Count | src/schist/db.py:117-120 | the number of stored rows, the same as the number of rows `rows()` yields |
| HistStore.HistConfig.Rows | src/schist/db.py:168-177 | the stored rows in row-id order, capped by the limit, with counter 0 |
| HistStore.HistConfig.CmdsSince | src/schist/db.py:179-181 | the number of stored rows strictly after the given time |
| HistStore.HistConfig.LastCmd | src/schist/db.py:183-188 | the time of the last row by row id, `EmptyHistory` on an empty table |
| HistStore.HistConfig.Search | src/schist/db.py:145-153 | the `Table.Search` rows of the stored table, each a stored row that matches the term, with counter 0 |
| HistStore.HistConfig.Restore | src/schist/db.py:193-195 | the format's printer applied to every stored row in row-id order |
| HistStore.InsertTwice | tests/schist/bash_test.py:97-104 | two inserts of a file whose records have distinct keys into an empty table leave those records once, in file order |
| HistStore.BashIter | schist/bash.py:71-78 | succeeds exactly when the bash iterator does, and then yields the bash iterator's rows |
| HistStore.BashConfig | schist/bash.py:71-78 | the bash configuration: table `bash_history`, the bash parser and printer, `~/.bash_history` |
| HistStore.BashBackupRestore | tests/schist/bash_test.py:80-108 | backup into a fresh database with two inserts: the count is the number of parsed rows, and restoring gives the file back from its first marker |

## Left out

- Reading the history file (`open_histfile`, `open(..., 'rb')`) and decoding it (`_utf8`) are not modelled. A file is the sequence of its lines as text, each with its newline.
- Printing to a file object is modelled as building the text that would be written.
- `db_conn_factory` and SQLite itself are not modelled. The connection is passed in as a `Connection` object holding the tables as sequences in row-id order.
- SQL text, `sqlite_master`, the transaction machinery of `with self.conn`, and `PRAGMA optimize` on close are not modelled. Only their effect on the tables is kept: an insert that fails leaves the tables as they were.
- `arrow` time objects are integer unix seconds. `last_cmd`'s conversion `.to('local')` is left out, because a time zone changes only the presentation.
- Digits are ASCII `0-9`; Python's `\d` also accepts other Unicode decimal digits.
- Python's recursion limit is not modelled: the recursive bash `parse` would stop on a file of about a thousand lines.
- Logging of rejected zsh lines (`log.debug`) is left out.
- Table.Like: SQLite's `LIKE` folds case for ASCII letters only, and so does the model. There is no `ESCAPE` clause and no other collation.
- Table.SortDesc: SQLite does not fix the order of rows with equal timestamps. The model fixes one order for them, and its proofs do not depend on which.
- HistStore.HistConfig.Rows: a negative limit is taken as SQLite takes `LIMIT -1`, as no limit at all.
- HistStore.HistConfig.Search and HistStore.HistConfig.Rows: the generators are modelled as functions returning the whole list.
- The zsh `CONFIG` and the `zshbackup/db.py` that `zshbackup/zsh.py` imports are not part of this model. The zsh parser's output is modelled as the dictionaries it yields.
- HistStore.HistConfig.Restore: rows read back carry counter 0, because the table stores no counter.
- BashHistory.HistoryIter: `arrow.get` of a marker's digits (`schist/bash.py:45`, `schist/bash.py:53`) is taken to succeed for every digit string, giving that many seconds. arrow raises for times past the year 9999, and arrow 0.15 and later, which the declared `arrow<1.0` range admits, no longer read a digit string as a timestamp at all; the model leaves those failures out.
- ZshHistory.HistoryIter: `arrow.get(int(...))` of the start time (`zshbackup/zsh.py:26`) is taken to succeed for every digit run. arrow raises for times past the year 9999, which would end the iteration with an exception and make `insert` roll back; the model accepts such a line and yields its record.
- HistStore.HistConfig.Search: the default `limit=25` of `search` is not modelled; the caller passes the limit.
- HistStore.BashConfig: the history file is `os.path.expanduser("~/.bash_history")`; the model keeps the unexpanded `~/.bash_history`, and likewise the database path `~/.schist.sq3` that `src/schist/db.py:23` expands, because the home directory comes from the environment; the database path appears in no contract.
- The command-line layer (`app.py`: argument parsing, stats, exit codes) is not part of this model.

## Findings

| source | as written | input that shows it | evidently intended | confidence | as-written member | corrected member |
|---|---|---|---|---|---|---|
| schist/bash.py:36-50 | `rows` starts as `None` and becomes a list only when a second marker arrives. At the end of a file with one record, `rows.append` is called on `None`. A file with no marker returns `None`, which the caller cannot iterate. | `#100\nls x\nls y\nls z\n` (append to None); `ls\n` (not iterable) | `rows` starts as an empty list, so one record gives one row and no marker gives none | not executed | BashHistory.SingleRecordFile | BashHistory.RoundTripInitialised |
