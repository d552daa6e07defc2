# Database table remapper, modelled in Dafny

The repository holds two Ruby scripts that copy tables from one database
into another. Each reads a list of `[name, payload]` entries and walks it in
order (the `tbl_list.each` loop):

- `my2tsql.rb` copies from MySQL into SQL Server (T-SQL).
- `db-remapper.rb` copies from MySQL into MySQL.

An entry is one of three kinds:

- `["database", [[db, user, password], [db, user, password]]]` opens the
  source and the destination connection.
- `[table, nil]` is an *override*. It names the destination table of the
  next copy.
- `[table, [columns...]]` is a *copy*. Each column is a bare name or a
  `[source, destination]` pair. For each copy the script:
  1. builds and runs a SELECT over the source column names;
  2. clears the destination table with `DELETE FROM`;
  3. writes one INSERT per source row, each value stringified and escaped
     for the destination dialect.

`my2tsql.rb` also brackets the INSERTs with `SET IDENTITY_INSERT … ON/OFF`
when a source column is named `id`.

The model is one interpreter parametrised by `Dialect = TSql | MySql`.

- **The adapters are parameters.** `Adapters(query, accepts)` gives the rows
  the source returns for a query text (`None` when the adapter raises). It
  also says whether the destination accepts a statement.
- **A run is a transcript.** It lists the calls made, in order (`Connect`,
  `Query`, `Execute`), and how the run ended:
  - `Finished`;
  - `NoConnection`, a copy before any `database` entry, where calling a method
    on `nil` raises `NoMethodError`;
  - `QueryFailed`;
  - `ExecuteFailed`.

  A failure ends the run, because the exception leaves the loop.

The modules are:

- `Ruby`: the parts of Ruby's core library the text depends on:
  - `to_s` and `Array#join`;
  - `String#gsub!` with a one-character pattern, an optional `$` anchor, and
    Ruby's backslash rules for replacement strings;
  - the `/^id$/` match.
- `Directives`: entries and columns.
- `Dialects`: what differs between the two scripts: quoting, literals, the
  connection descriptors and the statement builders.
- `Interpreter`: the meaning of a run, as functions (`Copy`, `Step`, `Run`).
- `Remapper`: the loops as the scripts write them: mutable `target`,
  `useidins`, `select`, `insary` and `valary`, with statements sent as soon
  as they are built. Each method is proved equal to the function in
  `Interpreter`.
- `Statements`, `Escaping`, `Runs`: properties of the statement text, of
  the literal escaping and of whole runs.
- `SqlLiterals`: how the destination server reads a VALUES list back. It is
  used to state what the escaping achieves.
- `Scenarios`: one run, worked out.

### Behaviour as written

The model follows the code where it differs from what the scripts'
comments say (`my2tsql.rb:61-63`, `db-remapper.rb:56-59`) or from the
evident aim of a line (`db-remapper.rb:109`):

- **Only a `nil` column list is an override**
  (`my2tsql.rb:69`, `db-remapper.rb:64`).
  - An empty list `[]` is a copy. Its query is the bare word `SELECT`, since
    there is no comma for `/,$/` to replace.
  - The `target ||= table` before the test means a copy with nothing pending
    writes into its own table.
- **The SELECT is run before the DELETE** (`my2tsql.rb:103` then `107`;
  `db-remapper.rb:91-92` then `95`).
- **`valstr.gsub!(/\\/, "\\\\")` at `db-remapper.rb:109` changes nothing.**
  The replacement string is two backslashes, which Ruby reads as one. So
  backslashes in values are not doubled (`Ruby.GsubBackslashIsIdentity`).
  As a result:
  - a value that is a lone backslash makes the INSERT unreadable
    (`Escaping.TrailingBackslashBreaksValues`);
  - `\n` in a value arrives as a newline
    (`Escaping.BackslashSequenceAltersValue`).
- **The pending target is cleared after every entry except an override.**
  This includes `database` entries, so a `database` entry between an
  override and a copy discards the override.
- **A run needs a `database` entry first.** Without one the first copy calls
  `query`/`prepare` on `nil`, and the run ends before anything is sent
  (`Scenarios.ScenarioWithoutConnection`).

## Model

| member | source | states |
|---|---|---|
| `Remapper.Interpret` | my2tsql.rb:44-144 | The entry loop, with its mutable `target`, the `next` that skips the reset and the early exits, makes exactly the calls of `Run` from the start state and ends the same way (db-remapper.rb:42-120 likewise). |
| `Remapper.CopyTable` | my2tsql.rb:73-141 | One copy entry makes exactly the calls of `Copy` and fails the same way. `useidins` is false again after a completed copy, so the identity flag never carries over to the next table (my2tsql.rb:140). |
| `Remapper.MapColumns` | my2tsql.rb:79-98 | The column loop yields the query `SelectSql`, the quoted destination names `InsertNames` in column order, and a flag raised exactly when a source column matches `/^id$/` (T-SQL only). |
| `Remapper.RowValues` | db-remapper.rb:99-109 | The value loop appends one literal per row value, in order, to `valary`. `valstr` is their comma join, passed through line 109's gsub for MySQL (my2tsql.rb:116-128 likewise). |
| `Remapper.SendInserts` | my2tsql.rb:113-135 | The row loop sends one INSERT per row in source order, each holding only its own row's values because `valary` is cleared per row. It stops right after the first rejected INSERT. |
| `Remapper.SendDestination` | my2tsql.rb:105-138 | The destination statements go out in this order: DELETE, identity switch on when flagged, the INSERTs, switch off. Sending stops at the first rejected statement. |
| `Interpreter.RunDatabase` | my2tsql.rb:47-57 | A `database` entry connects to the source on localhost and to the destination (192.168.1.101 for SQL Server, localhost for MySQL), then continues with nothing pending. |
| `Interpreter.RunOverride` | my2tsql.rb:65-72 | An entry with `nil` columns sends nothing and only sets the pending target to its own name; the reset is skipped. |
| `Interpreter.RunNoConnection` | my2tsql.rb:103 | A copy with no open connection ends the run with `NoConnection` and sends nothing. |
| `Interpreter.RunCopy` | db-remapper.rb:60-119 | A copy uses the pending target, or its own name when none is pending. A failure ends the run; otherwise the run goes on with the pending target cleared. |
| `Interpreter.SendAllAccepted` | my2tsql.rb:132 | Statements that are all accepted are each sent exactly once, in order. |
| `Interpreter.SendAllStops` | db-remapper.rb:112 | When statement `n` is the first one rejected, exactly statements `0..n` are sent and the run fails on statement `n`. |
| `Runs.RunSplit` | db-remapper.rb:42-120 | Running `a + b` is running `a` and then `b` from the state `a` leaves; a run that stops inside `a` never reaches `b`. |
| `Runs.PendingAfter` | db-remapper.rb:60-119 | After a run of entries the pending target is the last entry's name if it is an override, and none after a copy or a `database` entry. |
| `Runs.OverrideTargetsNextCopy` | my2tsql.rb:65-72 | After an override, the next copy selects from its own table but deletes from and inserts into the override's table, whatever was pending before. |
| `Runs.CopyTargetsOwnTable` | db-remapper.rb:60-67 | With nothing pending, a copy writes into its own table. |
| `Runs.LastOverrideWins` | my2tsql.rb:66-71 | Two overrides in a row behave as the second one alone. |
| `Runs.TrailingOverrideDropped` | db-remapper.rb:61-66 | An override at the end of the list adds no calls and does not change the ending. |
| `Runs.DatabaseDiscardsOverride` | my2tsql.rb:143 | An override followed by a `database` entry behaves as the `database` entry alone. |
| `Runs.RunConnect` | db-remapper.rb:45-54 | A leading `database` entry makes one connect call and continues with the connections open and nothing pending. |
| `Runs.ConnectOverrideCopy` | db-remapper.rb:45-95 | `database`, override, copy: the connect call, then exactly the copy's calls into the override target, then the rest of the list. |
| `Runs.CopyOrder` | my2tsql.rb:103-138 | A copy whose query answers and whose statements are all accepted sends these calls in order: the SELECT, the DELETE (also for an empty result), ON when flagged, one INSERT per row in source order, then OFF when flagged. |
| `Runs.CopyCallKinds` | my2tsql.rb:103-137 | A copy issues one query, which starts with SELECT. Everything else it sends is a DELETE, an INSERT or (SQL Server only) a SET IDENTITY_INSERT. It never connects. |
| `Runs.RunCallKinds` | db-remapper.rb:91-112 | Every query of a run starts with SELECT. Every statement is a DELETE, an INSERT or, for SQL Server only, a SET IDENTITY_INSERT, so db-remapper.rb never switches identity insert. |
| `Runs.CopyFailureLast` | my2tsql.rb:103-132 | A failed copy failed either on its SELECT or on a destination statement, and that call is the copy's last. |
| `Runs.RunFailureLast` | my2tsql.rb:145-153 | A run that fails ends with the call that failed; nothing is sent after it. |
| `Statements.SelectText` | my2tsql.rb:79-98 | For one-line names, the query is `"SELECT " + join(source names, ", ") + " FROM " + table`, in column order; with no columns it is `SELECT`. |
| `Statements.SelectHeadText` | db-remapper.rb:74-86 | For at least one column, the text built before the gsub is `"SELECT "`, the source names joined by `", "`, and a final comma. |
| `Statements.SelectStartsWithSelect` | db-remapper.rb:74-88 | Every query, for any columns and table, starts with the word SELECT. |
| `Statements.BareColumnsAgree` | db-remapper.rb:77-85 | When every column is a bare name, the MySQL INSERT names are the SELECT names, in the same order. |
| `Statements.InsertNamesText` | my2tsql.rb:95 | One INSERT name per column, in order: the destination name, bracketed for SQL Server and bare for MySQL (db-remapper.rb:85). |
| `Statements.IdentityExactlyForId` | my2tsql.rb:89-93 | For one-line names, my2tsql.rb switches identity insert exactly when some source column is `id`; db-remapper.rb never does. |
| `Statements.DestStatementKinds` | my2tsql.rb:107-137 | Every destination statement of a copy is a DELETE, an INSERT or (SQL Server only) a SET IDENTITY_INSERT. |
| `Escaping.TSqlLiteralShape` | my2tsql.rb:117-125 | The T-SQL literal is the value (`nil` as "") with every `'` and every `"` replaced by `''`, wrapped in double quotes. |
| `Escaping.MySqlLiteralShape` | db-remapper.rb:101-105 | The MySQL literal is the value (`nil` as "") with a backslash put before every `'`, wrapped in single quotes. The replacement string `\\'` inserts backslash-quote. |
| `Escaping.TSqlBodyFacts` | my2tsql.rb:123-124 | The escaped T-SQL body holds no double quote. Its length is the value's length plus one per quote character of either kind. |
| `Escaping.MySqlBodyFacts` | db-remapper.rb:104 | Every `'` of the escaped MySQL body has a backslash right before it. Its length is the value's length plus one per single quote. |
| `Escaping.NilAsEmpty` | my2tsql.rb:117 | A `nil` value is written exactly like the empty string: `""` for SQL Server, `''` for MySQL. |
| `Escaping.ApostropheTSql` | my2tsql.rb:123-125 | An apostrophe is doubled for SQL Server: `x'y` becomes `"x''y"`, so `it's` becomes `"it''s"`. |
| `Escaping.ApostropheMySql` | db-remapper.rb:104-105 | An apostrophe gets a backslash for MySQL: `x'y` becomes `'x\'y'`, so `it's` becomes `'it\'s'`. |
| `Escaping.TSqlQuotesCollide` | my2tsql.rb:124 | The T-SQL escaping writes `'` and `"` identically, so the destination cannot tell them apart. |
| `Escaping.MySqlBodyReadsBack` | db-remapper.rb:104-105 | For a backslash-free value, MySQL reads the escaped body plus the closing quote back as exactly the value, and stops at that quote. |
| `Escaping.MySqlValuesReadBack` | db-remapper.rb:100-109 | When no value holds a backslash, MySQL reads the VALUES list back as exactly the row's values, one per column, in order. |
| `Escaping.TSqlValuesReadBack` | my2tsql.rb:116-128 | The VALUES list splits into exactly one double-quoted literal per value, in order. Literal `k` reads back as value `k` with its quotes turned into `''`. |
| `Escaping.TrailingBackslashBreaksValues` | db-remapper.rb:109 | Line 109 does not double backslashes, so a value that is a lone backslash escapes its closing quote and the VALUES list cannot be read. |
| `Escaping.BackslashSequenceAltersValue` | db-remapper.rb:104-109 | A value `\n` (backslash, n) is read by MySQL as a newline. |
| `Ruby.GsubBackslashIsIdentity` | db-remapper.rb:109 | `gsub!(/\\/, "\\\\")` leaves every string unchanged. |
| `Ruby.GsubIsSubst` | my2tsql.rb:123-124 | An unanchored single-character gsub with a self-contained replacement (no `\0`, `\&`, `` \` `` or `\'`) replaces each occurrence by the replacement's expansion and nothing else. |
| `Ruby.GsubFinalComma` | my2tsql.rb:98 | `gsub!(/,$/, rep)` on a one-line string ending in a comma replaces exactly that final comma. |
| `Ruby.IdLineOneLine` | my2tsql.rb:91 | On a name without newlines, `/^id$/` matches exactly when the name is `id`. |
| `Scenarios.ScenarioSelect` | db-remapper.rb:74-88 | The columns `a` and `[b, c]` of table `s` give the query `SELECT a, b FROM s`. |
| `Scenarios.ScenarioInsert` | db-remapper.rb:99-112 | The row `(v1, v2)` goes into `t` as `INSERT INTO t(a,c) VALUES('v1','v2')` for values without quotes. |
| `Scenarios.ScenarioCopy` | db-remapper.rb:74-113 | That copy sends exactly the SELECT, `DELETE FROM t` and the one INSERT. |
| `Scenarios.ScenarioMySql` | db-remapper.rb:42-120 | `database`, `[t, nil]`, `[s, [a, [b, c]]]` with one source row makes four calls in this order: connect, `SELECT a, b FROM s`, `DELETE FROM t`, `INSERT INTO t(a,c) VALUES(...)`. It then continues with the remaining entries. |
| `Scenarios.ScenarioWithoutConnection` | db-remapper.rb:91 | The same override and copy without a `database` entry first end the run with `NoConnection` before any call. |

## Left out

- Loading the YAML file (`Psych.load_file`) is library I/O. The model starts
  from the parsed entry list. Shapes the scripts do not expect (non-string
  names, non-array payloads, short login triples) are not modelled.
- Connections are modelled only by their descriptors. Not modelled:
  - opening them with `Mysql2::Client.new`, `TinyTds::Client.new` and
    `DBI.connect`;
  - a failure to connect;
  - the closing at the end of the script;
  - the old connections a second `database` entry abandons.
- The adapters' result-set mechanics are not modelled:
  - DBI's separate `prepare` and `execute` are one `Query` call;
  - the unconsumed TinyTds result objects are not modelled, and every
    `execute` is a statement that is either accepted or rejected;
  - Mysql2 rows are hashes, and a repeated column name would collapse in
    one, whereas a row here is the ordered sequence of its values.
- `stha.any?` (`my2tsql.rb:113`) and `stha.column_names.size`
  (`db-remapper.rb:98`) are not separate steps. With no rows, both lead to
  sending no INSERT, and the second test is always true in Ruby.
- Console output (`puts`) and the messages printed by the `rescue` blocks
  are I/O. Only their effect is kept: an error ends the run and nothing is
  sent after it.
- What DELETE, INSERT and SET IDENTITY_INSERT do to the destination tables
  is destination-engine behaviour. Only the statement text and order are
  modelled.
- Both adapters answer as fixed functions of the statement text alone. So
  a run where the same text is accepted once and rejected later cannot be
  represented, for example two identical source rows going into a table
  with a unique key. The same holds for a query whose answer changes
  between copies.
- Ruby strings are sequences of characters. Encodings are not modelled.
- `Ruby.BackslashSequence`: a `\k<name>` in a replacement string, which
  Ruby rejects when the pattern has no named groups, is kept as literal
  text. It could only arise from a table name spliced into `" FROM
  #{table}"`.
- `SqlLiterals.ReadQuoted`: MySQL is read in its default SQL mode, with
  backslash escapes on (`NO_BACKSLASH_ESCAPES` is not modelled). SQL Server
  is read with QUOTED_IDENTIFIER OFF, the setting under which a
  double-quoted text is a string, and its backslash-newline continuation
  inside strings is not modelled.
- Statements.SelectText: stated for source names without newlines and a
  table name without backslashes. Otherwise `$` also matches before a
  newline and the replacement string interprets the backslashes. That
  general case is defined by `Interpreter.SelectSql` but not stated as text.
- Statements.IdentityExactlyForId: stated for names without newlines. In
  general the flag follows `/^id$/`, which matches any line of the name
  that is `id` (`Ruby.IdLine`).
- Escaping.MySqlValuesReadBack: stated for values without backslashes.
  With backslashes the values need not read back. A lone `\` makes the
  list unreadable (`Escaping.TrailingBackslashBreaksValues`). `\n` comes
  back as a newline (`Escaping.BackslashSequenceAltersValue`). By MySQL's
  escape rules, `a\\` also comes back changed, as `a\`. `\%` and `\_` come
  back intact, since MySQL keeps their backslash. No lemma states the
  general case.
