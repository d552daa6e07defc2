/** What differs between the two scripts: my2tsql.rb writes into SQL Server
    (T-SQL) through TinyTds, db-remapper.rb writes into MySQL through DBI. */
module Dialects {
  import opened Wrappers
  import opened Ruby
  import opened Directives

  datatype Dialect = TSql | MySql

  /** Where and as whom a connection is opened. */
  datatype Descriptor = Descriptor(host: string, database: string, user: string, password: string)

  datatype ConnectionPair = ConnectionPair(source: Descriptor, destination: Descriptor)

  /** The two connections a `database` entry opens. my2tsql.rb reads from a
      MySQL server on localhost and writes to the SQL Server at the fixed
      address 192.168.1.101; db-remapper.rb uses localhost for both. */
  function Connection(d: Dialect, src: Login, dst: Login): ConnectionPair {
    var host := if d.TSql? then "192.168.1.101" else "localhost";
    ConnectionPair(Descriptor("localhost", src.database, src.user, src.password),
                   Descriptor(host, dst.database, dst.user, dst.password))
  }

  /** A destination column name as it appears in the INSERT column list. */
  function QuoteColumn(d: Dialect, name: string): string {
    if d.TSql? then "[" + name + "]" else name
  }

  /** The table a DELETE or INSERT names: bracketed for SQL Server. */
  function QuoteTable(d: Dialect, target: string): string {
    if d.TSql? then "[" + target + "]" else target
  }

  function DeleteSql(d: Dialect, target: string): string {
    "DELETE FROM " + QuoteTable(d, target)
  }

  /** T-SQL only: the statements bracketing the inserts when a source
      column is the identity column. */
  function IdentityInsertSql(target: string, on: bool): string {
    "SET IDENTITY_INSERT " + (target + (if on then " ON" else " OFF"))
  }

  /** Whether a source column name sets the identity-insert flag. */
  predicate FlagsIdentity(d: Dialect, source: string) {
    d.TSql? && IdLine(source)
  }

  /** One value as the script writes it into the VALUES list. T-SQL: `to_s`,
      then `'` and `"` each rewritten to `''`, wrapped in double quotes.
      MySQL: `to_s`, then `'` rewritten by the replacement string `\\'`,
      wrapped in single quotes. */
  function Literal(d: Dialect, v: Option<string>): string {
    var c := ToS(v);
    if d.TSql? then
      var c1 := Gsub(c, '\'', false, "''");
      var c2 := Gsub(c1, '"', false, "''");
      "\"" + c2 + "\""
    else
      var c1 := Gsub(c, '\'', false, "\\\\'");
      "'" + c1 + "'"
  }

  /** The literals of one row, in the row's order. */
  function Literals(d: Dialect, row: Row): seq<string> {
    seq(|row|, k requires 0 <= k < |row| => Literal(d, row[k]))
  }

  /** The VALUES text: the literals joined by commas; db-remapper.rb then
      applies `gsub!(/\\/, "\\\\")` to the joined text. */
  function ValuesText(d: Dialect, literals: seq<string>): string {
    var joined := Join(literals, ",");
    if d.TSql? then joined else Gsub(joined, '\\', false, "\\\\")
  }

  function InsertSql(d: Dialect, target: string, insstr: string, valstr: string): string {
    "INSERT INTO " + (QuoteTable(d, target) + "(" + insstr + ") VALUES(" + valstr + ")")
  }
}
