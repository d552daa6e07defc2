/** The entries the interpreter walks, as they come out of the YAML list:
    each is `[name, payload]`. */
module Directives {
  import opened Wrappers

  /** A table name as an entry can carry it: an entry whose name is
      `database` always holds connection details instead. */
  type TableName = s: string | s != "database" witness ""

  /** A column is a bare name (copied to the same name) or a
      `[source, destination]` pair. */
  datatype Column = Bare(name: string) | Renamed(source: string, destination: string)

  function SourceName(c: Column): string {
    match c
    case Bare(n) => n
    case Renamed(s, _) => s
  }

  function DestName(c: Column): string {
    match c
    case Bare(n) => n
    case Renamed(_, t) => t
  }

  /** One `[database, user, password]` triple of a `database` entry. */
  datatype Login = Login(database: string, user: string, password: string)

  /** `["database", [source, destination]]`, or `[table, nil]` (an
      override), or `[table, [columns...]]` (a copy; the list may be empty). */
  datatype Entry =
    | Database(source: Login, destination: Login)
    | Table(name: TableName, columns: Option<seq<Column>>)
  {
    predicate IsOverride() {
      Table? && columns.None?
    }
  }

  /** One result row: its values in column order, `None` for SQL NULL. */
  type Row = seq<Option<string>>
}
