/** The override-then-copy run of db-remapper.rb worked out: an override
    entry followed by a copy with one bare and one renamed column. */
module Scenarios {
  import opened Wrappers
  import opened Ruby
  import opened Directives
  import opened Dialects
  import opened Interpreter
  import opened Statements
  import opened Escaping
  import opened Runs

  /** Without a `database` entry first the connection is still nil when the
      copy starts, so the run ends before any query is sent. */
  lemma ScenarioWithoutConnection(d: Dialect, t: TableName, s: TableName, cols: seq<Column>,
                                  rest: seq<Entry>, ad: Adapters)
    ensures Run(d, Start, [Table(t, None), Table(s, Some(cols))] + rest, ad) == Transcript([], NoConnection)
  {
    var es := [Table(t, None), Table(s, Some(cols))] + rest;
    RunOverride(d, Start, es, 0, ad);
    RunNoConnection(d, State(Some(t), None), es, 1, ad);
    assert es[0..] == es;
  }

  lemma JoinTwo(x: string, y: string, sep: string)
    ensures Join([x, y], sep) == x + sep + y
  {
    assert [x, y][1..] == [y];
  }

  lemma ScenarioSelect(s: string, a: string, b: string, c: string)
    requires '\\' !in s && '\n' !in a && '\n' !in b
    ensures SelectSql(s, [Bare(a), Renamed(b, c)]) == "SELECT " + a + ", " + b + " FROM " + s
  {
    var cols := [Bare(a), Renamed(b, c)];
    SelectText(s, cols);
    assert SourceNames(cols) == [a, b];
    JoinTwo(a, b, ", ");
  }

  lemma ScenarioNames(a: string, b: string, c: string)
    ensures Join(InsertNames(MySql, [Bare(a), Renamed(b, c)]), ",") == a + "," + c
  {
    assert InsertNames(MySql, [Bare(a), Renamed(b, c)]) == [a, c];
    JoinTwo(a, c, ",");
  }

  lemma ScenarioValues(v1: string, v2: string)
    requires '\'' !in v1 && '\'' !in v2
    ensures ValuesText(MySql, Literals(MySql, [Some(v1), Some(v2)])) == "'" + v1 + "','" + v2 + "'"
  {
    MySqlLiteralShape(Some(v1));
    MySqlLiteralShape(Some(v2));
    MySqlBodyPlain(v1);
    MySqlBodyPlain(v2);
    var lits := Literals(MySql, [Some(v1), Some(v2)]);
    assert lits == ["'" + v1 + "'", "'" + v2 + "'"];
    JoinTwo("'" + v1 + "'", "'" + v2 + "'", ",");
    GsubBackslashIsIdentity(Join(lits, ","));
  }

  lemma ScenarioInsert(t: string, a: string, b: string, c: string, v1: string, v2: string)
    requires '\'' !in v1 && '\'' !in v2
    ensures RowInsert(MySql, t, [Bare(a), Renamed(b, c)], [Some(v1), Some(v2)])
         == "INSERT INTO " + (t + "(" + (a + "," + c) + ") VALUES(" + ("'" + v1 + "','" + v2 + "'") + ")")
  {
    ScenarioNames(a, b, c);
    ScenarioValues(v1, v2);
  }

  /** The copy of `s` into `t`: the SELECT, the DELETE and the one INSERT. */
  lemma ScenarioCopy(t: TableName, s: TableName, a: string, b: string, c: string, v1: string, v2: string, ad: Adapters)
    requires '\\' !in s && '\n' !in a && '\n' !in b && '\'' !in v1 && '\'' !in v2
    requires ad.query("SELECT " + a + ", " + b + " FROM " + s) == Some([[Some(v1), Some(v2)]])
    requires ad.accepts("DELETE FROM " + t)
    requires ad.accepts("INSERT INTO " + (t + "(" + (a + "," + c) + ") VALUES(" + ("'" + v1 + "','" + v2 + "'") + ")"))
    ensures Copy(MySql, s, t, [Bare(a), Renamed(b, c)], ad) ==
      CopyResult([Query("SELECT " + a + ", " + b + " FROM " + s),
                  Execute("DELETE FROM " + t),
                  Execute("INSERT INTO " + (t + "(" + (a + "," + c) + ") VALUES(" + ("'" + v1 + "','" + v2 + "'") + ")"))],
                 None)
  {
    var cols := [Bare(a), Renamed(b, c)];
    var rows: seq<Row> := [[Some(v1), Some(v2)]];
    ScenarioSelect(s, a, b, c);
    ScenarioInsert(t, a, b, c, v1, v2);
    assert !NeedsIdentity(MySql, cols);
    assert Inserts(MySql, t, cols, rows) == [RowInsert(MySql, t, cols, rows[0])];
    CopyOrder(MySql, s, t, cols, rows, ad);
  }

  /** With the connection opened first, db-remapper.rb selects `a` and `b`
      from `s`, clears `t`, and inserts the one source row into `t` under
      the destination names `a` and `c`; then it goes on with the entries
      that follow (with none, the run finishes after these four calls). */
  lemma ScenarioMySql(src: Login, dst: Login, t: TableName, s: TableName, a: string, b: string, c: string,
                      v1: string, v2: string, rest: seq<Entry>, ad: Adapters)
    requires '\\' !in s && '\n' !in a && '\n' !in b && '\'' !in v1 && '\'' !in v2
    requires ad.query("SELECT " + a + ", " + b + " FROM " + s) == Some([[Some(v1), Some(v2)]])
    requires ad.accepts("DELETE FROM " + t)
    requires ad.accepts("INSERT INTO " + (t + "(" + (a + "," + c) + ") VALUES(" + ("'" + v1 + "','" + v2 + "'") + ")"))
    ensures Run(MySql, Start, [Database(src, dst), Table(t, None), Table(s, Some([Bare(a), Renamed(b, c)]))] + rest, ad) ==
      Then([Connect(Connection(MySql, src, dst)),
            Query("SELECT " + a + ", " + b + " FROM " + s),
            Execute("DELETE FROM " + t),
            Execute("INSERT INTO " + (t + "(" + (a + "," + c) + ") VALUES(" + ("'" + v1 + "','" + v2 + "'") + ")"))],
           Run(MySql, State(None, Some(Connection(MySql, src, dst))), rest, ad))
  {
    var cols := [Bare(a), Renamed(b, c)];
    var q := "SELECT " + a + ", " + b + " FROM " + s;
    var del := "DELETE FROM " + t;
    var ins := "INSERT INTO " + (t + "(" + (a + "," + c) + ") VALUES(" + ("'" + v1 + "','" + v2 + "'") + ")");
    ScenarioCopy(t, s, a, b, c, v1, v2, ad);
    ConnectOverrideCopy(MySql, src, dst, t, s, cols, rest, ad, [Query(q), Execute(del), Execute(ins)]);
    assert [Connect(Connection(MySql, src, dst))] + [Query(q), Execute(del), Execute(ins)]
        == [Connect(Connection(MySql, src, dst)), Query(q), Execute(del), Execute(ins)];
  }
}
