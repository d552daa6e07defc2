/** What the statement text of one copy looks like: the SELECT, the INSERT
    column list and the identity-insert switch. */
module Statements {
  import opened Wrappers
  import opened Ruby
  import opened Directives
  import opened Dialects
  import opened Interpreter

  /** The source column names, in entry order. */
  function SourceNames(cols: seq<Column>): seq<string> {
    seq(|cols|, k requires 0 <= k < |cols| => SourceName(cols[k]))
  }

  predicate StartsWith(s: string, p: string) {
    |p| <= |s| && s[..|p|] == p
  }

  /** Joining one more part onto a non-empty list. */
  lemma {:induction false} JoinSnoc(parts: seq<string>, x: string, sep: string)
    requires |parts| > 0
    ensures Join(parts + [x], sep) == Join(parts, sep) + sep + x
    decreases |parts|
  {
    if |parts| == 1 {
      assert (parts + [x])[1..] == [x];
    } else {
      assert (parts + [x])[1..] == parts[1..] + [x];
      JoinSnoc(parts[1..], x, sep);
    }
  }

  /** The SELECT built by the column loop, before the final comma is
      replaced, for at least one column. */
  lemma {:induction false} SelectHeadText(cols: seq<Column>)
    requires |cols| > 0
    ensures SelectHead(cols) == "SELECT " + Join(SourceNames(cols), ", ") + ","
    decreases |cols|
  {
    var n := |cols| - 1;
    var init := cols[..n];
    if n == 0 {
      assert SourceNames(cols) == [SourceName(cols[0])];
      assert SelectHead(init) == "SELECT";
    } else {
      SelectHeadText(init);
      assert SourceNames(cols) == SourceNames(init) + [SourceName(cols[n])];
      JoinSnoc(SourceNames(init), SourceName(cols[n]), ", ");
    }
  }

  /** With one-line source names the SELECT built by the loop is one line. */
  lemma {:induction false} SelectHeadOneLine(cols: seq<Column>)
    requires forall k :: 0 <= k < |cols| ==> '\n' !in SourceName(cols[k])
    ensures '\n' !in SelectHead(cols)
    decreases |cols|
  {
    if |cols| > 0 {
      var n := |cols| - 1;
      assert forall k :: 0 <= k < n ==> cols[..n][k] == cols[k];
      SelectHeadOneLine(cols[..n]);
      assert SelectHead(cols) == SelectHead(cols[..n]) + " " + SourceName(cols[n]) + ",";
    }
  }

  /** my2tsql.rb:79-98 and db-remapper.rb:74-88: the query names the source
      columns in entry order, separated by ", ", and then the table; with no
      columns at all it is the bare word SELECT. (The names must be one line
      each, as `$` also matches before a newline, and the table name must
      hold no backslash, which the replacement string would interpret.) */
  lemma SelectText(table: string, cols: seq<Column>)
    requires forall k :: 0 <= k < |cols| ==> '\n' !in SourceName(cols[k])
    requires '\\' !in table
    ensures SelectSql(table, cols) ==
      if |cols| == 0 then "SELECT" else "SELECT " + Join(SourceNames(cols), ", ") + " FROM " + table
  {
    var s := SelectHead(cols);
    if |cols| == 0 {
      forall j | 0 <= j < |s| ensures !MatchesAt(s, j, ',', true) {
        assert s == "SELECT";
      }
      GsubFromNoMatch(s, 0, ',', true, " FROM " + table);
      assert s[0..] == s;
    } else {
      SelectHeadText(cols);
      SelectHeadOneLine(cols);
      var body := "SELECT " + Join(SourceNames(cols), ", ");
      assert s == body + ",";
      assert s[..|s| - 1] == body;
      GsubFinalComma(s, " FROM " + table);
      ExpandPlain(" FROM " + table, ",", body, "");
    }
  }

  /** The SELECT built by the column loop starts with the word SELECT. */
  lemma SelectHeadStarts(cols: seq<Column>)
    ensures StartsWith(SelectHead(cols), "SELECT")
  {
    if |cols| > 0 {
      SelectHeadText(cols);
      Prefix("SELECT", " " + Join(SourceNames(cols), ", ") + ",");
      Assoc("SELECT", " " + Join(SourceNames(cols), ", "), ",");
      Assoc("SELECT", " ", Join(SourceNames(cols), ", "));
    }
  }

  /** Every query starts with the word SELECT. */
  lemma SelectStartsWithSelect(table: string, cols: seq<Column>)
    ensures StartsWith(SelectSql(table, cols), "SELECT")
  {
    var s := SelectHead(cols);
    var rest := " FROM " + table;
    SelectHeadStarts(cols);
    forall j | 0 <= j < 6 ensures !MatchesAt(s, j, ',', true) {
      assert s[j] == "SELECT"[j];
    }
    GsubPrefixNoMatch(s, 0, 6, ',', true, rest);
    assert s[0..6] == "SELECT";
    Prefix("SELECT", GsubFrom(s, 6, ',', true, rest));
  }

  /** db-remapper.rb:78-85: when every column is a bare name, the MySQL
      INSERT names the same columns as the SELECT, in the same order. */
  lemma {:induction false} BareColumnsAgree(cols: seq<Column>)
    requires forall k :: 0 <= k < |cols| ==> cols[k].Bare?
    ensures InsertNames(MySql, cols) == SourceNames(cols)
  {
    forall k | 0 <= k < |cols| ensures InsertNames(MySql, cols)[k] == SourceNames(cols)[k] {
      assert DestName(cols[k]) == SourceName(cols[k]);
    }
  }

  /** my2tsql.rb:95 and db-remapper.rb:85: one INSERT name per column, in
      order: the destination name, bracketed for SQL Server. */
  lemma InsertNamesText(d: Dialect, cols: seq<Column>)
    ensures |InsertNames(d, cols)| == |cols|
    ensures forall k :: 0 <= k < |cols| ==>
      InsertNames(d, cols)[k] == if d.TSql? then "[" + DestName(cols[k]) + "]" else DestName(cols[k])
  {
  }

  /** my2tsql.rb:91-93: with one-line names, the identity switch is flagged
      exactly when some source column is named `id`; db-remapper.rb never
      flags it. */
  lemma IdentityExactlyForId(d: Dialect, cols: seq<Column>)
    requires forall k :: 0 <= k < |cols| ==> '\n' !in SourceName(cols[k])
    ensures NeedsIdentity(d, cols) <==> d.TSql? && exists k :: 0 <= k < |cols| && SourceName(cols[k]) == "id"
  {
    if NeedsIdentity(d, cols) {
      var k :| 0 <= k < |cols| && FlagsIdentity(d, SourceName(cols[k]));
      IdLineOneLine(SourceName(cols[k]));
    }
    if d.TSql? && exists k :: 0 <= k < |cols| && SourceName(cols[k]) == "id" {
      var k :| 0 <= k < |cols| && SourceName(cols[k]) == "id";
      IdLineOneLine(SourceName(cols[k]));
      assert FlagsIdentity(d, SourceName(cols[k]));
    }
  }

  /** A statement of the kinds the destination is sent: DELETE, INSERT and,
      for SQL Server only, SET IDENTITY_INSERT. */
  predicate DestKind(d: Dialect, sql: string) {
    || StartsWith(sql, "DELETE FROM ")
    || StartsWith(sql, "INSERT INTO ")
    || (d.TSql? && StartsWith(sql, "SET IDENTITY_INSERT "))
  }

  lemma Prefix(p: string, x: string)
    ensures StartsWith(p + x, p)
  {
    assert (p + x)[..|p|] == p;
  }

  lemma DeleteKind(d: Dialect, target: string)
    ensures DestKind(d, DeleteSql(d, target))
  {
    Prefix("DELETE FROM ", QuoteTable(d, target));
  }

  lemma InsertKind(d: Dialect, target: string, ins: string, vals: string)
    ensures DestKind(d, InsertSql(d, target, ins, vals))
  {
    Prefix("INSERT INTO ", QuoteTable(d, target) + "(" + ins + ") VALUES(" + vals + ")");
  }

  lemma IdentityKind(target: string, on: bool)
    ensures DestKind(TSql, IdentityInsertSql(target, on))
  {
    Prefix("SET IDENTITY_INSERT ", target + (if on then " ON" else " OFF"));
  }

  /** my2tsql.rb:107-139 and db-remapper.rb:95-112: a copy sends nothing
      but DELETE, INSERT and (SQL Server only) SET IDENTITY_INSERT. */
  lemma DestStatementKinds(d: Dialect, target: string, cols: seq<Column>, rows: seq<Row>)
    ensures forall x :: x in DestStatements(d, target, cols, rows) ==> DestKind(d, x)
  {
    var flagged := NeedsIdentity(d, cols);
    var on: seq<string> := if flagged then [IdentityInsertSql(target, true)] else [];
    var inserts := Inserts(d, target, cols, rows);
    var off: seq<string> := if flagged then [IdentityInsertSql(target, false)] else [];
    assert DestStatements(d, target, cols, rows) == [DeleteSql(d, target)] + on + inserts + off;
    forall x | x in DestStatements(d, target, cols, rows) ensures DestKind(d, x) {
      if x in inserts {
        var k :| 0 <= k < |rows| && inserts[k] == x;
        InsertKind(d, target, Join(InsertNames(d, cols), ","), ValuesText(d, Literals(d, rows[k])));
      } else if x in on || x in off {
        var k0 :| 0 <= k0 < |cols| && FlagsIdentity(d, SourceName(cols[k0]));
        IdentityKind(target, x in on);
      } else {
        DeleteKind(d, target);
      }
    }
  }
}
