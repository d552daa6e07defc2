/** The `tbl_list.each` loop of my2tsql.rb and db-remapper.rb, written as the
    scripts write it: a loop that updates `target` and `useidins`, builds
    the SELECT by concatenation, pushes to and clears `insary` and
    `valary`, and sends each statement as soon as it is built. Each method
    is proved to compute what module Interpreter defines. */
module Remapper {
  import opened Wrappers
  import opened Ruby
  import opened Directives
  import opened Dialects
  import opened Interpreter

  /** The column loop: the SELECT text, the INSERT column names and the
      identity-insert flag (raised, never lowered, by a source column whose
      name is a line `id`). */
  method MapColumns(d: Dialect, table: string, cols: seq<Column>, flag: bool)
    returns (select: string, insary: seq<string>, useidins: bool)
    ensures select == SelectSql(table, cols)
    ensures insary == InsertNames(d, cols)
    ensures useidins == (flag || NeedsIdentity(d, cols))
  {
    select := "SELECT";
    insary := [];
    useidins := flag;
    for k := 0 to |cols|
      invariant select == SelectHead(cols[..k])
      invariant insary == InsertNames(d, cols[..k])
      invariant useidins == (flag || NeedsIdentity(d, cols[..k]))
    {
      var src, dst;
      match cols[k] {
        case Renamed(s, t) => src, dst := s, t;
        case Bare(n) => src, dst := n, n;
      }
      if d.TSql? && IdLine(src) {
        useidins := true;
      }
      select := select + " " + src + ",";
      insary := insary + [QuoteColumn(d, dst)];
      SelectHeadStep(cols, k);
      InsertNamesStep(d, cols, k);
      IdentityStep(d, cols, k);
    }
    assert cols[..|cols|] == cols;
    select := Gsub(select, ',', true, " FROM " + table);
  }

  /** The value loop for one row: each value `to_s`'d, escaped and pushed
      onto `valary`; then `valstr` is `valary.join(",")`, and db-remapper.rb
      runs `valstr.gsub!(/\\/, "\\\\")` on it. */
  method RowValues(d: Dialect, row: Row, valaryIn: seq<string>) returns (valary: seq<string>, valstr: string)
    ensures valary == valaryIn + Literals(d, row)
    ensures valstr == ValuesText(d, valary)
  {
    valary := valaryIn;
    for k := 0 to |row|
      invariant valary == valaryIn + Literals(d, row[..k])
    {
      var c := ToS(row[k]);
      if d.TSql? {
        c := Gsub(c, '\'', false, "''");
        c := Gsub(c, '"', false, "''");
        valary := valary + ["\"" + c + "\""];
      } else {
        c := Gsub(c, '\'', false, "\\\\'");
        valary := valary + ["'" + c + "'"];
      }
      assert Literals(d, row[..k + 1]) == Literals(d, row[..k]) + [Literal(d, row[k])];
    }
    assert row[..|row|] == row;
    valstr := Join(valary, ",");
    if d.MySql? {
      valstr := Gsub(valstr, '\\', false, "\\\\");
    }
  }

  /** The row loop: one INSERT per row, in the order the source returned
      them, each holding only that row's values because `valary` is
      cleared after each row; a rejected INSERT ends the loop. */
  method SendInserts(d: Dialect, target: string, cols: seq<Column>, insary: seq<string>, rows: seq<Row>, ad: Adapters)
    returns (calls: seq<Call>, rejected: Option<string>)
    requires insary == InsertNames(d, cols)
    ensures Sent(calls, rejected) == SendAll(Inserts(d, target, cols, rows), ad.accepts)
  {
    ghost var plan := Inserts(d, target, cols, rows);
    calls := [];
    var valary: seq<string> := [];
    for k := 0 to |rows|
      invariant valary == []
      invariant calls == Executes(plan[..k])
      invariant AllAccepted(plan[..k], ad.accepts)
    {
      var valstr;
      valary, valstr := RowValues(d, rows[k], valary);
      var insstr := Join(insary, ",");
      var sql := InsertSql(d, target, insstr, valstr);
      assert valary == Literals(d, rows[k]);
      assert plan[k] == sql;
      calls := calls + [Execute(sql)];
      ExecutesSnoc(plan, k, ad.accepts);
      if !ad.accepts(sql) {
        SendAllStops(plan, k, ad.accepts);
        rejected := Some(sql);
        return;
      }
      valary := [];
    }
    assert plan[..|rows|] == plan;
    SendAllAccepted(plan, ad.accepts);
    rejected := None;
  }

  /** Everything a copy sends to the destination once the source has
      answered: `DELETE FROM` the target (whatever the source returned),
      the identity-insert switch when flagged, the INSERTs, and the switch
      back; a rejected statement ends the copy at once. */
  method SendDestination(d: Dialect, target: string, cols: seq<Column>, insary: seq<string>, useidins: bool,
                         rows: seq<Row>, ad: Adapters)
    returns (sent: seq<Call>, rejected: Option<string>)
    requires insary == InsertNames(d, cols)
    requires useidins == NeedsIdentity(d, cols)
    ensures Sent(sent, rejected) == SendAll(DestStatements(d, target, cols, rows), ad.accepts)
  {
    ghost var del := DeleteSql(d, target);
    ghost var on: seq<string> := if useidins then [IdentityInsertSql(target, true)] else [];
    ghost var inserts := Inserts(d, target, cols, rows);
    ghost var off: seq<string> := if useidins then [IdentityInsertSql(target, false)] else [];
    assert DestStatements(d, target, cols, rows) == [del] + on + inserts + off;

    var sql := DeleteSql(d, target);
    sent := [Execute(sql)];
    if !ad.accepts(sql) {
      StagesDelete(del, on, inserts, off, ad.accepts);
      rejected := Some(sql);
      return;
    }
    SendSingle(IdentityInsertSql(target, true), ad.accepts);
    if useidins {
      sql := IdentityInsertSql(target, true);
      sent := sent + [Execute(sql)];
      if !ad.accepts(sql) {
        StagesOn(del, on, inserts, off, ad.accepts);
        rejected := Some(sql);
        return;
      }
    } else {
      assert sent == sent + SendAll(on, ad.accepts).calls;
    }
    var inserted;
    inserted, rejected := SendInserts(d, target, cols, insary, rows, ad);
    sent := sent + inserted;
    if rejected.Some? {
      StagesInserts(del, on, inserts, off, ad.accepts);
      return;
    }
    SendSingle(IdentityInsertSql(target, false), ad.accepts);
    if useidins {
      sql := IdentityInsertSql(target, false);
      sent := sent + [Execute(sql)];
      if !ad.accepts(sql) {
        StagesOff(del, on, inserts, off, ad.accepts);
        rejected := Some(sql);
        return;
      }
    } else {
      assert sent == sent + SendAll(off, ad.accepts).calls;
    }
    StagesOff(del, on, inserts, off, ad.accepts);
  }

  /** One copy entry with the connections open: the SELECT, then the
      destination statements. A rejected query ends the copy at once.
      `useidins` is back to false when the copy completes. */
  method CopyTable(d: Dialect, table: string, target: string, cols: seq<Column>, flag: bool, ad: Adapters)
    returns (calls: seq<Call>, failure: Option<Outcome>, useidins: bool)
    requires !flag
    ensures CopyResult(calls, failure) == Copy(d, table, target, cols, ad)
    ensures failure.None? ==> !useidins
  {
    var select, insary;
    select, insary, useidins := MapColumns(d, table, cols, flag);
    calls := [Query(select)];
    var answer := ad.query(select);
    if answer.None? {
      failure := Some(QueryFailed(select));
      return;
    }
    var sent, rejected := SendDestination(d, target, cols, insary, useidins, answer.value, ad);
    calls := calls + sent;
    if rejected.Some? {
      failure := Some(ExecuteFailed(rejected.value));
      return;
    }
    insary := [];
    useidins := false;
    failure := None;
  }

  /** The whole loop over the entries. `target` is set from an override
      entry, which skips the reset at the end of the loop body; every other
      entry ends with `target = nil`. */
  method Interpret(d: Dialect, entries: seq<Entry>, ad: Adapters) returns (calls: seq<Call>, outcome: Outcome)
    ensures Transcript(calls, outcome) == Run(d, Start, entries, ad)
  {
    var target: Option<string> := None;
    var connection: Option<ConnectionPair> := None;
    var useidins := false;
    calls := [];
    for i := 0 to |entries|
      invariant !useidins
      invariant Run(d, Start, entries, ad) == Then(calls, Run(d, State(target, connection), entries[i..], ad))
    {
      ghost var before := State(target, connection);
      var e := entries[i];
      if e.Database? {
        var pair := Connection(d, e.source, e.destination);
        RunDatabase(d, before, entries, i, ad);
        ThenThen(calls, [Connect(pair)], Run(d, State(None, Some(pair)), entries[i + 1..], ad));
        connection := Some(pair);
        calls := calls + [Connect(pair)];
      } else {
        var table := e.name;
        if target.None? {
          target := Some(table);
        }
        if e.columns.None? {
          RunOverride(d, before, entries, i, ad);
          target := Some(table);
          continue;
        }
        if connection.None? {
          RunNoConnection(d, before, entries, i, ad);
          assert calls + [] == calls;
          outcome := NoConnection;
          return;
        }
        RunCopy(d, before, entries, i, ad);
        var copied, failure;
        copied, failure, useidins := CopyTable(d, table, target.value, e.columns.value, useidins, ad);
        if failure.Some? {
          calls := calls + copied;
          outcome := failure.value;
          return;
        }
        ThenThen(calls, copied, Run(d, State(None, connection), entries[i + 1..], ad));
        calls := calls + copied;
      }
      target := None;
    }
    assert entries[|entries|..] == [];
    outcome := Finished;
  }
}
