/** Properties of whole runs: how overrides resolve, what a copy sends and
    in which order, and how a failure ends the run. */
module Runs {
  import opened Wrappers
  import opened Ruby
  import opened Directives
  import opened Dialects
  import opened Interpreter
  import opened Statements

  /** Running `a + b` is running `a` and then `b` from the state `a` leaves;
      a run that stops within `a` never reaches `b`. */
  lemma {:induction false} RunSplit(d: Dialect, s: State, a: seq<Entry>, b: seq<Entry>, ad: Adapters)
    ensures StateAfter(d, s, a, ad).None? ==> Run(d, s, a + b, ad) == Run(d, s, a, ad)
    ensures StateAfter(d, s, a, ad).Some? ==>
      && Run(d, s, a, ad).outcome == Finished
      && Run(d, s, a + b, ad) == Then(Run(d, s, a, ad).calls, Run(d, StateAfter(d, s, a, ad).value, b, ad))
    decreases |a|
  {
    if |a| == 0 {
      assert a + b == b;
      assert [] + Run(d, s, b, ad).calls == Run(d, s, b, ad).calls;
    } else {
      assert (a + b)[0] == a[0] && (a + b)[1..] == a[1..] + b;
      match Step(d, s, a[0], ad)
      case Stop(_, _) =>
      case Continue(calls, next) =>
        RunSplit(d, next, a[1..], b, ad);
        if StateAfter(d, next, a[1..], ad).Some? {
          ThenThen(calls, Run(d, next, a[1..], ad).calls, Run(d, StateAfter(d, s, a, ad).value, b, ad));
        }
    }
  }

  /** my2tsql.rb:65-71, 143 and db-remapper.rb:60-66, 119: after a run of
      entries the pending target is the name of the last entry when that
      entry is an override, and none after any other entry (a copy or a
      `database` entry). */
  lemma {:induction false} PendingAfter(d: Dialect, s: State, entries: seq<Entry>, ad: Adapters)
    requires |entries| > 0 && StateAfter(d, s, entries, ad).Some?
    ensures var last := entries[|entries| - 1];
      StateAfter(d, s, entries, ad).value.pending == if last.IsOverride() then Some(last.name) else None
    decreases |entries|
  {
    match Step(d, s, entries[0], ad)
    case Continue(_, next) =>
      if |entries| > 1 {
        assert entries[1..][|entries| - 2] == entries[|entries| - 1];
        PendingAfter(d, next, entries[1..], ad);
      }
  }

  /** my2tsql.rb:66-71: an override with no copy after it sends nothing. */
  lemma TrailingOverrideDropped(d: Dialect, s: State, entries: seq<Entry>, name: TableName, ad: Adapters)
    ensures Run(d, s, entries + [Table(name, None)], ad) == Run(d, s, entries, ad)
  {
    RunSplit(d, s, entries, [Table(name, None)], ad);
    if StateAfter(d, s, entries, ad).Some? {
      var t := StateAfter(d, s, entries, ad).value;
      assert [Table(name, None)][1..] == [];
      assert Run(d, t, [Table(name, None)], ad) == Transcript([], Finished);
      assert Run(d, s, entries, ad).calls + [] == Run(d, s, entries, ad).calls;
    }
  }

  /** my2tsql.rb:66-71: of two overrides in a row the second wins. */
  lemma LastOverrideWins(d: Dialect, s: State, first: TableName, second: TableName, rest: seq<Entry>, ad: Adapters)
    ensures Run(d, s, [Table(first, None), Table(second, None)] + rest, ad)
         == Run(d, s, [Table(second, None)] + rest, ad)
  {
    var es := [Table(first, None), Table(second, None)] + rest;
    RunOverride(d, s, es, 0, ad);
    RunOverride(d, State(Some(first), s.connection), es, 1, ad);
    RunOverride(d, s, [Table(second, None)] + rest, 0, ad);
    assert es[2..] == rest && ([Table(second, None)] + rest)[1..] == rest;
    assert es[0..] == es;
  }

  /** my2tsql.rb:47, 143: a `database` entry between an override and a
      copy discards the override. */
  lemma DatabaseDiscardsOverride(d: Dialect, s: State, name: TableName, src: Login, dst: Login,
                                 rest: seq<Entry>, ad: Adapters)
    ensures Run(d, s, [Table(name, None), Database(src, dst)] + rest, ad)
         == Run(d, s, [Database(src, dst)] + rest, ad)
  {
    var es := [Table(name, None), Database(src, dst)] + rest;
    RunOverride(d, s, es, 0, ad);
    RunDatabase(d, State(Some(name), s.connection), es, 1, ad);
    RunDatabase(d, s, [Database(src, dst)] + rest, 0, ad);
    assert es[2..] == rest && ([Database(src, dst)] + rest)[1..] == rest;
    assert es[0..] == es && ([Database(src, dst)] + rest)[0..] == [Database(src, dst)] + rest;
  }

  /** my2tsql.rb:65-72, 106-107, 131: an override names the table the next
      copy deletes from and inserts into, whatever was pending before; the
      copy still selects from its own table. */
  lemma OverrideTargetsNextCopy(d: Dialect, s: State, target: TableName, table: TableName, cols: seq<Column>,
                                rest: seq<Entry>, ad: Adapters)
    requires s.connection.Some?
    ensures var r := Copy(d, table, target, cols, ad);
      Run(d, s, [Table(target, None), Table(table, Some(cols))] + rest, ad) ==
        if r.failure.Some? then Transcript(r.calls, r.failure.value)
        else Then(r.calls, Run(d, State(None, s.connection), rest, ad))
  {
    var es := [Table(target, None), Table(table, Some(cols))] + rest;
    RunOverride(d, s, es, 0, ad);
    RunCopy(d, State(Some(target), s.connection), es, 1, ad);
    assert es[2..] == rest && es[0..] == es;
  }

  /** Without a pending override a copy writes into its own table. */
  lemma CopyTargetsOwnTable(d: Dialect, s: State, table: TableName, cols: seq<Column>, rest: seq<Entry>, ad: Adapters)
    requires s.connection.Some? && s.pending.None?
    ensures var r := Copy(d, table, table, cols, ad);
      Run(d, s, [Table(table, Some(cols))] + rest, ad) ==
        if r.failure.Some? then Transcript(r.calls, r.failure.value)
        else Then(r.calls, Run(d, State(None, s.connection), rest, ad))
  {
    var es := [Table(table, Some(cols))] + rest;
    RunCopy(d, s, es, 0, ad);
    assert es[1..] == rest && es[0..] == es;
  }

  /** A `database` entry first: the connect call, then the rest of the
      entries with the connections open and nothing pending. */
  lemma RunConnect(d: Dialect, src: Login, dst: Login, rest: seq<Entry>, ad: Adapters)
    ensures Run(d, Start, [Database(src, dst)] + rest, ad) ==
      Then([Connect(Connection(d, src, dst))], Run(d, State(None, Some(Connection(d, src, dst))), rest, ad))
  {
    var es := [Database(src, dst)] + rest;
    RunDatabase(d, Start, es, 0, ad);
    assert es[0..] == es && es[1..] == rest;
  }

  /** A run that opens the connections, names an override target and
      copies into it: the connect call, then the calls of the copy, then
      the rest of the entries from the reset state. */
  lemma ConnectOverrideCopy(d: Dialect, src: Login, dst: Login, target: TableName, table: TableName,
                            cols: seq<Column>, rest: seq<Entry>, ad: Adapters, calls: seq<Call>)
    requires Copy(d, table, target, cols, ad) == CopyResult(calls, None)
    ensures var pair := Connection(d, src, dst);
      Run(d, Start, [Database(src, dst), Table(target, None), Table(table, Some(cols))] + rest, ad) ==
        Then([Connect(pair)] + calls, Run(d, State(None, Some(pair)), rest, ad))
  {
    var pair := Connection(d, src, dst);
    var tail := [Table(target, None), Table(table, Some(cols))] + rest;
    assert [Database(src, dst), Table(target, None), Table(table, Some(cols))] + rest == [Database(src, dst)] + tail;
    RunConnect(d, src, dst, tail, ad);
    OverrideTargetsNextCopy(d, State(None, Some(pair)), target, table, cols, rest, ad);
    ThenThen([Connect(pair)], calls, Run(d, State(None, Some(pair)), rest, ad));
  }

  /** my2tsql.rb:103-139: a copy whose query succeeds and all of whose
      statements are accepted sends the SELECT, then the DELETE (also when
      the source returned no rows), the identity switch when flagged, one
      INSERT per row in the source's order, and the switch back. */
  lemma CopyOrder(d: Dialect, table: string, target: string, cols: seq<Column>, rows: seq<Row>, ad: Adapters)
    requires ad.query(SelectSql(table, cols)) == Some(rows)
    requires AllAccepted(DestStatements(d, target, cols, rows), ad.accepts)
    ensures var flagged := NeedsIdentity(d, cols);
      Copy(d, table, target, cols, ad) == CopyResult(
        [Query(SelectSql(table, cols)), Execute(DeleteSql(d, target))]
        + (if flagged then [Execute(IdentityInsertSql(target, true))] else [])
        + Executes(Inserts(d, target, cols, rows))
        + (if flagged then [Execute(IdentityInsertSql(target, false))] else []),
        None)
  {
    var flagged := NeedsIdentity(d, cols);
    CopyAccepted(d, table, target, cols, rows, ad);
    DestExecutes(d, target, cols, rows);
    Prepend4([Query(SelectSql(table, cols))], [Execute(DeleteSql(d, target))],
             if flagged then [Execute(IdentityInsertSql(target, true))] else [],
             Executes(Inserts(d, target, cols, rows)),
             if flagged then [Execute(IdentityInsertSql(target, false))] else []);
  }

  /** The destination calls of a copy in which every statement is accepted. */
  lemma DestExecutes(d: Dialect, target: string, cols: seq<Column>, rows: seq<Row>)
    ensures var flagged := NeedsIdentity(d, cols);
      Executes(DestStatements(d, target, cols, rows)) ==
        [Execute(DeleteSql(d, target))]
        + (if flagged then [Execute(IdentityInsertSql(target, true))] else [])
        + Executes(Inserts(d, target, cols, rows))
        + (if flagged then [Execute(IdentityInsertSql(target, false))] else [])
  {
    var flagged := NeedsIdentity(d, cols);
    var del := DeleteSql(d, target);
    var on: seq<string> := if flagged then [IdentityInsertSql(target, true)] else [];
    var off: seq<string> := if flagged then [IdentityInsertSql(target, false)] else [];
    var inserts := Inserts(d, target, cols, rows);
    assert DestStatements(d, target, cols, rows) == [del] + on + inserts + off;
    ExecutesFour([del], on, inserts, off);
    assert Executes([del]) == [Execute(del)];
    assert Executes(on) == if flagged then [Execute(IdentityInsertSql(target, true))] else [];
    assert Executes(off) == if flagged then [Execute(IdentityInsertSql(target, false))] else [];
  }

  lemma ExecutesFour(a: seq<string>, b: seq<string>, c: seq<string>, e: seq<string>)
    ensures Executes(a + b + c + e) == Executes(a) + Executes(b) + Executes(c) + Executes(e)
  {
    ExecutesAppend(a + b + c, e);
    ExecutesAppend(a + b, c);
    ExecutesAppend(a, b);
  }

  lemma Prepend4<T>(q: seq<T>, a: seq<T>, b: seq<T>, c: seq<T>, e: seq<T>)
    ensures q + (a + b + c + e) == q + a + b + c + e
  {
    Assoc(q, a + b + c, e);
    Assoc(q, a + b, c);
    Assoc(q, a, b);
  }

  lemma {:induction false} ExecutesAppend(a: seq<string>, b: seq<string>)
    ensures Executes(a + b) == Executes(a) + Executes(b)
  {
    assert forall k :: 0 <= k < |a + b| ==> (a + b)[k] == if k < |a| then a[k] else b[k - |a|];
  }

  /** A copy whose statements are all accepted sends each of them once. */
  lemma CopyAccepted(d: Dialect, table: string, target: string, cols: seq<Column>, rows: seq<Row>, ad: Adapters)
    requires ad.query(SelectSql(table, cols)) == Some(rows)
    requires AllAccepted(DestStatements(d, target, cols, rows), ad.accepts)
    ensures Copy(d, table, target, cols, ad)
         == CopyResult([Query(SelectSql(table, cols))] + Executes(DestStatements(d, target, cols, rows)), None)
  {
    SendAllAccepted(DestStatements(d, target, cols, rows), ad.accepts);
  }

  /** The calls of a send are Executes of the statements it was given. */
  lemma {:induction false} SendAllCallsFrom(stmts: seq<string>, accepts: string -> bool)
    ensures forall c :: c in SendAll(stmts, accepts).calls ==> c.Execute? && c.sql in stmts
    decreases |stmts|
  {
    if |stmts| > 0 && accepts(stmts[0]) {
      SendAllCallsFrom(stmts[1..], accepts);
      assert forall x :: x in stmts[1..] ==> x in stmts;
    }
  }

  /** The statement a send stops at is the last one sent. */
  lemma {:induction false} SendAllFailedLast(stmts: seq<string>, accepts: string -> bool)
    ensures var r := SendAll(stmts, accepts);
      r.failed.Some? ==> |r.calls| > 0 && r.calls[|r.calls| - 1] == Execute(r.failed.value)
    decreases |stmts|
  {
    if |stmts| > 0 && accepts(stmts[0]) {
      SendAllFailedLast(stmts[1..], accepts);
    }
  }

  /** The calls of one copy: a SELECT query, then only DELETE, INSERT and
      (SQL Server only) SET IDENTITY_INSERT statements. */
  lemma CopyCallKinds(d: Dialect, table: string, target: string, cols: seq<Column>, ad: Adapters)
    ensures forall c :: c in Copy(d, table, target, cols, ad).calls ==>
      (c.Query? ==> StartsWith(c.sql, "SELECT")) && (c.Execute? ==> DestKind(d, c.sql)) && !c.Connect?
  {
    var select := SelectSql(table, cols);
    SelectStartsWithSelect(table, cols);
    match ad.query(select)
    case None =>
    case Some(rows) =>
      SendAllCallsFrom(DestStatements(d, target, cols, rows), ad.accepts);
      DestStatementKinds(d, target, cols, rows);
  }

  /** my2tsql.rb:44-144 and db-remapper.rb:42-120: a run sends queries that
      start with SELECT and statements that are DELETE, INSERT or, for SQL
      Server only, SET IDENTITY_INSERT; so db-remapper.rb never switches
      identity insert. */
  lemma {:induction false} RunCallKinds(d: Dialect, s: State, entries: seq<Entry>, ad: Adapters)
    ensures forall c :: c in Run(d, s, entries, ad).calls ==>
      (c.Query? ==> StartsWith(c.sql, "SELECT")) && (c.Execute? ==> DestKind(d, c.sql))
    decreases |entries|
  {
    if |entries| > 0 {
      var e := entries[0];
      if e.Table? && e.columns.Some? && s.connection.Some? {
        CopyCallKinds(d, e.name, s.pending.GetOr(e.name), e.columns.value, ad);
      }
      match Step(d, s, e, ad)
      case Stop(_, _) =>
      case Continue(calls, next) =>
        RunCallKinds(d, next, entries[1..], ad);
    }
  }

  /** A failed copy ends with the call that failed. */
  lemma CopyFailureLast(d: Dialect, table: string, target: string, cols: seq<Column>, ad: Adapters)
    ensures var r := Copy(d, table, target, cols, ad);
      && (r.failure == Some(QueryFailed(SelectSql(table, cols))) || r.failure.None? || r.failure.value.ExecuteFailed?)
      && (r.failure.Some? ==> |r.calls| > 0)
      && (r.failure.Some? && r.failure.value.QueryFailed? ==> r.calls[|r.calls| - 1] == Query(r.failure.value.sql))
      && (r.failure.Some? && r.failure.value.ExecuteFailed? ==> r.calls[|r.calls| - 1] == Execute(r.failure.value.sql))
  {
    match ad.query(SelectSql(table, cols))
    case None =>
    case Some(rows) =>
      SendAllFailedLast(DestStatements(d, target, cols, rows), ad.accepts);
  }

  /** my2tsql.rb:145-153 and db-remapper.rb:121-124: a run that fails ends
      with the call that failed; nothing is sent after it. */
  lemma {:induction false} RunFailureLast(d: Dialect, s: State, entries: seq<Entry>, ad: Adapters)
    ensures FailsLast(Run(d, s, entries, ad))
    decreases |entries|
  {
    if |entries| > 0 {
      var e := entries[0];
      assert entries[0..] == entries;
      if e.Database? {
        RunDatabase(d, s, entries, 0, ad);
        var pair := Connection(d, e.source, e.destination);
        RunFailureLast(d, State(None, Some(pair)), entries[1..], ad);
        FailsLastThen([Connect(pair)], Run(d, State(None, Some(pair)), entries[1..], ad));
      } else if e.columns.None? {
        RunOverride(d, s, entries, 0, ad);
        RunFailureLast(d, State(Some(e.name), s.connection), entries[1..], ad);
      } else if s.connection.None? {
        RunNoConnection(d, s, entries, 0, ad);
      } else {
        RunFailureLast(d, State(None, s.connection), entries[1..], ad);
        CopyFailsLast(d, s, entries, ad);
      }
    }
  }

  /** A transcript whose failure, if any, is its last call. */
  predicate FailsLast(t: Transcript) {
    && (t.outcome.QueryFailed? ==> |t.calls| > 0 && t.calls[|t.calls| - 1] == Query(t.outcome.sql))
    && (t.outcome.ExecuteFailed? ==> |t.calls| > 0 && t.calls[|t.calls| - 1] == Execute(t.outcome.sql))
  }

  /** The copy case of RunFailureLast. */
  lemma CopyFailsLast(d: Dialect, s: State, entries: seq<Entry>, ad: Adapters)
    requires |entries| > 0 && entries[0].Table? && entries[0].columns.Some? && s.connection.Some?
    requires FailsLast(Run(d, State(None, s.connection), entries[1..], ad))
    ensures FailsLast(Run(d, s, entries, ad))
  {
    var e := entries[0];
    assert entries[0..] == entries;
    RunCopy(d, s, entries, 0, ad);
    var r := Copy(d, e.name, s.pending.GetOr(e.name), e.columns.value, ad);
    CopyFailureLast(d, e.name, s.pending.GetOr(e.name), e.columns.value, ad);
    FailsLastThen(r.calls, Run(d, State(None, s.connection), entries[1..], ad));
  }

  lemma FailsLastThen(calls: seq<Call>, t: Transcript)
    requires FailsLast(t)
    ensures FailsLast(Then(calls, t))
  {
    var c := calls + t.calls;
    if |t.calls| > 0 {
      assert c[|c| - 1] == t.calls[|t.calls| - 1];
    }
  }
}
