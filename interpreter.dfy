/** The meaning of one run of either script, as functions: the calls it makes
    on the two database adapters, in order, and how it ends. The loop that
    computes the same thing step by step is in module Remapper. */
module Interpreter {
  import opened Wrappers
  import opened Ruby
  import opened Directives
  import opened Dialects

  /** One call on an adapter. */
  datatype Call =
    | Connect(pair: ConnectionPair)  // a `database` entry opens both connections
    | Query(sql: string)             // a query run on the source connection
    | Execute(sql: string)           // a statement run on the destination connection

  /** How a run ends. Every ending other than Finished is an exception that
      leaves the loop; the connections are then closed and nothing further
      is sent. */
  datatype Outcome =
    | Finished
    | NoConnection                 // a copy before any `database` entry: the connection is still nil
    | QueryFailed(sql: string)     // the source adapter raised on this query
    | ExecuteFailed(sql: string)   // the destination adapter raised on this statement

  /** The two adapters: the rows the source returns for a query (None when it
      raises), and whether the destination accepts a statement. */
  datatype Adapters = Adapters(query: string -> Option<seq<Row>>, accepts: string -> bool)

  /** What the loop carries from one entry to the next: `target` (a pending
      destination-table override) and the open connection pair. */
  datatype State = State(pending: Option<string>, connection: Option<ConnectionPair>)

  const Start := State(None, None)

  datatype Transcript = Transcript(calls: seq<Call>, outcome: Outcome)

  /** `calls` made first, then the rest of a run. */
  function Then(calls: seq<Call>, t: Transcript): Transcript {
    Transcript(calls + t.calls, t.outcome)
  }

  /** The SELECT text before its final comma is replaced: "SELECT" followed
      by " src," for every column. */
  function SelectHead(cols: seq<Column>): string
    decreases |cols|
  {
    if |cols| == 0 then "SELECT"
    else SelectHead(cols[..|cols| - 1]) + " " + SourceName(cols[|cols| - 1]) + ","
  }

  /** The query text: `select.gsub!(/,$/, " FROM #{table}")`. */
  function SelectSql(table: string, cols: seq<Column>): string {
    Gsub(SelectHead(cols), ',', true, " FROM " + table)
  }

  /** The destination column names, quoted for the dialect (`insary`). */
  function InsertNames(d: Dialect, cols: seq<Column>): seq<string> {
    seq(|cols|, k requires 0 <= k < |cols| => QuoteColumn(d, DestName(cols[k])))
  }

  /** Whether some source column sets the identity-insert flag. */
  predicate NeedsIdentity(d: Dialect, cols: seq<Column>) {
    exists k :: 0 <= k < |cols| && FlagsIdentity(d, SourceName(cols[k]))
  }

  /** The INSERT for one source row. */
  function RowInsert(d: Dialect, target: string, cols: seq<Column>, row: Row): string {
    InsertSql(d, target, Join(InsertNames(d, cols), ","), ValuesText(d, Literals(d, row)))
  }

  function Inserts(d: Dialect, target: string, cols: seq<Column>, rows: seq<Row>): seq<string> {
    seq(|rows|, k requires 0 <= k < |rows| => RowInsert(d, target, cols, rows[k]))
  }

  /** The statements a copy sends to the destination once the source has
      answered with `rows`, all of them accepted. */
  function DestStatements(d: Dialect, target: string, cols: seq<Column>, rows: seq<Row>): seq<string> {
    var on := if NeedsIdentity(d, cols) then [IdentityInsertSql(target, true)] else [];
    var off := if NeedsIdentity(d, cols) then [IdentityInsertSql(target, false)] else [];
    [DeleteSql(d, target)] + on + Inserts(d, target, cols, rows) + off
  }

  function Executes(stmts: seq<string>): seq<Call> {
    seq(|stmts|, k requires 0 <= k < |stmts| => Execute(stmts[k]))
  }

  /** The calls made by sending statements in order, and the statement the
      destination rejected, if any; nothing is sent after it. */
  datatype Sent = Sent(calls: seq<Call>, failed: Option<string>)

  function SendAll(stmts: seq<string>, accepts: string -> bool): Sent
    decreases |stmts|
  {
    if |stmts| == 0 then Sent([], None)
    else if !accepts(stmts[0]) then Sent([Execute(stmts[0])], Some(stmts[0]))
    else
      var r := SendAll(stmts[1..], accepts);
      Sent([Execute(stmts[0])] + r.calls, r.failed)
  }

  datatype CopyResult = CopyResult(calls: seq<Call>, failure: Option<Outcome>)

  /** One copy entry, connections open: query the source, then send the
      destination statements until one is rejected. */
  function Copy(d: Dialect, table: string, target: string, cols: seq<Column>, ad: Adapters): CopyResult {
    var select := SelectSql(table, cols);
    match ad.query(select)
    case None => CopyResult([Query(select)], Some(QueryFailed(select)))
    case Some(rows) =>
      var r := SendAll(DestStatements(d, target, cols, rows), ad.accepts);
      CopyResult([Query(select)] + r.calls, if r.failed.Some? then Some(ExecuteFailed(r.failed.value)) else None)
  }

  datatype StepResult =
    | Continue(calls: seq<Call>, next: State)
    | Stop(calls: seq<Call>, outcome: Outcome)

  /** One entry. An override only sets the pending target. Every other entry
      clears it afterwards; a copy uses it, or its own name when none is
      pending. */
  function Step(d: Dialect, s: State, e: Entry, ad: Adapters): StepResult {
    match e
    case Database(src, dst) =>
      var pair := Connection(d, src, dst);
      Continue([Connect(pair)], State(None, Some(pair)))
    case Table(name, None) =>
      Continue([], State(Some(name), s.connection))
    case Table(name, Some(cols)) =>
      if s.connection.None? then Stop([], NoConnection)
      else
        var r := Copy(d, name, s.pending.GetOr(name), cols, ad);
        if r.failure.Some? then Stop(r.calls, r.failure.value)
        else Continue(r.calls, State(None, s.connection))
  }

  /** The entries from state `s` onwards. */
  function Run(d: Dialect, s: State, entries: seq<Entry>, ad: Adapters): Transcript
    decreases |entries|
  {
    if |entries| == 0 then Transcript([], Finished)
    else
      match Step(d, s, entries[0], ad)
      case Stop(calls, outcome) => Transcript(calls, outcome)
      case Continue(calls, next) => Then(calls, Run(d, next, entries[1..], ad))
  }

  /** The state after `entries`, or None if the run stops within them. */
  function StateAfter(d: Dialect, s: State, entries: seq<Entry>, ad: Adapters): Option<State>
    decreases |entries|
  {
    if |entries| == 0 then Some(s)
    else
      match Step(d, s, entries[0], ad)
      case Stop(_, _) => None
      case Continue(_, next) => StateAfter(d, next, entries[1..], ad)
  }

  predicate AllAccepted(stmts: seq<string>, accepts: string -> bool) {
    forall k :: 0 <= k < |stmts| ==> accepts(stmts[k])
  }

  /** Sending statements that are all accepted makes one call each. */
  lemma {:induction false} SendAllAccepted(stmts: seq<string>, accepts: string -> bool)
    requires AllAccepted(stmts, accepts)
    ensures SendAll(stmts, accepts) == Sent(Executes(stmts), None)
    decreases |stmts|
  {
    if |stmts| > 0 {
      SendAllAccepted(stmts[1..], accepts);
      assert Executes(stmts) == [Execute(stmts[0])] + Executes(stmts[1..]);
    }
  }

  /** The first rejected statement is the last one sent. */
  lemma {:induction false} SendAllStops(stmts: seq<string>, n: nat, accepts: string -> bool)
    requires n < |stmts| && !accepts(stmts[n])
    requires AllAccepted(stmts[..n], accepts)
    ensures SendAll(stmts, accepts) == Sent(Executes(stmts[..n + 1]), Some(stmts[n]))
    decreases n
  {
    if n > 0 {
      assert stmts[1..][..n - 1] == stmts[1..n];
      SendAllStops(stmts[1..], n - 1, accepts);
      assert stmts[1..][..n] == stmts[1..n + 1];
      assert Executes(stmts[..n + 1]) == [Execute(stmts[0])] + Executes(stmts[1..n + 1]);
    } else {
      assert Executes(stmts[..1]) == [Execute(stmts[0])];
    }
  }

  /** Sending `a` and then `b` is sending `a + b`; `b` is not reached when
      a statement of `a` is rejected. */
  lemma {:induction false} SendAllAppend(a: seq<string>, b: seq<string>, accepts: string -> bool)
    ensures SendAll(a + b, accepts) ==
      var ra := SendAll(a, accepts);
      if ra.failed.Some? then ra
      else Sent(ra.calls + SendAll(b, accepts).calls, SendAll(b, accepts).failed)
    decreases |a|
  {
    if |a| == 0 {
      assert a + b == b;
    } else {
      assert (a + b)[0] == a[0] && (a + b)[1..] == a[1..] + b;
      SendAllAppend(a[1..], b, accepts);
    }
  }

  /** Sending one statement. */
  lemma SendSingle(x: string, accepts: string -> bool)
    ensures SendAll([x], accepts) == Sent([Execute(x)], if accepts(x) then None else Some(x))
  {
    SendDel(x, [], accepts);
    assert [x] + [] == [x];
  }

  /** The statements of a copy are sent in four stages: the DELETE, the
      identity switch (`on`), the INSERTs and the switch back (`off`).
      These four lemmas say where the sending stops: at the rejected DELETE,
      ... */
  lemma StagesDelete(del: string, on: seq<string>, inserts: seq<string>, off: seq<string>, accepts: string -> bool)
    requires !accepts(del)
    ensures SendAll([del] + on + inserts + off, accepts) == Sent([Execute(del)], Some(del))
  {
    assert [del] + on + inserts + off == [del] + (on + inserts + off);
    SendDel(del, on + inserts + off, accepts);
  }

  /** ... within the identity switch, ... */
  lemma StagesOn(del: string, on: seq<string>, inserts: seq<string>, off: seq<string>, accepts: string -> bool)
    requires accepts(del) && SendAll(on, accepts).failed.Some?
    ensures SendAll([del] + on + inserts + off, accepts) ==
      Sent([Execute(del)] + SendAll(on, accepts).calls, SendAll(on, accepts).failed)
  {
    assert [del] + on + inserts + off == [del] + (on + (inserts + off));
    SendDel(del, on + (inserts + off), accepts);
    SendAllAppend(on, inserts + off, accepts);
  }

  /** ... within the INSERTs, ... */
  lemma StagesInserts(del: string, on: seq<string>, inserts: seq<string>, off: seq<string>, accepts: string -> bool)
    requires accepts(del) && SendAll(on, accepts).failed.None? && SendAll(inserts, accepts).failed.Some?
    ensures SendAll([del] + on + inserts + off, accepts) ==
      Sent([Execute(del)] + SendAll(on, accepts).calls + SendAll(inserts, accepts).calls, SendAll(inserts, accepts).failed)
  {
    assert [del] + on + inserts + off == [del] + (on + (inserts + off));
    SendDel(del, on + (inserts + off), accepts);
    SendAllAppend(on, inserts + off, accepts);
    SendAllAppend(inserts, off, accepts);
    Assoc([Execute(del)], SendAll(on, accepts).calls, SendAll(inserts, accepts).calls);
  }

  /** ... or at the switch back, if anywhere. */
  lemma StagesOff(del: string, on: seq<string>, inserts: seq<string>, off: seq<string>, accepts: string -> bool)
    requires accepts(del) && SendAll(on, accepts).failed.None? && SendAll(inserts, accepts).failed.None?
    ensures SendAll([del] + on + inserts + off, accepts) ==
      Sent([Execute(del)] + SendAll(on, accepts).calls + SendAll(inserts, accepts).calls + SendAll(off, accepts).calls,
           SendAll(off, accepts).failed)
  {
    Assoc4([del], on, inserts, off);
    SendDel(del, on + (inserts + off), accepts);
    SendThree(on, inserts, off, accepts);
    Assoc4([Execute(del)], SendAll(on, accepts).calls, SendAll(inserts, accepts).calls, SendAll(off, accepts).calls);
  }

  lemma SendThree(a: seq<string>, b: seq<string>, c: seq<string>, accepts: string -> bool)
    requires SendAll(a, accepts).failed.None? && SendAll(b, accepts).failed.None?
    ensures SendAll(a + (b + c), accepts) ==
      Sent(SendAll(a, accepts).calls + SendAll(b, accepts).calls + SendAll(c, accepts).calls, SendAll(c, accepts).failed)
  {
    SendAllAppend(a, b + c, accepts);
    SendAllAppend(b, c, accepts);
    Assoc(SendAll(a, accepts).calls, SendAll(b, accepts).calls, SendAll(c, accepts).calls);
  }

  lemma SendDel(del: string, rest: seq<string>, accepts: string -> bool)
    ensures SendAll([del] + rest, accepts) ==
      if accepts(del) then Sent([Execute(del)] + SendAll(rest, accepts).calls, SendAll(rest, accepts).failed)
      else Sent([Execute(del)], Some(del))
  {
    assert ([del] + rest)[0] == del && ([del] + rest)[1..] == rest;
  }

  /** One more column: its source name is appended to the SELECT, its
      quoted destination name to the INSERT names, and it may raise the
      identity flag. */
  lemma SelectHeadStep(cols: seq<Column>, k: nat)
    requires k < |cols|
    ensures SelectHead(cols[..k + 1]) == SelectHead(cols[..k]) + " " + SourceName(cols[k]) + ","
  {
    assert cols[..k + 1][..k] == cols[..k];
  }

  lemma InsertNamesStep(d: Dialect, cols: seq<Column>, k: nat)
    requires k < |cols|
    ensures InsertNames(d, cols[..k + 1]) == InsertNames(d, cols[..k]) + [QuoteColumn(d, DestName(cols[k]))]
  {
  }

  lemma IdentityStep(d: Dialect, cols: seq<Column>, k: nat)
    requires k < |cols|
    ensures NeedsIdentity(d, cols[..k + 1]) == (NeedsIdentity(d, cols[..k]) || FlagsIdentity(d, SourceName(cols[k])))
  {
    var pre, next := cols[..k], cols[..k + 1];
    if NeedsIdentity(d, next) && !FlagsIdentity(d, SourceName(cols[k])) {
      var j :| 0 <= j < k + 1 && FlagsIdentity(d, SourceName(next[j]));
      assert j < k && pre[j] == next[j];
    }
    if NeedsIdentity(d, pre) {
      var j :| 0 <= j < k && FlagsIdentity(d, SourceName(pre[j]));
      assert next[j] == pre[j];
    }
    if FlagsIdentity(d, SourceName(cols[k])) {
      assert FlagsIdentity(d, SourceName(next[k]));
    }
  }

  /** Sending one more statement of a plan. */
  lemma ExecutesSnoc(stmts: seq<string>, n: nat, accepts: string -> bool)
    requires n < |stmts|
    ensures Executes(stmts[..n + 1]) == Executes(stmts[..n]) + [Execute(stmts[n])]
    ensures AllAccepted(stmts[..n], accepts) && accepts(stmts[n]) ==> AllAccepted(stmts[..n + 1], accepts)
  {
  }

  /** Unfolding a run at entry `i`. */
  lemma RunAt(d: Dialect, s: State, entries: seq<Entry>, i: nat, ad: Adapters)
    requires i < |entries|
    ensures Run(d, s, entries[i..], ad) ==
      match Step(d, s, entries[i], ad)
      case Stop(calls, outcome) => Transcript(calls, outcome)
      case Continue(calls, next) => Then(calls, Run(d, next, entries[i + 1..], ad))
  {
    assert entries[i..][0] == entries[i] && entries[i..][1..] == entries[i + 1..];
  }

  /** A `database` entry connects and discards any pending override. */
  lemma RunDatabase(d: Dialect, s: State, entries: seq<Entry>, i: nat, ad: Adapters)
    requires i < |entries| && entries[i].Database?
    ensures var pair := Connection(d, entries[i].source, entries[i].destination);
      Run(d, s, entries[i..], ad) == Then([Connect(pair)], Run(d, State(None, Some(pair)), entries[i + 1..], ad))
  {
    RunAt(d, s, entries, i, ad);
  }

  /** A table entry without columns only records its name as the target of
      the next copy. */
  lemma RunOverride(d: Dialect, s: State, entries: seq<Entry>, i: nat, ad: Adapters)
    requires i < |entries| && entries[i].Table? && entries[i].columns.None?
    ensures Run(d, s, entries[i..], ad) == Run(d, State(Some(entries[i].name), s.connection), entries[i + 1..], ad)
  {
    RunAt(d, s, entries, i, ad);
    assert Then([], Run(d, State(Some(entries[i].name), s.connection), entries[i + 1..], ad))
        == Run(d, State(Some(entries[i].name), s.connection), entries[i + 1..], ad);
  }

  /** A copy before any `database` entry ends the run and sends nothing. */
  lemma RunNoConnection(d: Dialect, s: State, entries: seq<Entry>, i: nat, ad: Adapters)
    requires i < |entries| && entries[i].Table? && entries[i].columns.Some?
    requires s.connection.None?
    ensures Run(d, s, entries[i..], ad) == Transcript([], NoConnection)
  {
    RunAt(d, s, entries, i, ad);
  }

  /** A copy uses the pending target, or its own name when none is pending,
      and clears the pending target; a failure ends the run. */
  lemma RunCopy(d: Dialect, s: State, entries: seq<Entry>, i: nat, ad: Adapters)
    requires i < |entries| && entries[i].Table? && entries[i].columns.Some?
    requires s.connection.Some?
    ensures var e := entries[i];
      var r := Copy(d, e.name, s.pending.GetOr(e.name), e.columns.value, ad);
      Run(d, s, entries[i..], ad) ==
        if r.failure.Some? then Transcript(r.calls, r.failure.value)
        else Then(r.calls, Run(d, State(None, s.connection), entries[i + 1..], ad))
  {
    RunAt(d, s, entries, i, ad);
  }

  lemma ThenThen(a: seq<Call>, b: seq<Call>, t: Transcript)
    ensures Then(a, Then(b, t)) == Then(a + b, t)
  {
    Assoc(a, b, t.calls);
  }
}
