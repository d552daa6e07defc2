/** How the destination server reads the quoted literals of a VALUES list.
    MySQL (default SQL mode, backslash escapes enabled) reads a single-quoted
    string in which `\x` is an escape sequence and `''` stands for `'`.
    SQL Server with QUOTED_IDENTIFIER OFF reads a double-quoted string in
    which `""` stands for `"` and nothing else is special. */
module SqlLiterals {
  import opened Wrappers
  import opened Ruby

  /** MySQL's reading of `\c` inside a string literal (the table of special
      character escape sequences in the "String Literals" section of the
      MySQL Reference Manual); `\%` and `\_` keep their backslash, an
      unlisted `\c` reads as `c`. */
  function MySqlEscape(c: char): string {
    if c == '0' then "\0"
    else if c == 'b' then "\U{8}"
    else if c == 'n' then "\n"
    else if c == 'r' then "\r"
    else if c == 't' then "\t"
    else if c == 'Z' then "\U{1A}"
    else if c == '%' || c == '_' then ['\\', c]
    else [c]
  }

  function Prefixed(p: string, r: Option<(string, string)>): Option<(string, string)> {
    match r
    case None => None
    case Some((v, rest)) => Some((p + v, rest))
  }

  /** Reads the rest of a string literal opened by quote `q`: its value and
      the text after the closing quote; `None` if it is never closed.
      `backslash` switches MySQL's escape sequences on. */
  function ReadQuoted(s: string, q: char, backslash: bool): (r: Option<(string, string)>)
    ensures r.Some? ==> |r.value.1| < |s|
    decreases |s|
  {
    if |s| == 0 then None
    else if backslash && s[0] == '\\' then
      if |s| == 1 then None else Prefixed(MySqlEscape(s[1]), ReadQuoted(s[2..], q, backslash))
    else if s[0] == q then
      if |s| >= 2 && s[1] == q then Prefixed([q], ReadQuoted(s[2..], q, backslash))
      else Some(("", s[1..]))
    else Prefixed([s[0]], ReadQuoted(s[1..], q, backslash))
  }

  /** Reads a non-empty comma-separated list of quoted literals. */
  function ReadItems(s: string, q: char, backslash: bool): Option<seq<string>>
    decreases |s|
  {
    if |s| == 0 || s[0] != q then None
    else
      match ReadQuoted(s[1..], q, backslash)
      case None => None
      case Some((v, rest)) =>
        if |rest| == 0 then Some([v])
        else if rest[0] != ',' then None
        else
          match ReadItems(rest[1..], q, backslash)
          case None => None
          case Some(vs) => Some([v] + vs)
  }

  /** Reads the text between `VALUES(` and `)`: the values it lists. */
  function ReadValues(s: string, q: char, backslash: bool): Option<seq<string>> {
    if |s| == 0 then Some([]) else ReadItems(s, q, backslash)
  }

  /** A body free of the quote and, when escapes apply, of backslashes is
      read back as written, and reading stops at the closing quote. */
  lemma {:induction false} ReadPlain(b: string, q: char, backslash: bool, rest: string)
    requires q !in b && (backslash ==> q != '\\' && '\\' !in b)
    requires |rest| == 0 || rest[0] != q
    ensures ReadQuoted(b + [q] + rest, q, backslash) == Some((b, rest))
    decreases |b|
  {
    if |b| > 0 {
      assert (b + [q] + rest)[1..] == b[1..] + [q] + rest;
      ReadPlain(b[1..], q, backslash, rest);
      assert [b[0]] + b[1..] == b;
    } else {
      var s := b + [q] + rest;
      assert s == [q] + rest;
      assert s[1..] == rest;
    }
  }

  /** What follows literal `k` in `lits.join(",")`. */
  function After(lits: seq<string>, k: nat): string
    requires k < |lits|
  {
    if k == |lits| - 1 then "" else "," + Join(lits[k + 1..], ",")
  }

  /** Reading one literal and the comma after it. */
  lemma ReadItemsStep(b: string, v: string, q: char, backslash: bool, r: string)
    requires ReadQuoted(b + [q] + r, q, backslash) == Some((v, r))
    requires |r| == 0 || r[0] == ','
    ensures ReadItems([q] + b + [q] + r, q, backslash)
      == if |r| == 0 then Some([v])
         else match ReadItems(r[1..], q, backslash)
              case None => None
              case Some(vs) => Some([v] + vs)
  {
    var s := [q] + b + [q] + r;
    assert s[1..] == b + [q] + r;
  }

  /** What follows literal `k + 1` is the same in the list without its
      first literal. */
  lemma AfterShift(lits: seq<string>, k: nat)
    requires k + 1 < |lits|
    ensures After(lits[1..], k) == After(lits, k + 1)
  {
    assert lits[1..][k + 1..] == lits[k + 2..];
  }

  /** A join of two or more literals is the first, a comma, and the join of
      the rest. */
  lemma JoinFirst(lits: seq<string>)
    requires |lits| > 1
    ensures Join(lits, ",") == lits[0] + After(lits, 0)
    ensures After(lits, 0) == "," + Join(lits[1..], ",")
  {
  }

  lemma ReadSingle(lits: seq<string>, body: string, values: seq<string>, q: char, backslash: bool)
    requires |lits| == |values| == 1 && lits[0] == [q] + body + [q]
    requires ReadQuoted(body + [q] + After(lits, 0), q, backslash) == Some((values[0], After(lits, 0)))
    ensures ReadItems(Join(lits, ","), q, backslash) == Some(values)
  {
    assert After(lits, 0) == "";
    assert Join(lits, ",") == [q] + body + [q] + "";
    ReadItemsStep(body, values[0], q, backslash, "");
    assert values == [values[0]];
  }

  /** A comma-joined list of quoted literals is read back literal by
      literal, provided each one reads back on its own. */
  lemma {:induction false} ReadJoined(lits: seq<string>, bodies: seq<string>, values: seq<string>, q: char, backslash: bool)
    requires |lits| == |bodies| == |values| > 0
    requires forall k :: 0 <= k < |lits| ==> lits[k] == [q] + bodies[k] + [q]
    requires forall k :: 0 <= k < |lits| ==>
      ReadQuoted(bodies[k] + [q] + After(lits, k), q, backslash) == Some((values[k], After(lits, k)))
    ensures ReadItems(Join(lits, ","), q, backslash) == Some(values)
    decreases |lits|
  {
    if |lits| == 1 {
      ReadSingle(lits, bodies[0], values, q, backslash);
    } else {
      var r := After(lits, 0);
      JoinFirst(lits);
      assert Join(lits, ",") == [q] + bodies[0] + [q] + r;
      ReadItemsStep(bodies[0], values[0], q, backslash, r);
      var tl, tb, tv := lits[1..], bodies[1..], values[1..];
      forall k | 0 <= k < |tl|
        ensures tl[k] == [q] + tb[k] + [q]
        ensures ReadQuoted(tb[k] + [q] + After(tl, k), q, backslash) == Some((tv[k], After(tl, k)))
      {
        AfterShift(lits, k);
        assert tl[k] == lits[k + 1] && tb[k] == bodies[k + 1] && tv[k] == values[k + 1];
      }
      ReadJoined(tl, tb, tv, q, backslash);
      assert r[1..] == Join(tl, ",");
      assert [values[0]] + tv == values;
    }
  }
}
