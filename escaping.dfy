/** What the per-value escaping of the two scripts produces, and how the
    destination server reads the resulting VALUES list back. */
module Escaping {
  import opened Wrappers
  import opened Ruby
  import opened Directives
  import opened Dialects
  import opened SqlLiterals

  /** Reference for the T-SQL literal body: each `'` and each `"` becomes
      two single quotes; every other character is kept. */
  function TSqlBody(s: string): string
    decreases |s|
  {
    if |s| == 0 then ""
    else (if s[0] == '\'' || s[0] == '"' then "''" else [s[0]]) + TSqlBody(s[1..])
  }

  /** Reference for the MySQL literal body: a backslash before each `'`. */
  function MySqlBody(s: string): string
    decreases |s|
  {
    if |s| == 0 then ""
    else (if s[0] == '\'' then "\\'" else [s[0]]) + MySqlBody(s[1..])
  }

  /** The number of characters of `s` that are in `chars`. */
  function CountIn(s: string, chars: set<char>): nat
    decreases |s|
  {
    if |s| == 0 then 0 else (if s[0] in chars then 1 else 0) + CountIn(s[1..], chars)
  }

  lemma {:induction false} SubstAppend(x: string, y: string, pat: char, out: string)
    ensures Subst(x + y, pat, out) == Subst(x, pat, out) + Subst(y, pat, out)
    decreases |x|
  {
    if |x| > 0 {
      assert (x + y)[1..] == x[1..] + y;
      SubstAppend(x[1..], y, pat, out);
    } else {
      assert x + y == y;
    }
  }

  /** The two passes of lines 123-124 together are the reference T-SQL body. */
  lemma {:induction false} TSqlPasses(s: string)
    ensures Subst(Subst(s, '\'', "''"), '"', "''") == TSqlBody(s)
    decreases |s|
  {
    if |s| > 0 {
      var head := if s[0] == '\'' then "''" else [s[0]];
      SubstAppend(head, Subst(s[1..], '\'', "''"), '"', "''");
      if s[0] == '\'' {
        assert Subst(head, '"', "''") == "''";
      } else {
        assert Subst(head, '"', "''") == if s[0] == '"' then "''" else [s[0]];
      }
      TSqlPasses(s[1..]);
    }
  }

  /** The single-pass substitution of line 104 is the reference MySQL body. */
  lemma {:induction false} MySqlPass(s: string)
    ensures Subst(s, '\'', "\\'") == MySqlBody(s)
    decreases |s|
  {
    if |s| > 0 {
      MySqlPass(s[1..]);
    }
  }

  /** my2tsql.rb:117-125: a T-SQL literal is the reference body of the
      value's `to_s` in double quotes. */
  lemma TSqlLiteralShape(v: Option<string>)
    ensures Literal(TSql, v) == "\"" + TSqlBody(ToS(v)) + "\""
  {
    var c := ToS(v);
    assert SelfContained("''");
    assert Expand("''", "", "", "") == "''";
    GsubIsSubst(c, '\'', "''");
    GsubIsSubst(Gsub(c, '\'', false, "''"), '"', "''");
    TSqlPasses(c);
  }

  /** db-remapper.rb:101-105: the replacement string `\\'` inserts a
      backslash and a quote, so a MySQL literal is the reference body of
      the value's `to_s` in single quotes. */
  lemma MySqlLiteralShape(v: Option<string>)
    ensures Literal(MySql, v) == "'" + MySqlBody(ToS(v)) + "'"
  {
    var c := ToS(v);
    assert SelfContained("\\\\'");
    assert Expand("\\\\'", "", "", "") == "\\'";
    GsubIsSubst(c, '\'', "\\\\'");
    MySqlPass(c);
  }

  /** The T-SQL body holds no double quote, and it is one character longer
      than the value per quote character of either kind. */
  lemma {:induction false} TSqlBodyFacts(s: string)
    ensures '"' !in TSqlBody(s)
    ensures |TSqlBody(s)| == |s| + CountIn(s, {'\'', '"'})
    decreases |s|
  {
    if |s| > 0 {
      TSqlBodyFacts(s[1..]);
    }
  }

  /** Every `'` of a MySQL body is preceded by a backslash, and the body is
      one character longer than the value per single quote. */
  lemma {:induction false} MySqlBodyFacts(s: string)
    ensures forall i :: 0 <= i < |MySqlBody(s)| && MySqlBody(s)[i] == '\'' ==>
      0 < i && MySqlBody(s)[i - 1] == '\\'
    ensures |MySqlBody(s)| == |s| + CountIn(s, {'\''})
    decreases |s|
  {
    if |s| > 0 {
      MySqlBodyFacts(s[1..]);
      var head := if s[0] == '\'' then "\\'" else [s[0]];
      var b := MySqlBody(s);
      assert b == head + MySqlBody(s[1..]);
      forall i | 0 <= i < |b| && b[i] == '\'' ensures 0 < i && b[i - 1] == '\\' {
        if i >= |head| {
          assert b[i] == MySqlBody(s[1..])[i - |head|];
          if i - |head| > 0 {
            assert b[i - 1] == MySqlBody(s[1..])[i - |head| - 1];
          }
        }
      }
    }
  }

  /** `nil` is written exactly like the empty string. */
  lemma NilAsEmpty(d: Dialect)
    ensures Literal(d, None) == Literal(d, Some(""))
    ensures Literal(d, None) == if d.TSql? then "\"\"" else "''"
  {
    if d.TSql? {
      TSqlLiteralShape(None);
    } else {
      MySqlLiteralShape(None);
    }
  }

  /** A character missing from a string is missing from its tail. */
  lemma NotInTail(s: string, c: char)
    requires |s| > 0 && c !in s
    ensures c !in s[1..]
  {
  }

  /** The T-SQL body of a concatenation is the concatenation of the bodies. */
  lemma {:induction false} TSqlBodyAppend(x: string, y: string)
    ensures TSqlBody(x + y) == TSqlBody(x) + TSqlBody(y)
    decreases |x|
  {
    if |x| > 0 {
      assert (x + y)[1..] == x[1..] + y;
      TSqlBodyAppend(x[1..], y);
    } else {
      assert x + y == y;
    }
  }

  /** ... and so is the MySQL body. */
  lemma {:induction false} MySqlBodyAppend(x: string, y: string)
    ensures MySqlBody(x + y) == MySqlBody(x) + MySqlBody(y)
    decreases |x|
  {
    if |x| > 0 {
      assert (x + y)[1..] == x[1..] + y;
      MySqlBodyAppend(x[1..], y);
    } else {
      assert x + y == y;
    }
  }

  /** A value without quotes of either kind is its own T-SQL body. */
  lemma {:induction false} TSqlBodyPlain(v: string)
    requires '\'' !in v && '"' !in v
    ensures TSqlBody(v) == v
    decreases |v|
  {
    if |v| > 0 {
      assert v[0] in v;
      NotInTail(v, '\'');
      NotInTail(v, '"');
      TSqlBodyPlain(v[1..]);
      assert v == [v[0]] + v[1..];
    }
  }

  /** A value without a single quote is its own MySQL body. */
  lemma {:induction false} MySqlBodyPlain(v: string)
    requires '\'' !in v
    ensures MySqlBody(v) == v
    decreases |v|
  {
    if |v| > 0 {
      assert v[0] in v;
      NotInTail(v, '\'');
      MySqlBodyPlain(v[1..]);
      assert v == [v[0]] + v[1..];
    }
  }

  /** An apostrophe, as in `it's`, is doubled for SQL Server ... */
  lemma ApostropheTSql(x: string, y: string)
    requires '\'' !in x && '"' !in x && '\'' !in y && '"' !in y
    ensures Literal(TSql, Some(x + "'" + y)) == "\"" + x + "''" + y + "\""
  {
    var q := "''";
    TSqlLiteralShape(Some(x + "'" + y));
    TSqlBodyAppend(x + "'", y);
    TSqlBodyAppend(x, "'");
    TSqlBodyPlain(x);
    TSqlBodyPlain(y);
    assert TSqlBody("'") == q;
    assert TSqlBody(x + "'" + y) == x + q + y;
    Assoc("\"", x + q, y);
    Assoc("\"", x, q);
  }

  /** ... and escaped with a backslash for MySQL. */
  lemma ApostropheMySql(x: string, y: string)
    requires '\'' !in x && '\'' !in y
    ensures Literal(MySql, Some(x + "'" + y)) == "'" + x + "\\'" + y + "'"
  {
    var q := "\\'";
    MySqlLiteralShape(Some(x + "'" + y));
    MySqlBodyAppend(x + "'", y);
    MySqlBodyAppend(x, "'");
    MySqlBodyPlain(x);
    MySqlBodyPlain(y);
    assert MySqlBody("'") == q;
    assert MySqlBody(x + "'" + y) == x + q + y;
    Assoc("'", x + q, y);
    Assoc("'", x, q);
  }

  /** The T-SQL escaping loses information: a single and a double quote
      give the same literal. */
  lemma TSqlQuotesCollide()
    ensures Literal(TSql, Some("'")) == Literal(TSql, Some("\""))
  {
    TSqlLiteralShape(Some("'"));
    TSqlLiteralShape(Some("\""));
  }

  /** A join of literals starts with the first literal. */
  lemma JoinHead(parts: seq<string>, sep: string)
    requires |parts| > 0 && |parts[0]| > 0
    ensures |Join(parts, sep)| > 0 && Join(parts, sep)[0] == parts[0][0]
  {
  }

  /** A MySQL body of a backslash-free value reads back as that value. */
  lemma {:induction false} MySqlBodyReadsBack(s: string, rest: string)
    requires '\\' !in s
    requires |rest| == 0 || rest[0] != '\''
    ensures ReadQuoted(MySqlBody(s) + "'" + rest, '\'', true) == Some((s, rest))
    decreases |s|
  {
    if |s| == 0 {
      var t := MySqlBody(s) + "'" + rest;
      assert t == "'" + rest;
      assert t[1..] == rest;
    } else {
      NotInTail(s, '\\');
      assert s[0] != '\\' by { assert s[0] in s; }
      MySqlBodyReadsBack(s[1..], rest);
      ReadsBackOneMore(s, rest);
    }
  }

  /** The inductive step of MySqlBodyReadsBack: one more character in front. */
  lemma ReadsBackOneMore(s: string, rest: string)
    requires |s| > 0 && s[0] != '\\'
    requires ReadQuoted(MySqlBody(s[1..]) + "'" + rest, '\'', true) == Some((s[1..], rest))
    ensures ReadQuoted(MySqlBody(s) + "'" + rest, '\'', true) == Some((s, rest))
  {
    var t := MySqlBody(s) + "'" + rest;
    var u := MySqlBody(s[1..]) + "'" + rest;
    if s[0] == '\'' {
      assert t == "\\'" + u;
      assert t[2..] == u;
      assert ReadQuoted(t, '\'', true) == Prefixed(MySqlEscape('\''), ReadQuoted(u, '\'', true));
    } else {
      assert t == [s[0]] + u;
      assert t[1..] == u;
      assert ReadQuoted(t, '\'', true) == Prefixed([s[0]], ReadQuoted(u, '\'', true));
    }
    assert [s[0]] + s[1..] == s;
  }

  /** db-remapper.rb:100-109: when no value holds a backslash, MySQL reads
      the VALUES list back as exactly the row's values (`nil` as ""), one per
      column, in order. */
  lemma MySqlValuesReadBack(row: Row)
    requires forall k :: 0 <= k < |row| ==> '\\' !in ToS(row[k])
    ensures ReadValues(ValuesText(MySql, Literals(MySql, row)), '\'', true)
      == Some(seq(|row|, k requires 0 <= k < |row| => ToS(row[k])))
  {
    var lits := Literals(MySql, row);
    GsubBackslashIsIdentity(Join(lits, ","));
    assert ValuesText(MySql, lits) == Join(lits, ",");
    if |row| > 0 {
      var bodies := seq(|row|, k requires 0 <= k < |row| => MySqlBody(ToS(row[k])));
      var values := seq(|row|, k requires 0 <= k < |row| => ToS(row[k]));
      forall k | 0 <= k < |lits|
        ensures lits[k] == ['\''] + bodies[k] + ['\'']
        ensures ReadQuoted(bodies[k] + ['\''] + After(lits, k), '\'', true) == Some((values[k], After(lits, k)))
      {
        MySqlLiteralShape(row[k]);
        MySqlBodyReadsBack(ToS(row[k]), After(lits, k));
      }
      ReadJoined(lits, bodies, values, '\'', true);
      assert Join(lits, ",")[0] == '\'' by { JoinHead(lits, ","); }
    } else {
      assert lits == [] && Join(lits, ",") == "";
      assert ReadValues("", '\'', true) == Some([]);
      assert seq(|row|, k requires 0 <= k < |row| => ToS(row[k])) == [];
    }
  }

  /** my2tsql.rb:117-128: the VALUES list splits into exactly one
      double-quoted literal per value, in order, and SQL Server (with
      QUOTED_IDENTIFIER OFF) reads literal `k` as the reference body of
      value `k`, so a value's quotes arrive as pairs of single quotes. */
  lemma TSqlValuesReadBack(row: Row)
    ensures ReadValues(ValuesText(TSql, Literals(TSql, row)), '"', false)
      == Some(seq(|row|, k requires 0 <= k < |row| => TSqlBody(ToS(row[k]))))
  {
    var lits := Literals(TSql, row);
    if |row| > 0 {
      var bodies := seq(|row|, k requires 0 <= k < |row| => TSqlBody(ToS(row[k])));
      forall k | 0 <= k < |lits|
        ensures lits[k] == ['"'] + bodies[k] + ['"']
        ensures ReadQuoted(bodies[k] + ['"'] + After(lits, k), '"', false) == Some((bodies[k], After(lits, k)))
      {
        TSqlLiteralShape(row[k]);
        TSqlBodyFacts(ToS(row[k]));
        ReadPlain(bodies[k], '"', false, After(lits, k));
      }
      ReadJoined(lits, bodies, bodies, '"', false);
      assert Join(lits, ",")[0] == '"' by { JoinHead(lits, ","); }
    } else {
      assert lits == [] && Join(lits, ",") == "";
      assert ReadValues("", '"', false) == Some([]);
      assert seq(|row|, k requires 0 <= k < |row| => TSqlBody(ToS(row[k]))) == [];
    }
  }

  /** db-remapper.rb:109 does not double backslashes, so a value that is a
      lone backslash escapes its own closing quote and the VALUES list can
      no longer be read. */
  lemma TrailingBackslashBreaksValues()
    ensures ReadValues(ValuesText(MySql, Literals(MySql, [Some("\\")])), '\'', true) == None
  {
    var lits := Literals(MySql, [Some("\\")]);
    MySqlLiteralShape(Some("\\"));
    assert MySqlBody("\\") == "\\" by {
      assert "\\"[1..] == "";
    }
    assert "'" + "\\" + "'" == "'\\'";
    assert |lits| == 1 && lits[0] == Literal(MySql, Some("\\"));
    assert lits == ["'\\'"];
    GsubBackslashIsIdentity(Join(lits, ","));
    assert ValuesText(MySql, lits) == "'\\'";
    assert ReadQuoted("\\'", '\'', true) == None;
  }

  /** For the same reason a backslash in a value is read as the start of an
      escape sequence: the value `\n` (backslash, n) arrives as a newline. */
  lemma BackslashSequenceAltersValue()
    ensures ReadValues(ValuesText(MySql, Literals(MySql, [Some("\\n")])), '\'', true) == Some(["\n"])
  {
    var lits := Literals(MySql, [Some("\\n")]);
    MySqlLiteralShape(Some("\\n"));
    assert MySqlBody("\\n") == "\\n" by {
      assert "\\n"[1..] == "n";
      assert "n"[1..] == "";
      assert MySqlBody("n") == "n";
    }
    assert "'" + "\\n" + "'" == "'\\n'";
    assert |lits| == 1 && lits[0] == Literal(MySql, Some("\\n"));
    assert lits == ["'\\n'"];
    GsubBackslashIsIdentity(Join(lits, ","));
    assert ValuesText(MySql, lits) == "'\\n'";
    assert ReadQuoted("'", '\'', true) == Some(("", ""));
    assert "\\n'"[2..] == "'";
    assert MySqlEscape('n') == "\n";
    assert "\n" + "" == "\n";
    assert ReadQuoted("\\n'", '\'', true) == Some(("\n", ""));
  }
}
