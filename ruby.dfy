/** The pieces of Ruby's core library that the two scripts depend on for the
    text they build: `to_s`, `Array#join`, `String#gsub!` with a one-character
    pattern (including the rules Ruby applies to backslashes in the
    replacement string) and the `/^id$/` match. */
module Ruby {
  import opened Wrappers

  /** `v.to_s` for a value taken from a result row; `nil.to_s` is "". */
  function ToS(v: Option<string>): string {
    match v
    case None => ""
    case Some(s) => s
  }

  /** `Array#join(sep)`. */
  function Join(parts: seq<string>, sep: string): string
    decreases |parts|
  {
    if |parts| == 0 then ""
    else if |parts| == 1 then parts[0]
    else parts[0] + sep + Join(parts[1..], sep)
  }

  /** What a backslash followed by `c` in a replacement string stands for.
      The patterns used here have no groups, so `\1`..`\9` and `\+` give
      nothing; an unknown sequence is kept as written. */
  function BackslashSequence(c: char, matched: string, pre: string, post: string): string {
    if c == '0' || c == '&' then matched
    else if '1' <= c <= '9' || c == '+' then ""
    else if c == '`' then pre
    else if c == '\'' then post
    else if c == '\\' then "\\"
    else ['\\', c]
  }

  /** The text one match is replaced by: the replacement string with its
      backslash sequences interpreted; a trailing lone backslash is literal. */
  function Expand(rep: string, matched: string, pre: string, post: string): string
    decreases |rep|
  {
    if |rep| == 0 then ""
    else if rep[0] != '\\' || |rep| == 1 then [rep[0]] + Expand(rep[1..], matched, pre, post)
    else BackslashSequence(rep[1], matched, pre, post) + Expand(rep[2..], matched, pre, post)
  }

  /** Whether the pattern `/p/` (or `/p$/` when `atLineEnd`) matches `s` at
      index `i`. Ruby's `$` holds at the end of the string and before every
      newline. */
  predicate MatchesAt(s: string, i: nat, pat: char, atLineEnd: bool)
    requires i < |s|
  {
    s[i] == pat && (!atLineEnd || i + 1 == |s| || s[i + 1] == '\n')
  }

  /** The part of `s.gsub(pat, rep)` produced from index `i` onwards. */
  function GsubFrom(s: string, i: nat, pat: char, atLineEnd: bool, rep: string): string
    requires i <= |s|
    decreases |s| - i
  {
    if i == |s| then ""
    else
      (if MatchesAt(s, i, pat, atLineEnd) then Expand(rep, [pat], s[..i], s[i + 1..]) else [s[i]])
      + GsubFrom(s, i + 1, pat, atLineEnd, rep)
  }

  /** `s.gsub(/pat/, rep)`, or `s.gsub(/pat$/, rep)` when `atLineEnd`; the
      in-place `gsub!` leaves the receiver holding this value. */
  function Gsub(s: string, pat: char, atLineEnd: bool, rep: string): string {
    GsubFrom(s, 0, pat, atLineEnd, rep)
  }

  /** The line of `s` that starts at index `i` is exactly `id`. */
  predicate IdLineAt(s: string, i: int) {
    0 <= i && i + 2 <= |s| && s[i] == 'i' && s[i + 1] == 'd'
    && (i == 0 || s[i - 1] == '\n') && (i + 2 == |s| || s[i + 2] == '\n')
  }

  /** `/^id$/.match(s)`: some line of `s` is exactly `id`. */
  predicate IdLine(s: string) {
    exists i :: 0 <= i <= |s| && IdLineAt(s, i)
  }

  /** Reference definition: every occurrence of `pat` replaced by `out`. */
  function Subst(s: string, pat: char, out: string): string
    decreases |s|
  {
    if |s| == 0 then ""
    else (if s[0] == pat then out else [s[0]]) + Subst(s[1..], pat, out)
  }

  /** Holds of a replacement string that refers neither to the match nor to
      the text around it. */
  predicate SelfContained(rep: string)
    decreases |rep|
  {
    if |rep| < 2 then true
    else if rep[0] != '\\' then SelfContained(rep[1..])
    else rep[1] !in "0&`'" && SelfContained(rep[2..])
  }

  /** A replacement string without backslashes is inserted as written. */
  lemma {:induction false} ExpandPlain(rep: string, matched: string, pre: string, post: string)
    requires '\\' !in rep
    ensures Expand(rep, matched, pre, post) == rep
    decreases |rep|
  {
    if |rep| > 0 {
      assert rep == [rep[0]] + rep[1..];
      ExpandPlain(rep[1..], matched, pre, post);
    }
  }

  /** A self-contained replacement expands to the same text at every match. */
  lemma {:induction false} ExpandSelfContained(rep: string, matched: string, pre: string, post: string)
    requires SelfContained(rep)
    ensures Expand(rep, matched, pre, post) == Expand(rep, "", "", "")
    decreases |rep|
  {
    if |rep| >= 2 {
      if rep[0] != '\\' {
        ExpandSelfContained(rep[1..], matched, pre, post);
      } else {
        ExpandSelfContained(rep[2..], matched, pre, post);
      }
    } else if |rep| == 1 {
      ExpandSelfContained(rep[1..], matched, pre, post);
    }
  }

  /** An unanchored gsub with a self-contained replacement is the plain
      character-by-character substitution. */
  lemma {:induction false} GsubFromIsSubst(s: string, i: nat, pat: char, rep: string)
    requires i <= |s| && SelfContained(rep)
    ensures GsubFrom(s, i, pat, false, rep) == Subst(s[i..], pat, Expand(rep, "", "", ""))
    decreases |s| - i
  {
    if i < |s| {
      ExpandSelfContained(rep, [pat], s[..i], s[i + 1..]);
      GsubFromIsSubst(s, i + 1, pat, rep);
      assert s[i..][1..] == s[i + 1..];
    }
  }

  lemma GsubIsSubst(s: string, pat: char, rep: string)
    requires SelfContained(rep)
    ensures Gsub(s, pat, false, rep) == Subst(s, pat, Expand(rep, "", "", ""))
  {
    GsubFromIsSubst(s, 0, pat, rep);
  }

  /** Replacing a character by itself changes nothing. */
  lemma {:induction false} SubstSelf(s: string, pat: char)
    ensures Subst(s, pat, [pat]) == s
    decreases |s|
  {
    if |s| > 0 {
      SubstSelf(s[1..], pat);
      assert s == [s[0]] + s[1..];
    }
  }

  /** `gsub!(/\\/, "\\\\")`: the Ruby literal "\\\\" is two backslashes,
      which the replacement rules read as one, so every backslash is
      replaced by a single backslash and the string is unchanged. */
  lemma GsubBackslashIsIdentity(s: string)
    ensures Gsub(s, '\\', false, "\\\\") == s
  {
    assert Expand("\\\\", "", "", "") == "\\";
    GsubIsSubst(s, '\\', "\\\\");
    SubstSelf(s, '\\');
  }

  /** With no match at or after `i`, the rest of the string is copied. */
  lemma {:induction false} GsubFromNoMatch(s: string, i: nat, pat: char, atLineEnd: bool, rep: string)
    requires i <= |s|
    requires forall j :: i <= j < |s| ==> !MatchesAt(s, j, pat, atLineEnd)
    ensures GsubFrom(s, i, pat, atLineEnd, rep) == s[i..]
    decreases |s| - i
  {
    if i < |s| {
      GsubFromNoMatch(s, i + 1, pat, atLineEnd, rep);
      assert s[i..] == [s[i]] + s[i + 1..];
    }
  }

  /** `gsub!(/,$/, rep)` on a one-line string that ends in a comma replaces
      that final comma only. */
  lemma GsubFinalComma(s: string, rep: string)
    requires |s| > 0 && s[|s| - 1] == ',' && '\n' !in s
    ensures Gsub(s, ',', true, rep) == s[..|s| - 1] + Expand(rep, ",", s[..|s| - 1], "")
  {
    var n := |s| - 1;
    forall j | 0 <= j < n ensures !MatchesAt(s, j, ',', true) {
      assert s[j + 1] in s;
    }
    GsubFromNoMatch(s, n + 1, ',', true, rep);
    GsubPrefixNoMatch(s, 0, n, ',', true, rep);
  }

  /** Unmatched characters before index `n` are copied unchanged. */
  lemma {:induction false} GsubPrefixNoMatch(s: string, i: nat, n: nat, pat: char, atLineEnd: bool, rep: string)
    requires i <= n <= |s|
    requires forall j :: i <= j < n ==> !MatchesAt(s, j, pat, atLineEnd)
    ensures GsubFrom(s, i, pat, atLineEnd, rep) == s[i..n] + GsubFrom(s, n, pat, atLineEnd, rep)
    decreases n - i
  {
    if i < n {
      GsubPrefixNoMatch(s, i + 1, n, pat, atLineEnd, rep);
      assert s[i..n] == [s[i]] + s[i + 1..n];
      Assoc([s[i]], s[i + 1..n], GsubFrom(s, n, pat, atLineEnd, rep));
    }
  }

  /** The `/^id$/` test agrees with `name == "id"` on one-line names. */
  lemma IdLineOneLine(s: string)
    requires '\n' !in s
    ensures IdLine(s) <==> s == "id"
  {
    if IdLine(s) {
      var i :| 0 <= i <= |s| && IdLineAt(s, i);
      assert s == "id";
    }
    if s == "id" {
      assert IdLineAt(s, 0);
    }
  }
}
