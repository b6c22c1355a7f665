/** Placeholder tokens and the per-run substitution loop of `gerar_docs`
    (main.py:97-102): for each column, in column order, the guarded
    `str.replace` of the column's triple-brace token by the row's value. */
module Placeholder {
  import opened Text

  /** The token a template uses to refer to column `column`. */
  function Token(column: string): string
  {
    "{{{" + column + "}}}"
  }

  /** A name with no brace in it. */
  ghost predicate BraceFree(s: string)
  {
    forall i :: 0 <= i < |s| ==> s[i] != '{' && s[i] != '}'
  }

  /** One pass of the column loop (main.py:100-102): if the column's token is
      in the text, every occurrence of it is replaced by the value. */
  function SubstituteColumn(text: string, column: string, value: string): string
  {
    var token := Token(column);
    if Contains(text, token) then Replace(text, token, value) else text
  }

  /** The whole column loop (main.py:99-102): each column, in order, is
      substituted into the text produced by the columns before it.
      `row[k]` is the row's value for `columns[k]`. */
  function Substitute(text: string, columns: seq<string>, row: seq<string>): string
    requires |row| == |columns|
    decreases |columns|
  {
    if columns == [] then text
    else Substitute(SubstituteColumn(text, columns[0], row[0]), columns[1..], row[1..])
  }

  /** The loop as the source runs it: the run's text is reassigned once per column. */
  method SubstituteText(text: string, columns: seq<string>, row: seq<string>) returns (result: string)
    requires |row| == |columns|
    ensures result == Substitute(text, columns, row)
  {
    result := text;
    for k := 0 to |columns|
      invariant Substitute(result, columns[k..], row[k..]) == Substitute(text, columns, row)
    {
      assert columns[k..][1..] == columns[k + 1..];
      assert row[k..][1..] == row[k + 1..];
      var token := Token(columns[k]);
      if Contains(result, token) {
        result := Replace(result, token, row[k]);
      }
    }
    assert columns[|columns|..] == [];
  }

  /** The containment guard never matters: one column's pass is a plain
      `str.replace` of its token. */
  lemma SubstituteColumnIsReplace(text: string, column: string, value: string)
    ensures SubstituteColumn(text, column, value) == Replace(text, Token(column), value)
  {
    if !Contains(text, Token(column)) {
      ReplaceAbsent(text, Token(column), value);
    }
  }

  /** One column's pass cuts the text at the leftmost non-overlapping
      occurrences of the token and puts the value between the pieces; no
      piece but the last is followed by an earlier occurrence and the last
      holds none, so every occurrence found by the left-to-right scan is
      replaced. */
  lemma SubstituteColumnReplacesEveryOccurrence(text: string, column: string, value: string)
    ensures IsLeftmostSplit(Split(text, Token(column)), text, Token(column))
    ensures SubstituteColumn(text, column, value) == Join(Split(text, Token(column)), value)
  {
    SplitIsLeftmost(text, Token(column));
    SubstituteColumnIsReplace(text, column, value);
    ReplaceIsJoinOfSplit(text, Token(column), value);
  }

  /** Text in which no column's token occurs comes out unchanged. */
  lemma {:induction false} SubstituteWithoutTokens(text: string, columns: seq<string>, row: seq<string>)
    requires |row| == |columns|
    requires forall k :: 0 <= k < |columns| ==> !Occurs(text, Token(columns[k]))
    ensures Substitute(text, columns, row) == text
    decreases |columns|
  {
    if columns != [] {
      assert !Occurs(text, Token(columns[0]));
      forall k | 0 <= k < |columns| - 1
        ensures !Occurs(text, Token(columns[1..][k]))
      {
        assert columns[1..][k] == columns[k + 1];
      }
      SubstituteWithoutTokens(text, columns[1..], row[1..]);
    }
  }

  /** Every token starts with the opening delimiter. */
  lemma TokenOccursOpen(text: string, column: string)
    requires Occurs(text, Token(column))
    ensures Occurs(text, "{{{")
  {
    var i :| MatchAt(text, Token(column), i);
    assert text[i..i + 3] == text[i..i + |Token(column)|][..3];
    assert MatchAt(text, "{{{", i);
  }

  /** Text with no `{{{` in it is copied unchanged, whatever the columns. */
  lemma {:induction false} SubstituteWithoutOpenDelimiter(text: string, columns: seq<string>, row: seq<string>)
    requires |row| == |columns|
    requires !Occurs(text, "{{{")
    ensures Substitute(text, columns, row) == text
  {
    forall k | 0 <= k < |columns|
      ensures !Occurs(text, Token(columns[k]))
    {
      if Occurs(text, Token(columns[k])) {
        TokenOccursOpen(text, columns[k]);
      }
    }
    SubstituteWithoutTokens(text, columns, row);
  }

  /** Where the braces of a token lie, for a brace-free name. */
  lemma TokenChars(c: string, j: int)
    requires BraceFree(c) && 0 <= j < |c| + 6
    ensures |Token(c)| == |c| + 6
    ensures Token(c)[j] == '{' <==> j < 3
    ensures Token(c)[j] == '}' <==> j >= |c| + 3
  {
    if 3 <= j < |c| + 3 {
      assert Token(c)[j] == c[j - 3];
    }
  }

  /** With brace-free names, column `c`'s token cannot occur at a position
      that overlaps an occurrence of a different token `{{{d}}}`. */
  lemma TokenIsolated(x: string, d: string, y: string, c: string, i: int)
    requires BraceFree(c) && BraceFree(d) && c != d
    requires i + |Token(c)| > |x| && |x| + |Token(d)| > i
    ensures !MatchAt(x + Token(d) + y, Token(c), i)
  {
    var s := x + Token(d) + y;
    var tc, td := Token(c), Token(d);
    TokenChars(c, 0);
    TokenChars(d, 0);
    if 0 <= i && i + |tc| <= |s| {
      var q := i - |x|;
      var w := s[i..i + |tc|];
      if q > 0 {
        var j := if q < 3 then 3 - q else 0;
        assert w[j] == s[|x| + (q + j)] == td[q + j];
        TokenChars(c, j);
        TokenChars(d, q + j);
        assert w[j] != tc[j];
      } else if q < 0 {
        var k := if -q >= 3 then 0 else 2;
        assert w[k - q] == s[|x| + k] == td[k];
        TokenChars(c, k - q);
        TokenChars(d, k);
        assert w[k - q] != tc[k - q];
      } else if |c| == |d| {
        assert w == td;
        assert tc[3..|c| + 3] == c;
        assert td[3..|d| + 3] == d;
        assert w != tc;
      } else if |c| < |d| {
        var j := |c| + 3;
        assert w[j] == s[|x| + j] == td[j];
        TokenChars(c, j);
        TokenChars(d, j);
        assert w[j] != tc[j];
      } else {
        var j := |d| + 3;
        assert w[j] == s[|x| + j] == td[j];
        TokenChars(c, j);
        TokenChars(d, j);
        assert w[j] != tc[j];
      }
    }
  }

  /** A token does not occur inside a different token. */
  lemma TokenNotInOther(d: string, c: string)
    requires BraceFree(c) && BraceFree(d) && c != d
    ensures !Occurs(Token(d), Token(c))
  {
    forall i | MatchAt(Token(d), Token(c), i)
      ensures false
    {
      assert [] + Token(d) + [] == Token(d);
      TokenIsolated([], d, [], c, i);
    }
  }

  /** Replacing column `c`'s token leaves a different token `{{{d}}}` in
      place and acts independently on the text around it. */
  lemma ReplaceAroundToken(x: string, d: string, y: string, c: string, v: string)
    requires BraceFree(c) && BraceFree(d) && c != d
    ensures Replace(x + Token(d) + y, Token(c), v)
            == Replace(x, Token(c), v) + Token(d) + Replace(y, Token(c), v)
  {
    var td, tc := Token(d), Token(c);
    assert x + (td + y) == x + td + y;
    forall i | 0 <= i < |x| < i + |tc|
      ensures !MatchAt(x + (td + y), tc, i)
    {
      TokenIsolated(x, d, y, c, i);
    }
    ReplaceConcat(x, td + y, tc, v);
    assert [] + td + y == td + y;
    forall i | 0 <= i < |td| < i + |tc|
      ensures !MatchAt(td + y, tc, i)
    {
      TokenIsolated([], d, y, c, i);
    }
    ReplaceConcat(td, y, tc, v);
    TokenNotInOther(d, c);
    ReplaceAbsent(td, tc, v);
  }

  /** A token whose name is not a column is copied verbatim, and the text on
      either side of it is substituted as if it stood alone (column names and
      the token's name brace-free). */
  lemma {:induction false} SubstituteAroundUnknownToken(x: string, d: string, y: string, columns: seq<string>, row: seq<string>)
    requires |row| == |columns|
    requires BraceFree(d)
    requires forall k :: 0 <= k < |columns| ==> BraceFree(columns[k]) && columns[k] != d
    ensures Substitute(x + Token(d) + y, columns, row)
            == Substitute(x, columns, row) + Token(d) + Substitute(y, columns, row)
    decreases |columns|
  {
    if columns != [] {
      var c, v := columns[0], row[0];
      SubstituteColumnIsReplace(x + Token(d) + y, c, v);
      SubstituteColumnIsReplace(x, c, v);
      SubstituteColumnIsReplace(y, c, v);
      ReplaceAroundToken(x, d, y, c, v);
      forall k | 0 <= k < |columns| - 1
        ensures BraceFree(columns[1..][k]) && columns[1..][k] != d
      {
        assert columns[1..][k] == columns[k + 1];
      }
      SubstituteAroundUnknownToken(SubstituteColumn(x, c, v), d, SubstituteColumn(y, c, v), columns[1..], row[1..]);
    }
  }

  /** Corollary: an occurrence of a token that names no column survives the
      whole substitution. */
  lemma UnknownTokenSurvives(text: string, d: string, columns: seq<string>, row: seq<string>)
    requires |row| == |columns|
    requires BraceFree(d)
    requires forall k :: 0 <= k < |columns| ==> BraceFree(columns[k]) && columns[k] != d
    requires Occurs(text, Token(d))
    ensures Occurs(Substitute(text, columns, row), Token(d))
  {
    var i :| MatchAt(text, Token(d), i);
    var x, y := text[..i], text[i + |Token(d)|..];
    assert text == x + Token(d) + y;
    SubstituteAroundUnknownToken(x, d, y, columns, row);
    var sx := Substitute(x, columns, row);
    var r := Substitute(text, columns, row);
    assert r[|sx|..|sx| + |Token(d)|] == Token(d);
    assert MatchAt(r, Token(d), |sx|);
  }

  /** A token matched at `i` puts an opening brace at `s[i]`. */
  lemma MatchOpensWithBrace(s: string, c: string, i: int)
    requires MatchAt(s, Token(c), i)
    ensures s[i] == '{'
  {
    assert s[i..i + |Token(c)|][0] == s[i];
  }

  /** A brace-free text holds no token. */
  lemma BraceFreeHasNoToken(s: string, c: string)
    requires BraceFree(s)
    ensures !Occurs(s, Token(c))
  {
    forall i | MatchAt(s, Token(c), i)
      ensures false
    {
      MatchOpensWithBrace(s, c, i);
    }
  }

  /** One token between brace-free text is replaced by the value and the
      surrounding text is kept. */
  lemma ReplaceSoleToken(x: string, c: string, y: string, v: string)
    requires BraceFree(x) && BraceFree(y)
    ensures Replace(x + Token(c) + y, Token(c), v) == x + v + y
  {
    var tc := Token(c);
    assert x + (tc + y) == x + tc + y;
    forall i | 0 <= i < |x| < i + |tc|
      ensures !MatchAt(x + (tc + y), tc, i)
    {
      assert (x + (tc + y))[i] == x[i];
      if MatchAt(x + (tc + y), tc, i) {
        MatchOpensWithBrace(x + (tc + y), c, i);
      }
    }
    ReplaceConcat(x, tc + y, tc, v);
    BraceFreeHasNoToken(x, c);
    ReplaceAbsent(x, tc, v);
    BraceFreeHasNoToken(y, c);
    ReplaceAbsent(y, tc, v);
    assert (tc + y)[..|tc|] == tc;
    assert (tc + y)[|tc|..] == y;
  }

  /** Brace-free pieces make a brace-free concatenation. */
  lemma BraceFreeConcat(x: string, v: string, y: string)
    requires BraceFree(x) && BraceFree(v) && BraceFree(y)
    ensures BraceFree(x + v + y)
  {
    forall i | 0 <= i < |x + v + y|
      ensures (x + v + y)[i] != '{' && (x + v + y)[i] != '}'
    {
      if i < |x| {
        assert (x + v + y)[i] == x[i];
      } else if i < |x| + |v| {
        assert (x + v + y)[i] == v[i - |x|];
      } else {
        assert (x + v + y)[i] == y[i - |x| - |v|];
      }
    }
  }

  /** A known column's token, standing between brace-free text, comes out of
      the whole loop as that column's value: the columns before it leave it
      alone, its own pass replaces it, and the columns after it find no token
      left. Needs brace-free column names, no other column of the same name,
      and a brace-free value. */
  lemma {:induction false} KnownTokenThroughLoop(x: string, y: string, columns: seq<string>, row: seq<string>, k: int)
    requires |row| == |columns| && 0 <= k < |columns|
    requires BraceFree(x) && BraceFree(y) && BraceFree(row[k])
    requires forall j :: 0 <= j < |columns| ==> BraceFree(columns[j])
    requires forall j :: 0 <= j < |columns| && j != k ==> columns[j] != columns[k]
    ensures Substitute(x + Token(columns[k]) + y, columns, row) == x + row[k] + y
    decreases |columns|
  {
    var c, v := columns[0], row[0];
    SubstituteColumnIsReplace(x + Token(columns[k]) + y, c, v);
    if k == 0 {
      ReplaceSoleToken(x, c, y, v);
      BraceFreeConcat(x, v, y);
      forall j | 0 <= j < |columns[1..]|
        ensures !Occurs(x + v + y, Token(columns[1..][j]))
      {
        BraceFreeHasNoToken(x + v + y, columns[1..][j]);
      }
      SubstituteWithoutTokens(x + v + y, columns[1..], row[1..]);
    } else {
      ReplaceAroundToken(x, columns[k], y, c, v);
      BraceFreeHasNoToken(x, c);
      ReplaceAbsent(x, Token(c), v);
      BraceFreeHasNoToken(y, c);
      ReplaceAbsent(y, Token(c), v);
      assert columns[1..][k - 1] == columns[k] && row[1..][k - 1] == row[k];
      forall j | 0 <= j < |columns[1..]|
        ensures BraceFree(columns[1..][j])
      {
        assert columns[1..][j] == columns[j + 1];
      }
      forall j | 0 <= j < |columns[1..]| && j != k - 1
        ensures columns[1..][j] != columns[1..][k - 1]
      {
        assert columns[1..][j] == columns[j + 1];
      }
      KnownTokenThroughLoop(x, y, columns[1..], row[1..], k - 1);
    }
  }

  /** Without the surrounding text being brace-free a known token can
      survive the loop, even though no name or value has a brace: the pass
      for `ab` turns `{{{{{{ab}}}b}}}` into `{{{ab}}}`, which is `ab`'s own
      token again. */
  lemma TokenRecreatedByReplace()
    ensures Substitute("{{{{{{ab}}}b}}}", ["ab"], ["a"]) == Token("ab")
  {
    var t := Token("ab");
    var s := "{{{{{{ab}}}b}}}";
    assert s == "{{{" + (t + "b}}}");
    forall i | 0 <= i < 3 < i + |t|
      ensures !MatchAt("{{{" + (t + "b}}}"), t, i)
    {
      assert ("{{{" + (t + "b}}}"))[i + 3] == '{' && t[3] == 'a';
    }
    ReplaceConcat("{{{", t + "b}}}", t, "a");
    ReplaceAbsent("{{{", t, "a");
    assert (t + "b}}}")[..|t|] == t;
    assert (t + "b}}}")[|t|..] == "b}}}";
    ReplaceAbsent("b}}}", t, "a");
    SubstituteColumnIsReplace(s, "ab", "a");
    assert ["ab"][1..] == [] && ["a"][1..] == [];
    assert "{{{" + ("a" + "b}}}") == t;
  }

  /** A column name with braces in it can make a token that spans a
      different token: the column `a}}}{{{b` consumes the `{{{b}}}` that
      the text holds, though `b` names no column. */
  lemma BracedColumnSwallowsToken()
    ensures Occurs("{{{a}}}{{{b}}}", Token("b"))
    ensures Substitute("{{{a}}}{{{b}}}", ["a}}}{{{b"], ["X"]) == "X"
    ensures !Occurs(Substitute("{{{a}}}{{{b}}}", ["a}}}{{{b"], ["X"]), Token("b"))
  {
    var s := "{{{a}}}{{{b}}}";
    assert s[7..7 + |Token("b")|] == Token("b");
    assert MatchAt(s, Token("b"), 7);
    assert Token("a}}}{{{b") == s;
    assert MatchAt(s, s, 0);
    assert s[..|s|] == s && s[|s|..] == [];
    SubstituteColumnIsReplace(s, "a}}}{{{b", "X");
    assert ["a}}}{{{b"][1..] == [] && ["X"][1..] == [];
    assert !Occurs("X", Token("b"));
  }

  /** The greeting example: the run `Olá, {{{nome}}}!` with `nome` = `Ana`
      becomes `Olá, Ana!`. */
  lemma GreetingExample()
    ensures Substitute("Olá, {{{nome}}}!", ["nome"], ["Ana"]) == "Olá, Ana!"
  {
    assert "Olá, {{{nome}}}!" == "Olá, " + Token("nome") + "!";
    ReplaceSoleToken("Olá, ", "nome", "!", "Ana");
    SubstituteColumnIsReplace("Olá, {{{nome}}}!", "nome", "Ana");
    assert ["nome"][1..] == [] && ["Ana"][1..] == [];
  }

  /** Columns are substituted in order over the text produced so far: a value
      inserted for an earlier column that is a later column's token is
      itself replaced. */
  lemma SubstitutionCascades(a: string, b: string, value: string)
    ensures Substitute(Token(a), [a, b], [Token(b), value]) == value
  {
    assert MatchAt(Token(a), Token(a), 0);
    assert Token(a)[..|Token(a)|] == Token(a);
    assert Replace(Token(a), Token(a), Token(b)) == Token(b) + Replace([], Token(a), Token(b));
    assert SubstituteColumn(Token(a), a, Token(b)) == Token(b);
    assert MatchAt(Token(b), Token(b), 0);
    assert Token(b)[..|Token(b)|] == Token(b);
    assert Replace(Token(b), Token(b), value) == value + Replace([], Token(b), value);
    assert SubstituteColumn(Token(b), b, value) == value;
    assert [a, b][1..] == [b] && [Token(b), value][1..] == [value];
    assert [b][1..] == [] && [value][1..] == [];
    calc {
      Substitute(Token(a), [a, b], [Token(b), value]);
      Substitute(Token(b), [b], [value]);
      Substitute(value, [], []);
    }
  }
}
