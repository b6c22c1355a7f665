/** A run's text seen as what a template author writes: literal text and
    placeholders, one after the other. For brace-free pieces, names and
    values this describes in one step what the whole column loop of
    `gerar_docs` (main.py:99-102) does to a run with any number of
    placeholders, repeated ones included. */
module RunText {
  import opened Optional
  import opened Text
  import opened Placeholder

  /** A piece of a run: literal text, or the placeholder of a name. */
  datatype Piece = Plain(text: string) | Slot(name: string)

  /** The characters a piece stands for. */
  function PieceText(p: Piece): string
  {
    match p
    case Plain(t) => t
    case Slot(d) => Token(d)
  }

  /** The run's text: its pieces laid end to end. */
  function Flatten(ps: seq<Piece>): string
  {
    if ps == [] then [] else PieceText(ps[0]) + Flatten(ps[1..])
  }

  /** A literal or placeholder name free of braces. */
  ghost predicate PieceWellFormed(p: Piece)
  {
    match p
    case Plain(t) => BraceFree(t)
    case Slot(d) => BraceFree(d)
  }

  /** Every literal and every placeholder name is free of braces. */
  ghost predicate WellFormed(ps: seq<Piece>)
  {
    forall i :: 0 <= i < |ps| ==> PieceWellFormed(ps[i])
  }

  /** The row's value for name `d`: that of the first column called `d`,
      or nothing when no column is. */
  function ValueOf(d: string, columns: seq<string>, row: seq<string>): (r: Option<string>)
    requires |row| == |columns|
    ensures r == None <==> forall j :: 0 <= j < |columns| ==> columns[j] != d
    ensures r != None ==> exists j :: 0 <= j < |columns| && columns[j] == d && row[j] == r.value
                                   && forall i :: 0 <= i < j ==> columns[i] != d
    decreases |columns|
  {
    if columns == [] then None
    else if columns[0] == d then
      Some(row[0])
    else
      var r := ValueOf(d, columns[1..], row[1..]);
      assert forall j :: 0 < j < |columns| ==> columns[j] == columns[1..][j - 1];
      if r == None then r
      else
        var j :| 0 <= j < |columns[1..]| && columns[1..][j] == d && row[1..][j] == r.value
                 && forall i :: 0 <= i < j ==> columns[1..][i] != d;
        assert columns[j + 1] == d && row[j + 1] == r.value;
        r
  }

  /** What a piece becomes once every column has been substituted. */
  function Resolve(p: Piece, columns: seq<string>, row: seq<string>): string
    requires |row| == |columns|
  {
    match p
    case Plain(t) => t
    case Slot(d) =>
      match ValueOf(d, columns, row)
      case Some(v) => v
      case None => Token(d)
  }

  /** The expected output of the loop: every placeholder of a column replaced
      by that column's value, everything else as written. */
  function Filled(ps: seq<Piece>, columns: seq<string>, row: seq<string>): string
    requires |row| == |columns|
  {
    if ps == [] then [] else Resolve(ps[0], columns, row) + Filled(ps[1..], columns, row)
  }

  /** One column's pass on the piece level: its placeholders become the value. */
  function StepPiece(p: Piece, c: string, v: string): Piece
  {
    if p == Slot(c) then Plain(v) else p
  }

  function Step(ps: seq<Piece>, c: string, v: string): seq<Piece>
  {
    seq(|ps|, i requires 0 <= i < |ps| => StepPiece(ps[i], c, v))
  }

  /** A brace-free token cannot match at a position strictly inside itself. */
  lemma SelfNoStraddle(c: string, rest: string, i: int)
    requires BraceFree(c) && 0 < i < |Token(c)|
    ensures !MatchAt(Token(c) + rest, Token(c), i)
  {
    var tc, s := Token(c), Token(c) + rest;
    TokenChars(c, 0);
    if i + |tc| <= |s| {
      if i < |c| + 4 {
        TokenChars(c, 2);
        TokenChars(c, i + 2);
        assert s[i..i + |tc|][2] == s[i + 2] == tc[i + 2];
      } else {
        TokenChars(c, i);
        assert s[i..i + |tc|][0] == s[i] == tc[i];
      }
    }
  }

  /** No occurrence of `Token(c)` straddles the end of a well-formed piece. */
  lemma PieceNoStraddle(p: Piece, rest: string, c: string, i: int)
    requires PieceWellFormed(p) && BraceFree(c)
    requires 0 <= i < |PieceText(p)| < i + |Token(c)|
    ensures !MatchAt(PieceText(p) + rest, Token(c), i)
  {
    var s := PieceText(p) + rest;
    match p
    case Plain(t) =>
      assert s[i] == t[i];
      if MatchAt(s, Token(c), i) {
        MatchOpensWithBrace(s, c, i);
      }
    case Slot(d) =>
      if d == c {
        SelfNoStraddle(c, rest, i);
      } else {
        assert [] + Token(d) + rest == s;
        TokenIsolated([], d, rest, c, i);
      }
  }

  /** One column's replace acts on the pieces one at a time. */
  lemma PieceReplace(p: Piece, c: string, v: string)
    requires PieceWellFormed(p) && BraceFree(c)
    ensures Replace(PieceText(p), Token(c), v) == PieceText(StepPiece(p, c, v))
  {
    match p
    case Plain(t) =>
      BraceFreeHasNoToken(t, c);
      ReplaceAbsent(t, Token(c), v);
    case Slot(d) =>
      if d == c {
        assert [] + Token(c) + [] == Token(c);
        ReplaceSoleToken([], c, [], v);
      } else {
        TokenNotInOther(d, c);
        ReplaceAbsent(Token(d), Token(c), v);
      }
  }

  /** Replacing a column's token in the run replaces it piece by piece. */
  lemma {:induction false} ReplacePieces(ps: seq<Piece>, c: string, v: string)
    requires WellFormed(ps) && BraceFree(c)
    ensures Replace(Flatten(ps), Token(c), v) == Flatten(Step(ps, c, v))
  {
    if ps != [] {
      var tc, x, y := Token(c), PieceText(ps[0]), Flatten(ps[1..]);
      forall i | 0 <= i < |x| < i + |tc|
        ensures !MatchAt(x + y, tc, i)
      {
        PieceNoStraddle(ps[0], y, c, i);
      }
      ReplaceConcat(x, y, tc, v);
      PieceReplace(ps[0], c, v);
      assert WellFormed(ps[1..]) by {
        forall i | 0 <= i < |ps[1..]|
          ensures ps[1..][i] == ps[i + 1]
        {
        }
      }
      ReplacePieces(ps[1..], c, v);
      var st := Step(ps, c, v);
      assert st[0] == StepPiece(ps[0], c, v) && st[1..] == Step(ps[1..], c, v);
      calc {
        Replace(Flatten(ps), tc, v);
        Replace(x + y, tc, v);
        Replace(x, tc, v) + Replace(y, tc, v);
        PieceText(st[0]) + Flatten(st[1..]);
        Flatten(st);
      }
    }
  }

  /** One column's pass over the whole run is the piece-wise step. */
  lemma StepIsReplace(ps: seq<Piece>, c: string, v: string)
    requires WellFormed(ps) && BraceFree(c)
    ensures SubstituteColumn(Flatten(ps), c, v) == Flatten(Step(ps, c, v))
  {
    SubstituteColumnIsReplace(Flatten(ps), c, v);
    ReplacePieces(ps, c, v);
  }

  /** The step keeps the pieces well formed when the value is brace-free. */
  lemma StepWellFormed(ps: seq<Piece>, c: string, v: string)
    requires WellFormed(ps) && BraceFree(v)
    ensures WellFormed(Step(ps, c, v))
  {
    forall i | 0 <= i < |ps|
      ensures PieceWellFormed(Step(ps, c, v)[i])
    {
      assert Step(ps, c, v)[i] == StepPiece(ps[i], c, v);
    }
  }

  /** After the first column's step, resolving against the remaining columns
      gives what resolving the original pieces against all of them gives. */
  lemma {:induction false} FilledAfterStep(ps: seq<Piece>, columns: seq<string>, row: seq<string>)
    requires |row| == |columns| && columns != []
    ensures Filled(Step(ps, columns[0], row[0]), columns[1..], row[1..]) == Filled(ps, columns, row)
  {
    if ps != [] {
      assert Step(ps, columns[0], row[0])[1..] == Step(ps[1..], columns[0], row[0]);
      FilledAfterStep(ps[1..], columns, row);
    }
  }

  /** With no columns left, filling leaves the text as written. */
  lemma {:induction false} FilledWithoutColumns(ps: seq<Piece>)
    ensures Filled(ps, [], []) == Flatten(ps)
  {
    if ps != [] {
      FilledWithoutColumns(ps[1..]);
    }
  }

  /** The whole column loop on a run of well-formed pieces: each placeholder
      whose name is a column becomes the value of the first column of that
      name, every other placeholder and every literal stays as written. This
      holds for any number of placeholders, the same one repeated included,
      when column names and values are brace-free. */
  lemma {:induction false} SubstituteFillsPlaceholders(ps: seq<Piece>, columns: seq<string>, row: seq<string>)
    requires |row| == |columns| && WellFormed(ps)
    requires forall j :: 0 <= j < |columns| ==> BraceFree(columns[j]) && BraceFree(row[j])
    ensures Substitute(Flatten(ps), columns, row) == Filled(ps, columns, row)
    decreases |columns|
  {
    if columns == [] {
      FilledWithoutColumns(ps);
    } else {
      var c, v := columns[0], row[0];
      StepIsReplace(ps, c, v);
      StepWellFormed(ps, c, v);
      forall j | 0 <= j < |columns[1..]|
        ensures BraceFree(columns[1..][j]) && BraceFree(row[1..][j])
      {
        assert columns[1..][j] == columns[j + 1] && row[1..][j] == row[j + 1];
      }
      SubstituteFillsPlaceholders(Step(ps, c, v), columns[1..], row[1..]);
      FilledAfterStep(ps, columns, row);
    }
  }

  /** The pieces of a run `x{{{a}}}y{{{b}}}z{{{a}}}`. */
  function LetterPieces(x: string, a: string, y: string, b: string, z: string): seq<Piece>
  {
    [Plain(x), Slot(a), Plain(y), Slot(b), Plain(z), Slot(a)]
  }

  lemma LetterPiecesText(x: string, a: string, y: string, b: string, z: string)
    ensures Flatten(LetterPieces(x, a, y, b, z)) == x + Token(a) + y + Token(b) + z + Token(a)
  {
    var ps := LetterPieces(x, a, y, b, z);
    var s5: seq<Piece> := [Slot(a)];
    assert s5[1..] == [];
    assert Flatten(s5) == Token(a);
    var s4 := [Plain(z)] + s5;
    assert s4[1..] == s5;
    assert Flatten(s4) == z + Token(a);
    var s3 := [Slot(b)] + s4;
    assert s3[1..] == s4;
    assert Flatten(s3) == Token(b) + (z + Token(a));
    var s2 := [Plain(y)] + s3;
    assert s2[1..] == s3;
    assert Flatten(s2) == y + (Token(b) + (z + Token(a)));
    var s1 := [Slot(a)] + s2;
    assert s1[1..] == s2;
    assert Flatten(s1) == Token(a) + (y + (Token(b) + (z + Token(a))));
    assert ps == [Plain(x)] + s1 && ps[1..] == s1;
    assert Flatten(ps) == x + (Token(a) + (y + (Token(b) + (z + Token(a)))));
  }

  lemma LetterPiecesWellFormed(x: string, a: string, y: string, b: string, z: string)
    requires BraceFree(x) && BraceFree(y) && BraceFree(z) && BraceFree(a) && BraceFree(b)
    ensures WellFormed(LetterPieces(x, a, y, b, z))
  {
    var ps := LetterPieces(x, a, y, b, z);
    forall i | 0 <= i < |ps|
      ensures PieceWellFormed(ps[i])
    {
    }
  }

  lemma LetterPiecesFilled(x: string, a: string, y: string, b: string, z: string, va: string, vb: string)
    requires a != b
    ensures Filled(LetterPieces(x, a, y, b, z), [a, b], [va, vb]) == x + va + y + vb + z + va
  {
    var ps, columns, row := LetterPieces(x, a, y, b, z), [a, b], [va, vb];
    TwoColumnValues(a, b, va, vb);
    var s5: seq<Piece> := [Slot(a)];
    assert s5[1..] == [];
    assert Filled(s5, columns, row) == va;
    var s4 := [Plain(z)] + s5;
    assert s4[1..] == s5;
    assert Filled(s4, columns, row) == z + va;
    var s3 := [Slot(b)] + s4;
    assert s3[1..] == s4;
    assert Filled(s3, columns, row) == vb + (z + va);
    var s2 := [Plain(y)] + s3;
    assert s2[1..] == s3;
    assert Filled(s2, columns, row) == y + (vb + (z + va));
    var s1 := [Slot(a)] + s2;
    assert s1[1..] == s2;
    assert Filled(s1, columns, row) == va + (y + (vb + (z + va)));
    assert ps == [Plain(x)] + s1 && ps[1..] == s1;
    assert Filled(ps, columns, row) == x + (va + (y + (vb + (z + va))));
  }

  /** The values of two differently named columns. */
  lemma TwoColumnValues(a: string, b: string, va: string, vb: string)
    requires a != b
    ensures Resolve(Slot(a), [a, b], [va, vb]) == va
    ensures Resolve(Slot(b), [a, b], [va, vb]) == vb
  {
    assert [a, b][1..] == [b] && [va, vb][1..] == [vb];
    assert ValueOf(b, [b], [vb]) == Some(vb);
  }

  /** A run with two placeholders, the first used twice, such as
      `Prezado {{{nome}}}, CPF {{{cpf}}}; {{{nome}}}`: both occurrences of the
      first get its value and the second gets its own. */
  lemma TwoPlaceholders(x: string, a: string, y: string, b: string, z: string, va: string, vb: string)
    requires BraceFree(x) && BraceFree(y) && BraceFree(z)
    requires BraceFree(a) && BraceFree(b) && a != b
    requires BraceFree(va) && BraceFree(vb)
    ensures Substitute(x + Token(a) + y + Token(b) + z + Token(a), [a, b], [va, vb])
            == x + va + y + vb + z + va
  {
    LetterPiecesText(x, a, y, b, z);
    LetterPiecesWellFormed(x, a, y, b, z);
    LetterPiecesFilled(x, a, y, b, z, va, vb);
    SubstituteFillsPlaceholders(LetterPieces(x, a, y, b, z), [a, b], [va, vb]);
  }
}
