/** The two Python string operations the templating step relies on:
    the containment test `p in s` and `s.replace(p, v)`. */
module Text {

  /** `p` occurs in `s` starting at index `i`. */
  ghost predicate MatchAt(s: string, p: string, i: int)
  {
    0 <= i && i + |p| <= |s| && s[i..i + |p|] == p
  }

  /** `p` occurs somewhere in `s`. */
  ghost predicate Occurs(s: string, p: string)
  {
    exists i :: MatchAt(s, p, i)
  }

  /** Dropping the first `k` characters shifts every match by `k`. */
  lemma ShiftMatch(s: string, p: string, k: nat, i: int)
    requires k <= |s| && 0 <= i
    ensures MatchAt(s[k..], p, i) <==> MatchAt(s, p, i + k)
  {
    if 0 <= i && i + |p| <= |s| - k {
      assert s[k..][i..i + |p|] == s[i + k..i + k + |p|];
    }
  }

  /** A match that ends inside `s` does not see what follows `s`. */
  lemma MatchInPrefix(s: string, t: string, p: string, i: int)
    requires i + |p| <= |s|
    ensures MatchAt(s + t, p, i) <==> MatchAt(s, p, i)
  {
    if 0 <= i {
      assert (s + t)[i..i + |p|] == s[i..i + |p|];
    }
  }

  /** When `p` does not start `s`, the occurrences of `p` in `s` are those in `s[1..]`. */
  lemma OccursTail(s: string, p: string)
    requires s != [] && !MatchAt(s, p, 0)
    ensures Occurs(s, p) <==> Occurs(s[1..], p)
  {
    if Occurs(s, p) {
      var i :| MatchAt(s, p, i);
      ShiftMatch(s, p, 1, i - 1);
    }
    if Occurs(s[1..], p) {
      var i :| MatchAt(s[1..], p, i);
      ShiftMatch(s, p, 1, i);
    }
  }

  /** Python's `p in s`. */
  function Contains(s: string, p: string): (r: bool)
    ensures r <==> Occurs(s, p)
    decreases |s|
  {
    if |p| <= |s| && s[..|p|] == p then
      assert MatchAt(s, p, 0);
      true
    else if s == [] then
      false
    else
      OccursTail(s, p);
      Contains(s[1..], p)
  }

  /** Python's `s.replace(p, v)` for a non-empty `p`: scanning left to right,
      every occurrence of `p` that does not overlap an earlier replaced one
      becomes `v`. */
  function Replace(s: string, p: string, v: string): string
    requires p != []
    decreases |s|
  {
    if |s| < |p| then s
    else if s[..|p|] == p then v + Replace(s[|p|..], p, v)
    else [s[0]] + Replace(s[1..], p, v)
  }

  /** Python's `sep.join(parts)`. */
  function Join(parts: seq<string>, sep: string): string
    requires parts != []
    decreases |parts|
  {
    if |parts| == 1 then parts[0] else parts[0] + sep + Join(parts[1..], sep)
  }

  /** Python's `s.split(p)` for a non-empty `p`. */
  function Split(s: string, p: string): (parts: seq<string>)
    requires p != []
    ensures parts != []
    decreases |s|
  {
    if |s| < |p| then [s]
    else if s[..|p|] == p then [[]] + Split(s[|p|..], p)
    else
      var t := Split(s[1..], p);
      [[s[0]] + t[0]] + t[1..]
  }

  /** Scanning `x + p` from the left, the first occurrence of `p` is the one after `x`. */
  ghost predicate FirstMatchAtEnd(x: string, p: string)
  {
    forall i :: 0 <= i < |x| ==> !MatchAt(x + p, p, i)
  }

  /** `parts` cut `s` at the leftmost non-overlapping occurrences of `p`:
      joined with `p` they give `s` back, no part but the last is followed by
      an earlier occurrence, and the last part holds no occurrence at all. */
  ghost predicate IsLeftmostSplit(parts: seq<string>, s: string, p: string)
  {
    && parts != []
    && Join(parts, p) == s
    && (forall k :: 0 <= k < |parts| - 1 ==> FirstMatchAtEnd(parts[k], p))
    && !Occurs(parts[|parts| - 1], p)
  }

  lemma JoinPrepend(x: string, parts: seq<string>, sep: string)
    requires parts != []
    ensures Join([x + parts[0]] + parts[1..], sep) == x + Join(parts, sep)
  {
    var q := [x + parts[0]] + parts[1..];
    assert q[1..] == parts[1..];
    if |parts| > 1 {
      calc {
        Join(q, sep);
        (x + parts[0]) + sep + Join(parts[1..], sep);
        x + (parts[0] + sep + Join(parts[1..], sep));
      }
    }
  }

  lemma JoinEmptyFirst(parts: seq<string>, sep: string)
    requires parts != []
    ensures Join([[]] + parts, sep) == sep + Join(parts, sep)
  {
    var q := [[]] + parts;
    assert q[1..] == parts;
  }

  /** Joining at least two parts yields at least the separator's length. */
  lemma JoinLength(parts: seq<string>, sep: string)
    requires |parts| >= 2
    ensures |Join(parts, sep)| >= |sep|
  {
  }

  /** Python's identity `s.replace(p, v) == v.join(s.split(p))`. */
  lemma {:induction false} ReplaceIsJoinOfSplit(s: string, p: string, v: string)
    requires p != []
    ensures Replace(s, p, v) == Join(Split(s, p), v)
    decreases |s|
  {
    if |s| < |p| {
    } else if s[..|p|] == p {
      ReplaceIsJoinOfSplit(s[|p|..], p, v);
      JoinEmptyFirst(Split(s[|p|..], p), v);
    } else {
      ReplaceIsJoinOfSplit(s[1..], p, v);
      JoinPrepend([s[0]], Split(s[1..], p), v);
    }
  }

  /** `Split` cuts at the leftmost non-overlapping occurrences. */
  lemma {:induction false} SplitIsLeftmost(s: string, p: string)
    requires p != []
    ensures IsLeftmostSplit(Split(s, p), s, p)
    decreases |s|
  {
    var parts := Split(s, p);
    if |s| < |p| {
    } else if s[..|p|] == p {
      var rest := s[|p|..];
      var t := Split(rest, p);
      SplitIsLeftmost(rest, p);
      assert parts == [[]] + t;
      JoinEmptyFirst(t, p);
      assert s == s[..|p|] + rest;
      forall k | 0 <= k < |parts| - 1
        ensures FirstMatchAtEnd(parts[k], p)
      {
        if k > 0 {
          assert parts[k] == t[k - 1];
        }
      }
      assert parts[|parts| - 1] == t[|t| - 1];
    } else {
      var t := Split(s[1..], p);
      SplitIsLeftmost(s[1..], p);
      var x := [s[0]] + t[0];
      assert parts == [x] + t[1..];
      JoinPrepend([s[0]], t, p);
      assert s == [s[0]] + s[1..];
      assert !MatchAt(s, p, 0);
      if |t| == 1 {
        assert x == s;
        OccursTail(s, p);
      } else {
        assert s == x + p + Join(t[1..], p);
        forall i | 0 <= i < |x|
          ensures !MatchAt(x + p, p, i)
        {
          if i == 0 {
            MatchInPrefix(x + p, Join(t[1..], p), p, 0);
          } else {
            assert (x + p)[1..] == t[0] + p;
            ShiftMatch(x + p, p, 1, i - 1);
          }
        }
        forall k | 1 <= k < |parts| - 1
          ensures FirstMatchAtEnd(parts[k], p)
        {
          assert parts[k] == t[k];
        }
        assert parts[|parts| - 1] == t[|t| - 1];
      }
    }
  }

  /** The leftmost decomposition is unique, so it is exactly what `Split` computes. */
  lemma {:induction false} LeftmostSplitIsSplit(parts: seq<string>, s: string, p: string)
    requires p != []
    requires IsLeftmostSplit(parts, s, p)
    ensures parts == Split(s, p)
    decreases |s|
  {
    if |s| < |p| {
      if |parts| >= 2 {
        JoinLength(parts, p);
      }
    } else if s[..|p|] == p {
      assert MatchAt(s, p, 0);
      if |parts| == 1 {
        assert false;
      } else {
        var rest := Join(parts[1..], p);
        assert s == parts[0] + p + rest;
        MatchInPrefix(parts[0] + p, rest, p, 0);
        assert parts[0] == [];
        assert s[|p|..] == rest;
        var tail := parts[1..];
        forall k | 0 <= k < |tail| - 1
          ensures FirstMatchAtEnd(tail[k], p)
        {
          assert tail[k] == parts[k + 1];
        }
        LeftmostSplitIsSplit(tail, s[|p|..], p);
        assert parts == [[]] + tail;
      }
    } else {
      assert !MatchAt(s, p, 0);
      var x := parts[0];
      if |parts| > 1 {
        assert s == x + p + Join(parts[1..], p);
        assert (p + Join(parts[1..], p))[..|p|] == p;
      }
      assert x != [];
      var tail := [x[1..]] + parts[1..];
      assert x == [x[0]] + x[1..];
      JoinPrepend([x[0]], tail, p);
      assert [[x[0]] + tail[0]] + tail[1..] == parts;
      assert s == [x[0]] + Join(tail, p);
      assert s[1..] == Join(tail, p);
      if |parts| == 1 {
        assert x == s;
        OccursTail(s, p);
        assert tail[|tail| - 1] == s[1..];
      } else {
        forall i | 0 <= i < |x[1..]|
          ensures !MatchAt(x[1..] + p, p, i)
        {
          assert (x + p)[1..] == x[1..] + p;
          ShiftMatch(x + p, p, 1, i);
        }
        forall k | 1 <= k < |tail| - 1
          ensures FirstMatchAtEnd(tail[k], p)
        {
          assert tail[k] == parts[k];
        }
        assert tail[|tail| - 1] == parts[|parts| - 1];
      }
      LeftmostSplitIsSplit(tail, s[1..], p);
    }
  }

  /** Replacing in a string that does not contain `p` returns it unchanged. */
  lemma {:induction false} ReplaceAbsent(s: string, p: string, v: string)
    requires p != [] && !Occurs(s, p)
    ensures Replace(s, p, v) == s
    decreases |s|
  {
    if |s| >= |p| {
      assert !MatchAt(s, p, 0);
      OccursTail(s, p);
      ReplaceAbsent(s[1..], p, v);
      assert s == [s[0]] + s[1..];
    }
  }

  /** A replace distributes over a concatenation when no occurrence of `p`
      straddles the seam. */
  lemma {:induction false} ReplaceConcat(x: string, y: string, p: string, v: string)
    requires p != []
    requires forall i :: 0 <= i < |x| < i + |p| ==> !MatchAt(x + y, p, i)
    ensures Replace(x + y, p, v) == Replace(x, p, v) + Replace(y, p, v)
    decreases |x|
  {
    var s := x + y;
    if x == [] {
      assert s == y;
    } else if |s| < |p| {
    } else if s[..|p|] == p {
      assert MatchAt(s, p, 0);
      assert |p| <= |x|;
      assert x[..|p|] == p;
      var x' := x[|p|..];
      assert s[|p|..] == x' + y;
      forall i | 0 <= i < |x'| < i + |p|
        ensures !MatchAt(x' + y, p, i)
      {
        ShiftMatch(s, p, |p|, i);
      }
      ReplaceConcat(x', y, p, v);
    } else {
      var x' := x[1..];
      assert s[1..] == x' + y;
      forall i | 0 <= i < |x'| < i + |p|
        ensures !MatchAt(x' + y, p, i)
      {
        ShiftMatch(s, p, 1, i);
      }
      ReplaceConcat(x', y, p, v);
      if |x| < |p| {
        assert Replace(x', p, v) == x';
        assert x == [x[0]] + x';
      } else {
        assert x[..|p|] == s[..|p|];
      }
    }
  }

  /** Replacing one character by another rewrites exactly the positions that
      hold it and keeps the length. */
  lemma {:induction false} ReplaceChar(s: string, a: char, b: char)
    ensures |Replace(s, [a], [b])| == |s|
    ensures forall i :: 0 <= i < |s| ==> Replace(s, [a], [b])[i] == if s[i] == a then b else s[i]
    decreases |s|
  {
    if s != [] {
      ReplaceChar(s[1..], a, b);
      var r := Replace(s, [a], [b]);
      var t := Replace(s[1..], [a], [b]);
      assert s[..1] == [s[0]];
      assert r == (if s[0] == a then [b] else [s[0]]) + t;
      forall i | 0 <= i < |s|
        ensures r[i] == if s[i] == a then b else s[i]
      {
        if i > 0 {
          assert r[i] == t[i - 1];
          assert s[i] == s[1..][i - 1];
        }
      }
    }
  }
}
