/**
 * The few operations of Go's `strings` package the library relies on:
 * `strings.Split` with a non-empty separator and `strings.Join`, plus
 * character counting and removal used to state the key parser's results.
 */
module Strs {

  /** `strings.Join`: the pieces with `sep` between consecutive ones. */
  function Join(xs: seq<string>, sep: string): string
  {
    if |xs| == 0 then ""
    else if |xs| == 1 then xs[0]
    else xs[0] + sep + Join(xs[1..], sep)
  }

  /**
   * `strings.Split` for a non-empty separator: the pieces between the
   * leftmost non-overlapping occurrences of `sep`; never an empty list.
   */
  function Split(s: string, sep: string): (r: seq<string>)
    requires |sep| > 0
    ensures |r| >= 1
    decreases |s|
  {
    if |s| < |sep| then [s]
    else if s[..|sep|] == sep then [""] + Split(s[|sep|..], sep)
    else
      var rest := Split(s[1..], sep);
      [[s[0]] + rest[0]] + rest[1..]
  }

  /** Gluing `c` to the first piece glues it to the front of the join. */
  lemma JoinPrepend(c: string, xs: seq<string>, sep: string)
    requires |xs| >= 1
    ensures Join([c + xs[0]] + xs[1..], sep) == c + Join(xs, sep)
  {
    var ys := [c + xs[0]] + xs[1..];
    assert ys[0] == c + xs[0] && ys[1..] == xs[1..];
  }

  /** A leading empty piece joins as a leading separator. */
  lemma JoinEmptyHead(xs: seq<string>, sep: string)
    requires |xs| >= 1
    ensures Join([""] + xs, sep) == sep + Join(xs, sep)
  {
    assert ([""] + xs)[1..] == xs;
  }

  /** Joining the pieces of a split with the same separator gives back the input. */
  lemma {:induction false} JoinSplit(s: string, sep: string)
    requires |sep| > 0
    ensures Join(Split(s, sep), sep) == s
    decreases |s|
  {
    if |s| < |sep| {
    } else if s[..|sep|] == sep {
      JoinSplit(s[|sep|..], sep);
      JoinEmptyHead(Split(s[|sep|..], sep), sep);
      assert s == sep + s[|sep|..];
    } else {
      JoinSplit(s[1..], sep);
      JoinPrepend([s[0]], Split(s[1..], sep), sep);
      assert s == [s[0]] + s[1..];
    }
  }

  /** Number of occurrences of `c` in `s`. */
  function Count(s: string, c: char): nat
  {
    if |s| == 0 then 0
    else (if s[0] == c then 1 else 0) + Count(s[1..], c)
  }

  /** `s` with every occurrence of `c` removed. */
  function Drop(s: string, c: char): (r: string)
    ensures c !in r
    ensures |r| == |s| - Count(s, c)
  {
    if |s| == 0 then ""
    else if s[0] == c then Drop(s[1..], c)
    else [s[0]] + Drop(s[1..], c)
  }

  /** All pieces laid end to end, with nothing between them. */
  function Concat(xs: seq<string>): string
  {
    if |xs| == 0 then "" else xs[0] + Concat(xs[1..])
  }

  lemma CountAppend(a: string, b: string, c: char)
    ensures Count(a + b, c) == Count(a, c) + Count(b, c)
  {
    if |a| == 0 {
      assert a + b == b;
    } else {
      assert (a + b)[1..] == a[1..] + b;
      CountAppend(a[1..], b, c);
    }
  }

  lemma DropAppend(a: string, b: string, c: char)
    ensures Drop(a + b, c) == Drop(a, c) + Drop(b, c)
  {
    if |a| == 0 {
      assert a + b == b;
    } else {
      assert (a + b)[1..] == a[1..] + b;
      DropAppend(a[1..], b, c);
    }
  }

  lemma CountAbsent(s: string, c: char)
    requires c !in s
    ensures Count(s, c) == 0
  {
    if |s| > 0 {
      assert s[0] != c;
      CountAbsent(s[1..], c);
    }
  }

  lemma DropAbsent(s: string, c: char)
    requires c !in s
    ensures Drop(s, c) == s
  {
    if |s| > 0 {
      assert s[0] != c;
      DropAbsent(s[1..], c);
      assert s == [s[0]] + s[1..];
    }
  }

  /** Joining one more piece adds the separator and the piece at the end. */
  lemma {:induction false} JoinSnoc(xs: seq<string>, x: string, sep: string)
    requires |xs| >= 1
    ensures Join(xs + [x], sep) == Join(xs, sep) + sep + x
    decreases |xs|
  {
    if |xs| == 1 {
      assert (xs + [x])[1..] == [x];
    } else {
      assert (xs + [x])[1..] == xs[1..] + [x];
      JoinSnoc(xs[1..], x, sep);
    }
  }

  /** A string without the separator character splits into itself alone. */
  lemma {:induction false} SplitAbsent(s: string, c: char)
    requires c !in s
    ensures Split(s, [c]) == [s]
    decreases |s|
  {
    if |s| >= 1 {
      assert s[..1] != [c] by { assert s[..1][0] == s[0]; }
      assert c !in s[1..];
      SplitAbsent(s[1..], c);
      assert s == [s[0]] + s[1..];
    }
  }

  /**
   * Splitting on a one-character separator distributes over an occurrence
   * of that separator: `Split(a + c + b) == Split(a) + Split(b)`.
   */
  lemma SplitAtSep(s: string, c: char)
    requires |s| >= 1 && s[0] == c
    ensures Split(s, [c]) == [""] + Split(s[1..], [c])
  {
    assert s[..1] == [c];
  }

  lemma SplitAtOther(s: string, c: char)
    requires |s| >= 1 && s[0] != c
    ensures Split(s, [c]) == [[s[0]] + Split(s[1..], [c])[0]] + Split(s[1..], [c])[1..]
  {
    assert s[..1] != [c] by { assert s[..1][0] == s[0]; }
  }

  lemma {:induction false} SplitAround(a: string, b: string, c: char)
    ensures Split(a + [c] + b, [c]) == Split(a, [c]) + Split(b, [c])
    decreases |a|
  {
    var s := a + [c] + b;
    if |a| == 0 {
      assert s == [c] + b;
      SplitAtSep(s, c);
      assert s[1..] == b;
    } else {
      assert s[1..] == a[1..] + [c] + b;
      SplitAround(a[1..], b, c);
      SplitAroundStep(a, b, c);
    }
  }

  /** The inductive step of `SplitAround`, given its hypothesis for `a[1..]`. */
  lemma SplitAroundStep(a: string, b: string, c: char)
    requires |a| >= 1
    requires Split((a + [c] + b)[1..], [c]) == Split(a[1..], [c]) + Split(b, [c])
    ensures Split(a + [c] + b, [c]) == Split(a, [c]) + Split(b, [c])
  {
    var s := a + [c] + b;
    assert s[0] == a[0];
    if a[0] == c {
      SplitAtSep(s, c);
      SplitAtSep(a, c);
    } else {
      SplitAtOther(s, c);
      SplitAtOther(a, c);
      GlueAppend([a[0]], Split(a[1..], [c]), Split(b, [c]));
    }
  }

  /** Gluing a prefix onto the first piece commutes with appending more pieces. */
  lemma GlueAppend(x: string, A: seq<string>, B: seq<string>)
    requires |A| >= 1
    ensures [x + (A + B)[0]] + (A + B)[1..] == ([x + A[0]] + A[1..]) + B
  {
    assert (A + B)[1..] == A[1..] + B;
  }

  /**
   * Splitting a join on a one-character separator recovers the pieces
   * exactly when no piece contains the separator.
   */
  lemma {:induction false} SplitJoin(xs: seq<string>, c: char)
    requires |xs| >= 1
    requires forall i :: 0 <= i < |xs| ==> c !in xs[i]
    ensures Split(Join(xs, [c]), [c]) == xs
    decreases |xs|
  {
    if |xs| == 1 {
      SplitAbsent(xs[0], c);
    } else {
      SplitJoin(xs[1..], c);
      SplitAbsent(xs[0], c);
      SplitAround(xs[0], Join(xs[1..], [c]), c);
      assert xs == [xs[0]] + xs[1..];
    }
  }

  /** Splitting on one character yields one more piece than it has occurrences. */
  lemma {:induction false} SplitCount(s: string, c: char)
    ensures |Split(s, [c])| == 1 + Count(s, c)
    decreases |s|
  {
    if |s| >= 1 {
      SplitCount(s[1..], c);
      if s[0] == c {
        assert s[..1] == [c];
      } else {
        assert s[..1] != [c] by { assert s[..1][0] == s[0]; }
      }
    }
  }

  /** Laying the pieces of a one-character split end to end removes that character. */
  lemma {:induction false} SplitConcat(s: string, c: char)
    ensures Concat(Split(s, [c])) == Drop(s, c)
    decreases |s|
  {
    if |s| >= 1 {
      SplitConcat(s[1..], c);
      var rest := Split(s[1..], [c]);
      if s[0] == c {
        assert s[..1] == [c];
        assert Split(s, [c]) == [""] + rest;
        assert Concat([""] + rest) == "" + Concat(rest);
      } else {
        assert s[..1] != [c] by { assert s[..1][0] == s[0]; }
        assert Split(s, [c]) == [[s[0]] + rest[0]] + rest[1..];
        assert rest == [rest[0]] + rest[1..];
        assert Concat(rest) == rest[0] + Concat(rest[1..]);
      }
    }
  }

  /** No piece of a split holds the separator character. */
  lemma SplitPiecesFree(s: string, c: char)
    ensures forall i :: 0 <= i < |Split(s, [c])| ==> c !in Split(s, [c])[i]
  {
    forall i | 0 <= i < |Split(s, [c])| ensures c !in Split(s, [c])[i] {
      if c in Split(s, [c])[i] {
        SplitPieceChar(s, c, i, c);
      }
    }
  }

  /** Every character of a piece of a one-character split is a non-separator character of the input. */
  lemma {:induction false} SplitPieceChar(s: string, c: char, i: nat, ch: char)
    requires i < |Split(s, [c])| && ch in Split(s, [c])[i]
    ensures ch != c && ch in s
    decreases |s|
  {
    var r := Split(s, [c]);
    if |s| >= 1 {
      var rest := Split(s[1..], [c]);
      if s[0] == c {
        SplitAtSep(s, c);
        assert r[i] == rest[i - 1];
        SplitPieceChar(s[1..], c, i - 1, ch);
      } else {
        SplitAtOther(s, c);
        if i == 0 && ch != s[0] {
          assert r[0] == [s[0]] + rest[0];
          SplitPieceChar(s[1..], c, 0, ch);
        } else if i > 0 {
          assert r[i] == rest[i];
          SplitPieceChar(s[1..], c, i, ch);
        }
      }
      if ch in s[1..] {
        var k :| 0 <= k < |s[1..]| && s[1..][k] == ch;
        assert s[k + 1] == ch;
      }
    }
  }

  /** Removing one character does not change how often another occurs. */
  lemma {:induction false} CountDrop(s: string, c: char, d: char)
    requires c != d
    ensures Count(Drop(s, d), c) == Count(s, c)
    decreases |s|
  {
    if |s| >= 1 {
      CountDrop(s[1..], c, d);
      if s[0] != d {
        assert Drop(s, d) == [s[0]] + Drop(s[1..], d);
        assert ([s[0]] + Drop(s[1..], d))[1..] == Drop(s[1..], d);
      }
    }
  }
}
