/**
 * The bracket-key scanner of qs/qs.go (`parseKey`): a raw query key such as
 * `a[b][c]` becomes the path `["a", "b", "c"]`. A `[` inside an open bracket
 * or a `]` outside one is rejected; once `maxDepth` (when positive) brackets
 * have been opened, the rest of the key, from that `[` on, becomes one last
 * opaque segment.
 *
 * Keys are sequences of characters (runes); see module RuneOffset for the
 * source's byte-offset slice at the depth cap.
 */
module KeyParser {
  import opened Wrappers
  import opened Strs

  /**
   * The package's two error values. The scanner only ever returns
   * `InvalidQS`; `Unbalanced` is declared but unused.
   */
  datatype ParseError = InvalidQS | Unbalanced

  /** The `MaxDepth` a new container starts with. */
  const DefaultMaxDepth: int := 5

  /** The scanner's variables: bracket flag, current segment, finished segments, depth. */
  datatype ScanState = ScanState(inBrackets: bool, cur: string, keys: seq<string>, depth: nat)

  const Start: ScanState := ScanState(false, "", [], 0)

  /** The scan loop over the characters not read yet (`rest`). */
  function Scan(rest: string, maxDepth: int, st: ScanState): (r: Result<seq<string>, ParseError>)
    ensures r.Ok? ==> |r.value| > |st.keys|
    ensures r.Err? ==> r.error == InvalidQS
    decreases |rest|
  {
    if |rest| == 0 then Ok(st.keys + [st.cur])
    else
      var c := rest[0];
      if c == '[' && !st.inBrackets then
        var keys := st.keys + [st.cur];
        if st.depth + 1 == maxDepth then Ok(keys + [rest])
        else Scan(rest[1..], maxDepth, ScanState(true, "", keys, st.depth + 1))
      else if c == ']' && st.inBrackets then
        Scan(rest[1..], maxDepth, st.(inBrackets := false))
      else if (c == '[' && st.inBrackets) || (c == ']' && !st.inBrackets) then
        Err(InvalidQS)
      else
        Scan(rest[1..], maxDepth, st.(cur := st.cur + [c]))
  }

  /**
   * `parseKey(key, maxDepth)`: the path segments of a raw key, or
   * `InvalidQS`. An accepted key has at least one segment.
   */
  function ParseKey(key: string, maxDepth: int): (r: Result<seq<string>, ParseError>)
    ensures r.Ok? ==> |r.value| >= 1
    ensures r.Err? ==> r.error == InvalidQS
  {
    Scan(key, maxDepth, Start)
  }

  // ---------------------------------------------------------------------
  // Reference description of what the scanner accepts and produces
  // ---------------------------------------------------------------------

  predicate IsBracket(c: char)
  {
    c == '[' || c == ']'
  }

  /** The bracket characters of `s`, in order. */
  function Brackets(s: string): (r: string)
    ensures forall k :: 0 <= k < |r| ==> IsBracket(r[k])
  {
    if |s| == 0 then ""
    else if IsBracket(s[0]) then [s[0]] + Brackets(s[1..])
    else Brackets(s[1..])
  }

  /**
   * The brackets `b` alternate `]`, `[`, `]`, ... when a bracket is already
   * `open`, and `[`, `]`, `[`, ... otherwise.
   */
  predicate AlternatesFrom(b: string, open: bool)
  {
    forall k :: 0 <= k < |b| ==> b[k] == (if (k % 2 == 0) != open then '[' else ']')
  }

  /** Every `[` is closed before the next one opens and every `]` closes one. */
  predicate Alternates(b: string)
  {
    AlternatesFrom(b, false)
  }

  /** The segments of a bracket-free-of-errors key: drop `]`, split on `[`. */
  function Segments(s: string): (r: seq<string>)
    ensures |r| >= 1
  {
    Split(Drop(s, ']'), "[")
  }

  /** Glue `head` onto the front of the first piece. */
  function Glue(head: string, xs: seq<string>): seq<string>
    requires |xs| >= 1
  {
    [head + xs[0]] + xs[1..]
  }

  /** Index of the `[` that has exactly `n` `[` before it. */
  function OpenIndex(s: string, n: nat): (p: nat)
    requires Count(s, '[') > n
    ensures p < |s| && s[p] == '['
    ensures Count(s[..p], '[') == n
    decreases |s|
  {
    if s[0] == '[' && n == 0 then
      assert s[..0] == "";
      0
    else
      var m := if s[0] == '[' then n - 1 else n;
      var q := OpenIndex(s[1..], m);
      assert s[..q + 1] == [s[0]] + s[1..][..q];
      q + 1
  }

  /**
   * The part of `key` the scanner reads: the whole key, or, when the depth
   * cap is reached, the key up to and including the `maxDepth`-th `[`.
   */
  function Scanned(key: string, maxDepth: int): string
  {
    if maxDepth >= 1 && Count(key, '[') >= maxDepth then key[..OpenIndex(key, maxDepth - 1) + 1]
    else key
  }

  // ---------------------------------------------------------------------
  // One-character steps of the reference description
  // ---------------------------------------------------------------------

  lemma AltCons(c: char, b: string, open: bool)
    ensures AlternatesFrom([c] + b, open) <==> c == (if open then ']' else '[') && AlternatesFrom(b, !open)
  {
    var cb := [c] + b;
    if AlternatesFrom(cb, open) {
      assert cb[0] == c;
      forall k | 0 <= k < |b|
        ensures b[k] == (if (k % 2 == 0) != !open then '[' else ']')
      {
        assert cb[k + 1] == b[k];
      }
    }
    if c == (if open then ']' else '[') && AlternatesFrom(b, !open) {
      forall k | 0 <= k < |cb|
        ensures cb[k] == (if (k % 2 == 0) != open then '[' else ']')
      {
        if k > 0 {
          assert cb[k] == b[k - 1];
        }
      }
    }
  }

  lemma BracketsAppend(a: string, b: string)
    ensures Brackets(a + b) == Brackets(a) + Brackets(b)
  {
    if |a| == 0 {
      assert a + b == b;
    } else {
      assert (a + b)[1..] == a[1..] + b;
      BracketsAppend(a[1..], b);
    }
  }

  lemma SegmentsOpen(s: string)
    requires |s| >= 1 && s[0] == '['
    ensures Segments(s) == [""] + Segments(s[1..])
  {
    assert Drop(s, ']') == ['['] + Drop(s[1..], ']');
    SplitAtSep(Drop(s, ']'), '[');
    assert Drop(s, ']')[1..] == Drop(s[1..], ']');
  }

  lemma SegmentsClose(s: string)
    requires |s| >= 1 && s[0] == ']'
    ensures Segments(s) == Segments(s[1..])
  {
  }

  lemma SegmentsOther(s: string)
    requires |s| >= 1 && !IsBracket(s[0])
    ensures Segments(s) == Glue([s[0]], Segments(s[1..]))
  {
    var d := Drop(s, ']');
    assert d == [s[0]] + Drop(s[1..], ']');
    SplitAtOther(d, '[');
    assert d[1..] == Drop(s[1..], ']');
  }

  lemma GlueEmpty(xs: seq<string>)
    requires |xs| >= 1
    ensures Glue("", xs) == xs
  {
    assert "" + xs[0] == xs[0];
  }

  lemma GlueOpen(cur: string, xs: seq<string>)
    requires |xs| >= 1
    ensures Glue(cur, [""] + xs) == [cur] + xs
  {
    assert cur + "" == cur;
    assert ([""] + xs)[1..] == xs;
  }

  lemma GlueGlue(a: string, c: char, xs: seq<string>)
    requires |xs| >= 1
    ensures Glue(a, Glue([c], xs)) == Glue(a + [c], xs)
  {
    assert a + ([c] + xs[0]) == (a + [c]) + xs[0];
  }

  // ---------------------------------------------------------------------
  // The scanner agrees with the reference description
  // ---------------------------------------------------------------------

  /**
   * From any state, when the depth cap cannot be reached in `rest`, the scan
   * fails exactly when the remaining brackets do not alternate, and otherwise
   * finishes the current segment with the reference segments of `rest`.
   */
  lemma {:induction false} ScanUncapped(rest: string, maxDepth: int, st: ScanState)
    requires maxDepth <= 0 || Count(rest, '[') < maxDepth - st.depth
    ensures Scan(rest, maxDepth, st)
         == if AlternatesFrom(Brackets(rest), st.inBrackets)
            then Ok(st.keys + Glue(st.cur, Segments(rest)))
            else Err(InvalidQS)
    decreases |rest|
  {
    if |rest| == 0 {
      assert Drop(rest, ']') == "";
      assert Segments(rest) == [""];
      assert Glue(st.cur, [""]) == [st.cur] by { assert st.cur + "" == st.cur; }
    } else {
      var c := rest[0];
      var tail := rest[1..];
      AltCons(c, Brackets(tail), st.inBrackets);
      if c == '[' {
        assert Brackets(rest) == "[" + Brackets(tail);
        if !st.inBrackets {
          var st' := ScanState(true, "", st.keys + [st.cur], st.depth + 1);
          ScanUncapped(tail, maxDepth, st');
          SegmentsOpen(rest);
          GlueEmpty(Segments(tail));
          GlueOpen(st.cur, Segments(tail));
          assert st'.keys + Segments(tail) == st.keys + Glue(st.cur, [""] + Segments(tail));
        }
      } else if c == ']' {
        assert Brackets(rest) == "]" + Brackets(tail);
        if st.inBrackets {
          ScanUncapped(tail, maxDepth, st.(inBrackets := false));
          SegmentsClose(rest);
        }
      } else {
        assert Brackets(rest) == Brackets(tail);
        ScanUncapped(tail, maxDepth, st.(cur := st.cur + [c]));
        SegmentsOther(rest);
        GlueGlue(st.cur, c, Segments(tail));
      }
    }
  }

  /**
   * From any state, when `y` starts with the `[` that reaches the depth cap,
   * the scan of `x + y` fails exactly when the brackets of `x` followed by that
   * `[` do not alternate, and otherwise ends with `y` verbatim as the last
   * segment.
   */
  lemma {:induction false} ScanCapped(x: string, y: string, maxDepth: int, st: ScanState)
    requires |y| >= 1 && y[0] == '['
    requires Count(x, '[') == maxDepth - 1 - st.depth
    ensures Scan(x + y, maxDepth, st)
         == if AlternatesFrom(Brackets(x) + "[", st.inBrackets)
            then Ok(st.keys + Glue(st.cur, Segments(x)) + [y])
            else Err(InvalidQS)
    decreases |x|
  {
    if |x| == 0 {
      assert x + y == y;
      assert Drop(x, ']') == "";
      assert Segments(x) == [""];
      assert Glue(st.cur, [""]) == [st.cur] by { assert st.cur + "" == st.cur; }
      assert Brackets(x) + "[" == ['['] + "";
      AltCons('[', "", st.inBrackets);
      assert y[0] == '[' && |y| != 0;
      assert st.depth + 1 == maxDepth;
    } else {
      var c := x[0];
      var tail := x[1..];
      assert (x + y)[1..] == tail + y;
      assert (x + y)[0] == c;
      AltCons(c, Brackets(tail) + "[", st.inBrackets);
      if c == '[' {
        assert Brackets(x) + "[" == "[" + (Brackets(tail) + "[");
        if !st.inBrackets {
          var st' := ScanState(true, "", st.keys + [st.cur], st.depth + 1);
          ScanCapped(tail, y, maxDepth, st');
          SegmentsOpen(x);
          GlueEmpty(Segments(tail));
          GlueOpen(st.cur, Segments(tail));
          assert st'.keys + Segments(tail) == st.keys + Glue(st.cur, [""] + Segments(tail));
        }
      } else if c == ']' {
        assert Brackets(x) + "[" == "]" + (Brackets(tail) + "[");
        if st.inBrackets {
          ScanCapped(tail, y, maxDepth, st.(inBrackets := false));
          SegmentsClose(x);
        }
      } else {
        assert Brackets(x) == Brackets(tail);
        ScanCapped(tail, y, maxDepth, st.(cur := st.cur + [c]));
        SegmentsOther(x);
        GlueGlue(st.cur, c, Segments(tail));
      }
    }
  }

  /**
   * Without reaching the depth cap (unlimited depth, or fewer `[` than the
   * cap), a key is rejected exactly when its brackets do not alternate, and
   * otherwise its segments are the key without `]`, split at every `[`.
   */
  lemma ParseKeyUncapped(key: string, maxDepth: int)
    requires maxDepth <= 0 || Count(key, '[') < maxDepth
    ensures ParseKey(key, maxDepth)
         == if Alternates(Brackets(key)) then Ok(Segments(key)) else Err(InvalidQS)
  {
    ScanUncapped(key, maxDepth, Start);
    GlueEmpty(Segments(key));
    assert [] + Segments(key) == Segments(key);
  }

  /**
   * When the key holds a `maxDepth`-th `[` (at `p`), the key is rejected
   * exactly when the brackets before it, followed by it, do not alternate;
   * otherwise the segments before `p` are parsed as without a cap and the
   * rest of the key, from `p` on, is the final segment.
   */
  lemma ParseKeyCapped(key: string, maxDepth: int, p: nat)
    requires maxDepth >= 1
    requires p < |key| && key[p] == '['
    requires Count(key[..p], '[') == maxDepth - 1
    ensures ParseKey(key, maxDepth)
         == if Alternates(Brackets(key[..p]) + "[")
            then Ok(Segments(key[..p]) + [key[p..]])
            else Err(InvalidQS)
  {
    assert key == key[..p] + key[p..];
    ScanCapped(key[..p], key[p..], maxDepth, Start);
    GlueEmpty(Segments(key[..p]));
    assert [] + Segments(key[..p]) == Segments(key[..p]);
  }

  /**
   * `parseKey` fails (with `InvalidQS`, never `Unbalanced`) exactly when the
   * part of the key it reads meets a `[` while a bracket is open or a `]`
   * while none is.
   */
  lemma ParseKeyErrorIff(key: string, maxDepth: int)
    ensures ParseKey(key, maxDepth).Err? <==> !Alternates(Brackets(Scanned(key, maxDepth)))
    ensures ParseKey(key, maxDepth).Err? ==> ParseKey(key, maxDepth).error == InvalidQS
  {
    if maxDepth >= 1 && Count(key, '[') >= maxDepth {
      var p := OpenIndex(key, maxDepth - 1);
      ParseKeyCapped(key, maxDepth, p);
      assert key[..p + 1] == key[..p] + "[";
      BracketsAppend(key[..p], "[");
      assert Brackets("[") == "[" by { assert "["[1..] == ""; }
    } else {
      ParseKeyUncapped(key, maxDepth);
    }
  }

  // ---------------------------------------------------------------------
  // Consequences: the shape of the result
  // ---------------------------------------------------------------------

  /**
   * With unlimited depth, an accepted key has one segment more than it has
   * `[`, no segment contains a bracket, and the segments laid end to end are
   * the key with its brackets removed.
   */
  lemma ParseKeyUnlimitedShape(key: string, maxDepth: int)
    requires maxDepth <= 0
    requires ParseKey(key, maxDepth).Ok?
    ensures |ParseKey(key, maxDepth).value| == 1 + Count(key, '[')
    ensures Concat(ParseKey(key, maxDepth).value) == Drop(Drop(key, ']'), '[')
    ensures forall i :: 0 <= i < |ParseKey(key, maxDepth).value| ==>
              '[' !in ParseKey(key, maxDepth).value[i] && ']' !in ParseKey(key, maxDepth).value[i]
  {
    ParseKeyUncapped(key, maxDepth);
    SegmentShape(key);
  }

  lemma SegmentShape(s: string)
    ensures |Segments(s)| == 1 + Count(s, '[')
    ensures Concat(Segments(s)) == Drop(Drop(s, ']'), '[')
    ensures forall i :: 0 <= i < |Segments(s)| ==> '[' !in Segments(s)[i] && ']' !in Segments(s)[i]
  {
    SplitCount(Drop(s, ']'), '[');
    CountDrop(s, '[', ']');
    SplitConcat(Drop(s, ']'), '[');
    forall i | 0 <= i < |Segments(s)|
      ensures '[' !in Segments(s)[i] && ']' !in Segments(s)[i]
    {
      if '[' in Segments(s)[i] {
        SplitPieceChar(Drop(s, ']'), '[', i, '[');
      }
      if ']' in Segments(s)[i] {
        SplitPieceChar(Drop(s, ']'), '[', i, ']');
      }
    }
  }

  /**
   * When the key holds at least `maxDepth >= 1` of `[`, an accepted key has
   * exactly `maxDepth + 1` segments and the last is the key verbatim from
   * the `maxDepth`-th `[` on.
   */
  lemma ParseKeyCappedShape(key: string, maxDepth: int)
    requires maxDepth >= 1 && Count(key, '[') >= maxDepth
    requires ParseKey(key, maxDepth).Ok?
    ensures |ParseKey(key, maxDepth).value| == maxDepth + 1
    ensures ParseKey(key, maxDepth).value[maxDepth] == key[OpenIndex(key, maxDepth - 1)..]
  {
    var p := OpenIndex(key, maxDepth - 1);
    ParseKeyCapped(key, maxDepth, p);
    SegmentShape(key[..p]);
  }

  /** With a positive `maxDepth`, no key yields more than `maxDepth + 1` segments. */
  lemma ParseKeyDepthBound(key: string, maxDepth: int)
    requires maxDepth >= 1
    requires ParseKey(key, maxDepth).Ok?
    ensures |ParseKey(key, maxDepth).value| <= maxDepth + 1
  {
    if Count(key, '[') >= maxDepth {
      ParseKeyCappedShape(key, maxDepth);
    } else {
      ParseKeyUncapped(key, maxDepth);
      SegmentShape(key);
    }
  }

  /** The empty key is one empty segment, whatever the depth. */
  lemma ParseKeyEmpty(maxDepth: int)
    ensures ParseKey("", maxDepth) == Ok([""])
  {
    assert Scan("", maxDepth, Start) == Ok(Start.keys + [Start.cur]);
    assert [] + [""] == [""];
  }

  /** A key without brackets is a single segment. */
  lemma ExampleNoBrackets()
    ensures ParseKey("j", DefaultMaxDepth) == Ok(["j"])
  {
    assert "j"[1..] == "";
    assert "" + ['j'] == "j";
    assert Scan("j", 5, Start) == Scan("", 5, ScanState(false, "j", [], 0));
    assert [] + ["j"] == ["j"];
  }

  /** One bracket group gives two segments. */
  lemma ExampleOneGroup(x: char, y: char)
    requires !IsBracket(x) && !IsBracket(y)
    ensures ParseKey([x, '[', y, ']'], DefaultMaxDepth) == Ok([[x], [y]])
  {
    var k := [x, '[', y, ']'];
    assert k[1..] == ['[', y, ']'] && k[1..][1..] == [y, ']'] && k[1..][1..][1..] == [']'];
    assert [']'][1..] == [];
    assert "" + [x] == [x] && "" + [y] == [y];
    assert Scan(k, 5, Start) == Scan(['[', y, ']'], 5, ScanState(false, [x], [], 0));
    assert [] + [[x]] == [[x]];
    assert Scan(['[', y, ']'], 5, ScanState(false, [x], [], 0)) == Scan([y, ']'], 5, ScanState(true, "", [[x]], 1));
    assert Scan([y, ']'], 5, ScanState(true, "", [[x]], 1)) == Scan([']'], 5, ScanState(true, [y], [[x]], 1));
    assert Scan([']'], 5, ScanState(true, [y], [[x]], 1)) == Scan([], 5, ScanState(false, [y], [[x]], 1));
    assert [[x]] + [[y]] == [[x], [y]];
  }

  /** Text after `]` joins the next segment. */
  lemma ExampleTextAfterClose()
    ensures ParseKey("a[b]c", 0) == Ok(["a", "bc"])
  {
    assert "a[b]c"[1..] == "[b]c";
    assert "" + ['a'] == "a";
    assert Scan("a[b]c", 0, Start) == Scan("[b]c", 0, ScanState(false, "a", [], 0));
    assert [] + ["a"] == ["a"];
    assert "[b]c"[1..] == "b]c";
    assert Scan("[b]c", 0, ScanState(false, "a", [], 0)) == Scan("b]c", 0, ScanState(true, "", ["a"], 1));
    assert "b]c"[1..] == "]c";
    assert "" + ['b'] == "b";
    assert Scan("b]c", 0, ScanState(true, "", ["a"], 1)) == Scan("]c", 0, ScanState(true, "b", ["a"], 1));
    assert "]c"[1..] == "c";
    assert Scan("]c", 0, ScanState(true, "b", ["a"], 1)) == Scan("c", 0, ScanState(false, "b", ["a"], 1));
    assert "c"[1..] == "";
    assert "b" + ['c'] == "bc";
    assert Scan("c", 0, ScanState(false, "b", ["a"], 1)) == Scan("", 0, ScanState(false, "bc", ["a"], 1));
    assert ["a"] + ["bc"] == ["a", "bc"];
  }

  /** An unclosed `[` at the end is accepted. */
  lemma ExampleUnclosed()
    ensures ParseKey("a[b", 0) == Ok(["a", "b"])
  {
    assert "a[b"[1..] == "[b";
    assert "" + ['a'] == "a";
    assert Scan("a[b", 0, Start) == Scan("[b", 0, ScanState(false, "a", [], 0));
    assert [] + ["a"] == ["a"];
    assert "[b"[1..] == "b";
    assert Scan("[b", 0, ScanState(false, "a", [], 0)) == Scan("b", 0, ScanState(true, "", ["a"], 1));
    assert "b"[1..] == "";
    assert "" + ['b'] == "b";
    assert Scan("b", 0, ScanState(true, "", ["a"], 1)) == Scan("", 0, ScanState(true, "b", ["a"], 1));
    assert ["a"] + ["b"] == ["a", "b"];
  }

  /** The depth cap keeps the rest of the key, brackets and all. */
  lemma ExampleCapped()
    ensures ParseKey("a[b][c][d]", 2) == Ok(["a", "b", "[c][d]"])
  {
    assert "a[b][c][d]"[1..] == "[b][c][d]";
    assert "" + ['a'] == "a";
    assert Scan("a[b][c][d]", 2, Start) == Scan("[b][c][d]", 2, ScanState(false, "a", [], 0));
    assert [] + ["a"] == ["a"];
    assert "[b][c][d]"[1..] == "b][c][d]";
    assert Scan("[b][c][d]", 2, ScanState(false, "a", [], 0)) == Scan("b][c][d]", 2, ScanState(true, "", ["a"], 1));
    assert "b][c][d]"[1..] == "][c][d]";
    assert "" + ['b'] == "b";
    assert Scan("b][c][d]", 2, ScanState(true, "", ["a"], 1)) == Scan("][c][d]", 2, ScanState(true, "b", ["a"], 1));
    assert "][c][d]"[1..] == "[c][d]";
    assert Scan("][c][d]", 2, ScanState(true, "b", ["a"], 1)) == Scan("[c][d]", 2, ScanState(false, "b", ["a"], 1));
    assert ["a"] + ["b"] + ["[c][d]"] == ["a", "b", "[c][d]"];
  }

  /** An empty bracket group gives an empty last segment. */
  lemma ExampleEmptyGroup()
    ensures ParseKey("d[]", DefaultMaxDepth) == Ok(["d", ""])
  {
    assert "d[]"[1..] == "[]";
    assert "" + ['d'] == "d";
    assert Scan("d[]", 5, Start) == Scan("[]", 5, ScanState(false, "d", [], 0));
    assert [] + ["d"] == ["d"];
    assert "[]"[1..] == "]";
    assert Scan("[]", 5, ScanState(false, "d", [], 0)) == Scan("]", 5, ScanState(true, "", ["d"], 1));
    assert "]"[1..] == "";
    assert Scan("]", 5, ScanState(true, "", ["d"], 1)) == Scan("", 5, ScanState(false, "", ["d"], 1));
    assert ["d"] + [""] == ["d", ""];
  }

  /**
   * A nested `[` is rejected when the scan reaches it, but with `maxDepth` 1
   * the scan stops at the first `[` and the key is accepted.
   */
  lemma ExampleNested()
    ensures ParseKey("a[[b]", 0) == Err(InvalidQS)
    ensures ParseKey("a[[b]", DefaultMaxDepth) == Err(InvalidQS)
    ensures ParseKey("a[[b]", 1) == Ok(["a", "[[b]"])
  {
    assert "a[[b]"[1..] == "[[b]";
    assert "" + ['a'] == "a";
    assert [] + ["a"] == ["a"];
    assert "[[b]"[1..] == "[b]";
    forall d: int | d != 1
      ensures ParseKey("a[[b]", d) == Err(InvalidQS)
    {
      assert Scan("a[[b]", d, Start) == Scan("[[b]", d, ScanState(false, "a", [], 0));
      assert Scan("[[b]", d, ScanState(false, "a", [], 0)) == Scan("[b]", d, ScanState(true, "", ["a"], 1));
    }
    assert Scan("a[[b]", 1, Start) == Scan("[[b]", 1, ScanState(false, "a", [], 0));
    assert ["a"] + ["[[b]"] == ["a", "[[b]"];
  }

  /**
   * A stray `]` is rejected when the scan reaches it, but with `maxDepth` 1
   * the scan stops at the first `[` and the key is accepted.
   */
  lemma ExampleStray()
    ensures ParseKey("a[b]]", DefaultMaxDepth) == Err(InvalidQS)
    ensures ParseKey("a[b]]", 1) == Ok(["a", "[b]]"])
  {
    assert "a[b]]"[1..] == "[b]]";
    assert "" + ['a'] == "a";
    assert Scan("a[b]]", 1, Start) == Scan("[b]]", 1, ScanState(false, "a", [], 0));
    assert [] + ["a"] == ["a"];
    assert ["a"] + ["[b]]"] == ["a", "[b]]"];
    assert Scan("a[b]]", 5, Start) == Scan("[b]]", 5, ScanState(false, "a", [], 0));
    assert [] + ["a"] == ["a"];
    assert "[b]]"[1..] == "b]]";
    assert Scan("[b]]", 5, ScanState(false, "a", [], 0)) == Scan("b]]", 5, ScanState(true, "", ["a"], 1));
    assert "b]]"[1..] == "]]";
    assert "" + ['b'] == "b";
    assert Scan("b]]", 5, ScanState(true, "", ["a"], 1)) == Scan("]]", 5, ScanState(true, "b", ["a"], 1));
    assert "]]"[1..] == "]";
    assert Scan("]]", 5, ScanState(true, "b", ["a"], 1)) == Scan("]", 5, ScanState(false, "b", ["a"], 1));
  }

  // ---------------------------------------------------------------------
  // The loop of `parseKey`, over an index, as the source writes it
  // ---------------------------------------------------------------------

  /** The imperative scanner; it computes exactly `ParseKey`. */
  method ParseKeyLoop(key: string, maxDepth: int) returns (r: Result<seq<string>, ParseError>)
    ensures r == ParseKey(key, maxDepth)
  {
    var inBrackets := false;
    var cur: string := "";
    var keys: seq<string> := [];
    var depth: nat := 0;
    var i := 0;
    while i < |key|
      invariant 0 <= i <= |key|
      invariant Scan(key[i..], maxDepth, ScanState(inBrackets, cur, keys, depth)) == ParseKey(key, maxDepth)
      decreases |key| - i
    {
      var c := key[i];
      assert key[i..][0] == c && key[i..][1..] == key[i + 1..];
      if c == '[' && !inBrackets {
        inBrackets := true;
        keys := keys + [cur];
        cur := "";
        depth := depth + 1;
        if depth == maxDepth {
          cur := key[i..];
          break;
        }
      } else if c == ']' && inBrackets {
        inBrackets := false;
      } else if (c == '[' && inBrackets) || (c == ']' && !inBrackets) {
        return Err(InvalidQS);
      } else {
        cur := cur + [c];
      }
      i := i + 1;
    }
    keys := keys + [cur];
    return Ok(keys);
  }
}
