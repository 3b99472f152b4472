/**
 * `String` and `EncodedString` (`print` in qs/qs.go): the tree written back
 * as `key=value` tokens joined with `&`, keys in bracket form.
 *
 * `print` is parameterised by two string functions: `fmt`, applied to a
 * key, and `show`, applied to a value. `String` uses the identity for keys
 * and `%v` for values; `EncodedString` applies `url.QueryEscape` to both.
 * Neither `%v` nor `url.QueryEscape` is part of this model: they stay
 * parameters. The library iterates a Go map for the children, whose order
 * is unspecified; the model prints them in the order of the child
 * sequence, and what it proves about the output is stated as a multiset of
 * tokens, which does not depend on that order.
 */
module Serialize {
  import opened Wrappers
  import opened Strs
  import opened KeyParser
  import opened ValueTree

  // ---------------------------------------------------------------------
  // The printer
  // ---------------------------------------------------------------------

  /** The key `print` builds for a node: the segment alone at the top, `acc[seg]` below. */
  function KeyFor(acc: string, seg: string): string
  {
    if acc == "" then seg else acc + "[" + seg + "]"
  }

  /** One `key=value` token. */
  function Token<V>(fmt: string -> string, show: V -> string, key: string, v: V): string
  {
    fmt(key) + "=" + show(v)
  }

  /** The tokens for the values of one node, in order. */
  function ValueTokens<V>(fmt: string -> string, show: V -> string, key: string, vals: seq<V>): seq<string>
  {
    seq(|vals|, i requires 0 <= i < |vals| => Token(fmt, show, key, vals[i]))
  }

  /**
   * `print(acc, n, encode)`: the value tokens of `n` followed by the strings
   * of its children, joined with `&`.
   */
  function Print<V>(fmt: string -> string, show: V -> string, acc: string, n: Node<V>): (r: string)
    ensures n.values == [] && n.children == [] ==> r == ""
    ensures |n.values| > 0 ==> Token(fmt, show, KeyFor(acc, n.key), n.values[0]) <= r
    decreases n
  {
    var key := KeyFor(acc, n.key);
    var s := ValueTokens(fmt, show, key, n.values);
    if |n.children| == 0 then Join(s, "&")
    else Join(s + PrintEach(fmt, show, key, n.children), "&")
  }

  /** `print` of each child, in order. */
  function PrintEach<V>(fmt: string -> string, show: V -> string, key: string, cs: seq<Node<V>>): (r: seq<string>)
    ensures |r| == |cs|
    decreases cs
  {
    if |cs| == 0 then [] else [Print(fmt, show, key, cs[0])] + PrintEach(fmt, show, key, cs[1..])
  }

  /** `String()`: `print("", root, false)`. */
  function String<V>(show: V -> string, root: Node<V>): (r: string)
    ensures root.values == [] && root.children == [] ==> r == ""
    ensures |root.values| > 0 ==> root.key + "=" + show(root.values[0]) <= r
  {
    Print(s => s, show, "", root)
  }

  /** `EncodedString()`: `print("", root, true)`, with `esc` standing for `url.QueryEscape`. */
  function EncodedString<V>(esc: string -> string, show: V -> string, root: Node<V>): (r: string)
    ensures root.values == [] && root.children == [] ==> r == ""
    ensures |root.values| > 0 ==> esc(root.key) + "=" + esc(show(root.values[0])) <= r
  {
    Print(esc, v => esc(show(v)), "", root)
  }

  // ---------------------------------------------------------------------
  // The reference description: keys from paths, tokens as a multiset
  // ---------------------------------------------------------------------

  /**
   * The key printed for the node at `path`, counted from the root segment:
   * `KeyFor` folded over the path.
   */
  function BracketKey(path: seq<string>): string
    decreases |path|
  {
    if |path| == 0 then "" else KeyFor(BracketKey(path[..|path| - 1]), path[|path| - 1])
  }

  /** `[s]` for each segment, laid end to end. */
  function Bracketed(segs: seq<string>): string
    decreases |segs|
  {
    if |segs| == 0 then "" else Bracketed(segs[..|segs| - 1]) + "[" + segs[|segs| - 1] + "]"
  }

  /**
   * One token per value stored in the subtree of `n`, where `prefix` is the
   * path of `n`'s parent and each key is `BracketKey` of the value's path.
   */
  function Tokens<V>(fmt: string -> string, show: V -> string, prefix: seq<string>, n: Node<V>): multiset<string>
    decreases n
  {
    var path := prefix + [n.key];
    multiset(ValueTokens(fmt, show, BracketKey(path), n.values)) + TokensEach(fmt, show, path, n.children)
  }

  function TokensEach<V>(fmt: string -> string, show: V -> string, prefix: seq<string>, cs: seq<Node<V>>): multiset<string>
    decreases cs
  {
    if |cs| == 0 then multiset{} else Tokens(fmt, show, prefix, cs[0]) + TokensEach(fmt, show, prefix, cs[1..])
  }

  /** The non-empty pieces, as a multiset. */
  function NonEmpty(xs: seq<string>): multiset<string>
  {
    if |xs| == 0 then multiset{}
    else (if xs[0] == "" then multiset{} else multiset{xs[0]}) + NonEmpty(xs[1..])
  }

  /** Each string split on `c`, the pieces laid end to end. */
  function SplitAll(xs: seq<string>, c: char): seq<string>
  {
    if |xs| == 0 then [] else Split(xs[0], [c]) + SplitAll(xs[1..], c)
  }

  // ---------------------------------------------------------------------
  // Steps
  // ---------------------------------------------------------------------

  lemma NonEmptyAppend(xs: seq<string>, ys: seq<string>)
    ensures NonEmpty(xs + ys) == NonEmpty(xs) + NonEmpty(ys)
  {
    if |xs| == 0 {
      assert xs + ys == ys;
    } else {
      assert (xs + ys)[1..] == xs[1..] + ys;
      NonEmptyAppend(xs[1..], ys);
    }
  }

  lemma SplitAllAppend(xs: seq<string>, ys: seq<string>, c: char)
    ensures SplitAll(xs + ys, c) == SplitAll(xs, c) + SplitAll(ys, c)
  {
    if |xs| == 0 {
      assert xs + ys == ys;
    } else {
      assert (xs + ys)[1..] == xs[1..] + ys;
      SplitAllAppend(xs[1..], ys, c);
    }
  }

  /** Splitting a join splits each piece. */
  lemma {:induction false} SplitJoinAll(xs: seq<string>, c: char)
    requires |xs| >= 1
    ensures Split(Join(xs, [c]), [c]) == SplitAll(xs, c)
    decreases |xs|
  {
    if |xs| == 1 {
      assert SplitAll(xs[1..], c) == [];
    } else {
      SplitJoinAll(xs[1..], c);
      SplitAround(xs[0], Join(xs[1..], [c]), c);
    }
  }

  /** Non-empty strings without `c` come back whole and are all kept. */
  lemma {:induction false} SplitAllAbsent(xs: seq<string>, c: char)
    requires forall i :: 0 <= i < |xs| ==> c !in xs[i] && xs[i] != ""
    ensures NonEmpty(SplitAll(xs, c)) == multiset(xs)
    decreases |xs|
  {
    if |xs| > 0 {
      SplitAllAbsent(xs[1..], c);
      SplitAbsent(xs[0], c);
      NonEmptyAppend([xs[0]], SplitAll(xs[1..], c));
      assert xs == [xs[0]] + xs[1..];
    }
  }

  // ---------------------------------------------------------------------
  // The printed string holds exactly the tokens
  // ---------------------------------------------------------------------

  /**
   * Split on `&`, the output of `print` for the node below `prefix` has as
   * its non-empty pieces exactly the tokens of the subtree, each as often
   * as its value is stored, provided no token contains `&`.
   */
  lemma {:induction false} PrintTokens<V>(fmt: string -> string, show: V -> string, prefix: seq<string>, n: Node<V>)
    requires forall t :: t in Tokens(fmt, show, prefix, n) ==> '&' !in t
    ensures NonEmpty(Split(Print(fmt, show, BracketKey(prefix), n), "&")) == Tokens(fmt, show, prefix, n)
    decreases n, 1
  {
    var path := prefix + [n.key];
    assert path[..|path| - 1] == prefix;
    var key := BracketKey(path);
    var s := ValueTokens(fmt, show, key, n.values);
    var rest := PrintEach(fmt, show, key, n.children);
    var xs := s + rest;
    assert Tokens(fmt, show, prefix, n) == multiset(s) + TokensEach(fmt, show, path, n.children);
    forall i | 0 <= i < |s|
      ensures '&' !in s[i] && s[i] != ""
    {
      assert s[i] in multiset(s);
      assert '=' in s[i];
    }
    PrintEachTokens(fmt, show, path, n.children);
    if |n.children| == 0 {
      assert xs == s;
    }
    if |xs| == 0 {
      assert Split("", "&") == [""];
      assert multiset(s) == multiset{};
    } else {
      SplitJoinAll(xs, '&');
      SplitAllAppend(s, rest, '&');
      NonEmptyAppend(SplitAll(s, '&'), SplitAll(rest, '&'));
      SplitAllAbsent(s, '&');
    }
  }

  lemma {:induction false} PrintEachTokens<V>(fmt: string -> string, show: V -> string, prefix: seq<string>, cs: seq<Node<V>>)
    requires forall t :: t in TokensEach(fmt, show, prefix, cs) ==> '&' !in t
    ensures NonEmpty(SplitAll(PrintEach(fmt, show, BracketKey(prefix), cs), '&')) == TokensEach(fmt, show, prefix, cs)
    decreases cs, 0
  {
    if |cs| > 0 {
      var key := BracketKey(prefix);
      var ps := PrintEach(fmt, show, key, cs);
      assert ps[1..] == PrintEach(fmt, show, key, cs[1..]);
      assert SplitAll(ps, '&') == Split(ps[0], "&") + SplitAll(ps[1..], '&');
      NonEmptyAppend(Split(ps[0], "&"), SplitAll(ps[1..], '&'));
      PrintTokens(fmt, show, prefix, cs[0]);
      PrintEachTokens(fmt, show, prefix, cs[1..]);
    }
  }

  /** `String()`: the non-empty `&`-pieces are the tokens of the tree. */
  lemma StringTokens<V>(show: V -> string, root: Node<V>)
    requires forall t :: t in Tokens(s => s, show, [], root) ==> '&' !in t
    ensures NonEmpty(Split(String(show, root), "&")) == Tokens(s => s, show, [], root)
  {
    PrintTokens(s => s, show, [], root);
  }

  // ---------------------------------------------------------------------
  // Which tokens: one per stored value
  // ---------------------------------------------------------------------

  lemma TokensEachMember<V>(fmt: string -> string, show: V -> string, prefix: seq<string>, cs: seq<Node<V>>, c: Node<V>, t: string)
    requires c in cs && t in Tokens(fmt, show, prefix, c)
    ensures t in TokensEach(fmt, show, prefix, cs)
  {
    if cs[0] != c {
      TokensEachMember(fmt, show, prefix, cs[1..], c, t);
    }
  }

  /**
   * Every value stored at `p` below `n` gives the token for the key of its
   * path.
   */
  lemma {:induction false} TokenComplete<V>(fmt: string -> string, show: V -> string, prefix: seq<string>, n: Node<V>, p: seq<string>, i: nat)
    requires i < |ValuesAt(n, p)|
    ensures Token(fmt, show, BracketKey(prefix + [n.key] + p), ValuesAt(n, p)[i]) in Tokens(fmt, show, prefix, n)
    decreases |p|
  {
    var path := prefix + [n.key];
    if |p| == 0 {
      assert path + p == path;
      var s := ValueTokens(fmt, show, BracketKey(path), n.values);
      assert s[i] in multiset(s);
    } else {
      var c := Find(n.children, p[0]).value;
      assert ValuesAt(n, p) == ValuesAt(c, p[1..]);
      TokenComplete(fmt, show, path, c, p[1..], i);
      assert path + [c.key] + p[1..] == prefix + [n.key] + p;
      TokensEachMember(fmt, show, path, n.children, c, Token(fmt, show, BracketKey(prefix + [n.key] + p), ValuesAt(n, p)[i]));
    }
  }

  /** In distinct children, a child is the one found for its own segment. */
  lemma FindMember<V>(cs: seq<Node<V>>, c: Node<V>)
    requires Distinct(cs) && c in cs
    ensures Find(cs, c.key) == Some(c)
  {
    if cs[0] != c {
      assert c in cs[1..];
      if cs[0].key == c.key {
        KeysMember(cs[1..], c);
        assert false;
      }
      FindMember(cs[1..], c);
    }
  }

  lemma KeysMember<V>(cs: seq<Node<V>>, c: Node<V>)
    requires c in cs
    ensures c.key in Keys(cs)
  {
    if cs[0] != c {
      KeysMember(cs[1..], c);
    }
  }

  /**
   * Every token of a well-formed subtree is the token of a value stored
   * below it, keyed by that value's path.
   */
  lemma TokenSound<V>(fmt: string -> string, show: V -> string, prefix: seq<string>, n: Node<V>, t: string)
    requires WellFormed(n)
    requires t in Tokens(fmt, show, prefix, n)
    ensures exists p: seq<string>, i: nat :: i < |ValuesAt(n, p)|
              && t == Token(fmt, show, BracketKey(prefix + [n.key] + p), ValuesAt(n, p)[i])
  {
    var p, i := TokenOrigin(fmt, show, prefix, n, t);
  }

  /** The path and the position of the value a token comes from. */
  lemma {:induction false} TokenOrigin<V>(fmt: string -> string, show: V -> string, prefix: seq<string>, n: Node<V>, t: string)
    returns (p: seq<string>, i: nat)
    requires WellFormed(n)
    requires t in Tokens(fmt, show, prefix, n)
    ensures i < |ValuesAt(n, p)|
    ensures t == Token(fmt, show, BracketKey(prefix + [n.key] + p), ValuesAt(n, p)[i])
    decreases n
  {
    var path := prefix + [n.key];
    var s := ValueTokens(fmt, show, BracketKey(path), n.values);
    if t in multiset(s) {
      i :| 0 <= i < |s| && s[i] == t;
      p := [];
      assert path + p == path;
      assert ValuesAt(n, p) == n.values;
    } else {
      var c := TokenSoundEach(fmt, show, path, n.children, t);
      var k := IndexOf(n.children, c);
      assert WellFormed(n.children[k]);
      var p';
      p', i := TokenOrigin(fmt, show, path, n.children[k], t);
      LiftWitness(fmt, show, prefix, n, c, p', i, t);
      p := [c.key] + p';
    }
  }

  /** A value stored at `p'` below a child is stored at the child's segment followed by `p'`. */
  lemma LiftWitness<V>(fmt: string -> string, show: V -> string, prefix: seq<string>, n: Node<V>, c: Node<V>,
                       p': seq<string>, i: nat, t: string)
    requires Distinct(n.children) && c in n.children
    requires i < |ValuesAt(c, p')|
    requires t == Token(fmt, show, BracketKey(prefix + [n.key] + [c.key] + p'), ValuesAt(c, p')[i])
    ensures i < |ValuesAt(n, [c.key] + p')|
    ensures t == Token(fmt, show, BracketKey(prefix + [n.key] + ([c.key] + p')), ValuesAt(n, [c.key] + p')[i])
  {
    var p := [c.key] + p';
    FindMember(n.children, c);
    assert p[1..] == p';
    assert ValuesAt(n, p) == ValuesAt(c, p');
    assert prefix + [n.key] + [c.key] + p' == prefix + [n.key] + p;
  }

  ghost function IndexOf<V>(cs: seq<Node<V>>, c: Node<V>): (k: nat)
    requires c in cs
    ensures k < |cs| && cs[k] == c
  {
    if cs[0] == c then 0 else 1 + IndexOf(cs[1..], c)
  }

  /** A token of the children's multiset comes from one child. */
  lemma {:induction false} TokenSoundEach<V>(fmt: string -> string, show: V -> string, prefix: seq<string>, cs: seq<Node<V>>, t: string)
    returns (c: Node<V>)
    requires t in TokensEach(fmt, show, prefix, cs)
    ensures c in cs && t in Tokens(fmt, show, prefix, c)
    decreases cs
  {
    if t in Tokens(fmt, show, prefix, cs[0]) {
      c := cs[0];
    } else {
      c := TokenSoundEach(fmt, show, prefix, cs[1..], t);
    }
  }

  // ---------------------------------------------------------------------
  // Printed keys parse back to their path
  // ---------------------------------------------------------------------

  /** The empty root segment prints as nothing. */
  lemma {:induction false} BracketKeyRoot(p: seq<string>)
    ensures BracketKey([""] + p) == BracketKey(p)
    decreases |p|
  {
    if |p| > 0 {
      var q := [""] + p;
      assert q[..|q| - 1] == [""] + p[..|p| - 1];
      assert q[|q| - 1] == p[|p| - 1];
      BracketKeyRoot(p[..|p| - 1]);
    } else {
      assert ([""] + p)[..0] == [];
    }
  }

  /**
   * The key of a path whose first segment is not empty: that segment, then
   * `[s]` for each further segment.
   */
  lemma {:induction false} BracketKeyForm(p: seq<string>)
    requires |p| >= 1 && p[0] != ""
    ensures BracketKey(p) == p[0] + Bracketed(p[1..])
    decreases |p|
  {
    if |p| == 1 {
      assert p[..0] == [];
    } else {
      var init := p[..|p| - 1];
      BracketKeyForm(init);
      assert init[0] == p[0];
      assert init[1..] == p[1..][..|p[1..]| - 1];
      assert BracketKey(init) != "" by { assert |BracketKey(init)| >= |p[0]|; }
    }
  }

  predicate NoBrackets(s: string)
  {
    '[' !in s && ']' !in s
  }

  /** The brackets of `Bracketed(q)`: `[]` once per segment. */
  lemma {:induction false} BracketedBrackets(q: seq<string>)
    requires forall i :: 0 <= i < |q| ==> NoBrackets(q[i])
    ensures |Brackets(Bracketed(q))| == 2 * |q|
    ensures Alternates(Brackets(Bracketed(q)))
    decreases |q|
  {
    if |q| > 0 {
      var init := q[..|q| - 1];
      var last := q[|q| - 1];
      BracketedBrackets(init);
      var b := Brackets(Bracketed(init));
      BracketsAppend(Bracketed(init) + "[" + last, "]");
      BracketsAppend(Bracketed(init) + "[", last);
      BracketsAppend(Bracketed(init), "[");
      NoBracketsNone(last);
      assert Brackets("[") == "[" by { assert "["[1..] == ""; }
      assert Brackets("]") == "]" by { assert "]"[1..] == ""; }
      var b' := Brackets(Bracketed(q));
      assert b' == b + "[" + "]";
      forall k | 0 <= k < |b'|
        ensures b'[k] == (if (k % 2 == 0) != false then '[' else ']')
      {
        if k < |b| {
          assert b'[k] == b[k];
        }
      }
    }
  }

  lemma NoBracketsNone(s: string)
    requires NoBrackets(s)
    ensures Brackets(s) == ""
  {
    if |s| > 0 {
      assert !IsBracket(s[0]);
      NoBracketsNone(s[1..]);
    }
  }

  /** `Bracketed(q)` has one `[` per segment. */
  lemma {:induction false} BracketedCount(q: seq<string>)
    requires forall i :: 0 <= i < |q| ==> NoBrackets(q[i])
    ensures Count(Bracketed(q), '[') == |q|
    decreases |q|
  {
    if |q| > 0 {
      var init := q[..|q| - 1];
      var last := q[|q| - 1];
      BracketedCount(init);
      CountAppend(Bracketed(init) + "[" + last, "]", '[');
      CountAppend(Bracketed(init) + "[", last, '[');
      CountAppend(Bracketed(init), "[", '[');
      CountAbsent(last, '[');
      assert Count("]", '[') == 0 by { assert "]"[1..] == ""; }
      assert Count("[", '[') == 1 by { assert "["[1..] == ""; }
    }
  }

  lemma DropStep(x: string, last: string)
    requires NoBrackets(last)
    ensures Drop(x + "[" + last + "]", ']') == Drop(x, ']') + "[" + last
  {
    assert x + "[" + last + "]" == x + ("[" + last) + "]";
    DropAppend(x + ("[" + last), "]", ']');
    DropAppend(x, "[" + last, ']');
    DropAbsent("[" + last, ']');
    assert Drop("]", ']') == "" by { assert "]"[1..] == ""; }
    assert Drop(x, ']') + ("[" + last) == Drop(x, ']') + "[" + last;
  }

  /** Dropping `]` from `head` followed by `Bracketed(q)` joins the segments with `[`. */
  lemma {:induction false} BracketedDrop(head: string, q: seq<string>)
    requires NoBrackets(head)
    requires forall i :: 0 <= i < |q| ==> NoBrackets(q[i])
    ensures Drop(head + Bracketed(q), ']') == Join([head] + q, "[")
    decreases |q|
  {
    if |q| == 0 {
      assert head + "" == head;
      DropAbsent(head, ']');
    } else {
      var init := q[..|q| - 1];
      var last := q[|q| - 1];
      BracketedDrop(head, init);
      var x := head + Bracketed(init);
      assert head + Bracketed(q) == x + "[" + last + "]";
      DropStep(x, last);
      JoinSnoc([head] + init, last, "[");
      assert [head] + q == ([head] + init) + [last];
    }
  }

  /**
   * A printed key parses back to its path when the first segment is not
   * empty, no segment holds a bracket, and the depth limit leaves room for
   * every segment.
   */
  lemma KeyRoundTrip(p: seq<string>, maxDepth: int)
    requires |p| >= 1 && p[0] != ""
    requires forall i :: 0 <= i < |p| ==> NoBrackets(p[i])
    requires maxDepth <= 0 || |p| <= maxDepth
    ensures ParseKey(BracketKey(p), maxDepth) == Ok(p)
  {
    BracketKeyForm(p);
    var q := p[1..];
    forall i | 0 <= i < |q| ensures NoBrackets(q[i]) { assert q[i] == p[i + 1]; }
    KeyBrackets(p[0], q);
    ParseKeyUncapped(BracketKey(p), maxDepth);
    KeySegments(p[0], q);
    assert [p[0]] + q == p;
  }

  /** A bracketed key has one `[` per bracketed segment, and its brackets alternate. */
  lemma KeyBrackets(head: string, q: seq<string>)
    requires NoBrackets(head)
    requires forall i :: 0 <= i < |q| ==> NoBrackets(q[i])
    ensures Count(head + Bracketed(q), '[') == |q|
    ensures Alternates(Brackets(head + Bracketed(q)))
  {
    BracketedCount(q);
    CountAppend(head, Bracketed(q), '[');
    CountAbsent(head, '[');
    BracketedBrackets(q);
    BracketsAppend(head, Bracketed(q));
    NoBracketsNone(head);
    assert Brackets(head + Bracketed(q)) == Brackets(Bracketed(q));
  }

  /** The segments of a bracketed key are its head and the bracketed segments. */
  lemma KeySegments(head: string, q: seq<string>)
    requires NoBrackets(head)
    requires forall i :: 0 <= i < |q| ==> NoBrackets(q[i])
    ensures Segments(head + Bracketed(q)) == [head] + q
  {
    BracketedDrop(head, q);
    forall i | 0 <= i < |[head] + q| ensures '[' !in ([head] + q)[i] {
      if i > 0 {
        assert ([head] + q)[i] == q[i - 1];
      }
    }
    SplitJoin([head] + q, '[');
  }

  // ---------------------------------------------------------------------
  // Consequences for String and EncodedString
  // ---------------------------------------------------------------------

  /** When neither the key nor the value function outputs `&`, no token holds one. */
  lemma {:induction false} TokensFree<V>(fmt: string -> string, show: V -> string, prefix: seq<string>, n: Node<V>, t: string)
    requires forall k :: '&' !in fmt(k)
    requires forall v :: '&' !in show(v)
    requires t in Tokens(fmt, show, prefix, n)
    ensures '&' !in t
    decreases n
  {
    var path := prefix + [n.key];
    var s := ValueTokens(fmt, show, BracketKey(path), n.values);
    if t in multiset(s) {
      var i :| 0 <= i < |s| && s[i] == t;
      assert t == fmt(BracketKey(path)) + "=" + show(n.values[i]);
    } else {
      var c := TokenSoundEach(fmt, show, path, n.children, t);
      var k := IndexOf(n.children, c);
      TokensFree(fmt, show, path, n.children[k], t);
    }
  }

  /**
   * `EncodedString()`: with an escape that never outputs `&` (as
   * `url.QueryEscape` escapes it), the non-empty `&`-pieces are exactly the
   * escaped tokens, whatever the keys and values hold.
   */
  lemma EncodedTokens<V>(esc: string -> string, show: V -> string, root: Node<V>)
    requires forall k :: '&' !in esc(k)
    ensures NonEmpty(Split(EncodedString(esc, show, root), "&")) == Tokens(esc, v => esc(show(v)), [], root)
  {
    var showE := v => esc(show(v));
    forall t | t in Tokens(esc, showE, [], root)
      ensures '&' !in t
    {
      TokensFree(esc, showE, [], root, t);
    }
    PrintTokens(esc, showE, [], root);
  }

  /**
   * `String()` prints each value stored below a root with the empty key as
   * `key=value`, and the key parses back to the value's path when its first
   * segment is not empty, no segment holds a bracket and the depth limit
   * leaves room for every segment.
   */
  lemma StoredValuePrinted<V>(show: V -> string, root: Node<V>, p: seq<string>, i: nat, maxDepth: int)
    requires root.key == ""
    requires i < |ValuesAt(root, p)|
    requires |p| >= 1 && p[0] != ""
    requires forall j :: 0 <= j < |p| ==> NoBrackets(p[j])
    requires maxDepth <= 0 || |p| <= maxDepth
    ensures BracketKey(p) + "=" + show(ValuesAt(root, p)[i]) in Tokens(s => s, show, [], root)
    ensures ParseKey(BracketKey(p), maxDepth) == Ok(p)
  {
    TokenComplete(s => s, show, [], root, p, i);
    assert [] + [root.key] + p == [""] + p;
    BracketKeyRoot(p);
    KeyRoundTrip(p, maxDepth);
  }

  /** The tree of `a[b]=c` prints back as `a[b]=c`. */
  lemma ExampleString()
    ensures String(s => s, Node("", [], [Node("a", [], [Node("b", ["c"], [])])])) == "a[b]=c"
  {
    var b := Node("b", ["c"], []);
    var a := Node("a", [], [b]);
    var show := (s: string) => s;
    assert KeyFor("a", "b") == "a[b]";
    assert Token(show, show, "a[b]", "c") == "a[b]=c";
    var vt := ValueTokens(show, show, "a[b]", b.values);
    assert |vt| == 1 && vt[0] == "a[b]=c";
    assert vt == ["a[b]=c"];
    assert Print(show, show, "a", b) == "a[b]=c";
    assert PrintEach(show, show, "a", a.children) == ["a[b]=c"];
    assert ValueTokens(show, show, "a", a.values) == [];
    assert [] + ["a[b]=c"] == ["a[b]=c"];
    assert Print(show, show, "", a) == "a[b]=c";
  }
}
