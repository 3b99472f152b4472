/**
 * The value tree of qs/qs.go (`node`): every node carries the path segment
 * it stands for, its value list and its children. Go keeps the children in
 * a map from segment to node; here they are a sequence with distinct keys
 * in insertion order, which is one of the orders Go's map iteration may
 * produce.
 */
module ValueTree {
  import opened Wrappers

  datatype Node<V> = Node(key: string, values: seq<V>, children: seq<Node<V>>)

  /** `newNode(key)`: no values, no children. */
  function NewNode<V>(key: string): (r: Node<V>)
    ensures r.key == key && r.values == [] && WellFormed(r)
    ensures forall seg :: Find(r.children, seg).None?
  {
    Node(key, [], [])
  }

  // ---------------------------------------------------------------------
  // Children as a map from segment to node
  // ---------------------------------------------------------------------

  /** The segments that have a child. */
  function Keys<V>(cs: seq<Node<V>>): set<string>
  {
    if |cs| == 0 then {} else {cs[0].key} + Keys(cs[1..])
  }

  /** No two children share a segment, as in a Go map. */
  predicate Distinct<V>(cs: seq<Node<V>>)
  {
    |cs| == 0 || (cs[0].key !in Keys(cs[1..]) && Distinct(cs[1..]))
  }

  /** `Children[seg]` with its `ok` flag. */
  function Find<V>(cs: seq<Node<V>>, seg: string): (r: Option<Node<V>>)
    ensures r.Some? <==> seg in Keys(cs)
    ensures r.Some? ==> r.value.key == seg && r.value in cs
  {
    if |cs| == 0 then None
    else if cs[0].key == seg then Some(cs[0])
    else Find(cs[1..], seg)
  }

  /**
   * `Children[c.Key] = c`: the child for `c.key` becomes `c` (replacing the
   * old one in place, or appended when there was none); every other
   * segment keeps its child.
   */
  function PutChild<V>(cs: seq<Node<V>>, c: Node<V>): (r: seq<Node<V>>)
    ensures Find(r, c.key) == Some(c)
    ensures forall seg :: seg != c.key ==> Find(r, seg) == Find(cs, seg)
    ensures Keys(r) == Keys(cs) + {c.key}
    ensures Distinct(cs) ==> Distinct(r)
    ensures forall x :: x in r ==> x in cs || x == c
  {
    if |cs| == 0 then [c]
    else if cs[0].key == c.key then [c] + cs[1..]
    else [cs[0]] + PutChild(cs[1..], c)
  }

  // ---------------------------------------------------------------------
  // Walking and updating
  // ---------------------------------------------------------------------

  /** The node at `path` below `n`, without creating anything. */
  function Lookup<V>(n: Node<V>, path: seq<string>): Option<Node<V>>
    decreases |path|
  {
    if |path| == 0 then Some(n)
    else match Find(n.children, path[0])
      case None => None
      case Some(c) => Lookup(c, path[1..])
  }

  /** The values at `path`, the empty list when there is no node there. */
  function ValuesAt<V>(n: Node<V>, path: seq<string>): seq<V>
  {
    match Lookup(n, path)
    case None => []
    case Some(m) => m.values
  }

  /** What `Set` and `Add` do to the terminal node's values. */
  datatype Edit<V> = Replace(vals: seq<V>) | Append(v: V)

  function Apply<V>(e: Edit<V>, current: seq<V>): seq<V>
  {
    match e
    case Replace(vals) => vals
    case Append(v) => current + [v]
  }

  /**
   * `navigate` followed by the edit: walk `path` from `n`, creating each
   * missing child with `newNode`, and edit the values of the node reached.
   */
  function Update<V>(n: Node<V>, path: seq<string>, e: Edit<V>): (r: Node<V>)
    ensures r.key == n.key
    ensures |path| > 0 ==> r.values == n.values
    decreases |path|
  {
    if |path| == 0 then n.(values := Apply(e, n.values))
    else
      var c := match Find(n.children, path[0]) case Some(c) => c case None => NewNode(path[0]);
      n.(children := PutChild(n.children, Update(c, path[1..], e)))
  }

  /** Every node's children have distinct segments. */
  predicate WellFormed<V>(n: Node<V>)
    decreases n
  {
    Distinct(n.children) && forall i :: 0 <= i < |n.children| ==> WellFormed(n.children[i])
  }

  predicate IsPrefix(p: seq<string>, q: seq<string>)
  {
    |p| <= |q| && q[..|p|] == p
  }

  // ---------------------------------------------------------------------
  // What an update does, path by path
  // ---------------------------------------------------------------------

  /** A fresh node has nothing below it. */
  lemma NewNodeEmpty<V>(key: string, path: seq<string>)
    ensures ValuesAt(NewNode<V>(key), path) == []
    ensures Lookup(NewNode<V>(key), path).Some? <==> |path| == 0
  {
  }

  /** The child an update walks into: the existing one, or a new node. */
  function Next<V>(n: Node<V>, seg: string): Node<V>
  {
    match Find(n.children, seg) case Some(c) => c case None => NewNode(seg)
  }

  lemma NextValues<V>(n: Node<V>, seg: string, rest: seq<string>)
    ensures ValuesAt(n, [seg] + rest) == ValuesAt(Next(n, seg), rest)
  {
    assert ([seg] + rest)[0] == seg && ([seg] + rest)[1..] == rest;
    if Find(n.children, seg).None? {
      NewNodeEmpty<V>(seg, rest);
    }
  }

  /** After the update, the values at `path` are the edit applied to the old ones. */
  lemma {:induction false} UpdateHere<V>(n: Node<V>, path: seq<string>, e: Edit<V>)
    ensures ValuesAt(Update(n, path, e), path) == Apply(e, ValuesAt(n, path))
    decreases |path|
  {
    if |path| > 0 {
      var c := Next(n, path[0]);
      UpdateHere(c, path[1..], e);
      assert path == [path[0]] + path[1..];
      NextValues(n, path[0], path[1..]);
      NextValues(Update(n, path, e), path[0], path[1..]);
    }
  }

  /** The values at a non-empty path are those below the child its first segment names. */
  lemma ValuesStep<V>(n: Node<V>, q: seq<string>)
    requires |q| > 0
    ensures ValuesAt(n, q) == ValuesAt(Next(n, q[0]), q[1..])
  {
    assert q == [q[0]] + q[1..];
    NextValues(n, q[0], q[1..]);
  }

  /** Two different paths with the same first segment differ after it. */
  lemma TailsDiffer(p: seq<string>, q: seq<string>)
    requires |p| > 0 && |q| > 0 && p[0] == q[0] && p != q
    ensures p[1..] != q[1..]
  {
    assert p == [p[0]] + p[1..] && q == [q[0]] + q[1..];
  }

  /** The update changes the values at no other path. */
  lemma {:induction false} UpdateElsewhere<V>(n: Node<V>, path: seq<string>, e: Edit<V>, other: seq<string>)
    requires other != path
    ensures ValuesAt(Update(n, path, e), other) == ValuesAt(n, other)
    decreases |path|
  {
    if |path| > 0 && |other| > 0 {
      ValuesStep(n, other);
      ValuesStep(Update(n, path, e), other);
      if other[0] == path[0] {
        TailsDiffer(other, path);
        UpdateElsewhere(Next(n, path[0]), path[1..], e, other[1..]);
      }
    }
  }

  /** A non-empty path is a prefix of another when the first segments agree and the rests are prefixes. */
  lemma PrefixCons(q: seq<string>, path: seq<string>)
    requires |q| > 0 && |path| > 0
    ensures IsPrefix(q, path) <==> q[0] == path[0] && IsPrefix(q[1..], path[1..])
  {
    if |q| <= |path| {
      assert path[..|q|] == [path[0]] + path[1..][..|q| - 1];
      assert q == [q[0]] + q[1..];
    }
  }

  /** After the update, a node exists at `q` exactly when one did before or `q` lies on `path`. */
  lemma {:induction false} UpdateNodes<V>(n: Node<V>, path: seq<string>, e: Edit<V>, q: seq<string>)
    ensures Lookup(Update(n, path, e), q).Some? <==> Lookup(n, q).Some? || IsPrefix(q, path)
    decreases |path|
  {
    if |path| > 0 && |q| > 0 {
      PrefixCons(q, path);
      if q[0] == path[0] {
        UpdateNodes(Next(n, path[0]), path[1..], e, q[1..]);
        if Find(n.children, path[0]).None? {
          NewNodeEmpty<V>(path[0], q[1..]);
        }
      }
    }
  }

  /** Updates keep every node's children distinct. */
  lemma {:induction false} UpdateWellFormed<V>(n: Node<V>, path: seq<string>, e: Edit<V>)
    requires WellFormed(n)
    ensures WellFormed(Update(n, path, e))
    decreases |path|
  {
    if |path| > 0 {
      var c := Next(n, path[0]);
      assert WellFormed(c) by {
        if Find(n.children, path[0]).Some? {
          var j :| 0 <= j < |n.children| && n.children[j] == c;
        }
      }
      UpdateWellFormed(c, path[1..], e);
      var c' := Update(c, path[1..], e);
      var cs := PutChild(n.children, c');
      forall i | 0 <= i < |cs|
        ensures WellFormed(cs[i])
      {
        assert cs[i] in cs;
        if cs[i] != c' {
          var j :| 0 <= j < |n.children| && n.children[j] == cs[i];
        }
      }
    }
  }
}
