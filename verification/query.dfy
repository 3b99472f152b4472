/**
 * The `QS` container of qs/qs.go and its path-based operations: `Set`,
 * `Add`, `Get`, `GetAll`, the `WithDefault` variants, and the insertion
 * loop of `New`. Locking is left out: every operation is one pure step.
 */
module Query {
  import opened Wrappers
  import opened Strs
  import opened KeyParser
  import opened ValueTree

  /** The construction options: `MaxDepth` and `PathDelimiter`. */
  datatype Config = Config(maxDepth: int, pathDelimiter: string)

  /** Depth 5 and no delimiter. */
  const Defaults: Config := Config(DefaultMaxDepth, "")

  /** The container: the raw query, the root placeholder, and the options. */
  datatype QS<V> = QS(rawQuery: string, root: Node<V>, maxDepth: int, pathDelimiter: string)

  /** The root is the placeholder node: key `""`, no values, distinct children throughout. */
  predicate Valid<V>(q: QS<V>)
  {
    q.root.key == "" && q.root.values == [] && WellFormed(q.root)
  }

  /**
   * The path an operation walks: with a delimiter configured, the first
   * argument split on it (the other arguments are ignored); otherwise the
   * arguments themselves.
   */
  function Resolve<V>(q: QS<V>, path: seq<string>): (p: seq<string>)
    ensures |path| > 0 ==> |p| > 0
    ensures q.pathDelimiter == "" || |path| == 0 ==> p == path
    ensures q.pathDelimiter != "" && |path| > 0 ==> Join(p, q.pathDelimiter) == path[0]
    ensures |q.pathDelimiter| == 1 && |path| > 0 ==>
              forall i :: 0 <= i < |p| ==> q.pathDelimiter[0] !in p[i]
  {
    if q.pathDelimiter != "" && |path| > 0 then
      JoinSplit(path[0], q.pathDelimiter);
      if |q.pathDelimiter| == 1 then
        assert q.pathDelimiter == [q.pathDelimiter[0]];
        SplitPiecesFree(path[0], q.pathDelimiter[0]);
        Split(path[0], q.pathDelimiter)
      else Split(path[0], q.pathDelimiter)
    else path
  }

  /** `navigate`'s first step: a trailing `""` segment is dropped, once. */
  function Strip(path: seq<string>): seq<string>
    requires |path| > 0
  {
    if path[|path| - 1] == "" then path[..|path| - 1] else path
  }

  /** `navigate` plus the edit; a path that is empty once stripped changes nothing. */
  function Edit<V>(q: QS<V>, path: seq<string>, e: Edit<V>): QS<V>
    requires |path| > 0
  {
    var p := Strip(Resolve(q, path));
    if |p| == 0 then q else q.(root := Update(q.root, p, e))
  }

  /** `Set(vals, path...)`: the values at the path become `vals`. */
  function Set<V>(q: QS<V>, vals: seq<V>, path: seq<string>): (r: QS<V>)
    requires |path| > 0
    ensures r.rawQuery == q.rawQuery && r.maxDepth == q.maxDepth && r.pathDelimiter == q.pathDelimiter
    ensures r.root.key == q.root.key && r.root.values == q.root.values
  {
    Edit(q, path, Replace(vals))
  }

  /** `Add(val, path...)`: `val` is appended to the values at the path. */
  function Add<V>(q: QS<V>, val: V, path: seq<string>): (r: QS<V>)
    requires |path| > 0
    ensures r.rawQuery == q.rawQuery && r.maxDepth == q.maxDepth && r.pathDelimiter == q.pathDelimiter
    ensures r.root.key == q.root.key && r.root.values == q.root.values
  {
    Edit(q, path, Append(val))
  }

  /**
   * `Get(path...)`: the first value of the node at the path, walked without
   * creating nodes and without dropping a trailing `""`; absent for an empty
   * path, a missing segment or an empty value list.
   */
  function Get<V>(q: QS<V>, path: seq<string>): (r: Option<V>)
    ensures r.None? <==> |GetAll(q, path)| == 0
    ensures r.Some? ==> r.value == GetAll(q, path)[0]
  {
    if |path| == 0 then None
    else match Lookup(q.root, Resolve(q, path))
      case None => None
      case Some(m) => if |m.values| > 0 then Some(m.values[0]) else None
  }

  /**
   * `GetAll(path...)`: all values of the node at the path; the empty list
   * for an empty path or a missing segment.
   */
  function GetAll<V>(q: QS<V>, path: seq<string>): (r: seq<V>)
    ensures |path| == 0 ==> r == []
    ensures |path| > 0 && Lookup(q.root, Resolve(q, path)).None? ==> r == []
    ensures |path| > 0 && Lookup(q.root, Resolve(q, path)).Some? ==> r == Lookup(q.root, Resolve(q, path)).value.values
  {
    if |path| == 0 then [] else ValuesAt(q.root, Resolve(q, path))
  }

  /** `GetWithDefault(def, path...)`: the first value at the path, or `def` when there is none. */
  function GetWithDefault<V>(q: QS<V>, def: V, path: seq<string>): (r: V)
    ensures |path| > 0 && |ValuesAt(q.root, Resolve(q, path))| > 0 ==> r == ValuesAt(q.root, Resolve(q, path))[0]
    ensures |path| == 0 || |ValuesAt(q.root, Resolve(q, path))| == 0 ==> r == def
  {
    match Get(q, path)
    case None => def
    case Some(v) => v
  }

  /** `GetAllWithDefault(def, path...)`: the values at the path, or `def` when there are none. */
  function GetAllWithDefault<V>(q: QS<V>, def: seq<V>, path: seq<string>): (r: seq<V>)
    ensures |path| > 0 && |ValuesAt(q.root, Resolve(q, path))| > 0 ==> r == ValuesAt(q.root, Resolve(q, path))
    ensures |path| == 0 || |ValuesAt(q.root, Resolve(q, path))| == 0 ==> r == def
  {
    var vals := GetAll(q, path);
    if |vals| == 0 then def else vals
  }

  // ---------------------------------------------------------------------
  // Reading
  // ---------------------------------------------------------------------

  /** `Get` is the first element of `GetAll`, and absent exactly when `GetAll` is empty. */
  lemma GetIsFirstOfGetAll<V>(q: QS<V>, path: seq<string>)
    ensures Get(q, path).Some? <==> |GetAll(q, path)| > 0
    ensures Get(q, path).Some? ==> Get(q, path).value == GetAll(q, path)[0]
  {
  }

  /**
   * A delimiter only changes how the path is read: each operation with
   * delimiter `d` acts as the same operation without one on the first
   * argument split at `d`.
   */
  lemma DelimiterEquivalence<V>(q: QS<V>, path: seq<string>, vals: seq<V>, v: V)
    requires q.pathDelimiter != "" && |path| > 0
    ensures var plain := q.(pathDelimiter := "");
            var p := Split(path[0], q.pathDelimiter);
            && Get(q, path) == Get(plain, p)
            && GetAll(q, path) == GetAll(plain, p)
            && Set(q, vals, path) == Set(plain, vals, p).(pathDelimiter := q.pathDelimiter)
            && Add(q, v, path) == Add(plain, v, p).(pathDelimiter := q.pathDelimiter)
  {
  }

  // ---------------------------------------------------------------------
  // Writing (no delimiter: the path is the segments themselves)
  // ---------------------------------------------------------------------

  /** After `Set(vals, p)`, `GetAll` at `p` without its trailing `""` is `vals`. */
  lemma SetReplaces<V>(q: QS<V>, vals: seq<V>, path: seq<string>)
    requires q.pathDelimiter == "" && |path| > 0 && |Strip(path)| > 0
    ensures GetAll(Set(q, vals, path), Strip(path)) == vals
  {
    UpdateHere(q.root, Strip(path), Replace(vals));
  }

  /** After `Add(v, p)`, `GetAll` at `p` without its trailing `""` is the old list plus `v`. */
  lemma AddAppends<V>(q: QS<V>, v: V, path: seq<string>)
    requires q.pathDelimiter == "" && |path| > 0 && |Strip(path)| > 0
    ensures GetAll(Add(q, v, path), Strip(path)) == GetAll(q, Strip(path)) + [v]
  {
    UpdateHere(q.root, Strip(path), Append(v));
  }

  /** `Set` changes `GetAll` at no other path. */
  lemma SetLeavesOthers<V>(q: QS<V>, vals: seq<V>, path: seq<string>, other: seq<string>)
    requires q.pathDelimiter == "" && |path| > 0
    requires other != Strip(path)
    ensures GetAll(Set(q, vals, path), other) == GetAll(q, other)
  {
    if |Strip(path)| > 0 {
      UpdateElsewhere(q.root, Strip(path), Replace(vals), other);
    }
  }

  /** `Add` changes `GetAll` at no other path. */
  lemma AddLeavesOthers<V>(q: QS<V>, v: V, path: seq<string>, other: seq<string>)
    requires q.pathDelimiter == "" && |path| > 0
    requires other != Strip(path)
    ensures GetAll(Add(q, v, path), other) == GetAll(q, other)
  {
    if |Strip(path)| > 0 {
      UpdateElsewhere(q.root, Strip(path), Append(v), other);
    }
  }

  /** A path that is empty once its trailing `""` is dropped (`[""]`) writes nothing. */
  lemma EmptyPathWritesNothing<V>(q: QS<V>, vals: seq<V>, v: V, path: seq<string>)
    requires |path| > 0 && |Strip(Resolve(q, path))| == 0
    ensures Set(q, vals, path) == q
    ensures Add(q, v, path) == q
  {
  }

  /**
   * Writes create exactly the missing nodes along the (stripped) path: a node
   * exists afterwards where one existed before or on that path.
   */
  lemma WritesCreateOnlyPath<V>(q: QS<V>, vals: seq<V>, v: V, path: seq<string>, other: seq<string>)
    requires q.pathDelimiter == "" && |path| > 0
    ensures Lookup(Set(q, vals, path).root, other).Some?
        <==> Lookup(q.root, other).Some? || (|Strip(path)| > 0 && IsPrefix(other, Strip(path)))
    ensures Lookup(Add(q, v, path).root, other).Some?
        <==> Lookup(q.root, other).Some? || (|Strip(path)| > 0 && IsPrefix(other, Strip(path)))
  {
    if |Strip(path)| > 0 {
      UpdateNodes(q.root, Strip(path), Replace(vals), other);
      UpdateNodes(q.root, Strip(path), Append(v), other);
    }
  }

  /** `Set` keeps the root an empty placeholder and the children distinct. */
  lemma SetKeepsValid<V>(q: QS<V>, vals: seq<V>, path: seq<string>)
    requires Valid(q) && |path| > 0
    ensures Valid(Set(q, vals, path))
  {
    var p := Strip(Resolve(q, path));
    if |p| > 0 {
      UpdateWellFormed(q.root, p, Replace(vals));
    }
  }

  /** `Add` keeps the root an empty placeholder and the children distinct. */
  lemma AddKeepsValid<V>(q: QS<V>, v: V, path: seq<string>)
    requires Valid(q) && |path| > 0
    ensures Valid(Add(q, v, path))
  {
    var p := Strip(Resolve(q, path));
    if |p| > 0 {
      UpdateWellFormed(q.root, p, Append(v));
    }
  }

  // ---------------------------------------------------------------------
  // Construction: `New`
  // ---------------------------------------------------------------------

  /**
   * The insertion loop of `New` over decoded `(raw key, values)` pairs: each
   * key is parsed with the container's `MaxDepth` and its values `Set` at the
   * resulting path; the first key that fails to parse aborts the loop.
   */
  function Insert<V>(q: QS<V>, pairs: seq<(string, seq<V>)>): (r: Result<QS<V>, ParseError>)
    ensures r.Err? ==> r.error == InvalidQS
    ensures r.Ok? ==> r.value.rawQuery == q.rawQuery && r.value.maxDepth == q.maxDepth
                      && r.value.pathDelimiter == q.pathDelimiter
                      && r.value.root.key == q.root.key && r.value.root.values == q.root.values
    decreases |pairs|
  {
    if |pairs| == 0 then Ok(q)
    else match ParseKey(pairs[0].0, q.maxDepth)
      case Err(e) => Err(e)
      case Ok(keys) => Insert(Set(q, pairs[0].1, keys), pairs[1..])
  }

  /**
   * `New(rawQuery, opts...)`. `decoded` is what the URL decoder made of
   * `rawQuery` (`None` when it rejected it). The delimiter is switched off
   * for the insertion loop and restored afterwards.
   */
  function New<V>(rawQuery: string, decoded: Option<seq<(string, seq<V>)>>, cfg: Config): (r: Result<QS<V>, ParseError>)
    ensures decoded.None? ==> r.Err?
    ensures r.Err? ==> r.error == InvalidQS
    ensures r.Ok? ==> r.value.rawQuery == rawQuery && r.value.maxDepth == cfg.maxDepth
                      && r.value.pathDelimiter == cfg.pathDelimiter
                      && r.value.root.key == "" && r.value.root.values == []
  {
    match decoded
    case None => Err(InvalidQS)
    case Some(pairs) =>
      match Insert(QS(rawQuery, NewNode(""), cfg.maxDepth, ""), pairs)
      case Err(e) => Err(e)
      case Ok(q) => Ok(q.(pathDelimiter := cfg.pathDelimiter))
  }

  /** Every raw key parses with depth `d`. */
  predicate AllParse<V>(pairs: seq<(string, seq<V>)>, d: int)
  {
    forall i :: 0 <= i < |pairs| ==> ParseKey(pairs[i].0, d).Ok?
  }

  /** The path a parsed key is written at: its segments less one trailing `""`. */
  function PathOf(key: string, d: int): seq<string>
    requires ParseKey(key, d).Ok?
  {
    Strip(ParseKey(key, d).value)
  }

  /** One turn of the loop: the first key parses, its values are set, and the rest still parse. */
  lemma InsertStep<V>(q: QS<V>, pairs: seq<(string, seq<V>)>)
    requires |pairs| > 0 && AllParse(pairs, q.maxDepth)
    ensures ParseKey(pairs[0].0, q.maxDepth).Ok?
    ensures AllParse(pairs[1..], q.maxDepth)
    ensures Insert(q, pairs) == Insert(Set(q, pairs[0].1, ParseKey(pairs[0].0, q.maxDepth).value), pairs[1..])
  {
    assert ParseKey(pairs[0].0, q.maxDepth).Ok?;
    forall k | 0 <= k < |pairs[1..]| ensures ParseKey(pairs[1..][k].0, q.maxDepth).Ok? {
      assert pairs[1..][k] == pairs[k + 1];
    }
  }

  lemma {:induction false} InsertResult<V>(q: QS<V>, pairs: seq<(string, seq<V>)>)
    requires q.pathDelimiter == ""
    ensures Insert(q, pairs).Ok? <==> AllParse(pairs, q.maxDepth)
    ensures Insert(q, pairs).Err? ==> Insert(q, pairs).error == InvalidQS
    ensures Insert(q, pairs).Ok? ==>
              var r := Insert(q, pairs).value;
              r.rawQuery == q.rawQuery && r.maxDepth == q.maxDepth && r.pathDelimiter == ""
              && (Valid(q) ==> Valid(r))
    decreases |pairs|
  {
    if |pairs| > 0 {
      var k := ParseKey(pairs[0].0, q.maxDepth);
      if k.Ok? {
        var q1 := Set(q, pairs[0].1, k.value);
        if Valid(q) {
          SetKeepsValid(q, pairs[0].1, k.value);
        }
        InsertResult(q1, pairs[1..]);
        assert AllParse(pairs, q.maxDepth) <==> AllParse(pairs[1..], q.maxDepth) by {
          if AllParse(pairs[1..], q.maxDepth) {
            forall i | 0 <= i < |pairs| ensures ParseKey(pairs[i].0, q.maxDepth).Ok? {
              if i > 0 { assert pairs[i] == pairs[1..][i - 1]; }
            }
          }
        }
      }
    }
  }

  /** Pairs whose path is not `target` leave the values at `target` alone. */
  lemma {:induction false} InsertUntouched<V>(q: QS<V>, pairs: seq<(string, seq<V>)>, target: seq<string>)
    requires q.pathDelimiter == "" && AllParse(pairs, q.maxDepth)
    requires forall j :: 0 <= j < |pairs| ==> PathOf(pairs[j].0, q.maxDepth) != target
    ensures Insert(q, pairs).Ok?
    ensures ValuesAt(Insert(q, pairs).value.root, target) == ValuesAt(q.root, target)
    decreases |pairs|
  {
    InsertResult(q, pairs);
    if |pairs| > 0 {
      InsertStep(q, pairs);
      var keys := ParseKey(pairs[0].0, q.maxDepth).value;
      var q1 := Set(q, pairs[0].1, keys);
      if |target| > 0 {
        SetLeavesOthers(q, pairs[0].1, keys, target);
      } else if |Strip(keys)| > 0 {
        UpdateElsewhere(q.root, Strip(keys), Replace(pairs[0].1), target);
      }
      forall j | 0 <= j < |pairs[1..]| ensures PathOf(pairs[1..][j].0, q.maxDepth) != target {
        assert pairs[1..][j] == pairs[j + 1];
      }
      InsertUntouched(q1, pairs[1..], target);
    }
  }

  /** The first pair's values stay at its path when no later pair writes there. */
  lemma InsertFirstWins<V>(q: QS<V>, pairs: seq<(string, seq<V>)>)
    requires q.pathDelimiter == "" && AllParse(pairs, q.maxDepth)
    requires 0 < |pairs| && |PathOf(pairs[0].0, q.maxDepth)| > 0
    requires forall j :: 0 < j < |pairs| ==> PathOf(pairs[j].0, q.maxDepth) != PathOf(pairs[0].0, q.maxDepth)
    ensures Insert(q, pairs).Ok?
    ensures ValuesAt(Insert(q, pairs).value.root, PathOf(pairs[0].0, q.maxDepth)) == pairs[0].1
  {
    InsertResult(q, pairs);
    InsertStep(q, pairs);
    var target := PathOf(pairs[0].0, q.maxDepth);
    var keys := ParseKey(pairs[0].0, q.maxDepth).value;
    var q1 := Set(q, pairs[0].1, keys);
    SetReplaces(q, pairs[0].1, keys);
    forall j | 0 <= j < |pairs[1..]| ensures PathOf(pairs[1..][j].0, q.maxDepth) != target {
      assert pairs[1..][j] == pairs[j + 1];
    }
    InsertUntouched(q1, pairs[1..], target);
  }

  /** The values at a written path are those of the last pair written there. */
  lemma {:induction false} InsertLastWins<V>(q: QS<V>, pairs: seq<(string, seq<V>)>, i: nat)
    requires q.pathDelimiter == "" && AllParse(pairs, q.maxDepth)
    requires i < |pairs| && |PathOf(pairs[i].0, q.maxDepth)| > 0
    requires forall j :: i < j < |pairs| ==> PathOf(pairs[j].0, q.maxDepth) != PathOf(pairs[i].0, q.maxDepth)
    ensures Insert(q, pairs).Ok?
    ensures ValuesAt(Insert(q, pairs).value.root, PathOf(pairs[i].0, q.maxDepth)) == pairs[i].1
    decreases |pairs|
  {
    if i == 0 {
      InsertFirstWins(q, pairs);
    } else {
      InsertResult(q, pairs);
      InsertStep(q, pairs);
      var keys := ParseKey(pairs[0].0, q.maxDepth).value;
      var q1 := Set(q, pairs[0].1, keys);
      assert pairs[1..][i - 1] == pairs[i];
      forall j | i - 1 < j < |pairs[1..]|
        ensures PathOf(pairs[1..][j].0, q.maxDepth) != PathOf(pairs[1..][i - 1].0, q.maxDepth)
      {
        assert pairs[1..][j] == pairs[j + 1];
      }
      InsertLastWins(q1, pairs[1..], i - 1);
    }
  }

  /** Some key of `pairs` is written at a path `target` is a prefix of. */
  predicate Reaches<V>(pairs: seq<(string, seq<V>)>, d: int, target: seq<string>)
    requires AllParse(pairs, d)
  {
    exists j :: 0 <= j < |pairs| && IsPrefix(target, PathOf(pairs[j].0, d))
  }

  /** `Reaches` for a non-empty list: the first key, or one of the rest. */
  lemma ReachesStep<V>(pairs: seq<(string, seq<V>)>, d: int, target: seq<string>)
    requires |pairs| > 0 && AllParse(pairs, d) && AllParse(pairs[1..], d)
    ensures Reaches(pairs, d, target)
        <==> IsPrefix(target, PathOf(pairs[0].0, d)) || Reaches(pairs[1..], d, target)
  {
    if Reaches(pairs, d, target) {
      var j :| 0 <= j < |pairs| && IsPrefix(target, PathOf(pairs[j].0, d));
      if j > 0 {
        assert pairs[1..][j - 1] == pairs[j];
      }
    }
    if Reaches(pairs[1..], d, target) {
      var j :| 0 <= j < |pairs[1..]| && IsPrefix(target, PathOf(pairs[1..][j].0, d));
      assert pairs[1..][j] == pairs[j + 1];
    }
  }

  /** Nodes exist exactly on the paths written (and their prefixes). */
  lemma {:induction false} InsertNodes<V>(q: QS<V>, pairs: seq<(string, seq<V>)>, target: seq<string>)
    requires q.pathDelimiter == "" && AllParse(pairs, q.maxDepth)
    ensures Insert(q, pairs).Ok?
    ensures Lookup(Insert(q, pairs).value.root, target).Some?
        <==> Lookup(q.root, target).Some? || Reaches(pairs, q.maxDepth, target)
    decreases |pairs|
  {
    InsertResult(q, pairs);
    if |pairs| > 0 {
      InsertStep(q, pairs);
      var keys := ParseKey(pairs[0].0, q.maxDepth).value;
      var q1 := Set(q, pairs[0].1, keys);
      if |Strip(keys)| > 0 {
        UpdateNodes(q.root, Strip(keys), Replace(pairs[0].1), target);
      }
      InsertNodes(q1, pairs[1..], target);
      ReachesStep(pairs, q.maxDepth, target);
      var P := PathOf(pairs[0].0, q.maxDepth);
      if |P| == 0 && IsPrefix(target, P) {
        assert target == [];
      }
    }
  }

  /** The container `New` starts from: the placeholder root and the configured depth. */
  function Fresh<V>(rawQuery: string, cfg: Config): QS<V>
  {
    QS(rawQuery, NewNode(""), cfg.maxDepth, "")
  }

  /**
   * `New` fails, always with `InvalidQS`, exactly when the decoder rejected
   * the query or some raw key does not parse; otherwise it keeps the raw
   * query and the options and its root is the empty placeholder.
   */
  lemma NewResult<V>(rawQuery: string, decoded: Option<seq<(string, seq<V>)>>, cfg: Config)
    ensures New(rawQuery, decoded, cfg).Err? <==> decoded.None? || !AllParse(decoded.value, cfg.maxDepth)
    ensures New(rawQuery, decoded, cfg).Err? ==> New(rawQuery, decoded, cfg).error == InvalidQS
    ensures New(rawQuery, decoded, cfg).Ok? ==>
              var q := New(rawQuery, decoded, cfg).value;
              Valid(q) && q.rawQuery == rawQuery && q.maxDepth == cfg.maxDepth
              && q.pathDelimiter == cfg.pathDelimiter
  {
    if decoded.Some? {
      InsertResult(Fresh<V>(rawQuery, cfg), decoded.value);
    }
  }

  /**
   * After `New`, the values at the path of a raw key are that key's values,
   * provided no later key collapses to the same path.
   */
  lemma NewStores<V>(rawQuery: string, pairs: seq<(string, seq<V>)>, cfg: Config, i: nat)
    requires New(rawQuery, Some(pairs), cfg).Ok?
    requires i < |pairs|
    requires ParseKey(pairs[i].0, cfg.maxDepth).Ok? && |PathOf(pairs[i].0, cfg.maxDepth)| > 0
    requires forall j :: i < j < |pairs| && ParseKey(pairs[j].0, cfg.maxDepth).Ok? ==>
               PathOf(pairs[j].0, cfg.maxDepth) != PathOf(pairs[i].0, cfg.maxDepth)
    ensures ValuesAt(New(rawQuery, Some(pairs), cfg).value.root, PathOf(pairs[i].0, cfg.maxDepth)) == pairs[i].1
  {
    InsertResult(Fresh<V>(rawQuery, cfg), pairs);
    InsertLastWins(Fresh<V>(rawQuery, cfg), pairs, i);
  }

  /** After `New`, a path no raw key was written at holds no values. */
  lemma NewUnwritten<V>(rawQuery: string, pairs: seq<(string, seq<V>)>, cfg: Config, target: seq<string>)
    requires New(rawQuery, Some(pairs), cfg).Ok?
    requires forall j :: 0 <= j < |pairs| && ParseKey(pairs[j].0, cfg.maxDepth).Ok? ==>
               PathOf(pairs[j].0, cfg.maxDepth) != target
    ensures ValuesAt(New(rawQuery, Some(pairs), cfg).value.root, target) == []
  {
    InsertResult(Fresh<V>(rawQuery, cfg), pairs);
    InsertUntouched(Fresh<V>(rawQuery, cfg), pairs, target);
    NewNodeEmpty<V>("", target);
  }

  /**
   * After `New`, a node exists at a non-empty path exactly when the path is
   * a prefix of the path some raw key was written at.
   */
  lemma NewNodes<V>(rawQuery: string, pairs: seq<(string, seq<V>)>, cfg: Config, target: seq<string>)
    requires New(rawQuery, Some(pairs), cfg).Ok? && |target| > 0
    ensures AllParse(pairs, cfg.maxDepth)
    ensures Lookup(New(rawQuery, Some(pairs), cfg).value.root, target).Some?
        <==> Reaches(pairs, cfg.maxDepth, target)
  {
    InsertResult(Fresh<V>(rawQuery, cfg), pairs);
    InsertNodes(Fresh<V>(rawQuery, cfg), pairs, target);
    NewNodeEmpty<V>("", target);
  }

  // ---------------------------------------------------------------------
  // Worked examples
  // ---------------------------------------------------------------------

  /** `a[b]=c` builds root `""` (no values), then `a` (no values), then `b` holding `c`. */
  lemma ExampleTree()
    ensures New("a[b]=c", Some([("a[b]", ["c"])]), Defaults)
         == Ok(QS("a[b]=c", Node("", [], [Node("a", [], [Node("b", ["c"], [])])]), 5, ""))
  {
    ExampleOneGroup('a', 'b');
    var pairs := [("a[b]", ["c"])];
    assert pairs[0].0 == ['a', '[', 'b', ']'];
    var q0: QS<string> := Fresh("a[b]=c", Defaults);
    assert Strip(["a", "b"]) == ["a", "b"];
    var b := Update(NewNode<string>("a"), ["b"], Replace(["c"]));
    assert ["a", "b"][1..] == ["b"] && ["b"][1..] == [];
    assert b == Node("a", [], [Node("b", ["c"], [])]);
    assert Update(q0.root, ["a", "b"], Replace(["c"])) == Node("", [], [b]);
    assert Insert(q0, pairs) == Insert(Set(q0, ["c"], ["a", "b"]), pairs[1..]);
  }

  /** The query `a[b]=c&a[g]=h&a[g]=i&d[]=f&j=k`, as the URL decoder hands it over. */
  const ExampleRaw: string := "a[b]=c&a[g]=h&a[g]=i&d[]=f&j=k"
  const ExamplePairs: seq<(string, seq<string>)> :=
    [("a[b]", ["c"]), ("a[g]", ["h", "i"]), ("d[]", ["f"]), ("j", ["k"])]

  /** The paths the four keys of the example are written at; `d[]` is written at `d`. */
  lemma ExampleKeyPaths()
    ensures ParseKey("a[b]", 5).Ok? && PathOf("a[b]", 5) == ["a", "b"]
    ensures ParseKey("a[g]", 5).Ok? && PathOf("a[g]", 5) == ["a", "g"]
    ensures ParseKey("d[]", 5).Ok? && PathOf("d[]", 5) == ["d"]
    ensures ParseKey("j", 5).Ok? && PathOf("j", 5) == ["j"]
  {
    assert "a[b]" == ['a', '[', 'b', ']'] && "a[g]" == ['a', '[', 'g', ']'];
    ExampleOneGroup('a', 'b');
    ExampleOneGroup('a', 'g');
    ExampleEmptyGroup();
    ExampleNoBrackets();
    assert ["d", ""][..1] == ["d"];
  }

  /** Every key of the example parses, at the paths `ExampleKeyPaths` gives. */
  lemma ExamplePaths(pairs: seq<(string, seq<string>)>)
    requires pairs == ExamplePairs
    ensures AllParse(pairs, 5)
    ensures PathOf(pairs[0].0, 5) == ["a", "b"]
    ensures PathOf(pairs[1].0, 5) == ["a", "g"]
    ensures PathOf(pairs[2].0, 5) == ["d"]
    ensures PathOf(pairs[3].0, 5) == ["j"]
    ensures New(ExampleRaw, Some(pairs), Defaults).Ok?
  {
    ExampleKeyPaths();
    assert pairs[0].0 == "a[b]" && pairs[1].0 == "a[g]" && pairs[2].0 == "d[]" && pairs[3].0 == "j";
    assert AllParse(pairs, 5) by {
      forall j | 0 <= j < |pairs| ensures ParseKey(pairs[j].0, 5).Ok? {
        assert j == 0 || j == 1 || j == 2 || j == 3;
      }
    }
    NewResult(ExampleRaw, Some(pairs), Defaults);
  }

  // The reads of the example, from the paths its four keys are written
  // at: `a, b`, `a, g`, `d` and `j`.

  /** Each written path reads back its key's values. */
  lemma ExampleStored(raw: string, pairs: seq<(string, seq<string>)>, i: nat)
    requires |pairs| == 4 && AllParse(pairs, 5)
    requires PathOf(pairs[0].0, 5) == ["a", "b"] && PathOf(pairs[1].0, 5) == ["a", "g"]
    requires PathOf(pairs[2].0, 5) == ["d"] && PathOf(pairs[3].0, 5) == ["j"]
    requires New(raw, Some(pairs), Defaults).Ok?
    requires i < |pairs|
    ensures GetAll(New(raw, Some(pairs), Defaults).value, PathOf(pairs[i].0, 5)) == pairs[i].1
  {
    assert ["a", "b"] != ["a", "g"] by { assert ["a", "b"][1] != ["a", "g"][1]; }
    assert ["d"] != ["j"] by { assert ["d"][0] != ["j"][0]; }
    forall j | i < j < |pairs|
      ensures PathOf(pairs[j].0, 5) != PathOf(pairs[i].0, 5)
    {
      assert j == 1 || j == 2 || j == 3;
    }
    NewResult(raw, Some(pairs), Defaults);
    NewStores(raw, pairs, Defaults, i);
  }

  /** A path no key was written at reads as empty. */
  lemma ExampleAbsent(raw: string, pairs: seq<(string, seq<string>)>, target: string)
    requires |pairs| == 4 && AllParse(pairs, 5)
    requires PathOf(pairs[0].0, 5) == ["a", "b"] && PathOf(pairs[1].0, 5) == ["a", "g"]
    requires PathOf(pairs[2].0, 5) == ["d"] && PathOf(pairs[3].0, 5) == ["j"]
    requires New(raw, Some(pairs), Defaults).Ok?
    requires target != "d" && target != "j"
    ensures GetAll(New(raw, Some(pairs), Defaults).value, [target]) == []
  {
    forall j | 0 <= j < |pairs|
      ensures PathOf(pairs[j].0, 5) != [target]
    {
    }
    NewUnwritten(raw, pairs, Defaults, [target]);
  }

  /** No node exists at `d, ""`. */
  lemma ExampleNoEmptyChild(raw: string, pairs: seq<(string, seq<string>)>)
    requires |pairs| == 4 && AllParse(pairs, 5)
    requires PathOf(pairs[0].0, 5) == ["a", "b"] && PathOf(pairs[1].0, 5) == ["a", "g"]
    requires PathOf(pairs[2].0, 5) == ["d"] && PathOf(pairs[3].0, 5) == ["j"]
    requires New(raw, Some(pairs), Defaults).Ok?
    ensures Lookup(New(raw, Some(pairs), Defaults).value.root, ["d", ""]).None?
  {
    forall j | 0 <= j < |pairs|
      ensures !IsPrefix(["d", ""], PathOf(pairs[j].0, 5))
    {
      var p := PathOf(pairs[j].0, 5);
      if |p| >= 2 {
        assert p[0] == "a";
        assert p[..2][0] != ["d", ""][0];
      }
    }
    NewNodes(raw, pairs, Defaults, ["d", ""]);
  }

  /** `GetAll` keeps the order of repeated values; `Get` gives the first value. */
  lemma ExampleWrittenPaths(pairs: seq<(string, seq<string>)>)
    requires pairs == ExamplePairs
    ensures New(ExampleRaw, Some(pairs), Defaults).Ok?
    ensures var q := New(ExampleRaw, Some(pairs), Defaults).value;
            && GetAll(q, ["a", "g"]) == ["h", "i"]
            && Get(q, ["a", "b"]) == Some("c")
            && Get(q, ["d"]) == Some("f")
  {
    ExamplePaths(pairs);
    ExampleStored(ExampleRaw, pairs, 0);
    ExampleStored(ExampleRaw, pairs, 1);
    ExampleStored(ExampleRaw, pairs, 2);
    var q := New(ExampleRaw, Some(pairs), Defaults).value;
    GetIsFirstOfGetAll(q, ["a", "b"]);
    GetIsFirstOfGetAll(q, ["d"]);
  }

  /** An intermediate node and a missing key both read as absent. */
  lemma ExampleUnwrittenPaths(pairs: seq<(string, seq<string>)>)
    requires pairs == ExamplePairs
    ensures New(ExampleRaw, Some(pairs), Defaults).Ok?
    ensures var q := New(ExampleRaw, Some(pairs), Defaults).value;
            Get(q, ["a"]) == None && Get(q, ["z"]) == None
  {
    ExamplePaths(pairs);
    ExampleAbsent(ExampleRaw, pairs, "a");
    ExampleAbsent(ExampleRaw, pairs, "z");
    var q := New(ExampleRaw, Some(pairs), Defaults).value;
    GetIsFirstOfGetAll(q, ["a"]);
    GetIsFirstOfGetAll(q, ["z"]);
  }

  /** `Get` does not drop a trailing `""`: `d[]` is stored at `d`, and `d, ""` reads as absent. */
  lemma ExampleNoStripOnRead(pairs: seq<(string, seq<string>)>)
    requires pairs == ExamplePairs
    ensures New(ExampleRaw, Some(pairs), Defaults).Ok?
    ensures Get(New(ExampleRaw, Some(pairs), Defaults).value, ["d", ""]) == None
  {
    ExamplePaths(pairs);
    ExampleNoEmptyChild(ExampleRaw, pairs);
  }
}
