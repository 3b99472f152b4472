/**
 * The store of the two older front ends (qrystr.go and qs.go): a key maps
 * to subkeys, and a subkey to the list of values. A key written without a
 * subkey (`j`, or `d[]`) uses the empty subkey.
 *
 * `NewQS` runs `url.ParseQuery` and then a regular expression over every
 * decoded key to pick out the key and the optional subkey. Neither the URL
 * decoder nor the regular expression is part of this model: `NewQS` takes
 * what they produced, one `Entry` per decoded key, or `None` when the
 * decoder rejected the query.
 */
module TwoLevelStore {
  import opened Wrappers

  type Store = map<string, map<string, seq<string>>>

  /** What the loop of `NewQS` sees for one decoded key. */
  datatype Entry = Entry(key: string, sub: string, vals: seq<string>)

  /** The URL decoder rejected the raw query. */
  datatype DecodeError = DecodeError

  datatype QS = QS(rawQuery: string, values: Store)

  /** `Values[key][sub]` is present (`ok` in the two-value index). */
  predicate Present(st: Store, key: string, sub: string)
  {
    key in st && sub in st[key]
  }

  /** `Values[key][sub]`, where a missing inner map or slot reads as the empty list. */
  function Slot(st: Store, key: string, sub: string): seq<string>
  {
    if Present(st, key, sub) then st[key][sub] else []
  }

  /** Every present slot holds at least one value. */
  predicate SlotsNonEmpty(st: Store)
  {
    forall key :: key in st ==> forall sub :: sub in st[key] ==> |st[key][sub]| > 0
  }

  /**
   * One step of the `NewQS` loop: create the inner map when missing, then
   * append the values to the slot.
   */
  function Insert(st: Store, e: Entry): (r: Store)
    ensures Present(r, e.key, e.sub)
    ensures Slot(r, e.key, e.sub) == Slot(st, e.key, e.sub) + e.vals
    ensures forall k, s :: (k, s) != (e.key, e.sub) ==> (Present(r, k, s) <==> Present(st, k, s))
    ensures forall k, s :: (k, s) != (e.key, e.sub) ==> Slot(r, k, s) == Slot(st, k, s)
  {
    var inner := if e.key in st then st[e.key] else map[];
    st[e.key := inner[e.sub := Slot(st, e.key, e.sub) + e.vals]]
  }

  /** The loop of `NewQS` over the decoded keys. */
  function Build(es: seq<Entry>): (r: Store)
    ensures forall key :: key in r ==> exists j :: 0 <= j < |es| && es[j].key == key
    decreases |es|
  {
    if |es| == 0 then map[] else Insert(Build(es[..|es| - 1]), es[|es| - 1])
  }

  /** `NewQS(rawQuery)`, given what the URL decoder and the pattern made of it. */
  function NewQS(rawQuery: string, decoded: Option<seq<Entry>>): (r: Result<QS, DecodeError>)
    ensures r.Err? <==> decoded.None?
    ensures r.Ok? ==> r.value.rawQuery == rawQuery
    ensures r.Ok? ==> forall key :: key in r.value.values ==> exists j :: 0 <= j < |decoded.value| && decoded.value[j].key == key
  {
    match decoded
    case None => Err(DecodeError)
    case Some(es) => Ok(QS(rawQuery, Build(es)))
  }

  // ---------------------------------------------------------------------
  // The reference description
  // ---------------------------------------------------------------------

  /** The values of every entry for `key` and `sub`, in entry order. */
  function Collected(es: seq<Entry>, key: string, sub: string): seq<string>
    decreases |es|
  {
    if |es| == 0 then []
    else
      var e := es[|es| - 1];
      Collected(es[..|es| - 1], key, sub) + (if e.key == key && e.sub == sub then e.vals else [])
  }

  /** Some entry names `key` and `sub`. */
  predicate Named(es: seq<Entry>, key: string, sub: string)
  {
    exists j :: 0 <= j < |es| && es[j].key == key && es[j].sub == sub
  }

  // ---------------------------------------------------------------------
  // Properties
  // ---------------------------------------------------------------------

  /** Inserting values into a store whose slots hold values keeps every slot non-empty. */
  lemma InsertKeepsNonEmpty(st: Store, e: Entry)
    requires SlotsNonEmpty(st) && |e.vals| > 0
    ensures SlotsNonEmpty(Insert(st, e))
  {
    var r := Insert(st, e);
    forall k, s | k in r && s in r[k]
      ensures |r[k][s]| > 0
    {
      assert Present(r, k, s);
      if (k, s) != (e.key, e.sub) {
        assert Slot(r, k, s) == Slot(st, k, s);
      }
    }
  }

  /** `Named` for a non-empty list: one of the earlier entries, or the last one. */
  lemma NamedStep(es: seq<Entry>, key: string, sub: string)
    requires |es| > 0
    ensures Named(es, key, sub)
        <==> Named(es[..|es| - 1], key, sub) || (es[|es| - 1].key == key && es[|es| - 1].sub == sub)
  {
    var init := es[..|es| - 1];
    if Named(init, key, sub) {
      var j :| 0 <= j < |init| && init[j].key == key && init[j].sub == sub;
      assert es[j] == init[j];
    }
    if Named(es, key, sub) {
      var j :| 0 <= j < |es| && es[j].key == key && es[j].sub == sub;
      if j < |init| {
        assert init[j] == es[j];
      }
    }
  }

  /** After the loop, each slot holds the values of the entries naming it, in entry order. */
  lemma {:induction false} BuildSlot(es: seq<Entry>, key: string, sub: string)
    ensures Slot(Build(es), key, sub) == Collected(es, key, sub)
    decreases |es|
  {
    if |es| > 0 {
      BuildSlot(es[..|es| - 1], key, sub);
    }
  }

  /** After the loop, exactly the slots some entry names are present. */
  lemma {:induction false} BuildPresent(es: seq<Entry>, key: string, sub: string)
    ensures Present(Build(es), key, sub) <==> Named(es, key, sub)
    decreases |es|
  {
    if |es| > 0 {
      BuildPresent(es[..|es| - 1], key, sub);
      NamedStep(es, key, sub);
    }
  }

  /**
   * After the loop, each slot holds the values of the entries naming it,
   * in entry order, and exactly the slots some entry names are present.
   */
  lemma BuildSlots(es: seq<Entry>, key: string, sub: string)
    ensures Slot(Build(es), key, sub) == Collected(es, key, sub)
    ensures Present(Build(es), key, sub) <==> Named(es, key, sub)
  {
    BuildSlot(es, key, sub);
    BuildPresent(es, key, sub);
  }

  /** When every entry has at least one value, so has every slot after the loop. */
  lemma {:induction false} BuildNonEmpty(es: seq<Entry>)
    requires forall j :: 0 <= j < |es| ==> |es[j].vals| > 0
    ensures SlotsNonEmpty(Build(es))
    decreases |es|
  {
    if |es| > 0 {
      var init := es[..|es| - 1];
      assert forall j :: 0 <= j < |init| ==> init[j] == es[j];
      BuildNonEmpty(init);
      InsertKeepsNonEmpty(Build(init), es[|es| - 1]);
    }
  }

  /** `NewQS` fails exactly when the decoder does, and keeps the raw query. */
  lemma NewQSResult(rawQuery: string, decoded: Option<seq<Entry>>)
    ensures NewQS(rawQuery, decoded).Ok? <==> decoded.Some?
    ensures NewQS(rawQuery, decoded).Ok? ==>
              NewQS(rawQuery, decoded).value.rawQuery == rawQuery
              && forall key, sub :: Slot(NewQS(rawQuery, decoded).value.values, key, sub) == Collected(decoded.value, key, sub)
  {
    if decoded.Some? {
      forall key, sub
        ensures Slot(Build(decoded.value), key, sub) == Collected(decoded.value, key, sub)
      {
        BuildSlots(decoded.value, key, sub);
      }
    }
  }

  // ---------------------------------------------------------------------
  // The query of the tests
  // ---------------------------------------------------------------------

  /** What the decoder and the pattern make of `a[b]=c&a[g]=h&a[g]=i&d[]=f&j=k`. */
  const ExampleEntries: seq<Entry> :=
    [Entry("a", "b", ["c"]), Entry("a", "g", ["h", "i"]), Entry("d", "", ["f"]), Entry("j", "", ["k"])]

  const ExampleStore: Store :=
    map["a" := map["b" := ["c"], "g" := ["h", "i"]], "d" := map["" := ["f"]], "j" := map["" := ["k"]]]

  /** One more entry is one more turn of the loop. */
  lemma BuildSnoc(es: seq<Entry>, e: Entry)
    ensures Build(es + [e]) == Insert(Build(es), e)
  {
    assert (es + [e])[..|es|] == es;
  }

  /** Inserting under a new key creates its inner map with the one slot. */
  lemma InsertNewKey(st: Store, e: Entry)
    requires e.key !in st
    ensures Insert(st, e) == st[e.key := map[e.sub := e.vals]]
  {
    assert [] + e.vals == e.vals;
  }

  /** Inserting a new subkey under an existing key adds the slot to its inner map. */
  lemma InsertNewSub(st: Store, e: Entry)
    requires e.key in st && e.sub !in st[e.key]
    ensures Insert(st, e) == st[e.key := st[e.key][e.sub := e.vals]]
  {
    assert [] + e.vals == e.vals;
  }

  /** The first two entries of the example fill key `a`. */
  lemma ExampleBuildA(e0: Entry, e1: Entry)
    requires e0 == Entry("a", "b", ["c"]) && e1 == Entry("a", "g", ["h", "i"])
    ensures Build([] + [e0] + [e1]) == map["a" := map["b" := ["c"], "g" := ["h", "i"]]]
  {
    BuildSnoc([], e0);
    BuildSnoc([] + [e0], e1);
    var m1 := Build([] + [e0]);
    InsertNewKey(map[], e0);
    assert m1 == map["a" := map["b" := ["c"]]];
    InsertNewSub(m1, e1);
  }

  /** The third entry of the example adds key `d`. */
  lemma ExampleBuildD(e0: Entry, e1: Entry, e2: Entry)
    requires e0 == Entry("a", "b", ["c"]) && e1 == Entry("a", "g", ["h", "i"]) && e2 == Entry("d", "", ["f"])
    ensures Build([] + [e0] + [e1] + [e2])
         == map["a" := map["b" := ["c"], "g" := ["h", "i"]], "d" := map["" := ["f"]]]
  {
    ExampleBuildA(e0, e1);
    BuildSnoc([] + [e0] + [e1], e2);
    var m2 := Build([] + [e0] + [e1]);
    InsertNewKey(m2, e2);
  }

  /** The loop builds the nested map the tests expect. */
  lemma ExampleBuild()
    ensures Build(ExampleEntries) == ExampleStore
  {
    var e0, e1, e2, e3 := Entry("a", "b", ["c"]), Entry("a", "g", ["h", "i"]), Entry("d", "", ["f"]), Entry("j", "", ["k"]);
    assert ExampleEntries == [] + [e0] + [e1] + [e2] + [e3];
    ExampleBuildD(e0, e1, e2);
    BuildSnoc([] + [e0] + [e1] + [e2], e3);
    var m3 := Build([] + [e0] + [e1] + [e2]);
    InsertNewKey(m3, e3);
  }

  /** Every slot of the example store holds a value. */
  lemma ExampleNonEmpty()
    ensures SlotsNonEmpty(ExampleStore)
  {
    forall key | key in ExampleStore
      ensures forall sub :: sub in ExampleStore[key] ==> |ExampleStore[key][sub]| > 0
    {
      assert key == "a" || key == "d" || key == "j";
    }
  }
}
