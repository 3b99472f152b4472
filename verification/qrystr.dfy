/**
 * The readers of qrystr.go: the path is one string, split on `.`; its
 * first part names the key and its second the subkey, a path without a
 * `.` reads the empty subkey, and parts after the second are ignored.
 *
 * `Get` indexes the first value of a present slot, which panics on an
 * empty one: that is a precondition here, and the store `NewQS` builds
 * never has one (`TwoLevelStore.BuildNonEmpty`).
 */
module Qrystr {
  import opened Strs
  import opened Wrappers
  import opened TwoLevelStore
  import LegacyQs

  /** `getPathComponents`: split on `.`, a lone part read with the empty subkey. */
  function PathComponents(path: string): (r: seq<string>)
    ensures |r| >= 2
    ensures forall i :: 0 <= i < |r| ==> '.' !in r[i]
  {
    var parts := Split(path, ".");
    SplitPiecesFree(path, '.');
    if |parts| == 1 then parts + [""] else parts
  }

  /** The slot a path reads. */
  function Addressed(q: QS, path: string): seq<string>
  {
    var p := PathComponents(path);
    Slot(q.values, p[0], p[1])
  }

  /** `Get(path)`: the first value of the slot, `""` when it is absent. */
  function Get(q: QS, path: string): (r: string)
    requires var p := PathComponents(path); Present(q.values, p[0], p[1]) ==> |q.values[p[0]][p[1]]| > 0
    ensures |Addressed(q, path)| > 0 ==> r == Addressed(q, path)[0]
    ensures |Addressed(q, path)| == 0 ==> r == ""
  {
    var p := PathComponents(path);
    if Present(q.values, p[0], p[1]) then q.values[p[0]][p[1]][0] else ""
  }

  /** `GetAll(path)`: the values of the slot, the empty list when it is absent. */
  function GetAll(q: QS, path: string): (r: seq<string>)
    ensures r == Addressed(q, path)
  {
    var p := PathComponents(path);
    if Present(q.values, p[0], p[1]) && |q.values[p[0]][p[1]]| != 0 then q.values[p[0]][p[1]] else []
  }

  /** The path the tests build for a key and a subkey: `key.sub`, or `key` alone. */
  function PathFor(key: string, sub: string): string
  {
    if sub == "" then key else key + "." + sub
  }

  // ---------------------------------------------------------------------
  // Properties
  // ---------------------------------------------------------------------

  /** A key and a subkey without `.` come back from the path built for them. */
  lemma PathRoundTrip(key: string, sub: string)
    requires '.' !in key && '.' !in sub
    ensures PathComponents(PathFor(key, sub)) == [key, sub]
  {
    if sub == "" {
      SplitAbsent(key, '.');
    } else {
      assert Join([key, sub], ".") == key + "." + sub;
      SplitJoin([key, sub], '.');
    }
  }

  /** Parts after the second are never read: `key.sub.rest` reads the slot of `key` and `sub`. */
  lemma ExtraPartsIgnored(q: QS, key: string, sub: string, rest: string)
    requires '.' !in key && '.' !in sub
    ensures PathComponents(key + "." + sub + "." + rest)[..2] == [key, sub]
    ensures GetAll(q, key + "." + sub + "." + rest) == Slot(q.values, key, sub)
    ensures (Present(q.values, key, sub) ==> |q.values[key][sub]| > 0) ==>
              Get(q, key + "." + sub + "." + rest)
              == if |Slot(q.values, key, sub)| > 0 then Slot(q.values, key, sub)[0] else ""
  {
    SplitAround(key + "." + sub, rest, '.');
    SplitAround(key, sub, '.');
    SplitAbsent(key, '.');
    SplitAbsent(sub, '.');
    assert key + "." + sub + "." + rest == (key + ['.'] + sub) + ['.'] + rest;
    assert key + "." + sub == key + ['.'] + sub;
  }

  /** In a store whose slots hold values, `Get` is the head of `GetAll`, or `""` when that is empty. */
  lemma GetIsHeadOfGetAll(q: QS, path: string)
    requires SlotsNonEmpty(q.values)
    ensures Get(q, path) == if |GetAll(q, path)| > 0 then GetAll(q, path)[0] else ""
  {
  }

  /** The string path reads the same slot as its `.`-separated parts given to qs.go. */
  lemma AgreesWithVariadic(q: QS, path: string)
    ensures PathComponents(path) == LegacyQs.PathComponents(Split(path, "."))
    ensures GetAll(q, path) == LegacyQs.GetAll(q, Split(path, "."))
  {
  }

  /** After `NewQS`, `key.sub` reads the values of every entry naming that key and subkey. */
  lemma ReadsCollected(rawQuery: string, es: seq<Entry>, key: string, sub: string)
    requires '.' !in key && '.' !in sub
    ensures NewQS(rawQuery, Some(es)).Ok?
    ensures GetAll(NewQS(rawQuery, Some(es)).value, PathFor(key, sub)) == Collected(es, key, sub)
  {
    PathRoundTrip(key, sub);
    BuildSlots(es, key, sub);
  }

  /** A path built from a key and a subkey without `.` reads their slot. */
  lemma ReadsSlot(q: QS, key: string, sub: string)
    requires '.' !in key && '.' !in sub
    ensures GetAll(q, PathFor(key, sub)) == Slot(q.values, key, sub)
  {
    PathRoundTrip(key, sub);
  }

  /** `GetAll` on the store `ExampleBuild` shows `NewQS` builds: repeated values keep their order. */
  lemma ExampleReadAll()
    ensures GetAll(ExampleQS, "a.g") == ["h", "i"]
    ensures GetAll(ExampleQS, "d") == ["f"]
    ensures GetAll(ExampleQS, "") == []
  {
    ReadsSlot(ExampleQS, "a", "g");
    ReadsSlot(ExampleQS, "d", "");
    ReadsSlot(ExampleQS, "", "");
    assert PathFor("a", "g") == "a.g";
  }

  /** In a store whose slots hold values, a path built from a key and a subkey reads the slot's first value. */
  lemma ReadsFirst(q: QS, key: string, sub: string)
    requires '.' !in key && '.' !in sub && SlotsNonEmpty(q.values)
    ensures Get(q, PathFor(key, sub)) == if |Slot(q.values, key, sub)| > 0 then Slot(q.values, key, sub)[0] else ""
  {
    PathRoundTrip(key, sub);
  }

  /** The container the tests read, over the store `ExampleBuild` shows `NewQS` builds. */
  const ExampleQS: QS := QS("a[b]=c&a[g]=h&a[g]=i&d[]=f&j=k", ExampleStore)

  /** `Get` on the same store, with a subkey: the first value of each slot. */
  lemma ExampleReads()
    ensures SlotsNonEmpty(ExampleQS.values)
    ensures Get(ExampleQS, "a.b") == "c"
    ensures Get(ExampleQS, "a.g") == "h"
  {
    ExampleNonEmpty();
    ReadsFirst(ExampleQS, "a", "b");
    ReadsFirst(ExampleQS, "a", "g");
    assert PathFor("a", "b") == "a.b" && PathFor("a", "g") == "a.g";
  }

  /** `Get` on the same store, without a subkey: `d[]` and `j` are read, a missing key gives `""`. */
  lemma ExampleReadsLone()
    ensures SlotsNonEmpty(ExampleQS.values)
    ensures Get(ExampleQS, "d") == "f"
    ensures Get(ExampleQS, "j") == "k"
    ensures Get(ExampleQS, "") == ""
  {
    ExampleNonEmpty();
    ReadsFirst(ExampleQS, "d", "");
    ReadsFirst(ExampleQS, "j", "");
    ReadsFirst(ExampleQS, "", "");
  }
}
