/**
 * The readers of qs.go: the path is given as separate strings, of which
 * the first names the key and the second the subkey; a path of one string
 * reads the empty subkey, and strings after the second are ignored.
 *
 * An empty path makes `getPathComponents` return an empty slice, which the
 * readers then index: that panic is a precondition here. `Get` also indexes
 * the first value of a present slot, which panics on an empty one; the
 * store `NewQS` builds never has one (`TwoLevelStore.BuildNonEmpty`).
 */
module LegacyQs {
  import opened Wrappers
  import opened TwoLevelStore

  /** `getPathComponents`: a lone key is read with the empty subkey. */
  function PathComponents(path: seq<string>): (r: seq<string>)
    ensures |path| >= 1 ==> |r| >= 2 && r[0] == path[0]
    ensures |path| == 1 ==> r[1] == ""
    ensures |path| >= 2 ==> r[1] == path[1]
    ensures |path| != 1 ==> r == path
  {
    if |path| == 1 then path + [""] else path
  }

  /** The slot a path reads: its key and its subkey. */
  function Addressed(q: QS, path: seq<string>): seq<string>
    requires |path| >= 1
  {
    var p := PathComponents(path);
    Slot(q.values, p[0], p[1])
  }

  /** The slot a path reads is absent or holds a value. */
  predicate Readable(q: QS, path: seq<string>)
    requires |path| >= 1
  {
    var p := PathComponents(path);
    Present(q.values, p[0], p[1]) ==> |q.values[p[0]][p[1]]| > 0
  }

  /** `Get(path...)`: the first value of the slot, `""` when it is absent. */
  function Get(q: QS, path: seq<string>): (r: string)
    requires |path| >= 1 && Readable(q, path)
    ensures |Addressed(q, path)| > 0 ==> r == Addressed(q, path)[0]
    ensures |Addressed(q, path)| == 0 ==> r == ""
  {
    var p := PathComponents(path);
    if Present(q.values, p[0], p[1]) then q.values[p[0]][p[1]][0] else ""
  }

  /**
   * `GetWithDefault(def, path...)`: `def` whenever `Get` gives `""`, so also
   * when the first stored value is itself the empty string.
   */
  function GetWithDefault(q: QS, def: string, path: seq<string>): (r: string)
    requires |path| >= 1 && Readable(q, path)
    ensures |Addressed(q, path)| == 0 || Addressed(q, path)[0] == "" ==> r == def
    ensures |Addressed(q, path)| > 0 && Addressed(q, path)[0] != "" ==> r == Addressed(q, path)[0]
  {
    var v := Get(q, path);
    if v == "" then def else v
  }

  /** `GetAll(path...)`: the values of the slot, the empty list when it is absent. */
  function GetAll(q: QS, path: seq<string>): (r: seq<string>)
    requires |path| >= 1
    ensures r == Addressed(q, path)
  {
    var p := PathComponents(path);
    if Present(q.values, p[0], p[1]) && |q.values[p[0]][p[1]]| != 0 then q.values[p[0]][p[1]] else []
  }

  /** `GetAllWithDefault(def, path...)`: `def` when the slot has no values. */
  function GetAllWithDefault(q: QS, def: seq<string>, path: seq<string>): (r: seq<string>)
    requires |path| >= 1
    ensures |Addressed(q, path)| == 0 ==> r == def
    ensures |Addressed(q, path)| > 0 ==> r == Addressed(q, path)
  {
    var vals := GetAll(q, path);
    if |vals| == 0 then def else vals
  }

  // ---------------------------------------------------------------------
  // Properties
  // ---------------------------------------------------------------------

  /** Only the first two strings of a path are read. */
  lemma OnlyTwoComponents(q: QS, path: seq<string>, more: seq<string>)
    requires |path| >= 2
    ensures GetAll(q, path + more) == GetAll(q, path[..2])
    ensures GetAll(q, path) == Slot(q.values, path[0], path[1])
  {
    assert (path + more)[0] == path[0] && (path + more)[1] == path[1];
  }

  /** In a store whose slots hold values, `Get` is the head of `GetAll`, or `""` when that is empty. */
  lemma GetIsHeadOfGetAll(q: QS, path: seq<string>)
    requires |path| >= 1 && SlotsNonEmpty(q.values)
    ensures Readable(q, path)
    ensures Get(q, path) == if |GetAll(q, path)| > 0 then GetAll(q, path)[0] else ""
  {
  }

  /** A lone key reads the empty subkey. */
  lemma LoneKey(q: QS, key: string)
    ensures GetAll(q, [key]) == GetAll(q, [key, ""]) == Slot(q.values, key, "")
  {
  }

  /** After `NewQS`, a key and subkey read back the values of every entry naming them. */
  lemma ReadsCollected(rawQuery: string, es: seq<Entry>, key: string, sub: string)
    ensures NewQS(rawQuery, Some(es)).Ok?
    ensures GetAll(NewQS(rawQuery, Some(es)).value, [key, sub]) == Collected(es, key, sub)
  {
    BuildSlots(es, key, sub);
  }

  /**
   * After `NewQS` with entries that each hold a value, every path can be
   * read with `Get`, which gives the first value collected for it.
   */
  lemma GetAfterNew(rawQuery: string, es: seq<Entry>, key: string, sub: string)
    requires forall j :: 0 <= j < |es| ==> |es[j].vals| > 0
    ensures NewQS(rawQuery, Some(es)).Ok?
    ensures Readable(NewQS(rawQuery, Some(es)).value, [key, sub])
    ensures Get(NewQS(rawQuery, Some(es)).value, [key, sub])
         == if |Collected(es, key, sub)| > 0 then Collected(es, key, sub)[0] else ""
  {
    BuildNonEmpty(es);
    BuildSlots(es, key, sub);
  }

  /** A stored empty string is read as missing by `GetWithDefault`. */
  lemma ExampleEmptyValueMasked()
    ensures var q := QS("a=", map["a" := map["" := [""]]]);
            GetAll(q, ["a"]) == [""] && GetWithDefault(q, "x", ["a"]) == "x"
  {
  }
}
