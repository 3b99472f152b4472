# go-qs in Dafny

A model of go-qs, a Go library that turns a URL query string with bracketed
keys (`a[b][c]=v`) into a tree of values. The model covers:

- the current package `qs/qs.go`:
  - the bracket-key scanner `parseKey`;
  - the value tree with `navigate`, `Set`, `Add`, `Get`, `GetAll` and the two default readers;
  - the optional path delimiter;
  - the insertion loop of `New`;
  - the serializer `print` behind `String` and `EncodedString`;
- the two earlier front ends `qrystr.go` and `qs.go`, which keep a two-level
  map from key and subkey to a list of values.

Files:

| file | module | contents |
|---|---|---|
| `wrappers.dfy` | `Wrappers` | `Option` and `Result` |
| `strings.dfy` | `Strs` | `strings.Split`, `strings.Join`, character counting and removal, with their algebra |
| `key_parser.dfy` | `KeyParser` | `parseKey` as a scan function, plus its reference description (see below); an imperative loop proved equal to it |
| `rune_offset.dfy` | `RuneOffset` | `parseKey` exactly as written, byte offsets included (see Findings) |
| `value_tree.dfy` | `ValueTree` | the node tree, child lookup and insertion, and `navigate` plus edit as one pure update |
| `query.dfy` | `Query` | the `QS` container, `Set`, `Add`, `Get`, `GetAll`, the default readers, the delimiter, and `New` |
| `serialize.dfy` | `Serialize` | `print`, `String`, `EncodedString`, and the printed tokens as a multiset |
| `two_level_store.dfy` | `TwoLevelStore` | the older key/subkey store and the append loop of `NewQS` |
| `qrystr.dfy` | `Qrystr` | `qrystr.go` readers (dotted string path) |
| `legacy_qs.dfy` | `LegacyQs` | `qs.go` readers (variadic path) |

How the model is put together:

- **Children.** A node's children form a sequence with distinct segments. That is one admissible iteration order of the Go map.
- **Values** are a type parameter `V`. Printing takes the `%v` rendering and `url.QueryEscape` as function parameters.
- **Panics become preconditions.** An empty path to `Set`/`Add` is one; an empty path or an empty stored list in the older `Get` is another.
- **Reference description of `parseKey`.**
  - A key is accepted when its brackets alternate `[ ] [ ] ...`.
  - Its segments are the key with every `]` removed, split at each `[`.
  - When the key reaches the `maxDepth`-th `[`, only the part before that `[` is split, and the rest is kept verbatim.
  - `KeyParser.ParseKeyUncapped`, `KeyParser.ParseKeyCapped` and `KeyParser.ParseKeyErrorIff` prove that the scanner computes exactly this.

**Where the documentation and the code differ.** The comment on `ErrUnbalanced`
(qs/qs.go:17-18) says that error is returned for unbalanced keys such as
`a[[b]` and `a[b]]`, with no mention of depth. The code differs in two ways.
It never returns `ErrUnbalanced`; every rejected key gets `ErrInvalidQS`
(`KeyParser.ParseKey`). It also stops scanning at the `maxDepth`-th `[`, so
with `MaxDepth` 1 it accepts `a[[b]` as `["a", "[[b]"]` and `a[b]]` as
`["a", "[b]]"]`. The model follows the code (`KeyParser.ExampleNested`,
`KeyParser.ExampleStray`).

## Model

| member | source | states |
|---|---|---|
| KeyParser.Scan | qs/qs.go:119-141 | one step of the scan loop per character; an accepted scan adds at least the current segment, and the only failure is `InvalidQS` |
| KeyParser.ParseKey | qs/qs.go:113-142 | an accepted key has at least one segment; the only error returned is `ErrInvalidQS`, never `ErrUnbalanced` |
| KeyParser.ParseKeyUncapped | qs/qs.go:113-142 | when the depth cap is off or not reached: error exactly when the brackets do not alternate, otherwise the segments are the key without `]` split at every `[` |
| KeyParser.ParseKeyCapped | qs/qs.go:120-129 | when the `maxDepth`-th `[` is at `p`: error exactly when the brackets up to and including it do not alternate, otherwise the segments of `key[..p]` followed by `key[p..]` verbatim |
| KeyParser.ParseKeyErrorIff | qs/qs.go:130-133 | `parseKey` fails exactly when the part of the key it reads meets a `[` inside a bracket or a `]` outside one, and the error is `InvalidQS` |
| KeyParser.ParseKeyUnlimitedShape | qs/qs.go:52-56 | with `maxDepth <= 0` an accepted key has 1 + (number of `[`) segments, none holds a bracket, and laid end to end they are the key with its brackets removed |
| KeyParser.ParseKeyCappedShape | qs/qs.go:124-129 | when the key holds at least `maxDepth >= 1` `[`, an accepted key has exactly `maxDepth + 1` segments and the last is the key from the `maxDepth`-th `[` on |
| KeyParser.ParseKeyDepthBound | qs/qs.go:124-129 | with a positive `maxDepth`, no key yields more than `maxDepth + 1` segments |
| KeyParser.ParseKeyEmpty | qs/qs.go:139-141 | the empty key is the single segment `""` at every depth |
| KeyParser.ExampleNoBrackets | qs/qs.go:134-136 | `j` is the single segment `j` |
| KeyParser.ExampleOneGroup | qs/qs.go:121-129 | `x[y]` gives `[x, y]` for any non-bracket characters |
| KeyParser.ExampleTextAfterClose | qs/qs.go:130-136 | `a[b]c` gives `["a", "bc"]`: text after `]` joins the open segment |
| KeyParser.ExampleUnclosed | qs/qs.go:139-141 | `a[b` is accepted as `["a", "b"]` |
| KeyParser.ExampleCapped | qs/qs.go:52-56 | `a[b][c][d]` with depth 2 gives `["a", "b", "[c][d]"]` |
| KeyParser.ExampleEmptyGroup | qs/qs.go:121-131 | `d[]` gives `["d", ""]` |
| KeyParser.ExampleNested | qs/qs.go:121-133 | `a[[b]` is rejected with depth 0 and 5, but accepted as `["a", "[[b]"]` with depth 1 |
| KeyParser.ExampleStray | qs/qs.go:121-133 | `a[b]]` is rejected at the default depth 5, but accepted as `["a", "[b]]"]` with depth 1 |
| KeyParser.ParseKeyLoop | qs/qs.go:113-142 | the imperative scanner with its loop, break and early return returns exactly `ParseKey` |
| RuneOffset.Utf8Width | qs/qs.go:120 | the byte width by which `range` advances its offset is between 1 and 4, and 1 exactly for ASCII |
| RuneOffset.ParseKeyAsWritten | qs/qs.go:113-142 | on a key of one-byte characters the scanner as written parses exactly when `ParseKey` does, to the same segments, and never panics |
| RuneOffset.ScanAsciiAgrees | qs/qs.go:120-129 | while every character is one byte wide, the byte offset equals the character index and the as-written scan equals `Scan` |
| RuneOffset.AsciiAgrees | qs/qs.go:113-142 | on ASCII keys the as-written scanner computes `ParseKey` and never panics |
| RuneOffset.MisplacedRemainder | qs/qs.go:127 | `é[b]` with depth 1 gives `["é", "b]"]` as written, where the capped remainder should be `[b]` |
| RuneOffset.RemainderPastEnd | qs/qs.go:127 | `ééé[` with depth 1 slices past the end of the rune slice |
| ValueTree.Find | qs/qs.go:170 | a child is found exactly when its segment is among the children's keys, and the child found has that segment |
| ValueTree.PutChild | qs/qs.go:171-174 | the new child is found under its segment, every other segment keeps its child, the key set grows by that segment, and distinct keys stay distinct |
| ValueTree.NewNode | qs/qs.go:152-158 | a new node carries the given key, holds no values, has no child under any segment, and is well formed |
| ValueTree.NewNodeEmpty | qs/qs.go:152-158 | a new node has no values anywhere and no node below it |
| ValueTree.Update | qs/qs.go:160-183 | walking and editing keeps the node's own key, and its own values when the path is not empty |
| ValueTree.UpdateHere | qs/qs.go:168-182 | after the update the values at the path are the edit applied to the old values (the empty list for a new node) |
| ValueTree.UpdateElsewhere | qs/qs.go:168-182 | the update changes the values at no other path |
| ValueTree.UpdateNodes | qs/qs.go:168-176 | afterwards a node exists where one did before or on a prefix of the path, and nowhere else |
| ValueTree.UpdateWellFormed | qs/qs.go:170-174 | updates keep every node's children keyed by distinct segments |
| Query.Resolve | qs/qs.go:191-193 | without a delimiter, or for an empty path, the path is left as it is; with one, the pieces joined by the delimiter give back the first argument, a one-character delimiter occurs in no piece, and a non-empty path stays non-empty |
| Query.Set | qs/qs.go:187-199 | `Set` keeps the raw query, the depth, the delimiter, and the root's key and values |
| Query.Add | qs/qs.go:203-215 | `Add` keeps the raw query, the depth, the delimiter, and the root's key and values |
| Query.Get | qs/qs.go:221-252 | absent exactly when `GetAll` at the same path is empty, otherwise its first element |
| Query.GetAll | qs/qs.go:315-343 | empty for the empty path and when no node sits at the resolved path; otherwise the values of that node |
| Query.GetWithDefault | qs/qs.go:304-310 | the first value at the path, or `def` exactly when there is none (empty path, missing node, or no values) |
| Query.GetAllWithDefault | qs/qs.go:348-354 | the values at the path, or `def` exactly when there are none |
| Query.Insert | qs/qs.go:101-108 | the only error of the loop is `InvalidQS`; a completed loop keeps the raw query, the depth, the delimiter, and the root's key and values |
| Query.New | qs/qs.go:79-111 | a failed decode is an error, and the only error is `InvalidQS`; a result carries the raw query, the configured depth and delimiter, and a value-less root keyed `""` |
| Query.GetIsFirstOfGetAll | qs/qs.go:221-252 | `Get` is absent exactly when `GetAll` is empty, and is otherwise its first element |
| Query.DelimiterEquivalence | qs/qs.go:232-234 | with a delimiter, `Get`, `GetAll`, `Set` and `Add` act as without one on the first argument split at the delimiter |
| Query.SetReplaces | qs/qs.go:187-199 | after `Set(vals, p)`, `GetAll` at `p` without its trailing `""` is `vals` |
| Query.AddAppends | qs/qs.go:203-215 | after `Add(v, p)`, `GetAll` at `p` without its trailing `""` is the old list plus `v` |
| Query.SetLeavesOthers | qs/qs.go:195-198 | `Set` changes `GetAll` at no other path |
| Query.AddLeavesOthers | qs/qs.go:211-214 | `Add` changes `GetAll` at no other path |
| Query.EmptyPathWritesNothing | qs/qs.go:163-182 | a path that is empty once one trailing `""` is dropped makes `navigate` return nil, so `Set` and `Add` change nothing |
| Query.WritesCreateOnlyPath | qs/qs.go:168-176 | after `Set` or `Add`, a node exists exactly where one existed before or on a prefix of the stripped path |
| Query.SetKeepsValid | qs/qs.go:28-29 | `Set` keeps the root an empty placeholder and all children distinct |
| Query.AddKeepsValid | qs/qs.go:28-29 | `Add` keeps the root an empty placeholder and all children distinct |
| Query.InsertResult | qs/qs.go:101-108 | the insertion loop fails, with `InvalidQS`, exactly when some raw key does not parse; otherwise it keeps the configuration and the placeholder root |
| Query.InsertUntouched | qs/qs.go:101-108 | pairs written at other paths leave the values at a path alone |
| Query.InsertFirstWins | qs/qs.go:101-108 | the first pair's values stay at its path when no later pair is written there |
| Query.InsertLastWins | qs/qs.go:101-108 | the values at a written path are those of the last pair written there |
| Query.InsertNodes | qs/qs.go:101-108 | after the loop, nodes exist exactly on the prefixes of the written paths |
| Query.NewResult | qs/qs.go:79-111 | `New` fails, with `InvalidQS`, exactly when decoding fails or a key does not parse; otherwise the raw query, depth and restored delimiter are kept and the tree is valid |
| Query.NewStores | qs/qs.go:96-108 | after `New`, a raw key's path holds that key's values unless a later key is written at the same path |
| Query.NewUnwritten | qs/qs.go:96-108 | after `New`, a path no raw key is written at holds no values |
| Query.NewNodes | qs/qs.go:96-108 | after `New`, a node exists at a non-empty path exactly when it is a prefix of some written path |
| Query.ExampleTree | qs/qs_test.go:11-41 | `a[b]=c` gives root `""` with no values, child `a` with no values, grandchild `b` holding `c` |
| Query.ExampleKeyPaths | qs/qs.go:113-142 | `a[b]`, `a[g]`, `d[]` and `j` parse at depth 5 and are written at `a,b`, `a,g`, `d` (the trailing `""` dropped) and `j` |
| Query.ExamplePaths | qs/qs.go:101-107 | the keys `a[b]`, `a[g]`, `d[]`, `j` are written at `a,b`, `a,g`, `d` and `j`, and `New` succeeds |
| Query.ExampleStored | qs/qs.go:101-107 | in that query each of the four written paths reads back its key's values |
| Query.ExampleAbsent | qs/qs.go:315-343 | in that query a single-segment path other than `d` and `j` reads as empty |
| Query.ExampleNoEmptyChild | qs/qs.go:163-166 | writing `d[]` creates no node at `d, ""` |
| Query.ExampleWrittenPaths | qs/qs.go:221-252 | `GetAll(a, g)` is `[h, i]`, `Get(a, b)` is `c`, `Get(d)` is `f` |
| Query.ExampleUnwrittenPaths | qs/qs.go:236-249 | `Get(a)` (a node without values) and `Get(z)` (no node) are absent |
| Query.ExampleNoStripOnRead | qs/qs.go:236-240 | `Get(d, "")` is absent although `d[]=f` was parsed: reads do not drop the trailing `""` |
| Serialize.PrintEach | qs/qs.go:395-397 | one printed string per child |
| Serialize.Print | qs/qs.go:375-400 | a node without values and children prints nothing; a node's own first value is the first token printed, under the key of its path |
| Serialize.String | qs/qs.go:359-364 | an empty root prints as the empty string; the root's own first value is printed first, as `key=value` |
| Serialize.EncodedString | qs/qs.go:368-373 | an empty root prints as the empty string; the root's own first value is printed first, key and value escaped |
| Serialize.PrintTokens | qs/qs.go:375-400 | split on `&`, the non-empty pieces of `print` are, as a multiset, exactly one `key=value` per stored value, when no token contains `&` |
| Serialize.StringTokens | qs/qs.go:359-364 | the same for `String()` |
| Serialize.EncodedTokens | qs/qs.go:368-373 | with an escape that never outputs `&`, the non-empty pieces of `EncodedString()` are exactly the escaped tokens, with no condition on keys or values |
| Serialize.TokensFree | qs/qs.go:383-386 | tokens built from escaped keys and values contain no `&` |
| Serialize.TokenComplete | qs/qs.go:383-397 | every value stored at a path gives the token keyed by that path's bracket key |
| Serialize.TokenSound | qs/qs.go:383-397 | every token of a well-formed tree comes from a value stored at the path its key names |
| Serialize.TokenOrigin | qs/qs.go:383-397 | the path and position of the stored value each token comes from |
| Serialize.BracketKeyRoot | qs/qs.go:376-377 | the root's empty segment adds nothing to a printed key |
| Serialize.BracketKeyForm | qs/qs.go:376-380 | a path with a non-empty first segment prints as that segment followed by `[s]` for each further segment |
| Serialize.KeyRoundTrip | qs/qs.go:376-380 | a printed key parses back to its path when the first segment is not empty, no segment holds a bracket, and the depth limit leaves room |
| Serialize.StoredValuePrinted | qs/qs.go:359-364 | `String()` prints each stored value under a key that parses back to the value's path, under the same conditions |
| Serialize.ExampleString | qs/qs.go:375-400 | the tree of `a[b]=c` prints as `a[b]=c` |
| TwoLevelStore.Insert | qrystr.go:32-35 | the slot becomes present and holds its old values followed by the new ones; every other slot is unchanged |
| TwoLevelStore.InsertKeepsNonEmpty | qrystr.go:32-35 | appending values keeps every present slot non-empty |
| TwoLevelStore.Build | qrystr.go:30-36 | every key of the built store is the key of some entry |
| TwoLevelStore.BuildSlots | qrystr.go:30-36 | after the loop, each slot holds the values of all entries naming it in entry order, and exactly the named slots are present |
| TwoLevelStore.BuildSlot | qrystr.go:30-36 | after the loop, each slot holds the values of all entries naming it, in entry order |
| TwoLevelStore.BuildPresent | qrystr.go:30-36 | after the loop, a slot is present exactly when some entry names it |
| TwoLevelStore.BuildNonEmpty | qs.go:30-36 | when every decoded key has a value, every slot has one |
| TwoLevelStore.NewQS | qrystr.go:19-39 | fails exactly when decoding fails; otherwise keeps the raw query and holds only keys that some decoded entry names |
| TwoLevelStore.NewQSResult | qrystr.go:19-39 | `NewQS` fails exactly when the decoder does, and otherwise keeps the raw query and collects every slot |
| TwoLevelStore.ExampleBuild | qrystr_test.go:12-24 | `a[b]=c&a[g]=h&a[g]=i&d[]=f&j=k` builds `{a:{b:[c], g:[h,i]}, d:{"":[f]}, j:{"":[k]}}` |
| TwoLevelStore.ExampleNonEmpty | qrystr_test.go:17-21 | every slot of that store holds a value, so `Get` may read it |
| Qrystr.PathComponents | qrystr.go:64-70 | at least two parts, none of which holds a `.` |
| Qrystr.Get | qrystr.go:45-51 | the first value of the addressed slot, `""` when the slot is absent |
| Qrystr.GetAll | qrystr.go:56-62 | the values of the addressed slot, the empty list when it is absent or empty |
| Qrystr.PathRoundTrip | qrystr.go:64-70 | `key.sub`, or `key` alone for the empty subkey, addresses exactly `key` and `sub` when neither holds `.` |
| Qrystr.ExtraPartsIgnored | qrystr.go:45-70 | parts after the second are never read: `key.sub.rest` is read by `Get` and `GetAll` as the slot of `key` and `sub` |
| Qrystr.GetIsHeadOfGetAll | qrystr.go:45-62 | when every slot holds values, `Get` is the head of `GetAll`, or `""` when it is empty |
| Qrystr.AgreesWithVariadic | qrystr.go:64-70 | the dotted path reads the same slot as its parts given to the qs.go readers |
| Qrystr.ReadsCollected | qrystr.go:56-62 | after `NewQS`, `key.sub` reads the values of every entry for that key and subkey |
| Qrystr.ReadsSlot | qrystr.go:56-70 | `key.sub`, or `key` alone, reads exactly the slot of `key` and `sub` when neither holds `.` |
| Qrystr.ReadsFirst | qrystr.go:45-51 | in a store whose slots hold values, the path of a key and subkey `Get`s the slot's first value, `""` when it is absent |
| Qrystr.ExampleReads | qrystr_test.go:37-38 | on the test query, `Get("a.b")` is `c` and `Get("a.g")` is `h` |
| Qrystr.ExampleReadsLone | qrystr_test.go:39-41 | on the test query, `Get("d")` is `f`, `Get("j")` is `k` and `Get("")` is `""` |
| Qrystr.ExampleReadAll | qrystr_test.go:68-71 | on the test query, `GetAll("a.g")` is `[h, i]`, `GetAll("d")` is `[f]` and `GetAll("")` is empty |
| LegacyQs.PathComponents | qs.go:87-92 | a one-string path gains the empty subkey, and any other path is returned unchanged |
| LegacyQs.Get | qs.go:45-51 | the first value of the addressed slot, `""` when it is absent |
| LegacyQs.GetWithDefault | qs.go:57-63 | `def` exactly when the slot is empty or its first value is `""`, otherwise that value |
| LegacyQs.GetAll | qs.go:68-74 | the values of the addressed slot, the empty list when it is absent or empty |
| LegacyQs.GetAllWithDefault | qs.go:79-85 | `def` exactly when the slot has no values, otherwise the values |
| LegacyQs.OnlyTwoComponents | qs.go:68-74 | only the first two strings of a path are read |
| LegacyQs.LoneKey | qs.go:87-92 | a lone key reads the empty subkey |
| LegacyQs.GetIsHeadOfGetAll | qs.go:45-74 | when every slot holds values, `Get` is the head of `GetAll`, or `""` when it is empty |
| LegacyQs.ReadsCollected | qs.go:30-36 | after `NewQS`, a key and subkey read the values of every entry naming them |
| LegacyQs.GetAfterNew | qs.go:45-51 | after `NewQS`, every slot can be read with `Get`, which gives the first collected value |
| LegacyQs.ExampleEmptyValueMasked | qs.go:57-63 | a stored `""` is returned by `GetAll` but replaced by the default in `GetWithDefault` |

## Left out

- `url.ParseQuery` and `url.QueryEscape` are net/url's percent-decoding and encoding. `New` and `NewQS` take the decoded pairs, or `None` when decoding failed, and `EncodedString` takes the escape as a parameter.
- `sync.RWMutex` locking is concurrency; the model is single-threaded.
- The typed getters (`GetString`, `GetInt*`, `GetFloat*`, `GetBool`, `GetStringSlice`) are conversions through an external casting library.
- The regular expression of the older `NewQS` is a foreign regex engine. The model takes the extracted key and subkey as an `Entry`, so the two files' different character classes are not modelled, nor is the panic on a key the pattern does not match.
- `%v` rendering of values is a parameter of `print`.
- Go map iteration order is not modelled:
  - Children are printed in sequence order, and the printed output is characterised as a multiset of tokens.
  - The decoded pairs and entries are taken in one given order.
- Query.NewStores: assumes no later raw key collapses to the same path, because the winner between such keys depends on map order.
- Query.GetWithDefault: treats a node's first value as present even where Go would store `nil` and return the default, because stored Go `nil` values are not modelled.
- Shared slices and in-place mutation are not modelled. Values are immutable sequences, so `Query.SetReplaces` and `Query.AddAppends` hold whatever the caller does afterwards. In Go the results can alias: `Set` stores the caller's slice itself (qs/qs.go:197), `Add` appends in place and can write into a backing array the caller still holds (qs/qs.go:213), and `GetAll` returns the stored slice (qs/qs.go:338). A caller that later changes such a slice changes the tree.
- The distinction between a nil and an empty slice in `GetAll` is collapsed to the empty sequence.
- The functional options `MaxDepth` and `PathDelimiter` are replaced by a `Config` record with the same defaults (depth 5, no delimiter).
- A full round trip of `String()` through URL decoding and `New` depends on the decoder and is not stated. Serialize.KeyRoundTrip covers the key part.
- Keys are modelled as character sequences (runes). The byte offset the source uses at the depth cap is modelled separately in `RuneOffset` (see Findings).

## Findings

| source | as written | input that shows it | evidently intended | confidence | as-written member | corrected member |
|---|---|---|---|---|---|---|
| qs/qs.go:127 | at the depth cap the remainder is `[]rune(key)[i:]`, where `i` is the byte offset that `range` over a string yields, used as a rune index | `é[b]` with `MaxDepth` 1 gives `["é", "b]"]`; `ééé[` with `MaxDepth` 1 slices past the end and panics | the rest of the key from the `maxDepth`-th `[` on, here `["é", "[b]"]` | high; not executed | RuneOffset.MisplacedRemainder | KeyParser.ParseKeyCappedShape |
