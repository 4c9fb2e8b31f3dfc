# Wheel registry, modelled in Dafny

The Wheel client modification keeps its registrable kinds (for example the
kinds of widget actions) in a generic `Registry<T, Z>`: an insertion-ordered
map from identifiers `T` to entries `Z`, backed by a `LinkedHashMap`. It has
these operations:

- `register`: forward registration, last write wins.
- `get`: forward lookup, which may come back empty.
- `isRegistered`: a membership test on entries.
- `getIdentifier`: a reverse lookup that scans the entries in insertion order
  and fails with an `AssertionError` when no entry matches.
- `keySet` and `entrySet`: ordered enumeration.
- `clear`.
- `getCodec`: a codec adapter. It decodes an identifier through `get` and
  encodes an entry through `getIdentifier`.

The model has three files:

- `wrappers.dfy` (module `Wrappers`): `Option`, standing for Java's
  `Optional`, and `DataResult`, the decoder's success or error.
- `ordered_entries.dfy` (module `OrderedEntries`): the reference definitions.
  The map's iteration order is a list of (key, value) entries:
  - `Put` is the `LinkedHashMap.put` rule. An existing key keeps its place and
    takes the new value. A new key goes to the end.
  - `Lookup` is `get`.
  - `FirstKeyOf` is the first-match scan.
  - `Replay` builds the entries from a whole history of registrations.
  - `FirstOccurrences` and `LastValue` describe that history.

  The lemmas in this module are the properties of these definitions.
- `registry.dfy` (module `Util`): the class `Util.Registry`. It keeps the two
  parts of the `LinkedHashMap` as fields that its methods change in place:
  - `keys`, the linked insertion order;
  - `table`, the hash table.

  A ghost field `registrations` records every `register` call since the
  registry was made or last cleared. The object invariant `Valid()` holds
  two facts:
  - the two parts describe one map whose keys are all distinct;
  - the ordered view `EntrySet()` is what replaying `registrations` gives.

  Every operation is proved against the definitions in `OrderedEntries`.

`getIdentifier` is a `method` with a loop, as in the source. `Encode` is the
same lookup written as a function, so that other functions and lemmas can use
it. `GetIdentifier` proves that it returns the same identifier as `Encode`.

Read as a bidirectional map, the registry would have `getIdentifier(v)`
return `k` for every registered pair `(k, v)`. The code returns the earliest
identifier whose entry equals `v`, and the model follows the code.
`Util.Registry.EncodeDecode` states exactly when the round trip from identifier back to identifier holds.

## Model

| member | source | states |
|---|---|---|
| Util.Registry.constructor | src/main/java/com/manchick/wheel/util/Registry.java:10 | a new registry satisfies its invariant and has no entries and no registration history |
| Util.Registry.Register | src/main/java/com/manchick/wheel/util/Registry.java:12-14 | the new ordered view is `Put` of the old one: a new identifier is appended, a known one keeps its position with the new entry; `get` of the identifier gives the entry and `get` of every other identifier is unchanged; the key order grows by the identifier only when it was new; the invariant is kept |
| Util.Registry.IsRegistered | src/main/java/com/manchick/wheel/util/Registry.java:16-18 | true exactly when some entry of the ordered view carries the value, that is, when `get` of some registered identifier returns it |
| Util.Registry.Get | src/main/java/com/manchick/wheel/util/Registry.java:20-22 | the hash-table lookup equals the first-match `Lookup` in the ordered view; it is present exactly when the identifier is among the registered keys, absent otherwise, and it has no precondition beyond the invariant |
| Util.Registry.KeySet | src/main/java/com/manchick/wheel/util/Registry.java:24-26 | the identifiers in the same order as the entry set, with no identifier twice |
| Util.Registry.GetIdentifier | src/main/java/com/manchick/wheel/util/Registry.java:28-33 | for a registered entry, the linear scan returns the key of the earliest entry in insertion order whose value equals it (`FirstKeyOf`), which is also what `Encode` returns |
| Util.Registry.EntrySet | src/main/java/com/manchick/wheel/util/Registry.java:35-37 | the entries in insertion order: its keys are exactly the key order, and no key occurs twice |
| Util.Registry.Clear | src/main/java/com/manchick/wheel/util/Registry.java:39-41 | afterwards there are no entries and no history, `get` is absent for every identifier and `isRegistered` is false for every entry |
| Util.Registry.Decode | src/main/java/com/manchick/wheel/util/Registry.java:43-45 | decoding succeeds exactly when the identifier is registered, with the entry `get` returns; otherwise the error message is "Unknown type: " followed by the identifier's text |
| Util.Registry.Encode | src/main/java/com/manchick/wheel/util/Registry.java:45 | the identifier chosen for a registered entry maps back to that entry under `get`, and no entry earlier in insertion order carries it |
| Util.Registry.DecodeEncode | src/main/java/com/manchick/wheel/util/Registry.java:43-45 | decoding the encoding of any registered entry succeeds with that entry |
| Util.Registry.EncodeDecode | src/main/java/com/manchick/wheel/util/Registry.java:43-45 | decoding any registered identifier succeeds; encoding the result gives the identifier back exactly when no earlier identifier is registered with an equal entry |
| Util.Registry.EntrySetAgreesWithGet | src/main/java/com/manchick/wheel/util/Registry.java:20-37 | the i-th entry of the entry set has the i-th identifier of the key set, paired with the entry `get` returns for it |
| Util.Registry.RegistrationOrder | src/main/java/com/manchick/wheel/util/Registry.java:10-14 | the key order is the order of first registration since the last clear, however often identifiers were re-registered, and `get` returns the entry each identifier was registered with last |
| Util.Registry.LookupTable | src/main/java/com/manchick/wheel/util/Registry.java:20-22 | looking up in the hash table agrees with the first-match lookup in the insertion-ordered view |
| Util.Registry.RegisteredValues | src/main/java/com/manchick/wheel/util/Registry.java:16-18 | `containsValue` on the hash table agrees with a value test over the entries in insertion order |
| Util.PairsPut | src/main/java/com/manchick/wheel/util/Registry.java:13 | updating the hash table, and appending the key to the order only when it is new, keeps the keys distinct and has the effect of `Put` on the ordered view |
| Util.RegisterStep | src/main/java/com/manchick/wheel/util/Registry.java:12-14 | one registration keeps the representation invariant, including the agreement with the replayed history |
| OrderedEntries.Lookup | src/main/java/com/manchick/wheel/util/Registry.java:20-22 | absent exactly when no entry has the key; when present, the pair (key, value) is one of the entries |
| OrderedEntries.FirstKeyOf | src/main/java/com/manchick/wheel/util/Registry.java:28-33 | present exactly when some entry carries the value; then it is the key of an entry with that value, and no earlier entry carries the value |
| OrderedEntries.LookupAt | src/main/java/com/manchick/wheel/util/Registry.java:20-22 | with distinct keys, looking up the key of any entry gives that entry's value |
| OrderedEntries.PutInPlace | src/main/java/com/manchick/wheel/util/Registry.java:13 | putting an existing key replaces its entry at the same position and changes nothing else |
| OrderedEntries.PutAppends | src/main/java/com/manchick/wheel/util/Registry.java:13 | putting a new key appends exactly one entry at the end |
| OrderedEntries.PutKeys | src/main/java/com/manchick/wheel/util/Registry.java:13 | after a put the key order is unchanged if the key was present, and is otherwise the old order followed by the key |
| OrderedEntries.PutKeepsDistinct | src/main/java/com/manchick/wheel/util/Registry.java:10-13 | a put never creates a duplicate key |
| OrderedEntries.PutLookup | src/main/java/com/manchick/wheel/util/Registry.java:12-22 | after a put, looking up its key gives the new value and looking up any other key gives what it gave before |
| OrderedEntries.PutLookupEverywhere | src/main/java/com/manchick/wheel/util/Registry.java:12-22 | the same as PutLookup, stated for every key at once |
| OrderedEntries.PutPut | src/main/java/com/manchick/wheel/util/Registry.java:12-14 | registering a key twice leaves the same entries as registering only the second value |
| OrderedEntries.LookupFirstKey | src/main/java/com/manchick/wheel/util/Registry.java:28-33 | with distinct keys, the key found by the reverse scan looks up to the value, and no earlier entry carries the value |
| OrderedEntries.FirstKeyOfAt | src/main/java/com/manchick/wheel/util/Registry.java:28-33 | the reverse scan for the value of entry i returns entry i's key exactly when no earlier entry carries the same value |
| OrderedEntries.ReplaySnoc | src/main/java/com/manchick/wheel/util/Registry.java:12-14 | replaying one more registration applies one more put |
| OrderedEntries.FirstOccurrences | src/main/java/com/manchick/wheel/util/Registry.java:10 | the result has no duplicates and has the same elements as its input |
| OrderedEntries.FirstOccurrencesSnoc | src/main/java/com/manchick/wheel/util/Registry.java:10 | adding an element at the end adds it to the first occurrences only when it is new |
| OrderedEntries.LastValue | src/main/java/com/manchick/wheel/util/Registry.java:12-14 | absent exactly when the key was never registered in the history; otherwise it is a value the key was registered with |
| OrderedEntries.ReplayKeys | src/main/java/com/manchick/wheel/util/Registry.java:10-14 | after any history of registrations the key order is the order of first registration and holds no key twice |
| OrderedEntries.ReplayLookup | src/main/java/com/manchick/wheel/util/Registry.java:12-22 | after any history of registrations, looking up a key gives the value it was registered with last, and nothing for a key that was never registered |

## Left out

- `Widget.java` is not part of this model. It is glue over the game's own
  types: the record codec over text, item and action codecs, JSON parsing with
  logging, `run` forwarding to `Action.run`, and `getStack`/`empty` over item
  stacks and formatted text. None of these can be stated without the game's
  code.
- The codec objects themselves are not modelled. This covers the
  `Codec`/`DataResult` classes, `comapFlatMap`, and the identifier codec
  `tCodec`. `Util.Registry.Decode` and `Util.Registry.Encode` model only the
  registry's side of the adapter. The identifier's text in the error message
  is the parameter `show`, which stands for Java's `toString`.
- Util.Registry.Decode: the error message is built eagerly. The source builds
  it lazily through a supplier, and the model does not capture that laziness.
- Null is not modelled. Identifiers and entries are assumed non-null. So the
  model does not capture `Optional.ofNullable` hiding a registered `null`, or
  `equals` throwing on a stored `null`.
- `keySet()` and `entrySet()` are read-only snapshots. Writing through the
  live views of the Java map is not modelled.
- Equality of identifiers and entries is Dafny's structural equality. It
  stands for Java's `equals` and `hashCode`.
- Util.Registry.GetIdentifier: the `AssertionError` raised when no entry
  matches is a precondition (`IsRegistered`). The failure itself is not
  modelled, because it marks a programming error in the caller.
- Concurrency is not modelled. The registry is filled and cleared on one
  thread.
