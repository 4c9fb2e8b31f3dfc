/** The generic registry of `com.manchick.wheel.util`: an insertion-ordered
    map from identifiers to entries with forward lookup, a membership test on
    entries, a reverse lookup, ordered enumeration, `clear`, and a codec
    adapter that decodes an identifier into its entry and encodes an entry
    as its identifier.

    The backing `LinkedHashMap` is represented by its two parts: `keys`, the
    linked insertion order, and `table`, the hash table. `EntrySet()` is the
    ordered view of both, and every operation is proved against the
    reference definitions of module OrderedEntries. */
module Util {
  import opened Wrappers
  import opened OrderedEntries

  /** The entries of `table` in the order given by `keys`. */
  function Pairs<T, Z>(keys: seq<T>, table: map<T, Z>): (es: seq<(T, Z)>)
    requires forall i :: 0 <= i < |keys| ==> keys[i] in table
    ensures |es| == |keys|
    ensures forall i :: 0 <= i < |keys| ==> es[i] == (keys[i], table[keys[i]])
  {
    seq(|keys|, i requires 0 <= i < |keys| => (keys[i], table[keys[i]]))
  }

  /** Putting into the hash table, and appending a new key to the order,
      does to the ordered view what `Put` does. */
  lemma PairsPut<T, Z>(keys: seq<T>, table: map<T, Z>, k: T, v: Z)
    requires Distinct(keys)
    requires forall i :: 0 <= i < |keys| ==> keys[i] in table
    requires forall x :: x in table ==> x in keys
    ensures var keys' := if k in table then keys else keys + [k];
      && Distinct(keys')
      && (forall i :: 0 <= i < |keys'| ==> keys'[i] in table[k := v])
      && (forall x :: x in table[k := v] ==> x in keys')
      && Pairs(keys', table[k := v]) == Put(Pairs(keys, table), k, v)
  {
    var es := Pairs(keys, table);
    assert KeysOf(es) == keys;
    if k in table {
      var i :| 0 <= i < |keys| && keys[i] == k;
      PutInPlace(es, k, v, i);
      assert Pairs(keys, table[k := v]) == es[i := (k, v)];
    } else {
      PutAppends(es, k, v);
      assert Pairs(keys + [k], table[k := v]) == es + [(k, v)];
      PutKeepsDistinct(es, k, v);
      PutKeys(es, k, v);
    }
  }

  /** `keys` and `table` are the two halves of one insertion-ordered map, and
      its ordered view is what the registrations `regs` produce in order. */
  ghost predicate Represents<T, Z>(keys: seq<T>, table: map<T, Z>, regs: seq<(T, Z)>)
  {
    && Distinct(keys)
    && (forall i :: 0 <= i < |keys| ==> keys[i] in table)
    && (forall k :: k in table ==> k in keys)
    && Pairs(keys, table) == Replay(regs)
  }

  /** One registration keeps the representation and puts into the ordered view. */
  lemma RegisterStep<T, Z>(keys: seq<T>, table: map<T, Z>, regs: seq<(T, Z)>, k: T, v: Z)
    requires Represents(keys, table, regs)
    ensures var keys' := if k in table then keys else keys + [k];
      && Represents(keys', table[k := v], regs + [(k, v)])
      && Pairs(keys', table[k := v]) == Put(Pairs(keys, table), k, v)
  {
    PairsPut(keys, table, k, v);
    ReplaySnoc(regs, k, v);
  }

  class Registry<T(==), Z(==)> {
    /** The iteration order of the backing map: every key once, oldest first. */
    var keys: seq<T>
    /** The backing map's hash table. */
    var table: map<T, Z>
    /** Every `register` call since construction or the last `clear`, in call order. */
    ghost var registrations: seq<(T, Z)>

    ghost predicate Valid()
      reads this
    {
      Represents(keys, table, registrations)
    }

    constructor ()
      ensures Valid() && EntrySet() == [] && registrations == []
    {
      keys := [];
      table := map[];
      registrations := [];
    }

    /** `entrySet()`: the entries in insertion order, a read-only snapshot. */
    function EntrySet(): (es: seq<(T, Z)>)
      reads this
      requires Valid()
      ensures KeysOf(es) == keys
      ensures DistinctKeys(es)
    {
      Pairs(keys, table)
    }

    /** `keySet()`: the identifiers in insertion order, none twice. */
    function KeySet(): (ks: seq<T>)
      reads this
      requires Valid()
      ensures ks == KeysOf(EntrySet())
      ensures Distinct(ks)
    {
      keys
    }

    /** Looking up in the ordered view agrees with the hash table. */
    lemma LookupTable(identifier: T)
      requires Valid()
      ensures Lookup(EntrySet(), identifier) == if identifier in table then Some(table[identifier]) else None
    {
      if identifier in table {
        var i :| 0 <= i < |keys| && keys[i] == identifier;
        LookupAt(EntrySet(), i);
      }
    }

    /** `get(identifier)`: the entry registered under `identifier`, absent if there is none. */
    function Get(identifier: T): (r: Option<Z>)
      reads this
      requires Valid()
      ensures r == Lookup(EntrySet(), identifier)
      ensures r.Some? <==> identifier in KeySet()
    {
      LookupTable(identifier);
      if identifier in table then Some(table[identifier]) else None
    }

    /** `isRegistered(entry)`: some registered identifier maps to `entry`. */
    function IsRegistered(entry: Z): (b: bool)
      reads this
      requires Valid()
      ensures b <==> HasValue(EntrySet(), entry)
      ensures b <==> exists i :: 0 <= i < |keys| && Get(keys[i]) == Some(entry)
    {
      RegisteredValues(entry);
      entry in table.Values
    }

    /** The entries of the hash table are exactly those of the ordered view. */
    lemma RegisteredValues(entry: Z)
      requires Valid()
      ensures entry in table.Values <==> HasValue(EntrySet(), entry)
      ensures entry in table.Values <==> exists i :: 0 <= i < |keys| && table[keys[i]] == entry
    {
      if entry in table.Values {
        var k :| k in table && table[k] == entry;
        var i :| 0 <= i < |keys| && keys[i] == k;
        assert EntrySet()[i].1 == entry;
      }
      forall i | 0 <= i < |keys| ensures table[keys[i]] in table.Values {
      }
    }

    /** The function form of `getIdentifier`: the identifier of the earliest
        registered entry equal to `entry`. */
    function Encode(entry: Z): (identifier: T)
      reads this
      requires Valid() && IsRegistered(entry)
      ensures Get(identifier) == Some(entry)
      ensures forall i, j :: 0 <= j < i < |EntrySet()| && EntrySet()[i].0 == identifier ==>
                EntrySet()[j].1 != entry
    {
      LookupFirstKey(EntrySet(), entry);
      FirstKeyOf(EntrySet(), entry).value
    }

    /** The codec's decoding direction: an identifier becomes its entry, or an
        error naming the identifier when nothing is registered under it.
        `show` renders an identifier as text, as Java's string concatenation does. */
    function Decode(identifier: T, show: T -> string): (r: DataResult<Z>)
      reads this
      requires Valid()
      ensures r.Success? <==> identifier in KeySet()
      ensures r.Success? ==> Get(identifier) == Some(r.value)
      ensures r.Error? ==> r.message == "Unknown type: " + show(identifier)
    {
      match Get(identifier)
      case Some(entry) => Success(entry)
      case None => Error("Unknown type: " + show(identifier))
    }

    /** `getIdentifier(entry)`: scan the entries in insertion order and return
        the key of the first one whose value equals `entry`. The source fails
        with an assertion error when there is none; here that is the precondition. */
    method GetIdentifier(entry: Z) returns (identifier: T)
      requires Valid() && IsRegistered(entry)
      ensures Some(identifier) == FirstKeyOf(EntrySet(), entry)
      ensures identifier == Encode(entry)
    {
      ghost var es := EntrySet();
      ghost var target := FirstKeyOf(es, entry);
      assert es[0..] == es;
      var i := 0;
      while table[keys[i]] != entry
        invariant 0 <= i < |keys|
        invariant FirstKeyOf(es[i..], entry) == target
        decreases |keys| - i
      {
        assert es[i..][0].1 != entry;
        assert es[i..][1..] == es[i + 1..];
        i := i + 1;
      }
      assert es[i..][0] == (keys[i], entry);
      identifier := keys[i];
    }

    /** `register(identifier, entry)`: `LinkedHashMap.put`. A new identifier is
        appended to the order; a known one keeps its place and takes the new entry. */
    method Register(identifier: T, entry: Z)
      requires Valid()
      modifies this
      ensures Valid()
      ensures registrations == old(registrations) + [(identifier, entry)]
      ensures EntrySet() == Put(old(EntrySet()), identifier, entry)
      ensures KeySet() == if identifier in old(KeySet()) then old(KeySet()) else old(KeySet()) + [identifier]
      ensures Get(identifier) == Some(entry)
      ensures forall k :: k != identifier ==> Get(k) == Lookup(old(EntrySet()), k)
    {
      ghost var before := EntrySet();
      RegisterStep(keys, table, registrations, identifier, entry);
      if identifier !in table {
        keys := keys + [identifier];
      }
      table := table[identifier := entry];
      registrations := registrations + [(identifier, entry)];
      PutKeys(before, identifier, entry);
      PutLookupEverywhere(before, identifier, entry);
    }

    /** `clear()`: forget every registration. */
    method Clear()
      requires Valid()
      modifies this
      ensures Valid() && EntrySet() == [] && registrations == []
      ensures forall k :: Get(k) == None
      ensures forall entry :: !IsRegistered(entry)
    {
      keys := [];
      table := map[];
      registrations := [];
    }

    // -------------------------------------------------------------------------
    // Properties of the registry as a whole
    // -------------------------------------------------------------------------

    /** `entrySet()` pairs every identifier with the entry `get` returns for it. */
    lemma EntrySetAgreesWithGet(i: int)
      requires Valid() && 0 <= i < |EntrySet()|
      ensures EntrySet()[i].0 == KeySet()[i]
      ensures Get(EntrySet()[i].0) == Some(EntrySet()[i].1)
    {
      LookupAt(EntrySet(), i);
    }

    /** Decoding the encoding of a registered entry gives the entry back. */
    lemma DecodeEncode(entry: Z, show: T -> string)
      requires Valid() && IsRegistered(entry)
      ensures Decode(Encode(entry), show) == Success(entry)
    {
    }

    /** Decoding the identifier at position `i` always succeeds; encoding the
        result gives `keys[i]` back exactly when no earlier identifier is
        registered with an equal entry. */
    lemma EncodeDecode(i: int, show: T -> string)
      requires Valid() && 0 <= i < |KeySet()|
      ensures Decode(KeySet()[i], show).Success?
      ensures Encode(Decode(KeySet()[i], show).value) == KeySet()[i]
          <==> forall j :: 0 <= j < i ==> Get(KeySet()[j]) != Get(KeySet()[i])
    {
      var es := EntrySet();
      LookupAt(es, i);
      FirstKeyOfAt(es, i);
      forall j | 0 <= j < i ensures Get(keys[j]) == Some(es[j].1) {
        LookupAt(es, j);
      }
    }

    /** The identifiers are enumerated in the order of their first
        registration, and each maps to the entry it was registered with last. */
    lemma RegistrationOrder()
      requires Valid()
      ensures KeySet() == FirstOccurrences(KeysOf(registrations))
      ensures forall k :: Get(k) == LastValue(registrations, k)
    {
      ReplayKeys(registrations);
      forall k ensures Get(k) == LastValue(registrations, k) {
        ReplayLookup(registrations, k);
      }
    }
  }
}
