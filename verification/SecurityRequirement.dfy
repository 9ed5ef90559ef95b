/**
 * A security requirement: a dictionary from security scheme to the list of
 * scope names the operation needs, whose keys are compared with the
 * reference-id comparer that the requirement's constructor installs. The
 * dictionary is modelled as an association sequence in insertion order;
 * every lookup, insertion and removal goes through SchemeComparer.Equals.
 */
module SecurityRequirement {
  import opened Wrappers
  import opened SchemeComparer

  /** One key/value pair of the dictionary. */
  datatype Entry = Entry(key: Scheme, scopes: seq<string>)

  /** True when a stored key and a probe key are the same key for the comparer. */
  predicate KeyMatches(stored: Scheme, key: Scheme) {
    Equals(Some(stored), Some(key))
  }

  /** The dictionary invariant: no two stored keys are equal under the comparer. */
  predicate DistinctKeys(es: seq<Entry>) {
    forall i, j :: 0 <= i < j < |es| ==> !KeyMatches(es[i].key, es[j].key)
  }

  /** The position of the entry whose key the comparer equates with `key`, if any (the first one). */
  function FindIndex(es: seq<Entry>, key: Scheme): (r: Option<nat>)
    ensures r.Some? ==> r.value < |es| && KeyMatches(es[r.value].key, key)
    ensures forall j :: 0 <= j < |es| && (r.None? || j < r.value) ==> !KeyMatches(es[j].key, key)
    decreases |es|
  {
    if es == [] then
      None
    else if KeyMatches(es[0].key, key) then
      Some(0)
    else
      match FindIndex(es[1..], key)
      case None => None
      case Some(i) => Some(i + 1)
  }

  /** The scope list stored under `key`, or None when the key is absent. */
  function Lookup(es: seq<Entry>, key: Scheme): (r: Option<seq<string>>) {
    match FindIndex(es, key)
    case None => None
    case Some(i) => Some(es[i].scopes)
  }

  /** Indexer set: replace the value of a matching entry (keeping its stored key), or append a new entry. */
  function SetEntries(es: seq<Entry>, key: Scheme, scopes: seq<string>): (r: seq<Entry>) {
    match FindIndex(es, key)
    case Some(i) => es[i := Entry(es[i].key, scopes)]
    case None => es + [Entry(key, scopes)]
  }

  /** Add: append a new entry unless a matching key is already present. */
  function AddEntries(es: seq<Entry>, key: Scheme, scopes: seq<string>): (r: seq<Entry>) {
    if FindIndex(es, key).Some? then es else es + [Entry(key, scopes)]
  }

  /** Remove: drop the matching entry, keeping the others in order. */
  function RemoveEntries(es: seq<Entry>, key: Scheme): (r: seq<Entry>) {
    match FindIndex(es, key)
    case Some(i) => es[..i] + es[i + 1..]
    case None => es
  }

  // ----- Lemmas about the association sequence -----

  /** A matching position with no earlier match is the one FindIndex returns. */
  lemma FindIndexAt(es: seq<Entry>, key: Scheme, i: nat)
    requires i < |es| && KeyMatches(es[i].key, key)
    requires forall j :: 0 <= j < i ==> !KeyMatches(es[j].key, key)
    ensures FindIndex(es, key) == Some(i)
  {
  }

  /** FindIndex depends only on which positions match. */
  lemma FindIndexSameMatches(es1: seq<Entry>, es2: seq<Entry>, key: Scheme)
    requires |es1| == |es2|
    requires forall j :: 0 <= j < |es1| ==> KeyMatches(es1[j].key, key) == KeyMatches(es2[j].key, key)
    ensures FindIndex(es1, key) == FindIndex(es2, key)
  {
  }

  lemma FindIndexAppend(es: seq<Entry>, e: Entry, key: Scheme)
    ensures FindIndex(es + [e], key) ==
              if FindIndex(es, key).Some? then FindIndex(es, key)
              else if KeyMatches(e.key, key) then Some(|es|)
              else None
  {
    var r := es + [e];
    if FindIndex(es, key).Some? {
      FindIndexAt(r, key, FindIndex(es, key).value);
    } else if KeyMatches(e.key, key) {
      FindIndexAt(r, key, |es|);
    }
  }

  /** Setting a key never creates two equal keys. */
  lemma SetPreservesDistinct(es: seq<Entry>, key: Scheme, scopes: seq<string>)
    requires DistinctKeys(es)
    ensures DistinctKeys(SetEntries(es, key, scopes))
  {
  }

  /**
   * Setting a key that the comparer matches with a stored key replaces that
   * entry's scope list, keeps its stored key, and leaves the entry count and
   * every other entry unchanged.
   */
  lemma SetExistingKey(es: seq<Entry>, key: Scheme, scopes: seq<string>, i: nat)
    requires i < |es| && KeyMatches(es[i].key, key)
    requires DistinctKeys(es)
    ensures |SetEntries(es, key, scopes)| == |es|
    ensures SetEntries(es, key, scopes)[i] == Entry(es[i].key, scopes)
    ensures forall j :: 0 <= j < |es| && j != i ==> SetEntries(es, key, scopes)[j] == es[j]
  {
  }

  /** Setting a key no stored key matches appends it, so the count grows by one. */
  lemma SetNewKey(es: seq<Entry>, key: Scheme, scopes: seq<string>)
    requires forall j :: 0 <= j < |es| ==> !KeyMatches(es[j].key, key)
    ensures SetEntries(es, key, scopes) == es + [Entry(key, scopes)]
  {
  }

  /**
   * An inline scheme (no reference) never matches a stored key: setting it
   * always appends a new entry, and it can never be looked up again.
   */
  lemma SetUnresolvedKey(es: seq<Entry>, key: Scheme, scopes: seq<string>)
    requires key.reference.None?
    ensures SetEntries(es, key, scopes) == es + [Entry(key, scopes)]
    ensures Lookup(SetEntries(es, key, scopes), key) == None
  {
  }

  /** After a set, looking the key up yields the new scopes, unless the key has no reference. */
  lemma SetThenLookup(es: seq<Entry>, key: Scheme, scopes: seq<string>)
    ensures Lookup(SetEntries(es, key, scopes), key) ==
              if key.reference.Some? then Some(scopes) else None
  {
    var r := SetEntries(es, key, scopes);
    match FindIndex(es, key)
    case Some(i) =>
      FindIndexSameMatches(es, r, key);
    case None =>
      FindIndexAppend(es, Entry(key, scopes), key);
  }

  /** A set leaves the lookup of every key the comparer tells apart from it unchanged. */
  lemma SetThenLookupOther(es: seq<Entry>, key: Scheme, scopes: seq<string>, other: Scheme)
    requires !KeyMatches(key, other)
    ensures Lookup(SetEntries(es, key, scopes), other) == Lookup(es, other)
  {
    var r := SetEntries(es, key, scopes);
    match FindIndex(es, key)
    case Some(i) =>
      if KeyMatches(es[i].key, other) {
        EqualsSymmetric(Some(es[i].key), Some(key));
        EqualsTransitive(Some(key), Some(es[i].key), Some(other));
      }
      FindIndexSameMatches(es, r, other);
    case None =>
      FindIndexAppend(es, Entry(key, scopes), other);
  }

  /**
   * Key collapse: two schemes whose references carry the same id are one key,
   * so setting both keeps the first scheme as the key with the second scope
   * list and adds at most one entry.
   */
  lemma SameIdCollapses(es: seq<Entry>, s1: Scheme, s2: Scheme, a: seq<string>, b: seq<string>)
    requires s1.reference.Some? && s2.reference.Some?
    requires s1.reference.value.id == s2.reference.value.id
    requires DistinctKeys(es)
    ensures |SetEntries(SetEntries(es, s1, a), s2, b)| == |SetEntries(es, s1, a)|
    ensures Lookup(SetEntries(SetEntries(es, s1, a), s2, b), s1) == Some(b)
    ensures es == [] ==> SetEntries(SetEntries(es, s1, a), s2, b) == [Entry(s1, b)]
  {
    var d1 := SetEntries(es, s1, a);
    SetThenLookup(es, s1, a);
    SetPreservesDistinct(es, s1, a);
    var i := FindIndex(d1, s1).value;
    assert KeyMatches(d1[i].key, s2);
    SetExistingKey(d1, s2, b, i);
    SetThenLookup(d1, s2, b);
    FindIndexSameMatches(SetEntries(d1, s2, b), SetEntries(d1, s2, b), s1);
    if es == [] {
      assert d1 == [Entry(s1, a)];
    }
  }

  /** Add fails exactly when a matching key is present, and never breaks the invariant. */
  lemma AddPreservesDistinct(es: seq<Entry>, key: Scheme, scopes: seq<string>)
    requires DistinctKeys(es)
    ensures DistinctKeys(AddEntries(es, key, scopes))
    ensures AddEntries(es, key, scopes) == es <==> exists j :: 0 <= j < |es| && KeyMatches(es[j].key, key)
  {
  }

  /** After an Add the key finds the scopes already stored, or else the new ones unless it has no reference. */
  lemma AddThenLookup(es: seq<Entry>, key: Scheme, scopes: seq<string>)
    ensures Lookup(AddEntries(es, key, scopes), key) ==
              if FindIndex(es, key).Some? then Lookup(es, key)
              else if key.reference.Some? then Some(scopes)
              else None
  {
    FindIndexAppend(es, Entry(key, scopes), key);
  }

  /** An Add leaves the lookup of every key the comparer tells apart from it unchanged. */
  lemma AddThenLookupOther(es: seq<Entry>, key: Scheme, scopes: seq<string>, other: Scheme)
    requires !KeyMatches(key, other)
    ensures Lookup(AddEntries(es, key, scopes), other) == Lookup(es, other)
  {
    FindIndexAppend(es, Entry(key, scopes), other);
  }

  /** Removing keeps the invariant. */
  lemma RemovePreservesDistinct(es: seq<Entry>, key: Scheme)
    requires DistinctKeys(es)
    ensures DistinctKeys(RemoveEntries(es, key))
  {
  }

  /** After removing a key from a well-formed dictionary it is no longer found. */
  lemma RemoveThenLookup(es: seq<Entry>, key: Scheme)
    requires DistinctKeys(es)
    ensures Lookup(RemoveEntries(es, key), key) == None
  {
  }

  /** Removing a key leaves the lookup of every key the comparer tells apart from it unchanged. */
  lemma RemoveThenLookupOther(es: seq<Entry>, key: Scheme, other: Scheme)
    requires !KeyMatches(key, other)
    ensures Lookup(RemoveEntries(es, key), other) == Lookup(es, other)
  {
    match FindIndex(es, key)
    case None =>
    case Some(i) =>
      var r := RemoveEntries(es, key);
      if KeyMatches(es[i].key, other) {
        EqualsSymmetric(Some(es[i].key), Some(key));
        EqualsTransitive(Some(key), Some(es[i].key), Some(other));
      }
      match FindIndex(es, other)
      case Some(k) =>
        var k' := if k < i then k else k - 1;
        assert r[k'] == es[k];
        forall j | 0 <= j < k' ensures !KeyMatches(r[j].key, other) {
          assert r[j] == es[if j < i then j else j + 1];
        }
        FindIndexAt(r, other, k');
      case None =>
  }

  /**
   * The security requirement object. The constructor installs the
   * reference-id comparer; `stringHash` is the runtime's string hash, which
   * the comparer's GetHashCode uses and lookups use to skip entries.
   */
  class Requirement {
    const stringHash: string -> Int32
    var entries: seq<Entry>

    ghost predicate Valid()
      reads this
    {
      DistinctKeys(entries)
    }

    constructor (stringHash: string -> Int32)
      ensures Valid()
      ensures this.stringHash == stringHash && entries == []
    {
      this.stringHash := stringHash;
      entries := [];
    }

    /** The dictionary's Count: the number of stored entries. */
    function Count(): (n: nat)
      reads this
      ensures n == |entries|
    {
      |entries|
    }

    /**
     * Finds the entry for `key` as a hashed dictionary does: an entry is a
     * hit when its key's hash code equals the probe's and the comparer says
     * Equals(stored key, probe). Returns -1 when there is none.
     */
    method FindEntry(key: Scheme) returns (i: int)
      ensures -1 <= i < |entries|
      ensures i >= 0 ==> KeyMatches(entries[i].key, key)
      ensures forall j :: 0 <= j < |entries| && (i < 0 || j < i) ==> !KeyMatches(entries[j].key, key)
      ensures i == match FindIndex(entries, key) case Some(n) => n case None => -1
    {
      var h := GetHashCode(stringHash, Some(key));
      i := 0;
      while i < |entries|
        invariant 0 <= i <= |entries|
        invariant forall j :: 0 <= j < i ==> !KeyMatches(entries[j].key, key)
      {
        var e := entries[i];
        if GetHashCode(stringHash, Some(e.key)) == h && Equals(Some(e.key), Some(key)) {
          FindIndexAt(entries, key, i);
          return;
        }
        if Equals(Some(e.key), Some(key)) {
          HashConsistent(stringHash, Some(e.key), Some(key));
        }
        i := i + 1;
      }
      i := -1;
    }

    /** TryGetValue: reports whether a matching key is stored and, if so, its scope list. */
    method TryGetValue(key: Scheme) returns (found: bool, scopes: seq<string>)
      ensures found <==> exists j :: 0 <= j < |entries| && KeyMatches(entries[j].key, key)
      ensures Lookup(entries, key) == if found then Some(scopes) else None
    {
      var i := FindEntry(key);
      if i >= 0 {
        found, scopes := true, entries[i].scopes;
      } else {
        // .NET leaves the out value at its default (null); callers must not read it.
        found, scopes := false, [];
      }
    }

    /** ContainsKey: whether a key the comparer equates with `key` is stored. */
    method ContainsKey(key: Scheme) returns (b: bool)
      ensures b <==> exists j :: 0 <= j < |entries| && KeyMatches(entries[j].key, key)
      ensures key.reference.None? ==> !b
    {
      var i := FindEntry(key);
      b := i >= 0;
    }

    /** Indexer set (`requirement[key] = scopes`): insert or replace. */
    method Set(key: Scheme, scopes: seq<string>)
      requires Valid()
      modifies this
      ensures Valid()
      ensures entries == SetEntries(old(entries), key, scopes)
      ensures Count() == old(Count()) + (if old(FindIndex(entries, key)).Some? then 0 else 1)
    {
      SetPreservesDistinct(entries, key, scopes);
      var i := FindEntry(key);
      if i >= 0 {
        entries := entries[i := Entry(entries[i].key, scopes)];
      } else {
        entries := entries + [Entry(key, scopes)];
      }
    }

    /** Add: insert a new key; reports false, changing nothing, when the key is already present. */
    method Add(key: Scheme, scopes: seq<string>) returns (added: bool)
      requires Valid()
      modifies this
      ensures Valid()
      ensures added <==> forall j :: 0 <= j < |old(entries)| ==> !KeyMatches(old(entries)[j].key, key)
      ensures entries == AddEntries(old(entries), key, scopes)
      ensures Count() == old(Count()) + (if added then 1 else 0)
    {
      AddPreservesDistinct(entries, key, scopes);
      var i := FindEntry(key);
      added := i < 0;
      if added {
        entries := entries + [Entry(key, scopes)];
      }
    }

    /** Remove: drop the entry for `key`; reports whether there was one. */
    method Remove(key: Scheme) returns (removed: bool)
      requires Valid()
      modifies this
      ensures Valid()
      ensures removed <==> exists j :: 0 <= j < |old(entries)| && KeyMatches(old(entries)[j].key, key)
      ensures entries == RemoveEntries(old(entries), key)
      ensures Count() == old(Count()) - (if removed then 1 else 0)
    {
      RemovePreservesDistinct(entries, key);
      var i := FindEntry(key);
      removed := i >= 0;
      if removed {
        assert FindIndex(entries, key) == Some(i as nat);
        entries := entries[..i] + entries[i + 1..];
      } else {
        assert FindIndex(entries, key) == None;
      }
    }
  }
}
