# Security requirement keys of OpenAPI.NET, modelled in Dafny

An OpenAPI security requirement object (`OpenApiSecurityRequirement`) is a
dictionary from security scheme to the list of scope names an operation
needs. Its constructor builds the dictionary with a private key comparer
that looks only at the scheme's `Reference.Id`, the string that is written
into the document. Two different scheme objects that name the same
component are therefore one key. A scheme without a reference is a key that
matches nothing, not even itself.

The model has three modules:

- `Wrappers` (`Wrappers.dfy`): `Option`, standing for a C# reference that may be null.
- `SchemeComparer` (`SchemeComparer.dfy`): schemes and references as datatypes,
  and the comparer's `Equals` and `GetHashCode` as functions. It also holds the
  lemmas about them: the branches, partial reflexivity, symmetry,
  transitivity and hash consistency. `Identity` is an independent description
  of what a key is: null, unresolved, or named by an id that may itself be
  null. The contract of `Equals` is stated against it.
- `SecurityRequirement` (`SecurityRequirement.dfy`): the dictionary. It is an
  association sequence of entries in insertion order. Pure functions
  (`FindIndex`, `Lookup`, `SetEntries`, `AddEntries`, `RemoveEntries`) give
  the meaning of each operation. The lemmas about them cover the invariant
  (no two keys equal under the comparer), the effect of a set on count and
  entries, lookup after set and remove, and the collapse of keys by reference
  id. The class `Requirement` holds the entries as a mutable field.
  `FindEntry` and `TryGetValue` do read-only lookups. `Set` (the indexer),
  `Add` and `Remove` update the entries. Each method is proved against the
  pure function for its operation. Every lookup first filters entries by the
  comparer's hash code and then calls `Equals(stored key, probe)`, as the .NET
  dictionary's lookup does. Unlike .NET, the model recomputes each stored key's
  hash at lookup time instead of keeping the one computed at insertion.
  `HashConsistent` is what makes that filter sound.

The runtime's string hash is not known: it depends on the runtime and may be
randomised per process. Instead of a fixed function, it is a parameter
`stringHash: string -> Int32`. The requirement's constructor fixes it for
that object. Every property is proved for all string hashes.

The comparer's code at
`src/Microsoft.OpenApi/Models/OpenApiSecurityRequirement.cs:56` compares
`Reference.Id` with `==`. So two schemes whose references both have a null
`Id` are equal keys, with hash code 0. A comparer that equated only non-null
ids would differ here. The model follows the code (`NullIdsAreEqual`). Transitivity holds on all inputs, not only on
schemes that carry a reference: a scheme without a reference equals nothing,
so it never links two others (`EqualsTransitive`).

## Model

| member | source | states |
|---|---|---|
| `SchemeComparer.Equals` | src/Microsoft.OpenApi/Models/OpenApiSecurityRequirement.cs:39-57 | two keys are equal exactly when they have the same identity (both null, or references with the same Id) and are not schemes without a reference |
| `SchemeComparer.EqualsBranches` | src/Microsoft.OpenApi/Models/OpenApiSecurityRequirement.cs:41-56 | null/null is equal; exactly one null is unequal; a missing Reference on either side is unequal; two referenced schemes are equal iff their Ids are equal |
| `SchemeComparer.NullIdsAreEqual` | src/Microsoft.OpenApi/Models/OpenApiSecurityRequirement.cs:56 | two referenced schemes whose Ids are both null are equal |
| `SchemeComparer.OnlyIdMatters` | src/Microsoft.OpenApi/Models/OpenApiSecurityRequirement.cs:30-34 | schemes whose references carry the same Id are equal and hash alike, whatever their other attributes and external resource |
| `SchemeComparer.EqualsReflexiveIff` | src/Microsoft.OpenApi/Models/OpenApiSecurityRequirement.cs:41-56 | a key equals itself exactly when it is null or carries a Reference |
| `SchemeComparer.InlineSchemeNotEqualToItself` | src/Microsoft.OpenApi/Models/OpenApiSecurityRequirement.cs:51-54 | a scheme without a Reference is not equal to itself, so the relation is not reflexive |
| `SchemeComparer.EqualsSymmetric` | src/Microsoft.OpenApi/Models/OpenApiSecurityRequirement.cs:39-57 | Equals(x, y) == Equals(y, x) for all inputs |
| `SchemeComparer.EqualsTransitive` | src/Microsoft.OpenApi/Models/OpenApiSecurityRequirement.cs:39-57 | Equals(x, y) and Equals(y, z) imply Equals(x, z), for all inputs |
| `SchemeComparer.GetHashCode` | src/Microsoft.OpenApi/Models/OpenApiSecurityRequirement.cs:62-65 | the hash code is the string hash of the Id when there is one, and 0 when the scheme, its Reference or its Id is null |
| `SchemeComparer.HashConsistent` | src/Microsoft.OpenApi/Models/OpenApiSecurityRequirement.cs:39-65 | equal keys have equal hash codes, for every string hash |
| `SchemeComparer.UnresolvedCollideButDiffer` | src/Microsoft.OpenApi/Models/OpenApiSecurityRequirement.cs:51-64 | two schemes without a Reference both hash to 0 yet are never equal |
| `SecurityRequirement.FindIndex` | src/Microsoft.OpenApi/Models/OpenApiSecurityRequirement.cs:22-26 | the entry a key finds matches it under the comparer and no earlier entry does; when none is found, no entry matches |
| `SecurityRequirement.FindIndexAppend` | src/Microsoft.OpenApi/Models/OpenApiSecurityRequirement.cs:22-26 | appending an entry changes what a key finds only when nothing matched before and the new key matches |
| `SecurityRequirement.SetPreservesDistinct` | src/Microsoft.OpenApi/Models/OpenApiSecurityRequirement.cs:18-26 | setting a key keeps the invariant that no two stored keys are equal under the comparer |
| `SecurityRequirement.SetExistingKey` | src/Microsoft.OpenApi/Models/OpenApiSecurityRequirement.cs:22-27 | setting a key that matches a stored key replaces that entry's scopes, keeps its stored key, and leaves the count and every other entry unchanged |
| `SecurityRequirement.SetNewKey` | src/Microsoft.OpenApi/Models/OpenApiSecurityRequirement.cs:22-27 | setting a key that matches no stored key appends one entry |
| `SecurityRequirement.SetUnresolvedKey` | src/Microsoft.OpenApi/Models/OpenApiSecurityRequirement.cs:51-54 | setting a scheme without a Reference always appends a new entry, which no later lookup of that scheme finds |
| `SecurityRequirement.SetThenLookup` | src/Microsoft.OpenApi/Models/OpenApiSecurityRequirement.cs:22-27 | after a set, looking the key up yields the new scopes if the key has a Reference, and nothing otherwise |
| `SecurityRequirement.SetThenLookupOther` | src/Microsoft.OpenApi/Models/OpenApiSecurityRequirement.cs:22-27 | a set does not change the lookup of any key the comparer tells apart from it |
| `SecurityRequirement.SameIdCollapses` | src/Microsoft.OpenApi/Models/OpenApiSecurityRequirement.cs:22-33 | setting two schemes with the same Reference.Id adds at most one entry; the last scopes win under the first scheme; from empty the result is exactly one entry |
| `SecurityRequirement.AddPreservesDistinct` | src/Microsoft.OpenApi/Models/OpenApiSecurityRequirement.cs:18-26 | Add keeps the invariant and changes nothing exactly when a matching key is stored |
| `SecurityRequirement.AddThenLookup` | src/Microsoft.OpenApi/Models/OpenApiSecurityRequirement.cs:18-26 | after Add, the key finds the scopes already stored when it matched, else the new scopes if it has a Reference, else nothing |
| `SecurityRequirement.AddThenLookupOther` | src/Microsoft.OpenApi/Models/OpenApiSecurityRequirement.cs:18-26 | Add does not change the lookup of any key the comparer tells apart from it |
| `SecurityRequirement.RemovePreservesDistinct` | src/Microsoft.OpenApi/Models/OpenApiSecurityRequirement.cs:18-26 | Remove keeps the invariant |
| `SecurityRequirement.RemoveThenLookup` | src/Microsoft.OpenApi/Models/OpenApiSecurityRequirement.cs:18-26 | after Remove on a well-formed requirement the key is no longer found |
| `SecurityRequirement.RemoveThenLookupOther` | src/Microsoft.OpenApi/Models/OpenApiSecurityRequirement.cs:18-26 | Remove does not change the lookup of any key the comparer tells apart from it |
| `SecurityRequirement.Requirement.constructor` | src/Microsoft.OpenApi/Models/OpenApiSecurityRequirement.cs:25-28 | a new requirement is empty, satisfies the invariant, and compares keys with the reference-id comparer |
| `SecurityRequirement.Requirement.Count` | src/Microsoft.OpenApi/Models/OpenApiSecurityRequirement.cs:18 | the dictionary's Count is the number of stored entries; Set, Add and Remove state by how much they change it |
| `SecurityRequirement.Requirement.FindEntry` | src/Microsoft.OpenApi/Models/OpenApiSecurityRequirement.cs:39-65 | the hash-then-Equals search returns the first matching entry, or -1 exactly when no entry matches |
| `SecurityRequirement.Requirement.TryGetValue` | src/Microsoft.OpenApi/Models/OpenApiSecurityRequirement.cs:18-26 | found exactly when some stored key matches; the scopes returned are those of the matching entry |
| `SecurityRequirement.Requirement.ContainsKey` | src/Microsoft.OpenApi/Models/OpenApiSecurityRequirement.cs:18-54 | true exactly when some stored key matches; never true for a scheme without a Reference |
| `SecurityRequirement.Requirement.Set` | src/Microsoft.OpenApi/Models/OpenApiSecurityRequirement.cs:18-26 | the indexer setter keeps the invariant, produces SetEntries of the old entries, and adds one to Count exactly when no stored key matched |
| `SecurityRequirement.Requirement.Add` | src/Microsoft.OpenApi/Models/OpenApiSecurityRequirement.cs:18-26 | adds exactly when no stored key matches, keeps the invariant, and produces AddEntries of the old entries |
| `SecurityRequirement.Requirement.Remove` | src/Microsoft.OpenApi/Models/OpenApiSecurityRequirement.cs:18-26 | removes exactly when a stored key matches, keeps the invariant, and produces RemoveEntries of the old entries |

## Left out

- Null keys. The .NET dictionary refuses them with an `ArgumentNullException`, so the container's key type is a non-null `Scheme`. `Equals` and `GetHashCode` still take nullable arguments, as the comparer does.
- Exceptions of the inherited dictionary. `Add` on a present key throws in .NET; here it returns `false` and changes nothing. The indexer getter throws on a missing key; it is represented by `TryGetValue`, which reports `found == false`.
- Hash buckets, resizing and slot reuse. The model keeps entries in insertion order and appends new keys at the end. After a removal, .NET may reuse the freed slot, so its enumeration order can differ.
- The value of `string.GetHashCode()`. It is a parameter (`stringHash`), and every property holds for every choice.
- Keys are immutable values. In .NET a scheme is a mutable object stored by reference, and the dictionary caches each entry's hash code at insertion. A caller that changes a stored scheme's `Reference` or `Id` afterwards makes .NET lookups miss that entry. The model has no aliasing of keys, no mutation after insertion and no cached hash, so it cannot express this.
- Aliasing of the stored scope lists. .NET stores the caller's `IList<string>` by reference, while the model stores the scopes as a value.
- All attributes of `OpenApiSecurityScheme` and `OpenApiReference` except the presence of the reference and its `Id`. `description` and `externalResource` stand for the attributes the comparer ignores.
- `IOpenApiElement`, `OpenApiOperation` (a property holder with default initialisers) and `OpenApiResponsesExtensibleDictionarySerializer` (a constructor that forwards to a base serializer). The base serializer, the writer and the version gating are not part of this model.
