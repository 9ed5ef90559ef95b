/**
 * The key comparer of a security requirement: two security schemes are the
 * same dictionary key exactly when they point, through their reference, at
 * the same component id, the string that appears in the written document.
 * Nothing else in a scheme (its description, the external resource of its
 * reference, whether it is the same object) takes part.
 */
module SchemeComparer {
  import opened Wrappers

  /** A .NET `int`: the result type of every hash code. */
  newtype Int32 = x: int | -0x8000_0000 <= x < 0x8000_0000

  /** The reference a scheme carries when it stands for a named component. */
  datatype Reference = Reference(externalResource: Option<string>, id: Option<string>)

  /**
   * A security scheme. `reference` is `None` for an inline scheme that does
   * not point at a component; `description` stands for all the scheme's other
   * attributes, none of which the comparer reads.
   */
  datatype Scheme = Scheme(reference: Option<Reference>, description: Option<string>)

  /**
   * What a (possibly null) scheme is as a key, stated independently of the
   * comparer: null, an inline scheme with no reference, or the id its
   * reference names (itself possibly null).
   */
  datatype KeyIdentity = NullKey | Unresolved | Named(id: Option<string>)

  function Identity(x: Option<Scheme>): (k: KeyIdentity) {
    match x
    case None => NullKey
    case Some(s) =>
      match s.reference
      case None => Unresolved
      case Some(r) => Named(r.id)
  }

  /**
   * The comparer's Equals. Two keys are equal exactly when they have the same
   * identity and that identity is not an unresolved inline scheme.
   */
  function Equals(x: Option<Scheme>, y: Option<Scheme>): (r: bool)
    ensures r <==> Identity(x) == Identity(y) && !Identity(x).Unresolved?
  {
    if x.None? && y.None? then
      true
    else if x.None? || y.None? then
      false
    else if x.value.reference.None? || y.value.reference.None? then
      false
    else
      x.value.reference.value.id == y.value.reference.value.id
  }

  /**
   * The comparer's GetHashCode: the runtime's string hash of the reference id,
   * or 0 when the scheme, its reference or the id is null.
   */
  function GetHashCode(stringHash: string -> Int32, obj: Option<Scheme>): (r: Int32)
    ensures Identity(obj).Named? && Identity(obj).id.Some? ==> r == stringHash(Identity(obj).id.value)
    ensures !(Identity(obj).Named? && Identity(obj).id.Some?) ==> r == 0
  {
    if obj.None? || obj.value.reference.None? || obj.value.reference.value.id.None? then
      0
    else
      stringHash(obj.value.reference.value.id.value)
  }

  /** The branches of Equals, in the order the comparer tests them. */
  lemma EqualsBranches(x: Option<Scheme>, y: Option<Scheme>)
    ensures x.None? && y.None? ==> Equals(x, y)
    ensures x.None? != y.None? ==> !Equals(x, y)
    ensures (x.Some? && x.value.reference.None?) || (y.Some? && y.value.reference.None?) ==> !Equals(x, y)
    ensures x.Some? && y.Some? && x.value.reference.Some? && y.value.reference.Some? ==>
              (Equals(x, y) <==> x.value.reference.value.id == y.value.reference.value.id)
  {
  }

  /** Two referenced schemes whose ids are both null are equal. */
  lemma NullIdsAreEqual(x: Scheme, y: Scheme)
    requires x.reference.Some? && x.reference.value.id.None?
    requires y.reference.Some? && y.reference.value.id.None?
    ensures Equals(Some(x), Some(y))
  {
  }

  /** Only the id of the reference counts: descriptions and external resources are ignored. */
  lemma OnlyIdMatters(x: Scheme, y: Scheme, id: string)
    requires x.reference.Some? && x.reference.value.id == Some(id)
    requires y.reference.Some? && y.reference.value.id == Some(id)
    ensures Equals(Some(x), Some(y))
    ensures forall h: string -> Int32 :: GetHashCode(h, Some(x)) == GetHashCode(h, Some(y))
  {
  }

  /** Equals is reflexive exactly on null and on schemes that carry a reference. */
  lemma EqualsReflexiveIff(x: Option<Scheme>)
    ensures Equals(x, x) <==> x.None? || x.value.reference.Some?
  {
  }

  /** So the relation is not reflexive: an inline scheme is not equal to itself. */
  lemma InlineSchemeNotEqualToItself(description: Option<string>)
    ensures !Equals(Some(Scheme(None, description)), Some(Scheme(None, description)))
  {
  }

  lemma EqualsSymmetric(x: Option<Scheme>, y: Option<Scheme>)
    ensures Equals(x, y) == Equals(y, x)
  {
  }

  /**
   * Equals is transitive on all inputs, not only on referenced schemes: an
   * unresolved scheme is equal to nothing, so it never links two others.
   */
  lemma EqualsTransitive(x: Option<Scheme>, y: Option<Scheme>, z: Option<Scheme>)
    requires Equals(x, y) && Equals(y, z)
    ensures Equals(x, z)
  {
  }

  /** Hash consistency: equal keys have equal hash codes, whatever the string hash. */
  lemma HashConsistent(stringHash: string -> Int32, x: Option<Scheme>, y: Option<Scheme>)
    requires Equals(x, y)
    ensures GetHashCode(stringHash, x) == GetHashCode(stringHash, y)
  {
  }

  /** Two inline schemes share the sentinel hash 0 and are still never equal. */
  lemma UnresolvedCollideButDiffer(stringHash: string -> Int32, x: Scheme, y: Scheme)
    requires x.reference.None? && y.reference.None?
    ensures GetHashCode(stringHash, Some(x)) == GetHashCode(stringHash, Some(y)) == 0
    ensures !Equals(Some(x), Some(y))
  {
  }
}
