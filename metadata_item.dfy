/**
 * MetadataItem: an immutable name/value pair with null-rejecting construction,
 * structural equality, the reference-aware `==`/`!=` operators and a hash code
 * consistent with equality.
 *
 * Immutability is built in: a datatype value has no setters, which is what the
 * private setters assigned only by the constructor give the C# class.
 */
module MetadataItems {
  import opened Wrappers

  datatype MetadataItem = MetadataItem(name: string, value: string) {

    /** `this.Equals(MetadataItem other)`: false for null, otherwise both fields compared. */
    predicate Equals(other: ItemRef)
      ensures Equals(other) <==> other.Ref? && other.item == this
    {
      if other.Null? then false
      else name == other.item.name && value == other.item.value
    }

    /** `this.Equals(object obj)`. */
    predicate EqualsObject(obj: Object)
      ensures EqualsObject(obj) <==> obj.ItemObject? && obj.item == this
    {
      Equals(AsItem(obj))
    }

    /**
     * `GetHashCode`: the XOR of the 32-bit hashes of the two strings. String
     * hashing is a parameter, because `String.GetHashCode` is not part of this model.
     */
    function GetHashCode(stringHash: string -> bv32): (h: bv32)
      ensures h ^ stringHash(value) == stringHash(name)
      ensures name == value ==> h == 0
    {
      stringHash(name) ^ stringHash(value)
    }
  }

  /** The `ArgumentNullException` of the constructor, carrying the parameter name. */
  datatype ArgumentNullException = ArgumentNullException(paramName: string)

  /**
   * The constructor. A C# string may be null, so each argument is an
   * `Option<string>`; `name` is checked before `value`.
   */
  function New(name: Option<string>, value: Option<string>): (r: Result<MetadataItem, ArgumentNullException>)
    ensures r.Success? <==> name.Some? && value.Some?
    ensures r.Success? ==> r.value.name == name.value && r.value.value == value.value
    ensures name.None? ==> r.error.paramName == "name"
    ensures name.Some? && value.None? ==> r.error.paramName == "value"
  {
    if name.None? then Failure(ArgumentNullException("name"))
    else if value.None? then Failure(ArgumentNullException("value"))
    else Success(MetadataItem(name.value, value.value))
  }

  /**
   * A variable of static type `MetadataItem`: null, or a reference to an
   * object. The `id` is the object's identity; in any heap one identity names
   * one object, so two references are the same reference exactly when they are
   * equal as values.
   */
  datatype ItemRef = Null | Ref(id: nat, item: MetadataItem)

  /** A variable of static type `object`: null, a MetadataItem, or an object of another class. */
  datatype Object = NullObject | ItemObject(id: nat, item: MetadataItem) | OtherObject(id: nat)

  /** `ReferenceEquals(a, b)`. */
  predicate ReferenceEquals(a: ItemRef, b: ItemRef)
    ensures a.Null? && b.Null? ==> ReferenceEquals(a, b)
    ensures a.Null? != b.Null? ==> !ReferenceEquals(a, b)
    ensures a.Ref? && b.Ref? ==> (ReferenceEquals(a, b) <==> a.id == b.id && a.item == b.item)
  {
    a == b
  }

  /** `obj as MetadataItem`: null unless the object is a MetadataItem. */
  function AsItem(obj: Object): (r: ItemRef)
    ensures r.Ref? <==> obj.ItemObject?
    ensures r.Ref? ==> r.id == obj.id && r.item == obj.item
  {
    match obj
    case ItemObject(id, item) => Ref(id, item)
    case _ => Null
  }

  /** `operator ==`. */
  predicate OpEquals(item: ItemRef, otherItem: ItemRef)
    ensures (item.Null? || otherItem.Null?) ==> (OpEquals(item, otherItem) <==> item.Null? && otherItem.Null?)
    ensures item.Ref? && otherItem.Ref? ==> (OpEquals(item, otherItem) <==> item.item == otherItem.item)
  {
    if ReferenceEquals(item, otherItem) then true
    else if item.Null? || otherItem.Null? then false
    else item.item.Equals(otherItem)
  }

  /** `operator !=`. */
  predicate OpNotEquals(item: ItemRef, otherItem: ItemRef)
    ensures OpNotEquals(item, otherItem)
      <==> item.Null? != otherItem.Null? || (item.Ref? && otherItem.Ref? && item.item != otherItem.item)
  {
    !OpEquals(item, otherItem)
  }

  /** The constructor accepts empty strings. */
  lemma NewAcceptsEmptyStrings()
    ensures New(Some(""), Some("")) == Success(MetadataItem("", ""))
  {
  }

  /** Structural equality is reflexive, symmetric and transitive. */
  lemma EqualsIsEquivalence(a: MetadataItem, b: MetadataItem, c: MetadataItem, ia: nat, ib: nat, ic: nat)
    ensures a.Equals(Ref(ia, a))
    ensures a.Equals(Ref(ib, b)) <==> b.Equals(Ref(ia, a))
    ensures a.Equals(Ref(ib, b)) && b.Equals(Ref(ic, c)) ==> a.Equals(Ref(ic, c))
  {
  }

  /** `Equals(object)` is false for null and for any object that is not a MetadataItem. */
  lemma EqualsObjectRejectsOthers(item: MetadataItem, obj: Object)
    requires !obj.ItemObject?
    ensures !item.EqualsObject(obj)
  {
  }

  /** `==`: true for the same reference (both null included), false for exactly one null, else `Equals`. */
  lemma OpEqualsCases(a: ItemRef, b: ItemRef)
    ensures ReferenceEquals(a, b) ==> OpEquals(a, b)
    ensures a.Null? != b.Null? ==> !OpEquals(a, b)
    ensures a.Ref? && b.Ref? ==> (OpEquals(a, b) <==> a.item.Equals(b))
  {
  }

  /** `!=` is the negation of `==`, and `==` is symmetric. */
  lemma OpNotEqualsNegates(a: ItemRef, b: ItemRef)
    ensures OpNotEquals(a, b) <==> !OpEquals(a, b)
    ensures OpEquals(a, b) <==> OpEquals(b, a)
  {
  }

  /** Equal items have equal hash codes, whatever the string hash is. */
  lemma HashConsistentWithEquals(a: MetadataItem, b: ItemRef, stringHash: string -> bv32)
    requires a.Equals(b)
    ensures a.GetHashCode(stringHash) == b.item.GetHashCode(stringHash)
  {
  }
}
