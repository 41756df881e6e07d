/**
 * CustomObject of src/data_structures/custom_object.h: a (name, value)
 * record whose setters and copy operations assign its two fields, ordered by
 * value first and by name when the values tie.
 */
module CustomObjects {

  /**
   * std::string's operator<: lexicographic order on characters, where a
   * proper prefix comes first.
   */
  predicate LexLess(a: string, b: string) {
    if b == [] then false
    else if a == [] then true
    else if a[0] != b[0] then a[0] < b[0]
    else LexLess(a[1..], b[1..])
  }

  /** No string comes before itself. */
  lemma {:induction false} LexLessIrreflexive(a: string)
    ensures !LexLess(a, a)
  {
    if a != [] {
      LexLessIrreflexive(a[1..]);
    }
  }

  lemma {:induction false} LexLessTransitive(a: string, b: string, c: string)
    requires LexLess(a, b) && LexLess(b, c)
    ensures LexLess(a, c)
  {
    if a != [] && a[0] == b[0] && b[0] == c[0] {
      LexLessTransitive(a[1..], b[1..], c[1..]);
    }
  }

  /** Any two strings are equal or ordered one way, and only one of the three holds. */
  lemma {:induction false} LexLessTrichotomy(a: string, b: string)
    ensures LexLess(a, b) || a == b || LexLess(b, a)
    ensures !(LexLess(a, b) && LexLess(b, a))
    ensures a == b ==> !LexLess(a, b)
  {
    if a != [] && b != [] && a[0] == b[0] {
      LexLessTrichotomy(a[1..], b[1..]);
      assert a == [a[0]] + a[1..] && b == [b[0]] + b[1..];
    }
    if a == b {
      LexLessIrreflexive(a);
    }
  }

  class CustomObject {
    var name: string
    var value: int

    /** CustomObject(name, value) (custom_object.h:18): stores both fields. */
    constructor (name: string, value: int)
      ensures GetName() == name && GetValue() == value
    {
      this.name := name;
      this.value := value;
    }

    /**
     * The copy constructor (custom_object.h:25-29); the move constructor
     * (custom_object.h:35-39) assigns the same two fields.
     */
    constructor Copy(other: CustomObject)
      ensures GetName() == other.GetName() && GetValue() == other.GetValue()
      ensures Equals(other)
    {
      name := other.name;
      value := other.value;
    }

    /** Copy and move assignment (custom_object.h:30-34, 40-44): take over both fields. */
    method Assign(other: CustomObject)
      modifies this
      ensures GetName() == old(other.GetName()) && GetValue() == old(other.GetValue())
    {
      name := other.name;
      value := other.value;
    }

    /** GetName (custom_object.h:46): the stored name. */
    function GetName(): (r: string)
      reads this
      ensures r == name
    {
      name
    }

    /** GetValue (custom_object.h:47): the stored value. */
    function GetValue(): (r: int)
      reads this
      ensures r == value
    {
      value
    }

    /** SetName (custom_object.h:49): only the name changes. */
    method SetName(name: string)
      modifies this
      ensures GetName() == name && GetValue() == old(GetValue())
    {
      this.name := name;
    }

    /** SetValue (custom_object.h:50): only the value changes. */
    method SetValue(value: int)
      modifies this
      ensures GetValue() == value && GetName() == old(GetName())
    {
      this.value := value;
    }

    /**
     * operator== (custom_object.h:54-56): both fields equal, which is
     * exactly when neither object is less than the other.
     */
    predicate Equals(other: CustomObject)
      reads this, other
      ensures Equals(other) <==> !Less(other) && !other.Less(this)
    {
      LexLessTrichotomy(name, other.name);
      name == other.name && value == other.value
    }

    /** operator!= (custom_object.h:57-59): one of the two is less than the other. */
    predicate NotEquals(other: CustomObject)
      reads this, other
      ensures NotEquals(other) <==> Less(other) || other.Less(this)
    {
      !Equals(other)
    }

    /**
     * operator< (custom_object.h:60-62): by value, then by name, so a
     * smaller value always decides it.
     */
    predicate Less(other: CustomObject)
      reads this, other
      ensures Less(other) ==> GetValue() <= other.GetValue()
      ensures GetValue() < other.GetValue() ==> Less(other)
    {
      value < other.value || (value == other.value && LexLess(name, other.name))
    }

    /** operator> (custom_object.h:63-65): unequal and not less. */
    predicate Greater(other: CustomObject)
      reads this, other
      ensures Greater(other) ==> !Less(other) && !Equals(other)
      ensures Greater(other) <==> NotEquals(other) && !Less(other)
    {
      LexLessTrichotomy(name, other.name);
      other.Less(this)
    }

    /** operator<= (custom_object.h:66-68): less or equal. */
    predicate LessEq(other: CustomObject)
      reads this, other
      ensures LessEq(other) <==> Less(other) || Equals(other)
    {
      LexLessTrichotomy(name, other.name);
      !other.Less(this)
    }

    /** operator>= (custom_object.h:69-71): greater or equal. */
    predicate GreaterEq(other: CustomObject)
      reads this, other
      ensures GreaterEq(other) <==> Greater(other) || Equals(other)
    {
      !Less(other)
    }
  }

  /** `==` compares both fields, and `!=` is its negation. */
  lemma EqualityIsFieldwise(a: CustomObject, b: CustomObject)
    ensures a.Equals(b) <==> a.GetName() == b.GetName() && a.GetValue() == b.GetValue()
    ensures a.NotEquals(b) <==> !a.Equals(b)
  {
  }

  /** `<` is irreflexive. */
  lemma LessIrreflexive(a: CustomObject)
    ensures !a.Less(a)
  {
    LexLessIrreflexive(a.name);
  }

  /** `<` is transitive. */
  lemma LessTransitive(a: CustomObject, b: CustomObject, c: CustomObject)
    requires a.Less(b) && b.Less(c)
    ensures a.Less(c)
  {
    if a.value == b.value == c.value {
      LexLessTransitive(a.name, b.name, c.name);
    }
  }

  /** Exactly one of a < b, a == b and b < a holds. */
  lemma LessTrichotomy(a: CustomObject, b: CustomObject)
    ensures a.Less(b) || a.Equals(b) || b.Less(a)
    ensures !(a.Less(b) && a.Equals(b)) && !(a.Equals(b) && b.Less(a)) && !(a.Less(b) && b.Less(a))
  {
    LexLessTrichotomy(a.name, b.name);
  }

  /** `>` is `<` swapped, `<=` is `<` or `==`, and `>=` is `>` or `==`. */
  lemma DerivedComparisons(a: CustomObject, b: CustomObject)
    ensures a.Greater(b) <==> b.Less(a)
    ensures a.LessEq(b) <==> a.Less(b) || a.Equals(b)
    ensures a.GreaterEq(b) <==> b.Less(a) || a.Equals(b)
  {
    LessTrichotomy(a, b);
  }

  /**
   * A copy starts equal to its original, and setters on the copy leave the
   * original alone (custom_object_test.cc:27-40).
   */
  method CopyIsIndependent(name: string, value: int, newName: string, newValue: int)
    returns (copiedName: string, copiedValue: int, originalName: string, originalValue: int)
    ensures copiedName == newName && copiedValue == newValue
    ensures originalName == name && originalValue == value
  {
    var original := new CustomObject(name, value);
    var copy := new CustomObject.Copy(original);
    assert copy.Equals(original);
    copy.SetName(newName);
    copy.SetValue(newValue);
    copiedName, copiedValue := copy.GetName(), copy.GetValue();
    originalName, originalValue := original.GetName(), original.GetValue();
  }
}
