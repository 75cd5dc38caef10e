/**
  `MtlxDocumentCompare`: holds two documents, normalises their value strings
  and decides whether they are functionally equivalent, remembering why the
  last comparison failed. The error is kept as the kind of check that failed
  (`None` stands for the empty message the object starts with).
 */
module DocumentCompare {
  import opened PyString
  import opened Sorting
  import opened Elements
  import opened ElementLaws
  import opened DocumentNormalize

  /** The loop that collects the names of a list of children, in list order. */
  method CollectNames(cs: seq<Element>) returns (names: seq<string>)
    ensures names == Names(cs)
  {
    names := [];
    for i := 0 to |cs|
      invariant names == Names(cs)[..i]
    {
      names := names + [cs[i].name];
    }
  }

  /** The loop over the sorted attribute names: false at the first name whose values differ. */
  method ValuesMatch(lhs: Element, rhs: Element, names: seq<string>) returns (agree: bool)
    ensures agree == ValuesAgree(lhs, rhs, names)
  {
    for k := 0 to |names|
      invariant ValuesAgree(lhs, rhs, names) == ValuesAgree(lhs, rhs, names[k..])
    {
      assert names[k..][1..] == names[k + 1..];
      if GetAttribute(lhs, names[k]) != GetAttribute(rhs, names[k]) {
        return false;
      }
    }
    return true;
  }

  /** The child-name check: both name lists collected, sorted and compared. */
  method ChildNamesMatch(c1: seq<Element>, c2: seq<Element>) returns (same: bool)
    ensures same == (Sort(Names(c1)) == Sort(Names(c2)))
  {
    var c1names := CollectNames(c1);
    var c2names := CollectNames(c2);
    c1names := Sort(c1names);
    c2names := Sort(c2names);
    return c1names == c2names;
  }

  /**
    The checks `functionallyEquivalent` makes on a pair of elements before it
    compares their children, in its order: the first that fails, if any.
   */
  method CheckNode(lhs: Element, rhs: Element) returns (mismatch: Option<Mismatch>)
    ensures mismatch == NodeCheck(lhs, rhs)
  {
    if lhs.category != rhs.category {
      return Some(CategoryMismatch);
    }
    if lhs.name != rhs.name {
      return Some(NameMismatch);
    }
    var lhsAttrNames := AttributeNames(lhs);
    var rhsAttrNames := AttributeNames(rhs);
    if |lhsAttrNames| != |rhsAttrNames| {
      return Some(AttributeCountMismatch);
    }
    lhsAttrNames := Sort(lhsAttrNames);
    rhsAttrNames := Sort(rhsAttrNames);
    if lhsAttrNames != rhsAttrNames {
      return Some(AttributeNamesMismatch);
    }
    var agree := ValuesMatch(lhs, rhs, lhsAttrNames);
    if !agree {
      return Some(AttributeValueMismatch);
    }
    var c1, c2 := lhs.children, rhs.children;
    if |c1| != |c2| {
      return Some(ChildCountMismatch);
    }
    var same := ChildNamesMatch(c1, c2);
    if !same {
      return Some(ChildNamesMismatch);
    }
    return None;
  }

  /** The i-th verdict of the child loop is the comparison of the i-th child with the right-hand child of its name. */
  lemma VerdictOfChild(lhs: Element, rhs: Element, i: nat)
    requires SameChildNames(lhs, rhs) && i < |lhs.children|
    ensures GetChild(rhs, lhs.children[i].name).Some?
    ensures ChildVerdicts(lhs, rhs)[i] == Elements.Compare(lhs.children[i], GetChild(rhs, lhs.children[i].name).value)
  {
    assert Partner(lhs, rhs, i) == GetChild(rhs, lhs.children[i].name).value;
  }

  class MtlxDocumentCompare {
    var doc1: Element
    var doc2: Element
    var error: Option<Mismatch>
    /** `self.result`, which only `compare` sets. */
    var result: Option<bool>

    constructor(doc1: Element, doc2: Element)
      ensures this.doc1 == doc1 && this.doc2 == doc2
      ensures error == None && result == None
    {
      this.doc1 := doc1;
      this.doc2 := doc2;
      error := None;
      result := None;
    }

    function GetError(): Option<Mismatch>
      reads this
    {
      error
    }

    /**
      `functionallyEquivalent(lhs, rhs)`: true exactly when the elements compare
      equivalent. On failure the error records the first failing check (the
      innermost one, for a failing child); on success the error is left as it was.
     */
    method FunctionallyEquivalent(lhs: Element, rhs: Element) returns (equivalent: bool)
      modifies this
      decreases lhs, 1
      ensures equivalent <==> Elements.Compare(lhs, rhs) == Equivalent
      ensures !equivalent ==> error == Some(Elements.Compare(lhs, rhs).reason)
      ensures equivalent ==> error == old(error)
      ensures doc1 == old(doc1) && doc2 == old(doc2) && result == old(result)
    {
      var mismatch := CheckNode(lhs, rhs);
      if mismatch.Some? {
        error := mismatch;
        return false;
      }
      equivalent := ChildrenEquivalent(lhs, rhs);
    }

    /** The loop over the left-hand children: each compared with the right-hand child of its name, stopping at the first failure. */
    method ChildrenEquivalent(lhs: Element, rhs: Element) returns (equivalent: bool)
      requires SameChildNames(lhs, rhs)
      modifies this
      decreases lhs, 0
      ensures equivalent <==> FirstFailure(ChildVerdicts(lhs, rhs)) == Equivalent
      ensures !equivalent ==> error == Some(FirstFailure(ChildVerdicts(lhs, rhs)).reason)
      ensures equivalent ==> error == old(error)
      ensures doc1 == old(doc1) && doc2 == old(doc2) && result == old(result)
    {
      var c1 := lhs.children;
      ghost var vs := ChildVerdicts(lhs, rhs);
      for i := 0 to |c1|
        invariant error == old(error) && doc1 == old(doc1) && doc2 == old(doc2) && result == old(result)
        invariant forall j :: 0 <= j < i ==> vs[j] == Equivalent
      {
        var child2 := GetChild(rhs, c1[i].name).value;
        VerdictOfChild(lhs, rhs, i);
        var ok := FunctionallyEquivalent(c1[i], child2);
        if !ok {
          FirstFailureAt(vs, i);
          return false;
        }
      }
      FirstFailureAllEquivalent(vs);
      return true;
    }

    /** `compare()`: compares the two documents and remembers the answer. */
    method Compare() returns (equivalent: bool)
      modifies this
      ensures equivalent <==> Elements.Compare(doc1, doc2) == Equivalent
      ensures result == Some(equivalent)
      ensures !equivalent ==> error == Some(Elements.Compare(doc1, doc2).reason)
      ensures equivalent ==> error == old(error)
      ensures doc1 == old(doc1) && doc2 == old(doc2)
    {
      equivalent := FunctionallyEquivalent(doc1, doc2);
      result := Some(equivalent);
    }

    /** `normalize()`: normalises the value strings of both documents. */
    method Normalize(valueCategories: set<string>)
      modifies this
      ensures doc1 == NormalizeTree(old(doc1), valueCategories)
      ensures doc2 == NormalizeTree(old(doc2), valueCategories)
      ensures error == old(error) && result == old(result)
    {
      doc1 := NormalizeTree(doc1, valueCategories);
      doc2 := NormalizeTree(doc2, valueCategories);
    }
  }
}
