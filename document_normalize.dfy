/**
  Normalising the value strings of a whole document. The pass visits the
  elements in the order of a depth-first, pre-order walk (`traverseTree`) and
  rewrites the value string of each value element; which categories count as
  value elements is a parameter of the model. The walk's records of the
  normalised tree are exactly the record pass applied to the walk's records of
  the original tree, and normalising both documents never turns an equivalent
  pair into a different one.
 */
module DocumentNormalize {
  import opened ValueStrings
  import opened ValueRecords
  import opened Elements
  import opened ElementLaws
  import opened ElementOrder

  const ValueAttribute: string := "value"
  const TypeAttribute: string := "type"

  /** `setAttribute(name, value)`: overwrites the first attribute called `name`, or appends one when there is none. */
  function SetAttribute(e: Element, name: string, value: string): Element {
    var k := FirstIndex(AttributeNames(e), name, 0);
    if k < |e.attrs| then e.(attrs := e.attrs[k := Attribute(name, value)])
    else e.(attrs := e.attrs + [Attribute(name, value)])
  }

  lemma SetAttributeGet(e: Element, name: string, value: string)
    ensures GetAttribute(SetAttribute(e, name, value), name) == value
  {
    var k := FirstIndex(AttributeNames(e), name, 0);
    var e2 := SetAttribute(e, name, value);
    assert forall j :: 0 <= j < k ==> AttributeNames(e2)[j] == AttributeNames(e)[j];
    FirstIndexAt(AttributeNames(e2), name, 0, k);
  }

  lemma SetAttributeOther(e: Element, name: string, value: string, other: string)
    requires other != name
    ensures GetAttribute(SetAttribute(e, name, value), other) == GetAttribute(e, other)
  {
    var attrs := SetAttribute(e, name, value).attrs;
    var m := FirstIndex(AttributeNames(e), other, 0);
    if m < |e.attrs| {
      FirstIndexAt(AttributeNames(SetAttribute(e, name, value)), other, 0, m);
    } else {
      assert forall j :: 0 <= j < |attrs| ==> attrs[j].name != other;
    }
  }

  /** Overwriting an attribute that exists leaves the attribute names as they were. */
  lemma SetAttributeNames(e: Element, name: string, value: string)
    requires name in AttributeNames(e)
    ensures AttributeNames(SetAttribute(e, name, value)) == AttributeNames(e)
  {
  }

  /** One step of `normalizeValueStrings` on an element of the walk; its children are not touched. */
  function NormalizeElement(e: Element, valueCategories: set<string>): Element {
    if e.category !in valueCategories then e
    else
      var original := GetAttribute(e, ValueAttribute);
      if original == "" then e
      else
        var normalized := Normalized(original, GetAttribute(e, TypeAttribute));
        if normalized != original then SetAttribute(e, ValueAttribute, normalized) else e
  }

  /** `normalizeValueStrings(doc)`: every element of the tree normalised. */
  function NormalizeTree(e: Element, valueCategories: set<string>): (n: Element)
    ensures |n.children| == |e.children|
    decreases e
  {
    NormalizeElement(e, valueCategories).(children :=
      seq(|e.children|, i requires 0 <= i < |e.children| => NormalizeTree(e.children[i], valueCategories)))
  }

  /** `traverseTree()`: the element, then the walks of its children in order. */
  function Traverse(e: Element): (es: seq<Element>)
    ensures |es| >= 1 && es[0] == e
    decreases e, 1, 0
  {
    [e] + TraverseChildren(e, 0)
  }

  function TraverseChildren(e: Element, i: nat): seq<Element>
    requires i <= |e.children|
    decreases e, 0, |e.children| - i
  {
    if i == |e.children| then [] else Traverse(e.children[i]) + TraverseChildren(e, i + 1)
  }

  /** What the pass reads of an element. */
  function Record(e: Element, valueCategories: set<string>): ValueRecord {
    ValueRecord(e.category in valueCategories, GetAttribute(e, TypeAttribute), GetAttribute(e, ValueAttribute))
  }

  function Records(es: seq<Element>, valueCategories: set<string>): (rs: seq<ValueRecord>)
    ensures |rs| == |es|
  {
    seq(|es|, i requires 0 <= i < |es| => Record(es[i], valueCategories))
  }

  /** An element's record after its step is the record step applied to its record. */
  lemma RecordNormalized(e: Element, valueCategories: set<string>)
    ensures Record(NormalizeElement(e, valueCategories), valueCategories) == NormalizeRecord(Record(e, valueCategories))
  {
    var original := GetAttribute(e, ValueAttribute);
    if e.category in valueCategories && original != "" {
      var normalized := Normalized(original, GetAttribute(e, TypeAttribute));
      if normalized != original {
        SetAttributeGet(e, ValueAttribute, normalized);
        SetAttributeOther(e, ValueAttribute, normalized, TypeAttribute);
      }
    }
  }

  lemma RecordsConcat(xs: seq<Element>, ys: seq<Element>, valueCategories: set<string>)
    ensures Records(xs + ys, valueCategories) == Records(xs, valueCategories) + Records(ys, valueCategories)
  {
  }

  lemma NormalizedRecordsConcat(xs: seq<ValueRecord>, ys: seq<ValueRecord>)
    ensures NormalizedRecords(xs + ys) == NormalizedRecords(xs) + NormalizedRecords(ys)
  {
  }

  /** The walk of the normalised tree carries, element by element, the records the record pass produces. */
  lemma {:induction false} NormalizeTreeRecords(e: Element, valueCategories: set<string>)
    ensures Records(Traverse(NormalizeTree(e, valueCategories)), valueCategories) ==
            NormalizedRecords(Records(Traverse(e), valueCategories))
    decreases e, 1, 0
  {
    var n := NormalizeTree(e, valueCategories);
    NormalizeChildrenRecords(e, valueCategories, 0);
    RecordNormalized(e, valueCategories);
    RecordsConcat([n], TraverseChildren(n, 0), valueCategories);
    RecordsConcat([e], TraverseChildren(e, 0), valueCategories);
    NormalizedRecordsConcat(Records([e], valueCategories), Records(TraverseChildren(e, 0), valueCategories));
    assert Records([n], valueCategories) == NormalizedRecords(Records([e], valueCategories));
  }

  lemma {:induction false} NormalizeChildrenRecords(e: Element, valueCategories: set<string>, i: nat)
    requires i <= |e.children|
    ensures Records(TraverseChildren(NormalizeTree(e, valueCategories), i), valueCategories) ==
            NormalizedRecords(Records(TraverseChildren(e, i), valueCategories))
    decreases e, 0, |e.children| - i
  {
    var n := NormalizeTree(e, valueCategories);
    if i < |e.children| {
      var c := e.children[i];
      assert n.children[i] == NormalizeTree(c, valueCategories);
      NormalizeTreeRecords(c, valueCategories);
      NormalizeChildrenRecords(e, valueCategories, i + 1);
      RecordsConcat(Traverse(n.children[i]), TraverseChildren(n, i + 1), valueCategories);
      RecordsConcat(Traverse(c), TraverseChildren(e, i + 1), valueCategories);
      NormalizedRecordsConcat(Records(Traverse(c), valueCategories), Records(TraverseChildren(e, i + 1), valueCategories));
    }
  }

  /** Equal attribute lists (as `SameAttributes` reads them) give every name, listed or not, the same value. */
  lemma SameAttributesAgree(a: Element, b: Element, n: string)
    requires SameAttributes(a, b)
    ensures Agree(a, b, n)
  {
    if exists i :: 0 <= i < |a.attrs| && a.attrs[i].name == n {
      var i :| 0 <= i < |a.attrs| && a.attrs[i].name == n;
      assert Agree(a, b, a.attrs[i].name);
    } else {
      forall j | 0 <= j < |b.attrs| ensures b.attrs[j].name != n {
        assert AttributeNames(b)[j] in multiset(AttributeNames(a));
      }
    }
  }

  /** Two elements of one category with the same attributes still have the same attributes after their step. */
  lemma NormalizedAttributes(a: Element, b: Element, valueCategories: set<string>)
    requires a.category == b.category && SameAttributes(a, b)
    ensures SameAttributes(NormalizeElement(a, valueCategories), NormalizeElement(b, valueCategories))
  {
    SameAttributesAgree(a, b, ValueAttribute);
    SameAttributesAgree(a, b, TypeAttribute);
    var original := GetAttribute(a, ValueAttribute);
    if a.category in valueCategories && original != "" {
      var normalized := Normalized(original, GetAttribute(a, TypeAttribute));
      if normalized != original {
        var a2 := SetAttribute(a, ValueAttribute, normalized);
        var b2 := SetAttribute(b, ValueAttribute, normalized);
        SetAttributeNames(a, ValueAttribute, normalized);
        SetAttributeNames(b, ValueAttribute, normalized);
        forall i | 0 <= i < |a2.attrs| ensures Agree(a2, b2, a2.attrs[i].name) {
          var n := a2.attrs[i].name;
          if n == ValueAttribute {
            SetAttributeGet(a, ValueAttribute, normalized);
            SetAttributeGet(b, ValueAttribute, normalized);
          } else {
            SetAttributeOther(a, ValueAttribute, normalized, n);
            SetAttributeOther(b, ValueAttribute, normalized, n);
            SameAttributesAgree(a, b, n);
          }
        }
      }
    }
  }

  /** The attribute half of the step, read on the whole normalised trees. */
  lemma NormalizedSameAttributes(a: Element, b: Element, valueCategories: set<string>)
    requires a.category == b.category && SameAttributes(a, b)
    ensures SameAttributes(NormalizeTree(a, valueCategories), NormalizeTree(b, valueCategories))
  {
    var x, y := NormalizeElement(a, valueCategories), NormalizeElement(b, valueCategories);
    var a2, b2 := NormalizeTree(a, valueCategories), NormalizeTree(b, valueCategories);
    NormalizedAttributes(a, b, valueCategories);
    assert a2.attrs == x.attrs && b2.attrs == y.attrs;
    assert AttributeNames(a2) == AttributeNames(x) && AttributeNames(b2) == AttributeNames(y);
    forall i | 0 <= i < |a2.attrs| ensures Agree(a2, b2, a2.attrs[i].name) {
      assert Agree(x, y, x.attrs[i].name);
    }
  }

  /** Normalisation keeps the category, the name and the child names, and normalises each child in place. */
  lemma NormalizeTreeShape(e: Element, valueCategories: set<string>)
    ensures NormalizeTree(e, valueCategories).category == e.category
    ensures NormalizeTree(e, valueCategories).name == e.name
    ensures ChildNames(NormalizeTree(e, valueCategories)) == ChildNames(e)
    ensures forall i :: 0 <= i < |e.children| ==>
              NormalizeTree(e, valueCategories).children[i] == NormalizeTree(e.children[i], valueCategories)
  {
    var n := NormalizeTree(e, valueCategories);
    forall i | 0 <= i < |e.children| ensures n.children[i].name == e.children[i].name {
      assert n.children[i] == NormalizeTree(e.children[i], valueCategories);
    }
  }

  /** Each child's partner in the normalised trees is the normalised partner. */
  lemma PartnerNormalized(a: Element, b: Element, valueCategories: set<string>, i: nat)
    requires SameChildNames(a, b) && i < |a.children|
    ensures SameChildNames(NormalizeTree(a, valueCategories), NormalizeTree(b, valueCategories))
    ensures Partner(NormalizeTree(a, valueCategories), NormalizeTree(b, valueCategories), i) ==
            NormalizeTree(Partner(a, b, i), valueCategories)
  {
    var b2 := NormalizeTree(b, valueCategories);
    NormalizeTreeShape(a, valueCategories);
    NormalizeTreeShape(b, valueCategories);
  }

  /** Normalising both documents keeps an equivalent pair equivalent. */
  lemma {:induction false} NormalizePreservesEquivalence(a: Element, b: Element, valueCategories: set<string>)
    requires Compare(a, b) == Equivalent
    ensures Compare(NormalizeTree(a, valueCategories), NormalizeTree(b, valueCategories)) == Equivalent
    decreases a
  {
    var a2, b2 := NormalizeTree(a, valueCategories), NormalizeTree(b, valueCategories);
    CompareIff(a, b);
    NormalizeTreeShape(a, valueCategories);
    NormalizeTreeShape(b, valueCategories);
    NormalizedSameAttributes(a, b, valueCategories);
    forall i | 0 <= i < |a2.children| ensures Compare(a2.children[i], Partner(a2, b2, i)) == Equivalent {
      PartnerNormalized(a, b, valueCategories, i);
      NormalizePreservesEquivalence(a.children[i], Partner(a, b, i), valueCategories);
    }
    CompareIff(a2, b2);
  }
}
