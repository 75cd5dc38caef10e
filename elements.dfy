/**
  The structural comparison of two MaterialX element trees.

  An element is seen through what the comparison reads of it: its category,
  its name, its attributes (name and value, in the order the element lists
  them) and its ordered list of children. `Compare` answers either
  `Equivalent` or the kind of the first check that failed, walking the trees
  depth first in the left-hand tree's child order.
 */
module Elements {
  import opened PyString
  import opened Sorting

  datatype Attribute = Attribute(name: string, value: string)

  datatype Element = Element(category: string, name: string, attrs: seq<Attribute>, children: seq<Element>)

  /** The checks the comparison makes, in the order it makes them. */
  datatype Mismatch =
    | CategoryMismatch
    | NameMismatch
    | AttributeCountMismatch
    | AttributeNamesMismatch
    | AttributeValueMismatch
    | ChildCountMismatch
    | ChildNamesMismatch

  datatype Verdict = Equivalent | Different(reason: Mismatch)

  /** `getAttributeNames()`: the attribute names, in attribute order. */
  function AttributeNames(e: Element): (ns: seq<string>)
    ensures |ns| == |e.attrs|
    ensures forall i :: 0 <= i < |ns| ==> ns[i] == e.attrs[i].name
  {
    seq(|e.attrs|, i requires 0 <= i < |e.attrs| => e.attrs[i].name)
  }

  /** The position of the first name from `from` on equal to `name`, or the length of the list when there is none. */
  function FirstIndex(ns: seq<string>, name: string, from: nat): (k: nat)
    requires from <= |ns|
    ensures from <= k <= |ns|
    ensures forall j :: from <= j < k ==> ns[j] != name
    ensures k < |ns| ==> ns[k] == name
    decreases |ns| - from
  {
    if from == |ns| || ns[from] == name then from else FirstIndex(ns, name, from + 1)
  }

  /** `getAttribute(name)`: the value of the first attribute called `name`, or the empty string when there is none. */
  function GetAttribute(e: Element, name: string): string {
    var k := FirstIndex(AttributeNames(e), name, 0);
    if k < |e.attrs| then e.attrs[k].value else ""
  }

  /** The loop over the (sorted) attribute names: every listed attribute has the same value on both sides. */
  function ValuesAgree(lhs: Element, rhs: Element, names: seq<string>): bool {
    names == [] || (GetAttribute(lhs, names[0]) == GetAttribute(rhs, names[0]) && ValuesAgree(lhs, rhs, names[1..]))
  }

  /** The names of a list of elements, in list order. */
  function Names(cs: seq<Element>): (ns: seq<string>)
    ensures |ns| == |cs|
    ensures forall i :: 0 <= i < |ns| ==> ns[i] == cs[i].name
  {
    seq(|cs|, i requires 0 <= i < |cs| => cs[i].name)
  }

  /** The names of the children, in child order: the list the comparison sorts. */
  function ChildNames(e: Element): seq<string> {
    Names(e.children)
  }

  /** `getChild(name)`: the first child called `name`, if any. */
  function GetChild(e: Element, name: string): (r: Option<Element>)
    ensures r.Some? <==> name in ChildNames(e)
    ensures r.Some? ==> exists k :: 0 <= k < |e.children| && r.value == e.children[k] && r.value.name == name
  {
    var k := FirstIndex(ChildNames(e), name, 0);
    if k < |e.children| then
      assert ChildNames(e)[k] == name;
      Some(e.children[k])
    else
      assert forall j :: 0 <= j < |e.children| ==> ChildNames(e)[j] != name;
      None
  }

  /** Both elements have the same child names, counted with repetition. */
  predicate SameChildNames(lhs: Element, rhs: Element) {
    multiset(ChildNames(lhs)) == multiset(ChildNames(rhs))
  }

  /** The right-hand child that the i-th left-hand child is compared with. */
  function Partner(lhs: Element, rhs: Element, i: nat): (c: Element)
    requires SameChildNames(lhs, rhs) && i < |lhs.children|
    ensures c in rhs.children && c.name == lhs.children[i].name
  {
    assert ChildNames(lhs)[i] in multiset(ChildNames(lhs));
    GetChild(rhs, lhs.children[i].name).value
  }

  /**
    The checks `functionallyEquivalent` makes on one pair of elements before it
    looks at their children: the first that fails, or `None` when all pass.
   */
  function NodeCheck(lhs: Element, rhs: Element): (r: Option<Mismatch>)
    ensures r.None? ==> |lhs.children| == |rhs.children| && SameChildNames(lhs, rhs)
  {
    if lhs.category != rhs.category then Some(CategoryMismatch)
    else if lhs.name != rhs.name then Some(NameMismatch)
    else if |lhs.attrs| != |rhs.attrs| then Some(AttributeCountMismatch)
    else if Sort(AttributeNames(lhs)) != Sort(AttributeNames(rhs)) then Some(AttributeNamesMismatch)
    else if !ValuesAgree(lhs, rhs, Sort(AttributeNames(lhs))) then Some(AttributeValueMismatch)
    else if |lhs.children| != |rhs.children| then Some(ChildCountMismatch)
    else if Sort(ChildNames(lhs)) != Sort(ChildNames(rhs)) then Some(ChildNamesMismatch)
    else
      SortSameIff(ChildNames(lhs), ChildNames(rhs));
      None
  }

  /** The loop over the children's verdicts: the first that is not `Equivalent` decides. */
  function FirstFailure(vs: seq<Verdict>): Verdict {
    if vs == [] then Equivalent
    else if vs[0] != Equivalent then vs[0]
    else FirstFailure(vs[1..])
  }

  /** `functionallyEquivalent(lhs, rhs)`, with the failure kind in place of the error message. */
  function Compare(lhs: Element, rhs: Element): (v: Verdict)
    decreases lhs, 1
  {
    match NodeCheck(lhs, rhs)
    case Some(m) => Different(m)
    case None => FirstFailure(ChildVerdicts(lhs, rhs))
  }

  /** Each left-hand child compared with the right-hand child of the same name, in left-hand child order. */
  function ChildVerdicts(lhs: Element, rhs: Element): (vs: seq<Verdict>)
    requires SameChildNames(lhs, rhs)
    ensures |vs| == |lhs.children|
    decreases lhs, 0
  {
    seq(|lhs.children|, i requires 0 <= i < |lhs.children| => Compare(lhs.children[i], Partner(lhs, rhs, i)))
  }
}
