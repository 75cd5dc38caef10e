/**
  What the element comparison means. Two elements compare equivalent exactly
  when they have the same category, name, attribute names and values, and their children
  pair up by name into equivalent pairs. On trees whose siblings have distinct
  names (as MaterialX documents do) the relation is reflexive and symmetric; it
  is transitive on all trees. The order of the children does not matter, on
  either side.
 */
module ElementLaws {
  import opened PyString
  import opened Sorting
  import opened Elements

  /** Every left-hand child compares equivalent with its right-hand partner. */
  predicate ChildrenMatch(lhs: Element, rhs: Element)
    requires SameChildNames(lhs, rhs)
  {
    forall i :: 0 <= i < |lhs.children| ==> Compare(lhs.children[i], Partner(lhs, rhs, i)) == Equivalent
  }

  /** Attribute `name` has the same value on both sides (missing reads as ""). */
  predicate Agree(lhs: Element, rhs: Element, name: string) {
    GetAttribute(lhs, name) == GetAttribute(rhs, name)
  }

  /** Both elements list the same attribute names, and every left-hand attribute has the same value on the right. */
  predicate SameAttributes(lhs: Element, rhs: Element) {
    && multiset(AttributeNames(lhs)) == multiset(AttributeNames(rhs))
    && forall i :: 0 <= i < |lhs.attrs| ==> Agree(lhs, rhs, lhs.attrs[i].name)
  }

  /** The declarative reading of equivalence. */
  predicate Matches(lhs: Element, rhs: Element) {
    && lhs.category == rhs.category
    && lhs.name == rhs.name
    && SameAttributes(lhs, rhs)
    && |lhs.children| == |rhs.children|
    && SameChildNames(lhs, rhs)
    && ChildrenMatch(lhs, rhs)
  }

  /** The child loop succeeds exactly when every verdict is `Equivalent`. */
  lemma {:induction false} FirstFailureAllEquivalent(vs: seq<Verdict>)
    ensures FirstFailure(vs) == Equivalent <==> forall i :: 0 <= i < |vs| ==> vs[i] == Equivalent
  {
    if vs != [] {
      FirstFailureAllEquivalent(vs[1..]);
      assert forall i :: 1 <= i < |vs| ==> vs[i] == vs[1..][i - 1];
    }
  }

  /** A failing child loop reports the first verdict that is not `Equivalent`. */
  lemma {:induction false} FirstFailureIsFirst(vs: seq<Verdict>)
    requires FirstFailure(vs) != Equivalent
    ensures exists i :: 0 <= i < |vs| && FirstFailure(vs) == vs[i] && forall j :: 0 <= j < i ==> vs[j] == Equivalent
  {
    if vs[0] == Equivalent {
      FirstFailureIsFirst(vs[1..]);
      var i :| 0 <= i < |vs[1..]| && FirstFailure(vs[1..]) == vs[1..][i] && forall j :: 0 <= j < i ==> vs[1..][j] == Equivalent;
      assert forall j :: 1 <= j < i + 1 ==> vs[j] == vs[1..][j - 1];
      assert FirstFailure(vs) == vs[i + 1];
    }
  }

  /** The loop stops at a failing verdict that follows only `Equivalent` ones. */
  lemma {:induction false} FirstFailureAt(vs: seq<Verdict>, i: nat)
    requires i < |vs| && vs[i] != Equivalent
    requires forall j :: 0 <= j < i ==> vs[j] == Equivalent
    ensures FirstFailure(vs) == vs[i]
  {
    if i > 0 {
      assert forall j :: 0 <= j < i - 1 ==> vs[1..][j] == vs[j + 1];
      FirstFailureAt(vs[1..], i - 1);
    }
  }

  /**
    When the checks on the pair itself pass but the comparison fails, the
    verdict is that of the first left-hand child (in child order) whose
    comparison with its partner fails.
   */
  lemma FirstFailingChild(lhs: Element, rhs: Element)
    requires NodeCheck(lhs, rhs).None? && Compare(lhs, rhs) != Equivalent
    ensures exists i :: 0 <= i < |lhs.children| &&
              Compare(lhs, rhs) == Compare(lhs.children[i], Partner(lhs, rhs, i)) &&
              forall j :: 0 <= j < i ==> Compare(lhs.children[j], Partner(lhs, rhs, j)) == Equivalent
  {
    var vs := ChildVerdicts(lhs, rhs);
    assert Compare(lhs, rhs) == FirstFailure(vs);
    FirstFailureIsFirst(vs);
    var i :| 0 <= i < |vs| && FirstFailure(vs) == vs[i] && forall j :: 0 <= j < i ==> vs[j] == Equivalent;
    assert Compare(lhs, rhs) == Compare(lhs.children[i], Partner(lhs, rhs, i));
    forall j | 0 <= j < i ensures Compare(lhs.children[j], Partner(lhs, rhs, j)) == Equivalent {
      assert vs[j] == Equivalent;
    }
  }

  /** The value loop succeeds exactly when every listed name agrees. */
  lemma {:induction false} ValuesAgreeAll(lhs: Element, rhs: Element, ns: seq<string>)
    ensures ValuesAgree(lhs, rhs, ns) <==> forall i :: 0 <= i < |ns| ==> Agree(lhs, rhs, ns[i])
  {
    if ns != [] {
      ValuesAgreeAll(lhs, rhs, ns[1..]);
      assert forall i :: 1 <= i < |ns| ==> ns[i] == ns[1..][i - 1];
    }
  }

  /** Agreement on every name of a list carries over to any permutation of it. */
  lemma AgreeOnPermutation(lhs: Element, rhs: Element, ns: seq<string>, ms: seq<string>)
    requires multiset(ns) == multiset(ms)
    requires forall i :: 0 <= i < |ns| ==> Agree(lhs, rhs, ns[i])
    ensures forall j :: 0 <= j < |ms| ==> Agree(lhs, rhs, ms[j])
  {
    forall j | 0 <= j < |ms| ensures Agree(lhs, rhs, ms[j]) {
      assert ms[j] in multiset(ns);
    }
  }

  /** Passing attribute checks mean the same attributes. */
  lemma AttributeChecksSound(lhs: Element, rhs: Element)
    requires |lhs.attrs| == |rhs.attrs| && Sort(AttributeNames(lhs)) == Sort(AttributeNames(rhs))
    requires ValuesAgree(lhs, rhs, Sort(AttributeNames(lhs)))
    ensures SameAttributes(lhs, rhs)
  {
    var ns := AttributeNames(lhs);
    SortSameIff(ns, AttributeNames(rhs));
    SortSpec(ns);
    ValuesAgreeAll(lhs, rhs, Sort(ns));
    AgreeOnPermutation(lhs, rhs, Sort(ns), ns);
  }

  /** The same attributes pass the attribute checks. */
  lemma AttributeChecksComplete(lhs: Element, rhs: Element)
    requires SameAttributes(lhs, rhs)
    ensures |lhs.attrs| == |rhs.attrs| && Sort(AttributeNames(lhs)) == Sort(AttributeNames(rhs))
    ensures ValuesAgree(lhs, rhs, Sort(AttributeNames(lhs)))
  {
    var ns := AttributeNames(lhs);
    SortSameIff(ns, AttributeNames(rhs));
    SortSpec(ns);
    ValuesAgreeAll(lhs, rhs, Sort(ns));
    assert |ns| == |AttributeNames(rhs)| by {
      assert |multiset(ns)| == |ns|;
    }
    AgreeOnPermutation(lhs, rhs, ns, Sort(ns));
  }

  /** The attribute checks pass exactly when the attributes are the same. */
  lemma AttributeChecksIff(lhs: Element, rhs: Element)
    ensures (|lhs.attrs| == |rhs.attrs| && Sort(AttributeNames(lhs)) == Sort(AttributeNames(rhs)) &&
             ValuesAgree(lhs, rhs, Sort(AttributeNames(lhs))))
            <==> SameAttributes(lhs, rhs)
  {
    if |lhs.attrs| == |rhs.attrs| && Sort(AttributeNames(lhs)) == Sort(AttributeNames(rhs)) &&
       ValuesAgree(lhs, rhs, Sort(AttributeNames(lhs))) {
      AttributeChecksSound(lhs, rhs);
    }
    if SameAttributes(lhs, rhs) {
      AttributeChecksComplete(lhs, rhs);
    }
  }

  /** The checks before the children pass exactly when category, name and attributes agree and the child names match. */
  lemma NodeCheckIff(lhs: Element, rhs: Element)
    ensures NodeCheck(lhs, rhs).None? <==>
              && lhs.category == rhs.category
              && lhs.name == rhs.name
              && SameAttributes(lhs, rhs)
              && |lhs.children| == |rhs.children|
              && SameChildNames(lhs, rhs)
  {
    SortSameIff(ChildNames(lhs), ChildNames(rhs));
    AttributeChecksIff(lhs, rhs);
  }

  /** The child loop succeeds exactly when every child matches its partner. */
  lemma ChildrenMatchIff(lhs: Element, rhs: Element)
    requires SameChildNames(lhs, rhs)
    ensures FirstFailure(ChildVerdicts(lhs, rhs)) == Equivalent <==> ChildrenMatch(lhs, rhs)
  {
    var vs := ChildVerdicts(lhs, rhs);
    FirstFailureAllEquivalent(vs);
    assert forall i :: 0 <= i < |vs| ==> vs[i] == Compare(lhs.children[i], Partner(lhs, rhs, i));
  }

  /** `Compare` answers `Equivalent` exactly when the declarative reading holds. */
  lemma CompareIff(lhs: Element, rhs: Element)
    ensures Compare(lhs, rhs) == Equivalent <==> Matches(lhs, rhs)
  {
    NodeCheckIff(lhs, rhs);
    if NodeCheck(lhs, rhs).None? {
      ChildrenMatchIff(lhs, rhs);
    }
  }

  lemma SameAttributesSymmetric(a: Element, b: Element)
    requires SameAttributes(a, b)
    ensures SameAttributes(b, a)
  {
    forall j | 0 <= j < |b.attrs| ensures Agree(b, a, b.attrs[j].name) {
      assert AttributeNames(b)[j] in multiset(AttributeNames(a));
      var i :| 0 <= i < |a.attrs| && AttributeNames(a)[i] == b.attrs[j].name;
      assert Agree(a, b, a.attrs[i].name);
    }
  }

  lemma SameAttributesTransitive(a: Element, b: Element, c: Element)
    requires SameAttributes(a, b) && SameAttributes(b, c)
    ensures SameAttributes(a, c)
  {
    forall i | 0 <= i < |a.attrs| ensures Agree(a, c, a.attrs[i].name) {
      assert AttributeNames(a)[i] in multiset(AttributeNames(b));
      var j :| 0 <= j < |b.attrs| && AttributeNames(b)[j] == a.attrs[i].name;
      assert Agree(a, b, a.attrs[i].name) && Agree(b, c, b.attrs[j].name);
    }
  }

  /** Sibling names are distinct, at every level. */
  predicate Distinct(ns: seq<string>) {
    forall i, j :: 0 <= i < j < |ns| ==> ns[i] != ns[j]
  }

  predicate WellFormed(e: Element)
    decreases e
  {
    Distinct(ChildNames(e)) && forall i :: 0 <= i < |e.children| ==> WellFormed(e.children[i])
  }

  /** With distinct sibling names, `getChild` finds each child by its own name. */
  lemma GetChildDistinct(e: Element, k: nat)
    requires Distinct(ChildNames(e)) && k < |e.children|
    ensures GetChild(e, e.children[k].name) == Some(e.children[k])
  {
    var j := FirstIndex(ChildNames(e), e.children[k].name, 0);
    assert j <= k;
    assert ChildNames(e)[j] == ChildNames(e)[k];
  }

  lemma {:induction false} CompareReflexive(e: Element)
    requires WellFormed(e)
    ensures Compare(e, e) == Equivalent
    decreases e
  {
    forall i | 0 <= i < |e.children|
      ensures Compare(e.children[i], Partner(e, e, i)) == Equivalent
    {
      GetChildDistinct(e, i);
      CompareReflexive(e.children[i]);
    }
    CompareIff(e, e);
  }

  /** With distinct sibling names, matching children match the other way round. */
  lemma {:induction false} ChildrenSymmetric(a: Element, b: Element)
    requires WellFormed(a) && WellFormed(b)
    requires SameChildNames(a, b) && ChildrenMatch(a, b)
    ensures SameChildNames(b, a) && ChildrenMatch(b, a)
    decreases a, 0
  {
    forall j | 0 <= j < |b.children|
      ensures Compare(b.children[j], Partner(b, a, j)) == Equivalent
    {
      var d := b.children[j];
      var c := Partner(b, a, j);
      var i :| 0 <= i < |a.children| && a.children[i] == c;
      GetChildDistinct(b, j);
      assert Partner(a, b, i) == d;
      CompareSymmetricStep(c, d);
    }
  }

  lemma {:induction false} CompareSymmetricStep(a: Element, b: Element)
    requires WellFormed(a) && WellFormed(b)
    requires Compare(a, b) == Equivalent
    ensures Compare(b, a) == Equivalent
    decreases a, 1
  {
    CompareIff(a, b);
    ChildrenSymmetric(a, b);
    SameAttributesSymmetric(a, b);
    CompareIff(b, a);
  }

  lemma CompareSymmetric(a: Element, b: Element)
    requires WellFormed(a) && WellFormed(b)
    ensures Compare(a, b) == Equivalent <==> Compare(b, a) == Equivalent
  {
    if Compare(a, b) == Equivalent {
      CompareSymmetricStep(a, b);
    }
    if Compare(b, a) == Equivalent {
      CompareSymmetricStep(b, a);
    }
  }

  /** Children with the same name have the same partner on a third element. */
  lemma PartnerChain(a: Element, b: Element, c: Element, i: nat, j: nat)
    requires SameChildNames(a, b) && SameChildNames(b, c) && SameChildNames(a, c)
    requires i < |a.children| && j < |b.children| && b.children[j] == Partner(a, b, i)
    ensures Partner(b, c, j) == Partner(a, c, i)
  {
  }

  /** The checks on the pair itself chain, so children that match make the whole pair match. */
  lemma MatchesChain(a: Element, b: Element, c: Element)
    requires Matches(a, b) && Matches(b, c)
    requires ChildrenMatch(a, c)
    ensures Matches(a, c)
  {
    SameAttributesTransitive(a, b, c);
  }

  /** Matching children chain: each child of `a` matches its partner in `c` through its partner in `b`. */
  lemma {:induction false} ChildrenTransitive(a: Element, b: Element, c: Element)
    requires SameChildNames(a, b) && SameChildNames(b, c)
    requires ChildrenMatch(a, b) && ChildrenMatch(b, c)
    ensures SameChildNames(a, c) && ChildrenMatch(a, c)
    decreases a, 0
  {
    forall i | 0 <= i < |a.children|
      ensures Compare(a.children[i], Partner(a, c, i)) == Equivalent
    {
      var y := Partner(a, b, i);
      var j :| 0 <= j < |b.children| && b.children[j] == y;
      PartnerChain(a, b, c, i, j);
      CompareTransitive(a.children[i], y, Partner(a, c, i));
    }
  }

  lemma {:induction false} CompareTransitive(a: Element, b: Element, c: Element)
    requires Compare(a, b) == Equivalent && Compare(b, c) == Equivalent
    ensures Compare(a, c) == Equivalent
    decreases a, 1
  {
    CompareIff(a, b);
    CompareIff(b, c);
    ChildrenTransitive(a, b, c);
    MatchesChain(a, b, c);
    CompareIff(a, c);
  }
}
