/**
  The comparison does not depend on the order in which an element lists its
  attributes or its children. Reordering the right-hand element's attributes or
  children leaves the verdict exactly as it was (the names are distinct, so
  lookups by name find the same attribute and the same child). Reordering the
  left-hand element's children can change which failure is reported first, but
  not whether the elements are equivalent.
 */
module ElementOrder {
  import opened Sorting
  import opened Elements
  import opened ElementLaws

  function Mapped<T, U>(s: seq<T>, f: T -> U): (r: seq<U>)
    ensures |r| == |s|
    ensures forall i :: 0 <= i < |s| ==> r[i] == f(s[i])
  {
    seq(|s|, i requires 0 <= i < |s| => f(s[i]))
  }

  lemma MappedConcat<T, U>(a: seq<T>, b: seq<T>, f: T -> U)
    ensures Mapped(a + b, f) == Mapped(a, f) + Mapped(b, f)
  {
  }

  /** Mapping a function over two permutations of each other gives permutations of each other. */
  lemma {:induction false} MappedPermutation<T, U>(s: seq<T>, t: seq<T>, f: T -> U)
    requires multiset(s) == multiset(t)
    ensures multiset(Mapped(s, f)) == multiset(Mapped(t, f))
    decreases |s|
  {
    if s == [] {
      assert |multiset(t)| == 0;
    } else {
      var x := s[0];
      assert x in multiset(t);
      var k :| 0 <= k < |t| && t[k] == x;
      var pre, post := t[..k], t[k + 1..];
      assert t == pre + [x] + post;
      assert s == [x] + s[1..];
      calc {
        multiset(s[1..]);
        multiset(s) - multiset{x};
        multiset(t) - multiset{x};
        multiset(pre) + multiset{x} + multiset(post) - multiset{x};
        multiset(pre + post);
      }
      MappedPermutation(s[1..], pre + post, f);
      MappedConcat([x], s[1..], f);
      MappedConcat(pre + [x], post, f);
      MappedConcat(pre, [x], f);
      MappedConcat(pre, post, f);
    }
  }

  lemma ChildNamesPermutation(x: Element, y: Element)
    requires multiset(x.children) == multiset(y.children)
    ensures multiset(ChildNames(x)) == multiset(ChildNames(y))
    ensures |x.children| == |y.children|
  {
    var f := (c: Element) => c.name;
    MappedPermutation(x.children, y.children, f);
    assert ChildNames(x) == Mapped(x.children, f);
    assert ChildNames(y) == Mapped(y.children, f);
    assert |multiset(x.children)| == |x.children| && |multiset(y.children)| == |y.children|;
  }

  lemma AttributeNamesPermutation(x: Element, y: Element)
    requires multiset(x.attrs) == multiset(y.attrs)
    ensures multiset(AttributeNames(x)) == multiset(AttributeNames(y))
    ensures |x.attrs| == |y.attrs|
  {
    var f := (a: Attribute) => a.name;
    MappedPermutation(x.attrs, y.attrs, f);
    assert AttributeNames(x) == Mapped(x.attrs, f);
    assert AttributeNames(y) == Mapped(y.attrs, f);
    assert |multiset(x.attrs)| == |x.attrs| && |multiset(y.attrs)| == |y.attrs|;
  }

  /** The scan for a name stops at the first place that holds it. */
  lemma {:induction false} FirstIndexAt(ns: seq<string>, name: string, from: nat, k: nat)
    requires from <= k < |ns| && ns[k] == name
    requires forall j :: from <= j < k ==> ns[j] != name
    ensures FirstIndex(ns, name, from) == k
    decreases k - from
  {
    if from < k {
      FirstIndexAt(ns, name, from + 1, k);
    }
  }

  /** With distinct attribute names, an attribute's value is what `getAttribute` returns for its name. */
  lemma GetAttributeDistinct(e: Element, k: nat)
    requires Distinct(AttributeNames(e)) && k < |e.attrs|
    ensures GetAttribute(e, e.attrs[k].name) == e.attrs[k].value
  {
    forall j | 0 <= j < k ensures e.attrs[j].name != e.attrs[k].name {
      assert AttributeNames(e)[j] != AttributeNames(e)[k];
    }
    FirstIndexAt(AttributeNames(e), e.attrs[k].name, 0, k);
  }

  /** Reordering attributes with distinct names changes no lookup by name. */
  lemma GetAttributeReordered(e: Element, attrs: seq<Attribute>, name: string)
    requires Distinct(AttributeNames(e)) && multiset(attrs) == multiset(e.attrs)
    ensures GetAttribute(e.(attrs := attrs), name) == GetAttribute(e, name)
  {
    var first := FirstIndex(AttributeNames(e.(attrs := attrs)), name, 0);
    if first < |attrs| {
      assert attrs[first] in multiset(e.attrs);
      var m :| 0 <= m < |e.attrs| && e.attrs[m] == attrs[first];
      GetAttributeDistinct(e, m);
    } else {
      forall j | 0 <= j < |e.attrs| ensures e.attrs[j].name != name {
        assert e.attrs[j] in multiset(attrs);
      }
    }
  }

  /** With distinct right-hand child names, reordering the right-hand children leaves each partner as it was. */
  lemma PartnerReordered(a: Element, b: Element, cs: seq<Element>, i: nat)
    requires Distinct(ChildNames(b)) && multiset(cs) == multiset(b.children)
    requires SameChildNames(a, b) && SameChildNames(a, b.(children := cs)) && i < |a.children|
    ensures Partner(a, b.(children := cs), i) == Partner(a, b, i)
  {
    var p := Partner(a, b.(children := cs), i);
    assert p in multiset(b.children);
    var k :| 0 <= k < |b.children| && b.children[k] == p;
    GetChildDistinct(b, k);
  }

  /** Reordering the children of the right-hand element (with distinct child names) does not change the verdict. */
  lemma RhsChildOrder(a: Element, b: Element, cs: seq<Element>)
    requires Distinct(ChildNames(b)) && multiset(cs) == multiset(b.children)
    ensures Compare(a, b.(children := cs)) == Compare(a, b)
  {
    var b2 := b.(children := cs);
    ChildNamesPermutation(b2, b);
    SortSameIff(ChildNames(b2), ChildNames(b));
    var ns := Sort(AttributeNames(a));
    ValuesAgreeAll(a, b2, ns);
    ValuesAgreeAll(a, b, ns);
    assert forall n :: Agree(a, b2, n) == Agree(a, b, n);
    assert NodeCheck(a, b2) == NodeCheck(a, b);
    if NodeCheck(a, b).None? {
      forall i | 0 <= i < |a.children| ensures ChildVerdicts(a, b2)[i] == ChildVerdicts(a, b)[i] {
        PartnerReordered(a, b, cs, i);
      }
      assert ChildVerdicts(a, b2) == ChildVerdicts(a, b);
    }
  }

  /** Reordering the attributes of the right-hand element (with distinct attribute names) does not change the verdict. */
  lemma RhsAttributeOrder(a: Element, b: Element, attrs: seq<Attribute>)
    requires Distinct(AttributeNames(b)) && multiset(attrs) == multiset(b.attrs)
    ensures Compare(a, b.(attrs := attrs)) == Compare(a, b)
  {
    var b2 := b.(attrs := attrs);
    AttributeNamesPermutation(b2, b);
    SortSameIff(AttributeNames(b2), AttributeNames(b));
    var ns := Sort(AttributeNames(a));
    forall n ensures Agree(a, b2, n) == Agree(a, b, n) {
      GetAttributeReordered(b, attrs, n);
    }
    ValuesAgreeAll(a, b2, ns);
    ValuesAgreeAll(a, b, ns);
    assert NodeCheck(a, b2) == NodeCheck(a, b);
    if NodeCheck(a, b).None? {
      assert ChildVerdicts(a, b2) == ChildVerdicts(a, b);
    }
  }

  /** Children that match their partners still match when the left-hand children are listed in another order. */
  lemma ChildrenMatchPermuted(x: Element, y: Element, b: Element)
    requires multiset(x.children) == multiset(y.children)
    requires SameChildNames(x, b) && SameChildNames(y, b) && ChildrenMatch(x, b)
    ensures ChildrenMatch(y, b)
  {
    forall i | 0 <= i < |y.children| ensures Compare(y.children[i], Partner(y, b, i)) == Equivalent {
      assert y.children[i] in multiset(x.children);
      var k :| 0 <= k < |x.children| && x.children[k] == y.children[i];
      assert Partner(y, b, i) == Partner(x, b, k);
    }
  }

  /** Reordering the children of the left-hand element does not change whether the elements are equivalent. */
  lemma LhsChildOrder(a: Element, cs: seq<Element>, b: Element)
    requires multiset(cs) == multiset(a.children)
    ensures Compare(a.(children := cs), b) == Equivalent <==> Compare(a, b) == Equivalent
  {
    var a2 := a.(children := cs);
    ChildNamesPermutation(a2, a);
    CompareIff(a2, b);
    CompareIff(a, b);
    if SameChildNames(a, b) {
      if ChildrenMatch(a, b) {
        ChildrenMatchPermuted(a, a2, b);
      }
      if ChildrenMatch(a2, b) {
        ChildrenMatchPermuted(a2, a, b);
      }
    }
  }

  /** Reordering the attributes of the left-hand element (with distinct attribute names) does not change whether the elements are equivalent. */
  lemma LhsAttributeOrder(a: Element, attrs: seq<Attribute>, b: Element)
    requires Distinct(AttributeNames(a)) && multiset(attrs) == multiset(a.attrs)
    ensures Compare(a.(attrs := attrs), b) == Equivalent <==> Compare(a, b) == Equivalent
  {
    var a2 := a.(attrs := attrs);
    AttributeNamesPermutation(a2, a);
    forall n ensures Agree(a2, b, n) == Agree(a, b, n) {
      GetAttributeReordered(a, attrs, n);
    }
    if forall i :: 0 <= i < |a.attrs| ==> Agree(a, b, AttributeNames(a)[i]) {
      AgreeOnPermutation(a, b, AttributeNames(a), AttributeNames(a2));
    }
    if forall i :: 0 <= i < |a2.attrs| ==> Agree(a2, b, AttributeNames(a2)[i]) {
      AgreeOnPermutation(a, b, AttributeNames(a2), AttributeNames(a));
    }
    assert SameAttributes(a2, b) <==> SameAttributes(a, b);
    CompareIff(a2, b);
    CompareIff(a, b);
    if SameChildNames(a, b) {
      assert ChildrenMatch(a2, b) <==> ChildrenMatch(a, b);
    }
  }
}
