/**
  The normalisation pass over a document (`normalizeValueStrings`), seen
  through what it reads and writes of each element the tree walk visits:
  whether the element is a value element, its type, and its value string.
 */
module ValueRecords {
  import opened ValueStrings
  import opened ValueStringLaws

  datatype ValueRecord = ValueRecord(isValue: bool, valueType: string, valueString: string)

  /** One step of the walk: a value element with a non-empty value string has it replaced by its normal form when that differs. */
  function NormalizeRecord(r: ValueRecord): ValueRecord {
    if !r.isValue || r.valueString == "" then r
    else
      var normalized := Normalized(r.valueString, r.valueType);
      if normalized != r.valueString then r.(valueString := normalized) else r
  }

  function NormalizedRecords(rs: seq<ValueRecord>): (ns: seq<ValueRecord>)
    ensures |ns| == |rs|
  {
    seq(|rs|, i requires 0 <= i < |rs| => NormalizeRecord(rs[i]))
  }

  /** `normalizeValueStrings(doc)` over the elements of the walk, in walk order, updated in place. */
  method NormalizeValueStrings(elems: array<ValueRecord>)
    modifies elems
    ensures elems[..] == NormalizedRecords(old(elems[..]))
  {
    ghost var before := elems[..];
    for i := 0 to elems.Length
      invariant elems[..i] == NormalizedRecords(before[..i])
      invariant elems[i..] == before[i..]
    {
      var r := elems[i];
      assert r == before[i];
      NormalizedRecordsSnoc(before, i);
      if !r.isValue {
        assert NormalizeRecord(r) == r;
        continue;
      }
      var original := r.valueString;
      if original == "" {
        assert NormalizeRecord(r) == r;
        continue;
      }
      var normalized := NormalizeValueString(original, r.valueType);
      if normalized != original {
        elems[i] := r.(valueString := normalized);
      }
      assert elems[i] == NormalizeRecord(r);
    }
    assert before[..elems.Length] == before;
  }

  lemma NormalizedRecordsSnoc(rs: seq<ValueRecord>, i: nat)
    requires i < |rs|
    ensures NormalizedRecords(rs[..i + 1]) == NormalizedRecords(rs[..i]) + [NormalizeRecord(rs[i])]
  {
  }

  /**
    The pass changes only value strings, and only of value elements with a
    non-empty string; such a string becomes its normal form.
   */
  lemma NormalizedRecordsEffect(rs: seq<ValueRecord>, i: nat)
    requires i < |rs|
    ensures NormalizedRecords(rs)[i].isValue == rs[i].isValue
    ensures NormalizedRecords(rs)[i].valueType == rs[i].valueType
    ensures !rs[i].isValue || rs[i].valueString == "" ==> NormalizedRecords(rs)[i] == rs[i]
    ensures rs[i].isValue && rs[i].valueString != "" ==>
              NormalizedRecords(rs)[i].valueString == Normalized(rs[i].valueString, rs[i].valueType)
  {
  }

  /** Every value string the pass would rewrite is clean. */
  predicate CleanRecords(rs: seq<ValueRecord>) {
    forall i :: 0 <= i < |rs| ==> (rs[i].isValue ==> CleanTokens(rs[i].valueString, rs[i].valueType))
  }

  /** Running the pass a second time changes nothing, when the value strings are clean. */
  lemma NormalizedRecordsIdempotent(rs: seq<ValueRecord>)
    requires CleanRecords(rs)
    ensures NormalizedRecords(NormalizedRecords(rs)) == NormalizedRecords(rs)
  {
    forall i | 0 <= i < |rs|
      ensures NormalizeRecord(NormalizeRecord(rs[i])) == NormalizeRecord(rs[i])
    {
      var r := rs[i];
      if r.isValue && r.valueString != "" {
        NormalizedIdempotent(r.valueString, r.valueType);
      }
    }
  }
}
