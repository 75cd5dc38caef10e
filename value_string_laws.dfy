/**
  What `normalizeValueString` promises: the rules it applies to each token,
  the shape of the string it returns, and when a second pass changes nothing.
 */
module ValueStringLaws {
  import opened PyString
  import opened ValueStrings

  // ---------------------------------------------------------------------------
  // One token

  /** No two decimal points. */
  predicate OnePointAtMost(t: string) {
    forall i, j :: 0 <= i < j < |t| ==> !(t[i] == '.' && t[j] == '.')
  }

  /** Every character of `s` is in `cs`. */
  predicate Within(s: string, cs: set<char>) {
    forall i :: 0 <= i < |s| ==> s[i] in cs
  }

  /** No character of `s` is in `cs`. */
  predicate Avoids(s: string, cs: set<char>) {
    forall i :: 0 <= i < |s| ==> s[i] !in cs
  }

  /** The leading-zero rule never starts a token with '.', and a leading '0' is a lone zero or stands before the point. */
  lemma ZeroPrefixedStart(t: string)
    ensures var v := ZeroPrefixed(t);
            v[0] != '.' && (v[0] == '0' ==> |v| == 1 || v[1] == '.')
  {
  }

  /** The leading-zero rule drops a run of leading zeros and may put one "0" back. */
  lemma ZeroPrefixedSuffix(t: string)
    ensures var k := |t| - |LStrip(t, {'0'})|;
            var v := ZeroPrefixed(t);
            0 <= k <= |t| && (forall i :: 0 <= i < k ==> t[i] == '0')
            && (v == t[k..] || v == "0" + t[k..])
  {
  }

  /** The leading-zero rule keeps a token within any character set that holds '0'. */
  lemma ZeroPrefixedWithin(t: string, cs: set<char>)
    requires '0' in cs && Within(t, cs)
    ensures Within(ZeroPrefixed(t), cs)
  {
    ZeroPrefixedSuffix(t);
    var v := ZeroPrefixed(t);
    var k := |t| - |LStrip(t, {'0'})|;
    if v != t[k..] {
      assert forall i :: 1 <= i < |v| ==> v[i] == t[k + i - 1];
    }
  }

  /** The leading-zero rule keeps a token clear of any character set without '0'. */
  lemma ZeroPrefixedAvoids(t: string, cs: set<char>)
    requires '0' !in cs && Avoids(t, cs)
    ensures Avoids(ZeroPrefixed(t), cs)
  {
    ZeroPrefixedSuffix(t);
    var v := ZeroPrefixed(t);
    var k := |t| - |LStrip(t, {'0'})|;
    if v != t[k..] {
      assert forall i :: 1 <= i < |v| ==> v[i] == t[k + i - 1];
    }
  }

  /** The leading-zero rule keeps every character other than '0'. */
  lemma ZeroPrefixedKeeps(t: string, c: char)
    requires c != '0' && c in t
    ensures c in ZeroPrefixed(t)
  {
    ZeroPrefixedSuffix(t);
    var v := ZeroPrefixed(t);
    var k := |t| - |LStrip(t, {'0'})|;
    var j :| 0 <= j < |t| && t[j] == c;
    assert j >= k;
    if v == t[k..] {
      assert v[j - k] == c;
    } else {
      assert v[j - k + 1] == c;
    }
  }

  /** The leading-zero rule adds no point. */
  lemma ZeroPrefixedOnePoint(t: string)
    requires OnePointAtMost(t)
    ensures OnePointAtMost(ZeroPrefixed(t))
  {
    ZeroPrefixedSuffix(t);
    var v := ZeroPrefixed(t);
    var k := |t| - |LStrip(t, {'0'})|;
    var w := t[k..];
    assert OnePointAtMost(w) by {
      forall i, j | 0 <= i < j < |w|
        ensures !(w[i] == '.' && w[j] == '.')
      {
        assert w[i] == t[k + i] && w[j] == t[k + j];
      }
    }
    if v != w {
      forall i, j | 0 <= i < j < |v|
        ensures !(v[i] == '.' && v[j] == '.')
      {
        if i > 0 {
          assert v[i] == w[i - 1] && v[j] == w[j - 1];
        }
      }
    }
  }

  /** The trailing-zero rule cuts only zeros and points from the end. */
  lemma TrimFractionFacts(v: string)
    ensures var u := TrimFraction(v);
            |u| <= |v| && u == v[..|u|]
            && (forall i :: |u| <= i < |v| ==> v[i] == '0' || v[i] == '.')
            && ('e' in v || '.' !in v ==> u == v)
            && (v != [] && v[0] != '.' ==> u != [])
  {
    if 'e' !in v && '.' in v {
      var s := RStrip(v, {'0'});
      PointSurvives(v);
      var d :| 0 <= d < |s| && s[d] == '.';
      if v[0] != '.' {
        assert s[0] == v[0];
        assert d >= 1;
      }
    }
  }

  /** With one point and no exponent, the result ends in neither '.' nor, while it keeps its point, '0'. */
  lemma TrimFractionEnds(v: string)
    requires 'e' !in v && '.' in v && OnePointAtMost(v) && v[0] != '.'
    ensures var u := TrimFraction(v);
            u != [] && u[|u| - 1] != '.' && ('.' in u ==> u[|u| - 1] != '0')
  {
    TrimFractionFacts(v);
    var s := RStrip(v, {'0'});
    PointSurvives(v);
    var d :| 0 <= d < |s| && s[d] == '.';
    assert s[0] == v[0];
    if s[|s| - 1] == '.' {
      assert d == |s| - 1 by {
        assert forall i :: 0 <= i < |s| - 1 ==> !(v[i] == '.' && v[|s| - 1] == '.');
      }
      var u := s[..|s| - 1];
      assert forall i :: 0 <= i < |u| ==> u[i] != '.' by {
        assert forall i :: 0 <= i < |s| - 1 ==> !(v[i] == '.' && v[|s| - 1] == '.');
      }
      assert |u| >= 1;
    }
  }

  /** Normalising keeps a token within any character set that holds '0'. */
  lemma TokenWithin(t: string, cs: set<char>)
    requires '0' in cs && Within(t, cs)
    ensures Within(NormalizeToken(t), cs)
  {
    ZeroPrefixedWithin(t, cs);
    TrimFractionFacts(ZeroPrefixed(t));
  }

  /** Normalising keeps a token clear of any character set without '0' (white space, the comma). */
  lemma TokenAvoids(t: string, cs: set<char>)
    requires '0' !in cs && Avoids(t, cs)
    ensures Avoids(NormalizeToken(t), cs)
  {
    ZeroPrefixedAvoids(t, cs);
    TrimFractionFacts(ZeroPrefixed(t));
  }

  /**
    Leading zeros are gone: a normalised token is never empty, never starts
    with '.', and starts with '0' only as "0" itself or before the point.
   */
  lemma LeadingZeros(t: string)
    ensures var r := NormalizeToken(t);
            r != [] && r[0] != '.' && (r[0] == '0' ==> r == "0" || r[1] == '.')
  {
    var v := ZeroPrefixed(t);
    ZeroPrefixedStart(t);
    TrimFractionFacts(v);
    var r := NormalizeToken(t);
    assert r[0] == v[0];
    assert |r| == 1 ==> r == [r[0]];
  }

  /** "000", "0.000", ".0", "." and "" all become "0". */
  lemma ZeroValued(t: string)
    requires Within(t, {'0', '.'})
    requires OnePointAtMost(t)
    ensures NormalizeToken(t) == "0"
  {
    var v := ZeroPrefixed(t);
    var r := NormalizeToken(t);
    ZeroPrefixedStart(t);
    ZeroPrefixedWithin(t, {'0', '.'});
    ZeroPrefixedOnePoint(t);
    TrimFractionFacts(v);
    TokenWithin(t, {'0', '.'});
    LeadingZeros(t);
    assert 'e' !in v;
    if '.' in v {
      TrimFractionEnds(v);
    }
    assert r[|r| - 1] in {'0', '.'};
    assert '.' !in r;
  }

  /**
    The trailing-zero rule: for a token with one point and no exponent, the
    result is the zero-prefixed token with only zeros and the point cut from
    its end, it does not end in '.', and it does not end in '0' while it keeps
    its point.
   */
  lemma TrailingZeros(t: string)
    requires 'e' !in t && '.' in t && OnePointAtMost(t)
    ensures var r := NormalizeToken(t);
            var v := ZeroPrefixed(t);
            r == v[..|r|] && (forall i :: |r| <= i < |v| ==> v[i] == '0' || v[i] == '.')
            && r[|r| - 1] != '.' && ('.' in r ==> r[|r| - 1] != '0')
    ensures var r := NormalizeToken(t);
            var v := ZeroPrefixed(t);
            forall d :: 0 <= d < |v| && v[d] == '.' ==> d <= |r|
  {
    TrailingZerosCut(t);
    TrailingZerosBeforePoint(t);
  }

  lemma TrailingZerosCut(t: string)
    requires 'e' !in t && '.' in t && OnePointAtMost(t)
    ensures var r := NormalizeToken(t);
            var v := ZeroPrefixed(t);
            r == v[..|r|] && (forall i :: |r| <= i < |v| ==> v[i] == '0' || v[i] == '.')
            && r[|r| - 1] != '.' && ('.' in r ==> r[|r| - 1] != '0')
  {
    var v := ZeroPrefixed(t);
    ZeroPrefixedStart(t);
    ZeroPrefixedKeeps(t, '.');
    ZeroPrefixedOnePoint(t);
    TrimFractionFacts(v);
    TrimFractionEnds(v);
  }

  lemma TrailingZerosBeforePoint(t: string)
    requires 'e' !in t && OnePointAtMost(t)
    ensures var v := ZeroPrefixed(t);
            forall d :: 0 <= d < |v| && v[d] == '.' ==> d <= |NormalizeToken(t)|
  {
    var v := ZeroPrefixed(t);
    ZeroPrefixedOnePoint(t);
    TrimFractionFacts(v);
    TrimFractionKeepsPoint(v);
  }

  /** With one point and no exponent, the trailing-zero rule cuts nothing before the point. */
  lemma TrimFractionKeepsPoint(v: string)
    requires 'e' !in v && OnePointAtMost(v)
    ensures forall d :: 0 <= d < |v| && v[d] == '.' ==> d <= |TrimFraction(v)|
  {
    if '.' in v {
      var s := RStrip(v, {'0'});
      PointSurvives(v);
      var p :| 0 <= p < |s| && s[p] == '.';
      assert v[p] == '.';
      forall d | 0 <= d < |v| && v[d] == '.'
        ensures d <= |TrimFraction(v)|
      {
        assert d == p by {
          assert !(v[d] == '.' && v[p] == '.') || d == p;
        }
        if s[|s| - 1] == '.' {
          assert v[|s| - 1] == '.';
          assert p == |s| - 1 by {
            assert !(v[p] == '.' && v[|s| - 1] == '.') || p == |s| - 1;
          }
        }
      }
    }
  }

  /** A token with an exponent only loses its leading zeros (and gets "0" back if nothing or a fraction is left). */
  lemma ExponentKept(t: string)
    requires 'e' in t
    ensures NormalizeToken(t) == ZeroPrefixed(t)
    ensures exists k :: 0 <= k <= |t| && (forall i :: 0 <= i < k ==> t[i] == '0')
                        && (NormalizeToken(t) == t[k..] || NormalizeToken(t) == "0" + t[k..])
  {
    ZeroPrefixedKeeps(t, 'e');
    TrimFractionFacts(ZeroPrefixed(t));
    ZeroPrefixedSuffix(t);
  }

  /** A token that starts like the output of the leading-zero rule is left alone by it. */
  lemma ZeroPrefixedFixed(r: string)
    requires r != [] && r[0] != '.' && (r[0] == '0' ==> r == "0" || r[1] == '.')
    ensures ZeroPrefixed(r) == r
  {
    if r[0] != '0' {
      LStripNoDrop(r, {'0'});
    } else if |r| == 1 {
      assert LStrip(r, {'0'}) == LStrip(r[1..], {'0'});
    } else {
      assert LStrip(r, {'0'}) == LStrip(r[1..], {'0'});
      LStripNoDrop(r[1..], {'0'});
      assert r == "0" + r[1..];
    }
  }

  /** A token that ends like the output of the trailing-zero rule is left alone by it. */
  lemma TrimFractionFixed(r: string)
    requires 'e' !in r && '.' in r ==> r[|r| - 1] !in {'0', '.'}
    ensures TrimFraction(r) == r
  {
    if 'e' !in r && '.' in r {
      RStripNoDrop(r, {'0'});
    }
  }

  /** A token without an exponent that ends in a point loses exactly that point. */
  lemma TrimFractionLastPoint(v: string)
    requires (forall k :: 0 <= k < |v| ==> v[k] != 'e') && v != [] && v[|v| - 1] == '.'
    ensures TrimFraction(v) == v[..|v| - 1]
  {
    RStripNoDrop(v, {'0'});
  }

  /** A normalised token with at most one point is its own normal form. */
  lemma TokenFixed(t: string)
    requires OnePointAtMost(t)
    ensures NormalizeToken(NormalizeToken(t)) == NormalizeToken(t)
  {
    var v := ZeroPrefixed(t);
    var r := NormalizeToken(t);
    LeadingZeros(t);
    ZeroPrefixedFixed(r);
    if 'e' in v || '.' !in v {
      assert r == v;
    } else {
      ZeroPrefixedStart(t);
      ZeroPrefixedOnePoint(t);
      TrimFractionEnds(v);
    }
    TrimFractionFixed(r);
  }

  // ---------------------------------------------------------------------------
  // A whole value string

  /**
    An "integer" value is only trimmed: the result is the infix of the input
    between a white-space prefix and a white-space suffix, and it neither
    starts nor ends with white space.
   */
  lemma IntegerTrimmed(s: string)
    ensures TrimmedFrom(s, Normalized(s, "integer"))
    ensures var r := Normalized(s, "integer");
            r == [] || (!IsSpace(r[0]) && !IsSpace(r[|r| - 1]))
  {
    IntegerIsStrip(s);
    StripTrimmed(s);
  }

  lemma IntegerIsStrip(s: string)
    ensures Normalized(s, "integer") == Strip(s)
  {
  }

  /** The comma-separated pieces trimmed, the empty ones left out: the tokens the source's loop rewrites. */
  function Tokens(pieces: seq<string>): (ts: seq<string>)
    ensures |ts| <= |pieces|
  {
    if pieces == [] then []
    else
      var t := Strip(pieces[|pieces| - 1]);
      Tokens(pieces[..|pieces| - 1]) + (if t == [] then [] else [t])
  }

  /** The loop's output tokens are the tokens of the input, each normalised, in order. */
  lemma {:induction false} PiecesAreTokens(pieces: seq<string>)
    ensures |NormalizedPieces(pieces)| == |Tokens(pieces)|
    ensures forall i :: 0 <= i < |Tokens(pieces)| ==>
              NormalizedPieces(pieces)[i] == NormalizeToken(Tokens(pieces)[i])
    decreases |pieces|
  {
    if pieces != [] {
      PiecesAreTokens(pieces[..|pieces| - 1]);
    }
  }

  /** Trimming keeps a string clear of a set of characters. */
  lemma StripAvoids(s: string, cs: set<char>)
    requires Avoids(s, cs)
    ensures Avoids(Strip(s), cs)
  {
    var r := Strip(s);
    StripInfix(s);
    var k := |s| - |LStrip(s, Whitespace)|;
    assert forall i :: 0 <= i < |r| ==> r[i] == s[k + i];
  }

  /** Every token is non-empty, has no white space at either end, and avoids what all the pieces avoid. */
  lemma {:induction false} TokensShape(pieces: seq<string>, cs: set<char>)
    ensures forall i :: 0 <= i < |Tokens(pieces)| ==>
              Tokens(pieces)[i] != [] && !IsSpace(Tokens(pieces)[i][0])
              && !IsSpace(Tokens(pieces)[i][|Tokens(pieces)[i]| - 1])
    ensures (forall j :: 0 <= j < |pieces| ==> Avoids(pieces[j], cs)) ==>
              forall i :: 0 <= i < |Tokens(pieces)| ==> Avoids(Tokens(pieces)[i], cs)
    decreases |pieces|
  {
    if pieces != [] {
      var last := pieces[|pieces| - 1];
      TokensShape(pieces[..|pieces| - 1], cs);
      if Avoids(last, cs) {
        StripAvoids(last, cs);
      }
    }
  }

  /** When no piece trims to nothing, the tokens are exactly the trimmed pieces. */
  lemma {:induction false} TokensAllKept(pieces: seq<string>)
    requires forall j :: 0 <= j < |pieces| ==> Strip(pieces[j]) != []
    ensures |Tokens(pieces)| == |pieces|
    ensures forall i :: 0 <= i < |pieces| ==> Tokens(pieces)[i] == Strip(pieces[i])
    decreases |pieces|
  {
    if pieces != [] {
      var init := pieces[..|pieces| - 1];
      TokensAllKept(init);
      assert Tokens(pieces) == Tokens(init) + [Strip(pieces[|pieces| - 1])];
      forall i | 0 <= i < |init|
        ensures Tokens(pieces)[i] == Strip(pieces[i])
      {
        assert init[i] == pieces[i];
      }
    }
  }

  /** The pieces of a list joined by ", " and split again on ',': the first as it is, the others behind a space. */
  function Padded(rs: seq<string>): (ps: seq<string>)
    ensures |ps| == |rs|
  {
    seq(|rs|, i requires 0 <= i < |rs| => if i == 0 then rs[0] else " " + rs[i])
  }

  function Spaced(rs: seq<string>): (ps: seq<string>)
    ensures |ps| == |rs|
  {
    seq(|rs|, i requires 0 <= i < |rs| => " " + rs[i])
  }

  lemma {:induction false} JoinSpaced(rs: seq<string>)
    requires rs != []
    ensures Join(Spaced(rs), ",") == " " + Join(rs, ", ")
    decreases |rs|
  {
    if |rs| > 1 {
      assert Spaced(rs)[1..] == Spaced(rs[1..]);
      JoinSpaced(rs[1..]);
    }
  }

  /** Joining with ", " is joining the padded pieces with ','. */
  lemma JoinPadded(rs: seq<string>)
    requires rs != []
    ensures Join(rs, TokenSeparator) == Join(Padded(rs), ",")
  {
    if |rs| > 1 {
      assert Padded(rs)[1..] == Spaced(rs[1..]);
      JoinSpaced(rs[1..]);
    }
  }

  /** Non-empty comma-free pieces joined by ", " split back on ',' into the padded pieces. */
  lemma JoinedShape(rs: seq<string>)
    requires forall i :: 0 <= i < |rs| ==> rs[i] != [] && Avoids(rs[i], {','})
    ensures Join(rs, TokenSeparator) == [] <==> rs == []
    ensures rs != [] ==> Split(Join(rs, TokenSeparator), ',') == Padded(rs)
  {
    if rs != [] {
      JoinPadded(rs);
      assert forall i :: 0 <= i < |rs| ==> ',' !in Padded(rs)[i];
      SplitJoin(Padded(rs), ',');
      assert |rs| > 1 ==> Join(rs, TokenSeparator) == rs[0] + TokenSeparator + Join(rs[1..], TokenSeparator);
    }
  }

  /** For a list type the result is the normalised tokens joined by ", ". */
  lemma NormalizedList(s: string, valueType: string)
    requires valueType in SupportedTypes && valueType != "integer"
    ensures Normalized(s, valueType) == Join(NormalizedPieces(Split(s, ',')), TokenSeparator)
  {
  }

  /** Every output token is non-empty and comma-free, and with clean input tokens also white-space free and settled. */
  lemma OutputTokens(pieces: seq<string>)
    requires forall j :: 0 <= j < |pieces| ==> ',' !in pieces[j]
    ensures var rs := NormalizedPieces(pieces);
            forall i :: 0 <= i < |rs| ==> rs[i] != [] && Avoids(rs[i], {','})
    ensures var rs := NormalizedPieces(pieces);
            var ts := Tokens(pieces);
            (forall i :: 0 <= i < |ts| ==> Clean(ts[i])) ==>
              forall i :: 0 <= i < |rs| ==> NoSpace(rs[i]) && NormalizeToken(rs[i]) == rs[i]
  {
    var rs := NormalizedPieces(pieces);
    var ts := Tokens(pieces);
    PiecesAreTokens(pieces);
    TokensShape(pieces, {','});
    forall i | 0 <= i < |rs|
      ensures rs[i] != [] && Avoids(rs[i], {','})
      ensures Clean(ts[i]) ==> NoSpace(rs[i]) && NormalizeToken(rs[i]) == rs[i]
    {
      LeadingZeros(ts[i]);
      TokenAvoids(ts[i], {','});
      if Clean(ts[i]) {
        TokenAvoids(ts[i], Whitespace);
        TokenFixed(ts[i]);
      }
    }
  }

  /**
    The shape of the result for a list type: it is empty exactly when the
    input has no token, and otherwise splitting it on ',' gives one piece per
    input token, the normalised token, every piece after the first behind
    one space.
   */
  lemma NormalizedShape(s: string, valueType: string)
    requires valueType in SupportedTypes && valueType != "integer"
    ensures var ts := Tokens(Split(s, ','));
            var out := Normalized(s, valueType);
            (out == [] <==> ts == [])
            && (ts != [] ==>
                  var ps := Split(out, ',');
                  |ps| == |ts| && ps[0] == NormalizeToken(ts[0])
                  && forall i :: 1 <= i < |ps| ==> ps[i] == " " + NormalizeToken(ts[i]))
  {
    NormalizedEmpty(s, valueType);
    if Tokens(Split(s, ',')) != [] {
      NormalizedPiecesShape(s, valueType);
    }
  }

  lemma NormalizedEmpty(s: string, valueType: string)
    requires valueType in SupportedTypes && valueType != "integer"
    ensures Normalized(s, valueType) == [] <==> Tokens(Split(s, ',')) == []
  {
    var pieces := Split(s, ',');
    NormalizedList(s, valueType);
    PiecesAreTokens(pieces);
    OutputTokens(pieces);
    JoinedShape(NormalizedPieces(pieces));
  }

  lemma NormalizedPiecesShape(s: string, valueType: string)
    requires valueType in SupportedTypes && valueType != "integer"
    requires Tokens(Split(s, ',')) != []
    ensures var ts := Tokens(Split(s, ','));
            var ps := Split(Normalized(s, valueType), ',');
            |ps| == |ts| && ps[0] == NormalizeToken(ts[0])
            && forall i :: 1 <= i < |ps| ==> ps[i] == " " + NormalizeToken(ts[i])
  {
    var pieces := Split(s, ',');
    var rs := NormalizedPieces(pieces);
    NormalizedList(s, valueType);
    PiecesAreTokens(pieces);
    OutputTokens(pieces);
    JoinedShape(rs);
    PaddedTokens(rs, Tokens(pieces));
  }

  lemma PaddedTokens(rs: seq<string>, ts: seq<string>)
    requires |rs| == |ts| && ts != []
    requires forall i :: 0 <= i < |ts| ==> rs[i] == NormalizeToken(ts[i])
    ensures var ps := Padded(rs);
            |ps| == |ts| && ps[0] == NormalizeToken(ts[0])
            && forall i :: 1 <= i < |ps| ==> ps[i] == " " + NormalizeToken(ts[i])
  {
  }

  /** A second pass over padded settled tokens gives the tokens back. */
  lemma RenormalizePadded(rs: seq<string>)
    requires forall i :: 0 <= i < |rs| ==> rs[i] != [] && NoSpace(rs[i]) && NormalizeToken(rs[i]) == rs[i]
    ensures NormalizedPieces(Padded(rs)) == rs
  {
    var ps := Padded(rs);
    forall i | 0 <= i < |rs|
      ensures Strip(ps[i]) == rs[i]
    {
      if i == 0 {
        StripFixed(rs[i]);
      } else {
        assert ps[i] == " " + rs[i] + "";
        StripSurrounded(" ", rs[i], "");
      }
    }
    TokensAllKept(ps);
    PiecesAreTokens(ps);
  }

  /** A token free of white space with at most one point: the tokens a second pass leaves alone. */
  predicate Clean(t: string) {
    NoSpace(t) && OnePointAtMost(t)
  }

  /** Every token of a list-typed value is clean (integers and unsupported types ask nothing). */
  predicate CleanTokens(s: string, valueType: string) {
    valueType in SupportedTypes && valueType != "integer" ==>
      forall i :: 0 <= i < |Tokens(Split(s, ','))| ==> Clean(Tokens(Split(s, ','))[i])
  }

  /**
    Normalising twice is normalising once, provided no token has inner white
    space or two points; `NotIdempotent` shows both conditions are needed.
   */
  lemma NormalizedIdempotent(s: string, valueType: string)
    requires CleanTokens(s, valueType)
    ensures Normalized(Normalized(s, valueType), valueType) == Normalized(s, valueType)
  {
    if valueType == "integer" {
      StripFixed(Strip(s));
    } else if valueType in SupportedTypes {
      var pieces := Split(s, ',');
      var rs := NormalizedPieces(pieces);
      var out := Normalized(s, valueType);
      NormalizedList(s, valueType);
      NormalizedList(out, valueType);
      OutputTokens(pieces);
      JoinedShape(rs);
      if rs == [] {
        assert Split(out, ',') == [""];
        assert NormalizedPieces([""]) == [];
      } else {
        RenormalizePadded(rs);
      }
    }
  }

  // ---------------------------------------------------------------------------
  // Worked values

  /** A value of one comma-free piece that does not trim to nothing is that piece's normalised token. */
  lemma OnePiece(s: string, valueType: string)
    requires valueType in SupportedTypes && valueType != "integer"
    requires ',' !in s && Strip(s) != []
    ensures Normalized(s, valueType) == NormalizeToken(Strip(s))
  {
    SplitJoin([s], ',');
    assert NormalizedPieces([s]) == [NormalizeToken(Strip(s))] by {
      assert [s][..0] == [];
    }
  }

  /**
    The trailing-zero rule never reaches into the integer part: everything
    before the point is kept, zeros included ("10.0" becomes "10", not "1").
   */
  lemma IntegerPartKept(t: string)
    requires 'e' !in t && '.' in t && OnePointAtMost(t)
    ensures var v := ZeroPrefixed(t);
            var r := NormalizeToken(t);
            forall d :: 0 <= d < |v| && v[d] == '.' ==> d <= |r| && r[..d] == v[..d]
  {
    TrailingZeros(t);
  }

  /** A token without a point keeps its trailing zeros. */
  lemma TrimFractionNoPoint(v: string)
    requires forall k :: 0 <= k < |v| ==> v[k] != '.'
    ensures TrimFraction(v) == v
  {
  }

  /** No character of `s` is a comma. */
  predicate NoComma(s: string) {
    forall k :: 0 <= k < |s| ==> s[k] != ','
  }

  /** `s` is one piece, without commas, whose token normalises to `r`. */
  predicate PieceBecomes(s: string, r: string) {
    && NoComma(s) && Strip(s) != [] && NormalizeToken(Strip(s)) == r
  }

  lemma PieceFrom(s: string, t: string, r: string)
    requires NoComma(s) && Strip(s) == t && t != [] && NormalizeToken(t) == r
    ensures PieceBecomes(s, r)
  {
  }

  /** A single piece whose token is known: the whole value string normalises to that token. */
  lemma OnePieceValue(s: string, valueType: string, r: string)
    requires valueType in SupportedTypes && valueType != "integer" && PieceBecomes(s, r)
    ensures Normalized(s, valueType) == r
  {
    OnePiece(s, valueType);
  }

  /** A digit other than zero: the worked values below are built around one. */
  predicate NonZeroDigit(c: char) {
    '1' <= c <= '9'
  }

  /** "0 5" */
  predicate InnerSpaceShape(v: string) {
    |v| == 3 && v[0] == '0' && v[1] == ' ' && NonZeroDigit(v[2])
  }

  /** " 5" */
  predicate SpacedShape(v: string) {
    |v| == 2 && v[0] == ' ' && NonZeroDigit(v[1])
  }

  /** "5.." */
  predicate TwoPointsShape(v: string) {
    |v| == 3 && NonZeroDigit(v[0]) && v[1] == '.' && v[2] == '.'
  }

  /** "5." */
  predicate PointShape(v: string) {
    |v| == 2 && NonZeroDigit(v[0]) && v[1] == '.'
  }

  lemma ShapesWithoutComma(v: string)
    requires InnerSpaceShape(v) || SpacedShape(v) || TwoPointsShape(v) || PointShape(v)
    ensures NoComma(v)
  {
  }

  /** "5" is its own token. */
  lemma DigitToken(v: string)
    requires |v| == 1 && NonZeroDigit(v[0])
    ensures NormalizeToken(v) == v
  {
    ZeroPrefixedFixed(v);
    TrimFractionNoPoint(v);
  }

  /** "0 5" as a token becomes " 5": the zero goes and the inner space stays. */
  lemma InnerSpaceToken(v: string)
    requires InnerSpaceShape(v)
    ensures NormalizeToken(v) == v[1..]
  {
    LeadingRunUnique(v, {'0'}, 1);
    TrimFractionNoPoint(v[1..]);
  }

  /** "5.." as a token loses only its last point. */
  lemma TwoPointsToken(v: string)
    requires TwoPointsShape(v)
    ensures NormalizeToken(v) == v[..2]
  {
    ZeroPrefixedFixed(v);
    TrimFractionLastPoint(v);
  }

  /** "5." as a token loses its point. */
  lemma PointToken(v: string)
    requires PointShape(v)
    ensures NormalizeToken(v) == v[..1]
  {
    ZeroPrefixedFixed(v);
    TrimFractionLastPoint(v);
  }

  lemma InnerSpaceStripped(v: string)
    requires InnerSpaceShape(v)
    ensures Strip(v) == v
  {
    StripFixed(v);
  }

  /** " 5" is stripped to "5". */
  lemma SpacedStripped(v: string)
    requires SpacedShape(v)
    ensures Strip(v) == v[1..]
  {
    assert v == v[..1] + v[1..] + [];
    StripSurrounded(v[..1], v[1..], []);
  }

  lemma PointsStripped(v: string)
    requires |v| >= 2 && NonZeroDigit(v[0]) && v[|v| - 1] == '.'
    ensures Strip(v) == v
  {
    StripFixed(v);
  }

  lemma InnerSpacePiece(v: string)
    requires InnerSpaceShape(v)
    ensures PieceBecomes(v, v[1..])
  {
    InnerSpaceStripped(v);
    ShapesWithoutComma(v);
    InnerSpaceToken(v);
    PieceFrom(v, v, v[1..]);
  }

  lemma SpacedPiece(v: string)
    requires SpacedShape(v)
    ensures PieceBecomes(v, v[1..])
  {
    SpacedStripped(v);
    ShapesWithoutComma(v);
    DigitToken(v[1..]);
    PieceFrom(v, v[1..], v[1..]);
  }

  lemma TwoPointsPiece(v: string)
    requires TwoPointsShape(v)
    ensures PieceBecomes(v, v[..2])
  {
    PointsStripped(v);
    ShapesWithoutComma(v);
    TwoPointsToken(v);
    PieceFrom(v, v, v[..2]);
  }

  lemma PointPiece(v: string)
    requires PointShape(v)
    ensures PieceBecomes(v, v[..1])
  {
    PointsStripped(v);
    ShapesWithoutComma(v);
    PointToken(v);
    PieceFrom(v, v, v[..1]);
  }

  /** "0 d" becomes " d". */
  lemma InnerSpaceFirstPass(v: string, valueType: string)
    requires InnerSpaceShape(v) && valueType in SupportedTypes && valueType != "integer"
    ensures Normalized(v, valueType) == v[1..]
  {
    InnerSpacePiece(v);
    OnePieceValue(v, valueType, v[1..]);
  }

  /** " d" becomes "d". */
  lemma InnerSpaceSecondPass(v: string, valueType: string)
    requires SpacedShape(v) && valueType in SupportedTypes && valueType != "integer"
    ensures Normalized(v, valueType) == v[1..]
  {
    SpacedPiece(v);
    OnePieceValue(v, valueType, v[1..]);
  }

  /** "d.." becomes "d.". */
  lemma TwoPointsFirstPass(v: string, valueType: string)
    requires TwoPointsShape(v) && valueType in SupportedTypes && valueType != "integer"
    ensures Normalized(v, valueType) == v[..2]
  {
    TwoPointsPiece(v);
    OnePieceValue(v, valueType, v[..2]);
  }

  /** "d." becomes "d". */
  lemma TwoPointsSecondPass(v: string, valueType: string)
    requires PointShape(v) && valueType in SupportedTypes && valueType != "integer"
    ensures Normalized(v, valueType) == v[..1]
  {
    PointPiece(v);
    OnePieceValue(v, valueType, v[..1]);
  }

  /**
    Without the conditions of `NormalizedIdempotent` a second pass can change
    the result: "0 5" keeps its inner space behind the stripped zero (" 5",
    then "5"), and "5.." loses only one point per pass ("5.", then "5").
   */
  lemma NotIdempotent(c: char, valueType: string)
    requires NonZeroDigit(c) && valueType in SupportedTypes && valueType != "integer"
    ensures Normalized(Normalized(['0', ' ', c], valueType), valueType) != Normalized(['0', ' ', c], valueType)
    ensures Normalized(Normalized([c, '.', '.'], valueType), valueType) != Normalized([c, '.', '.'], valueType)
  {
    var a := ['0', ' ', c];
    InnerSpaceFirstPass(a, valueType);
    InnerSpaceSecondPass(a[1..], valueType);
    var b := [c, '.', '.'];
    TwoPointsFirstPass(b, valueType);
    TwoPointsSecondPass(b[..2], valueType);
  }
}
