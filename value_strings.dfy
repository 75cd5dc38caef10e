/**
  `MtlxDocumentCompare.normalizeValueString`
  (source/gltf_materialx_converter/utilities.py): rewrites the value string of
  a numeric MaterialX type into a canonical form so that two documents that
  differ only in how they spell numbers compare equal.
 */
module ValueStrings {
  import opened PyString

  /** The types whose value strings are rewritten; any other type is left alone. */
  const SupportedTypes: set<string> :=
    {"integer", "float", "vector2", "vector3", "vector4", "color3", "color4", "matrix33", "matrix44"}

  const TokenSeparator: string := ", "

  // ---------------------------------------------------------------------------
  // One token

  /**
    The leading-zero rule: leading zeros are stripped, and a token left empty
    or starting with '.' gets "0" in front.
   */
  function ZeroPrefixed(token: string): (v: string)
    ensures v != []
  {
    var t := LStrip(token, {'0'});
    if t == [] || t[0] == '.' then "0" + t else t
  }

  /**
    The trailing-zero rule: a token with a '.' and no 'e' loses its trailing
    zeros, and then the '.' if it is last. The stripped token is never empty
    (`PointSurvives`), so the test `u != []` only spells out what the
    source's `u[-1]` takes for granted.
   */
  function TrimFraction(v: string): string
  {
    if 'e' !in v && '.' in v then
      var u := RStrip(v, {'0'});
      if u != [] && u[|u| - 1] == '.' then u[..|u| - 1] else u
    else v
  }

  /** Right-stripping zeros never removes a '.', so the result is not empty. */
  lemma PointSurvives(v: string)
    requires '.' in v
    ensures '.' in RStrip(v, {'0'})
  {
    var u := RStrip(v, {'0'});
    var d :| 0 <= d < |v| && v[d] == '.';
    assert d < |u|;
    assert u[d] == '.';
  }

  /** The body of the loop over tokens, for one trimmed, non-empty token. */
  function NormalizeToken(token: string): string
  {
    TrimFraction(ZeroPrefixed(token))
  }

  // ---------------------------------------------------------------------------
  // A whole value string

  /** The normalised tokens of `pieces`: each piece trimmed, empty ones dropped. */
  function NormalizedPieces(pieces: seq<string>): (rs: seq<string>)
    ensures |rs| <= |pieces|
  {
    if pieces == [] then []
    else
      var t := Strip(pieces[|pieces| - 1]);
      NormalizedPieces(pieces[..|pieces| - 1]) + (if t == [] then [] else [NormalizeToken(t)])
  }

  /** What `normalizeValueString(string, value_type)` returns. */
  function Normalized(s: string, valueType: string): string
  {
    if valueType !in SupportedTypes then s
    else if valueType == "integer" then Strip(s)
    else Join(NormalizedPieces(Split(s, ',')), TokenSeparator)
  }

  /** `result += token + token_separator` over a list of tokens. */
  function Terminated(ts: seq<string>, sep: string): string
  {
    if ts == [] then [] else Terminated(ts[..|ts| - 1], sep) + ts[|ts| - 1] + sep
  }

  lemma {:induction false} JoinSnoc(ts: seq<string>, t: string, sep: string)
    requires ts != []
    ensures Join(ts + [t], sep) == Join(ts, sep) + sep + t
    decreases |ts|
  {
    if |ts| > 1 {
      assert (ts + [t])[1..] == ts[1..] + [t];
      JoinSnoc(ts[1..], t, sep);
    } else {
      assert ts + [t] == [ts[0], t];
    }
  }

  /** Dropping the last separator of a terminated list gives the joined list. */
  lemma {:induction false} TerminatedJoin(ts: seq<string>, sep: string)
    ensures ts != [] ==> Terminated(ts, sep) == Join(ts, sep) + sep
    ensures sep != [] ==> (ts == [] <==> Terminated(ts, sep) == [])
    decreases |ts|
  {
    if ts != [] {
      var init := ts[..|ts| - 1];
      TerminatedJoin(init, sep);
      if init != [] {
        JoinSnoc(init, ts[|ts| - 1], sep);
        assert init + [ts[|ts| - 1]] == ts;
      }
    }
  }

  /** One more piece adds its normalised token, if it has one, to the end. */
  lemma StepPieces(pieces: seq<string>, i: nat)
    requires i < |pieces|
    ensures var t := Strip(pieces[i]);
            NormalizedPieces(pieces[..i + 1])
            == NormalizedPieces(pieces[..i]) + (if t == [] then [] else [NormalizeToken(t)])
  {
    assert pieces[..i + 1][..i] == pieces[..i];
  }

  lemma TerminatedSnoc(ts: seq<string>, t: string, sep: string)
    ensures Terminated(ts + [t], sep) == Terminated(ts, sep) + t + sep
  {
    assert (ts + [t])[..|ts|] == ts;
  }

  /**
    The steps the source's loop applies to one trimmed, non-empty token:
    strip leading zeros, put back a "0" when nothing or only a fraction is
    left, and for a token without an exponent drop trailing zeros and then a
    trailing point.
   */
  method RewriteToken(trimmed: string) returns (token: string)
    ensures token == NormalizeToken(trimmed)
  {
    token := LStrip(trimmed, {'0'});
    if token == [] || token[0] == '.' {
      token := "0" + token;
    }
    if 'e' !in token {
      if '.' in token {
        PointSurvives(token);
        var stripped := RStrip(token, {'0'});
        if stripped[|stripped| - 1] == '.' {
          token := stripped[..|stripped| - 1];
        } else {
          token := stripped;
        }
      }
    }
  }

  /**
    The loop of the source over the comma-separated pieces: each non-empty
    trimmed piece is rewritten and appended to `result` with a separator.
   */
  method AppendTokens(pieces: seq<string>) returns (result: string)
    ensures result == Terminated(NormalizedPieces(pieces), TokenSeparator)
  {
    result := "";
    for i := 0 to |pieces|
      invariant result == Terminated(NormalizedPieces(pieces[..i]), TokenSeparator)
    {
      ghost var before := NormalizedPieces(pieces[..i]);
      StepPieces(pieces, i);
      var token := Strip(pieces[i]);
      if token == [] {
        assert NormalizedPieces(pieces[..i + 1]) == before;
        continue;
      }
      token := RewriteToken(token);
      assert NormalizedPieces(pieces[..i + 1]) == before + [token];
      TerminatedSnoc(before, token, TokenSeparator);
      result := result + token + TokenSeparator;
    }
    assert pieces[..|pieces|] == pieces;
  }

  /**
    `normalizeValueString`: unsupported types are returned as they are,
    integers are trimmed, and every other supported type has its pieces
    rewritten and joined, the last separator being dropped.
   */
  method NormalizeValueString(s: string, valueType: string) returns (result: string)
    ensures result == Normalized(s, valueType)
    ensures valueType !in SupportedTypes ==> result == s
  {
    if valueType !in SupportedTypes {
      return s;
    }
    if valueType == "integer" {
      return Strip(s);
    }
    var pieces := Split(s, ',');
    result := AppendTokens(pieces);
    TerminatedJoin(NormalizedPieces(pieces), TokenSeparator);
    if result != "" {
      result := result[..|result| - |TokenSeparator|];
    }
  }
}
