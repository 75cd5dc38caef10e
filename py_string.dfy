/**
  The few Python `str` operations the comparison utilities and the markdown
  rewriter are built from, stated with Python's semantics: `strip`,
  `lstrip(chars)`, `rstrip(chars)`, `split(sep)`, `sep.join(...)`,
  `startswith`, `endswith`, `lower` and `replace`.
 */
module PyString {

  /** A value or Python's `None`. */
  datatype Option<T> = None | Some(value: T)

  /** The characters Python's `str.isspace` accepts, i.e. what `str.strip()` removes. */
  predicate IsSpace(c: char) {
    || c == ' '
    || ('\t' <= c <= '\r')
    || ('\U{1C}' <= c <= '\U{1F}')
    || c == '\U{85}' || c == '\U{A0}' || c == '\U{1680}'
    || ('\U{2000}' <= c <= '\U{200A}')
    || c == '\U{2028}' || c == '\U{2029}' || c == '\U{202F}' || c == '\U{205F}' || c == '\U{3000}'
  }

  const Whitespace: set<char> := set c: char | IsSpace(c)

  /** The index of the first character at or after `from` that is not in `chars`, or `|s|`. */
  function LeadingRun(s: string, chars: set<char>, from: nat): (n: nat)
    requires from <= |s|
    ensures from <= n <= |s|
    ensures forall i :: from <= i < n ==> s[i] in chars
    ensures n == |s| || s[n] !in chars
    decreases |s| - from
  {
    if from < |s| && s[from] in chars then LeadingRun(s, chars, from + 1) else from
  }

  /** The run of leading characters of `chars` is determined by where it stops. */
  lemma LeadingRunUnique(s: string, chars: set<char>, n: nat)
    requires n <= |s| && (forall i :: 0 <= i < n ==> s[i] in chars) && (n == |s| || s[n] !in chars)
    ensures LeadingRun(s, chars, 0) == n
  {
  }

  /** The index just past the last character before `end` that is not in `chars`, or 0. */
  function TrailingRun(s: string, chars: set<char>, end: nat): (n: nat)
    requires end <= |s|
    ensures n <= end
    ensures forall i :: n <= i < end ==> s[i] in chars
    ensures n == 0 || s[n - 1] !in chars
    decreases end
  {
    if end > 0 && s[end - 1] in chars then TrailingRun(s, chars, end - 1) else end
  }

  /** The run of trailing characters of `chars` is determined by where it starts. */
  lemma TrailingRunUnique(s: string, chars: set<char>, n: nat)
    requires n <= |s| && (forall i :: n <= i < |s| ==> s[i] in chars) && (n == 0 || s[n - 1] !in chars)
    ensures TrailingRun(s, chars, |s|) == n
  {
  }

  /** `s.lstrip(chars)`. */
  function LStrip(s: string, chars: set<char>): (r: string)
    ensures |r| <= |s| && r == s[|s| - |r|..]
    ensures forall i :: 0 <= i < |s| - |r| ==> s[i] in chars
    ensures r == [] || r[0] !in chars
  {
    s[LeadingRun(s, chars, 0)..]
  }

  /** `s.rstrip(chars)`. */
  function RStrip(s: string, chars: set<char>): (r: string)
    ensures |r| <= |s| && r == s[..|r|]
    ensures forall i :: |r| <= i < |s| ==> s[i] in chars
    ensures r == [] || r[|r| - 1] !in chars
  {
    s[..TrailingRun(s, chars, |s|)]
  }

  /** `s.strip()`: white space removed from both ends. */
  function Strip(s: string): (r: string)
    ensures |r| <= |s|
    ensures r == [] || (!IsSpace(r[0]) && !IsSpace(r[|r| - 1]))
  {
    RStrip(LStrip(s, Whitespace), Whitespace)
  }

  /** The strip of `s` is the infix of `s` between a white-space prefix and a white-space suffix. */
  lemma StripInfix(s: string)
    ensures var r := Strip(s);
            var k := |s| - |LStrip(s, Whitespace)|;
            k + |r| <= |s| && r == s[k..k + |r|] && AllSpace(s[..k]) && AllSpace(s[k + |r|..])
  {
    var l := LStrip(s, Whitespace);
    var r := Strip(s);
    var k := |s| - |l|;
    assert s[k..] == l && l[..|r|] == r;
    assert forall i :: k + |r| <= i < |s| ==> s[i] == l[i - k];
  }

  /** `r` is `s` less a white-space prefix and a white-space suffix. */
  predicate TrimmedFrom(s: string, r: string) {
    exists i :: 0 <= i <= i + |r| <= |s| && r == s[i..i + |r|] && AllSpace(s[..i]) && AllSpace(s[i + |r|..])
  }

  lemma StripTrimmed(s: string)
    ensures TrimmedFrom(s, Strip(s))
  {
    StripInfix(s);
    var k := |s| - |LStrip(s, Whitespace)|;
    assert 0 <= k <= k + |Strip(s)| <= |s|;
  }

  /** Every character of `s` is white space. */
  predicate AllSpace(s: string) {
    forall i :: 0 <= i < |s| ==> IsSpace(s[i])
  }

  /** No character of `s` is white space. */
  predicate NoSpace(s: string) {
    forall i :: 0 <= i < |s| ==> !IsSpace(s[i])
  }

  lemma LStripNoDrop(s: string, chars: set<char>)
    requires s == [] || s[0] !in chars
    ensures LStrip(s, chars) == s
  {
    LeadingRunUnique(s, chars, 0);
  }

  lemma RStripNoDrop(s: string, chars: set<char>)
    requires s == [] || s[|s| - 1] !in chars
    ensures RStrip(s, chars) == s
  {
    TrailingRunUnique(s, chars, |s|);
  }

  /** Stripping is undone by nothing and repeated by nothing: a string free of surrounding white space is its own strip. */
  lemma StripFixed(s: string)
    requires s == [] || (!IsSpace(s[0]) && !IsSpace(s[|s| - 1]))
    ensures Strip(s) == s
  {
    LStripNoDrop(s, Whitespace);
    RStripNoDrop(s, Whitespace);
  }

  /** Characters of `chars` in front of `t` are all removed by `LStrip`. */
  lemma LStripSkip(a: string, t: string, chars: set<char>)
    requires forall i :: 0 <= i < |a| ==> a[i] in chars
    ensures LStrip(a + t, chars) == LStrip(t, chars)
  {
    var m := LeadingRun(t, chars, 0);
    LeadingRunUnique(a + t, chars, |a| + m);
    assert (a + t)[|a| + m..] == t[m..];
  }

  /** Characters of `chars` after `t` are all removed by `RStrip`. */
  lemma RStripSkip(t: string, b: string, chars: set<char>)
    requires forall i :: 0 <= i < |b| ==> b[i] in chars
    ensures RStrip(t + b, chars) == RStrip(t, chars)
  {
    var m := TrailingRun(t, chars, |t|);
    TrailingRunUnique(t + b, chars, m);
    assert (t + b)[..m] == t[..m];
  }

  /** Surrounding a string that has no outer white space with white space does not change its strip. */
  lemma StripSurrounded(a: string, s: string, b: string)
    requires AllSpace(a) && AllSpace(b)
    requires s == [] || (!IsSpace(s[0]) && !IsSpace(s[|s| - 1]))
    ensures Strip(a + s + b) == s
  {
    assert a + s + b == a + (s + b);
    LStripSkip(a, s + b, Whitespace);
    if s == [] {
      assert s + b == b + [];
      LStripSkip(b, [], Whitespace);
    } else {
      LStripNoDrop(s + b, Whitespace);
      RStripSkip(s, b, Whitespace);
      RStripNoDrop(s, Whitespace);
    }
  }

  /** `sep.join(parts)`. */
  function Join(parts: seq<string>, sep: string): string
  {
    if |parts| == 0 then ""
    else if |parts| == 1 then parts[0]
    else parts[0] + sep + Join(parts[1..], sep)
  }

  /** `s.split(sep)` for a one-character separator: the pieces between separators, at least one. */
  function Split(s: string, sep: char): (parts: seq<string>)
    ensures |parts| >= 1
    ensures forall i :: 0 <= i < |parts| ==> sep !in parts[i]
    ensures Join(parts, [sep]) == s
  {
    if s == [] then [""]
    else
      var rest := Split(s[1..], sep);
      if s[0] == sep then
        assert s == [sep] + Join(rest, [sep]);
        [""] + rest
      else
        var parts := [[s[0]] + rest[0]] + rest[1..];
        assert parts[1..] == rest[1..];
        assert Join(parts, [sep]) == [s[0]] + Join(rest, [sep]) by {
          if |rest| > 1 {
            assert Join(rest, [sep]) == rest[0] + [sep] + Join(rest[1..], [sep]);
          }
        }
        parts
  }

  /** Splitting a joined list of separator-free pieces gives the pieces back. */
  lemma {:induction false} SplitJoin(parts: seq<string>, sep: char)
    requires |parts| >= 1
    requires forall i :: 0 <= i < |parts| ==> sep !in parts[i]
    ensures Split(Join(parts, [sep]), sep) == parts
  {
    var s := Join(parts, [sep]);
    var got := Split(s, sep);
    // Split is characterised by its contract; show the decomposition is unique
    SplitUnique(got, parts, sep);
  }

  /** A join of two or more pieces contains the separator. */
  lemma JoinHasSeparator(parts: seq<string>, sep: char)
    requires |parts| > 1
    ensures sep in Join(parts, [sep])
  {
    assert Join(parts, [sep])[|parts[0]|] == sep;
  }

  /** Two separator-free decompositions of the same string are the same. */
  lemma {:induction false} SplitUnique(p: seq<string>, q: seq<string>, sep: char)
    requires |p| >= 1 && |q| >= 1
    requires forall i :: 0 <= i < |p| ==> sep !in p[i]
    requires forall i :: 0 <= i < |q| ==> sep !in q[i]
    requires Join(p, [sep]) == Join(q, [sep])
    ensures p == q
    decreases |p|
  {
    if |p| > 1 {
      JoinHasSeparator(p, sep);
    }
    if |q| > 1 {
      JoinHasSeparator(q, sep);
    }
    if |p| > 1 && |q| > 1 {
      FirstSeparator(p[0], Join(p[1..], [sep]), q[0], Join(q[1..], [sep]), sep);
      SplitUnique(p[1..], q[1..], sep);
      assert p == [p[0]] + p[1..];
      assert q == [q[0]] + q[1..];
    }
  }

  /** The first separator of `a + [sep] + x` is just after `a`. */
  lemma SeparatorIndex(a: string, x: string, sep: char, i: nat)
    requires sep !in a && i <= |a| && (a + [sep] + x)[i] == sep
    ensures i == |a|
  {
  }

  lemma FirstSeparator(a: string, x: string, b: string, y: string, sep: char)
    requires sep !in a && sep !in b
    requires a + [sep] + x == b + [sep] + y
    ensures a == b && x == y
  {
    var s := a + [sep] + x;
    var m := if |a| <= |b| then |a| else |b|;
    assert s[m] == sep;
    SeparatorIndex(a, x, sep, m);
    SeparatorIndex(b, y, sep, m);
    assert a == s[..m] == b;
    assert x == s[m + 1..] == y;
  }

  predicate StartsWith(s: string, prefix: string) {
    |prefix| <= |s| && s[..|prefix|] == prefix
  }

  predicate EndsWith(s: string, suffix: string) {
    |suffix| <= |s| && s[|s| - |suffix|..] == suffix
  }

  /** Python's `str.lower`, restricted to the ASCII letters. */
  function Lower(s: string): (r: string)
    ensures |r| == |s|
    ensures forall i :: 0 <= i < |s| ==> r[i] == LowerChar(s[i])
  {
    if s == [] then [] else [LowerChar(s[0])] + Lower(s[1..])
  }

  function LowerChar(c: char): char {
    if 'A' <= c <= 'Z' then (c as int + 32) as char else c
  }

  /** `pat` occurs in `s` at position `i`. */
  predicate OccursAt(s: string, pat: string, i: nat) {
    i <= |s| && StartsWith(s[i..], pat)
  }

  /** `pat in s`. */
  predicate Occurs(s: string, pat: string) {
    exists i :: 0 <= i <= |s| && OccursAt(s, pat, i)
  }

  /**
    `s.replace(pat, rep)` for a non-empty `pat`: occurrences are found scanning
    left to right and do not overlap.
   */
  function ReplaceAll(s: string, pat: string, rep: string): string
    requires |pat| > 0
  {
    if s == [] then []
    else if StartsWith(s, pat) then rep + ReplaceAll(s[|pat|..], pat, rep)
    else [s[0]] + ReplaceAll(s[1..], pat, rep)
  }

  /** No occurrence of `pat` starts inside `a`, even one reaching into `x`: `replace` copies `a` unchanged. */
  lemma {:induction false} ReplaceAllSkip(a: string, x: string, pat: string, rep: string)
    requires |pat| > 0
    requires forall i :: 0 <= i < |a| ==> !StartsWith((a + x)[i..], pat)
    ensures ReplaceAll(a + x, pat, rep) == a + ReplaceAll(x, pat, rep)
  {
    if a == [] {
      assert a + x == x;
    } else {
      assert !StartsWith((a + x)[0..], pat);
      assert (a + x)[0..] == a + x;
      assert (a + x)[1..] == a[1..] + x;
      forall i | 0 <= i < |a[1..]|
        ensures !StartsWith((a[1..] + x)[i..], pat)
      {
        assert (a[1..] + x)[i..] == (a + x)[i + 1..];
      }
      ReplaceAllSkip(a[1..], x, pat, rep);
      assert a == [a[0]] + a[1..];
    }
  }

  /** An occurrence at the front is replaced and the scan resumes after it. */
  lemma ReplaceAllMatch(x: string, pat: string, rep: string)
    requires |pat| > 0
    ensures ReplaceAll(pat + x, pat, rep) == rep + ReplaceAll(x, pat, rep)
  {
    assert StartsWith(pat + x, pat);
    assert (pat + x)[|pat|..] == x;
  }

  /** No occurrence of `pat` starts inside `a` and runs on into `x`. */
  predicate NoCrossing(a: string, x: string, pat: string) {
    forall i :: 0 <= i < |a| < i + |pat| ==> !StartsWith((a + x)[i..], pat)
  }

  /** Where no occurrence crosses the boundary, `replace` works on the two sides separately. */
  lemma {:induction false} ReplaceAllSplit(a: string, x: string, pat: string, rep: string)
    requires |pat| > 0 && NoCrossing(a, x, pat)
    ensures ReplaceAll(a + x, pat, rep) == ReplaceAll(a, pat, rep) + ReplaceAll(x, pat, rep)
    decreases |a|
  {
    if a == [] {
      assert a + x == x;
    } else {
      assert (a + x)[0..] == a + x;
      if StartsWith(a + x, pat) {
        assert |pat| <= |a|;
        assert a[..|pat|] == (a + x)[..|pat|];
        var b := a[|pat|..];
        assert (a + x)[|pat|..] == b + x;
        forall i | 0 <= i < |b| < i + |pat|
          ensures !StartsWith((b + x)[i..], pat)
        {
          assert (b + x)[i..] == (a + x)[i + |pat|..];
        }
        ReplaceAllSplit(b, x, pat, rep);
      } else {
        assert !StartsWith(a, pat) by {
          if |pat| <= |a| {
            assert a[..|pat|] == (a + x)[..|pat|];
          }
        }
        var b := a[1..];
        assert (a + x)[1..] == b + x;
        forall i | 0 <= i < |b| < i + |pat|
          ensures !StartsWith((b + x)[i..], pat)
        {
          assert (b + x)[i..] == (a + x)[i + 1..];
        }
        ReplaceAllSplit(b, x, pat, rep);
      }
    }
  }

  /** A second part that starts with a character foreign to `pat` cannot be reached by an occurrence. */
  lemma NoCrossingFresh(a: string, x: string, pat: string)
    requires x != [] && x[0] !in pat
    ensures NoCrossing(a, x, pat)
  {
    forall i | 0 <= i < |a| < i + |pat|
      ensures !StartsWith((a + x)[i..], pat)
    {
      assert (a + x)[i..][|a| - i] == x[0];
    }
  }

  /** A string in which `pat` does not occur is left unchanged by `replace`. */
  lemma ReplaceAllAbsent(s: string, pat: string, rep: string)
    requires |pat| > 0 && !Occurs(s, pat)
    ensures ReplaceAll(s, pat, rep) == s
  {
    forall i | 0 <= i < |s|
      ensures !StartsWith((s + [])[i..], pat)
    {
      assert s + [] == s;
      assert !OccursAt(s, pat, i);
    }
    ReplaceAllSkip(s, [], pat, rep);
    assert s + [] == s;
  }

  /**
    When the replacement does not begin with a character of `w`, a result that
    starts with `w` can only have copied `w` from the input.
   */
  lemma {:induction false} ReplaceAllCopiedPrefix(t: string, w: string, pat: string, rep: string)
    requires |pat| > 0 && |rep| > 0 && rep[0] !in w
    ensures StartsWith(ReplaceAll(t, pat, rep), w) ==> StartsWith(t, w)
    decreases |w|
  {
    var r := ReplaceAll(t, pat, rep);
    if w != [] && StartsWith(r, w) {
      assert r[0] == w[0] && w[0] != rep[0];
      assert t != [] && !StartsWith(t, pat);
      assert r == [t[0]] + ReplaceAll(t[1..], pat, rep);
      assert StartsWith(ReplaceAll(t[1..], pat, rep), w[1..]) by {
        assert r[1..] == ReplaceAll(t[1..], pat, rep);
        assert r[1..][..|w| - 1] == r[..|w|][1..];
      }
      ReplaceAllCopiedPrefix(t[1..], w[1..], pat, rep);
      assert t[..|w|] == [t[0]] + t[1..][..|w| - 1];
    }
  }

  /**
    Every occurrence is replaced: when the replacement is non-empty and shares
    no character with `pat`, no occurrence of `pat` is left in the result.
   */
  lemma {:induction false} ReplaceAllRemovesAll(s: string, pat: string, rep: string)
    requires |pat| > 0 && |rep| > 0
    requires forall j :: 0 <= j < |rep| ==> rep[j] !in pat
    ensures !Occurs(ReplaceAll(s, pat, rep), pat)
    decreases |s|
  {
    var r := ReplaceAll(s, pat, rep);
    if s == [] {
      assert r == [];
      assert forall i :: 0 <= i <= |r| ==> !OccursAt(r, pat, i);
    } else if StartsWith(s, pat) {
      var x := ReplaceAll(s[|pat|..], pat, rep);
      ReplaceAllRemovesAll(s[|pat|..], pat, rep);
      assert r == rep + x;
      forall i | 0 <= i <= |r|
        ensures !OccursAt(r, pat, i)
      {
        if i < |rep| {
          assert r[i] == rep[i] && rep[i] !in pat;
          assert pat[0] in pat;
        } else {
          assert r[i..] == x[i - |rep|..];
          assert !OccursAt(x, pat, i - |rep|);
        }
      }
    } else {
      var x := ReplaceAll(s[1..], pat, rep);
      ReplaceAllRemovesAll(s[1..], pat, rep);
      assert r == [s[0]] + x;
      forall i | 0 <= i <= |r|
        ensures !OccursAt(r, pat, i)
      {
        if i == 0 {
          assert rep[0] !in pat[1..];
          ReplaceAllCopiedPrefix(s[1..], pat[1..], pat, rep);
          // an occurrence at the front would need s[1..] to start with pat[1..]
          assert s[0] == pat[0] ==> !StartsWith(s[1..], pat[1..]) by {
            if |pat| <= |s| {
              assert s[..|pat|] == [s[0]] + s[1..][..|pat| - 1];
              assert pat == [pat[0]] + pat[1..];
            }
          }
          assert StartsWith(r, pat) ==> StartsWith(x, pat[1..]) by {
            if |pat| <= |r| {
              assert x[..|pat| - 1] == r[..|pat|][1..];
            }
          }
        } else {
          assert r[i..] == x[i - 1..];
          assert !OccursAt(x, pat, i - 1);
        }
      }
    }
  }

  /**
    Replacing `pat` by a marker character that does not occur in `s`, then the
    marker by `pat`, gives `s` back.
   */
  lemma {:induction false} ReplaceAllRoundTrip(s: string, pat: string, marker: char)
    requires |pat| > 0 && marker !in s
    ensures ReplaceAll(ReplaceAll(s, pat, [marker]), [marker], pat) == s
    decreases |s|
  {
    if s == [] {
    } else if StartsWith(s, pat) {
      assert marker !in s[|pat|..];
      ReplaceAllRoundTrip(s[|pat|..], pat, marker);
      ReplaceAllMatch(ReplaceAll(s[|pat|..], pat, [marker]), [marker], pat);
      assert s == pat + s[|pat|..];
    } else {
      assert marker !in s[1..];
      ReplaceAllRoundTrip(s[1..], pat, marker);
      var x := ReplaceAll(s[1..], pat, [marker]);
      assert ReplaceAll([s[0]] + x, [marker], pat) == [s[0]] + ReplaceAll(x, [marker], pat) by {
        assert ([s[0]] + x)[1..] == x;
        assert !StartsWith([s[0]] + x, [marker]);
      }
      assert s == [s[0]] + s[1..];
    }
  }
}
