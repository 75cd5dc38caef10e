/**
  The text transformation of `replace_string_in_file`: an optional global
  search-and-replace, then an optional rewrite of markdown code fences into
  the HTML tags the documentation pages use. The file is given as its
  content; what is returned is the path to write and the new content.
 */
module ReplaceString {
  import opened PyString

  const MermaidFence: string := "```mermaid"
  const PythonFence: string := "```python"
  const Fence: string := "```"
  /** The opening tag, written in three pieces. */
  const MermaidOpen: string := OpenPre + OpenLanguage + OpenDiv
  const OpenPre: string := "<pre><code class="
  const OpenLanguage: string := "\"language-mermaid\">"
  const OpenDiv: string := "<div class=\"mermaid\">\n"
  const PythonClose: string := "</div></code class=\"python\"></pre>\n"
  const FenceClose: string := "</div></code></pre>\n"

  /** The file to write and what to write into it. */
  datatype Output = Output(path: string, content: string)

  /** The guard of the search step: both strings given and non-empty. */
  predicate SearchRuns(target: Option<string>, replacement: Option<string>) {
    && target.Some? && target.value != ""
    && replacement.Some? && replacement.value != ""
    && !(|target.value| == 0 && |replacement.value| == 0)
  }

  /** The search step: every occurrence of the target replaced when the guard holds, the content unchanged otherwise. */
  function SearchStep(content: string, target: Option<string>, replacement: Option<string>): (s: string)
    ensures !SearchRuns(target, replacement) ==> s == content
  {
    if SearchRuns(target, replacement) then ReplaceAll(content, target.value, replacement.value) else content
  }

  /** When the step runs and the replacement shares no character with the target, no occurrence of the target is left. */
  lemma SearchRemovesTarget(content: string, target: string, replacement: string)
    requires target != "" && replacement != ""
    requires forall j :: 0 <= j < |replacement| ==> replacement[j] !in target
    ensures !Occurs(SearchStep(content, Some(target), Some(replacement)), target)
  {
    ReplaceAllRemovesAll(content, target, replacement);
  }

  /** The three fence replacements, in their fixed order. */
  function RewriteFences(s: string): string {
    ReplaceAll(ReplaceAll(ReplaceAll(s, MermaidFence, MermaidOpen), PythonFence, PythonClose), Fence, FenceClose)
  }

  /** `replace_string_in_file` without the read and the write. */
  function ReplaceStringInFile(content: string, target: Option<string>, replacement: Option<string>,
                               replaceMermaid: bool, inputPath: string, outputPath: Option<string>): (r: Output)
    ensures outputPath.None? ==> r.path == inputPath
    ensures outputPath.Some? ==> r.path == outputPath.value
    ensures !replaceMermaid ==> r.content == SearchStep(content, target, replacement)
    ensures !replaceMermaid && !SearchRuns(target, replacement) ==> r.content == content
    ensures replaceMermaid ==> !Occurs(r.content, Fence)
  {
    var searched := SearchStep(content, target, replacement);
    var rewritten := if replaceMermaid then FencesRemoved(searched); RewriteFences(searched) else searched;
    Output(if outputPath.None? then inputPath else outputPath.value, rewritten)
  }

  /** No run of three backticks is left after the fence rewrite: the last step removes them all and adds none. */
  lemma FencesRemoved(s: string)
    ensures !Occurs(RewriteFences(s), Fence)
  {
    var t := ReplaceAll(ReplaceAll(s, MermaidFence, MermaidOpen), PythonFence, PythonClose);
    ReplaceAllRemovesAll(t, Fence, FenceClose);
  }

  /** No character of `s` is a backtick. */
  predicate BacktickFree(s: string) {
    forall k :: 0 <= k < |s| ==> s[k] != '`'
  }

  lemma BacktickFreeConcat(a: string, b: string)
    requires BacktickFree(a) && BacktickFree(b)
    ensures BacktickFree(a + b)
  {
    forall k | 0 <= k < |a + b| ensures (a + b)[k] != '`' {
      if k >= |a| {
        assert (a + b)[k] == b[k - |a|];
      }
    }
  }

  lemma OpeningTagWithoutBackticks()
    ensures BacktickFree(MermaidOpen)
  {
    assert BacktickFree(OpenPre) by {
      forall k | 0 <= k < |OpenPre| ensures OpenPre[k] != '`' {
      }
    }
    assert BacktickFree(OpenLanguage) by {
      forall k | 0 <= k < |OpenLanguage| ensures OpenLanguage[k] != '`' {
      }
    }
    assert BacktickFree(OpenDiv) by {
      forall k | 0 <= k < |OpenDiv| ensures OpenDiv[k] != '`' {
      }
    }
    BacktickFreeConcat(OpenPre, OpenLanguage);
    BacktickFreeConcat(OpenPre + OpenLanguage, OpenDiv);
  }

  /** None of the tags holds a backtick, and every fence starts with one. */
  lemma TagsWithoutBackticks()
    ensures '`' !in MermaidOpen && '`' !in PythonClose && '`' !in FenceClose
    ensures MermaidFence[0] == '`' && PythonFence[0] == '`' && Fence[0] == '`'
  {
    OpeningTagWithoutBackticks();
    assert BacktickFree(PythonClose) by {
      forall k | 0 <= k < |PythonClose| ensures PythonClose[k] != '`' {
      }
    }
    assert BacktickFree(FenceClose) by {
      forall k | 0 <= k < |FenceClose| ensures FenceClose[k] != '`' {
      }
    }
  }

  /** A pattern that starts with a backtick is not found in a string without backticks. */
  lemma BacktickAbsent(s: string, pat: string)
    requires |pat| > 0 && pat[0] == '`' && '`' !in s
    ensures !Occurs(s, pat)
  {
    forall i | 0 <= i <= |s| ensures !OccursAt(s, pat, i) {
      if |pat| <= |s| - i {
        assert s[i..][..|pat|][0] == s[i];
      }
    }
  }

  /** A prefix without backticks is copied unchanged by a replacement whose pattern starts with a backtick. */
  lemma BacktickFreePrefix(a: string, x: string, pat: string, rep: string)
    requires |pat| > 0 && pat[0] == '`' && '`' !in a
    ensures ReplaceAll(a + x, pat, rep) == a + ReplaceAll(x, pat, rep)
  {
    forall i | 0 <= i < |a| ensures !StartsWith((a + x)[i..], pat) {
      assert (a + x)[i..][0] == a[i];
    }
    ReplaceAllSkip(a, x, pat, rep);
  }

  /** Text without backticks passes through the fence rewrite unchanged. */
  lemma NoFencesUnchanged(s: string)
    requires '`' !in s
    ensures RewriteFences(s) == s
  {
    BacktickAbsent(s, MermaidFence);
    ReplaceAllAbsent(s, MermaidFence, MermaidOpen);
    BacktickAbsent(s, PythonFence);
    ReplaceAllAbsent(s, PythonFence, PythonClose);
    BacktickAbsent(s, Fence);
    ReplaceAllAbsent(s, Fence, FenceClose);
  }

  /** A fence pattern: three backticks and then at least one character that is not a backtick. */
  predicate FenceLike(pat: string) {
    |pat| > 3 && pat[..3] == Fence && forall k :: 3 <= k < |pat| ==> pat[k] != '`'
  }

  lemma FencesLike()
    ensures FenceLike(MermaidFence) && FenceLike(PythonFence)
  {
    forall k | 3 <= k < |MermaidFence| ensures MermaidFence[k] != '`' {
    }
    forall k | 3 <= k < |PythonFence| ensures PythonFence[k] != '`' {
    }
  }

  /** Every tag starts with '<', which no fence holds. */
  lemma TagsStartFresh()
    ensures MermaidOpen[0] == '<' && PythonClose[0] == '<'
    ensures '<' !in PythonFence && '<' !in Fence
  {
  }

  /**
    No occurrence of a fence pattern can start inside `a` and reach into a
    text that starts with three backticks: it would need a backtick where its
    own text has none.
   */
  lemma NoCrossingFence(a: string, x: string, pat: string)
    requires FenceLike(pat) && |x| >= 3 && x[..3] == Fence
    ensures NoCrossing(a, x, pat)
  {
    forall i | 0 <= i < |a| < i + |pat|
      ensures !StartsWith((a + x)[i..], pat)
    {
      var j := |a| - i;
      if j <= 3 {
        assert x[3 - j] == Fence[3 - j] == '`';
        assert (a + x)[i..][3] == x[3 - j];
        assert pat[3] != '`';
      } else {
        assert x[0] == '`';
        assert (a + x)[i..][j] == x[0];
        assert pat[j] != '`';
      }
    }
  }

  /** A fence pattern in the middle of a text is replaced, and the text on either side is replaced on its own. */
  lemma FenceStep(a: string, s: string, pat: string, rep: string)
    requires FenceLike(pat)
    ensures ReplaceAll(a + pat + s, pat, rep) == ReplaceAll(a, pat, rep) + rep + ReplaceAll(s, pat, rep)
  {
    assert (pat + s)[..3] == Fence;
    NoCrossingFence(a, pat + s, pat);
    ReplaceAllSplit(a, pat + s, pat, rep);
    ReplaceAllMatch(s, pat, rep);
    assert a + pat + s == a + (pat + s);
  }

  /** A tag in the middle of a text is left alone, and the text on either side is replaced on its own. */
  lemma TagStep(a: string, tag: string, s: string, pat: string, rep: string)
    requires |pat| > 0 && pat[0] == '`' && '`' !in tag && tag != [] && tag[0] !in pat
    ensures ReplaceAll(a + tag + s, pat, rep) == ReplaceAll(a, pat, rep) + tag + ReplaceAll(s, pat, rep)
  {
    NoCrossingFresh(a, tag + s, pat);
    ReplaceAllSplit(a, tag + s, pat, rep);
    BacktickFreePrefix(tag, s, pat, rep);
    assert a + tag + s == a + (tag + s);
  }

  /** A mermaid fence, wherever it stands, becomes the opening tag, never a closing one. */
  lemma MermaidFenceOpens(a: string, s: string)
    ensures RewriteFences(a + MermaidFence + s) == RewriteFences(a) + MermaidOpen + RewriteFences(s)
  {
    FencesLike();
    TagsStartFresh();
    TagsWithoutBackticks();
    FenceStep(a, s, MermaidFence, MermaidOpen);
    var ma := ReplaceAll(a, MermaidFence, MermaidOpen);
    var ms := ReplaceAll(s, MermaidFence, MermaidOpen);
    TagStep(ma, MermaidOpen, ms, PythonFence, PythonClose);
    var pa := ReplaceAll(ma, PythonFence, PythonClose);
    var ps := ReplaceAll(ms, PythonFence, PythonClose);
    TagStep(pa, MermaidOpen, ps, Fence, FenceClose);
  }

  /** The mermaid step passes over a python fence. */
  lemma PythonFenceSkipped(s: string)
    ensures ReplaceAll(PythonFence + s, MermaidFence, MermaidOpen) == PythonFence + ReplaceAll(s, MermaidFence, MermaidOpen)
  {
    forall i | 0 <= i < |PythonFence| ensures !StartsWith((PythonFence + s)[i..], MermaidFence) {
      if i < 3 {
        assert (PythonFence + s)[i..][3 - i] == 'p';
      } else {
        assert (PythonFence + s)[i..][0] == PythonFence[i];
      }
    }
    ReplaceAllSkip(PythonFence, s, MermaidFence, MermaidOpen);
  }

  lemma PythonFenceKept(a: string, s: string)
    ensures ReplaceAll(a + PythonFence + s, MermaidFence, MermaidOpen)
            == ReplaceAll(a, MermaidFence, MermaidOpen) + PythonFence + ReplaceAll(s, MermaidFence, MermaidOpen)
  {
    FencesLike();
    assert (PythonFence + s)[..3] == Fence;
    NoCrossingFence(a, PythonFence + s, MermaidFence);
    ReplaceAllSplit(a, PythonFence + s, MermaidFence, MermaidOpen);
    PythonFenceSkipped(s);
    assert a + PythonFence + s == a + (PythonFence + s);
  }

  /** A python fence, wherever it stands, becomes the python closing tag, never the plain one. */
  lemma PythonFenceCloses(a: string, s: string)
    ensures RewriteFences(a + PythonFence + s) == RewriteFences(a) + PythonClose + RewriteFences(s)
  {
    FencesLike();
    TagsStartFresh();
    TagsWithoutBackticks();
    PythonFenceKept(a, s);
    var ma := ReplaceAll(a, MermaidFence, MermaidOpen);
    var ms := ReplaceAll(s, MermaidFence, MermaidOpen);
    FenceStep(ma, ms, PythonFence, PythonClose);
    var pa := ReplaceAll(ma, PythonFence, PythonClose);
    var ps := ReplaceAll(ms, PythonFence, PythonClose);
    TagStep(pa, PythonClose, ps, Fence, FenceClose);
  }

  /**
    Replacing the target by a character the content does not hold, then that
    character by the target, gives the content back.
   */
  lemma SearchRoundTrip(content: string, target: string, marker: char)
    requires target != "" && marker !in content
    ensures SearchStep(SearchStep(content, Some(target), Some([marker])), Some([marker]), Some(target)) == content
  {
    ReplaceAllRoundTrip(content, target, marker);
  }
}
