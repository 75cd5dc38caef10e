# glTF-MaterialX-Converter: document comparison and text utilities in Dafny

This project models the parts of the glTF-MaterialX-Converter repository that
have logic of their own and proves properties of them:

- **Value-string normalisation** (`MtlxDocumentCompare.normalizeValueString`).
  The value string of one of nine numeric MaterialX types is rewritten into a
  canonical spelling. The string is split on `,`, each piece is trimmed and
  empty pieces are dropped, and leading zeros are stripped (with a `0` put back
  when nothing or only a fraction is left). A token with a point and no exponent
  loses its trailing zeros and then a trailing point. The tokens are joined
  with `", "`. An `integer` value is only trimmed, and other types are left
  alone. The imperative loop (`ValueStrings.NormalizeValueString`) is proved
  equal to a functional definition (`ValueStrings.Normalized`), and the laws
  are proved about that definition (`ValueStringLaws`).
- **Normalising a document** (`normalizeValueStrings`, `normalize`). This is the
  in-place pass over the value elements a depth-first walk visits. It is modelled
  twice: as a loop over an array of the records the pass reads and writes
  (`ValueRecords`), and as a function on element trees (`DocumentNormalize`).
  A lemma ties the two together: the walk of the normalised tree carries the
  records the array pass produces.
- **Structural comparison** (`functionallyEquivalent`, `compare`). Two element
  trees are compared by category, name, attribute count, sorted attribute names,
  attribute values, child count and sorted child names. Then each left-hand
  child is compared with the right-hand child of the same name. The class
  `DocumentCompare.MtlxDocumentCompare` keeps the two documents, the last error
  and the last result, as the Python class does. Its recursive method is proved
  equal to the functional comparison `Elements.Compare`. That comparison is
  characterised declaratively (`ElementLaws.CompareIff`) and shown to be
  reflexive, symmetric (both for trees with distinct sibling names) and
  transitive. It does not depend on the order of attributes or children
  (`ElementOrder`), and normalisation keeps an equivalent pair equivalent.
- **The extension filter of `getFiles`** (`Files`), over a directory walk given
  as data.
- **`replace_string_in_file`** (`ReplaceString`). This is an optional global
  search-and-replace, followed by an optional fixed-order rewrite of markdown
  code fences into HTML tags, built on a model of Python's `str.replace`
  (`PyString.ReplaceAll`: non-overlapping matches, scanned left to right).

Python's string primitives that these use (`strip`, `lstrip`, `rstrip`,
`split`, `join`, `lower`, `endswith`, `replace`, `sorted`) are modelled in
`PyString` and `Sorting`.

The error of the comparison is kept as the kind of the check that failed
(`Elements.Mismatch`). It is not kept as message text. The empty message the
object starts with is `None`.

## Model

| member | source | states |
|---|---|---|
| ValueStrings.NormalizeValueString | source/gltf_materialx_converter/utilities.py:107-160 | the method returns exactly `Normalized(s, valueType)`, and an unsupported type returns the string unchanged |
| ValueStrings.AppendTokens | source/gltf_materialx_converter/utilities.py:128-154 | the token loop builds every normalised non-empty trimmed piece followed by `", "`, in input order |
| ValueStrings.RewriteToken | source/gltf_materialx_converter/utilities.py:137-151 | the per-token steps (leading zeros, `0` prefix, trailing zeros and point) compute `NormalizeToken` |
| ValueStrings.ZeroPrefixed | source/gltf_materialx_converter/utilities.py:137-142 | the token after the leading-zero rule is never empty |
| ValueStrings.PointSurvives | source/gltf_materialx_converter/utilities.py:147-151 | right-stripping zeros keeps the point, so `token[-1]` is always defined |
| ValueStrings.TerminatedJoin | source/gltf_materialx_converter/utilities.py:154-158 | dropping the last separator of the accumulated result gives the tokens joined by `", "`, and the result is empty exactly when there are no tokens |
| ValueStringLaws.IntegerTrimmed | source/gltf_materialx_converter/utilities.py:122-126 | an `integer` value becomes the infix of the input between a white-space prefix and a white-space suffix, and has no white space at either end |
| ValueStringLaws.ZeroPrefixedStart | source/gltf_materialx_converter/utilities.py:137-142 | after the leading-zero rule the token does not start with `.`, and a leading `0` is a lone zero or stands before the point |
| ValueStringLaws.ZeroPrefixedSuffix | source/gltf_materialx_converter/utilities.py:137-142 | the leading-zero rule drops a run of zeros and may put one `0` back |
| ValueStringLaws.LeadingZeros | source/gltf_materialx_converter/utilities.py:137-151 | a normalised token is non-empty, does not start with `.`, and starts with `0` only as `"0"` or before the point |
| ValueStringLaws.ZeroValued | source/gltf_materialx_converter/utilities.py:137-151 | a token of zeros and at most one point (`"000"`, `"0.000"`, `".0"`, `"."`) becomes `"0"` |
| ValueStringLaws.TrimFractionFacts | source/gltf_materialx_converter/utilities.py:144-151 | the trailing-zero rule cuts only zeros and points from the end, and does nothing to a token with an `e` or without a point |
| ValueStringLaws.TrimFractionEnds | source/gltf_materialx_converter/utilities.py:144-151 | with one point and no exponent, the result is non-empty, does not end in `.`, and does not end in `0` while it keeps its point |
| ValueStringLaws.TrailingZeros | source/gltf_materialx_converter/utilities.py:137-151 | a token with one point and no `e` keeps a prefix of its zero-prefixed form, cuts only zeros and the point, and ends in neither `.` nor (while it keeps the point) `0`; nothing before the point is cut |
| ValueStringLaws.ExponentKept | source/gltf_materialx_converter/utilities.py:144-145 | a token with an `e` only loses its leading zeros (with `0` put back when needed) |
| ValueStringLaws.TokenWithin | source/gltf_materialx_converter/utilities.py:137-151 | normalising a token adds no character other than `0` |
| ValueStringLaws.TokenAvoids | source/gltf_materialx_converter/utilities.py:137-151 | normalising a token keeps it clear of any character set without `0`, such as white space or the comma |
| ValueStringLaws.TokenFixed | source/gltf_materialx_converter/utilities.py:137-151 | normalising a token with at most one point twice is normalising it once |
| ValueStringLaws.PiecesAreTokens | source/gltf_materialx_converter/utilities.py:128-154 | the output tokens are exactly the non-empty trimmed input pieces, each normalised, with the same count and order |
| ValueStringLaws.TokensAllKept | source/gltf_materialx_converter/utilities.py:131-135 | when no piece trims to nothing, every piece gives a token |
| ValueStringLaws.JoinedShape | source/gltf_materialx_converter/utilities.py:154-158 | joined comma-free tokens are empty exactly when there are none, and splitting the result on `,` gives the tokens back, each after the first behind one space |
| ValueStringLaws.OutputTokens | source/gltf_materialx_converter/utilities.py:128-154 | every output token is non-empty and comma-free, and with clean input tokens also free of white space and already normal |
| ValueStringLaws.NormalizedShape | source/gltf_materialx_converter/utilities.py:119-158 | for a list type the output is empty exactly when no token remains; otherwise it has one `,`-separated piece per input token, the normalised token, every piece after the first behind one space |
| ValueStringLaws.RenormalizePadded | source/gltf_materialx_converter/utilities.py:128-158 | a second pass over joined normal tokens gives the same tokens |
| ValueStringLaws.NormalizedIdempotent | source/gltf_materialx_converter/utilities.py:107-160 | normalising twice equals normalising once when no token has inner white space or two points |
| ValueStringLaws.NotIdempotent | source/gltf_materialx_converter/utilities.py:128-151 | without those conditions a second pass changes the value: `"0 5"` becomes `" 5"` and then `"5"`, and `"5.."` becomes `"5."` and then `"5"` |
| ValueStringLaws.IntegerPartKept | source/gltf_materialx_converter/utilities.py:144-151 | for every token with one point and no `e`, everything before the point is kept, zeros included: `"10.0"` becomes `"10"`, not `"1"` |
| ValueStringLaws.TrimFractionKeepsPoint | source/gltf_materialx_converter/utilities.py:144-151 | the trailing-zero rule cuts nothing before the point of a string with one point and no `e` |
| ValueStringLaws.OnePiece | source/gltf_materialx_converter/utilities.py:128-158 | a comma-free value that does not trim to nothing becomes its one normalised token |
| ValueStringLaws.InnerSpaceFirstPass | source/gltf_materialx_converter/utilities.py:128-158 | `"0 d"` (d a non-zero digit) becomes `" d"` |
| ValueStringLaws.InnerSpaceSecondPass | source/gltf_materialx_converter/utilities.py:128-158 | `" d"` becomes `"d"` |
| ValueStringLaws.TwoPointsFirstPass | source/gltf_materialx_converter/utilities.py:128-158 | `"d.."` becomes `"d."` |
| ValueStringLaws.TwoPointsSecondPass | source/gltf_materialx_converter/utilities.py:128-158 | `"d."` becomes `"d"` |
| ValueRecords.NormalizeValueStrings | source/gltf_materialx_converter/utilities.py:162-177 | the in-place pass leaves every record as `NormalizeRecord` makes it |
| ValueRecords.NormalizedRecordsEffect | source/gltf_materialx_converter/utilities.py:167-177 | the pass changes only value strings, and only of value elements with a non-empty string, which become their normal form |
| ValueRecords.NormalizedRecordsIdempotent | source/gltf_materialx_converter/utilities.py:162-177 | a second pass changes nothing when the value strings are clean |
| DocumentNormalize.SetAttributeGet | source/gltf_materialx_converter/utilities.py:177 | after setting the value string, reading it gives the new value |
| DocumentNormalize.SetAttributeOther | source/gltf_materialx_converter/utilities.py:177 | setting the value string changes no other attribute |
| DocumentNormalize.SetAttributeNames | source/gltf_materialx_converter/utilities.py:177 | overwriting an existing attribute keeps the attribute names |
| DocumentNormalize.RecordNormalized | source/gltf_materialx_converter/utilities.py:168-177 | one step on an element does to what the pass reads of it what the record step does |
| DocumentNormalize.NormalizeTreeRecords | source/gltf_materialx_converter/utilities.py:162-177 | the walk of the normalised tree carries, element by element, the records the array pass produces from the walk of the original tree |
| DocumentNormalize.NormalizeTreeShape | source/gltf_materialx_converter/utilities.py:162-177 | normalisation keeps category, name and child names, and normalises each child in place |
| DocumentNormalize.PartnerNormalized | source/gltf_materialx_converter/utilities.py:234 | in the normalised trees each child's partner is the normalised partner |
| DocumentNormalize.NormalizedAttributes | source/gltf_materialx_converter/utilities.py:168-177 | two elements of one category with the same attributes still have the same attributes after their step |
| DocumentNormalize.NormalizedSameAttributes | source/gltf_materialx_converter/utilities.py:162-177 | the same holds for the roots of whole normalised trees |
| DocumentNormalize.NormalizePreservesEquivalence | source/gltf_materialx_converter/utilities.py:253-258 | normalising both documents keeps an equivalent pair equivalent |
| Elements.GetChild | source/gltf_materialx_converter/utilities.py:234 | `getChild` finds a child exactly when one has that name, and returns a child of that name |
| Elements.FirstIndex | source/gltf_materialx_converter/utilities.py:208 | the lookup by name, shared by `getAttribute` and `getChild`, stops at the first entry with the name, or at the end |
| Elements.Partner | source/gltf_materialx_converter/utilities.py:232-234 | when the child names match, every left-hand child has a right-hand partner of its name |
| Elements.NodeCheck | source/gltf_materialx_converter/utilities.py:186-230 | when all checks on the pair pass, the child counts and child-name multisets agree |
| ElementLaws.FirstFailureAllEquivalent | source/gltf_materialx_converter/utilities.py:232-243 | the child loop succeeds exactly when every child verdict is `Equivalent` |
| ElementLaws.FirstFailureIsFirst | source/gltf_materialx_converter/utilities.py:232-241 | a failing child loop reports a verdict that follows only `Equivalent` ones |
| ElementLaws.FirstFailureAt | source/gltf_materialx_converter/utilities.py:240-241 | the loop stops at a failing verdict preceded only by `Equivalent` ones and reports it |
| ElementLaws.FirstFailingChild | source/gltf_materialx_converter/utilities.py:232-241 | when the pair's own checks pass but the comparison fails, the verdict is that of the first failing child in left-hand order |
| ElementLaws.ValuesAgreeAll | source/gltf_materialx_converter/utilities.py:207-210 | the attribute-value loop succeeds exactly when every listed name has equal values |
| ElementLaws.AgreeOnPermutation | source/gltf_materialx_converter/utilities.py:199-210 | agreement on every name of a list carries over to any permutation of it |
| ElementLaws.AttributeChecksSound | source/gltf_materialx_converter/utilities.py:195-210 | passing attribute checks mean the same attribute names and values |
| ElementLaws.AttributeChecksComplete | source/gltf_materialx_converter/utilities.py:195-210 | the same attribute names and values pass the attribute checks |
| ElementLaws.AttributeChecksIff | source/gltf_materialx_converter/utilities.py:195-210 | the attribute checks pass exactly when the attributes are the same |
| ElementLaws.NodeCheckIff | source/gltf_materialx_converter/utilities.py:186-230 | the checks before the children pass exactly when category, name, attributes, child count and child-name multisets agree |
| ElementLaws.ChildrenMatchIff | source/gltf_materialx_converter/utilities.py:232-243 | the child loop succeeds exactly when every child matches its partner |
| ElementLaws.CompareIff | source/gltf_materialx_converter/utilities.py:179-243 | the comparison answers `Equivalent` exactly when the declarative reading `Matches` holds |
| ElementLaws.SameAttributesSymmetric | source/gltf_materialx_converter/utilities.py:195-210 | equal attributes are symmetric |
| ElementLaws.SameAttributesTransitive | source/gltf_materialx_converter/utilities.py:195-210 | equal attributes are transitive |
| ElementLaws.GetChildDistinct | source/gltf_materialx_converter/utilities.py:234 | with distinct sibling names `getChild` finds each child by its own name |
| ElementLaws.CompareReflexive | source/gltf_materialx_converter/utilities.py:179-243 | a tree with distinct sibling names is equivalent to itself |
| ElementLaws.ChildrenSymmetric | source/gltf_materialx_converter/utilities.py:232-243 | with distinct sibling names, matching children match the other way round |
| ElementLaws.CompareSymmetricStep | source/gltf_materialx_converter/utilities.py:179-243 | with distinct sibling names, an equivalent pair is equivalent the other way round |
| ElementLaws.CompareSymmetric | source/gltf_materialx_converter/utilities.py:179-243 | with distinct sibling names, equivalence does not depend on argument order |
| ElementLaws.PartnerChain | source/gltf_materialx_converter/utilities.py:234 | a child and its partner have the same partner in a third element |
| ElementLaws.MatchesChain | source/gltf_materialx_converter/utilities.py:186-230 | the checks on the pair itself chain from (a, b) and (b, c) to (a, c) |
| ElementLaws.ChildrenTransitive | source/gltf_materialx_converter/utilities.py:232-243 | matching children chain through a middle element |
| ElementLaws.CompareTransitive | source/gltf_materialx_converter/utilities.py:179-243 | equivalence is transitive on all trees |
| ElementOrder.Mapped | source/gltf_materialx_converter/utilities.py:220-225 | mapping keeps the length and applies the function at every position |
| ElementOrder.MappedPermutation | source/gltf_materialx_converter/utilities.py:199-203 | mapping two permutations of each other gives permutations of each other |
| ElementOrder.ChildNamesPermutation | source/gltf_materialx_converter/utilities.py:220-228 | reordered children have the same child-name multiset and count |
| ElementOrder.AttributeNamesPermutation | source/gltf_materialx_converter/utilities.py:199-203 | reordered attributes have the same attribute-name multiset and count |
| ElementOrder.FirstIndexAt | source/gltf_materialx_converter/utilities.py:208 | the lookup answers the first position that holds the name |
| ElementOrder.GetAttributeDistinct | source/gltf_materialx_converter/utilities.py:208 | with distinct names, `getAttribute` returns the value of the attribute of that name |
| ElementOrder.GetAttributeReordered | source/gltf_materialx_converter/utilities.py:208 | with distinct names, reordering attributes changes no lookup |
| ElementOrder.PartnerReordered | source/gltf_materialx_converter/utilities.py:234 | with distinct right-hand child names, reordering the right-hand children keeps every partner |
| ElementOrder.RhsChildOrder | source/gltf_materialx_converter/utilities.py:220-241 | reordering the right-hand children (distinct names) leaves the verdict unchanged |
| ElementOrder.RhsAttributeOrder | source/gltf_materialx_converter/utilities.py:195-210 | reordering the right-hand attributes (distinct names) leaves the verdict unchanged |
| ElementOrder.ChildrenMatchPermuted | source/gltf_materialx_converter/utilities.py:232-241 | matching children still match when the left-hand children are listed in another order |
| ElementOrder.LhsChildOrder | source/gltf_materialx_converter/utilities.py:220-241 | reordering the left-hand children does not change whether the elements are equivalent |
| ElementOrder.LhsAttributeOrder | source/gltf_materialx_converter/utilities.py:195-210 | reordering the left-hand attributes (distinct names) does not change whether the elements are equivalent |
| DocumentCompare.CollectNames | source/gltf_materialx_converter/utilities.py:220-225 | the collection loop returns the children's names in child order |
| DocumentCompare.ValuesMatch | source/gltf_materialx_converter/utilities.py:207-210 | the attribute-value loop answers `ValuesAgree` |
| DocumentCompare.ChildNamesMatch | source/gltf_materialx_converter/utilities.py:219-230 | the child-name check answers whether the sorted name lists are equal |
| DocumentCompare.CheckNode | source/gltf_materialx_converter/utilities.py:186-230 | the checks before the children return the first failing check, as `NodeCheck` defines it |
| DocumentCompare.VerdictOfChild | source/gltf_materialx_converter/utilities.py:232-240 | the i-th child verdict is the comparison of the i-th child with `getChild` of its name |
| DocumentCompare.MtlxDocumentCompare.constructor | source/gltf_materialx_converter/utilities.py:90-98 | the object holds both documents, with an empty error and no result |
| DocumentCompare.MtlxDocumentCompare.FunctionallyEquivalent | source/gltf_materialx_converter/utilities.py:179-243 | it returns true exactly when `Compare` answers `Equivalent`; on failure the error is the first failing check; on success the error is untouched; nothing else changes |
| DocumentCompare.MtlxDocumentCompare.ChildrenEquivalent | source/gltf_materialx_converter/utilities.py:232-243 | the child loop returns true exactly when every child verdict is `Equivalent`, recording the first failure's kind otherwise |
| DocumentCompare.MtlxDocumentCompare.Compare | source/gltf_materialx_converter/utilities.py:245-251 | it compares the two documents and stores the answer in `result`, with the error as for `FunctionallyEquivalent` |
| DocumentCompare.MtlxDocumentCompare.Normalize | source/gltf_materialx_converter/utilities.py:253-258 | both documents are replaced by their normalised trees, and nothing else changes |
| Files.AppendWanted | source/gltf_materialx_converter/utilities.py:81-83 | the inner loop appends the wanted files of one directory, joined with it, in file order |
| Files.GetFiles | source/gltf_materialx_converter/utilities.py:72-84 | the nested loops return exactly `Selected(walk, extension)` |
| Files.InDirSound | source/gltf_materialx_converter/utilities.py:81-83 | every path kept from a directory joins it with one of its wanted files |
| Files.InDirComplete | source/gltf_materialx_converter/utilities.py:81-83 | every wanted file of a directory is kept |
| Files.InDirIff | source/gltf_materialx_converter/utilities.py:81-83 | a path is kept from a directory exactly when it joins it with a wanted file |
| Files.SelectedSound | source/gltf_materialx_converter/utilities.py:80-83 | every returned path joins a visited directory with a wanted file of it |
| Files.SelectedComplete | source/gltf_materialx_converter/utilities.py:80-83 | every wanted file of every visited directory is returned |
| Files.SelectedIff | source/gltf_materialx_converter/utilities.py:72-84 | a path is returned exactly when it joins a visited directory with a wanted file |
| Files.PathJoinEndsWith | source/gltf_materialx_converter/utilities.py:83 | a joined path ends with the file name |
| Files.LowerSuffix | source/gltf_materialx_converter/utilities.py:82 | lower-casing keeps a suffix relation |
| Files.SelectedHaveExtension | source/gltf_materialx_converter/utilities.py:82-83 | every returned path, lower-cased, ends with the extension |
| Files.UpperNeverWanted | source/gltf_materialx_converter/utilities.py:82 | no file is wanted for an extension with an upper-case letter |
| Files.UpperNothingInDir | source/gltf_materialx_converter/utilities.py:81-83 | no file of a directory is kept for such an extension |
| Files.UpperExtensionSelectsNothing | source/gltf_materialx_converter/utilities.py:79-84 | an extension with an upper-case letter selects nothing |
| ReplaceString.SearchStep | utilities/replace_string.py:11-13 | when the guard fails the content is unchanged |
| ReplaceString.SearchRemovesTarget | utilities/replace_string.py:11-13 | when the step runs and the replacement shares no character with the target, no occurrence of the target is left |
| ReplaceString.SearchRoundTrip | utilities/replace_string.py:13 | replacing the target by a fresh character and back gives the content back |
| ReplaceString.ReplaceStringInFile | utilities/replace_string.py:8-24 | the output path is the given one or else the input path; without the fence rewrite the content is the search step's result, and the input itself when the search does not run; with it no three-backtick run remains |
| ReplaceString.FencesRemoved | utilities/replace_string.py:18-20 | no run of three backticks is left after the fence rewrite |
| ReplaceString.OpeningTagWithoutBackticks | utilities/replace_string.py:18 | the opening tag holds no backtick |
| ReplaceString.TagsWithoutBackticks | utilities/replace_string.py:18-20 | none of the tags holds a backtick, and every fence starts with one |
| ReplaceString.BacktickAbsent | utilities/replace_string.py:18-20 | a fence is not found in text without backticks |
| ReplaceString.BacktickFreePrefix | utilities/replace_string.py:18-20 | a backtick-free prefix passes a fence replacement unchanged |
| ReplaceString.NoFencesUnchanged | utilities/replace_string.py:17-20 | text without backticks passes through the fence rewrite unchanged |
| ReplaceString.MermaidFenceOpens | utilities/replace_string.py:18-20 | a mermaid fence anywhere in the text becomes the opening tag and never a closing tag, and the text on either side is rewritten on its own |
| ReplaceString.PythonFenceCloses | utilities/replace_string.py:18-20 | a python fence anywhere in the text becomes the python closing tag and never the plain one, and the text on either side is rewritten on its own |
| ReplaceString.FenceStep | utilities/replace_string.py:18-20 | one fence replacement turns a fence in the middle of a text into its tag and works on the two sides separately |
| ReplaceString.TagStep | utilities/replace_string.py:19-20 | a later fence replacement leaves a tag in the middle of a text alone and works on the two sides separately |
| ReplaceString.NoCrossingFence | utilities/replace_string.py:18-20 | no mermaid or python fence match can start before a run of three backticks and run into it |
| PyString.LeadingRun | source/gltf_materialx_converter/utilities.py:138 | the run of characters from a set at the start of a string, as far as it goes |
| PyString.LeadingRunUnique | source/gltf_materialx_converter/utilities.py:138 | that run is the only one that stops at a character outside the set |
| PyString.TrailingRun | source/gltf_materialx_converter/utilities.py:148 | the run of characters from a set at the end of a string, as far back as it goes |
| PyString.TrailingRunUnique | source/gltf_materialx_converter/utilities.py:148 | that run is the only one that stops at a character outside the set |
| PyString.LStrip | source/gltf_materialx_converter/utilities.py:138 | `lstrip(chars)` returns a suffix after a run of `chars`, not starting with one of them |
| PyString.RStrip | source/gltf_materialx_converter/utilities.py:148 | `rstrip(chars)` returns a prefix before a run of `chars`, not ending with one of them |
| PyString.Strip | source/gltf_materialx_converter/utilities.py:131 | `strip()` returns a string no longer than the input that neither starts nor ends with white space |
| PyString.StripInfix | source/gltf_materialx_converter/utilities.py:126 | `strip()` returns the infix between a white-space prefix and a white-space suffix |
| PyString.LStripNoDrop | source/gltf_materialx_converter/utilities.py:138 | a string that does not start with one of `chars` is left alone by `lstrip` |
| PyString.RStripNoDrop | source/gltf_materialx_converter/utilities.py:148 | a string that does not end with one of `chars` is left alone by `rstrip` |
| PyString.StripFixed | source/gltf_materialx_converter/utilities.py:131 | a string without white space at either end is left alone by `strip` |
| PyString.LStripSkip | source/gltf_materialx_converter/utilities.py:138 | a leading run of `chars` does not change what `lstrip` returns for the rest |
| PyString.RStripSkip | source/gltf_materialx_converter/utilities.py:148 | a trailing run of `chars` does not change what `rstrip` returns for the rest |
| PyString.StripSurrounded | source/gltf_materialx_converter/utilities.py:131 | white space around a string without white space at either end is removed, and nothing else |
| PyString.Split | source/gltf_materialx_converter/utilities.py:128 | `split(',')` gives at least one piece, no piece holds the separator, and joining the pieces with it gives the input back |
| PyString.SplitJoin | source/gltf_materialx_converter/utilities.py:128 | splitting separator-free pieces joined by the separator gives the pieces back |
| PyString.SplitUnique | source/gltf_materialx_converter/utilities.py:128 | only one list of separator-free pieces joins to a given string |
| PyString.Lower | source/gltf_materialx_converter/utilities.py:82 | `lower()` keeps the length and lower-cases each character |
| PyString.ReplaceAllSkip | utilities/replace_string.py:13 | a prefix where the pattern does not start is copied unchanged by `replace` |
| PyString.ReplaceAllMatch | utilities/replace_string.py:13 | a match at the start is replaced and the scan resumes after it |
| PyString.ReplaceAllSplit | utilities/replace_string.py:13 | where no match crosses a boundary, `replace` of the whole is `replace` of each side, concatenated |
| PyString.NoCrossingFresh | utilities/replace_string.py:13 | no match can cross into a text whose first character is not in the pattern |
| PyString.ReplaceAllAbsent | utilities/replace_string.py:13 | a string without the pattern is left unchanged by `replace` |
| PyString.ReplaceAllCopiedPrefix | utilities/replace_string.py:13 | a prefix of the result that avoids the replacement's first character was a prefix of the input |
| PyString.ReplaceAllRemovesAll | utilities/replace_string.py:13 | after `replace`, with a replacement sharing no character with the pattern, the pattern no longer occurs |
| PyString.ReplaceAllRoundTrip | utilities/replace_string.py:13 | replacing the pattern by a fresh character and back gives the input back |
| Sorting.BelowTotal | source/gltf_materialx_converter/utilities.py:201-202 | Python's string order is total |
| Sorting.BelowAntisymmetric | source/gltf_materialx_converter/utilities.py:201-202 | Python's string order is antisymmetric |
| Sorting.BelowTransitive | source/gltf_materialx_converter/utilities.py:201-202 | Python's string order is transitive |
| Sorting.InsertPermutes | source/gltf_materialx_converter/utilities.py:201-202 | insertion adds exactly one copy of the element |
| Sorting.InsertSorted | source/gltf_materialx_converter/utilities.py:201-202 | insertion into an ordered list keeps it ordered |
| Sorting.SortSpec | source/gltf_materialx_converter/utilities.py:201-202 | `sort()` returns an ordered permutation of its input |
| Sorting.SortedHeads | source/gltf_materialx_converter/utilities.py:203 | two ordered lists with the same elements have the same head |
| Sorting.SameTails | source/gltf_materialx_converter/utilities.py:203 | lists with the same elements and the same head have tails with the same elements |
| Sorting.SortedUnique | source/gltf_materialx_converter/utilities.py:203 | an ordered permutation is unique |
| Sorting.SortSameIff | source/gltf_materialx_converter/utilities.py:199-203 | two name lists sort to the same list exactly when they hold the same names the same number of times |

## Left out

- The MaterialX library wrappers (`loadStandardLibraries`, `createWorkingDocument`, `importLibraries`, `readMaterialXDocument`, `materialXDocToString`, `validateDocument`) and `MTlxShadingModelTranslator.translate`: they are foreign calls whose behaviour the model cannot see.
- `loadJsonFile` and the file read and write of `replace_string_in_file`: file I/O. The content comes in as a string, and the model returns the path and content to write.
- `os.walk` in `getFiles`: the directory walk is a parameter, given as the list of visited directories with their file names, in walk order.
- `os.path.join` is modelled for POSIX paths only (a name starting with `/` replaces the directory).
- `lower()` is modelled for ASCII letters only. Other characters are kept as they are, so Unicode case mapping is not modelled.
- `str.isspace()` is modelled as the fixed set of white-space code points Python recognises. The model does not consult the Unicode database.
- `isA(mx.ValueElement)` is decided by MaterialX's class hierarchy. The model takes the set of value-element categories as a parameter (`valueCategories`). The value string and the type are read as the `value` and `type` attributes.
- `traverseTree()` together with in-place `setValueString` is modelled on values. `DocumentNormalize.NormalizeTree` returns the new tree, so aliasing between elements is not modelled. The in-place update is modelled separately as a loop over an array of records (`ValueRecords.NormalizeValueStrings`).
- Attributes are a list with first-match lookup (`getAttribute`), and the model does not require names to be distinct. The order-independence lemmas ask for distinct attribute names, as MaterialX guarantees.
- `getChild` returns the first child of the name. Reflexivity, symmetry and right-hand order independence ask for distinct sibling names (`ElementLaws.WellFormed`), as MaterialX guarantees.
- The text of the error messages is not modelled, including the tuples that the attribute-count and child-count branches assign. The error is the failure kind `Elements.Mismatch`.
- `MtlxDocumentCompare.GetError` is a plain read of the `error` field and carries no contract.
- `sort()` on a list is modelled as a function (`Sorting.Sort`, insertion sort) applied to the collected list. The sort is not modelled in place.
- ValueStringLaws.NormalizedIdempotent: is proved when every token is free of inner white space and has at most one point; `NotIdempotent` shows that neither condition can simply be dropped.
- The logging, the `print` calls, the command-line scripts (argparse, `sys.exit`, subprocesses), `md2html.py` (whose three fence replacements are those of `replace_string.py`), `mxequivalent.py`, the test and build scripts, `converter.py`, and the browser script `mermaid_header.js` are not part of this model.
- The glTF and MaterialX export and import engine is not part of this model.
