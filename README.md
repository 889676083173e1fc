# Witness rendering and comparison for TEI transcriptions, in Dafny

This project models the part of the collens viewer that prepares witnesses of
a TEI-encoded manuscript. Each witness is one directory of page images plus
an XML transcription. The viewer does four things with them:

- It renders the transcription at one stage of its revision, selected by the
  witness type: 1a is the original before any edit, 1c the final text, and
  1b the state after the top-level revisions only.
- It reads the hierarchy of the `teiHeader`.
- It counts the editorial mark-up.
- It compares the cleaned witness texts by Levenshtein distance.

Around these sit helpers for page numbers, labels, witness types and the
store that groups a document's files into witnesses.

The XML tree is a value, `Dom.Node`. Every element carries an `id` that
stands for its object identity in the DOM. The renderer collects references
to `add` and `del` elements before it edits the tree, so a reference whose
element has already been detached changes nothing. The model follows
references by id and loads a tree with distinct preorder ids (`Dom.NumberF`,
`Dom.NumberUnique`).

The XML parser is a function parameter `parse: string -> Option<Node>`:
- `None` means the parser threw.
- Otherwise the result is the document element.
- A `parsererror` element anywhere in it means a parse error, as the code
  checks with `querySelector('parsererror')`.

The revision passes of `processEdits` are loops over the collected ids. Each
step is `EditResolution.ResolveAt`, the value-level counterpart of the DOM
calls `insertBefore` and `removeChild`. Each loop is proved equal to a
recursive definition of the finished pass:
- `Resolved(Revert, ·)` for 1a;
- `ResolveTopLevel` for 1b;
- `Resolved(Apply, ·)` for 1c.

The unwrapping of `subst` elements is the source's `while` loop over "the
first `subst` in document order" (`SubstUnwrap.UnwrapFirst`). It is proved
equal to the recursive `SubstUnwrap.Unwrapped`.

The object the store updates in place is `WitnessesStore.WitnessStore`, a
class whose `witnesses` field its methods reassign. The Levenshtein table
and the difference matrix are `array2`s filled by nested loops, as in the
source.

## Where the code and its description disagree (the model follows the code)

- Witness 1b: the doc comment of `parseTEIXML`
  (src/lib/utils/witness/xml-parser.ts:141-142) says 1b applies edits up to
  nesting level 2, and the test comment at tests/utils/xml-parser.test.ts:163
  expects the outer edit (level 1) and the inner edit (level 2) of
  `<p>This is <add>outer <del>nested</del> addition</add> text.</p>` to be
  applied. The code applies only the top-level edits. The nested deletion is
  never resolved and still prints in square brackets:
  `<p>This is outer [nested] addition text.</p>`
  (`XmlParser.NestedDeletionSurvivesIntermediate`).
- A witness type other than "1a", "1b" and "1c" resolves no revision at all,
  so additions print as `{…}` and deletions as `[…]`. It does not fall back
  to the final text (`XmlParser.UnknownTypeResolvesNothing`).

Two behaviours of the code worth knowing:
- A page break or page `div` numbered "1" prints `[Page 1]` and a line break
  with no newline before it. Other numbers get a blank line first.
- A `metamark` prints its own content (so its ₰) where it stands, and the
  `note` after it prints a second `₰ ` inside its parentheses.

## Model

| member | source | states |
|---|---|---|
| EditMarkers.NestingDepth | src/lib/utils/witness/xml-parser.ts:20-26 | the nesting depth of an element is at least 1 |
| EditMarkers.DeepestChild | src/lib/utils/witness/xml-parser.ts:24-25 | the maximum over the element children of 1 + their depth is at least each of them and equal to one of them (0 without element children) |
| EditMarkers.NestingDepthIsMax | src/lib/utils/witness/xml-parser.ts:20-26 | an element with no element children has depth 1; otherwise its depth is 1 + the depth of some element child and at least 1 + the depth of every element child |
| EditMarkers.FilterChildEdits | src/lib/utils/witness/xml-parser.ts:40-46 | the result is a subsequence of the edits, in their order, and an edit is in it exactly when no other edit of the list contains it |
| EditMarkers.AllEditsMembers | src/lib/utils/witness/xml-parser.ts:178-180 | the collected edits are exactly the `add` and `del` elements occurring in the document |
| EditMarkers.AllEditsIds | src/lib/utils/witness/xml-parser.ts:178-180 | the ids of the collected edits are exactly the document's edit ids |
| EditMarkers.FilterKeepsTopLevel | src/lib/utils/witness/xml-parser.ts:178-181 | in a document with distinct ids, filtering the collected edits keeps exactly the edits not nested in another edit |
| EditMarkers.TopNestedDisjoint | src/lib/utils/witness/xml-parser.ts:40-46 | with distinct ids no edit is both top-level and nested |
| SubstUnwrap.UnwrapSubstitutions | src/lib/utils/witness/xml-parser.ts:184-192 | the loop that moves the first `subst`'s children before it and removes it, until none is left, returns `Unwrapped(doc)` |
| SubstUnwrap.UnwrapFirstStep | src/lib/utils/witness/xml-parser.ts:185-191 | one unwrap step removes exactly one `subst` and does not change the fully unwrapped document, so the loop terminates with the same result in any state |
| SubstUnwrap.UnwrappedHasNoSubst | src/lib/utils/witness/xml-parser.ts:185 | no `subst` is left once the loop ends |
| SubstUnwrap.UnwrappedIdempotent | src/lib/utils/witness/xml-parser.ts:184-192 | unwrapping twice is unwrapping once |
| SubstUnwrap.UnwrappedKeepsText | src/lib/utils/witness/xml-parser.ts:188-191 | unwrapping keeps the document's text content |
| SubstUnwrap.UnwrappedKeepsEdits | src/lib/utils/witness/xml-parser.ts:184-192 | unwrapping keeps every edit and every top-level edit and keeps ids distinct |
| EditResolution.Mark | src/lib/utils/witness/xml-parser.ts:202 | marking sets `data-instant="true"` and keeps the tag, the children and every other attribute |
| EditResolution.Decide | src/lib/utils/witness/xml-parser.ts:195-255 | an edit is kept and marked exactly when the pass is 1a and the edit has `instant="true"` |
| EditResolution.ResolveAtAbsent | src/lib/utils/witness/xml-parser.ts:197-214 | resolving an id no longer in the document (a detached reference) changes nothing |
| EditResolution.ResolvedStep | src/lib/utils/witness/xml-parser.ts:197-254 | in 1a and 1c, resolving any one edit first does not change the finished pass |
| EditResolution.StepSettles | src/lib/utils/witness/xml-parser.ts:197-254 | after its step an edit is no longer pending |
| EditResolution.ResolvedSettles | src/lib/utils/witness/xml-parser.ts:195-255 | after 1a or 1c no edit is left pending |
| EditResolution.ResolvedIdempotent | src/lib/utils/witness/xml-parser.ts:195-255 | running 1a or 1c twice is running it once |
| EditResolution.ApplyLeavesNoEdits | src/lib/utils/witness/xml-parser.ts:243-255 | after 1c the document holds no `add` or `del` |
| EditResolution.ResolveEach | src/lib/utils/witness/xml-parser.ts:197-214 | the loop over the collected edits, run for 1a or 1c, returns the finished pass `Resolved(p, doc)` |
| EditResolution.ApplyTopLevelEdits | src/lib/utils/witness/xml-parser.ts:217-242 | the loop over the top-level edits (applied when instant or of depth at most 2, reverted otherwise) returns `ResolveTopLevel(doc)` |
| EditResolution.TopLevelStep | src/lib/utils/witness/xml-parser.ts:217-242 | one top-level step keeps ids distinct and the remaining top-level edits unnested, and leaves the outcome unchanged |
| EditResolution.TopLevelLeavesNested | src/lib/utils/witness/xml-parser.ts:215-242 | after 1b the only edits left are ones that were nested in another edit |
| EditResolution.ShallowTopLevelIsApply | src/lib/utils/witness/xml-parser.ts:215-255 | when no edit lies inside another and every edit is instant or at most two levels deep, 1b gives the same document as 1c |
| EditResolution.RevertIsApplyOfSwapped | src/lib/utils/witness/xml-parser.ts:195-255 | without instant edits, 1a is 1c on the document with `add` and `del` exchanged |
| Serializer.PageHeading | src/lib/utils/witness/xml-parser.ts:117-120 | page "1" gets `[Page 1]` and a line break, any other number a blank line before it |
| Serializer.LastElement | src/lib/utils/witness/xml-parser.ts:104 | the previous element sibling is absent exactly when only text precedes, and otherwise is an element among the preceding siblings |
| Serializer.LastElementIsLast | src/lib/utils/witness/xml-parser.ts:104 | only text nodes follow the previous element sibling |
| Serializer.PageNumber | src/lib/utils/witness/xml-parser.ts:80-82 | a page number is present exactly when `n` is set and not empty |
| Serializer.ProcessNode | src/lib/utils/witness/xml-parser.ts:67-131 | the loop over the children returns `Render(node.children, 0)` |
| Serializer.ProcessChild | src/lib/utils/witness/xml-parser.ts:70-126 | the text one child adds is `RenderNode(child, prev)` |
| Serializer.ProcessMarkup | src/lib/utils/witness/xml-parser.ts:88-125 | the text an element child other than `lb`, `pb`, `div` or `note` adds (edit marks, brackets, `<p>` or its bare content) is `RenderNode(child, prev)` |
| Serializer.PlainKeepsText | src/lib/utils/witness/xml-parser.ts:70-126 | without editorial elements, the printed text has the same non-space characters as the text content |
| Serializer.PageBreakForms | src/lib/utils/witness/xml-parser.ts:117-120 | `pb n="1"` prints `[Page 1]\n`, `pb n="2"` prints `\n\n[Page 2]\n`, a `pb` without number prints `\n[Page Break]\n` |
| Serializer.ElementForms | src/lib/utils/witness/xml-parser.ts:88-125 | the bracket each editorial element puts around its content, with and without `data-instant`, and that other elements print only their content |
| Serializer.NoteForm | src/lib/utils/witness/xml-parser.ts:102-111 | a note prints `((…))`, with `₰ ` inside exactly when it follows a metamark holding ₰ |
| Serializer.NoteAfterMetamark | src/lib/utils/witness/xml-parser.ts:102-111 | text between the metamark and the note does not matter, and the metamark prints its own content |
| Serializer.DivForm | src/lib/utils/witness/xml-parser.ts:79-87 | a page `div` with a number prints the page heading before its content, any other `div` only its content |
| XmlParser.PassOf | src/lib/utils/witness/xml-parser.ts:195-255 | "1a" selects reverting, "1b" the top-level pass and "1c" applying, each if and only if |
| XmlParser.ProcessEdits | src/lib/utils/witness/xml-parser.ts:177-256 | `processEdits` returns the unwrapped document with the selected pass applied |
| XmlParser.ParseTEIXML | src/lib/utils/witness/xml-parser.ts:163-273 | the renderer returns `RenderWitness(xml, witnessType, parse)` |
| XmlParser.RenderWitnessFallbacks | src/lib/utils/witness/xml-parser.ts:163-273 | empty input gives ""; a parser exception, a `parsererror`, a consumed document element or a missing `body` give the input back |
| XmlParser.UnknownTypeResolvesNothing | src/lib/utils/witness/xml-parser.ts:195-255 | an unknown witness type leaves the unwrapped document and all its edits as they are |
| XmlParser.InstantKeptInOriginal | src/lib/utils/witness/xml-parser.ts:197-202 | in 1a an instant `add` or `del` stays, is marked and prints as `<add-instant>…</add-instant>` or `<del-instant>…</del-instant>` |
| XmlParser.SameWitnessWithoutEdits | src/lib/utils/witness/xml-parser.ts:177-268 | without `add` and `del`, every witness type prints the same body |
| XmlParser.SameWitnessForShallowEdits | src/lib/utils/witness/xml-parser.ts:215-255 | when, after `subst` unwrapping, no edit lies inside another and every edit is instant or at most two levels deep, 1b prints as 1c |
| XmlParser.RenderWitnessWithoutEdits | src/lib/utils/witness/xml-parser.ts:163-273 | a transcription without edits renders the same for every witness type |
| XmlParser.NestedDeletionSurvivesIntermediate | src/lib/utils/witness/xml-parser.ts:215-242 | `<p>a<add>b<del>n</del>c</add>d</p>` has depth 2 and prints in 1b as `<p>abc[n]d</p>` with collapsed spaces: the nested deletion stays |
| HeaderParser.ProcessHeaderNode | src/lib/utils/witness/header-parser.ts:78-93 | the loop over the element children returns `Entries(node.children, level)` |
| HeaderParser.EntriesShape | src/lib/utils/witness/header-parser.ts:78-93 | entries sit at their level and their children one level deeper, and there is one entry per element of the subtree |
| HeaderParser.EntryOfShape | src/lib/utils/witness/header-parser.ts:81-89 | a text node gives no entry; an element gives one with its formatted tag name, its direct text, its level and the entries of its children one level down |
| HeaderParser.ParseTEIHeader | src/lib/utils/witness/header-parser.ts:52-134 | `parseTEIHeader` returns `HeaderOf(xml, parse)` |
| HeaderParser.HeaderShape | src/lib/utils/witness/header-parser.ts:52-134 | the header's entries start at level 0, with their children one level deeper, and there is one entry per element inside the `teiHeader` |
| TagNames.FormatTagNameReadable | src/lib/utils/witness/header-parser.ts:102-109 | a tag name without spaces formats as its first letter upper-cased, each interior capital preceded by two spaces |
| TagNames.FormatTagNameLowerCase | src/lib/utils/witness/header-parser.ts:102-109 | a lower-case tag name formats as itself with its first letter upper-cased |
| TagNames.DirectTextIsJoin | src/lib/utils/witness/header-parser.ts:118-126 | the direct text is the trimmed non-empty texts of the text children joined by one space |
| TagNames.ContentIgnoresChildElements | src/lib/utils/witness/header-parser.ts:118-126 | replacing an element child by another element does not change the direct text |
| TagNames.JoinEnds | src/lib/utils/witness/header-parser.ts:124-125 | joining trimmed non-empty pieces gives a string with no space at either end, so the final `trim` changes nothing |
| StatsUtils.DocumentStats | src/lib/utils/witness/stats-utils.ts:64-67 | the four counts are the number of `add`, `del`, `subst` and `transpose` elements at any depth |
| StatsUtils.GetWitnessStats | src/lib/utils/witness/stats-utils.ts:50-79 | empty input, a parser exception or a parse error give zeros; otherwise the counts of the document |
| StatsUtils.StatsConcat | src/lib/utils/witness/stats-utils.ts:64-67 | the counts of two forests add up |
| StatsUtils.StatsOfElement | src/lib/utils/witness/stats-utils.ts:64-67 | an element's counts are its own tag's plus its children's |
| StatsUtils.CountBelow | src/lib/utils/witness/stats-utils.ts:64-67 | the document's count is at least the count inside any of its elements |
| StatsUtils.ZeroWithoutMarkup | src/lib/utils/witness/stats-utils.ts:64-67 | a document without the four tags counts zero |
| TextCleaner.TagLength | src/lib/utils/witness/text-cleaner.ts:10 | a tag match is `<`, at least one character other than `>`, then `>`; none when the string has no such prefix |
| TextCleaner.StripTagsLeavesNoTag | src/lib/utils/witness/text-cleaner.ts:10 | after removing tags no tag match is left anywhere |
| TextCleaner.StripTagsFixed | src/lib/utils/witness/text-cleaner.ts:10 | a string with no tag match is unchanged |
| TextCleaner.StripTagsIdempotent | src/lib/utils/witness/text-cleaner.ts:10 | removing tags twice is removing them once |
| TextCleaner.MarkerLength | src/lib/utils/witness/text-cleaner.ts:12 | a page marker is `[Page `, one or more digits and `]` |
| TextCleaner.MarkerRemoved | src/lib/utils/witness/text-cleaner.ts:12 | `[Page N]` with digits N is removed |
| TextCleaner.PageBreakKept | src/lib/utils/witness/text-cleaner.ts:12 | `[Page Break]` is not a page marker: it stays, whatever follows it, and only the text after it is stripped |
| TextCleaner.NoBracketPrefix | src/lib/utils/witness/text-cleaner.ts:12 | a stretch without `[` passes through marker removal unchanged |
| TextCleaner.StripPageMarkersFixed | src/lib/utils/witness/text-cleaner.ts:12 | text without a page marker is left alone |
| TextCleaner.CleanIsNormalized | src/lib/utils/witness/text-cleaner.ts:7-16 | the cleaned text has only single spaces between words and none at either end |
| TextCleaner.CleanKeepsWords | src/lib/utils/witness/text-cleaner.ts:7-16 | cleaning keeps every non-space character left after removing tags and page markers |
| TextCleaner.CleanFixed | src/lib/utils/witness/text-cleaner.ts:7-16 | normalized text with no tag and no page marker (bracketed deletions and `[Page Break]` allowed) is its own cleaned form |
| FileUtils.LastIndexOf | src/lib/utils/witness/file-utils.ts:35 | the index found holds the character and no later index does |
| FileUtils.DashNumberLeftmost | src/lib/utils/witness/file-utils.ts:36 | a match is taken at the leftmost position where a dash, digits, an optional `r` and a dot match |
| FileUtils.DashNumberNone | src/lib/utils/witness/file-utils.ts:36 | no match exactly when no position from the start on matches |
| FileUtils.FirstDigits | src/lib/utils/witness/file-utils.ts:37 | the first run of digits, none exactly when the name holds no digit |
| FileUtils.Pad | src/lib/utils/witness/file-utils.ts:44-45 | a single digit gets a leading zero, longer numbers are kept |
| FileUtils.GetPageNumber | src/lib/utils/witness/file-utils.ts:32-49 | the loop over the three patterns returns `PageNumberOf(file.name, Patterns)` |
| FileUtils.PageNumberCases | src/lib/utils/witness/file-utils.ts:34-48 | the first matching pattern decides, in order image suffix, dash number, any digits, and "" when none matches |
| FileUtils.PageNumberForm | src/lib/utils/witness/file-utils.ts:32-49 | the page number is "" or all digits, at least two of them |
| FileUtils.PadDigits | src/lib/utils/witness/file-utils.ts:44-45 | padding keeps a number all digits and at least two long |
| FileUtils.SuffixNumberOf | src/lib/utils/witness/file-utils.ts:35 | a name ending in digits, a dot and an accepted extension captures exactly the whole digit run |
| FileUtils.ImageNamePage | src/lib/utils/witness/file-utils.ts:35 | a name ending in digits and an image extension, in any case, gives those digits padded |
| LabelUtils.LabelOfWitnessId | src/lib/utils/witness/label-utils.ts:26-32 | `witness_N` is labelled `WN` |
| LabelUtils.LabelOfOtherId | src/lib/utils/witness/label-utils.ts:26-32 | an id without `witness_` is labelled `W` followed by the id |
| LabelUtils.GetWitnessType | src/lib/utils/witness/label-utils.ts:52-55 | "MS" if and only if some path contains `ms-`; "TS" if and only if none does and some contains `ts-`; "" otherwise |
| LabelUtils.TypeMonotone | src/lib/utils/witness/label-utils.ts:52-55 | adding files never turns MS into anything else, nor TS into "" |
| DiffCalculator.Min3 | src/lib/utils/witness/diff-calculator.ts:29-33 | the minimum is at most each argument and equal to one of them |
| DiffCalculator.LevenshteinDistance | src/lib/utils/witness/diff-calculator.ts:11-39 | the dynamic programme over the `(m+1)×(n+1)` table returns the edit distance `Distance(str1, str2)` |
| DiffCalculator.FillRow | src/lib/utils/witness/diff-calculator.ts:25-35 | one row of the table is filled with the edit distances of the prefixes |
| DiffCalculator.DistanceToEmpty | src/lib/utils/witness/diff-calculator.ts:16-22 | the distance to the empty string is the length |
| DiffCalculator.DistanceProperties | src/lib/utils/witness/diff-calculator.ts:11-39 | the distance is 0 exactly for equal strings, symmetric, at most the longer length and at least the difference of lengths |
| DiffCalculator.CalculateSimilarity | src/lib/utils/witness/diff-calculator.ts:45-55 | returns `Similarity(text1, text2)` |
| DiffCalculator.SimilarityRange | src/lib/utils/witness/diff-calculator.ts:45-55 | the similarity lies in [0, 1], is 1 exactly for equal texts, is 0 when exactly one is empty, and is symmetric |
| DiffCalculator.CreateDifferenceMatrix | src/lib/utils/witness/diff-calculator.ts:109-122 | a fresh n×n matrix with 0 on the diagonal, the percentage of `segments[i]` against `segments[j]` above it, mirrored below |
| DiffCalculator.MatrixSymmetric | src/lib/utils/witness/diff-calculator.ts:113-119 | the matrix is symmetric with a zero diagonal |
| DiffCalculator.ColorOfBand | src/lib/utils/witness/diff-calculator.ts:69-86 | the colour is the band's entry of a palette of five distinct colours |
| DiffCalculator.BandMonotone | src/lib/utils/witness/diff-calculator.ts:80-86 | a larger non-negative percentage never gets an earlier band |
| WitnessesStore.ImagesOfMembers | src/lib/stores/witnesses.store.ts:55-58 | the image files are exactly the files whose type is one of the five image types |
| WitnessesStore.GetImageFiles | src/lib/stores/witnesses.store.ts:67-69 | a folder without files gives none; otherwise exactly the image files |
| WitnessesStore.ImagesOfConcat | src/lib/stores/witnesses.store.ts:67-69 | filtering distributes over concatenation, so it keeps the files' order |
| WitnessesStore.ImagesOfIdempotent | src/lib/stores/witnesses.store.ts:67-69 | filtering twice is filtering once |
| WitnessesStore.DirName | src/lib/stores/witnesses.store.ts:94 | the first directory name is the prefix of the path before its first `/` |
| WitnessesStore.GroupFiles | src/lib/stores/witnesses.store.ts:90-100 | the grouping loop keys exactly the directories, in first-seen order, each with its files in order |
| WitnessesStore.AddFile | src/lib/stores/witnesses.store.ts:90-99 | adding one file keeps the grouping exact: directories in first-seen order, each keyed with its files in order |
| WitnessesStore.GroupedStep | src/lib/stores/witnesses.store.ts:90-99 | the one-file update of the map and the order extends an exact grouping of a prefix to the next prefix |
| WitnessesStore.DirsDistinct | src/lib/stores/witnesses.store.ts:90-100 | no directory is listed twice |
| WitnessesStore.Partition | src/lib/stores/witnesses.store.ts:90-100 | every file inside a directory lands in its directory's group, no group holds a file of another directory, and no group is empty |
| WitnessesStore.Title | src/lib/stores/witnesses.store.ts:108-116 | "MS Version" when some path contains `ms-`, else "TS Version" when some contains `ts-`, else the directory name |
| WitnessesStore.MakeWitnessFields | src/lib/stores/witnesses.store.ts:108-136 | the folder's id, files, title and empty description, the first image file as selection (none without images), enabled, and the counts of the loaded XML or zeros without it |
| WitnessesStore.FirstImage | src/lib/stores/witnesses.store.ts:119-121 | the selected file is the first image file |
| WitnessesStore.GetWitnessesFromDocument | src/lib/stores/witnesses.store.ts:85-142 | one witness per directory, each built from its directory's group |
| WitnessesStore.LoadWitnesses | src/lib/stores/witnesses.store.ts:103-138 | the loop builds one witness per listed directory, in order, each from its directory's group |
| WitnessesStore.LoadWitness | src/lib/stores/witnesses.store.ts:106-136 | one directory's witness is built from exactly that directory's files |
| WitnessesStore.GroupWitnessesAt | src/lib/stores/witnesses.store.ts:103-138 | the i-th witness is the witness of the i-th directory |
| WitnessesStore.FindIndex | src/lib/stores/witnesses.store.ts:153 | the index found is the first witness with that id; none exactly when no witness has it |
| WitnessesStore.ToggledSpec | src/lib/stores/witnesses.store.ts:167-175 | toggling flips `enabled` of the first witness with that id and changes nothing else |
| WitnessesStore.ToggleTwice | src/lib/stores/witnesses.store.ts:167-175 | toggling twice restores the list |
| WitnessesStore.WithFileSpec | src/lib/stores/witnesses.store.ts:151-159 | updating sets the selected file of the first witness with that id only, and doing it twice is doing it once |
| WitnessesStore.WitnessStore.UpdateWitnessFile | src/lib/stores/witnesses.store.ts:151-159 | the store's list becomes `WithFile` of the old list |
| WitnessesStore.WitnessStore.ToggleWitness | src/lib/stores/witnesses.store.ts:167-175 | the store's list becomes `Toggled` of the old list |
| WitnessesStore.WitnessStore.Load | src/lib/stores/witnesses.store.ts:85-142 | the store holds exactly the witnesses built: the i-th is the witness of the i-th directory, built from its group, and all are enabled |
| WitnessUtils.GetWitnessLabel | src/lib/utils/witness-utils.ts:3-5 | the label is `W` followed by the whole id |
| WitnessUtils.GetPageNumber | src/lib/utils/witness-utils.ts:7-10 | the page number is "" or digits |
| WitnessUtils.PngPage | src/lib/utils/witness-utils.ts:7-10 | a name ending in digits and `.png` gives those digits, unpadded |
| WitnessUtils.PngPageOnly | src/lib/utils/witness-utils.ts:7-10 | conversely, a non-empty page number is the whole digit run just before a final lower-case `.png` (case-sensitive: `p1.PNG` and `p.png` give "") |
| WitnessUtils.ProcessNode | src/lib/utils/witness-utils.ts:58-96 | the loop over the children returns `Print(node.children, 0)` |
| WitnessUtils.MarkerForms | src/lib/utils/witness-utils.ts:68-88 | `pb` prints `\n[Page Break]\n`, `add` `{…}` and `del` `[…]` whatever their attributes |
| WitnessUtils.UnmarkedIsTextContent | src/lib/utils/witness-utils.ts:58-96 | without marker elements the printed text is the text content, verbatim |
| WitnessUtils.ParseTEIXML | src/lib/utils/witness-utils.ts:28-56 | the renderer returns `RenderWitness(xml, showParsedText, parse)` |
| WitnessUtils.Fallbacks | src/lib/utils/witness-utils.ts:28-56 | empty input gives ""; no parsing requested, a parser exception, a parse error or no `body` give the input back |
| WitnessUtils.PageNumbersAgree | src/lib/utils/witness-utils.ts:7-10 | where this helper finds a page number, the other `getPageNumber` finds the same one, padded |
| WitnessUtils.LabelsAgree | src/lib/utils/witness-utils.ts:3-5 | the two label helpers agree exactly on ids without `witness_` |
| Dom.FindFirst | src/lib/utils/witness/xml-parser.ts:262 | `querySelector(tag)` is the first element with that tag in document order |
| Dom.ElementsByTagMembers | src/lib/utils/witness/stats-utils.ts:64-67 | `getElementsByTagName` lists exactly the elements with that tag |
| Dom.ElementsByTagLength | src/lib/utils/witness/stats-utils.ts:64-67 | its length is the tag's count |
| Dom.NumberUnique | src/lib/utils/witness/xml-parser.ts:167-168 | loading gives distinct element ids and changes nothing but the ids |
| JsString.CollapseSpacesForm | src/lib/utils/witness/xml-parser.ts:73 | the collapsed text has no whitespace but single spaces, keeps the other characters in order, and starts with a space exactly when the input starts with whitespace |
| JsString.CollapseRun | src/lib/utils/witness/text-cleaner.ts:14 | a whitespace run between two non-space stretches becomes exactly one space, and each side collapses on its own, so words stay separated |
| JsString.IndexOf | src/lib/utils/witness/label-utils.ts:28 | the first position where the pattern matches, none exactly when it matches nowhere |

## Left out

- The browser's `DOMParser` is a parameter (`parse`). Namespaces, comments,
  CDATA sections, processing instructions and attribute order are not
  modelled: a tree is text nodes and elements with a name, an attribute map
  and children.
- A parse error is the presence of a `parsererror` element, as the code
  tests it. How a real parser reports errors is not modelled.
- When the document element itself is a `subst`, or an edit the selected
  pass consumes, the DOM throws or the document loses its element. The
  model checks for that case (`XmlParser.RootConsumed`) and gives back the
  input, which is the outcome either way. The DOM exception itself is not
  modelled.
- Console logging (`console.error`, `console.warn`) is left out: it has no
  effect on results.
- `loadXMLContent` (the `fetch` of a data URL) is a function parameter of
  `WitnessesStore.GetWitnessesFromDocument`. `Promise.all`, `async` and the
  svelte `writable` store are modelled as a sequential loop and a class
  field.
- `WitnessesStore.GetWitnessesFromDocument`: the groups come out in
  first-seen order. The source sorts them with `localeCompare`, whose order
  depends on the host's locale collation, so that sort is not modelled.
- `WitnessesStore.WitnessStore.Load`: it calls `GetWitnessesFromDocument`,
  so the witnesses it stores are in the same first-seen order, not sorted
  with `localeCompare`.
- `calculateDifferencePercentage` is passed to
  `DiffCalculator.CreateDifferenceMatrix` as a parameter `percent`. Its
  `Math.round` on a floating-point value is not modelled.
- `DiffCalculator.CalculateSimilarity` computes with exact `real`s, where
  the source uses IEEE-754 doubles. Rounding differences are not modelled.
- `getDifferenceColorWithOpacity` is left out: it is hex-to-rgba string
  formatting of a floating-point opacity.
- `findOutlierWitnesses` and `prepareHeatmapData` are left out. They are
  statistics over floating-point values for display, outside the witness
  pipeline.
- Case mapping (`toLowerCase`, `toUpperCase`) is modelled for ASCII
  letters only. The `i` flag of the page-number patterns likewise folds
  ASCII letters only.
- JavaScript strings are sequences of UTF-16 code units. The model's
  strings are sequences of Dafny `char`s, so lengths can differ for
  characters outside the Basic Multilingual Plane.
- The `witnessType` parameter's default value "1c" is not modelled: every
  call names its witness type.
- The `showParsedText = true` default of `parseTEIXML` in
  `witness-utils.ts` is not modelled: `WitnessUtils.ParseTEIXML` takes
  `showParsedText` as an explicit parameter.
- The IndexedDB store, the documents store, the chat and model API routes
  and the page components are outside this model.
