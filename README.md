# CodePointMapping in Dafny

A model of `CodePointMapping` from the TypeScript package `code-point-mapping`
(`src/index.ts`). The mapping keeps an editable text's offsets in two units at
once: UTF-16 code units, which JavaScript strings count, and Unicode code
points. It stores no characters. It keeps a singly-linked list of runs, where
each run is `count` consecutive code points that are all `width` units wide:
1 for a unit of the Basic Multilingual Plane, 2 for a surrogate pair. Three
helpers change the list in place:

- `append` pushes the code points of a string onto a node. It grows the node
  while the width agrees and links a new node otherwise. It rejects a lone
  surrogate.
- `split` walks to a unit offset. It cuts the run there in two and returns
  the code point offset.
- `graft` relinks a node to the rest of the list. It skips empty runs and
  merges a run of the same width into the node.

The public operations are built from these helpers. `insertAt` and `deleteAt`
keep the list in step with an edit of the text and translate the offsets of
the edit. `indexOfCodepoint` translates a code point offset back to units.

## Layout

- `outcomes.dfy` (`Outcomes`): the four errors the source throws, and a
  `Result` type.
- `offsets.dfy` (`Offsets`): a text seen as the sequence of its code point
  widths. `CpOffset` is the reference meaning of a unit offset: the number of
  code points it covers, or why it is not a code point boundary. `Units` of a
  prefix is the converse direction.
- `utf16.dfy` (`Utf16`): code units, and `Decode`, the split of a text into
  code points that JavaScript's string iterator performs. `Widths` gives the
  width of each code point.
- `runs.dfy` (`Runs`): run lists as values. `Expand` gives the widths that
  runs describe. The module also has reference definitions of what each
  helper does to the runs (`Cut`, `Push`/`Extend`, `DropEmpty`/`Splice`,
  `Encode`) and the lemmas about them: what each preserves, and the
  minimality invariant.
- `arena.dfy` (`Arena`): the linked list as an arena of nodes, addressed by
  index. `View` reads the runs along a chain of addresses. The module also
  has the arena updates that `split`, `append` and `graft` make, and lemmas
  that tie each update to its effect on the runs.
- `mapping.dfy` (`CodePointMappings`): the class `CodePointMapping`. Its
  fields are the arena `nodes` and the head address `head`. A ghost `chain`
  holds the addresses reachable from the head. The methods are the source's
  functions, with the same loops and in-place updates. Each is proved
  against the reference functions.

The model's abstraction of a mapping is `Content()`, the widths of the code
points of the text it describes. Its representation is `Spans()`, the list's
runs as `[width, count]` pairs, which is what the source's tests inspect.

## Model

| member | source | states |
|---|---|---|
| CodePointMappings.CodePointMapping.Init | src/index.ts:76 | the mapping starts as one head node of width 1 holding no code point |
| CodePointMappings.CodePointMapping.Create | src/index.ts:75-78 | construction succeeds exactly when the text has no lone surrogate, and fails with "unpaired surrogate" otherwise; on success the runs are `Encode` of the text's code point widths, which are minimal and describe the text (`EncodeSound`) |
| CodePointMappings.CodePointMapping.Append | src/index.ts:8-24 | `append` succeeds exactly when the text is well formed and fails with "unpaired surrogate" otherwise; on success the nodes from `n` to the returned node hold `n`'s old run extended by the text's code point widths; other nodes are untouched, and the new nodes form one segment from `n` |
| CodePointMappings.CodePointMapping.AppendPoints | src/index.ts:9-22 | the loop over the code points stops with an error exactly when some code point is a lone surrogate; otherwise the segment from `n` holds `n`'s run extended by every code point's width, and the last node is returned |
| CodePointMappings.CodePointMapping.Grow | src/index.ts:17-21 | one code point of width `w` grows the current node when widths agree and otherwise links a fresh node of count 1; on runs this is `Push` |
| CodePointMappings.CodePointMapping.Split | src/index.ts:38-62 | `split` returns what the run walk `Walk` gives: "beyond end", "in middle of surrogate", or the code point offset; on an error nothing changes; on success the node holding the offset is cut in two, a new node is linked after it, and the runs become `Cut` of the old runs, so the text is unchanged (`CutExpand`) |
| CodePointMappings.CodePointMapping.Skip | src/index.ts:39-47 | the walk passes whole runs that hold fewer units than remain, counting their code points, and stops at the end of the list or at the run that holds the offset; the remaining walk from there gives the same answer |
| CodePointMappings.CodePointMapping.CutAt | src/index.ts:53-58 | the node keeps its first `q` code points and a new node with the rest, the same width and the old link follows it; the runs are `Cut` of the old runs |
| CodePointMappings.CodePointMapping.Graft | src/index.ts:26-36 | after `graft` the list is well formed and its runs are the runs of the segment up to `n` with the rest spliced on: empty runs are dropped and a first run of the same width is merged (`Splice`) |
| CodePointMappings.CodePointMapping.SkipEmpty | src/index.ts:27-29 | the loop stops at the first non-empty node of the rest; the runs from there are exactly the rest without its leading empty runs |
| CodePointMappings.CodePointMapping.Relink | src/index.ts:30-35 | the node absorbs the count and the link of the next node when both have the same width, and links to it otherwise (`GraftArena`) |
| CodePointMappings.CodePointMapping.InsertAt | src/index.ts:95-101 | an offset that is not a code point boundary gives the same error as `CpOffset` and changes nothing; a lone surrogate in the text gives "unpaired surrogate"; otherwise it returns the code point offset `k` and the text's code points, and the content becomes the old content's first `k` widths, then the text's widths, then the rest; minimal runs stay minimal |
| CodePointMappings.CodePointMapping.Fill | src/index.ts:97-99 | after appending at the cut node and grafting the old rest back, the runs are the runs up to the cut, extended by the text's widths, with the old rest spliced on; it fails exactly on a lone surrogate |
| CodePointMappings.CodePointMapping.Abandon | src/index.ts:15 | after `append` throws, the list is still well formed: it runs through the nodes appended so far, and it still reaches the old rest only if no node was added |
| CodePointMappings.CodePointMapping.DeleteAt | src/index.ts:83-89 | an offset that is not a code point boundary gives the same error as `CpOffset` and changes nothing; an invalid length after it gives that error with the content unchanged; otherwise it returns the code point offset `k1` and the code point length `k2` of the range, and the content loses exactly those `k2` widths after the first `k1`; minimal runs stay minimal |
| CodePointMappings.CodePointMapping.Remove | src/index.ts:85-88 | the second `split` and the `graft` of `deleteAt` return the reference code point length of the range after the first cut, and remove exactly that many code points |
| CodePointMappings.CodePointMapping.Excise | src/index.ts:85-87 | splits after the first cut at the range length and grafts the first cut's node onto the nodes after the second cut, dropping the nodes between |
| CodePointMappings.CodePointMapping.Snip | src/index.ts:87 | grafting node `n` onto the nodes after node `e` leaves the runs up to `n` with the runs after `e` spliced on |
| CodePointMappings.CodePointMapping.IndexOfCodepoint | src/index.ts:105-119 | returns the number of units in the first `cpOff` code points when the text has at least `cpOff`, and "cpOff outside of string" otherwise |
| CodePointMappings.WalkFromStart | src/index.ts:41-61 | from the first run, the run-by-run walk of `split` equals the reference `CpOffset` on the content |
| CodePointMappings.SplitFound | src/index.ts:59 | a successful walk that stops `a` code points into run `i` returns the code points before run `i` plus `a` |
| CodePointMappings.DeleteFrom | src/index.ts:84-85 | after the first cut the content is unchanged, and the second walk, from the run after the cut, equals `CpOffset` on the content after the offset |
| CodePointMappings.RemoveOk | src/index.ts:85-88 | after both cuts, the runs that remain describe the content without the code points of the range; minimality is kept |
| CodePointMappings.IndexWithin | src/index.ts:109-111 | stopping inside run `k` adds `cpOff * width` units to the units of the runs before it |
| CodePointMappings.IndexPast | src/index.ts:113-115 | passing run `k` adds its count to the code points and `count * width` to the units |
| CodePointMappings.ExampleWidths | src/index.test.ts:27 | "a😀b😀😀cd" has code point widths 1, 2, 1, 2, 2, 1, 1 |
| CodePointMappings.ExampleRuns | src/index.test.ts:28 | those widths encode to the runs (1,1) (2,1) (1,1) (2,2) (1,2) |
| CodePointMappings.ConstructorExample | src/index.test.ts:27-28 | the mapping constructed from "a😀b😀😀cd" has the runs (1,1) (2,1) (1,1) (2,2) (1,2) |
| CodePointMappings.SurrogateOffsetExample | src/index.test.ts:21-23 | in "😀", unit offset 1 is "in middle of surrogate", so `deleteAt(1, 1)` fails |
| CodePointMappings.DeleteExampleOffsets | src/index.test.ts:30 | on "a😀b😀😀cd", unit offset 3 is code point offset 2 and the 3 units after it are 2 code points, so `deleteAt(3, 3)` returns (2, 2) |
| CodePointMappings.DeleteExampleRuns | src/index.test.ts:31-32 | the content `DeleteAt` leaves then encodes to the runs (1,1) (2,2) (1,2) |
| CodePointMappings.InsertExampleOffset | src/index.test.ts:34 | on "a😀😀cd", unit offset 3 is code point offset 2, so `insertAt(3, "hi")` returns 2 |
| CodePointMappings.InsertExampleRuns | src/index.test.ts:36-37 | the content `InsertAt` leaves then encodes to the runs (1,1) (2,1) (1,2) (2,1) (1,2) |
| CodePointMappings.IndexExample | src/index.test.ts:41-42 | in "😀hallo😀" the first code point spans 2 units, so `indexOfCodepoint(1)` returns 2 |
| Offsets.ScaleIsProduct | src/index.ts:43 | the units of a run, written as repeated addition, are `count * width` |
| Offsets.WholeLeftoverDivMod | src/index.ts:49-58 | for widths 1 and 2, `Whole` and `Leftover` are `split`'s `unitOff / width` and `unitOff % width` |
| Offsets.WholeLeftoverSum | src/index.ts:49-58 | an offset is its whole code points times the width plus a leftover smaller than the width |
| Offsets.WholeWithin | src/index.ts:53-58 | an offset within a run never cuts more code points than the run holds, and a nonzero boundary offset cuts at least one |
| Offsets.CpOffsetSound | src/index.ts:105-116 | a code point offset found for unit offset `u` covers exactly `u` units, so `indexOfCodepoint` inverts `insertAt`'s and `deleteAt`'s offsets |
| Offsets.CpOffsetComplete | src/index.ts:38-60 | the unit offset of every code point boundary maps back to that code point offset |
| Offsets.CpOffsetBeyond | src/index.ts:61 | "offset beyond end" is reported exactly when the unit offset exceeds the length of the text |
| Utf16.Decode | src/index.ts:9 | the string iterator yields at most one code point per unit |
| Utf16.DecodeShape | src/index.ts:9-16 | every code point the iterator yields is one unit or a high surrogate followed by a low surrogate |
| Utf16.FlattenDecode | src/index.ts:9 | the code points put back together are the text |
| Utf16.UnitsWidths | src/index.ts:9 | the code point widths of a text add up to its length |
| Utf16.DecodeSplit | src/index.ts:95-100 | cutting a text at a unit offset that is not inside a pair cuts its code points |
| Utf16.DecodeConcat | src/index.ts:95-100 | the code points of a well-formed text followed by more text are those of each part |
| Utf16.CpOffsetOfText | src/index.ts:38-62 | on a text, an offset past the end is "beyond end", one between the halves of a pair is "in middle of surrogate", and any other offset covers the code points of the prefix it ends |
| Runs.ExpandTotals | src/index.ts:75-78 | the sum of `width * count` over the runs is the text's length in units, and the sum of `count` is its number of code points |
| Runs.CpOffsetPast | src/index.ts:42-46 | an offset past a whole run moves on by the run's units and counts its code points |
| Runs.CpOffsetWithin | src/index.ts:49-58 | an offset inside a run is a boundary exactly when it leaves nothing over, and then it covers its whole code points |
| Runs.CutExpand | src/index.ts:53-58 | cutting a run in two changes no code point |
| Runs.CutHalves | src/index.ts:53-59 | after a cut, the runs up to the cut describe the first `k` code points and the runs after it the others |
| Runs.CutCanonical | src/index.ts:53-58 | cutting minimal runs leaves a minimal second half, and a minimal first half if the cut is in the first run counted or leaves the cut run non-empty |
| Runs.WalkCpOffset | src/index.ts:41-61 | `split`'s run-by-run walk equals the code-point-by-code-point reference `CpOffset` on the runs' content |
| Runs.WalkPast | src/index.ts:42-46 | one pass of `split`'s loop keeps the walk's answer |
| Runs.WalkStop | src/index.ts:49-59 | where `split`'s loop stops, the answer is the code points passed plus the whole ones in the units left, or an error if a unit is left over |
| Runs.PointsExpand | src/index.ts:44 | the code points counted by the walk are those of the runs passed |
| Runs.ExtendStep | src/index.ts:9-21 | pushing one more width extends the runs by that width |
| Runs.PushExpand | src/index.ts:17-21 | one step of `append` adds exactly one code point of its width |
| Runs.ExtendExpand | src/index.ts:8-24 | `append` adds exactly the widths of the new code points, after the old ones |
| Runs.PushCanonical | src/index.ts:17-21 | one step of `append` keeps the runs minimal |
| Runs.ExtendCanonical | src/index.ts:8-24 | `append` keeps the runs minimal |
| Runs.ExtendWidths | src/index.ts:8-24 | `append` only makes runs of width 1 or 2 |
| Runs.ExtendConcat | src/index.ts:9 | appending two texts one after the other is appending their concatenation |
| Runs.ExtendSameWidth | src/index.ts:17-18 | code points of the last run's width only grow that run |
| Runs.ExtendNewWidth | src/index.ts:19-20 | code points of another width add one new run holding all of them |
| Runs.ExtendLast | src/index.ts:8-24 | `append` changes only the last run and what follows it |
| Runs.ExtendAt | src/index.ts:96-99 | appending after run `i`, with the later runs set aside, leaves the runs before it alone |
| Runs.EncodeSound | src/index.ts:75-78 | the constructor's runs describe exactly the text, are minimal, and start with width 1 |
| Runs.CanonicalUnique | src/index.test.ts:86-95 | minimal runs starting with width 1 are the constructor's runs for their content: the structure depends only on the text |
| Runs.DropEmpty | src/index.ts:27-29 | skipping empty runs leaves a shorter list that starts with a non-empty run, if any |
| Runs.DropEmptySuffix | src/index.ts:27-29 | what is left after skipping empty runs is a suffix of the list |
| Runs.DropEmptyAt | src/index.ts:27-29 | dropping exactly the leading empty runs is `DropEmpty` |
| Runs.DropEmptyExpand | src/index.ts:27-29 | skipping empty runs changes no code point |
| Runs.AttachExpand | src/index.ts:30-35 | merging or linking the next run changes no code point |
| Runs.AttachCanonical | src/index.ts:30-35 | merging or linking a minimal rest that starts with a non-empty run keeps the runs minimal |
| Runs.SpliceExpand | src/index.ts:26-36 | `graft` loses and adds no code point |
| Runs.SpliceCanonical | src/index.ts:26-36 | `graft` of minimal runs onto minimal runs gives minimal runs |
| Runs.InsertExpand | src/index.ts:95-101 | the runs `insertAt` leaves describe the old text with the new widths inserted `k` code points in |
| Runs.InsertCanonical | src/index.ts:95-101 | `insertAt` keeps minimal runs minimal |
| Runs.DeleteExpand | src/index.ts:83-89 | the runs `deleteAt` leaves describe the old text without the `k2` code points after the first `k1` |
| Runs.DeleteCanonical | src/index.ts:83-89 | `deleteAt` keeps minimal runs minimal |
| Arena.CutArena | src/index.ts:53-58 | `split`'s update: the cut node keeps `q` code points and links to a new node holding the rest with the old link; no other node changes |
| Arena.CutSteps | src/index.ts:53-58 | `split`'s three assignments, in the source's order, build `CutArena` |
| Arena.CutNode | src/index.ts:53-58 | cutting a node of the list inserts the new node after it, and the list's runs become `Cut` of the old runs |
| Arena.PushArena | src/index.ts:17-21 | `append`'s update for one code point: the node grows, or a new node of count 1 ending the list is linked after it; no other node changes |
| Arena.PushNode | src/index.ts:17-21 | pushing onto the last node of a segment pushes onto its runs |
| Arena.GraftArena | src/index.ts:30-35 | `graft`'s update: the node absorbs the next node's count and link when widths agree, and links to it otherwise; no other node changes |
| Arena.SkipDone | src/index.ts:27-29 | stopping after the leading empty nodes leaves exactly the rest without its empty runs |
| Arena.GraftNode | src/index.ts:30-35 | grafting a list after a segment gives a list whose runs are the segment's with the list's attached |
| Arena.AppendJoin | src/index.ts:97-99 | after `append` at the cut node, the nodes up to it and the new nodes form one segment from the head, and the old rest is untouched |

## Left out

- Offsets are JavaScript numbers in the source. Here they are natural numbers. The model does not cover negative, fractional or non-numeric offsets, or the precision limit of doubles. Once `unitOff % width` is 0, the division in `split` is exact. The model computes `width * count` by repeated addition (`Scale`) and `unitOff / width`, `unitOff % width` by repeated subtraction (`Whole`, `Leftover`); `ScaleIsProduct` and `WholeLeftoverDivMod` prove these equal to the operators.
- CodePointMappings.CodePointMapping.InsertAt: after an "unpaired surrogate" error, only a well-formed list is promised. The source does not roll back: the cut of `split` and the code points appended before the lone surrogate stay. The model does the same updates but states nothing about the content.
- CodePointMappings.CodePointMapping.DeleteAt: minimality is promised only after success. When the second `split` fails, the source keeps the first cut, which can leave two neighbouring runs of the same width. The content is still promised unchanged.
- CodePointMappings.CodePointMapping.DeleteAt: the source returns the pair `[cpOff, cpLen]` or throws. The model returns the offset as a `Result` and the length `cpLen` beside it; `cpLen` is 0 when `r` is an error and means nothing then.
- CodePointMappings.CodePointMapping.InsertAt: the source returns `[cpOff, ...str]` as one array. The model returns the offset and the list of code points separately, each code point as its units.
- Throwing is modelled as returning `Err`. The error's message text is the constructor of `Error` that names it.
- The heap of the source becomes an arena that only grows. Nodes that `graft` unlinks stay in the arena but are never reached from the head. Garbage collection is not modelled.
- The claim that the work is proportional to the number of runs (src/index.ts:69-71) is about performance and is not modelled.
- Grapheme clusters play no part. A joined emoji sequence is several code points, as the source treats it.
- The tests' random edits, the `assert` calls and the `spans` helper that reads the private field are not modelled. Their checks appear as contracts of `InsertAt`, `DeleteAt`, `IndexOfCodepoint` and the lemmas on `Canonical`. `Spans()` replaces reading the field.
- The head always has width 1 (src/index.ts:76), so it can hold no code point while other runs follow it: "😀" gives the runs (1,0) (2,1). `Canonical` exempts the first run from the non-empty rule, as the fuzz test does (src/index.test.ts:92-94).
