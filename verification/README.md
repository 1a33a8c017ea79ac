# Snippet assembly of the human-readable diagnostic emitter

This project models the core of the human-readable diagnostic emitter of the
solar compiler (`crates/interface/src/diagnostics/emitter/human.rs`). It covers
everything between a diagnostic, with its per-line annotation fragments already
resolved, and the owned data handed to the snippet renderer:

- `file_to_snippet` folds the sorted per-line fragments of one file into a
  snippet. It merges each multi-line start/end pair back into one annotation.
  It turns every character column into a byte offset relative to the excerpt,
  through `rel_pos` and `char_to_byte_pos`.
- `to_as_level` maps the compiler's severities onto the renderer's five levels.
- `OwnedSnippet::collect_files` swaps the file of a real primary span to the
  front, when a bisection by file name finds it.
- `OwnedSnippet::collect` sets the main diagnostic's files to its level.
  - Each sub-diagnostic's fragments are forced to the sub's level, and
    unlabelled primary fragments get the sub's message.
  - The sub's files are merged in by file identity.
  - One snippet is produced per collated file.
- `HumanEmitter::snippet` builds the title, the snippets and the footers. The
  footers are the sub-diagnostics with a dummy span.

## Modules

- `Wrappers`: `Option` and `Result`. A `Result` error stands for a panic of the
  Rust code.
- `Utf8`: UTF-8 widths per RFC 3629.
  - `CharToBytePos` is `char_to_byte_pos`; `SliceFrom` is `str[i..]`.
  - It also holds the lemmas relating character and byte positions.
- `Levels`: `Level`, the renderer's `RenderLevel` and `ToRenderLevel`.
- `Model`: source files, annotation fragments, multi-spans, diagnostics and the
  owned records. Also the abstract collaborators (`SourceMap`, `LineOps`) and the
  defects the Rust code panics on.
- `Reassembly`: `file_to_snippet` as a fold, with `Step`, `StepAll`, `StepLines`
  and `FileToSnippet`.
- `ReassemblySpec`: a declarative account of the snippet.
  - It says which fragment yields which annotation, at which byte positions.
  - It says when the fold panics instead (`WellPlaced`, `WellPaired`).
- `ReassemblyProof`: the proof that the fold computes exactly that account.
- `Names` and `PrimaryFile`: the name order, the bisection, `Swap` and
  `CollectFiles`.
- `Collation`: re-levelling, merging by identity, `Collate` and `Collect`.
- `Emitter`: the title, the footers and `Format`, which is `snippet` up to the
  renderer.

## Model

| member | source | states |
|---|---|---|
| Levels.ToRenderLevel | crates/interface/src/diagnostics/emitter/human.rs:343-351 | Total. Each renderer level is reached exactly from its severity class: bug, fatal and error give Error; warning gives Warning; the three note kinds give Note; the two help kinds give Help; allow gives Info. |
| Levels.ToRenderLevelKeepsSeverity | crates/interface/src/diagnostics/emitter/human.rs:343-351 | Two levels map to the same renderer level iff they have the same severity class. The mapping is monotone in severity in both directions. |
| Levels.ToRenderLevelOnto | crates/interface/src/diagnostics/emitter/human.rs:343-351 | Every one of the five renderer levels is the image of some level. |
| Utf8.Width | crates/interface/src/diagnostics/emitter/human.rs:353-355 | `char::len_utf8`: every character takes one to four bytes, and exactly one iff it is ASCII (below 0x80). |
| Utf8.CharToBytePos | crates/interface/src/diagnostics/emitter/human.rs:353-355 | The converted offset is 0 iff the column is 0 or the string is empty, and at most four bytes per column. |
| Utf8.CharToBytePosIsPrefixLength | crates/interface/src/diagnostics/emitter/human.rs:353-355 | `char_to_byte_pos(s, c)` is the UTF-8 byte length of the first min(c, len s) characters, and at most the byte length of `s`. |
| Utf8.CharToBytePosZero | crates/interface/src/diagnostics/emitter/human.rs:353-355 | Column 0 converts to byte 0. |
| Utf8.CharToBytePosSaturates | crates/interface/src/diagnostics/emitter/human.rs:353-355 | A column at or past the end converts to the whole byte length. |
| Utf8.CharToBytePosMonotone | crates/interface/src/diagnostics/emitter/human.rs:353-355 | The conversion is monotone in the column. |
| Utf8.CharToBytePosStrict | crates/interface/src/diagnostics/emitter/human.rs:353-355 | Within the string it is strictly monotone, since every character takes at least one byte. |
| Utf8.CharToBytePosAfter | crates/interface/src/diagnostics/emitter/human.rs:353-355 | Converting past a prefix `a` is the byte length of `a` plus the conversion in the rest. |
| Utf8.ConvertedInEncoding | crates/interface/src/diagnostics/emitter/human.rs:353-355 | The converted offset lies inside the UTF-8 encoding and on a character boundary. |
| Utf8.SliceRoundTrip | crates/interface/src/diagnostics/emitter/human.rs:353-355 | Slicing the encoding between the converted offsets of columns i and j gives the encoding of characters i..j. |
| Utf8.SliceFrom | crates/interface/src/diagnostics/emitter/human.rs:310 | A successful `str[b..]` is no longer than the string, and its byte length is what remains of the encoding after `b` bytes. |
| Utf8.SliceFromAppend | crates/interface/src/diagnostics/emitter/human.rs:310 | Slicing at the byte length of a prefix yields the rest of the string. |
| Utf8.SliceFromSpec | crates/interface/src/diagnostics/emitter/human.rs:310 | `source[rel..]` succeeds exactly when `rel` is a character boundary of the encoding, and then yields the characters whose encoding is the encoding's rest from `rel`. |
| Model.LinePosition | crates/interface/src/diagnostics/emitter/human.rs:305 | `line_position(i)` exists iff line i is in the file, and the first line starts at 0. |
| Model.LinePositionNext | crates/interface/src/diagnostics/emitter/human.rs:305 | Each line starts where the previous one ends, at the previous start plus its UTF-8 byte length, and never past the end of the file. |
| Model.GetLines | crates/interface/src/diagnostics/emitter/human.rs:298 | `get_lines(lo..=hi).unwrap_or_default()` is "" unless lo <= hi lie in the file. Otherwise its byte length is the distance from the start of line lo to the end of line hi. |
| Reassembly.RelPos | crates/interface/src/diagnostics/emitter/human.rs:309-311 | `rel_pos` panics iff the line offset is not a character boundary of the excerpt. Otherwise the position lies between the line offset and the end of the excerpt. |
| Reassembly.MergedLabel | crates/interface/src/diagnostics/emitter/human.rs:333 | The merged label is the start's label if any, else the end's label if any, else "". |
| Reassembly.Step | crates/interface/src/diagnostics/emitter/human.rs:313-337 | A start while a start is open fails with the nested-start defect (line 323). An end with no open start fails with the unmatched-end defect (line 328). A middle fragment changes nothing. On success, one annotation is appended exactly for a single-line fragment or an end, earlier annotations are kept, and a start is open afterwards iff the fragment is a start, or it is not an end and one was open before. |
| Reassembly.StepAll | crates/interface/src/diagnostics/emitter/human.rs:313-338 | On success, the loop over one line's fragments keeps the earlier annotations and appends at most one per fragment. |
| Reassembly.StepLines | crates/interface/src/diagnostics/emitter/human.rs:304-339 | A first line with index 0 fails on the `line_index - 1` underflow. On success, the loop over the lines keeps the earlier annotations. |
| Reassembly.FileToSnippet | crates/interface/src/diagnostics/emitter/human.rs:281-302 | A snippet exists only for non-empty lines that are sorted and start at a 1-based index. It starts at the first line's index and folds. Its origin is the display name of the file. Its source is the text of the first to the last line. |
| ReassemblySpec.RelPosIsPosition | crates/interface/src/diagnostics/emitter/human.rs:305-311 | For a line of the excerpt, `rel_pos(c)` never panics and equals the byte length of the excerpt before the line plus the bytes of the line's first c characters. |
| ReassemblySpec.FirstLineAtOffsetZero | crates/interface/src/diagnostics/emitter/human.rs:305-306 | The first line of the excerpt sits at relative offset 0. |
| ReassemblySpec.LineOffsetIsDifference | crates/interface/src/diagnostics/emitter/human.rs:294-306 | The line offset is the difference of the two `line_position` results. |
| ReassemblySpec.PositionInSource | crates/interface/src/diagnostics/emitter/human.rs:305-311 | Every position `rel_pos` yields lies inside the excerpt's encoding, on a character boundary. |
| ReassemblySpec.PositionMonotone | crates/interface/src/diagnostics/emitter/human.rs:305-311 | On one line, a later column never has an earlier position. |
| ReassemblySpec.RangeCoversColumns | crates/interface/src/diagnostics/emitter/human.rs:305-320 | The byte range from `rel_pos(c1)` to `rel_pos(c2)` is exactly the encoding of columns c1..c2 of that line onward. |
| ReassemblySpec.PairedUpToMonotone | crates/interface/src/diagnostics/emitter/human.rs:322-336 | Pairing holds of every prefix of a paired prefix of the fragments. |
| ReassemblyProof.StepSinglelineSpec | crates/interface/src/diagnostics/emitter/human.rs:315-321 | A single-line fragment never fails. It appends one annotation with the fragment's range, its label or "", and its level or the default, and leaves the open start alone. |
| ReassemblyProof.StepStartSpec | crates/interface/src/diagnostics/emitter/human.rs:322-325 | A multi-line start fails iff a start is already open. Otherwise it opens its label and start position and emits nothing. |
| ReassemblyProof.StepLineSpec | crates/interface/src/diagnostics/emitter/human.rs:326 | A multi-line middle fragment changes nothing. |
| ReassemblyProof.StepEndSpec | crates/interface/src/diagnostics/emitter/human.rs:327-336 | A multi-line end fails iff no start is open or its end precedes the start. Otherwise it emits one merged annotation and closes the start. The merged annotation runs from the start's position to its own end position, has the start's label else its own else "", and has its own level or the default. |
| ReassemblyProof.StepSpec | crates/interface/src/diagnostics/emitter/human.rs:313-337 | One fragment takes the specified state before it to the specified state after it. It fails exactly on an unpaired fragment. |
| ReassemblyProof.StepAllSpec | crates/interface/src/diagnostics/emitter/human.rs:313-338 | The loop over one line's fragments succeeds iff they are all paired, and then reaches the specified state after them. |
| ReassemblyProof.StepLinesSpec | crates/interface/src/diagnostics/emitter/human.rs:304-339 | The loop over the lines succeeds iff all fragments are paired, and then ends in the specified final state. |
| ReassemblyProof.StepLinesPastEnd | crates/interface/src/diagnostics/emitter/human.rs:305 | A line past the end of the file makes the loop fail (`line_position(..).unwrap()`). |
| ReassemblyProof.FileToSnippetCorrect | crates/interface/src/diagnostics/emitter/human.rs:281-341 | `file_to_snippet` succeeds iff the lines are well placed and the multi-line fragments well paired. Then the source is the excerpt, and the annotations are the specified ones: one per single-line and one per multi-line end, in arrival order. |
| ReassemblyProof.ExpectedCount | crates/interface/src/diagnostics/emitter/human.rs:313-337 | There are exactly as many annotations as single-line and multi-line-end fragments. |
| ReassemblyProof.ExpectedAt | crates/interface/src/diagnostics/emitter/human.rs:313-337 | The annotation of an emitting fragment sits at the index given by the number of emitting fragments before it. This is arrival order. |
| ReassemblyProof.ExpectedInSource | crates/interface/src/diagnostics/emitter/human.rs:305-337 | Every specified annotation's start and end lie in the excerpt on character boundaries. |
| ReassemblySpec.ExpectedAtLevel | crates/interface/src/diagnostics/emitter/human.rs:315-335 | When every fragment carries a level, every specified annotation renders at that level, whatever the default. |
| ReassemblyProof.SnippetRangesValid | crates/interface/src/diagnostics/emitter/human.rs:281-341 | Every annotation of a snippet `file_to_snippet` returns addresses character boundaries within the snippet's source. |
| Names.CompareEqual | crates/interface/src/diagnostics/emitter/human.rs:257 | Names compare equal exactly when they are the same name. |
| Names.CompareTransitive | crates/interface/src/diagnostics/emitter/human.rs:257 | The name order is transitive, and strictly so when either step is strict. |
| PrimaryFile.Search | crates/interface/src/diagnostics/emitter/human.rs:256-258 | On any input, a returned index is in range and holds a file with the searched name. |
| PrimaryFile.SearchComplete | crates/interface/src/diagnostics/emitter/human.rs:256-258 | On files sorted by name, the search finds the name iff some file has it. |
| PrimaryFile.Swap | crates/interface/src/diagnostics/emitter/human.rs:259 | The two entries are exchanged and all others stay in place. |
| PrimaryFile.SwapPermutes | crates/interface/src/diagnostics/emitter/human.rs:259 | A swap keeps the multiset of files and undoes itself. |
| PrimaryFile.CollectFiles | crates/interface/src/diagnostics/emitter/human.rs:251-264 | A permutation of the input files of the same length. It is unchanged unless the primary span exists and is not dummy and there is more than one file. Otherwise it is the swap of 0 with some other index. When it changes, the new first file has the primary span's name. |
| PrimaryFile.CollectFilesBringsPrimary | crates/interface/src/diagnostics/emitter/human.rs:251-264 | Take a real primary span, more than one file, and files sorted by name. Then the first file has the primary's name iff some file has that name. |
| Collation.RelevelAnnotation | crates/interface/src/diagnostics/emitter/human.rs:226-231 | The fragment gets the sub's level and keeps its columns, primacy and kind. An existing label is kept. An unlabelled fragment gets the sub's message iff it is primary. |
| Collation.RelevelLines | crates/interface/src/diagnostics/emitter/human.rs:225-233 | Keeps the number of lines and, per line, its index and each fragment's columns, primacy and kind; afterwards every fragment carries the sub's level and every primary fragment has a label. |
| Collation.RelevelFile | crates/interface/src/diagnostics/emitter/human.rs:224-233 | Keeps the file and its number of lines; afterwards every fragment carries the sub's level and every primary fragment has a label. |
| Collation.MainFiles | crates/interface/src/diagnostics/emitter/human.rs:218-219 | The main diagnostic's files in `collect_files` order, each with `set_level` applied at the diagnostic's level. It holds the same set of files, and holds no file twice when the span does not. |
| Collation.RelevelLinesSpec | crates/interface/src/diagnostics/emitter/human.rs:223-233 | Re-levelling keeps lines, columns, primacy and kinds. Every fragment gets the sub's level. Existing labels are kept. Exactly the unlabelled primary fragments get the sub's message. |
| Collation.RelevelFixpoint | crates/interface/src/diagnostics/emitter/human.rs:225-233 | Lines that already carry the level and labels are left unchanged. |
| Collation.RelevelIdempotent | crates/interface/src/diagnostics/emitter/human.rs:225-233 | Re-levelling twice at one level is re-levelling once, whatever the second message. |
| Collation.FindById | crates/interface/src/diagnostics/emitter/human.rs:235-236 | Returns the first entry holding the same file identity (not name), and nothing iff no entry holds it. |
| Collation.MergeFile | crates/interface/src/diagnostics/emitter/human.rs:235-241 | Merging one sub file adds exactly its identity to the set of files. It grows the list by one iff the identity was new, and then the new entry is last. No file is moved, and entries for other files are unchanged. |
| Collation.MergeFileLines | crates/interface/src/diagnostics/emitter/human.rs:235-238 | The first entry with the sub file's identity receives `add_lines` of the sub's lines. |
| Collation.MergeFilesMerged | crates/interface/src/diagnostics/emitter/human.rs:235-238 | When exactly one of a sub's files shares an entry's file, that entry receives `add_lines` of that sub file's lines. |
| Collation.MergeFileDistinct | crates/interface/src/diagnostics/emitter/human.rs:235-241 | Merging never makes a file appear twice. |
| Collation.SubFiles | crates/interface/src/diagnostics/emitter/human.rs:222-233 | Each of a sub's files, in `collect_files` order, is the same file with lines of the same shape. Every fragment carries the sub's level. Labels are kept, and exactly the unlabelled primary fragments get the sub's message. |
| Collation.SubFilesDistinct | crates/interface/src/diagnostics/emitter/human.rs:222-233 | A sub's files hold no file twice when its span does not. |
| Collation.MergeFiles | crates/interface/src/diagnostics/emitter/human.rs:224-242 | Merging a sub's files adds exactly their identities and keeps every existing entry's file in place. |
| Collation.MergeFilesKeeps | crates/interface/src/diagnostics/emitter/human.rs:235-241 | An entry whose file no sub file shares keeps its lines. |
| Collation.MergeFilesPushes | crates/interface/src/diagnostics/emitter/human.rs:235-241 | A sub file whose identity no entry and no other sub file holds is appended unchanged. |
| Collation.MergeChildren | crates/interface/src/diagnostics/emitter/human.rs:222-243 | The existing files keep their places at the front. |
| Collation.MergeChildrenKeeps | crates/interface/src/diagnostics/emitter/human.rs:221-243 | An entry whose file no child annotates keeps its lines. |
| Collation.MergeChildrenPushes | crates/interface/src/diagnostics/emitter/human.rs:221-243 | A file that no existing entry holds, and that only one child annotates, once, ends up in the list as that child's re-levelled file. |
| Collation.MergeChildrenMerged | crates/interface/src/diagnostics/emitter/human.rs:221-243 | A file already in the list that only one child annotates, once, receives `add_lines` of that child's re-levelled lines. |
| Collation.MergeChildrenSpec | crates/interface/src/diagnostics/emitter/human.rs:222-243 | The children add exactly the files they annotate, and never make a file appear twice. |
| Collation.CollectFilesIds | crates/interface/src/diagnostics/emitter/human.rs:251-264 | `collect_files` keeps the set of files. |
| Collation.CollectFilesDistinct | crates/interface/src/diagnostics/emitter/human.rs:251-264 | `collect_files` never makes a file appear twice. |
| Collation.Collate | crates/interface/src/diagnostics/emitter/human.rs:216-243 | The main diagnostic's files come first, in `collect_files` order. |
| Collation.CollateFiles | crates/interface/src/diagnostics/emitter/human.rs:216-243 | The collated files are exactly the main diagnostic's and its children's. Each appears once when the main diagnostic's do. |
| Collation.CollateSubOnly | crates/interface/src/diagnostics/emitter/human.rs:216-243 | A file that only one sub-diagnostic annotates, once, is collated with that sub's re-levelled lines. Every fragment of the entry carries the sub's level, not the main diagnostic's. |
| Collation.CollateMerged | crates/interface/src/diagnostics/emitter/human.rs:216-243 | A main-diagnostic file that only one sub-diagnostic also annotates, once, is collated with `add_lines` of its main lines at the main level and that sub's re-levelled lines. |
| Collation.Snippets | crates/interface/src/diagnostics/emitter/human.rs:245-248 | Succeeds iff `file_to_snippet` succeeds on every file, and then yields one snippet per file, in order. A failure is the defect of some file. |
| Collation.Collect | crates/interface/src/diagnostics/emitter/human.rs:216-249 | Succeeds iff `file_to_snippet` succeeds on every collated file. Then there is one snippet per collated file, in collation order, with that file's display name as origin, starting at its first annotated line. |
| Emitter.SnippetsCorrect | crates/interface/src/diagnostics/emitter/human.rs:245-248 | Mapping `file_to_snippet` over files succeeds iff every file is well placed and well paired. Then each snippet holds its file's excerpt and specified annotations. |
| Emitter.FromDiagnostic | crates/interface/src/diagnostics/emitter/human.rs:176-178 | The title carries the diagnostic's id and message, at a renderer level of the same severity class. |
| Emitter.FromSubdiagnostic | crates/interface/src/diagnostics/emitter/human.rs:180-182 | A footer has no id, carries the sub's message, and has a renderer level of the same severity class. |
| Emitter.Footers | crates/interface/src/diagnostics/emitter/human.rs:152-158 | At most one footer per child, none with an id. |
| Emitter.FootersAppend | crates/interface/src/diagnostics/emitter/human.rs:152-158 | The filter preserves order: the footers of a + b are those of a followed by those of b. |
| Emitter.FootersAreDummyChildren | crates/interface/src/diagnostics/emitter/human.rs:152-158 | The footers are exactly the messages of the children with a dummy span, one each, in the children's order. |
| Emitter.Format | crates/interface/src/diagnostics/emitter/human.rs:144-163 | Without a source map there are no snippets and formatting cannot fail. The title is the diagnostic's message line and the footers are those of its children, whatever the snippets. |
| Emitter.FormatSnippets | crates/interface/src/diagnostics/emitter/human.rs:144-163 | With a source map, formatting succeeds iff every collated file is well placed and well paired. Then each snippet holds that file's excerpt and its specified annotations. |
| Emitter.FormatSubOnly | crates/interface/src/diagnostics/emitter/human.rs:216-248 | With a source map, when formatting succeeds, a file that only one sub-diagnostic annotates, once, gets a snippet with its display name as origin. All of that snippet's annotations render at the sub's level. |
| Emitter.FormatPrimaryFirst | crates/interface/src/diagnostics/emitter/human.rs:216-264 | Take a real primary span, several files sorted by name, and one with the primary's name. Then the first snippet's origin is the primary file's display name. |

## Left out

- Output plumbing is not modelled: the writer, colour choice, flushing and `io_panic`. Neither are the renderer and its builders (`as_ref`, `DEFAULT_RENDERER`). The model stops at the owned data.
- Tabs are not handled; the source itself flags them as incorrect.
- Collaborators defined outside human.rs are abstract inputs, except `SourceFile::line_position` and `SourceFile::get_lines`:
  - `collect_annotations` is the field `MultiSpan.annotated`.
  - `lookup_char_pos(primary.lo).file.name` is the field `Span.fileName`.
  - `filename_for_diagnostics` is a function field of `SourceMap`.
  - `set_level` and `add_lines` are function fields of `LineOps`. Nothing is assumed about them; in particular `add_lines` may leave lines unsorted.
- `SourceFile::line_position` and `SourceFile::get_lines` are given concrete definitions (`Model.LinePosition`, `Model.GetLines`). They rest on these assumptions about `SourceFile`:
  - a file's text is its sequence of lines, and every line includes its own terminator;
  - `line_position(i)` is the sum of the UTF-8 widths of the characters of lines 0..i, so every line starts on a character boundary;
  - `get_lines(lo..=hi)` is the concatenation of lines lo..=hi; outside the file it is "", which also covers the `unwrap_or_default` at human.rs:298.
- Panics are `Err(Defect)` results, with debug-build semantics: failed `unwrap`s, failed `debug_assert!`s, integer underflow and string slicing off a boundary. A release build would skip the `debug_assert!`s.
- File names are compared as strings, code point by code point. The real name type's `Ord` is not modelled.
- PrimaryFile.Search: it is a plain bisection, not the standard library's probe order. Only "found ⇒ same name" and "sorted ⇒ complete" are claimed. On unsorted files, which index is found (if any) may differ.
- `line_position` is taken relative to the file start rather than to the source map's global start. Only the difference of two positions is ever used.
- The fragment label field is called `text`, since `label` is a keyword in Dafny. Likewise the sub-diagnostic's message is `text`.
- The payload of the multi-line fragment kinds (the nesting depth) is dropped: the code never reads it.
- `crates/ast/src/globals.rs`, `crates/data-structures/src/trustme.rs` and `crates/parser/src/session.rs` are thread-local session plumbing, an unsafe lifetime cast and constructors. They are not part of this model.

Points where the code's behaviour is easy to misread:

- A multi-line start still open after the last line is dropped without a panic. Nothing reads `multiline_start` after the loop (human.rs:303-340). The only checks on multi-line pairing are a start while another is open, an end with no open start, and an end before its start (human.rs:323, 328, 330).
- `collect_files` swaps the primary file with index 0; it does not move it to the front (human.rs:251-264). It does this per multi-span, before the sub-diagnostics are merged, not on the collated list. The primary file is found by bisection. Coming first is guaranteed when the files are sorted by name (`CollectFilesBringsPrimary`). On unsorted files the bisection may still find it.
- Every sub-diagnostic fragment's level is overwritten with `Some(sub.level)` (human.rs:227). The sub's level is not a default (`RelevelLinesSpec`, `SubFiles`).
