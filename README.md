# typed-path in Dafny: the byte-level path engine

This project models the core of `typed-path`, a Rust library. The library gives paths a Unix or a Windows syntax by their type, whatever the host, and does all of its work on byte slices. The model covers:

- **Parser combinators** (`ByteSeq`, `Combinators`). These are slice parsers returning `Ok(rest, value)` or `Fail`. Each one has an exact contract in terms of `input == consumed + rest`. `ByteVec` is the `Vec<u8>` that `push`, `pop` and `set_extension` edit in place.
- **Unix components** (`UnixComponentModel`, `UnixGrammar`, `UnixPathParser`, `UnixIncremental`, `UnixComponentsModel`).
  - The component enum and its leaf parsers.
  - The whole-path parser, proved equal to a reference reading of the path. The reading splits the path at `/`. Repeated separators collapse, so consecutive slashes count as one, as in IEEE Std 1003.1-2017, XBD section 4.13 (Pathname Resolution). Each segment is then classified, and `.` is dropped except in first place without a root.
  - The incremental front/back parser, a class with `input` and `state`. Its front and back readings are both proved equal to the same reference.
  - The `UnixComponents` iterator, its queries, `eq`/`cmp` and `try_from`.
- **Windows components** (`WindowsComponentModel`, `WindowsGrammar`, `WindowsPathParser`, `WindowsStepGrammar`, `WindowsIncremental`, `WindowsComponentsModel`).
  - `WindowsPrefix` with `len`, `is_verbatim` and ordering by `parsed` alone.
  - The component enum.
  - The whole-path parser and its six-way prefix grammar, tried in the order verbatim UNC, verbatim disk, verbatim, device namespace, UNC, disk. Every prefix's canonical text reads back as that prefix.
  - The incremental parser, with its separator modes: normalising, or verbatim for `\\?\`.
  - The `WindowsComponents` queries: `has_root`, `is_absolute`, `prefix_len`, `has_*_prefix`, `is_only_disk` and the rest.
- **Encodings** (`UnixEncodingModel`, `WindowsEncodingModel`).
  - `push` is written as a method on the byte buffer. The Windows version follows the four-case rule, with its component-stack rebuild.
  - `hash` is written as a method whose loop records the writes made to a `Hasher`. Each is proved equal to a function of the path. Equal paths are proved to hash alike.
- **Paths** (`PathModel`, `PathQueries`, `PathBufModel`).
  - Iterators of either encoding.
  - `iter_after`, `starts_with`, `strip_prefix`, `ends_with`, `parent`, `file_name`, `file_stem`, `extension`, equality and ordering.
  - The `PathBuf` class with `push`, `pop`, `set_file_name`, `set_extension`, `extend` and `collect`.
- **Decision rules** (`TypedPathModel`, `SingleComponentModel`).
  - `TypedPath::new` is characterised by the leading bytes of the path.
  - `SingleComponentPath::is_valid` holds exactly when, with `.` set aside, the path has one component and that component is a name.

Where the code disagrees with its tests or its doc comments, the model follows the code.

- The test at `src/unix/components/parser.rs:186` expects the first `next_front` on `abc\0def` to fail. The code takes the name up to the first disallowed byte and reads `abc` (`UnixIncrementalProperties.FrontStopsAtNul`). The whole-path `parse` does reject that input, because it leaves bytes unparsed (`UnixPathParserProperties.ParseRejectsNul`).
- The doc example of `WindowsComponent::try_from` at `src/windows/non_utf8/components/component.rs:272-273` expects `Disk(b'C')` from `c:`. The code keeps the letter as written, and so does the test at `src/windows/parser.rs:803`. The model keeps `c` (`WindowsComponentsModel.TryFromDrive`).
- `has_any_verbatim_prefix` matches `Verbatim`, `UNC` and `Disk`, while its doc comment names the three verbatim kinds. The model follows the match (`WindowsComponentsModel.AnyVerbatimVersusIsVerbatim`).

Where the code is evidently wrong (see "## Findings"), the model states both versions:

- a member for the code as written, with a lemma that shows the difference;
- a corrected member, which the rest of the model builds on.

The iterators, path queries, `push` and `hash` are therefore stated over the corrected Unix and Windows incremental parsers.

## Model

| member | source | states |
|---|---|---|
| ByteSeq.LexCmp | src/unix/non_utf8/components/component.rs:5 | the byte-slice order the derived `Ord` uses: equal exactly on equal slices; differing first bytes decide; the empty slice comes before any other (the general rules are the two lemmas below) |
| ByteSeq.LexCmpFirstDifference | src/unix/non_utf8/components/component.rs:5 | at the first index where two slices differ, the slices are not equal and the smaller byte comes first |
| ByteSeq.LexCmpProperPrefix | src/unix/non_utf8/components/component.rs:5 | a proper prefix comes before the slice it starts |
| ByteSeq.LexCmpAntisymmetric | src/unix/non_utf8/components/component.rs:5 | swapping the operands reverses the byte-slice order |
| ByteSeq.ByteVec.Clear | src/unix/non_utf8.rs:78 | the buffer is empty afterwards |
| ByteSeq.ByteVec.Push | src/common/non_utf8/pathbuf.rs:293 | the buffer gains exactly one byte at its end |
| ByteSeq.ByteVec.ExtendFromSlice | src/common/non_utf8/pathbuf.rs:296 | the buffer gains exactly the given bytes at its end |
| ByteSeq.ByteVec.Truncate | src/common/non_utf8/pathbuf.rs:199 | the buffer keeps its first `n` bytes, and is unchanged when it is no longer than `n` |
| ByteSeq.ByteVec.Pop | src/common/non_utf8/pathbuf.rs:285 | an empty buffer yields `None` and stays empty; otherwise the last byte is returned and removed |
| Combinators.AnyOf | src/common/parser.rs:5-17 | succeeds exactly when some alternative succeeds, and then returns the first successful alternative's result unchanged, every earlier one having failed |
| Combinators.AnyOfTwo | src/common/parser.rs:5-17 | with two alternatives: the first one's success, else the second one's outcome |
| Combinators.AnyOfSix | src/common/parser.rs:5-17 | with six alternatives: the first success in order, else the last one's outcome |
| Combinators.Map | src/common/parser.rs:20-29 | succeeds exactly when the inner parser does, with the same rest and the value transformed |
| Combinators.Divided | src/common/parser.rs:31-43 | succeeds exactly when the three parsers succeed in a row; the rest is the third one's and the value pairs the first and third values |
| Combinators.Prefixed | src/common/parser.rs:45-55 | succeeds exactly when both parsers succeed in a row, yielding the second one's result |
| Combinators.Suffixed | src/common/parser.rs:57-67 | succeeds exactly when both parsers succeed in a row, with the first value and the second rest |
| Combinators.Maybe | src/common/parser.rs:69-77 | never fails; `None` exactly when the parser fails, and then nothing is consumed |
| Combinators.OneOrMoreNeverExits | src/common/parser.rs:80-109 | the loop as written keeps its guard true after any number of turns: it never returns |
| Combinators.OneOrMoreSpinsAfterFailure | src/common/parser.rs:80-109 | once the parser fails, a turn of the written loop leaves its whole state unchanged |
| Combinators.Many | src/common/parser.rs:80-109 | repetition up to the first failure: the rest is a suffix at which the parser fails; no value exactly when it fails at once |
| Combinators.OneOrMore | src/common/parser.rs:80-109 | corrected repetition: succeeds exactly when the first application does, with at least one value, strictly consuming, and stops where the parser first fails |
| Combinators.OneOrMoreLoop | src/common/parser.rs:80-109 | the loop with the failure arm leaving it computes `OneOrMore` |
| Combinators.ZeroOrMore | src/common/parser.rs:112-121 | never fails, stops where the parser first fails, yields no value exactly when it fails at once, and agrees with `Many` |
| Combinators.TakeUntilByte | src/common/parser.rs:124-146 | succeeds exactly when the input is non-empty and its first byte does not match; then splits the input at the first matching byte |
| Combinators.TakeAsWritten | src/common/parser.rs:149-154 | as written, succeeds only when the input is longer than `cnt`, then splits it after `cnt` bytes |
| Combinators.TakeOneOfOneByteFails | src/common/parser.rs:149-154 | as written, `take(1)` rejects a one-byte input |
| Combinators.Take | src/common/parser.rs:149-154 | corrected: succeeds exactly when at least `cnt` bytes remain, splitting off exactly `cnt` of them |
| Combinators.BytesTag | src/common/parser.rs:157-171 | fails on empty input, otherwise succeeds exactly when the input starts with the tag, consuming exactly it |
| Combinators.Byte | src/common/parser.rs:174-187 | succeeds exactly when the first byte is the given one, consuming just it |
| Combinators.Empty | src/unix/parser.rs:95 | succeeds, consuming nothing, exactly on empty input |
| Combinators.Peek | src/unix/parser.rs:95 | the inner parser's outcome and value, consuming nothing |
| Combinators.Not | src/windows/parser.rs:177 | succeeds, consuming nothing, exactly when the inner parser fails |
| Combinators.FullyConsumed | src/unix/components/parser.rs:137 | the inner parser's success exactly when it leaves nothing behind |
| Combinators.TakeWhile | src/unix/components/parser.rs:97 | succeeds exactly when the parser succeeds at the start; takes the longest run of positions where it succeeds |
| Combinators.RTakeUntilByte1 | src/unix/components/parser.rs:134 | succeeds exactly when the last byte matches; takes the longest non-empty run of matching bytes from the back |
| UnixComponentModel.AsBytes | src/unix/non_utf8/components/component.rs:43-50 | the root stands for `/`, `.` and `..` for their bytes, a name for its own bytes |
| UnixComponentModel.ExactlyOneKind | src/unix/non_utf8/components/component.rs:66-122 | exactly one of `is_root`, `is_normal`, `is_parent`, `is_current` holds for every component |
| UnixComponentModel.Len | src/unix/non_utf8/components/component.rs:124-126 | the length of the component's bytes, 1 or 2 for the special components |
| UnixComponentModel.Root | src/unix/non_utf8/components/component.rs:137-139 | a component for which `is_root` holds |
| UnixComponentModel.Parent | src/unix/non_utf8/components/component.rs:150-152 | a component for which `is_parent` holds |
| UnixComponentModel.Current | src/unix/non_utf8/components/component.rs:163-165 | a component for which `is_current` holds |
| UnixComponentModel.Cmp | src/unix/non_utf8/components/component.rs:5 | the derived order: equal exactly on equal components, earlier variants first |
| UnixComponentModel.CmpAntisymmetric | src/unix/non_utf8/components/component.rs:5 | swapping the operands reverses the component order |
| UnixComponentModel.SeqCmp | src/unix/non_utf8/components/component.rs:5 | the lexicographic order on component sequences is equal exactly on equal sequences |
| UnixComponentModel.SeqCmpAntisymmetric | src/unix/non_utf8/components/component.rs:5 | swapping the operands reverses the order of component sequences |
| UnixGrammar.ParseSeparator | src/unix/parser.rs:109-112 | succeeds exactly on a leading `/`, consuming just it |
| UnixGrammar.ParseRootDir | src/unix/parser.rs:89-92 | succeeds exactly on a leading `/`, consuming just it, yielding the root |
| UnixGrammar.AtComponentEnd | src/unix/parser.rs:95 | succeeds without consuming exactly at the end of input or before a `/` |
| UnixGrammar.ParseCurDir | src/unix/parser.rs:94-97 | succeeds exactly on a `.` followed by the end or a `/`, consuming the `.` |
| UnixGrammar.ParseParentDir | src/unix/parser.rs:99-102 | succeeds exactly on `..` followed by the end or a `/`, consuming the `..` |
| UnixGrammar.ParseNormal | src/unix/parser.rs:104-107 | succeeds exactly when the first byte is allowed; takes the longest non-empty run of allowed bytes as a name |
| UnixGrammar.NormalReadsName | src/unix/parser.rs:104-107 | a name followed by a disallowed byte or the end is read as exactly that name |
| UnixGrammar.FileOrDirName | src/unix/parser.rs:84-87 | succeeds exactly when the first byte is allowed; consumes the whole first segment and classifies it, so `.` and `..` are special only as whole segments |
| UnixGrammar.ClassifyNotRoot | src/unix/parser.rs:84-87 | a name segment is never read as the root |
| UnixGrammar.SkipSeparators | src/unix/parser.rs:43 | `zero_or_more(separator)` skips exactly the leading run of `/` |
| UnixGrammar.WithTrailingSeparators | src/unix/parser.rs:47 | a component parser followed by the run of separators after it: same outcome and value, with that run skipped |
| UnixPathParser.Name | src/unix/parser.rs:47 | succeeds exactly when the first byte is allowed, strictly consuming |
| UnixPathParser.RootPart | src/unix/parser.rs:43 | never fails; a root exactly when the input starts with `/`, and then the whole leading run of `/` is consumed |
| UnixPathParser.DropCurDirs | src/unix/parser.rs:51-61 | the filter keeps every component other than `.`, and `.` only at index 0 of a path without a root |
| UnixPathParser.DropCurDirsKeeps | src/unix/parser.rs:51-61 | the filter never empties a list whose first component it keeps, and drops nothing but `.` |
| UnixPathParser.UnixComponentsParse | src/unix/parser.rs:39-80 | on success the raw bytes plus the rest are the input, and there is at least one component |
| UnixPathParser.Parse | src/unix/parser.rs:26-35 | on success the raw bytes are the whole input |
| UnixPathParser.SpecComponents | src/unix/parser.rs:36-80 | reference reading: a root for a leading `/`, then the `/`-separated segments classified, `.` dropped except first in a relative path |
| UnixPathParser.ParseNulFree | src/unix/parser.rs:26-80 | on non-empty NUL-free input `parse` yields the reference components over the whole input |
| UnixPathParser.ParseRejects | src/unix/parser.rs:128-132 | `parse` rejects empty input and input holding a NUL |
| UnixPathParser.ParseMatchesSegments | src/unix/parser.rs:26-80 | `parse` succeeds exactly on non-empty NUL-free input, and then yields the reference components |
| UnixPathParserProperties.ParseRootFirst | src/unix/parser.rs:64-66 | a leading `/` gives exactly one root, placed first, and no other component is a root |
| UnixPathParserProperties.ParseCurDirOnlyFirst | src/unix/parser.rs:51-61 | `.` survives only as the first component of a path without a root |
| UnixPathParserProperties.SegmentsAfterSlashes | src/unix/parser.rs:43-47 | separators before a segment add no segment |
| UnixPathParserProperties.SegmentsAfterName | src/unix/parser.rs:84-87 | a name without `/`, followed by the end or a `/`, is one segment |
| UnixPathParserProperties.ParseCollapsesSeparators | src/unix/parser.rs:243-261 | `/////a///.//..///` parses to the root, `a` and `..` |
| UnixPathParserProperties.ParseRejectsNul | src/unix/parser.rs:131-132 | `abc\0def` is rejected |
| UnixPathParserProperties.DotsInsideNamesAreNormal | src/unix/parser.rs:287-300 | `.hello`, `..hello` and `...` are normal names |
| UnixIncremental.CurDirOrSeparator | src/unix/components/parser.rs:97 | succeeds exactly on a lone `.` or a `/`, consuming one byte |
| UnixIncremental.SkipLen | src/unix/components/parser.rs:97 | the number of leading separators and lone `.` components, never more than the input |
| UnixIncremental.ParseFrontAsWritten | src/unix/components/parser.rs:86-103 | as written: on success strictly consumes a prefix; never yields `.` or the root once past the beginning; fails on empty input |
| UnixIncremental.ParseFront | src/unix/components/parser.rs:86-103 | with the skip optional: the same guarantees, and past the beginning it reads the component after the skipped bytes |
| UnixIncremental.TrailingSkipAsWritten | src/unix/components/parser.rs:107-122 | as written, the trailing bytes skipped, judging each `.` by the byte scanned just before it |
| UnixIncremental.TrailingSkip | src/unix/components/parser.rs:107-122 | the trailing separators and lone `.` components; the byte before them is neither a `/` nor a lone `.` |
| UnixIncremental.LastSegment | src/unix/components/parser.rs:133-140 | the segment after the last separator, read whole as `..` or a name; what stays ends with `/` and the name plus what stays is the input |
| UnixIncremental.ParseLastSegment | src/unix/components/parser.rs:124-140 | at the beginning with only skipped bytes, the front parser's reading of the original input with nothing left; otherwise the last segment |
| UnixIncremental.ParseBackAsWritten | src/unix/components/parser.rs:105-141 | as written: strictly consumes from the back, leaves input ending in `/`, never yields `.` or the root past the beginning, fails on empty input |
| UnixIncremental.ParseBack | src/unix/components/parser.rs:105-141 | with only whole `.` components skipped: the same guarantees |
| UnixIncremental.Parser.constructor | src/unix/components/parser.rs:46-51 | a parser over the input, at the beginning |
| UnixIncremental.Parser.PeekFront | src/unix/components/parser.rs:64-67 | the next front component exactly when the front parser succeeds, without changing the parser |
| UnixIncremental.Parser.NextFront | src/unix/components/parser.rs:70-75 | yields what `peek_front` would; on success moves past the component (strictly shorter input) and leaves the beginning; on failure nothing changes |
| UnixIncremental.Parser.NextBack | src/unix/components/parser.rs:79-83 | yields the back parser's component and drops it from the end of the input; the state never changes |
| UnixIncrementalProperties.SkipAll | src/unix/components/parser.rs:97 | skipping separators and lone `.`s does not change the components that follow |
| UnixIncrementalProperties.ParseFrontLater | src/unix/components/parser.rs:95-101 | past the beginning the front parser reads the first component after the skipped bytes |
| UnixIncrementalProperties.LaterIsName | src/unix/components/parser.rs:100 | on input that starts with neither `/` nor a lone `.`, the later grammar reads what a whole-path name reads |
| UnixIncrementalProperties.FrontLater | src/unix/components/parser.rs:95-101 | past the beginning, repeated front reads list exactly the components of a NUL-free input with every `.` dropped |
| UnixIncrementalProperties.FrontFirst | src/unix/components/parser.rs:88-92 | at the beginning, the root for a leading `/` (with the run of `/` consumed), otherwise the first segment classified |
| UnixIncrementalProperties.FrontAgrees | src/unix/components/parser.rs:86-103 | read from the front, the incremental parser yields exactly the whole-path components of every non-empty NUL-free path |
| UnixIncrementalProperties.FrontAgreesWithParse | src/unix/parser.rs:26-35 | on every input `parse` accepts, the front reading equals `parse`'s components |
| UnixIncrementalProperties.FrontReadsOneSegment | src/unix/components/parser.rs:88-92 | a single segment read at the beginning is one component and leaves nothing |
| UnixIncrementalProperties.FrontReadsRoot | src/unix/components/parser.rs:189-192 | `/` alone is the root |
| UnixIncrementalProperties.FrontReadsCurDir | src/unix/components/parser.rs:194-197 | `.` alone is the current directory |
| UnixIncrementalProperties.FrontReadsParentDir | src/unix/components/parser.rs:198-201 | `..` alone is the parent directory |
| UnixIncrementalProperties.FrontReadsHello | src/unix/components/parser.rs:203-206 | `hello` alone is one name, and a further read fails |
| UnixIncrementalProperties.FrontStopsAtNul | src/unix/components/parser.rs:186 | on `abc\0def` the first read yields `abc` and the next read fails at the NUL |
| UnixIncrementalProperties.LastSegmentIsName | src/unix/components/parser.rs:133-140 | a path ending in a name other than `..` yields that name from the back, everything before it left |
| UnixIncrementalProperties.FrontStopsAfterFirstName | src/unix/components/parser.rs:95-98 | as written, `a/b` yields `a` and then fails, since nothing precedes `b` to skip; with the skip optional it yields `b` |
| UnixIncrementalProperties.LaterNameWithoutSkip | src/unix/components/parser.rs:97 | a name with nothing to skip before it: the written skip fails, the optional one reads the name |
| UnixIncrementalProperties.TrailingSkipOfNameDot | src/unix/components/parser.rs:111-122 | on `a/b.` the written closure skips the final `.`; skipping whole `.` components skips nothing |
| UnixIncrementalProperties.BackAsWrittenDropsTrailingDot | src/unix/components/parser.rs:105-141 | as written, `next_back` on `a/b.` yields `b` |
| UnixIncrementalProperties.BackKeepsTrailingDot | src/unix/components/parser.rs:105-141 | skipping only whole `.` components, `next_back` on `a/b.` yields `b.` |
| UnixBackProperties.SegmentsAppend | src/unix/components/parser.rs:133-140 | splitting a path after a separator splits its segments the same way |
| UnixBackProperties.LoneDotsVanish | src/unix/components/parser.rs:107-122 | separators and lone `.`s denote no component past the first |
| UnixBackProperties.TrailingSkipLoneDots | src/unix/components/parser.rs:107-122 | the bytes skipped from the back are separators and lone `.`s, and start with a separator when something is kept before them |
| UnixBackProperties.StripKeeps | src/unix/components/parser.rs:107-122 | stripping the skipped trailing bytes changes no component past the first |
| UnixBackProperties.LastSegmentIsParent | src/unix/components/parser.rs:133-140 | a path ending in `..` yields `..` from the back, everything before it left |
| UnixBackProperties.LastSegmentOf | src/unix/components/parser.rs:133-140 | a last segment other than `.` is read whole, as `..` or a name |
| UnixBackProperties.LastSegmentSplit | src/unix/components/parser.rs:133-140 | after stripping, the last segment is `..` or a name and what stays is the path before it |
| UnixBackProperties.BackLater | src/unix/components/parser.rs:105-141 | past the beginning, `next_back` fails exactly when no component is left, and otherwise takes the last remaining component |
| UnixBackProperties.OnlyFirstComponent | src/unix/components/parser.rs:127-131 | at the beginning, a path of separators and lone `.`s denotes exactly the one component the front parser reads |
| UnixBackProperties.BackAtBeginning | src/unix/components/parser.rs:105-141 | at the beginning, `next_back` on a non-empty NUL-free path succeeds and takes the last whole-path component, the rest denoting the others |
| UnixBackProperties.BackAgrees | src/unix/components/parser.rs:79-83 | reading a NUL-free path from the back yields its whole-path components in reverse |
| UnixBackProperties.BackAgreesLater | src/unix/components/parser.rs:105-141 | past the beginning, reading from the back yields the remaining components in reverse |
| UnixBackProperties.BackMirrorsFront | src/unix/components/parser.rs:70-83 | from the back a non-empty NUL-free path yields what the front yields, reversed |
| UnixComponentsModel.FrontRootIff | src/unix/non_utf8/components.rs:58-63 | a front read yields the root exactly at the beginning of a path starting with `/` |
| UnixComponentsModel.FreshListsAgree | src/unix/non_utf8/components.rs:115-123 | fresh front readings of two NUL-free paths agree exactly when their whole-path readings do |
| UnixComponentsModel.UnixComponents.constructor | src/unix/non_utf8/components.rs:17-21 | an iterator over the whole path, at the beginning |
| UnixComponentsModel.UnixComponents.HasRoot | src/unix/non_utf8/components.rs:58-63 | true exactly before the first component of a path starting with `/` |
| UnixComponentsModel.UnixComponents.IsAbsolute | src/unix/non_utf8/components.rs:54-56 | true exactly when the path has a root |
| UnixComponentsModel.UnixComponents.Next | src/unix/non_utf8/components.rs:102-104 | the front parser's next component; the remaining bytes shrink to what it left |
| UnixComponentsModel.UnixComponents.NextBack | src/unix/non_utf8/components.rs:108-110 | the back parser's next component; the remaining bytes shrink to the part before it |
| UnixComponentsModel.UnixComponents.Eq | src/unix/non_utf8/components.rs:115-123 | equal remaining bytes compare equal; for NUL-free paths, equal exactly when their whole-path components are |
| UnixComponentsModel.UnixComponents.Cmp | src/unix/non_utf8/components.rs:127-142 | equal exactly when `eq` holds |
| UnixComponentsModel.ComponentsCmpAntisymmetric | src/unix/non_utf8/components.rs:134-142 | swapping the iterators reverses their order |
| UnixComponentsModel.TryFrom | src/unix/non_utf8/components/component.rs:206-215 | parsed exactly when the path has one front component, which it is; otherwise the error names no component or more than one |
| UnixComponentsModel.TryFromSpec | src/unix/non_utf8/components/component.rs:206-215 | a non-empty NUL-free path is one component exactly when its whole-path reading has one, and then it is that one |
| UnixComponentsModel.TryFromRoot | src/unix/non_utf8/components/component.rs:197 | `/` is the root |
| UnixComponentsModel.TryFromCurDir | src/unix/non_utf8/components/component.rs:198 | `.` is the current directory |
| UnixComponentsModel.TryFromParentDir | src/unix/non_utf8/components/component.rs:199 | `..` is the parent directory |
| UnixComponentsModel.TryFromFileName | src/unix/non_utf8/components/component.rs:200 | `file.txt` is a normal name |
| UnixComponentsModel.TryFromTrailingSeparator | src/unix/non_utf8/components/component.rs:201 | `dir/` is the name `dir` |
| UnixComponentsModel.TryFromTwoComponents | src/unix/non_utf8/components/component.rs:203-204 | `/file` is reported as more than one component; as written, the second read fails and `/file` passes as the root |
| UnixEncodingModel.Pushed | src/unix/non_utf8.rs:67-84 | pushing a non-empty path leaves a buffer ending with it; a relative path keeps the old buffer in front, with at most one `/` added between |
| UnixEncodingModel.Push | src/unix/non_utf8.rs:67-84 | the buffer afterwards is `Pushed` of the old buffer and the path |
| UnixEncodingModel.JoinedBuffer | src/unix/non_utf8.rs:78-83 | the buffer with the added separator has the same segments and first byte and ends with `/` |
| UnixEncodingModel.PushAppendsComponents | src/unix/non_utf8.rs:67-84 | pushing a relative path onto a non-empty buffer appends the path's components, `.` aside, after the buffer's own |
| UnixEncodingModel.KeptSegments | src/unix/non_utf8.rs:31-65 | the segments `hash` writes: all but `.`, which survives only in first place of a relative path |
| UnixEncodingModel.KeptAreImages | src/unix/non_utf8.rs:44-53 | the segments `hash` keeps are exactly the bytes of the components the `.`-dropping reading leaves, root aside |
| UnixEncodingModel.ScanKeeps | src/unix/non_utf8.rs:35-56 | from a chunk start, the loop writes the kept segments of the rest of the path |
| UnixEncodingModel.HashChunks | src/unix/non_utf8.rs:31-65 | the chunks written are the kept segments of the path |
| UnixEncodingModel.HashWrites | src/unix/non_utf8.rs:31-65 | each kept segment in order, then the total number of bytes in them |
| UnixEncodingModel.Hash | src/unix/non_utf8.rs:31-65 | the loop hands the hasher each chunk it cuts and then the byte count; proved equal to `HashWrites` |
| UnixEncodingModel.HashWritesIsScan | src/unix/non_utf8.rs:31-65 | what the loop writes is `HashWrites` |
| UnixEncodingModel.RootLeads | src/unix/parser.rs:64-66 | the whole-path reading starts with the root exactly when the path starts with `/` |
| UnixEncodingModel.HashRespectsComponents | src/unix/non_utf8.rs:31-65 | paths with the same whole-path components hash alike |
| UnixEncodingModel.NoRootInNames | src/unix/parser.rs:84-87 | no component after the first is a root |
| WindowsComponentModel.PrefixLen | src/windows/component/prefix.rs:216-226 | the byte length of the prefix's canonical text, at least 2 |
| WindowsComponentModel.VerbatimIffRenderedVerbatim | src/windows/component/prefix.rs:243-246 | exactly the verbatim kinds are written starting with `\\?\` |
| WindowsComponentModel.PrefixCmp | src/windows/component/prefix.rs:151 | the derived order on prefixes: equal exactly on equal prefixes, earlier kinds first |
| WindowsComponentModel.PrefixCmpAntisymmetric | src/windows/component/prefix.rs:151 | swapping the operands reverses the prefix order |
| WindowsComponentModel.PrefixComponentCmp | src/windows/component/prefix.rs:123-142 | equal exactly when the parsed prefixes are equal |
| WindowsComponentModel.PrefixComponentIgnoresRaw | src/windows/component/prefix.rs:123-142 | neither equality nor order looks at the raw bytes |
| WindowsComponentModel.AsBytes | src/windows/non_utf8/components/component.rs:79-87 | a prefix stands for its raw bytes, the root for `\`, `.` and `..` for themselves, a name for its bytes |
| WindowsComponentModel.IsRootCases | src/windows/non_utf8/components/component.rs:112-117 | a root is the separator or a prefix; a verbatim drive is a root, a plain drive is not; a root is no name, `.` or `..` |
| WindowsComponentModel.KindsExclusive | src/windows/non_utf8/components/component.rs:134-172 | at most one of `is_normal`, `is_parent`, `is_current` holds, and none exactly for a prefix or the root |
| WindowsComponentModel.AnyDisallowed | src/windows/non_utf8/components/component.rs:195 | true exactly when some byte is disallowed |
| WindowsComponentModel.IsValid | src/windows/non_utf8/components/component.rs:192-197 | invalid exactly for a name holding a disallowed byte |
| WindowsComponentModel.IsValidExamples | src/windows/non_utf8/components/component.rs:180-190 | `|` is an invalid name, `abc` a valid one; the root, `.` and `..` are valid |
| WindowsComponentModel.PrefixOf | src/windows/non_utf8/components/component.rs:42-47 | a prefix component exactly for the prefix variant, with the component's bytes as its raw bytes |
| WindowsComponentModel.PrefixKind | src/windows/non_utf8/components/component.rs:55-57 | a prefix kind exactly for the prefix variant |
| WindowsComponentModel.Len | src/windows/non_utf8/components/component.rs:199-201 | the length of the component's bytes, 1 or 2 for the root, `.` and `..` |
| WindowsComponentModel.Root | src/windows/non_utf8/components/component.rs:212-214 | a root that is not a prefix |
| WindowsComponentModel.Parent | src/windows/non_utf8/components/component.rs:225-227 | a component for which `is_parent` holds |
| WindowsComponentModel.Current | src/windows/non_utf8/components/component.rs:238-240 | a component for which `is_current` holds |
| WindowsComponentModel.Cmp | src/windows/non_utf8/components/component.rs:13 | the derived order: equal exactly when equal under `PartialEq`, earlier variants first |
| WindowsComponentModel.CmpAntisymmetric | src/windows/non_utf8/components/component.rs:13 | swapping the operands reverses the component order |
| WindowsComponentModel.SeqCmp | src/windows/non_utf8/components/component.rs:13 | the order on component sequences is equal exactly when the sequences are equal element by element |
| WindowsComponentModel.SeqCmpAntisymmetric | src/windows/non_utf8/components/component.rs:13 | swapping the operands reverses the order of component sequences |
| WindowsGrammar.ParseSeparator | src/windows/parser.rs:123-126 | succeeds exactly on a leading `\` or `/`, consuming just it |
| WindowsGrammar.ParseRootDir | src/windows/parser.rs:98-101 | succeeds exactly on a leading separator, consuming just it, yielding the root |
| WindowsGrammar.AtComponentEnd | src/windows/parser.rs:104 | succeeds without consuming exactly at the end or before a separator |
| WindowsGrammar.ParseCurDir | src/windows/parser.rs:103-106 | succeeds exactly on a `.` followed by the end or a separator, consuming the `.` |
| WindowsGrammar.ParseParentDir | src/windows/parser.rs:108-111 | succeeds exactly on `..` followed by the end or a separator, consuming the `..` |
| WindowsGrammar.NormalBytes | src/windows/parser.rs:118-121 | succeeds exactly when the first byte is allowed; takes the longest non-empty run of allowed bytes |
| WindowsGrammar.NormalBytesReads | src/windows/parser.rs:118-121 | a field followed by a disallowed byte or the end is read as exactly that field |
| WindowsGrammar.ParseNormal | src/windows/parser.rs:113-116 | a name exactly when the first byte is allowed; the longest run of allowed bytes |
| WindowsGrammar.FileOrDirName | src/windows/parser.rs:93-96 | succeeds exactly when the first byte is allowed; consumes the whole first segment and classifies it |
| WindowsGrammar.SkipSeparators | src/windows/parser.rs:42 | `zero_or_more(separator)` skips exactly the leading run of separators |
| WindowsGrammar.WithTrailingSeparators | src/windows/parser.rs:51 | a component parser followed by the separators after it: same outcome and value, with that run skipped |
| WindowsGrammar.ParseVerbatim | src/windows/parser.rs:191-197 | succeeds exactly on `\\?\` with either separator, consuming four bytes |
| WindowsGrammar.ParseDeviceStart | src/windows/parser.rs:201-204 | succeeds exactly on `\\.\` with either separator, consuming four bytes |
| WindowsGrammar.ServerShare | src/windows/parser.rs:157 | a server and a share, both non-empty runs of allowed bytes, around one separator |
| WindowsGrammar.ServerShareReads | src/windows/parser.rs:157 | two fields joined by a separator and followed by a disallowed byte or the end read back as those fields |
| WindowsGrammar.ParseUNCTag | src/windows/parser.rs:155 | succeeds exactly on a leading `UNC`, consuming it |
| WindowsGrammar.PrefixVerbatimUNC | src/windows/parser.rs:152-161 | succeeds exactly on `\\?\UNC` and a separator followed by a server and share, yielding them |
| WindowsGrammar.DriveLetterAsWritten | src/windows/parser.rs:234-243 | as written, needs a byte after the letter: succeeds exactly on an alphabetic byte followed by another byte |
| WindowsGrammar.DriveLetter | src/windows/parser.rs:234-243 | corrected: succeeds exactly on a leading alphabetic byte, consuming it |
| WindowsGrammar.DiskByte | src/windows/parser.rs:226-231 | succeeds exactly on a letter followed by `:`, yielding the letter |
| WindowsGrammar.DiskByteUnaffected | src/windows/parser.rs:226-231 | the stricter written `take(1)` makes no difference to `disk_byte` |
| WindowsGrammar.PrefixVerbatimDisk | src/windows/parser.rs:186-189 | succeeds exactly on `\\?\`, a letter and `:`, yielding that drive |
| WindowsGrammar.NoColonAfterLetter | src/windows/parser.rs:177-181 | when the guard holds, succeeds exactly when no `:` follows; consumes nothing |
| WindowsGrammar.PrefixVerbatimAsWritten | src/windows/parser.rs:164-184 | as written: succeeds exactly on `\\?\` and a non-empty name other than `UNC`, whatever follows |
| WindowsGrammar.PrefixVerbatim | src/windows/parser.rs:164-184 | the same, except that a one-letter name followed by `:` is refused |
| WindowsGrammar.PrefixDeviceNS | src/windows/parser.rs:200-208 | succeeds exactly on `\\.\` and a non-empty device name, yielding it |
| WindowsGrammar.PrefixUNC | src/windows/parser.rs:210-218 | succeeds exactly on two separators followed by a server and share, yielding them |
| WindowsGrammar.PrefixDisk | src/windows/parser.rs:221-223 | succeeds exactly on a letter and `:`, yielding that drive |
| WindowsPrefixProperties.WithBackslashes | src/windows/parser.rs:123-126 | the text with every `/` written as `\`, same length |
| WindowsPrefixProperties.ReadsVerbatim | src/windows/parser.rs:164-184 | `\\?\` and a name other than `UNC`, written out, reads back as that verbatim prefix |
| WindowsPrefixProperties.ReadsVerbatimUNC | src/windows/parser.rs:152-161 | `\\?\UNC\server\share` reads back as that verbatim UNC prefix |
| WindowsPrefixProperties.ReadsVerbatimDisk | src/windows/parser.rs:186-189 | `\\?\C:` reads back as that verbatim drive |
| WindowsPrefixProperties.ReadsDeviceNS | src/windows/parser.rs:200-208 | `\\.\device` reads back as that device prefix |
| WindowsPrefixProperties.ReadsUNC | src/windows/parser.rs:210-218 | `\\server\share` reads back as that UNC prefix |
| WindowsPrefixProperties.ReadsDisk | src/windows/parser.rs:221-223 | `C:` reads back as that drive |
| WindowsPrefixProperties.PrefixRoundTrip | src/windows/parser.rs:140-149 | every well-formed prefix, written out and followed by a separator or the end, reads back as itself |
| WindowsPrefixProperties.ServerShareWritten | src/windows/parser.rs:157 | what the server-and-share reader consumed, with `/` written as `\`, is the server, then `\` and the share |
| WindowsPrefixProperties.UNCServerNotDot | src/windows/parser.rs:200-218 | a UNC server read by `prefix_unc` is never `.` |
| WindowsPrefixProperties.PrefixReadsWritten | src/windows/parser.rs:128-149 | whatever `prefix` reads is well formed, the bytes it consumed are that prefix's text up to `/` written as `\`, and their number is `len` |
| WindowsPrefixProperties.VerbatimDriveGuard | src/windows/parser.rs:635 | on `\\?\C:` the written `prefix_verbatim` reads the name `C` and leaves the `:`; the intended check rejects it, as the test expects |
| WindowsPrefixProperties.VerbatimGuardOnlyBeforeColon | src/windows/parser.rs:164-189 | the two readings of `prefix_verbatim` differ only where `prefix_verbatim_disk` succeeds |
| WindowsPrefixProperties.PrefixGuardUnreachable | src/windows/parser.rs:140-149 | through `prefix` the written and the intended guard give the same outcome on every input |
| WindowsPathParser.PrefixComponentParse | src/windows/parser.rs:128-138 | succeeds exactly when `prefix` does, with its rest and value; the raw bytes are what was consumed, as long as `len`, and are the prefix's text up to `/` written as `\` |
| WindowsPathParser.RootPart | src/windows/parser.rs:42 | never fails; a root exactly when the input starts with a separator, and then the whole run of separators is consumed |
| WindowsPathParser.Name | src/windows/parser.rs:51 | succeeds exactly when the first byte is allowed, strictly consuming |
| WindowsPathParser.DropCurDirs | src/windows/parser.rs:55-64 | the filter keeps every component other than `.`, and `.` only at index 0 of a path without a root |
| WindowsPathParser.DropCurDirsKeeps | src/windows/parser.rs:55-64 | the filter never empties a list whose first component it keeps, and drops nothing but `.` |
| WindowsPathParser.Assemble | src/windows/parser.rs:66-78 | on success the raw bytes plus the rest are the input, and there is at least one component |
| WindowsPathParser.WindowsComponentsParse | src/windows/parser.rs:37-90 | on success the raw bytes plus the rest are the input, and there is at least one component |
| WindowsPathParser.Parse | src/windows/parser.rs:26-34 | on success the raw bytes are the whole input |
| WindowsPathParser.AfterPrefix | src/windows/parser.rs:41 | the input after its prefix, a suffix of it |
| WindowsPathParser.SpecComponents | src/windows/parser.rs:37-90 | reference reading: the prefix, a root when a separator follows it or starts the path, then the separated segments classified, `.` dropped except first when there is no root, explicit or implied |
| WindowsPathParser.NamesOfClean | src/windows/parser.rs:50-51 | the names of a clean input not starting with a separator are its classified segments, using up the input |
| WindowsPathParser.NamesStopAtDisallowed | src/windows/parser.rs:50-51 | names never consume a disallowed byte other than a separator |
| WindowsPathParser.SpecNonEmpty | src/windows/parser.rs:80-82 | a non-empty path gives at least one component |
| WindowsPathParser.ComponentsOnClean | src/windows/parser.rs:37-90 | when the input after the prefix is clean, `windows_components` consumes everything and yields the reference components |
| WindowsPathParser.ComponentsOnDisallowed | src/windows/parser.rs:37-90 | when the input after the prefix is not clean, `windows_components` leaves input unparsed |
| WindowsPathParser.ParseMatchesSegments | src/windows/parser.rs:26-90 | `parse` succeeds exactly on non-empty input clean after its prefix, and then yields the reference components |
| WindowsPathParserProperties.AssembleShape | src/windows/parser.rs:66-78 | in an assembled list a prefix can only come first and a root only right after the prefix or first |
| WindowsPathParserProperties.ParsedAssembled | src/windows/parser.rs:37-90 | a parsed path's components are the prefix `prefix` reads, the root and the names, assembled |
| WindowsPathParserProperties.ParseShape | src/windows/parser.rs:37-90 | every parsed path: a prefix only first, exactly when the input starts with one, read from bytes that are its text; a root only first or right after it |
| WindowsPathParserProperties.AssembleRoots | src/windows/parser.rs:44-48 | an assembled list holds a root component exactly when the path has a root |
| WindowsPathParserProperties.DriveIsPrefix | src/windows/parser.rs:140-149 | `C:` followed by anything but a separator: only the drive is read as a prefix |
| WindowsPathParserProperties.AssemblePrefixOnly | src/windows/parser.rs:44-64 | a prefix followed by a lone `.` keeps the `.` only after a plain drive |
| WindowsPathParserProperties.DriveDotKeepsCurDir | src/windows/parser.rs:371-376 | `C:.` parses to the drive and `.` |
| WindowsPathParserProperties.VerbatimDriveDotDropsCurDir | src/windows/parser.rs:385-392 | `\\?\C:.` parses to the verbatim drive alone |
| WindowsPathParserProperties.UNCAlone | src/windows/parser.rs:512-516 | `\\server\share` parses to a single UNC prefix |
| WindowsPathParserProperties.DigitColonRejected | src/windows/parser.rs:789 | `1:` is not a drive and is rejected |
| WindowsStepGrammar.VerbatimSeparator | src/windows/components/parser.rs:302-305 | succeeds exactly on a leading `\`, consuming it |
| WindowsStepGrammar.SepIn | src/windows/components/parser.rs:122-126 | succeeds exactly on a leading separator of the mode (`\` or `/` when normalising, `\` alone otherwise) |
| WindowsStepGrammar.NormalBytesIn | src/windows/components/parser.rs:287-294 | succeeds exactly when the first byte is not a separator; takes every byte up to the next separator |
| WindowsStepGrammar.RootDirIn | src/windows/components/parser.rs:247-254 | succeeds exactly on a leading separator of the mode, yielding the root |
| WindowsStepGrammar.CurDirIn | src/windows/components/parser.rs:256-263 | succeeds exactly on a `.` followed by the end or a separator of the mode |
| WindowsStepGrammar.ParentDirIn | src/windows/components/parser.rs:265-272 | succeeds exactly on `..` followed by the end or a separator of the mode |
| WindowsStepGrammar.NormalIn | src/windows/components/parser.rs:274-281 | a name exactly when the first byte is not a separator: the bytes up to the next one |
| WindowsStepGrammar.FileNameIn | src/windows/components/parser.rs:140-146 | succeeds exactly when the first byte is not a separator; reads the whole segment and classifies it (`.` counts only when not normalising); never a prefix |
| WindowsStepGrammar.ShareIn | src/windows/components/parser.rs:343-344 | never fails; after a separator, the bytes up to the next one; an empty share otherwise |
| WindowsStepGrammar.ServerShareIn | src/windows/components/parser.rs:340-344 | a server up to the next separator, then the optional share after it |
| WindowsStepGrammar.StepVerbatimUNC | src/windows/components/parser.rs:331-350 | succeeds exactly on `\\?\UNC`, a separator of the mode and a server; yields server and share |
| WindowsStepGrammar.VerbatimName | src/windows/components/parser.rs:368 | succeeds exactly on non-empty input: the bytes up to the next separator, blank before one |
| WindowsStepGrammar.StepVerbatim | src/windows/components/parser.rs:353-372 | succeeds exactly on `\\?\` and more when neither the verbatim drive nor the verbatim UNC form applies |
| WindowsStepGrammar.StepDeviceNS | src/windows/components/parser.rs:389-397 | succeeds exactly on `\\.\` followed by a byte that is not a separator; the device runs to the next separator |
| WindowsStepGrammar.StepUNC | src/windows/components/parser.rs:399-411 | succeeds exactly on two separators and a byte that is not one; yields the server and the optional share |
| WindowsStepGrammar.StepPrefix | src/windows/components/parser.rs:319-328 | on success strictly consumes a prefix of the input |
| WindowsStepGrammar.StepPrefixOk | src/windows/components/parser.rs:319-328 | `prefix` succeeds exactly when the input starts with two separators and a byte that is none, or with a drive letter and `:`; the verbatim and device forms add no input of their own |
| WindowsStepGrammar.StepPrefixComponent | src/windows/components/parser.rs:307-317 | succeeds exactly when `prefix` does; the raw bytes are what it consumed, never empty |
| WindowsIncremental.NextState | src/windows/components/parser.rs:95-100 | the state after a read: having seen a prefix after a prefix, past the beginning otherwise |
| WindowsIncremental.SkipLenAsWritten | src/windows/components/parser.rs:148-162 | as written, the bytes `move_to_next` skips, judging each `.` by the byte it looked at before |
| WindowsIncremental.MoveToNextAsWritten | src/windows/components/parser.rs:148-162 | as written, succeeds exactly when there is something to skip, and skips it |
| WindowsIncremental.SkipStep | src/windows/components/parser.rs:148-162 | one skippable unit: a separator of the mode or, when normalising, a lone `.` |
| WindowsIncremental.SkipLen | src/windows/components/parser.rs:148-162 | the separators and lone `.`s skipped between components; what follows is not skippable |
| WindowsIncremental.AfterPrefixChoice | src/windows/components/parser.rs:197 | succeeds exactly on non-empty input: a root for a separator, `.` for a lone `.`, otherwise a file name |
| WindowsIncremental.BeginChoice | src/windows/components/parser.rs:193 | a prefix when one is there, otherwise what may follow a prefix |
| WindowsIncremental.Choice | src/windows/components/parser.rs:190-202 | the grammar of each state; a prefix only at the beginning, read as `prefix_component` reads it |
| WindowsIncremental.ParseFrontAsWritten | src/windows/components/parser.rs:174-206 | as written: same outcomes as the state's grammar on success, strictly consuming |
| WindowsIncremental.ParseFront | src/windows/components/parser.rs:174-206 | succeeds exactly on non-empty input not starting with a separator past the beginning; yields the state's grammar value, strictly consuming, and stops right after a prefix |
| WindowsIncremental.TrailingSkip | src/windows/components/parser.rs:218-219 | the trailing separators and, when normalising, lone `.`s; the byte before them is none of these |
| WindowsIncremental.Stripped | src/windows/components/parser.rs:218-219 | the input without the trailing bytes skipped, empty or ending in a byte of the last name |
| WindowsIncremental.WholeFileName | src/windows/components/parser.rs:233 | reads a non-empty segment whole and classifies it |
| WindowsIncremental.LastSegment | src/windows/components/parser.rs:230-233 | succeeds exactly when the stripped input ends in a non-separator; yields a name, `..`, or `.` in a verbatim path |
| WindowsIncremental.LastSegmentRest | src/windows/components/parser.rs:230-233 | what stays is the stripped input before the segment, ending with a separator when not empty |
| WindowsIncremental.BodyBack | src/windows/components/parser.rs:217-243 | on what follows the prefix, or a path without one: succeeds exactly on non-empty input; when only separators and lone `.`s are left, the front reading of a root, `.` or name with nothing left; otherwise the last segment of the stripped input |
| WindowsIncremental.BeginBack | src/windows/components/parser.rs:208-244 | at the beginning: succeeds exactly on non-empty input, strictly shortening it; a path that is only a prefix yields that prefix, and what is left keeps the prefix's raw bytes in front of what the body reading left |
| WindowsIncremental.ParseBack | src/windows/components/parser.rs:208-244 | `parse_back`: at the beginning the prefix is kept apart and read last; further on, the last segment of the stripped input |
| WindowsIncremental.ParseBackShape | src/windows/components/parser.rs:208-244 | what stays is a strictly shorter start of the input, ending with a separator unless it is the leading prefix's raw bytes; past the beginning only names, `..` and, verbatim, `.`; nothing is read from empty input |
| WindowsIncremental.Parser.constructor | src/windows/components/parser.rs:67-78 | a parser at the beginning, normalising exactly when the input does not start with `\\?\` |
| WindowsIncremental.Parser.PeekFront | src/windows/components/parser.rs:91-93 | the next front component exactly when the front parser succeeds, without changing the parser |
| WindowsIncremental.Parser.NextFront | src/windows/components/parser.rs:91-103 | on success moves past the component and enters the state after it; on failure nothing changes |
| WindowsIncremental.Parser.NextBack | src/windows/components/parser.rs:107-111 | yields the back parser's component and drops it from the end; the state never changes |
| WindowsIncrementalProperties.FrontAgrees | src/windows/components/parser.rs:174-206 | read from the front, component after component, the corrected parser yields exactly the reference reading of any input in either mode: the prefix if one starts the path, a root for a separator after it, a first `.` as `CurDir`, then every non-empty segment (lone `.` skipped when normalising) classified |
| WindowsIncrementalProperties.FrontNames | src/windows/components/parser.rs:190-202 | once past the beginning, at the start of a name, the front parser lists exactly the kept segments of the rest of the input |
| WindowsIncrementalProperties.FrontAfterPrefix | src/windows/components/parser.rs:193-198 | after a prefix, or at the start of a path without one, the parser lists a root for a leading separator, a first `.` as `CurDir`, and then the names |
| WindowsIncrementalProperties.SkipAll | src/windows/components/parser.rs:148-162 | the separators and lone `.` that the corrected `move_to_next` skips do not change the names that follow |
| WindowsIncrementalProperties.NamesAtSep | src/windows/components/parser.rs:148-162 | a repeated separator adds no component |
| WindowsIncrementalProperties.NamesKinds | src/windows/components/parser.rs:140-146 | past the first component only file names and `..` appear, and `.` only in a verbatim path |
| WindowsIncrementalProperties.AfterPrefixKinds | src/windows/components/parser.rs:193-198 | after a prefix no prefix appears; a root or `CurDir` only in first place |
| WindowsIncrementalProperties.FrontShape | src/windows/components/parser.rs:190-202 | in the front listing a prefix comes only first, a root only first or right after the prefix, and a later `CurDir` only in a verbatim path |
| WindowsIncrementalProperties.NoPrefix | src/windows/components/parser.rs:319-328 | a path whose first byte is not a separator and whose second is not `:` has no prefix |
| WindowsIncrementalProperties.LastComponentLostAsWritten | src/windows/components/parser.rs:148-162 | `move_to_next` as written is `take_until_byte`, which fails on empty input, so a component that ends the input makes `parse_front` fail where the corrected parser succeeds |
| WindowsIncrementalProperties.SingleNameLostAsWritten | src/windows/components/parser.rs:174-206 | on a path that is one name the front parser as written lists nothing |
| WindowsIncrementalProperties.SingleNameCorrected | src/windows/components/parser.rs:486-487 | on a path that is one name the corrected front parser lists that name, as the test expects of `hello` |
| WindowsIncrementalProperties.HelloAsWritten | src/windows/components/parser.rs:486-487 | `hello`: as written nothing, corrected `Normal(hello)` |
| WindowsIncrementalProperties.AfterPrefixNameLost | src/windows/components/parser.rs:195 | after a prefix, a name that ends the input is lost the same way as written |
| WindowsIncrementalProperties.DiskRootLostAsWritten | src/windows/components/parser.rs:148-162 | `C:\x` as written lists only the disk: the root after the drive is skipped as a separator and the final name is lost |
| WindowsIncrementalProperties.DiskRootCorrected | src/windows/components/parser.rs:190-202 | `C:\x` corrected lists the disk, the root and the name |
| WindowsIncrementalProperties.ParentAfterSepAsWritten | src/windows/components/parser.rs:152-160 | the normalising `move_to_next` as written skips the separator and the first `.` of `..`, while the corrected skip stops at `..` |
| WindowsIncrementalProperties.ParentDirFirstAsWritten | src/windows/components/parser.rs:174-206 | the first step on `a\..\b` as written reads `a` and skips past the first `.` of `..` |
| WindowsIncrementalProperties.DotNameAsWritten | src/windows/components/parser.rs:140-146 | the second step on `a\..\b` as written reads the leftover `.` as a file name |
| WindowsIncrementalProperties.ParentDirLostAsWritten | src/windows/components/parser.rs:148-162 | `a\..\b` as written lists `a` and a name `.`, losing both `..` and `b` |
| WindowsIncrementalProperties.ParentDirCorrected | src/windows/components/parser.rs:148-162 | `a\..\b` corrected lists `a`, `..`, `b` |
| WindowsIncrementalProperties.BackFailsOnNameAsWritten | src/windows/components/parser.rs:208-244 | `parse_back` as written skips separators from the front of its input rather than its end, so it fails on every input that starts with a name |
| WindowsIncrementalProperties.BackReadsLastName | src/windows/components/parser.rs:229-243 | the corrected `parse_back` reads the last name after the last separator and leaves everything before that separator; at the beginning this needs the prefix, if any, to end before that separator |
| WindowsIncrementalProperties.BackAsWrittenExample | src/windows/components/parser.rs:208-244 | `a\b`: as written `next_back` fails; corrected it yields `b` and leaves `a\` |
| WindowsBackProperties.BodyBackSpec | src/windows/components/parser.rs:217-243 | on non-empty input after the prefix, the back step succeeds and the reference reading of that input is the reading of what it leaves followed by the component it yields |
| WindowsBackProperties.NoPrefixStart | src/windows/components/parser.rs:319-328 | a path without a prefix has none in any start of it |
| WindowsBackProperties.PrefixStable | src/windows/components/parser.rs:319-328 | the prefix read from a path reads the same, with the same rest, from any start of the path that holds the bytes it consumed (more than `\\?\` for a verbatim name) |
| WindowsBackProperties.PrefixComponentStable | src/windows/components/parser.rs:307-317 | a prefix's raw bytes followed by any start of what followed them read as the same prefix component, unless the prefix is a verbatim one with an empty name and nothing follows |
| WindowsBackProperties.BackAtBeginning | src/windows/components/parser.rs:208-244 | at the beginning the back step succeeds on any non-empty path unless the path starts with a verbatim prefix with an empty name (`\\?\` directly followed by a separator); the path's components are those of what it leaves followed by the one it yields, and what it leaves starts with the same prefix |
| WindowsBackProperties.BackAgrees | src/windows/components/parser.rs:208-244 | read from the back until it stops, the parser yields the reference components of the path in reverse, prefix last, unless the path starts with a verbatim prefix with an empty name (`\\?\` directly followed by a separator) |
| WindowsBackProperties.BackMirrorsFront | src/windows/components/parser.rs:174-244 | reading from the back lists, in reverse, exactly what reading from the front lists, unless the path starts with a verbatim prefix with an empty name (`\\?\` directly followed by a separator) |
| WindowsBackProperties.BlankVerbatimRereads | src/windows/components/parser.rs:319-328 | a verbatim prefix with an empty name is four bytes, and once the back reading is down to them they read as a UNC prefix with server `?`, so `BackAgrees` cannot hold there |
| WindowsComponentsModel.LeadingPrefix | src/windows/components.rs:86-91 | the prefix a path starts with, as the incremental grammar reads it; its raw bytes followed by what is left are the input |
| WindowsComponentsModel.FirstPrefix | src/windows/components.rs:86-91 | the first component is a prefix exactly when the parser is at the beginning of a path that starts with one, and the parser then continues after its bytes |
| WindowsComponentsModel.FirstRoot | src/windows/components.rs:54-68 | the first component is the root exactly for a leading separator, at the beginning or right after a prefix |
| WindowsComponentsModel.FrontTwoShape | src/windows/components.rs:37-48 | what a copy of the parser reads in its first two steps, stated in terms of the bytes |
| WindowsComponentsModel.WindowsComponents.constructor | src/windows/components.rs:17-21 | a fresh iterator over all of the path, at the beginning, normalising unless the path starts with `\\?\` |
| WindowsComponentsModel.WindowsComponents.IsAbsolute | src/windows/components.rs:37-48 | true exactly when a prefix is followed by a root, as in `C:\x` and not `C:x` or `\x`; the iterator is untouched |
| WindowsComponentsModel.WindowsComponents.HasRoot | src/windows/components.rs:54-68 | true exactly for a leading root, a disk or verbatim-disk prefix followed by a root, or any other prefix |
| WindowsComponentsModel.WindowsComponents.PeekFront | src/windows/components.rs:72-77 | `Some` of what `next_front` would read, the iterator left as it is |
| WindowsComponentsModel.WindowsComponents.Prefix | src/windows/components.rs:86-91 | `Some` exactly when the iterator is at the beginning of a path that starts with a prefix, and then the leading prefix, whose bytes start the input |
| WindowsComponentsModel.WindowsComponents.HasPrefix | src/windows/components.rs:81-83 | true exactly when `prefix` is `Some` |
| WindowsComponentsModel.WindowsComponents.PrefixLen | src/windows/components.rs:94-96 | the number of bytes the leading prefix takes, positive, and 0 without a prefix |
| WindowsComponentsModel.WindowsComponents.PrefixKind | src/windows/components.rs:100-102 | `Some` exactly with a prefix, holding its kind |
| WindowsComponentsModel.WindowsComponents.HasAnyVerbatimPrefix | src/windows/components.rs:105-110 | true exactly for a `Verbatim`, `UNC` or `Disk` prefix, as coded |
| WindowsComponentsModel.WindowsComponents.HasVerbatimPrefix | src/windows/components.rs:113-115 | true exactly for a `Verbatim` prefix |
| WindowsComponentsModel.WindowsComponents.HasVerbatimUNCPrefix | src/windows/components.rs:118-120 | true exactly for a `VerbatimUNC` prefix |
| WindowsComponentsModel.WindowsComponents.HasVerbatimDiskPrefix | src/windows/components.rs:123-125 | true exactly for a `VerbatimDisk` prefix |
| WindowsComponentsModel.WindowsComponents.HasDeviceNSPrefix | src/windows/components.rs:128-130 | true exactly for a `DeviceNS` prefix |
| WindowsComponentsModel.WindowsComponents.HasUNCPrefix | src/windows/components.rs:133-135 | true exactly for a `UNC` prefix |
| WindowsComponentsModel.WindowsComponents.HasDiskPrefix | src/windows/components.rs:138-140 | true exactly for a `Disk` prefix |
| WindowsComponentsModel.WindowsComponents.HasPhysicalRoot | src/windows/components.rs:146-157 | true exactly when a root is first or comes right after the prefix |
| WindowsComponentsModel.WindowsComponents.HasImplicitRoot | src/windows/components.rs:163-168 | true exactly for a prefix that is not `Disk` |
| WindowsComponentsModel.WindowsComponents.IsOnlyDisk | src/windows/components.rs:171-178 | true exactly for a `Disk` prefix after which the parser finds nothing |
| WindowsComponentsModel.WindowsComponents.Next | src/windows/components.rs:200-202 | `Some` exactly when `next_front` succeeds, with its component; the remaining bytes become what it left, a strictly shorter suffix |
| WindowsComponentsModel.WindowsComponents.NextBack | src/windows/components.rs:206-208 | `Some` exactly when `next_back` succeeds, with its component; the remaining bytes become what it left, a strictly shorter prefix |
| WindowsComponentsModel.WindowsComponents.Eq | src/windows/components.rs:213-221 | the remaining paths, each read afresh, give component-wise equal lists; equal remaining bytes are always equal |
| WindowsComponentsModel.WindowsComponents.Cmp | src/windows/components.rs:225-241 | the fresh readings compared in order; `Equal` exactly when `eq` holds |
| WindowsComponentsModel.ComponentsCmpAntisymmetric | src/windows/components.rs:235-241 | swapping the two iterators reverses their order |
| WindowsComponentsModel.HasRootSplits | src/windows/components.rs:54-68 | `has_root` is a physical root, or an implicit root from a prefix that is not verbatim-disk |
| WindowsComponentsModel.VerbatimDiskAloneNotRooted | src/windows/components.rs:54-68 | `\\?\C:` alone has an implicit root by `has_implicit_root` but no root by `has_root`, which treats `VerbatimDisk` like `Disk` |
| WindowsComponentsModel.AnyVerbatimVersusIsVerbatim | src/windows/components.rs:104-110 | `has_any_verbatim_prefix` agrees with `is_verbatim` only on `Verbatim` and `DeviceNS`: it leaves out `VerbatimUNC` and `VerbatimDisk` and takes in `UNC` and `Disk`, unlike its doc comment |
| WindowsComponentsModel.VerbatimDiskExample | src/windows/component/prefix.rs:52-54 | `\\?\C:` is one verbatim-disk prefix with nothing after it |
| WindowsComponentsModel.TryFrom | src/windows/non_utf8/components/component.rs:285-294 | succeeds exactly when the path has one component, which it returns; otherwise "no component found" or "found more than one component" |
| WindowsComponentsModel.TryFromNameThenSeparator | src/windows/non_utf8/components/component.rs:281 | `dir\` gives `Normal(dir)` |
| WindowsComponentsModel.TryFromRootThenName | src/windows/non_utf8/components/component.rs:283-284 | `\file` fails with more than one component |
| WindowsComponentsModel.TryFromDrive | src/windows/non_utf8/components/component.rs:273-275 | `c:` gives the disk prefix alone, the letter kept as written. This holds for the corrected iterator; as written `try_from` fails on `c:` (see "## Findings") |
| WindowsComponentsModel.TryFromAsWritten | src/windows/non_utf8/components/component.rs:285-294 | `try_from` over the as-written `next_front`: what it yields is the component the grammar reads first |
| WindowsComponentsModel.TryFromDriveAsWritten | src/windows/non_utf8/components/component.rs:285-294 | as written, `c:` gives "no component found", where `TryFrom` gives the disk prefix |
| WindowsComponentsModel.PrefixTryFrom | src/windows/component/prefix.rs:96-104 | succeeds exactly when the whole-path prefix parser consumes all of the input; the component's bytes are then the input and their length is its kind's `len` |
| WindowsComponentsModel.PrefixTryFromDrivePath | src/windows/component/prefix.rs:99-101 | `C:\path` fails as more than a prefix |
| WindowsComponentsModel.PrefixTryFromDrive | src/windows/component/prefix.rs:33-34 | `C:` is a disk prefix whose bytes are `C:` |
| WindowsComponentsModel.PrefixTryFromName | src/windows/component/prefix.rs:96-98 | `hello` is not a prefix |
| WindowsEncodingModel.PrefixBytes | src/windows/non_utf8.rs:178-179 | the bytes `truncate(prefix_len)` keeps: the start of the buffer, empty without a prefix |
| WindowsEncodingModel.BufferStep | src/windows/non_utf8.rs:142-154 | one incoming component applied to the component buffer keeps a leading prefix, brings in only that component, and leaves the buffer as it was for `.` |
| WindowsEncodingModel.Pushed | src/windows/non_utf8.rs:128-194 | an empty path changes nothing; a path with a prefix replaces the buffer; outside the rebuild rule the result ends with the path |
| WindowsEncodingModel.Collect | src/windows/non_utf8.rs:140 | `collect()` returns exactly the components the iterator still yields, front first |
| WindowsEncodingModel.RebuildWith | src/windows/non_utf8.rs:141-155 | the loop over the incoming components leaves the buffer edited by each of them in turn |
| WindowsEncodingModel.RenderOne | src/windows/non_utf8.rs:161-173 | one step of the writing loop appends a `\` when the previous component asks for one and this one is not the root, then the component's bytes, and computes the next `need_sep` |
| WindowsEncodingModel.Render | src/windows/non_utf8.rs:157-174 | the writing loop produces the components' bytes joined with `\`, none after a root or a disk prefix |
| WindowsEncodingModel.PushRebuild | src/windows/non_utf8.rs:139-176 | under a `Verbatim`, `UNC` or `Disk` prefix the buffer becomes its own components, edited by the incoming ones, written out anew |
| WindowsEncodingModel.RebuiltBytes | src/windows/non_utf8.rs:139-176 | the bytes written for the rebuild rule are the buffer's components edited by the incoming ones and joined with `\` where needed |
| WindowsEncodingModel.PushRooted | src/windows/non_utf8.rs:177-180 | a rooted path keeps only the buffer's prefix, then appends the path |
| WindowsEncodingModel.PushRelative | src/windows/non_utf8.rs:181-193 | a `\` is added exactly when the buffer is not empty, does not end with `\` and is not a bare drive, then the path |
| WindowsEncodingModel.Push | src/windows/non_utf8.rs:128-194 | the buffer becomes the four-rule result for the old buffer and the path |
| WindowsEncodingModel.RebuiltKeepsHead | src/windows/non_utf8.rs:143-146 | the rebuild never removes the buffer's first component |
| WindowsEncodingModel.RebuiltDropsCurDir | src/windows/non_utf8.rs:147 | the rebuilt buffer holds no `.` and nothing that is neither in the buffer nor incoming |
| WindowsEncodingModel.RebuiltAppendsNames | src/windows/non_utf8.rs:153 | incoming names alone are appended in order |
| WindowsEncodingModel.RebuiltNameThenParent | src/windows/non_utf8.rs:148-152 | a name followed by `..` cancels out |
| WindowsEncodingModel.RebuiltAtRoot | src/windows/non_utf8.rs:143-146 | an incoming root drops everything after the buffer's first component |
| WindowsEncodingModel.PushKeepsPrefix | src/windows/non_utf8.rs:136-193 | whatever the rule, pushing a path without a prefix keeps the buffer's prefix in front |
| WindowsEncodingModel.OnlyDiskRebuilds | src/windows/non_utf8.rs:183-185 | a bare drive always takes the rebuild rule, so the last rule's `is_only_disk` test never fires |
| WindowsEncodingModel.Hasher.HashPrefixOf | src/windows/non_utf8.rs:39 | hashing a prefix records its kind |
| WindowsEncodingModel.Hasher.Write | src/windows/non_utf8.rs:58 | `write` records one chunk |
| WindowsEncodingModel.Hasher.WriteUsize | src/windows/non_utf8.rs:88 | `write_usize` records one count |
| WindowsEncodingModel.HashChunks | src/windows/non_utf8.rs:47-86 | the chunks the loop writes are exactly the kept segments of the bytes after the prefix |
| WindowsEncodingModel.HashBody | src/windows/non_utf8.rs:47-88 | the loop over the bytes after the prefix, testing those bytes, writes the kept segments and then their total length |
| WindowsEncodingModel.HashPrefixPart | src/windows/non_utf8.rs:37-45 | hashes the prefix kind, and returns a length that cuts the path at the end of the prefix and whether the prefix is verbatim |
| WindowsEncodingModel.Hash | src/windows/non_utf8.rs:36-89 | the writes are the prefix, the chunks between separators (`\` alone under a verbatim prefix, a `.` after a separator skipped otherwise) and their total length |
| WindowsEncodingModel.ChunksAreBodies | src/windows/non_utf8.rs:47-86 | the chunks written after the prefix are the bytes of the components that follow it, the root aside |
| WindowsEncodingModel.HashWritesOfComponents | src/windows/non_utf8.rs:36-89 | what `hash` writes is determined by the components `eq` compares, when its separator mode is the iterator's |
| WindowsEncodingModel.SeqEqBodies | src/windows/components.rs:213-221 | component lists equal under `eq` have the same prefix kind and the same body bytes |
| WindowsEncodingModel.HashRespectsComponents | src/windows/non_utf8.rs:36-89 | paths equal under `eq` hash alike, provided each path's hash splits at the separators its iterator does |
| WindowsEncodingModel.HashAsWrittenWithoutPrefix | src/windows/non_utf8.rs:49-54 | without a prefix, testing `path[i]` reads the same bytes as testing `bytes[i]` |
| WindowsEncodingModel.DrivePeekAsWritten | src/windows/non_utf8.rs:37-43 | in `C:\ab\cd` the `prefix()` of a fresh iterator reads `C:` even with `next_front` as written, since the skip after the drive consumes the `\`; so `prefix_len` is 2 in the code as written |
| WindowsEncodingModel.DriveScanAsWritten | src/windows/non_utf8.rs:49-54 | as written, the loop over the six bytes `\ab\cd` after `C:` tests `C`, `:`, `\`, `a`, `b`, `\` of the whole path and writes `\a` and `\c`, dropping `d` |
| WindowsEncodingModel.DriveScan | src/windows/non_utf8.rs:49-86 | the loop testing the bytes `\ab\cd` themselves writes `ab` and `cd` |
| WindowsEncodingModel.DriveHashAsWritten | src/windows/non_utf8.rs:36-89 | `C:\ab\cd` as written hashes the drive, then `\a`, `\c` and 4, neither chunk a component; corrected, it hashes the drive, then `ab`, `cd` and 4 |
| PathModel.Components | src/common/path.rs:173-175 | a fresh iterator over the whole path, of the path's encoding |
| PathModel.UnixFrontNormal | src/unix/components/parser.rs:86-103 | a name read at the beginning of a Unix path is made of the bytes the path starts with |
| PathModel.UnixBackNormal | src/unix/components/parser.rs:105-141 | a name read from the back of a Unix path sits right after what is left of the path |
| PathModel.WindowsBackNormal | src/windows/components/parser.rs:208-244 | a name read from the back of a Windows path sits right after what is left of the path |
| PathModel.UnixNext | src/unix/non_utf8/components.rs:99-111 | one step of a Unix iterator on a non-empty input: reading from the front leaves a strictly shorter suffix, from the back a strictly shorter prefix; an empty input yields nothing |
| PathModel.UnixNextBack | src/unix/non_utf8/components.rs:107-111 | reading a Unix iterator from the back leaves a strictly shorter start of the input that is empty or ends with `/`, and a name it yields directly follows what is left |
| PathModel.WindowsNext | src/windows/components.rs:197-209 | one step of a Windows iterator: the same shrinking, what `next_back` leaves ending in a separator or being the leading prefix, and the separator mode never changes |
| PathModel.Next | src/unix/non_utf8/components.rs:99-111 | `next` or `next_back`: a parse error ends the iteration; a step leaves a strictly shorter suffix (front) or prefix (back), which from the back ends in a separator or is a Windows path's leading prefix |
| PathModel.IterAfter | src/common/path.rs:556-573 | steps both iterators while their items are equal; the iterator it returns is what is left of `iter` |
| PathModel.IterAfterSpec | src/common/path.rs:556-573 | `iter_after` succeeds exactly when the items of `prefix` are an element-wise equal start of those of `iter`, and then the iterator it returns yields exactly the rest of them |
| PathModel.PrefixCons | src/common/path.rs:560-566 | an item list starts another exactly when their heads are equal and the tails start each other |
| PathQueries.UnixForwardItems | src/unix/non_utf8/components.rs:99-104 | a Unix iterator read from the front yields the front parser's list |
| PathQueries.UnixBackwardItems | src/unix/non_utf8/components.rs:106-111 | a Unix iterator read from the back yields the back parser's list |
| PathQueries.WindowsForwardItems | src/windows/components.rs:197-203 | a Windows iterator read from the front yields the front parser's list |
| PathQueries.WindowsBackwardItems | src/windows/components.rs:204-208 | a Windows iterator read from the back yields the back parser's list |
| PathQueries.WindowsBackItems | src/windows/components/parser.rs:208-244 | a Windows path read from the back yields its components in reverse, unless the path starts with a verbatim prefix with an empty name (`\\?\` directly followed by a separator) |
| PathQueries.Parent | src/common/path.rs:63-73 | `None` on an empty path; otherwise a strictly shorter start of the path that ends in a separator when non-empty, or, on Windows, is exactly the leading prefix's raw bytes |
| PathQueries.FileName | src/common/path.rs:80-91 | `Some` only when the last component is a name, and that name follows the parent in the path |
| PathQueries.LastDot | src/common/path.rs:544-545 | the index of the last `.`, or `None` exactly when there is no `.` |
| PathQueries.RSplitFileAtDot | src/common/path.rs:538-551 | `..` gives `(Some(..), None)`; no extension means `before` is the whole name; `before` is `None` only for a name without `.`; otherwise name = before + `.` + after with `before` non-empty |
| PathQueries.FileStem | src/common/path.rs:131-135 | exists exactly when there is a file name, and starts it |
| PathQueries.Extension | src/common/path.rs:137-141 | exists exactly when the name, other than `..`, has a `.` after its first byte; then stem + `.` + extension is the name and the extension has no `.` |
| PathQueries.SplitTarGz | src/common/path.rs:131-141 | `foo.tar.gz` splits into `foo.tar` and `gz` |
| PathQueries.UnixParentDropsLast | src/common/path.rs:63-73 | on a NUL-free Unix path, `parent` is `None` exactly when there is no component or the last is the root, and otherwise its components are the path's without the last |
| PathQueries.UnixFileNameIsLast | src/common/path.rs:80-91 | on a NUL-free Unix path, `file_name` is `Some` exactly when the last component is a name, and then it is that name |
| PathQueries.WindowsBackStep | src/windows/components.rs:204-208 | the first `next_back` on a non-empty Windows path yields the last of its components and leaves a path whose components are the others |
| PathQueries.WindowsParentDropsLast | src/common/path.rs:63-73 | on a Windows path, `parent` is `None` exactly when there is no component or the last is a root (the root separator or a prefix other than a drive), and otherwise its components are the path's without the last; unless the path starts with a verbatim prefix with an empty name (`\\?\` directly followed by a separator) |
| PathQueries.WindowsFileNameIsLast | src/common/path.rs:80-91 | on a Windows path, `file_name` is `Some` exactly when the last component is a name, and then it is that name, unless the path starts with a verbatim prefix with an empty name (`\\?\` directly followed by a separator) |
| PathQueries.DiskRootHasNoParent | src/common/path.rs:63-91 | `C:\` has no parent and no file name: its last component is the root after the drive |
| PathQueries.DiskRootReads | src/windows/components/parser.rs:319-328 | `C:\` starts with the drive `C`, leaving the separator |
| PathQueries.UNCShareHasNoParent | src/common/path.rs:63-91 | `\\s\h` has no parent and no file name: it is a single UNC prefix, which is a root |
| PathQueries.UNCShareReads | src/windows/components/parser.rs:319-328 | `\\s\h` reads whole as the UNC prefix of server `s` and share `h` |
| PathQueries.StripPrefix | src/common/path.rs:93-107 | succeeds exactly when `base`'s components start the path's, and then returns a suffix of the path |
| PathQueries.PathStartsWith | src/common/path.rs:109-118 | holds exactly when `strip_prefix` succeeds, that is when `base`'s components start the path's |
| PathQueries.PathEndsWith | src/common/path.rs:120-129 | holds exactly when `child`'s components read from the back start the path's read from the back |
| PathQueries.UnixFrontItems | src/unix/parser.rs:26-34 | a NUL-free Unix path read from the front yields the whole-path parser's components |
| PathQueries.UnixBackItems | src/unix/components/parser.rs:105-141 | a NUL-free Unix path read from the back yields the same components in reverse |
| PathQueries.UnixStartsWithComponents | src/common/path.rs:109-118 | on NUL-free Unix paths, `starts_with` holds exactly when `base`'s components begin the path's |
| PathQueries.UnixEndsWithComponents | src/common/path.rs:120-129 | on NUL-free Unix paths, `ends_with` holds exactly when `child`'s components end the path's |
| PathQueries.Cmp | src/common/path.rs:355-373 | the components compared lexicographically; `Equal` exactly when the paths are equal |
| PathQueries.CmpAntisymmetric | src/common/path.rs:355-373 | swapping the paths reverses their order |
| PathQueries.EqIsMutualStartsWith | src/common/path.rs:334-342 | two paths are equal exactly when each starts with the other |
| PathQueries.UnixEqComponents | src/common/path.rs:334-342 | NUL-free Unix paths are equal exactly when their component lists are |
| PathQueries.UnixHashRespectsEq | src/common/path.rs:346-353 | NUL-free Unix paths that are equal hash alike |
| PathQueries.WindowsHashRespectsEq | src/common/path.rs:346-353 | Windows paths that are equal hash alike, whenever the hash splits at the separators the iterator uses |
| PathQueries.UnixFileNameBytes | src/common/path.rs:80-91 | a Unix file name is a non-empty run of bytes other than `/` and NUL |
| PathQueries.UnixFileNameOf | src/common/path.rs:63-91 | a name after a directory, with at most one separator after it, is the file name, and the directory is the parent |
| PathQueries.UnixBackOfName | src/unix/components/parser.rs:121-140 | at the beginning, a name after a directory that is empty or ends in `/`, with at most one `/` after it, is read from the back as that name and leaves exactly the directory |
| PathBufModel.PushEachAppend | src/common/non_utf8/pathbuf.rs:477-485 | for any push step, pushing two lists of paths is pushing the first, then the second |
| PathBufModel.PushedAllAppend | src/common/non_utf8/pathbuf.rs:477-485 | extending by two lists of paths is extending by the first, then the second |
| PathBufModel.OldExtensionLen | src/common/non_utf8/pathbuf.rs:276 | the length of the file name's extension, 0 without one |
| PathBufModel.StemEnd | src/common/path.rs:131-135 | the index where the file stem ends in the buffer: the bytes before it are the parent and then the stem |
| PathBufModel.PathBuf.constructor | src/common/non_utf8/pathbuf.rs:510-523 | a buffer of the given encoding holding exactly the given bytes |
| PathBufModel.PathBuf.Push | src/common/non_utf8/pathbuf.rs:172-174 | the buffer becomes the encoding's `push` of the path onto it |
| PathBufModel.PathBuf.Pop | src/common/non_utf8/pathbuf.rs:196-204 | returns true exactly when there is a parent, and then the buffer becomes the parent; otherwise nothing changes |
| PathBufModel.PathBuf.SetFileName | src/common/non_utf8/pathbuf.rs:224-242 | the buffer becomes the parent when there was a file name (the old buffer otherwise) with the new name pushed |
| PathBufModel.PathBuf.SetExtensionAsWritten | src/common/non_utf8/pathbuf.rs:268-297 | returns true exactly when there is a file stem, and nothing changes otherwise; the buffer becomes the byte edits of the code: the old extension's length cut off the end, a trailing `.` popped, then `.` unless already there, and the extension if not empty |
| PathBufModel.PathBuf.SetExtension | src/common/non_utf8/pathbuf.rs:246-266 | returns true exactly when there is a file stem, and nothing changes otherwise; the buffer becomes the path up to the end of the stem, then `.` and the extension when it is not empty |
| PathBufModel.PathBuf.Extend | src/common/non_utf8/pathbuf.rs:477-485 | the buffer becomes the result of pushing each path in turn |
| PathBufModel.PathBuf.Equals | src/common/non_utf8/pathbuf.rs:468-475 | two buffers are equal exactly when their component lists are, whatever their bytes |
| PathBufModel.CutAndExtend | src/common/non_utf8/pathbuf.rs:278-294 | the code's byte edits of `set_extension`, given the old extension's length |
| PathBufModel.KeepAndExtend | src/common/non_utf8/pathbuf.rs:287-294 | keeps the first bytes up to a given index, then adds `.` and the extension unless it is empty |
| PathBufModel.Collect | src/common/non_utf8/pathbuf.rs:577-587 | a fresh buffer holding the result of pushing each path onto an empty one |
| PathBufModel.Join | src/common/path.rs:143-151 | a fresh buffer holding the path with `other` pushed onto it |
| PathBufModel.WithFileName | src/common/path.rs:153-161 | a fresh buffer holding the path with its file name set |
| PathBufModel.WithExtension | src/common/path.rs:163-171 | a fresh buffer holding the path unchanged when it has no file stem, and with its extension set otherwise |
| PathBufModel.UnixPushedName | src/common/non_utf8/pathbuf.rs:196-204 | on a Unix buffer, a pushed name becomes the file name, and `pop` goes back to the old buffer, with the separator `push` added if any |
| PathBufModel.DotSplitUnique | src/common/path.rs:544-550 | splitting a name at a `.` that no later `.` follows is unique |
| PathBufModel.SplitAtLastDot | src/common/path.rs:538-551 | a non-empty stem, `.` and a `.`-free extension split back into the two |
| PathBufModel.UnixStemBytes | src/common/path.rs:131-135 | the file stem of a Unix path is a name: non-empty, without `/` or NUL |
| PathBufModel.NameWithExtension | src/common/path.rs:131-141 | a stem, `.` and an extension that are names make a name |
| PathBufModel.UnixStemAndExtension | src/common/path.rs:131-141 | a Unix path that ends in a stem, `.` and an extension has that file stem and that extension, and the directory before them as parent |
| PathBufModel.UnixExtensionSetShape | src/common/non_utf8/pathbuf.rs:246-266 | the documented result of setting an extension is the parent, a stem that is a name, `.` and the extension |
| PathBufModel.UnixExtensionSetKeepsStem | src/common/non_utf8/pathbuf.rs:258-266 | on a Unix path, setting a non-empty `.`-free extension keeps the parent and the file stem, and makes it the extension, as in `/feel/the` to `/feel/the.force` to `/feel/the.dark_side` |
| PathBufModel.SetExtensionPastSeparator | src/common/non_utf8/pathbuf.rs:278-285 | as written, when a separator follows the file name the cut removes the separator and the extension's tail but keeps its first byte: `/feel/the.rs/` with `force` becomes `/feel/the.r.force` |
| PathBufModel.SetExtensionAfterSeparator | src/common/non_utf8/pathbuf.rs:288-294 | as written, a name without an extension followed by a separator gets `.` and the extension after the separator: `/feel/the/` with `force` becomes `/feel/the/.force`, where the documented result is `/feel/the.force` |
| PathBufModel.SetEmptyExtensionKeepsDot | src/common/non_utf8/pathbuf.rs:275-287 | as written, a name ending in `.` has the empty extension, so nothing is cut and setting the empty extension keeps `foo.`, where replacing the extension documents `foo` |
| PathBufModel.SetExtensionEatsStemDot | src/common/non_utf8/pathbuf.rs:282-285 | as written, a stem ending in `.` loses it: `a..b` with `c` becomes `a.c`, whose stem is `a`, where `a..c` is documented |
| TypedPathModel.PrefixShape | src/typed/non_utf8/path.rs:41-43 | a fresh Windows iterator finds a prefix exactly when the path starts with a drive letter and `:`, or with two separators and a byte that is none |
| TypedPathModel.New | src/typed/non_utf8/path.rs:41-48 | keeps the bytes; Windows exactly when the path starts with `\`, with a drive letter and `:`, or with two separators and a byte that is none, and Unix otherwise. This follows the doc comment at lines 20-23 and the corrected iterator; as written `C:`, `C:a` and `//server/share` are Unix paths (see "## Findings") |
| TypedPathModel.NewAsWritten | src/typed/non_utf8/path.rs:41-48 | `new` with `has_prefix` peeking through the as-written `next_front`: it keeps the bytes and makes a Windows path only where `New` does |
| TypedPathModel.DriveThenNameAsWritten | src/typed/non_utf8/path.rs:41-43 | as written, a drive letter and `:` followed by nothing or by a byte that is no separator and no `.` give a Unix path, where `New` gives a Windows path |
| TypedPathModel.IsUnix | src/typed/non_utf8/path.rs:690-700 | exactly one of `is_unix` and `is_windows` holds |
| TypedPathModel.ToPathBuf | src/typed/non_utf8/path.rs:121-126 | an owned buffer of the same bytes and the same encoding |
| TypedPathModel.NewExamples | src/typed/non_utf8/path.rs:28-39 | `C:\a` and `\a` are Windows paths; `/a`, `a\b`, `a` and the empty path are Unix paths |
| TypedPathModel.SlashPathIsUnix | src/typed/non_utf8/path.rs:41-48 | a path without `\` that does not start with a drive or with two `/` is a Unix path |
| TypedPathModel.ForwardSlashServerIsWindows | src/typed/non_utf8/path.rs:41-48 | `//server...` is a Windows path, read as a UNC prefix |
| SingleComponentModel.WithoutCurrent | src/protected_wrappers.rs:49-52 | the items other than `.`: no longer than the input and none of them `.` |
| SingleComponentModel.NextNotCurrent | src/protected_wrappers.rs:49-52 | the first item other than `.`, with the iterator strictly advanced past it |
| SingleComponentModel.NextNotCurrentYields | src/protected_wrappers.rs:49-57 | the filtered iterator yields the items other than `.` one at a time, and nothing exactly when there are none |
| SingleComponentModel.IsValidExactly | src/protected_wrappers.rs:49-58 | `is_valid` holds exactly when, `.` aside, one component remains and it is a name |
| SingleComponentModel.EmptyInvalid | src/protected_wrappers.rs:54-57 | a path with no components is not valid |
| SingleComponentModel.UnixIsValidExactly | src/protected_wrappers.rs:49-58 | on a NUL-free Unix path, the same in terms of the whole-path parser's components |
| SingleComponentModel.OneSegment | src/unix/parser.rs:39-69 | a Unix path of one segment without separators denotes that segment's component |
| SingleComponentModel.DotSlashComponents | src/unix/parser.rs:51-61 | `./name` has the components `.` and the name |
| SingleComponentModel.DotSlashNameValid | src/protected_wrappers.rs:52 | `./name` is valid: the leading `.` does not count |
| SingleComponentModel.RootInvalid | src/protected_wrappers.rs:54-56 | `/` alone is not valid |
| SingleComponentModel.ParentInvalid | src/protected_wrappers.rs:54-56 | `..` alone is not valid |
| UnixIncrementalProperties.FrontNameStopsAtNul | src/unix/components/parser.rs:86-103 | on `abc\0def` the first `next_front` reads `abc` and leaves `\0def`: the name stops at the disallowed NUL |
| UnixIncrementalProperties.LaterFailsAtNul | src/unix/components/parser.rs:95-101 | past the beginning, nothing can be read from input that starts with NUL |
| UnixComponentsModel.LaterReadsLeadingName | src/unix/components/parser.rs:95-98 | past the beginning, a name that starts right away makes the parser as written fail, because its `take_while` skip consumes nothing; the corrected parser reads it |
| UnixComponentsModel.FrontReadsSegmentThenSeparator | src/unix/non_utf8/components/component.rs:206-215 | a lone segment followed by one separator is read in one step as that segment's component, leaving nothing |
| UnixGrammar.LeadingSlashes | src/unix/parser.rs:43 | the length of the leading run of separators: every byte before it is `/` and the byte after it is not |
| UnixPathParserProperties.SpecCurDirOnlyFirst | src/unix/parser.rs:51-61 | in a path's components `.` appears only in first place, and only when the path does not start with `/` |
| UnixPathParserProperties.CollapseExampleComponents | src/unix/parser.rs:243-261 | `/////a///.//..///` has the components root, `a`, `..` |
| UnixEncodingModel.AppendAfterSeparator | src/unix/non_utf8.rs:79-83 | bytes appended after a trailing `/` add their components after the old ones |
| UnixEncodingModel.HashWritesOfComponents | src/unix/non_utf8.rs:31-65 | what `hash` writes is the bytes of the path's components other than the root, then their total length |
| WindowsPrefixProperties.VerbatimUNCRoundTrip | src/windows/parser.rs:152-161 | the text of a well-formed verbatim UNC prefix, followed by the end or a separator, reads back as that prefix |
| WindowsPrefixProperties.UNCRoundTrip | src/windows/parser.rs:210-218 | the text of a well-formed UNC prefix, followed by the end or a separator, reads back as that prefix |
| WindowsPathParserProperties.ParseWithPrefix | src/windows/parser.rs:37-90 | a path that starts with a prefix, with only allowed bytes after it, parses to the prefix with its raw bytes, a root if a separator follows, then its segments' components |
| WindowsEncodingModel.RebuiltStartsWithPrefix | src/windows/non_utf8.rs:139-176 | under a prefix, the rebuilt component list starts with it and its written bytes start with the prefix's raw bytes |
| Combinators.FirstMatch | src/common/parser.rs:124-146 | the index of the first byte satisfying the predicate, or the length: no byte before it does, and the byte there does |

## Left out

- Host I/O and foreign calls are not modelled:
  - `std::env::current_dir` in `src/utils.rs`;
  - the conversions to `std::path`, `OsStr` and `OsString`, and the UTF-8 checks delegated to `std::str`;
  - the `Box`/`Arc`/`Rc` conversions and pointer casts;
  - `Display`/`Debug`;
  - the capacity and reserve wrappers of `PathBuf`.
- Normalisation, `absolutize` and `push_checked` are not modelled. Only calls to them and their doc comments are available, not their code.
- The UTF-8 path types are not modelled. Their `push` and `hash` forward to the byte encodings modelled here.
- The typed enum dispatch (`TypedPathBuf` and its methods beyond `to_path_buf`) is not modelled. It repeats the `TypedPath::new` rule, and several of its methods are `todo!()`.
- The iterator adapters (`Iter`, `Ancestors`) are not modelled. `Ancestors` is repeated `parent`, which is modelled.
- The older str-based and VecDeque-based generations of paths, components and prefixes are not modelled. They are superseded by the byte-oriented generation modelled here and contradict it in places.
- `src/unix/constants.rs`, which holds the Unix table of disallowed file-name bytes, is not part of this model. The model fixes that table to exactly NUL and `/`.
- `src/common/parser.rs` does not define several helpers that the incremental parsers call. The model defines each from its name and its use:
  - `take_while`: repeats a parser while it succeeds and fails when it consumes nothing.
  - `peek`, `not` and `empty`: lookahead that consumes nothing.
  - `rtake_until_byte(pred)`: scans from the end and takes the bytes after the last byte that satisfies `pred`. The run may be empty. Its one call site, `src/unix/components/parser.rs:122`, passes "not a separator and not a `.`" and means to skip trailing separators and `.`s, which fixes this reading. It is written out inline as `UnixIncremental.TrailingSkipAsWritten`.
  - `rtake_until_byte_1(pred)`: takes from the end the longest run of bytes that satisfy `pred`, and fails when that run is empty (`Combinators.RTakeUntilByte1`). This reads the predicate the other way round from `rtake_until_byte`. The call sites fix this reading too: `src/unix/components/parser.rs:134` and `src/windows/components/parser.rs:238` pass "not a separator" and use the result as the segment after the last separator.
  - `fully_consumed`: fails when the parser leaves input.
- `Hash` is modelled as the sequence of `write`, `write_usize` and prefix-hash calls made on the hasher. Hash values themselves are not modelled.
- `is_alphabetic` on a byte read as a `char` is modelled as the ASCII letters plus the Latin-1 letters (0xAA, 0xB5, 0xBA, 0xC0-0xD6, 0xD8-0xF6 and 0xF8-0xFF). Unicode tables are not modelled.
- Stale tests are not turned into properties:
  - the Windows incremental test that expects `Disk('C')` from input with no drive letter;
  - the test that uses an undefined `parsers` variable;
  - the Unix tests that call `parse_front` with the wrong signature.
- Combinators.OneOrMore: requires the repeated parser to consume input on success. Every parser the library repeats does, and without that condition the corrected loop has no termination measure.
- PathQueries.UnixHashRespectsEq: stated only for NUL-free paths. A NUL ends the iteration, so `a/\0` and `a/\0x` compare equal while `hash` writes different chunks for them.
- PathQueries.WindowsHashRespectsEq: stated only for paths where `hash` chooses the same separator mode as the iterator. `hash` reads the mode from `is_verbatim` of the prefix, while the iterator normalises unless the path starts with exactly `\\?\`. The two differ on a verbatim prefix written with `/`, and nothing is claimed there.
- WindowsEncodingModel.HashRespectsComponents: carries the same separator-mode condition as `PathQueries.WindowsHashRespectsEq`, for the same reason.
- WindowsEncodingModel.DriveHashAsWritten: the as-written loop (`HashWritesAsWritten`) takes its prefix length from the corrected prefix reading, not from `prefix()` over the as-written `next_front`. The two agree on `C:\ab\cd` (`WindowsEncodingModel.DrivePeekAsWritten`), but not on every path: on `C:ab\cd` the as-written `prefix()` finds no prefix, so the code hashes `C:ab`, `cd` and 6.
- UnixIncrementalProperties.FrontAgrees: stated for non-empty NUL-free input. On a NUL the incremental parser stops mid-path (`UnixIncrementalProperties.FrontStopsAtNul`), while the whole-path reading would reject the path. `UnixBackProperties.BackAgrees` has the same condition.
- WindowsBackProperties.BackAgrees: stated for paths that do not start with a verbatim prefix with an empty name (`\\?\` directly followed by a separator). Once the back reading is down to those four bytes, they read on their own as a UNC prefix with server `?` (`WindowsBackProperties.BlankVerbatimRereads`), so the two directions differ in the prefix. The members on the next lines carry the same condition.
- WindowsBackProperties.BackAtBeginning: stated for paths that do not start with `\\?\` directly followed by a separator, for the reason given under `WindowsBackProperties.BackAgrees`.
- WindowsBackProperties.BackMirrorsFront: stated for paths that do not start with `\\?\` directly followed by a separator, for the reason given under `WindowsBackProperties.BackAgrees`.
- PathQueries.WindowsBackItems: stated for paths that do not start with `\\?\` directly followed by a separator, for the reason given under `WindowsBackProperties.BackAgrees`.
- PathQueries.WindowsFileNameIsLast: stated for paths that do not start with `\\?\` directly followed by a separator, for the reason given under `WindowsBackProperties.BackAgrees`.
- PathQueries.WindowsParentDropsLast: stated for paths that do not start with `\\?\` directly followed by a separator, for the reason given under `WindowsBackProperties.BackAgrees`. It also reads the parent's components in the separator mode of the original path. A fresh iterator over the parent chooses its mode from the parent's own first bytes; that the two modes agree is not proved.
- WindowsIncrementalProperties.BackReadsLastName: at the beginning, stated only when the prefix ends before the last separator. Otherwise the last segment is part of the prefix, and `WindowsBackProperties.BackAtBeginning` covers that case.
- Aliasing is not modelled. `PathBuf` owns its byte vector, and the iterators own their parser, so no two objects share state.

## Findings

| source | as written | input that shows it | evidently intended | confidence | as-written member | corrected member |
|---|---|---|---|---|---|---|
| src/common/parser.rs:86-96 | `one_or_more`'s failure arm sets `next` back to `Some(input)`, so the `while let` loop never exits | every input and every parser, e.g. `one_or_more(separator)` on `/` | leave the loop at the first failure and return the values collected | not executed | Combinators.OneOrMoreNeverExits | Combinators.OneOrMoreLoop |
| src/common/parser.rs:149-154 | `take(cnt)` uses `nth(cnt)`, so it needs more than `cnt` bytes | `take(1)` on a one-byte input fails | succeed when at least `cnt` bytes remain | not executed | Combinators.TakeOneOfOneByteFails | Combinators.Take |
| src/windows/parser.rs:164-184 | the drive-letter guard in `prefix_verbatim` calls `drive_letter` on a one-byte value, which `take(1)` always rejects, so the guard never fires | `\\?\C:` gives `Verbatim(C)` and leaves `:`, where the test at line 635 expects an error | reject a one-letter value followed by `:` | not executed | WindowsPrefixProperties.VerbatimDriveGuard | WindowsGrammar.PrefixVerbatim |
| src/windows/components/parser.rs:148-162 | `move_to_next` is `take_until_byte`, which fails when there is nothing left, so the component that ends the input is lost | `hello` gives no component, where the test at line 486 expects `Normal(hello)` | the skip after a component is optional | not executed | WindowsIncrementalProperties.HelloAsWritten | WindowsIncrementalProperties.SingleNameCorrected |
| src/windows/components/parser.rs:152-160 | the normalising skip judges each `.` only by the byte before it, so it eats the first `.` of `..` after a separator | `a\..\b` gives `a` and a name `.`, and loses `b` | skip whole `.` components only | not executed | WindowsIncrementalProperties.ParentDirLostAsWritten | WindowsIncrementalProperties.ParentDirCorrected |
| src/typed/non_utf8/path.rs:41-43 | `has_prefix` peeks with the as-written `next_front`, whose skip after the prefix fails when no separator or `.` follows, so the prefix is not seen | `C:` and `C:a` come out as Unix paths, where the doc comment at lines 20-23 names `C:` as the mark of a Windows path | Windows whenever the path starts with a prefix | not executed | TypedPathModel.DriveThenNameAsWritten | TypedPathModel.New |
| src/windows/non_utf8/components/component.rs:285-288 | `try_from` takes its component from the as-written `next`, which fails on a lone drive for the same reason | `c:` gives "no component found", where the doc example at lines 272-273 expects a disk prefix | read the disk prefix | not executed | WindowsComponentsModel.TryFromDriveAsWritten | WindowsComponentsModel.TryFromDrive |
| src/windows/components/parser.rs:190-206 | `move_to_next` also runs after a prefix, so the separator that follows a disk prefix is skipped instead of being read as the root | `C:\x` gives only `Disk(C)` | no skip after a prefix, so the root is read | not executed | WindowsIncrementalProperties.DiskRootLostAsWritten | WindowsIncrementalProperties.DiskRootCorrected |
| src/windows/components/parser.rs:217-219 | `parse_back` skips separators and `.` with the forward `move_to_next`, from the front of its input | `a\b` fails from the back | skip trailing separators and `.` from the end, then read the last segment, keeping a leading prefix apart and reading it last | not executed | WindowsIncrementalProperties.BackAsWrittenExample | WindowsIncrementalProperties.BackReadsLastName |
| src/unix/components/parser.rs:95-98 | past the beginning, `take_while(any_of!(cur_dir, separator))?` fails when there is nothing to skip | `a/b` gives `a` and then fails; `try_from` then accepts `/file` as the root | the skip is optional | not executed | UnixIncrementalProperties.FrontStopsAfterFirstName | UnixIncremental.ParseFront |
| src/unix/components/parser.rs:110-122 | `parse_back` skips any trailing `.` byte that does not follow another `.`, even one that ends a name | `a/b.` gives `b` from the back | skip whole `.` components only | not executed | UnixIncrementalProperties.BackAsWrittenDropsTrailingDot | UnixIncrementalProperties.BackKeepsTrailingDot |
| src/windows/non_utf8.rs:49-54 | `hash` slices `bytes = &path[prefix_len..]` but tests separators on `path[i]` | `C:\ab\cd` (prefix `C:` read as written too) hashes the chunks `\a` and `\c` instead of `ab` and `cd` | test `bytes[i]` | not executed | WindowsEncodingModel.DriveHashAsWritten | WindowsEncodingModel.Hash |
| src/common/non_utf8/pathbuf.rs:278-285 | `set_extension` cuts the old extension's length off the end of the buffer, which is not where the extension ends when a separator follows the name | `/feel/the.rs/` with `force` gives `/feel/the.r.force` | `/feel/the.force` | not executed | PathBufModel.SetExtensionPastSeparator | PathBufModel.PathBuf.SetExtension |
| src/common/non_utf8/pathbuf.rs:288-294 | the `.` and the new extension are added at the end of the buffer, which is past a separator that follows the name | `/feel/the/` with `force` gives `/feel/the/.force` | `/feel/the.force` | not executed | PathBufModel.SetExtensionAfterSeparator | PathBufModel.PathBuf.SetExtension |
| src/common/non_utf8/pathbuf.rs:275-287 | an empty old extension has length 0, so the `.` before it is never cut | `foo.` with the empty extension stays `foo.` | `foo`, the stem with no extension | not executed | PathBufModel.SetEmptyExtensionKeepsDot | PathBufModel.PathBuf.SetExtension |
| src/common/non_utf8/pathbuf.rs:282-285 | after the cut, a `.` that ends the file stem is popped as well | `a..b` with `c` gives `a.c` | `a..c`, keeping the stem `a.` | not executed | PathBufModel.SetExtensionEatsStemDot | PathBufModel.UnixExtensionSetKeepsStem |
