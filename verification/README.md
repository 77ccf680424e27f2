# MCPod, modelled and proved

MCPod is an MCP server that lets an agent read, edit and write files of a workspace
and run shell commands in it. This project models the parts of its Rust crate in which
a mistake would silently corrupt a file or hide output, and proves what they promise.

**The edit engine** (`tools/edit.rs`, `fs/text.rs`). Every `oldText` is matched against
the original file, literally first, then after a normalisation that folds line endings,
drops trailing whitespace, maps typographic characters and expands NFKC character by
character. `Normalizer` gives the normal form a definition of its own, a partition of
the text into groups with an output each (`Norm`), and proves both of the program's
loops against it. `PositionMap` shows that the map back to the original inverts this
lossy transformation, `Matching` says what a returned range is, `Splice` that replacing
from the tail is simultaneous substitution, `EditRun` that the byte-level program
computes `Outcome`, `EditTheory` what `Outcome` means for a whole request, and
`EditFormat` what an edit does to a file's byte order mark and line endings.
`Typography` says what each character becomes and that texts that differ in typography
only match each other; `EditMeaning` says which error is reported, and for every file
when an edit succeeds and what it then writes. `Utf8` and `Sorting` hold what is needed
of RFC 3629 and of a stable sort.

**The mutation protocol** (`fs/path.rs`, `fs/mutation_queue.rs`, `fs/atomic_write.rs`,
`run` of `edit` and `write`). `PathResolver` proves the resolved path to be a canonical
lock key, `RequestForms` what every way of writing a request resolves to. `MutationProtocol` is a transition system of any number of calls that find a
lock, wait, read, compute, write a temp file, rename and leave, with errors and
cancellation at every step, file operations that go on after their call was dropped, and
crashes of the whole process; it keeps a log of the renames. `ProtocolInvariant` proves
what every step keeps, `ProtocolTheorems` what holds in every reachable state,
`ProtocolRuns` that a call can always get through, and `ProtocolLimits` under exactly
which rules the guarantee holds, with the runs in which it fails. `EditCommits` ties both
halves together: what the bytes of every commit are. `RandomHex` says which random parts
temp names have. `FileMutation` has the
lock map and the atomic write as objects that change in place, and shows the atomic
write to be a run of the protocol.

**Windows** (`output/truncate.rs`, `tools/read.rs`). `Truncate` proves the head and the
tail to be the longest that fit two budgets; `ReadWindow` proves that paging covers a file.

**Two smaller state machines.** `Sessions` is the session table of the legacy SSE
transport over timed runs, `OutputMerge` the merge of stdout and stderr of a command.

Texts are sequences of scalar values. What the program computes in byte offsets is
computed in byte offsets here as well, through `Utf8.Offset` and `Utf8.Encode`; an edit
is proved on characters and carried over to bytes by `EditRun.SubstituteInBytes`.

## Findings

Where the code does not do what its comments or its tests suggest, the code is modelled:

* `edit.rs:60` says that touching ranges are rejected; line 68 rejects overlapping ones
  only, and that is what `AdjacentCheckExact` is about.
* A literal `oldText` that overlaps itself can be reported as unique although it occurs
  twice (`aa` in `aaa`). `CountOneIsUnique`: this can happen exactly for the texts that
  have a proper border.
* A literal match may end between CR and LF and leave a bare LF in a CRLF file
  (`ExactMatchSplitsCrLf`). `CrLfFileEdited` gives the exact condition on the ranges.
* Adopting LF endings is not idempotent on CR CR LF (`AdoptLfIdempotent`, if and only if).
* `first_line_too_big` is also set when no line may be kept at all
  (`FirstLineTooBigMeaning`).
* A file operation that is already with a blocking thread is not undone when its call is
  dropped, but the lock is released. If another call takes the lock before a rename
  lands, that call's update can be overwritten (`RenameInFlightLosesUpdate`). If it also
  draws the same eight digits, the rename installs a file that it has just emptied
  (`RenameInFlightTearsTarget`), a create empties the file that it is about to install
  (`CreateInFlightTearsTarget`), and a write goes over that file
  (`WriteInFlightMixesResults`). A removal under way does no harm: the other call's rename
  then fails.
* A file in the place of a temp file of a target is lost (`TempFileLost`). Where locks are
  not taken over such operations, a file follows the log in every run exactly when it is
  no temp file of a target (`FollowsLogExactly`).
* Together: the guarantee holds if and only if no target is the temp file of another one
  and no lock is taken over a create, a write or a rename under way (`GuaranteedExactly`).
  The program checks neither.
* `bash.rs:90` speaks of arrival order. The order is that in which the readers take
  numbers, after their reads; `ReadOrderExactly` says when it is the order of the reads.
* A replacement text can put a BOM into a file that had none (`EditAddsBom`,
  `BomExactly`), and a CRLF into a file without CRLF (`LfFileGetsCrLf`, `LfFileEdited`),
  although `text.rs:31` promises that no foreign ending gets in.
* At the root directory `..` is kept when it comes alone and cancels in pairs
  (`ParentsOfRoot`).

## Model

| member | source | states |
|---|---|---|
| Utf8.DecodeEncode | mcp-server/src/tools/edit.rs:42-43 | every text is read back from its UTF-8 form, so an edited file decodes to what was edited |
| Utf8.ByteSearch | mcp-server/src/tools/edit.rs:156 | a byte search in UTF-8 finds exactly the character matches, at their byte offsets |
| Utf8.SliceEncode | mcp-server/src/tools/edit.rs:252-253 | a byte range between character offsets is the encoding of those characters |
| Utf8.BoundaryByte | mcp-server/src/output/truncate.rs:119 | a position is a character boundary exactly at the end of the text or where no continuation byte stands |
| Utf8.EncodedExamples | mcp-server/src/tools/edit.rs:203 | one character of each length in the bytes of RFC 3629 |
| LineEndings.RestoreBom | mcp-server/src/fs/text.rs:15-22 | the buffer is the BOM, if there was one, and then the content |
| LineEndings.BomRoundTrip | mcp-server/src/fs/text.rs:7-22 | stripping the BOM and restoring it gives the file's bytes back |
| LineEndings.StripAfterExpand | mcp-server/src/fs/text.rs:33-40 | stripping CRLF after expanding LF is the identity on every text |
| LineEndings.AdoptCrLf | mcp-server/src/fs/text.rs:33-40 | adopting CRLF endings leaves no bare LF and is idempotent |
| LineEndings.AdoptLfIdempotent | mcp-server/src/fs/text.rs:34-38 | adopting LF endings is idempotent on exactly the texts without CR CR LF |
| LineEndings.AdoptLfNotIdempotent | mcp-server/src/fs/text.rs:34-38 | CR CR LF is a text on which it is not |
| LineEndings.OnlyCrLfIsCrLf | mcp-server/src/fs/text.rs:25-29 | a file without bare LF that has a CRLF counts as CRLF |
| LineEndings.CrLfDominates | mcp-server/src/fs/text.rs:25-29 | a file counts as CRLF if and only if more of its LFs stand behind a CR than not, mixed files included |
| LineEndings.AdoptLfMeaning | mcp-server/src/fs/text.rs:33-40 | adopting LF turns each CRLF into an LF and keeps everything else |
| LineEndings.AdoptCrLfMeaning | mcp-server/src/fs/text.rs:33-40 | adopting CRLF turns each LF, whether a CR is in front or not, into a CRLF and keeps everything else |
| LineEndings.BomMeaning | mcp-server/src/fs/text.rs:4-22 | the BOM is the bytes EF BB BF: it is taken off exactly when the file begins with them, and they are what is put back |
| Normalizer.PushNewline | mcp-server/src/tools/edit.rs:257-271 | one LF whose span reaches from the first pending whitespace through the newline |
| Normalizer.PushNfkc | mcp-server/src/tools/edit.rs:273-285 | the expansion of one character, every output with the span of that character |
| Normalizer.ByteStarts | mcp-server/src/tools/edit.rs:199-204 | the byte offset of every character |
| Normalizer.Normalize | mcp-server/src/tools/edit.rs:197-245 | the loop with lookahead and index list yields the normal form and the span of every character of it |
| Normalizer.NormalizeChars | mcp-server/src/tools/edit.rs:291-329 | the loop with `prev_cr` and counter yields the same normal form, for every text |
| Typography.CharacterMeaning | mcp-server/src/tools/edit.rs:331-340 | what each single character normalises to: the four single and four double quotes, the dashes and the blanks by name, other ASCII as it is, anything else its NFKC expansion |
| Typography.BlanksInside | mcp-server/src/tools/edit.rs:224-243 | inside a line every blank, tab or exotic space, is one space |
| Typography.BlanksAtEnd | mcp-server/src/tools/edit.rs:208-244 | at the end of a line or of the text blanks are nothing; LF, CR LF and a lone CR are one LF |
| Typography.TypographyIgnored | mcp-server/src/tools/edit.rs:331-340 | texts that differ character by character in typography only have the same normal form |
| PositionMap.GroupsCover | mcp-server/src/tools/edit.rs:208-243 | everything but the whitespace at the end of the text is covered, and no last output ends in a space |
| PositionMap.SpansTile | mcp-server/src/tools/edit.rs:206-245 | spans are in order, each equal to the one before or starting where it ends, up to the trailing whitespace |
| PositionMap.TilesMonotone | mcp-server/src/tools/edit.rs:248-254 | starts and ends of spans never move backwards |
| PositionMap.MappedCut | mcp-server/src/tools/edit.rs:248-254 | the original text behind a range of the normal form that does not end in a space, which no range matched by a needle does, normalises to that range, widened to whole expansions, and to the range itself exactly when it begins and ends at their edges |
| PositionMap.MappedRangeKeepsCrLf | mcp-server/src/tools/edit.rs:215-223 | a mapped range never starts or ends inside a CRLF |
| PositionMap.OriginalRangeIsCut | mcp-server/src/tools/edit.rs:248-254 | the byte range is in bounds, not empty, and the encoding of whole original characters |
| PositionMap.NormSuffix | mcp-server/src/tools/edit.rs:291-329 | the normal form of a text ends with that of each suffix, even one that starts inside a CRLF or a whitespace run |
| PositionMap.NormPrefix | mcp-server/src/tools/edit.rs:291-329 | the normal form of a text starts with that of each prefix |
| PositionMap.NormAppend | mcp-server/src/tools/edit.rs:291-329 | cut behind a character that is no whitespace and not inside a CRLF, a text normalises to the normal forms of its parts |
| PositionMap.LiteralOccurrenceSurvives | mcp-server/src/tools/edit.rs:168-175 | wherever `oldText` occurs literally, its normal form occurs in the normal form of the file |
| Matching.NonOverlappingMaximal | mcp-server/src/tools/edit.rs:155-161 | no choice of pairwise disjoint occurrences is larger than the number counted |
| Matching.NonOverlappingFirst | mcp-server/src/tools/edit.rs:156-160 | the first match is the leftmost occurrence, and no match means no occurrence |
| Matching.SingleMatch | mcp-server/src/tools/edit.rs:162-163 | with a count of one, every other occurrence starts strictly inside the one returned |
| Matching.BorderFoolsTheCount | mcp-server/src/tools/edit.rs:156-163 | for every text with a proper border there is a file in which it occurs twice and counts once |
| Matching.CountOneIsUnique | mcp-server/src/tools/edit.rs:156-163 | a count of one means one occurrence, in every file, exactly for the texts without a proper border |
| Matching.DoubledLetter | mcp-server/src/tools/edit.rs:156-163 | `aa` occurs twice in `aaa` and counts once |
| Matching.ExactPass | mcp-server/src/tools/edit.rs:153-161 | the number of matches, and the first of them in byte offsets |
| Matching.PositionsAreAll | mcp-server/src/tools/edit.rs:342-357 | the positions are increasing and are exactly those of all occurrences, overlapping or not |
| Matching.FindAllCharPositions | mcp-server/src/tools/edit.rs:343-357 | the nested loops compute these positions |
| Matching.FindUniqueRange | mcp-server/src/tools/edit.rs:152-185 | the program's result is the specified one, in byte offsets |
| Matching.NotFoundMeaning | mcp-server/src/tools/edit.rs:172-177 | not found, if and only if `oldText` does not occur literally and its normal form is empty or does not occur |
| Typography.TypographyFound | mcp-server/src/tools/edit.rs:168-177 | where a file holds a typographic form of `oldText`, the normal form of `oldText` occurs in that of the file, and the answer is not that it is missing |
| Typography.QuotedWord | mcp-server/src/tools/edit.rs:332-340 | `say "hi"` is found in a file with curly quotes |
| Matching.FallbackSound | mcp-server/src/tools/edit.rs:168-182 | a range the fallback returns lies behind the only normalised occurrence, splits no CRLF, and normalises to that occurrence widened to whole expansions |
| Matching.FallbackCut | mcp-server/src/tools/edit.rs:176-182 | the cut, normalised again, contains the needle, and is the needle exactly when the match begins and ends at the edges of expansions |
| Matching.FallbackUniqueInFile | mcp-server/src/tools/edit.rs:175-184 | whatever stretch of the file normalises to what `oldText` does overlaps the range returned: there is no second place |
| Matching.FoundMeaning | mcp-server/src/tools/edit.rs:152-185 | every range returned is non-empty, in bounds, and a leftmost literal match or a sound fallback match |
| Matching.MultipleMeaning | mcp-server/src/tools/edit.rs:162-164 | the number reported is at least two: the largest number of disjoint literal occurrences or, without any, the number of all normalised ones |
| Splice.FindOverlap | mcp-server/src/tools/edit.rs:65-74 | the first overlapping pair of neighbours in the order of `start`, or none |
| Splice.AdjacentCheckExact | mcp-server/src/tools/edit.rs:61-75 | the check of neighbours passes if and only if all ranges, of any number of edits, are pairwise disjoint |
| Splice.ReportedPairOverlaps | mcp-server/src/tools/edit.rs:66-72 | the two edits named in the error do overlap, the lower index first |
| Splice.TwoSorts | mcp-server/src/tools/edit.rs:64-81 | for disjoint ranges the second sort is the reverse of the first |
| Splice.ReplaceFromTail | mcp-server/src/tools/edit.rs:77-84 | replacing in place from the last range to the first is simultaneous substitution in the original |
| Splice.SubstituteLength | mcp-server/src/tools/edit.rs:77-84 | the length is the original's, less what was matched, plus what was inserted |
| Splice.SubstituteMeaning | mcp-server/src/tools/edit.rs:77-84 | every untouched character and every new text stands where the edits in front of it move it, and nothing else is there |
| EditRun.MatchEdits | mcp-server/src/tools/edit.rs:48-58 | all entries are matched against the original; the first failure wins |
| EditRun.SubstituteInBytes | mcp-server/src/tools/edit.rs:79-84 | replacing byte ranges in the encoding is encoding the text in which the character ranges were replaced |
| EditRun.ReplaceAll | mcp-server/src/tools/edit.rs:47-90 | matching, overlap check, sort and replacement, on byte offsets, compute the edit specified on characters, with the same error |
| EditRun.Run | mcp-server/src/tools/edit.rs:19-110 | the bytes written, or the first error in the program's order, for any file and any list of edits |
| EditTheory.EditTextMeaning | mcp-server/src/tools/edit.rs:47-90 | an edit succeeds if and only if every entry is found, the ranges are pairwise disjoint and the text changes; the result is the simultaneous substitution |
| EditTheory.OutcomePermuted | mcp-server/src/tools/edit.rs:48-84 | success and result are the same for every permutation of the list of edits |
| EditMeaning.FirstFailureReported | mcp-server/src/tools/edit.rs:49-56 | the first entry that is not found, or not once, is reported with its index, its kind of error and its count |
| EditMeaning.OverlapReported | mcp-server/src/tools/edit.rs:61-75 | if all are found and two ranges overlap, the error names two entries that do, the lower index first |
| EditMeaning.EarlyErrors | mcp-server/src/tools/edit.rs:22-43 | the errors in front of matching, in their order: no edits, an empty `oldText`, no file, a zero byte among the first 8192, bytes that encode no text |
| EditMeaning.OutcomeOfText | mcp-server/src/tools/edit.rs:44-107 | otherwise the outcome is that of the text behind the BOM, with the BOM put back |
| EditMeaning.OutcomeMeaning | mcp-server/src/tools/edit.rs:19-110 | an edit of a text writes a given result if and only if there are edits, all `oldText`s are found, the ranges are pairwise disjoint, the text changes, and the result is the BOM, if any, and the simultaneous substitution of all entries |
| EditMeaning.EditedIsText | mcp-server/src/tools/edit.rs:42-107 | a file that an edit succeeds on is the encoding of a text, and what is written is the encoding of its result |
| EditFormat.OutcomeKeepsBom | mcp-server/src/tools/edit.rs:44-107 | the text behind a BOM is what is edited; what is written is the BOM, if there was one, and the edited text |
| EditFormat.BomExactly | mcp-server/src/fs/text.rs:7-22 | the written file begins with a BOM if and only if it had one, or the edited text begins with an untouched U+FEFF or with a new text that does, everything in front deleted |
| EditFormat.EditAddsBom | mcp-server/src/tools/edit.rs:57-107 | replacing `a` by U+FEFF gives a file with a BOM that had none |
| EditFormat.SeamsExact | mcp-server/src/tools/edit.rs:57-84 | over a text without bare LF, the result has none exactly when every gap that begins with LF still has a CR in front |
| EditFormat.CrLfFileEdited | mcp-server/src/tools/edit.rs:45-84 | the edit of a CRLF-only file leaves no bare LF exactly then, and always when no range ends inside a CRLF |
| EditFormat.FallbackKeepsCrLf | mcp-server/src/tools/edit.rs:168-182 | an entry matched by the fallback never ends inside a CRLF |
| EditFormat.ExactMatchSplitsCrLf | mcp-server/src/tools/edit.rs:156-160 | replacing `a` CR literally in a CRLF file leaves a bare LF |
| LineEndings.AdoptLfCrLf | mcp-server/src/fs/text.rs:34-38 | adopting LF endings leaves a CRLF exactly in the texts with CR CR LF |
| EditFormat.LfSeamsExact | mcp-server/src/tools/edit.rs:57-84 | over a text without CRLF, the result has none exactly when no new text has one and no LF comes behind a CR where two parts meet |
| EditFormat.LfFileEdited | mcp-server/src/fs/text.rs:31-40 | the edit of a file without CRLF leaves none exactly when no replacement holds CR CR LF and the parts meet like that |
| EditFormat.LfFileGetsCrLf | mcp-server/src/fs/text.rs:31-40 | replacing `a` by `x` CR in front of an LF makes a CRLF |
| PathResolver.LexicalNormalize | mcp-server/src/fs/path.rs:59-73 | the loop computes the lexical form, `..` at the root included |
| PathResolver.LexicalCancels | mcp-server/src/fs/path.rs:64-68 | a name followed by `..` cancels wherever it stands |
| PathResolver.LexicalIdempotent | mcp-server/src/fs/path.rs:59-73 | normalising twice is normalising once; `..` is left at most as the first component |
| PathResolver.ParentsOfRoot | mcp-server/src/fs/path.rs:64-68 | any number of `..` at the root gives `/` when even and `/..` when odd |
| PathResolver.PushTail | mcp-server/src/fs/path.rs:48-51 | the missing names come back behind the ancestor in their order |
| PathResolver.ResolveInWorkspace | mcp-server/src/fs/path.rs:14-56 | terminates with the canonical form of the deepest existing ancestor and the missing names behind it, or the error that applies |
| PathResolver.AcceptedPath | mcp-server/src/fs/path.rs:24-55 | an accepted path has the root as a prefix of whole components, no `..`, and is canonical as far as it exists; a link whose target is missing counts as a missing name |
| PathResolver.ResolveIdempotent | mcp-server/src/fs/path.rs:14-56 | resolving an accepted path again, as a printed absolute request, returns it |
| PathResolver.SameBelow | mcp-server/src/fs/path.rs:32-51 | what is below a path is what is below its canonical form |
| PathResolver.SameFileSameKey | mcp-server/src/fs/path.rs:29-51 | two accepted requests that reach the same existing file or directory, through whatever links, and then name the same missing components, get the same lock key |
| PathResolver.LinkSharesKey | mcp-server/src/fs/path.rs:29-51 | where `/l` is a link to `/a`, requests for `/l/...` and `/a/...` get the same key |
| PathResolver.KeyIdentifiesPlace | mcp-server/src/fs/mutation_queue.rs:26-31 | two accepted requests get the same key if and only if what exists of them is the same file or directory and they miss the same names behind it |
| RequestForms.RelativeRequest | mcp-server/src/fs/path.rs:14-27 | a relative request, with `.`, doubled slashes and `name/..` put in anywhere, resolves as the absolute path of its names below the root |
| RequestForms.RelativeResolved | mcp-server/src/fs/path.rs:14-56 | with no link in the way it resolves to exactly these names below the root, existing or not |
| RequestForms.AbsoluteRequest | mcp-server/src/fs/path.rs:15-19 | an absolute request, written in whatever way, resolves as its names |
| RequestForms.ExistingRequest | mcp-server/src/fs/path.rs:14-56 | a relative request for something that exists resolves to its canonical path, and is refused if a link leads out of the root |
| RequestForms.ParentRequest | mcp-server/src/fs/path.rs:22-27 | `..` in front is refused, unless the root's own name follows: then the rest is resolved below the root |
| RequestForms.AnswerForPath | mcp-server/src/fs/path.rs:29-56 | the answer for every path: the missing names behind the canonical form of the deepest existing ancestor, if both the path and that result are in the root, and else a refusal |
| RequestForms.UnresolvableExactly | mcp-server/src/fs/path.rs:34-47 | there is nothing to resolve if and only if the root is `/`, the normalised path begins with `..` and `/..` does not exist |
| FileMutation.MutationQueue.constructor | mcp-server/src/fs/mutation_queue.rs:13-16 | no path has a lock |
| FileMutation.MutationQueue.LockOf | mcp-server/src/fs/mutation_queue.rs:26-32 | the path's lock, new if need be; no other path has it and no path loses its own |
| FileMutation.Disk.WriteAtomic | mcp-server/src/fs/atomic_write.rs:8-21 | all the bytes on success, the old file on any error; nothing but target and temp file is touched, and the temp file is gone unless its removal failed |
| FileMutation.Disk.WriteInner | mcp-server/src/fs/atomic_write.rs:23-47 | the first error ends it, and only the last step touches the target |
| FileMutation.WriteAtomicIsARun | mcp-server/src/fs/atomic_write.rs:8-47 | whatever error it meets, the atomic write is a run of the protocol's steps with the same files, the same outcome and a commit exactly on success |
| MutationProtocol.TempNameInjective | mcp-server/src/fs/atomic_write.rs:9-14 | a temp name has one target name and one random part, whatever its length |
| MutationProtocol.TempPathInjective | mcp-server/src/fs/atomic_write.rs:13-14 | so temp files of different targets differ |
| MutationProtocol.TempPathMeaning | mcp-server/src/fs/atomic_write.rs:9-14 | the temp file of `dir/name` is `dir/.name.mcpod-tmp-` and the random part; `/` and paths that end in `..` have none |
| RandomHex.RandomParts | mcp-server/src/util.rs:5-26 | the random parts are exactly the 64-bit numbers printed with at least eight hexadecimal digits, and no two numbers print alike |
| MutationProtocol.OverlayMeaning | mcp-server/src/fs/atomic_write.rs:29-31 | a write at an offset, byte by byte: the new bytes, the old ones around them, zeros in a gap |
| ProtocolInvariant.TempsDiffer | mcp-server/src/fs/mutation_queue.rs:26-34 | with the lock held per path, no live transaction can create the temp file of another |
| ProtocolInvariant.NextKeeps | mcp-server/src/tools/edit.rs:31-110 | every admitted step of every call keeps the invariant: locks, ownership, up-to-date reads, temp contents, operations of dropped calls under way, files as the log says, one commit a call |
| ProtocolInvariant.RunKeeps | mcp-server/src/tools/edit.rs:31-110 | so does every run of any number of edits and writes, with errors, crashes and cancellation at any moment, in which no lock is taken over a create, a write or a rename of a dropped call that is still under way |
| ProtocolTheorems.NoLostUpdate | mcp-server/src/tools/edit.rs:31-110 | in every state that such runs reach each file that is no temp file holds its initial content with the logged commits applied in order, and every commit replaced what the log left there, an edit what it had read |
| ProtocolTheorems.TargetsAreWhole | mcp-server/src/fs/atomic_write.rs:8-47 | in every such state a target holds its initial bytes or the complete bytes of one call |
| EditCommits.EditCommitMeaning | mcp-server/src/tools/edit.rs:31-110 | in every such state each committed edit has read and replaced the encoding of a text, and wrote the BOM, if any, and the simultaneous substitution of all its entries, each of them found and no two overlapping |
| EditCommits.WriteCommitMeaning | mcp-server/src/tools/write.rs:12-25 | in every such state each committed write wrote its content |
| ProtocolTheorems.StepIsAtomic | mcp-server/src/fs/atomic_write.rs:37-39 | a target changes only by a rename, of a live call or of one that was dropped, and then to the complete output of that call |
| ProtocolTheorems.CommitsOnce | mcp-server/src/tools/edit.rs:106-112 | a call whose rename took effect has exactly one commit, for its path and its operation; any other has none |
| ProtocolTheorems.LocksGrow | mcp-server/src/fs/mutation_queue.rs:27-32 | no step but a crash takes or changes a path's lock |
| ProtocolTheorems.Exclusion | mcp-server/src/fs/mutation_queue.rs:26-34 | two calls in their transactions have different paths and different temp files |
| ProtocolTheorems.NobodyStuck | mcp-server/src/fs/mutation_queue.rs:33 | a call that is not over can move, or waits for a lock whose owner can move, or for an operation under way that can land |
| ProtocolTheorems.EndedCall | mcp-server/src/fs/mutation_queue.rs:25-34 | a call that leaves or is dropped, even during a file operation, gives its lock back and takes no further step; files, log and all other calls and locks are as before, and any of them may be dropped too |
| ProtocolTheorems.AnyOperationMayFail | mcp-server/src/fs/atomic_write.rs:16-39 | every file operation of a call may fail; then it is left with removing its temp file and leaving uncommitted, and no target and no commit changes |
| ProtocolRuns.UndisturbedCallCommits | mcp-server/src/tools/write.rs:12-25 | a call for a free path that meets no error commits its whole output and changes no other file |
| EditCommits.UndisturbedEdit | mcp-server/src/tools/edit.rs:31-110 | an edit of a text that nothing disturbs puts its result there and changes no other file |
| EditCommits.UndisturbedWrite | mcp-server/src/tools/write.rs:12-25 | a write that nothing disturbs puts its content there and changes no other file |
| ProtocolLimits.RenameInFlightLosesUpdate | mcp-server/src/fs/atomic_write.rs:37-39 | for every edit that has a result, a run in which it is dropped during its rename and a later call's write is lost |
| ProtocolLimits.RenameInFlightTearsTarget | mcp-server/src/fs/atomic_write.rs:26-39 | for every call with a non-empty result, a run in which it is dropped during its rename and the target ends up empty, which is nobody's result |
| ProtocolLimits.CreateInFlightTearsTarget | mcp-server/src/fs/atomic_write.rs:26-39 | for every call with a non-empty result, a run in which the create of a dropped call empties its temp file and the target ends up empty |
| ProtocolLimits.WriteInFlightMixesResults | mcp-server/src/fs/atomic_write.rs:29-39 | for every call whose result does not begin with `x`, a run in which a dropped call's write of `x` goes over its temp file and the target ends up as the mixture |
| ProtocolLimits.GuaranteedExactly | mcp-server/src/fs/mutation_queue.rs:3-6 | all targets hold what the log says, and all commits are complete and up to date, in every run, if and only if no target is the temp file of another and no lock is taken over a create, a write or a rename under way, or no target has a file name at all; removals under way do no harm |
| ProtocolLimits.TempFileLost | mcp-server/src/fs/atomic_write.rs:14-39 | for every target, every random part and every content, a run in which the file in the place of the temp file is lost without a trace in the log |
| ProtocolLimits.FollowsLogExactly | mcp-server/src/fs/atomic_write.rs:13-14 | where no lock is taken over a create, a write or a rename under way, a file follows the log in every run if and only if it is no temp file of a target |
| ProtocolLimits.OrdinarySeparate | mcp-server/src/fs/atomic_write.rs:14 | the paths that are not named like temp files can all be targets; with the temp file of one of them they cannot |
| ProtocolLimits.ShortSuffixIsOrdinary | mcp-server/src/util.rs:5-26 | the random part has eight digits or more, so a shorter suffix makes no temp name |
| Truncate.LinesWhole | mcp-server/src/output/truncate.rs:33 | the lines put together are the text, and each but the last ends in its only newline |
| Truncate.LinesUnique | mcp-server/src/output/truncate.rs:33 | no other way to cut a text into lines |
| Truncate.CountLinesMeaning | mcp-server/src/output/truncate.rs:13-16 | as many lines as newlines, and one more for an unterminated end |
| Truncate.TakeHead | mcp-server/src/output/truncate.rs:32-63 | the longest run of whole leading lines within both budgets, and why it stopped |
| Truncate.HeadMeaning | mcp-server/src/output/truncate.rs:31-63 | it is unique, a prefix of the text, within both budgets, and the text exactly when that fits |
| Truncate.ZeroLineBudget | mcp-server/src/output/truncate.rs:27-61 | with no line allowed, a one-byte first line is called too big |
| Truncate.FirstLineTooBigMeaning | mcp-server/src/output/truncate.rs:27-61 | the flag means what its comment says if and only if it is not the case that no line is allowed and the first one is small |
| Truncate.HeadBudgets | mcp-server/src/output/truncate.rs:31-63 | no longer run of whole leading lines keeps both budgets; `byte_limited` is set exactly when lines are left and the line budget is not used up |
| Truncate.SumBytes | mcp-server/src/output/truncate.rs:99 | the bytes of the lines from `start` on |
| Truncate.CutFront | mcp-server/src/output/truncate.rs:116-123 | the longest suffix by whole characters within the byte budget, at most three bytes short of it |
| Truncate.TakeTail | mcp-server/src/output/truncate.rs:83-133 | the longest run of whole last lines within both budgets, or that suffix of a last line too big; the reported range ends at the last line, and `truncated` says exactly whether text was dropped |
| Truncate.TailMeaning | mcp-server/src/output/truncate.rs:82-133 | it is unique, a suffix of the text within both budgets, and not truncated exactly when the text fits |
| Truncate.TailBudgets | mcp-server/src/output/truncate.rs:82-113 | without a cut line, no run of whole last lines that starts earlier keeps both budgets; `byte_limited` is set exactly when the last lines that the line budget allows are too many bytes |
| Truncate.CutBudget | mcp-server/src/output/truncate.rs:105-123 | a line is cut exactly when the last one alone is too big, and no longer suffix of it by whole characters fits |
| ReadWindow.Read | mcp-server/src/tools/read.rs:24-149 | for every offset and limit, the error that applies or the page |
| ReadWindow.ReadPage | mcp-server/src/tools/read.rs:89-149 | the longest window of whole lines within both budgets with the right note, or the size of a first line over the byte budget |
| ReadWindow.WindowMeaning | mcp-server/src/tools/read.rs:89-149 | a window has at most `limit` and at most 2000 lines and 51200 bytes, ends early only when the next line would be too many bytes, and the note says how many lines are left, or which were shown of how many, by what ran out |
| ReadWindow.OverBudgetMeaning | mcp-server/src/tools/read.rs:107-124 | a line is reported instead of shown exactly when it has more than 51200 bytes |
| ReadWindow.ReplyMeaning | mcp-server/src/tools/read.rs:24-87 | which of the errors applies, in their order, and at which line a page starts |
| ReadWindow.ReadRefinesTakeHead | mcp-server/src/tools/read.rs:92-105 | the window is what the shared truncator keeps of the rest of the file, with the same reason to stop |
| ReadWindow.PagingCoversTheFile | mcp-server/src/tools/read.rs:81-149 | a client that goes on behind the last line of each page, with any limits, gets every line whole, once and in order, or its number and size when it is over the byte budget, in at most one page a line |
| ReadWindow.WindowsAreTheFile | mcp-server/src/tools/read.rs:126-149 | with no line over the budget the windows put together are the file |
| ReadWindow.NoteUnlessLast | mcp-server/src/tools/read.rs:127-149 | a window has a continuation note exactly when it is not the last page, and the note leads to the first line of the next |
| ReadWindow.PageThrough | mcp-server/src/tools/read.rs:81-149 | the loop of a client with one limit terminates, and its replies are such a paging |
| Sessions.LegacySseManager.constructor | mcp-server/src/transport/legacy_sse.rs:65-67 | an empty table |
| Sessions.LegacySseManager.Open | mcp-server/src/transport/legacy_sse.rs:76-123 | the id is in the table, connected, with a token of its own; nothing else changes |
| Sessions.LegacySseManager.Deliver | mcp-server/src/transport/legacy_sse.rs:127-136 | given whether its receiver is alive, accepted if and only if it is and the session is in the table; no session is created |
| Sessions.LegacySseManager.Disconnect | mcp-server/src/transport/legacy_sse.rs:139-152 | the token fires and the time is set unless it was; an unknown id changes nothing |
| Sessions.LegacySseManager.Sweep | mcp-server/src/transport/legacy_sse.rs:156-167 | exactly the sessions disconnected for longer than the TTL leave the table |
| Sessions.LegacySseManager.CloseAll | mcp-server/src/transport/legacy_sse.rs:170-176 | every token fires and the table is empty |
| Sessions.LegacySseManager.ActiveCount | mcp-server/src/transport/legacy_sse.rs:178-181 | the number of connected sessions |
| Sessions.DisconnectGuard.Fire | mcp-server/src/transport/legacy_sse.rs:332-337 | the first call disconnects, any later one changes nothing |
| Sessions.DisconnectGuard.Drop | mcp-server/src/transport/legacy_sse.rs:340-344 | dropping the stream disconnects the session if nothing did before |
| Sessions.DisconnectTwice | mcp-server/src/transport/legacy_sse.rs:143 | a second disconnect changes nothing, the time included |
| Sessions.DisconnectedIsCancelled | mcp-server/src/transport/legacy_sse.rs:139-144 | over every run, a disconnected session is cancelled |
| Sessions.DisconnectTimeFixed | mcp-server/src/transport/legacy_sse.rs:143 | over every run, the time of disconnection never moves |
| Sessions.LeavesCancelled | mcp-server/src/transport/legacy_sse.rs:156-176 | over every run, no session leaves the table uncancelled |
| Sessions.GoneForGood | mcp-server/src/transport/legacy_sse.rs:125-136 | with fresh ids, a removed id is never in the table again and no message for it is accepted |
| Sessions.ConnectedExactly | mcp-server/src/transport/legacy_sse.rs:154-167 | a session is connected if and only if since its opening neither its stream was dropped nor the server shut down: no sweep touches it |
| Sessions.CancelledExactly | mcp-server/src/transport/legacy_sse.rs:139-176 | since its opening a session is cancelled if and only if its stream was dropped or the server shut down; no sweep does it |
| Sessions.ConnectedIsServed | mcp-server/src/transport/legacy_sse.rs:125-136 | while neither has come, messages are accepted exactly when the receiver is there |
| Sessions.StaysUntilSwept | mcp-server/src/transport/legacy_sse.rs:154-167 | without shutdown, a session disconnected at `t` is in the table, with `t`, if and only if no sweep has come after `t + TTL` |
| Sessions.StaysForTtl | mcp-server/src/transport/legacy_sse.rs:154-163 | so it is there after every event up to `t + TTL` |
| Sessions.GoneAfterTtl | mcp-server/src/transport/legacy_sse.rs:185-199 | and, with sweeps at most `D` apart, gone at every event after `t + TTL + D` |
| Sessions.ServedUntilSwept | mcp-server/src/transport/legacy_sse.rs:125-167 | after its stream was dropped at `t`, a session accepts messages for a live receiver until, and only until, a sweep comes after `t + TTL` |
| OutputMerge.NextKeeps | mcp-server/src/tools/bash.rs:197-207 | every step of the readers keeps the invariant: sorted, what was pushed is each stream as read, up to the chunk its reader holds |
| OutputMerge.EachStreamInOrder | mcp-server/src/tools/bash.rs:90-103 | after any interleaving of reads, numbers and pushes, with other commands taking numbers, filtering the sorted list gives each stream's bytes in the order read; only the last read is missing, if its reader has not pushed it |
| OutputMerge.MergeIsHistory | mcp-server/src/tools/bash.rs:90-93 | when both readers are done the merge is everything read, each stream in the order of its reads, in the order in which the numbers were taken |
| OutputMerge.ReadOrderExactly | mcp-server/src/tools/bash.rs:197-207 | the merge is in the order of the reads if and only if no reader took a number while the other still held an earlier read |
| OutputMerge.OvertakenExample | mcp-server/src/tools/bash.rs:198-201 | a run in which the second read comes out first |
| OutputMerge.PushOrderIrrelevant | mcp-server/src/tools/bash.rs:92 | the merge does not depend on the order of the pushes |

## Left out

- HTTP routing, authentication, the rmcp service loop, JSON, logging and configuration: plumbing over libraries.
- Images, missing, binary and oversized files in `read`, the text of diffs and `firstChangedLine`: third-party behaviour, or one test before the modelled part begins.
- Normalizer.Normalize: the NFKC table is a parameter of which only this is asked, that no expansion of a non-ASCII character that `map_char` keeps is empty or ends in a space; normalisation is not claimed to be idempotent, which it is not for U+FE31.
- EditRun.Run: error messages are constructors with their indices and counts; the wording is not modelled.
- PathResolver.ResolveInWorkspace: `canonicalize` is a function on an unchanging tree whose laws are written down in `IsFileSystem`; errors other than a missing file, hard links and file names that are no UTF-8 are not distinguished.
- PathResolver.SameFileSameKey: a link whose target is missing is treated as a missing name, as the program does; a request for it and one for its target get different keys.
- ProtocolTheorems.NoLostUpdate: is for targets that are not each other's temp files and runs in which no call takes a path's lock over a create, a write or a rename of a dropped call under way; `GuaranteedExactly` shows that all of it is needed. Nobody but the modelled calls changes files. A process that starts after a crash has a fresh lock map and no calls, and no operation of the old one is still to come.
- ProtocolLimits.WriteInFlightMixesResults: operations find files by name. A late write of the program goes to the file it has open; when the name is gone by then the model drops the write, while the program changes the file, which may have been renamed over the target. That takes a lock taken over a write under way, which the guarantee excludes already.
- Reads, directory creation and syncs that go on after their call was dropped change no file and are no steps of their own.
- ProtocolTheorems.NobodyStuck: the fairness of the lock queue is not modelled, so no call is promised the lock.
- FileMutation.Disk.WriteAtomic: durability (`fsync` of file and directory) is not modelled; a crash leaves files as the last step left them.
- The file effects of creating parent directories: the step may fail, but directories are not part of the file map.
- Truncate.TakeTail: the saved log file and the notes around the output (`append_note`, `stream_view`) are text around what is modelled; lossy UTF-8 decoding in front of it is assumed away.
- ReadWindow.Read: a page is the window and the note as values; `append_note` strips trailing newlines of the window before it adds the note, and replaces a window of whitespace only. Line numbers are unbounded; they are cast to 32 bits in the program, which the 64 MiB limit on files keeps exact.
- Sessions.LegacySseManager.Deliver: whether the receiver is alive is an input, and the wait for room in the channel is not modelled.
- Sessions.GoneAfterTtl: speaks of runs with sweeps, so not of sessions opened after shutdown, when the sweeper has stopped.
- OutputMerge.ReadOrderExactly: the two readers are steps of a transition system, not loops; reads of the pipes are inputs, the counter does not wrap at 64 bits, and the two-second drain is the choice of when to look.
- The kill guard of `process_group.rs` and the choice of exit code in `bash.rs`: one flag and a few cases over signals; it would add easy members only.
- `constant_time_eq`, `duration_env`, number formatting and the tool descriptions: easy or textual. Of `random_hex` only the form of the result is modelled, which digits it draws is an input.
