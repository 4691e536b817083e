# mdtool text core in Dafny

mdtool is a command-line tool for Markdown files. This project models the
text logic at its centre and proves what that logic promises:

- **The fenced-code-block engine** (`tools/tool_core.cpp`, module `Fence`,
  `BlockEdit`, `ToolCore`). The four block tools `addl_`, `updl_`, `rmvl_`
  and `delcl_` scan a document with the pattern
  ``` ```([ \t]*)([^ \t\n]*)([^\n]*)\n([\s\S]*?)([ \t]*)``` ```, copy the
  text between matches verbatim and write every match back, edited or not,
  from its five captures. RE2 is replaced by a scanner
  (`Fence.FindAndConsume`) proved to return exactly the leftmost-first match
  of the pattern (`Fence.FindAndConsumeSound`, `Fence.FindAndConsumeComplete`)
  and to fail exactly when the text holds no block (`Fence.FindAndConsumeNone`).
  The editing loop is one method, `ToolCore.RewriteBlocks`, shared by the four
  tools through the policy datatype `BlockEdit.Op`. The method is proved
  against the function `BlockEdit.Rewrite`. That function is proved to copy the
  gaps, to edit every match, and to be matched again block for block
  (`BlockEdit.RewriteRescans`), which gives the idempotence of the tools.
  Removing tags and then adding a language gives what updating the language
  gives only while no opening line has text after its tag: `rmvl_` drops that
  rest of the line (tools/tool_core.cpp:322-328) and `updl_` keeps it
  (tools/tool_core.cpp:252-261), so there the round trip stops
  (`BlockEdit.RemoveThenAddBlock`).
- **`LanguageIdentifier::add`** (`tools/tool_core/CodeBlock.cpp`, module
  `CodeBlock`): split at a signed line number, tag the untagged blocks of one
  part with the same loop, and save the rejoined text in the file's charset.
- **The shared helpers** (`tools/tool_core/shared.cpp`, module `Shared`):
  - `normalize_newlines`, which is repeated verbatim at
    tools/tool_core.cpp:22-36 and modelled once;
  - `tool::splitFromLine`, with its table of line starts;
  - the decisions of `encoding::readToUtf8` (byte order mark, the UTF-8
    shortcut, the E2BIG chunk loop) and of `encoding::saveUtf8ToFile` (exact
    "UTF-8" or empty charset, one conversion into four times the room).
- **The encoding decisions** of `other/coding.cpp` (module `Coding`):
  - the result handling of `UchardetDetector::detect` and
    `IconvConverter::convert`;
  - the shortcuts of `convertString` and the fallback chain of `toUTF8`;
  - `isValidEncoding` and `getSupportedEncodings`;
  - both branches of `getConsoleEncoding`.

uchardet, iconv and the file system are parameters: a detector engine is a
record of functions, an iconv call is a function from the unread input and
the output room to a step (`Converted`, `OutputFull` for E2BIG, `Failed`),
and what a read produced or whether a write succeeds is an input. One char
stands for one byte of a `std::string`.

Two behaviours of the code are reproduced as written:

- `delcl_` mends the final newline after joining the kept lines, so deleting
  one line of the body "a\nb\n" gives "b\n\n" (`BlockEdit.DeleteLinesDoubleNewline`).
- `splitFromLine` counts a negative line from a table that holds one entry
  more than the text has lines. The code's comment says the k-th line from
  the end goes to the head. The code instead puts one line more into the
  head, so -1 and -2 both keep the whole text in the head
  (`Shared.SplitNegative`, `Shared.SplitLastLines`). The model follows the code.

## Model

| member | source | states |
|---|---|---|
| Fence.Render | tools/tool_core.cpp:158-160 | a block written back from its captures is exactly as long as the capture-length sum the loops subtract to locate the match |
| Fence.NextFence | tools/tool_core.cpp:19 | the scan for "```" stops at a fence or at the end of the text |
| Fence.FirstFence | tools/tool_core.cpp:19 | no fence lies between the scan start and what NextFence returns, so it is the first one |
| Fence.NextNewline | tools/tool_core.cpp:19 | the scan for the end of the opening line stops at a newline or at the end |
| Fence.FirstNewline | tools/tool_core.cpp:19 | no newline lies before what NextNewline returns |
| Fence.BlankEnd | tools/tool_core.cpp:19 | the greedy `[ \t]*` run stops at a character that is not a space or tab |
| Fence.BlankRun | tools/tool_core.cpp:19 | every character of that run is a space or tab |
| Fence.TagEnd | tools/tool_core.cpp:19 | the greedy `[^ \t\n]*` tag run stops at a space, tab or newline |
| Fence.TagRun | tools/tool_core.cpp:19 | every character of the tag run is a tag character |
| Fence.BlankStart | tools/tool_core.cpp:19 | the trailing `[ \t]*` before the closing fence starts after a non-blank or at the body start |
| Fence.BlankRunBefore | tools/tool_core.cpp:19 | every character from BlankStart to the closing fence is blank |
| Fence.RunsStopAtNewline | tools/tool_core.cpp:19 | the leading blanks and the tag never run past the newline of the opening line |
| Fence.Locate | tools/tool_core.cpp:19 | the positions found for a match are in order within the text |
| Fence.LocateMatches | tools/tool_core.cpp:19 | what Locate finds is a match: first fence, first newline after it, first fence after that, greedy group ends |
| Fence.LocateHeader | tools/tool_core.cpp:19 | no fence before the match; the opening line has no newline; leading blanks and tag stay in their classes and took all they could |
| Fence.LocateBody | tools/tool_core.cpp:19 | the body holds no fence and the trailing blanks are maximal |
| Fence.LocateNone | tools/tool_core.cpp:19 | when Locate finds nothing the pattern has no match in the text |
| Fence.FindAndConsume | tools/tool_core.cpp:156 | a FindAndConsume call consumes at least the matched block |
| Fence.ConsumedSuffix | tools/tool_core.cpp:156 | what is left of the input after a call is the end of the input |
| Fence.RenderCuts | tools/tool_core.cpp:178-185 | captures cut at a match render back to exactly the text they cover |
| Fence.CutsHeader | tools/tool_core.cpp:19 | the header captures of a match stay in their character classes and are maximal |
| Fence.CutsBody | tools/tool_core.cpp:19 | the lazy body stops at the first closing fence, and the trailing blanks are all blanks |
| Fence.CutsLeftmost | tools/tool_core.cpp:19 | the cuts of a match give the leftmost-first match |
| Fence.LeftmostCuts | tools/tool_core.cpp:19 | every leftmost-first match has cuts, and they are those of its captures |
| Fence.CutsUnique | tools/tool_core.cpp:19 | the positions of a match are determined by the text alone |
| Fence.HeaderSlices | tools/tool_core.cpp:158-185 | at a placed block, the text between the cuts is its leading blanks, tag and rest of line |
| Fence.BodySlices | tools/tool_core.cpp:158-185 | at a placed block, the text between the cuts is its body and trailing blanks |
| Fence.LeftmostSlices | tools/tool_core.cpp:158-185 | a placed block's fences and newline are at its cuts and the captures there are the block |
| Fence.FindAndConsumeSound | tools/tool_core.cpp:156-160 | whatever FindAndConsume returns is the leftmost-first match, and the computed match_start never underflows |
| Fence.LocateFinds | tools/tool_core.cpp:19 | Locate finds the cuts of any match |
| Fence.LocatedConsume | tools/tool_core.cpp:156 | FindAndConsume returns the captures at the located cuts and the text after the closing fence |
| Fence.FindAndConsumeComplete | tools/tool_core.cpp:156 | any leftmost-first match is what FindAndConsume returns |
| Fence.LeftmostUnique | tools/tool_core.cpp:19 | the leftmost-first match is unique |
| Fence.FindAndConsumeNone | tools/tool_core.cpp:156 | FindAndConsume fails exactly when no fence is followed by a newline and another fence |
| Fence.Rescan | tools/tool_core.cpp:156-189 | replacing the leftmost match by any well-formed block makes that block the next match, with the same text before it |
| Fence.ConsumedWellFormed | tools/tool_core.cpp:156-160 | a match FindAndConsume returns is well formed and starts at a non-negative position |
| Fence.ConsumeRescan | tools/tool_core.cpp:156-189 | Rescan, stated for the match FindAndConsume found |
| BlockEdit.GetLines | tools/tool_core.cpp:409-416 | getline yields no line exactly for an empty body |
| BlockEdit.JoinGetLines | tools/tool_core.cpp:409-416 | the lines joined with newlines, plus the final newline, give the body back |
| BlockEdit.GetLinesStep | tools/tool_core.cpp:414-416 | one getline takes the text before the first newline and continues after it |
| BlockEdit.DropLines | tools/tool_core.cpp:425-440 | the text after the n-th newline is no longer than the body and starts after a newline |
| BlockEdit.DropLinesSuffix | tools/tool_core.cpp:425-440 | what is left after dropping lines is the end of the body |
| BlockEdit.DropLinesStep | tools/tool_core.cpp:425-432 | dropping n lines is dropping the first line and then n-1 more |
| BlockEdit.JoinDropLines | tools/tool_core.cpp:425-432 | joining the lines from the n-th on gives the text after the n-th newline |
| BlockEdit.DropPastLines | tools/tool_core.cpp:425-440 | when the body has no more than n lines, nothing is left |
| BlockEdit.LastLineEmpty | tools/tool_core.cpp:419-422 | getline's last line is empty exactly when the body ends with a blank line |
| BlockEdit.JoinAppendEmpty | tools/tool_core.cpp:427-432 | an extra "" line adds exactly one newline to the join |
| BlockEdit.BodyLinesNewline | tools/tool_core.cpp:419-422 | a body ending in a newline after a non-empty line gets the extra "" line |
| BlockEdit.JoinedBodyIsDeletedBody | tools/tool_core.cpp:419-438 | the body delcl_ builds is the text after the n-th newline, with the final newline mended |
| BlockEdit.DeletedPlainBody | tools/tool_core.cpp:425-432 | without a final newline the new body is exactly the text after the n-th newline |
| BlockEdit.DeletedNewlineBody | tools/tool_core.cpp:434-438 | after a non-empty last line the new body gets one more newline unless it is empty |
| BlockEdit.DeletedBlankLastBody | tools/tool_core.cpp:419-438 | after a blank last line a lone remaining newline is dropped |
| BlockEdit.ChangesIffEdited | tools/tool_core.cpp:165-186 | apart from updl_, a policy sets has_modification exactly when it writes a different block |
| BlockEdit.UntaggedHasNoRest | tools/tool_core.cpp:19 | an untagged match has nothing else on its opening line |
| BlockEdit.ValidLanguageWellFormed | tools/tool_core.cpp:166-174 | inserting a tag without spaces, tabs, newlines keeps the block matchable with the same captures |
| BlockEdit.RemovedWellFormed | tools/tool_core.cpp:322-328 | a block with tag and rest of line removed is still a well-formed match |
| BlockEdit.SuffixBodyWellFormed | tools/tool_core.cpp:447-455 | a block whose body is an end of its old body stays well formed |
| BlockEdit.DeletedWellFormed | tools/tool_core.cpp:447-455 | the block delcl_ writes is still a well-formed match |
| BlockEdit.EditWellFormed | tools/tool_core.cpp:165-186 | every shape-keeping policy leaves a well-formed block well formed |
| BlockEdit.EditAll | tools/tool_core.cpp:156-189 | every match is replaced by its edit, one for one and in order |
| BlockEdit.ConsumeSplits | tools/tool_core.cpp:158-163 | the text is the gap before the match, the match written back, and what is left |
| BlockEdit.Decompose | tools/tool_core.cpp:156-192 | gaps and matches written back from their captures rebuild the document byte for byte |
| BlockEdit.RewriteAssembles | tools/tool_core.cpp:156-192 | a rewrite copies every gap and replaces every match by its edit |
| BlockEdit.AnyChangeSome | tools/tool_core.cpp:149-175 | has_modification ends true exactly when some match is changed |
| BlockEdit.RescanStep | tools/tool_core.cpp:156-189 | in a rewrite the first edited block is the first match, with the same gap before it |
| BlockEdit.RewriteRescans | tools/tool_core.cpp:156-192 | the rewritten text has the same gaps and, as its matches, the edited blocks |
| BlockEdit.RewriteTwice | tools/tool_core.cpp:156-192 | two rewrites edit each match twice and keep the gaps |
| BlockEdit.UpdateIdempotent | tools/tool_core.cpp:243-267 | updating twice with a valid tag writes what updating once wrote |
| BlockEdit.AddIdempotent | tools/tool_core.cpp:156-192 | adding a valid tag twice writes what adding it once wrote |
| BlockEdit.RemoveIdempotent | tools/tool_core.cpp:312-346 | removing tags twice writes what removing them once wrote |
| BlockEdit.AddThenNothingToAdd | tools/tool_core.cpp:165-198 | addl_'s output has no untagged block, so a second run reports no change |
| BlockEdit.RemoveThenNothingToRemove | tools/tool_core.cpp:321-351 | rmvl_'s output has no tagged block, so a second run reports no change |
| BlockEdit.AddTagsEveryBlock | tools/tool_core.cpp:165-186 | after addl_ every block is tagged; untagged ones got the language, tagged ones are identical |
| BlockEdit.UpdateTagsEveryBlock | tools/tool_core.cpp:252-261 | after updl_ every block carries the language and keeps leading blanks, rest, body and trailing blanks |
| BlockEdit.RemoveUntagsEveryBlock | tools/tool_core.cpp:321-340 | after rmvl_ every block has leading blanks only on its opening line and keeps its body |
| BlockEdit.DeleteEditsEveryBody | tools/tool_core.cpp:404-455 | after delcl_ the gaps are the same and every block keeps its opening line and loses its first lines |
| BlockEdit.AddThenRemoveBlocks | tools/tool_core.cpp:321-340 | removing after adding edits each well-formed block as removing alone does |
| BlockEdit.AddThenRemove | tools/tool_core.cpp:321-346 | addl_ followed by rmvl_ writes what rmvl_ alone writes |
| BlockEdit.RemoveThenAddBlock | tools/tool_core.cpp:252-261 | per matched block, removing the tag and then adding the language equals updating the language exactly when the opening line has no text after the tag |
| BlockEdit.RemoveThenAdd | tools/tool_core.cpp:252-261 | when no opening line has text after its tag, rmvl_ followed by addl_ writes what updl_ writes |
| BlockEdit.UnchangedRewrite | tools/tool_core.cpp:156-192 | a policy other than updl_ that changes no block writes the document back unchanged |
| BlockEdit.UnchangedEdit | tools/tool_core.cpp:176-186 | a block the policy does not change is written back as it was |
| BlockEdit.UpdateChangesIffBlock | tools/tool_core.cpp:243-272 | updl_ reports a change exactly when the document holds a block |
| BlockEdit.DeleteLinesDoubleNewline | tools/tool_core.cpp:434-438 | deleting one line of "a\nb\n" gives "b\n\n" |
| BlockEdit.DeleteLinesBlankLast | tools/tool_core.cpp:419-438 | deleting one line of "a\n\n" leaves an empty body |
| BlockEdit.DeleteLinesNoFinalNewline | tools/tool_core.cpp:427-432 | deleting one line of "a\nb" gives "b" |
| BlockEdit.DeleteLinesAll | tools/tool_core.cpp:425-440 | deleting as many lines as the body has empties it |
| BlockEdit.NoTicksNoFence | tools/tool_core.cpp:19 | a body without backticks never holds a closing fence |
| BlockEdit.SingleBlockMatch | tools/tool_core.cpp:156 | a document that starts with a block whose body has no backtick has that block as its first match |
| BlockEdit.SingleMatchRewrite | tools/tool_core.cpp:156-192 | a document with one match at its start rewrites to the edited block and the rest, and changes exactly when the block does |
| BlockEdit.RewriteNone | tools/tool_core.cpp:191-198 | a text without a match is copied as it is and reports no change |
| BlockEdit.RewriteUnfold | tools/tool_core.cpp:156-189 | after one match the output is the gap, the edited block and the rewrite of the rest |
| BlockEdit.AddScenario | tools/tool_core.cpp:128-198 | addl_ tags the single untagged block of a document and keeps its final newline |
| BlockEdit.RemoveScenario | tools/tool_core.cpp:290-351 | rmvl_ drops the tag of the single tagged block of a document |
| ToolCore.NewlineAt | tools/tool_core.cpp:414 | the position LineEnd finds is the first newline of the unread text |
| ToolCore.GetLineStep | tools/tool_core.cpp:414-416 | one getline call keeps the collected lines plus the lines of the unread text equal to the body's lines |
| ToolCore.LineEnd | tools/tool_core.cpp:414 | getline's line ends at the first newline or at the end of the unread text |
| ToolCore.SplitBodyLines | tools/tool_core.cpp:409-422 | the lines vector is getline's lines plus "" when the body ends in a newline after a non-empty line |
| ToolCore.JoinLinesSnoc | tools/tool_core.cpp:427-432 | appending one more line adds a newline and the line |
| ToolCore.JoinFrom | tools/tool_core.cpp:427-432 | the join loop yields the lines from `line` on, separated by newlines |
| ToolCore.DeleteLeadingLines | tools/tool_core.cpp:404-440 | the body delcl_ writes is DeletedBody of the old body |
| ToolCore.EditBlock | tools/tool_core.cpp:165-186 | the block appended for a match is the policy's edit, and the flag is set exactly when the policy counts a change |
| ToolCore.LoopExit | tools/tool_core.cpp:191-192 | once FindAndConsume fails, appending the rest of the text completes the rewrite and adds no change |
| ToolCore.MatchFits | tools/tool_core.cpp:158-160 | the match and what follows it fit in what is left of the content |
| ToolCore.GapInContent | tools/tool_core.cpp:158-163 | content.substr(last_end, match_start - last_end) is exactly the gap before the match |
| ToolCore.RestInContent | tools/tool_core.cpp:188 | the new last_end is where the unread input starts in the content |
| ToolCore.LoopStep | tools/tool_core.cpp:162-189 | appending the gap and the edited block keeps result plus rewrite of the rest equal to the full rewrite |
| ToolCore.LoopAdvance | tools/tool_core.cpp:158-189 | the loop invariant carries over to the input after the match |
| ToolCore.AppendMatch | tools/tool_core.cpp:158-188 | one turn appends the gap and the edited block, updates the flag, and moves last_end past the match |
| ToolCore.RewriteBlocks | tools/tool_core.cpp:148-192 | the loop returns the rewrite of the document and has_modification |
| ToolCore.Finish | tools/tool_core.cpp:194-206 | the tool writes exactly when some block changed, and reports success only if it wrote |
| ToolCore.Addl | tools/tool_core.cpp:128-212 | an empty language or a failed read refuses; otherwise the untagged blocks are tagged and written if any were |
| ToolCore.Updl | tools/tool_core.cpp:215-287 | an empty language or a failed read refuses; otherwise every block gets the language and the text is written if it has a block |
| ToolCore.Rmvl | tools/tool_core.cpp:290-365 | a failed read refuses; otherwise tagged blocks lose their tag and the text is written if any had one |
| ToolCore.Delcl | tools/tool_core.cpp:368-480 | line 0 or a failed read refuses; otherwise every body loses its first lines and the text is written if some body changed |
| ToolCore.AddlRerunWritesNothing | tools/tool_core.cpp:194-198 | addl_ run on its own output writes nothing |
| ToolCore.RmvlRerunWritesNothing | tools/tool_core.cpp:348-351 | rmvl_ run on its own output writes nothing |
| ToolCore.UpdlRerunWritesSame | tools/tool_core.cpp:261-281 | updl_ run on its own output writes the same text again |
| ToolCore.NoBlockNoWrite | tools/tool_core.cpp:194-198 | a document without a complete block is never written, whatever the tool |
| Shared.Normalized | tools/tool_core/shared.cpp:11-27 | the normalised text holds no '\r' and is never longer |
| Shared.NormalizedIdentity | tools/tool_core/shared.cpp:15-24 | text without '\r' is left as it is |
| Shared.NormalizedIdempotent | tools/tool_core/shared.cpp:11-27 | normalising twice is normalising once |
| Shared.NormalizedConcat | tools/tool_core/shared.cpp:15-24 | normalisation works piece by piece unless the cut splits "\r\n" |
| Shared.NormalizedUnits | tools/tool_core/shared.cpp:16-23 | "\r\n" and a lone '\r' become '\n'; any other character is copied |
| Shared.NormalizeNewlines | tools/tool_core/shared.cpp:11-27 | the push_back loop returns the normalised text |
| Shared.NormalizeStep | tools/tool_core/shared.cpp:16-23 | one push_back keeps output plus normalised rest equal to the normalised input |
| Shared.UnitAt | tools/tool_core/shared.cpp:16-23 | the unit at i ends after "\r\n" or after one character and is written as '\n' or as itself |
| Shared.Starts | tools/tool_core/shared.cpp:290-296 | every collected start follows a newline and is not the end of the text |
| Shared.LineTable | tools/tool_core/shared.cpp:286-301 | the table starts with 0, and every entry is 0, the size, or just after a newline |
| Shared.StartsFacts | tools/tool_core/shared.cpp:290-296 | the j-th collected start follows the (j+1)-th newline |
| Shared.LineTableShape | tools/tool_core/shared.cpp:286-301 | for non-empty text the table is 0, every start after a newline, and the size |
| Shared.SplitPosition | tools/tool_core/shared.cpp:281-340 | the cut is within the text and is 0, the size, or just after a newline |
| Shared.LinePositions | tools/tool_core/shared.cpp:286-301 | the table loop builds LineTable |
| Shared.CutAt | tools/tool_core/shared.cpp:343-344 | the two substrings at the split position put back together give the text |
| Shared.SplitFromLine | tools/tool_core/shared.cpp:277-347 | head plus tail is the text in every branch, cut at SplitPosition |
| Shared.SplitPositive | tools/tool_core/shared.cpp:309-317 | a positive line below the table size puts line - 1 lines in the head; at or past it the tail is empty |
| Shared.SplitNegative | tools/tool_core/shared.cpp:322-340 | -k cuts where the positive line total - k + 2 cuts; beyond the table everything goes to the tail |
| Shared.SplitLastLines | tools/tool_core/shared.cpp:331-339 | -1 and -2 both keep the whole text in the head |
| Shared.ExampleTable | tools/tool_core/shared.cpp:286-301 | the table of "a\nb\nc" is 0, 2, 4, 5 |
| Shared.StartsExample | tools/tool_core/shared.cpp:290-296 | the starts collected from "a\nb\nc" are 2 and 4 |
| Shared.SplitExamples | tools/tool_core/shared.cpp:309-340 | on "a\nb\nc", line 2 cuts at 2, -3 at 4, -2 and 9 at the end, -9 at the start |
| Shared.MapBytesConcat | tools/tool_core/shared.cpp:160-178 | a byte-by-byte conversion of two pieces is the conversion of their concatenation |
| Shared.SingleByteProgress | tools/tool_core/shared.cpp:164-173 | a single-byte iconv always consumes input when it stops with E2BIG |
| Shared.ChunkedSingleByte | tools/tool_core/shared.cpp:160-178 | for a single-byte charset the chunks glue into the conversion of the whole input |
| Shared.ConvertChunks | tools/tool_core/shared.cpp:160-178 | the E2BIG loop returns every chunk's output in order, or nothing after another error |
| Shared.ReadUtf8 | tools/tool_core/shared.cpp:95-183 | a failed read gives nothing, and any text returned has no '\r' |
| Shared.ReadToUtf8 | tools/tool_core/shared.cpp:124-183 | the steps after the read return ReadUtf8 |
| Shared.ReadUtf8Shortcuts | tools/tool_core/shared.cpp:124-147 | a byte order mark is dropped whatever the charset; "UTF-8" and "UTF8" skip iconv; other charsets succeed exactly when iconv_open and the chunk loop do |
| Shared.ReadUtf8SingleByte | tools/tool_core/shared.cpp:142-182 | a single-byte charset reads as the byte-by-byte mapping, normalised |
| Shared.SaveUtf8ToFile | tools/tool_core/shared.cpp:196-274 | an empty charset or exactly "UTF-8" writes the data unchanged when the file opens; any other charset writes exactly when iconv_open succeeds, the one iconv call into four times the room finishes and the file opens, and then writes that call's output; success is a write that leaves the file good |
| Shared.SaveBounded | tools/tool_core/shared.cpp:241-266 | the file never receives more than four bytes per byte of data |
| Shared.SaveSpellings | tools/tool_core/shared.cpp:205-230 | "UTF8" and "utf-8" are not the shortcut: they go to iconv_open and fail with it |
| Coding.Detection | other/coding.cpp:39-62 | success exactly for a live detector, non-empty data and accepted data; no detector gives DetectorCreationFailed, then empty data EmptyInput, then rejected data DetectionFailed; a null or empty charset is "unknown" |
| Coding.UchardetDetector.constructor | other/coding.cpp:15 | a new detector holds its engine and has been fed nothing |
| Coding.UchardetDetector.Reset | other/coding.cpp:64-68 | reset forgets the fed data only when there is a handle |
| Coding.UchardetDetector.Detect | other/coding.cpp:39-62 | detect returns Detection and leaves the detector fed with exactly the data |
| Coding.DetectString | other/coding.cpp:161-168 | empty input is "empty" without a detector; errors are only creation or detection failures |
| Coding.Conversion | other/coding.cpp:95-122 | an invalid handle fails, empty input is empty, output fits four bytes per input byte, and every failure is ConversionFailed |
| Coding.ConversionOutcomes | other/coding.cpp:115-121 | a conversion succeeds exactly when the single iconv call finishes, and returns its whole output |
| Coding.ConvertString | other/coding.cpp:170-184 | empty input and equal encoding names return the input without iconv; failures are ConversionFailed |
| Coding.ConvertStringBounded | other/coding.cpp:170-184 | convertString never returns more than four bytes per input byte |
| Coding.SourceEncoding | other/coding.cpp:252-268 | a given name is used; a detected one is never "unknown" or "empty" |
| Coding.ToUtf8 | other/coding.cpp:252-276 | empty input is empty and every failure is ConversionFailed |
| Coding.ToUtf8IsConvertString | other/coding.cpp:270-275 | with a named source, toUTF8 is convertString to "UTF-8" |
| Coding.ToUtf8Fallback | other/coding.cpp:257-267 | a failed, "unknown" or "empty" detection returns the input, never an error |
| Coding.ToUtf8Detected | other/coding.cpp:257-275 | a detected charset is converted from as if it had been named |
| Coding.AnyEqual | other/coding.cpp:355-358 | any_of is true exactly when some entry equals the name |
| Coding.IsValidEncoding | other/coding.cpp:347-359 | a name is valid exactly when it is one of the thirteen listed |
| Coding.SupportedEncodings | other/coding.cpp:361-367 | thirteen names, pairwise different |
| Coding.SupportedIsValidList | other/coding.cpp:347-367 | getSupportedEncodings returns the list isValidEncoding checks, the same thirteen names in the same order |
| Coding.ValidIffSupported | other/coding.cpp:347-367 | the two lists are equal, in order, and a name is valid exactly when getSupportedEncodings lists it |
| Coding.ValidEncodingCaseSensitive | other/coding.cpp:355-358 | "UTF-8" and "Windows-1252" are valid, "utf-8" and "WINDOWS-1252" are not |
| Coding.InitialsUppercase | other/coding.cpp:349-353 | every listed name starts with an uppercase letter |
| Coding.OnlyTwelveCharName | other/coding.cpp:349-353 | "Windows-1252" is the only listed name of twelve characters |
| Coding.ToUpper | other/coding.cpp:485 | no lowercase letter comes out, and a character changes exactly when it is a lowercase letter |
| Coding.ToUpperAlphabet | other/coding.cpp:485 | each lowercase letter becomes the capital at the same place in the alphabet |
| Coding.UppercaseInPlace | other/coding.cpp:485 | the in-place transform uppercases every character, leaving the array equal to Upper of its old contents |
| Coding.UpperFacts | other/coding.cpp:482-485 | the uppercased copy keeps the length, holds no lowercase letter, and keeps every character that is not a lowercase letter |
| Coding.UpperIdempotent | other/coding.cpp:485 | uppercasing twice is uppercasing once |
| Coding.ConsoleEncodingPosix | other/coding.cpp:470-517 | the answer is empty exactly without a locale or codeset; any other answer is the codeset itself or a valid encoding |
| Coding.CanonicalNamesValid | other/coding.cpp:488-509 | every name an alias group maps to is a supported encoding |
| Coding.CanonicalNameRange | other/coding.cpp:488-509 | the alias groups map into the eleven canonical names |
| Coding.ChineseNamesFixed | other/coding.cpp:488-497 | UTF-8, GB2312, GBK, GB18030 and BIG5 read back as themselves |
| Coding.JapaneseKoreanNamesFixed | other/coding.cpp:498-503 | EUC-JP, SHIFT_JIS and EUC-KR read back as themselves |
| Coding.LatinNamesFixed | other/coding.cpp:504-507 | ISO-8859-1 and ASCII read back as themselves |
| Coding.WindowsLatinNameFixed | other/coding.cpp:508-509 | "Windows-1252" is uppercased to its alias and maps back to itself |
| Coding.ConsoleEncodingPosixIdempotent | other/coding.cpp:485-517 | feeding the answer back in gives the same answer |
| Coding.ConsoleEncodingPosixExamples | other/coding.cpp:488-501 | "utf8" is "UTF-8" and "sjis" is "SHIFT_JIS": aliases match in any case |
| Coding.ConsoleEncodingPosixPassThrough | other/coding.cpp:485-516 | a codeset whose uppercase form is in no alias group comes back as spelled, not uppercased; one in an alias group gives a canonical name |
| Coding.ConsoleEncodingPosixCaseInsensitive | other/coding.cpp:485-509 | two codesets with the same uppercase form in an alias group give the same canonical name |
| Coding.ConsoleEncodingPosixIsoVariants | other/coding.cpp:488-513 | every ISO-8859 part other than 1 comes back as spelled |
| Coding.ConsoleEncodingPosixUnknown | other/coding.cpp:470-517 | "iso-8859-2" comes back as spelled; without a locale the answer is empty |
| Coding.Decimal | other/coding.cpp:465 | the decimal form is non-empty, all digits, without a leading zero |
| Coding.DecimalRoundTrip | other/coding.cpp:465 | the decimal form reads back to the number |
| Coding.CodepageName | other/coding.cpp:377-462 | every name of the codepage switch is non-empty |
| Coding.ConsoleEncodingWindows | other/coding.cpp:371-466 | the answer is empty exactly for codepage 0 |
| Coding.FallbackName | other/coding.cpp:463-465 | a codepage outside the switch is "CP" and its number, which reads back to the codepage |
| Coding.FallbackNamesDistinct | other/coding.cpp:463-465 | two codepages outside the switch never share a name |
| Coding.ConsoleEncodingWindowsExamples | other/coding.cpp:379-460 | 65001 is "UTF-8", 936 is "GBK", 28605 is "ISO-8859-15" |
| Coding.ConsoleEncodingWindowsFallbackExample | other/coding.cpp:463-465 | 1200 is "CP1200" |
| CodeBlock.EditedPartCut | tools/tool_core/CodeBlock.cpp:26-28 | a positive start edits a suffix of the text, any other start a prefix, cut at the start, the end or just after a newline |
| CodeBlock.LanguageIdentifierAdd | tools/tool_core/CodeBlock.cpp:11-96 | detection or read failure gives one Error log; no untagged block gives "unchanged" and no save; otherwise the rejoined text is saved and the result follows the save |
| CodeBlock.RejoinedKeepsOtherPart | tools/tool_core/CodeBlock.cpp:72-81 | the part that is not edited comes back byte for byte, in its place |
| CodeBlock.RejoinedUnchanged | tools/tool_core/CodeBlock.cpp:72-95 | with no block to tag the rejoined text is the text read |
| CodeBlock.WholeTextStarts | tools/tool_core/CodeBlock.cpp:26-28 | starts 0, 1, -1 and -2 edit the whole text, as addl_ does |
| CodeBlock.EmptyTagRewrite | tools/tool_core/CodeBlock.cpp:47-56 | adding the empty tag writes every block back as it was |
| CodeBlock.EmptyLanguageSavesSameText | tools/tool_core/CodeBlock.cpp:11-56 | add does not refuse an empty language; the text saved is the text read |

## Left out

- File and file-system I/O is not modelled: `validate_file`, `read_file_content`, `write_file_content`, `detect_file_charset`, the file streams of `readToUtf8` and `saveUtf8ToFile`, `detectFile`, `convertFile` and `convertDirectory`. What a read produced, whether the output file opens and whether the write leaves it good are inputs.
- uchardet and iconv are parameters. Their tables and statistics are foreign code, so no real charset round trip is stated. An iconv call is modelled as stateless.
- RE2 itself is not modelled: a hand-written scanner stands in for the pattern, byte by byte. Invalid UTF-8, which RE2 reads differently, is not modelled.
- The `try`/`catch` blocks of the four tools and their log lines are not modelled, since nothing in the modelled text logic throws. The logs of `LanguageIdentifier::add` are modelled.
- Shared.ConvertChunks: requires that an E2BIG stop consumes some input. The C++ loop never ends when iconv reports E2BIG without consuming, and the model does not describe a loop that does not end.
- CodeBlock.LanguageIdentifierAdd: requires the same progress of the read conversion, for the same reason.
- Integer widths are not modelled: `size_t` and `int` are unbounded. `-line` for the smallest `int` and a table too large for `int` are left out. The `match_start` subtraction is proved never to underflow.
- The `UchardetDetector` and `IconvConverter` destructors and move operations only manage handles and are left out. The converter is a value.
- getConsoleEncoding: the platform choice is made at compile time, so the Windows and POSIX branches are two functions. `GetConsoleOutputCP`, `setlocale` and `nl_langinfo` are inputs. The POSIX branch's separate ISO-8859 case returns the same thing as its default and is folded into it.
- The `readToUtf8(filename)` overload only detects the charset and calls the modelled function, and is not modelled. The null-filename checks of `readToUtf8` and `saveUtf8ToFile` are folded into the read or write input.
- `tools/tools.cpp` (path discovery, timing, the y/N prompt), `cli.cpp`, `main.cpp`, `other/path.cpp` and the logging headers are not part of this model.
