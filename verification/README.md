# A verified model of the llama.cpp common library's core algorithms

The project models the parts of llama.cpp's `common/` library, and of its LoRA converter, in which a
small mistake loses data silently, and proves what those parts are relied on for. All proofs are for
every input, every run of the state machine, or every reachable state.

1. **Partial JSON** (`Json`, `JsonGrammar`, `JsonDerivation`, `JsonPartial`, `JsonHealing`,
   `JsonHealingTheorem`, `JsonFollowing`). A model's output is JSON that stops in the middle. The parser
   locates the error, looks at the stack of open containers, picks one of about eighteen repairs and parses
   the result. The JSON library is replaced by a pushdown recogniser, proved to accept the texts that the
   grammar of RFC 8259 derives, with surrogates in pairs. The main result says exactly for which truncated
   texts the ladder of repairs produces a valid document.
2. **Streaming of tool calls** (`Chat`, `JsonStrings`, `QuoteNormalization`, `PegValues`, `PegMapper`,
   `PegCalls`, `JsonBraces`, `PegStreaming`, `PegComplete`). A mapper turns the nodes of a parse tree into a
   message whose argument strings are JSON under construction. `compute_diffs` turns successive messages
   into deltas, and a client concatenates them. The results run through all three files: truncations of one
   parse grow, so no delta throws, so the client ends with exactly the calls of the parse.
3. **The log ring** (`LogRing`, `LogProtocol`). Producers, a worker and a controller around a growable ring,
   as a state machine whose steps are the locked regions.
4. **Segments and diff split** (`Segments`, `DiffSplit`).
5. **The line editor** (`Utf8`, `RawLines`, `LineEditor`). Bytes, widths and two cursors against a buffer of
   code points, and what is left of it on lines that are not UTF-8.
6. **Codecs and factored tensors** (`Base64`, `Escapes`, `CpuMask`, `Lora`, `LoraOps`, `LoraIndex`,
   `LoraFirstAxis`).

`Basics` holds what several of these share.

Where a promise does not hold of the code, the code is kept, an input that breaks it is given, and the
exact condition under which it holds is proved:

- Healing fails exactly on texts that stop inside a unicode escape which follows the text of a fake high
  surrogate written behind an escaped backslash, unless cutting back happens to land in front of a value
  (`JsonHealingTheorem.HealingExact`; a failing family is `JsonHealingTheorem.MisreadTextThrows`).
- `pause` returns exactly when two slots of the ring are free, since it pushes its end entry without the
  growth check of `add` (`LogProtocol.PauseReturnsExactly`; a run for every capacity of at least two on which
  it never returns is `LogProtocol.CrowdedPauseExists`).
- A diff split puts the two texts together again exactly when the code behind the loop does not use a
  segment a second time (`DiffSplit.CalculateDiffSplit`; a failing input is `DiffSplit.ReuseExample`).
- Inserting a character keeps the editor consistent exactly for values up to 0x10FFFF
  (`LineEditor.Editor.InsertChar`).
- A document that is followed by other text is parsed up to where it ends exactly when that text does not begin
  with a string, a literal or a number of several characters (`JsonFollowing.DocumentInFront`).
- A line that completion or the history delivers leaves fields that fit some text exactly when its characters are
  written as they are read (`LineEditor.Editor.SetLineContents`); the cursor steps over the characters that were
  read exactly when there are as many as bytes that are no continuations, not counting a stray one at the start
  (`RawLines.StepsAgreeExactly`).
- Deltas rebuild the next message exactly when it extends the previous one (`Chat.DiffsRebuildExactly`; a
  message that shrinks is `Chat.ShrinkExample`).
- An argument value without a declared type that is cut while it is read is continued by the whole value exactly
  when both are containers that are cut in front of no escaped single quote, or both are written bare, or both are
  strings of which one begins the other (`PegValues.UntypedCutExactly`, `PegStreaming.ValuesGrowExactly`). A
  literal is not continued from any cut inside it (`PegStreaming.LiteralCutBreaks`). The name of an argument is
  continued only from a cut that leaves nothing but blanks (`PegStreaming.ArgNameCutExactly`).
- A tuple of indices on a factor pair is right exactly when its last two components are slices and every
  leading slice meets an A that is shared on its axis or selects everything (`LoraIndex.IndexExactly`; a
  failing input is `LoraIndex.LeadingSliceExample`). An ellipsis before other components picks what
  is meant exactly when those are half as many as the axes, or fewer and it makes no difference that the ones
  behind the ellipsis meet axes that are too early (`LoraIndex.DotsExactly`; a failing input is
  `LoraIndex.DotsExample`).
- A reshape keeps the number of entries, unless a factor has none: at rank 0 any number of rows is accepted
  (`LoraOps.ReshapeRefusals`, `LoraOps.EmptyRefusals`).
- One slice of a stack of matrices is right exactly when A is not shared, or the slice keeps an axis of size 1,
  or it selects nothing (`LoraFirstAxis.SliceExactly`, `LoraFirstAxis.SliceExample`).
- Concatenating stacks of matrices is right when no A is shared, or there is one slab of A in all, and only then
  unless some stack has a slab of A and none of B (`LoraFirstAxis.CatExactly`, `LoraFirstAxis.CatExample`); with
  such a stack the sizes may fit although the result is wrong (`LoraFirstAxis.IdleExample`).

`dafny verify dfyconfig.toml` checks the whole project.

Conventions. Characters of JSON text, chat messages and templates are `char`; bytes are numbers below 256.
Bit operations are written as arithmetic; `Utf8.MasksAreRanges`, `Utf8.EncodingShifts`,
`Utf8.DecodingShifts`, `Base64.EncodingShifts`, `Base64.ShiftsAreArithmetic` and `CpuMask.MasksAreDivisions`
state, on bit vectors, that the forms used in the source and those used here agree. Exceptions are values
(`Threw`, `Error`, `Raised`, `Err`). What a terminal shows is reduced to the displacement of its cursor, and
randomness (generated ids, the healing marker) and character properties (width, white space) are parameters.

## Model

| member | source | states |
|---|---|---|
| `Json.PrefixIsLive` | common/json-partial.cpp:114-139 | every prefix of an accepted text leaves the recogniser alive, so a truncated text fails at its end |
| `Json.RunKeepsValid` | common/json-partial.cpp:40-113 | the stack is well formed (keys directly above their object, mode fitting the top) after any text |
| `JsonDerivation.AcceptsExactly` | common/json-partial.cpp:114-139 | the recogniser accepts exactly the texts that have a derivation in the grammar of RFC 8259, with surrogates in pairs |
| `JsonPartial.EventsFollowStack` | common/json-partial.cpp:56-112 | for any character the SAX callbacks leave the handler's stack equal to the recogniser's, and no handler assertion fails |
| `JsonPartial.ErrorLocator.Receive` | common/json-partial.cpp:56-112 | one callback changes the stack as specified and nothing else |
| `JsonPartial.SaxParse` | common/json-partial.cpp:40-122 | an error is found exactly on texts that are not accepted, where the library reports it (in the middle of a bad token, at the last character of a token that cannot stand there, or at the end), with the stack open there |
| `JsonPartial.CommonJsonParse` | common/json-partial.cpp:23-324 | the whole call, with every branch and both kinds of failure, computes the specified outcome, of which the next rows and those of `JsonHealingTheorem` say what it is |
| `JsonFollowing.ErrorIsLikeTheEnd` | common/json-partial.cpp:114-139 | a text that goes wrong where the error is reported is treated as if it ended there, whatever follows |
| `JsonFollowing.DocumentInFront` | common/json-partial.cpp:114-139 | a document followed by text that cannot go on is parsed, and ends where it ends, if and only if that text does not begin with a string, a literal or a number of several characters; otherwise the call returns false; no longer part of the input is a document |
| `JsonFollowing.ContainerInFront` | common/json-partial.cpp:114-139 | in particular after an object or array and text that begins no token, for every marker |
| `JsonFollowing.NoMarkerNeverHeals` | common/json-partial.cpp:114-139 | with an empty marker the call never throws, parses only what it was given, and fails on no document |
| `JsonPartial.HealOpenContainer` | common/json-partial.cpp:141-299 | the branch for open containers, including the throw on blank text |
| `JsonPartial.BuildClosing` | common/json-partial.cpp:160-170 | the loop produces the closers of the open containers, innermost first |
| `JsonHealingTheorem.ParsedIsFaithful` | common/json-partial.cpp:114-323 | whatever the input, a call that succeeds has parsed a valid text: the input up to the reported end, or a text that in front of a dump ending in the marker is a prefix of it |
| `JsonHealing.ClosersAreForced` | common/json-partial.cpp:160-170 | a text that ends after a value is completed by the computed closers and by no other string of closers |
| `JsonHealing.UnicodeTail` | common/json-partial.cpp:172-211 | the escape found by matching text at the end is the escape the recogniser is in |
| `JsonHealing.PaddingWorks` | common/json-partial.cpp:172-211 | the padding completes every open escape, with its low surrogate where one is due, unless the text is misread |
| `JsonHealing.LastNonSpaceIsOpener` | common/json-partial.cpp:141-158 | in a waiting state the last non-blank character is the one that opened it |
| `JsonHealing.CutKey` | common/json-partial.cpp:234-241 | cutting back to the last colon leaves the parser in front of the current value, dropping only an unfinished scalar |
| `JsonHealing.CutArray` | common/json-partial.cpp:259-265 | the same for the last bracket or comma of an array |
| `JsonHealingTheorem.CutBackExact` | common/json-partial.cpp:234-265 | cutting back heals if and only if it lands in front of a value at the same nesting |
| `JsonHealingTheorem.StringRepairHeals` | common/json-partial.cpp:172-283 | inside a string that is not misread, the plain-quote, after-backslash or padding branch heals |
| `JsonHealingTheorem.HealingExact` | common/json-partial.cpp:141-299 | the ladder heals if and only if the text is not misread or the cut lands; when it is not misread, the marker ends the dump and nothing is dropped but a number or literal at the end, finished or not, and blanks |
| `JsonHealingTheorem.LiveTextHeals` | common/json-partial.cpp:23-299 | the same for the whole call, whose only failure is a throw, with the healed text accepted and cut at the dump marker a prefix of the input |
| `JsonHealingTheorem.TruncatedTextHeals` | common/json-partial.cpp:23-299 | the same, stated for every proper prefix of every valid document with a container open |
| `JsonHealingTheorem.MisreadNeedsBackslashPair` | common/json-partial.cpp:172-211 | a misread text has an escaped backslash in the string that is still open, with no quote behind it |
| `JsonHealingTheorem.HealingWithoutBackslashPairs` | common/json-partial.cpp:141-299 | every truncation without an escaped backslash in its open string heals, whatever its closed strings hold |
| `JsonHealingTheorem.TopLevelHealing` | common/json-partial.cpp:300-318 | with no container open, exactly the texts inside a plain string or behind one backslash heal, and others are reported, not thrown |
| `JsonHealingTheorem.MisreadTextThrows` | common/json-partial.cpp:173-211 | a family of truncated texts, of any length, on which the call throws |
| `JsonHealingTheorem.MisreadTextExists` | common/json-partial.cpp:173-211 | one concrete member of that family, for every marker |
| `JsonHealingTheorem.LiveIffTruncated` | common/json-partial.cpp:23-139 | the texts covered are all prefixes of valid documents and nothing else |
| `Chat.ComputeDiffs` | common/chat.cpp:149-215 | the loop and its early exits produce the specified list of deltas or the specified error |
| `Chat.StringDiffExact` | common/chat.cpp:50-63 | appending the difference gives the new string if and only if the old one is a prefix of it |
| `Chat.DiffsRebuildExactly` | common/chat.cpp:149-215 | applying the deltas to the previous message gives the next one if and only if the next one extends it |
| `Chat.DiffsThrowExactly` | common/chat.cpp:149-215 | an error is thrown if and only if a text or the last arguments clash with the old ones, calls are gone, or a name does not grow |
| `Chat.DeltasAreNeeded` | common/chat.cpp:149-215 | every delta belongs to a text or call that changed, and has no name and no id when neither changed |
| `Chat.ShrinkExample` | common/chat.cpp:55-58 | a message that gets shorter yields an empty delta, and the client keeps the longer text |
| `Chat.DeltasTelescope` | common/chat.cpp:149-215 | over a run of extending messages no delta throws, and all of them together turn the first into the last |
| `Chat.SetToolCallIds` | common/chat.h:131-143 | each call gets the cached id of its position; a position that is new takes the id of its call, and a generated one only where that is empty |
| `Chat.SlotId` | common/chat.h:131-143 | over a run a position has the id that came with its first call, or the one generated for it when that call had none |
| `Chat.IdsAreStable` | common/chat.h:131-143 | ids given earlier in a run are a prefix of those given later |
| `Chat.AssignedAt` | common/chat.h:131-143 | each message of a run has the final ids at its positions |
| `Chat.StreamingRebuilds` | common/chat.cpp:149-215 | messages growing before ids are assigned are rebuilt by the client from the empty message, and no call index gets two ids |
| `Chat.NewCallsApply` | tests/test-chat.cpp:893-917 | the deltas of new calls append exactly those calls at the client |
| `JsonStrings.EscapeMonotone` | common/chat-peg-parser.cpp:70-76 | the escaped form of a prefix is a prefix of the escaped form |
| `JsonStrings.EscapeExact` | common/chat-peg-parser.cpp:70-76 | the escaped form of one text begins that of another if and only if the text does |
| `JsonStrings.EscapeRuns` | common/chat-peg-parser.cpp:70-76 | escaped text never leaves the inside of a JSON string |
| `JsonStrings.DumpRuns` | common/chat-peg-parser.cpp:70-76 | a dumped string is one complete JSON value or key |
| `JsonStrings.EscapeRoundTrip` | common/chat-peg-parser.cpp:70-76 | reading the escaped text as JSON gives the text back |
| `JsonStrings.EscapeIsShortest` | common/chat-peg-parser.cpp:70-76 | no JSON string writes a character more shortly, and digits are in lower case |
| `JsonStrings.DumpIsPrefixFree` | common/chat-peg-parser.cpp:307-320 | no dumped name is the beginning of another |
| `PegMapper.JsonBraceDepth` | common/chat-peg-parser.cpp:41-67 | the loop computes the string-aware depth |
| `JsonBraces.DepthIsOpenObjects` | common/chat-peg-parser.cpp:41-67 | in whatever begins a JSON text the depth is the number of objects that are open |
| `JsonBraces.DocumentsAreBalanced` | common/chat-peg-parser.cpp:41-67 | a whole JSON text has depth zero |
| `PegMapper.CloseBraces` | common/chat-peg-parser.cpp:395-398 | as many closing braces are appended as the depth asks for |
| `PegMapper.WriteValue` | common/chat-peg-parser.cpp:337-375 | a value without a declared type is written as it stands, as an open string, or as the continuation of one |
| `PegValues.DumpedValue` | common/chat-peg-parser.cpp:345-358 | a value that is a dumped text is written as that text would be |
| `PegValues.UntypedCutExactly` | common/chat-peg-parser.cpp:322-375 | what is written of an untyped value that is cut begins what is written of the whole if and only if both are containers and no cut escape is undone, both are bare, or both are strings and one begins the other |
| `PegValues.SameString` | common/chat-peg-parser.cpp:346-354 | two JSON strings of which one begins the other stand for the same text |
| `PegMapper.Mapper.Map` | common/chat-peg-parser.cpp:234-407 | one node changes the mapper's fields as specified |
| `PegMapper.BuildMessage` | common/chat-peg-parser.cpp:217-232 | walking all nodes and flushing gives the specified message |
| `PegCalls.TextsOfMessage` | common/chat-peg-parser.cpp:234-247 | for any nodes, the content is the content nodes in order and the reasoning the reasoning nodes |
| `PegCalls.CallsOfMessage` | common/chat-peg-parser.cpp:217-407 | for any nodes, the calls are the parts of the parse that are named before they are closed, in order, each with its last name and last id, and with the last JSON object when its arguments are given as one |
| `PegCalls.ObjectIsKept` | common/chat-peg-parser.cpp:294-301 | arguments given as a whole JSON document are that document, without the blanks behind it |
| `PegCalls.FirstValue` | common/chat-peg-parser.cpp:303-337 | a value behind an arg-open starts a string of its own, whatever was left open |
| `PegCalls.NextValue` | common/chat-peg-parser.cpp:322-337 | a value that follows another goes on with its string |
| `PegCalls.ClosedCallIsJson` | common/chat-peg-parser.cpp:384-406 | closing a call makes its arguments a JSON text, also when a value was left open, if only objects are open |
| `PegCalls.TrimmedExactly` | common/chat-peg-parser.cpp:11-21 | trimming takes off all blanks at the end and nothing else |
| `PegCalls.ContentExactly` | common/chat-peg-parser.cpp:322-324 | from a value at most one blank is taken off at either end |
| `PegCalls.UnquoteExactly` | common/chat-peg-parser.cpp:269-275 | an id loses the quotes around it and nothing else |
| `PegStreaming.FlushAddsNothing` | common/chat-peg-parser.cpp:217-232 | the flush at the end never changes the message, since a pending call has no name yet |
| `PegStreaming.StepGrows` | common/chat-peg-parser.cpp:234-407 | an orderly node only appends to the message |
| `PegStreaming.RunGrows` | common/chat-peg-parser.cpp:234-407 | so does any run of orderly nodes |
| `PegStreaming.TruncationsGrow` | common/chat-peg-parser.cpp:234-407 | for any two truncation points of one parse, whole nodes or inside any node where its kind allows a cut, the earlier message is extended by the later one |
| `PegStreaming.StreamedParse` | common/chat-peg-parser.cpp:217-407 | hence streaming any increasing sequence of truncations never throws and rebuilds the last message |
| `PegStreaming.FirstArgsCutAnywhere` | common/chat-peg-parser.cpp:294-301 | JSON arguments that start a call may be cut anywhere |
| `PegStreaming.ArgNameCutExactly` | common/chat-peg-parser.cpp:307-320 | the message with the name of a visible argument cut is extended by the one with the whole name if and only if nothing but blanks is cut off |
| `PegStreaming.ValuesGrowExactly` | common/chat-peg-parser.cpp:322-375 | the message with a visible untyped value cut is extended by a later one if and only if the value is continued |
| `PegStreaming.LiteralCutBreaks` | common/chat-peg-parser.cpp:345-370 | for `true`, `false` and `null` that is so at no cut inside the word |
| `PegComplete.CompleteCall` | common/chat-peg-parser.cpp:213-407 | a complete call yields exactly its name and its JSON object, wherever the name node falls among the argument nodes |
| `PegComplete.NameCommutes` | common/chat-peg-parser.cpp:277-382 | an argument node and the name node can be exchanged |
| `PegComplete.NameSlides` | common/chat-peg-parser.cpp:277-382 | the name node can be moved to the front past any number of argument nodes |
| `PegComplete.DepthOfObject` | common/chat-peg-parser.cpp:41-67 | the open argument text has depth one and the closed one depth zero, whatever braces and quotes the values hold |
| `PegComplete.ArgumentsAreJson` | common/chat-peg-parser.cpp:234-407 | the arguments built are a valid JSON text |
| `PegComplete.CompleteCalls` | common/chat-peg-parser.cpp:217-407 | a parse of any number of complete calls gives exactly those calls |
| `PegComplete.CallsAreOrderly` | common/chat-peg-parser.cpp:234-407 | such a parse meets the hypothesis of the streaming results |
| `PegComplete.StreamedCalls` | common/chat-peg-parser.cpp:217-407 | streaming it at any increasing truncation points leaves the client with exactly the calls |
| `QuoteNormalization.NormalizeQuotes` | common/chat-peg-parser.cpp:83-160 | the loop computes the piecewise normal form |
| `QuoteNormalization.NormalizeOne` | common/chat-peg-parser.cpp:90-157 | one turn of the loop writes the piece at its position and moves behind it |
| `QuoteNormalization.NormalizingKeepsMeaning` | common/chat-peg-parser.cpp:83-160 | the result read as JSON has the tokens of the input read with mixed quotes |
| `QuoteNormalization.NormalizingIsIdempotent` | common/chat-peg-parser.cpp:83-160 | normalising twice is normalising once |
| `QuoteNormalization.UnchangedExactly` | common/chat-peg-parser.cpp:83-160 | a text is unchanged if and only if no string in it is single-quoted |
| `QuoteNormalization.NormalizedCutExactly` | common/chat-peg-parser.cpp:83-160 | the normal form of a text that is cut begins that of the whole if and only if the cut does not part a backslash from a single quote in a single-quoted string |
| `LogRing.PushKeepsExactly` | common/log.cpp:223-224 | a push appends to the live slice if and only if it does not make head and tail meet |
| `LogRing.AddedKeeps` | common/log.cpp:223-247 | push with growth always appends exactly one entry and keeps all others in order |
| `LogRing.TakenDropsOldest` | common/log.cpp:261-268 | taking removes exactly the oldest entry |
| `LogRing.CommonLog.Add` | common/log.cpp:172-248 | an accepted message is appended to the live slice, and a refused one changes nothing |
| `LogRing.CommonLog.Expand` | common/log.cpp:224-245 | the do-while copy doubles the ring and keeps the order of the entries |
| `LogRing.CommonLog.Take` | common/log.cpp:261-268 | the worker's locked region removes and returns the oldest entry |
| `LogRing.CommonLog.BeginPause` | common/log.cpp:284-302 | the locked region of pause pushes the end entry without growing |
| `LogProtocol.StepKeeps` | common/log.cpp:172-321 | every step that finds room keeps the invariant |
| `LogProtocol.RunConserves` | common/log.cpp:172-321 | over every interleaving, accepted = printed ++ in hand ++ waiting, in order, once, each with the file it was accepted under |
| `LogProtocol.RunFollowsActions` | common/log.cpp:172-321 | after any run the log runs unless a pause came after the last resume, the file is that of the last set_file whose pause has returned, and exactly the messages added while it ran are accepted, each for the file of that moment |
| `LogProtocol.PauseHasDrained` | common/log.cpp:283-305 | when pause returns the ring is empty, the worker has exited and everything accepted is printed |
| `LogProtocol.PrintedForItsFile` | common/log.cpp:307-321 | what is printed is, in order and once, what was added while the log ran, each message to the file that was open then |
| `LogProtocol.NoStaleEnd` | common/log.cpp:250-281 | no end entry survives into the next resume |
| `LogProtocol.PauseMakesProgress` | common/log.cpp:250-305 | while a pause waits, the worker has a step, and each of its steps lowers a measure |
| `LogProtocol.PauseReturns` | common/log.cpp:283-305 | hence a schedule lets it return |
| `LogProtocol.PauseReturnsExactly` | common/log.cpp:283-305 | a pause can return if and only if two slots were free |
| `LogProtocol.StuckForEver` | common/log.cpp:283-305 | a ring made empty by a crowded pause stays so on every continuation |
| `LogProtocol.CrowdedPauseLosesMessages` | common/log.cpp:283-305 | and the messages that were waiting are never printed |
| `LogProtocol.CrowdedPauseExists` | common/log.cpp:223-305 | for every capacity of at least two a run that always has room reaches a state in which a pause never returns and a message is never printed |
| `Segments.SegmentizeMarkers` | common/chat-auto-parser-helpers.cpp:252-282 | the scan computes the specified segments |
| `Segments.BracketsAreMarkers` | common/chat-auto-parser-helpers.cpp:252-282 | text between angle or square brackets is one marker |
| `Segments.PlainText` | common/chat-auto-parser-helpers.cpp:252-282 | text that opens no bracket is one segment |
| `Segments.JoinSegmented` | common/chat-auto-parser-helpers.cpp:252-282 | concatenating the segments of any text gives the text |
| `Segments.SegmentRoundTripExactly` | common/chat-auto-parser-helpers.cpp:252-282 | segmenting the concatenation of a list gives the list back if and only if the list is canonical |
| `DiffSplit.CommonPrefixLen` | common/chat-auto-parser-helpers.cpp:67-74 | the longest common prefix |
| `DiffSplit.CommonSuffixLen` | common/chat-auto-parser-helpers.cpp:76-83 | the longest common suffix |
| `DiffSplit.Narrow` | common/chat-auto-parser-helpers.cpp:100-137 | the loop moves the four positions as specified and collects exactly the segments they passed |
| `DiffSplit.CalculateDiffSplit` | common/chat-auto-parser-helpers.cpp:85-190 | both texts can be put together from the split if and only if no segment is used twice; a text against itself is all prefix; where both sides differ the split is aligned to the segments and nothing common is left at the ends; without markers the lengths taken off are those of the longest common suffix and of the longest common prefix in front of it |
| `DiffSplit.CutRemainders` | common/chat-auto-parser-helpers.cpp:167-189 | of remainders that begin or end with text the longest common suffix and then prefix is cut off, and no more |
| `DiffSplit.SplitAligned` | common/chat-auto-parser-helpers.cpp:100-190 | the common segments at both ends are the longest, and text is cut only between text |
| `DiffSplit.SplitExact` | common/chat-auto-parser-helpers.cpp:139-190 | the same for the code behind the loop |
| `DiffSplit.SelfSplit` | common/chat-auto-parser-helpers.cpp:85-190 | a text split against itself gives the text as prefix and nothing else |
| `DiffSplit.DistinctNeverReuses` | common/chat-auto-parser-helpers.cpp:85-190 | with distinct segments on each side no segment is used twice |
| `DiffSplit.ReuseExample` | common/chat-auto-parser-helpers.cpp:139-163 | two texts on which a segment is used twice |
| `Utf8.DecodeEncode` | common/console.cpp:365-429 | decoding an appended character anywhere gives the character and its length |
| `Utf8.DecodeShapes` | common/console.cpp:365-409 | bytes that have the form of a character are read as a whole, and a byte with which none begins as one bad character |
| `Utf8.EncodedBits` | common/console.cpp:411-429 | a character is written with its bits in order, six to a byte behind the first, in as few bytes as they need (section 3 of RFC 3629) |
| `Utf8.CharDecodes` | common/console.cpp:365-409 | decoding at the start of the i-th character of a line gives that character |
| `Utf8.LeadsCount` | common/console.cpp:411-429 | a line has as many non-continuation bytes as characters |
| `Utf8.NextCharPos` | common/console.cpp:441-448 | from the start of a character to the start of the next |
| `Utf8.PrevCharPos` | common/console.cpp:432-439 | from the start of a character to the start of the one before |
| `Utf8.MasksAreRanges` | common/console.cpp:365-409 | the mask tests of the source are the range tests of the model, for all bytes |
| `Utf8.EncodingShifts` | common/console.cpp:411-429 | the shifts and masks that write a character are the arithmetic of the model |
| `Utf8.DecodingShifts` | common/console.cpp:365-409 | the shifts and masks that read one are too |
| `RawLines.ReEncodesExactly` | common/console.cpp:365-429 | the characters read in a line are written as the line has them if and only if it encodes a text |
| `RawLines.StepsAgreeExactly` | common/console.cpp:365-448 | on any bytes, stepping stops where the characters that are read end if and only if there are as many of them as bytes that are no continuations, not counting a stray one at the start |
| `LineEditor.Editor.InsertChar` | common/console.cpp:958-996 | up to 0x10FFFF the buffer is the one with the character inserted; beyond, and only then, no text fits the fields any more |
| `LineEditor.Editor.DeleteAtCursor` | common/console.cpp:456-482 | the character under the cursor is removed and the terminal cursor stays |
| `LineEditor.Editor.BackspaceKey` | common/console.cpp:929-957 | the character before the cursor is removed |
| `LineEditor.Editor.MoveWordLeft` | common/console.cpp:581-617 | the cursor goes where the buffer's word motion goes, with bytes and columns in step |
| `LineEditor.Editor.MoveWordRight` | common/console.cpp:619-664 | the same to the right |
| `LineEditor.Editor.MoveToLineStart` | common/console.cpp:529-537 | to the first character |
| `LineEditor.Editor.MoveToLineEnd` | common/console.cpp:539-547 | to behind the last character |
| `LineEditor.PutLine` | common/console.cpp:507-523 | the loop gives the widths of the characters read, the cursor, and how far to go back |
| `LineEditor.Editor.SetLineContents` | common/console.cpp:497-527 | any bytes replace everything, measured character by character, with the cursor at the end or at the byte asked for; a line that encodes a text loads that text, and no text fits the fields if and only if the characters read are not written as the line has them |
| `LineEditor.LoadedCursorIsNearest` | common/console.cpp:509-526 | the cursor of a loaded line is at the last character border that is not behind the byte asked for |
| `LineEditor.Editor.PressAll` | common/console.cpp:456-1002 | after any sequence of keys the editor is the code-point buffer after the same keys: bytes, widths, both cursors and the column |
| `LineEditor.KeysMean` | common/console.cpp:829-996 | what each key does to the text in front of the cursor and behind it, and to the cursor |
| `LineEditor.KeysUndo` | common/console.cpp:829-957 | Left and Right undo each other, and delete and backspace mirror each other through them |
| `LineEditor.StaysMeasured` | common/console.cpp:450-996 | after any keys every width is that of its character, 0 where the terminal reports a negative one |
| `LineEditor.BackspaceUndoesInsert` | common/console.cpp:929-996 | backspace after an insert restores the buffer |
| `LineEditor.WordLeftIsNearest` | common/console.cpp:581-617 | word-left goes to the nearest start of a word before the cursor |
| `LineEditor.WordRightIsNextStart` | common/console.cpp:619-664 | word-right goes to the nearest start of a word behind the word at or after the cursor, or to the end; from a blank it passes the start of that one word and no other |
| `Base64.Encode` | common/base64.hpp:80-144 | the loop and its last partial group compute the specified text |
| `Base64.EncodedLength` | common/base64.hpp:329-341 | the length of the text is exactly the required size |
| `Base64.EncodedSymbols` | common/base64.hpp:80-144 | symbol by symbol the text is six bits of the input in the alphabet of RFC 4648, section 4 or 5, and padding where there are no bits |
| `Base64.RoundTrip` | common/base64.hpp:80-244 | decoding with the same or the detected alphabet, moderate or loose, gives every byte sequence back (sections 4 and 5 of RFC 4648) |
| `Base64.DecodesExactly` | common/base64.hpp:200-244 | a text is decoded if and only if the symbols in front of the first padding belong to one alphabet and, unless loose, only padding follows |
| `Base64.WrittenSoFar` | common/base64.hpp:200-244 | after k symbols floor(6k/8) bytes are written, never past an unread one, within the maximal size |
| `Base64.ReadSymbols` | common/base64.hpp:200-229 | the loop, writing into the array it reads, stays in step with decoding out of place |
| `Base64.DecodeInPlace` | common/base64.hpp:294-313 | in-place decoding accepts the same inputs and leaves the same bytes as decoding out of place |
| `Base64.ShiftsAreArithmetic` | common/base64.hpp:216-228 | the three shift forms of the decoder are the arithmetic of the model, for all sextets |
| `Base64.EncodingShifts` | common/base64.hpp:95-139 | the shifts of the encoder are the arithmetic of the model, for all bytes |
| `Escapes.ProcessEscapes` | common/common.cpp:576-611 | for every buffer the in-place loop leaves the left-to-right unescaping of the original |
| `Escapes.ReplaceOne` | common/common.cpp:580-607 | one turn writes the piece that was at the read index and disturbs nothing unread, also when two characters are written |
| `Escapes.DoubledRoundTrip` | common/common.cpp:576-611 | a text with every backslash doubled is restored |
| `Escapes.EscapesAreRead` | common/common.cpp:576-611 | a text of which each part is written as it is, with any escape of one letter, as a number behind a backslash and x, or as an escape that is none, is restored |
| `CpuMask.ParseCpuMask` | common/common.cpp:325-359 | on success bit k is set exactly when it was before or is set in the number; on failure exactly the digits before the first bad one have been added |
| `CpuMask.BitOfNumber` | common/common.cpp:337-356 | bit k of a hexadecimal number is bit k mod 4 of its digit k div 4 from the right |
| `CpuMask.DigitsAre` | common/common.cpp:326-335 | an 0x prefix makes no difference and the first 128 digits count |
| `CpuMask.SameNumber` | common/common.cpp:337-350 | the case of the digits makes no difference |
| `CpuMask.DigitValues` | common/common.cpp:337-350 | the sixteen digits, in either case, stand for 0 to 15 |
| `CpuMask.MasksAreDivisions` | common/common.cpp:352-355 | the mask tests of a digit are the divisions of the model |
| `LoraOps.PermuteMeansPermute` | convert_lora_to_gguf.py:163-174 | every permutation that is not refused, with dimensions counted from either end, permutes the product |
| `LoraOps.TransposeMeansTranspose` | convert_lora_to_gguf.py:176-180 | every transposition that is not refused, with dimensions counted from either end, exchanges two axes of the product |
| `LoraOps.ReshapeMeansReshape` | convert_lora_to_gguf.py:131-155 | every reshape that is not refused, with or without -1, reshapes the product, also with empty factors, to a shape that agrees with the given one and, when both factors have entries, keeps their number |
| `LoraOps.ReshapeRefusals` | convert_lora_to_gguf.py:131-155 | when both factors have entries, a shape is accepted if and only if all leading sizes of A are 1 and it has at least two sizes, none below -1, that keep the number of entries and the rows, with the value for -1 inferred, and at most 1 when -1 stands more than once |
| `LoraOps.EmptyRefusals` | convert_lora_to_gguf.py:131-155 | otherwise it is accepted if and only if its sizes can be inferred, are at least two, and keep the size of rows and, unless the rank is 0, their number |
| `Lora.PickCommutes` | convert_lora_to_gguf.py:78-113 | a tuple of numbers and slices picks from the product what it picks from the pair |
| `LoraIndex.IndexExactly` | convert_lora_to_gguf.py:99-113 | with one usable component for each axis (a number or a slice, counted from either end, with any step) the result is right if and only if the last two are slices and each leading slice meets a shared A or selects everything |
| `LoraIndex.SelectedExactly` | convert_lora_to_gguf.py:73-113 | a slice selects, in ascending order, the positions not before its start and before its stop, counted from either end, that lie a multiple of the step behind the first |
| `LoraIndex.NumberPicks` | convert_lora_to_gguf.py:99-107 | a number picks the position that far from the start, or from the end when negative |
| `LoraIndex.RefusedExactly` | convert_lora_to_gguf.py:99-113 | one of the two factors refuses its part of a tuple if and only if some component is unusable for its axis of the product |
| `LoraIndex.LeadingSliceExample` | convert_lora_to_gguf.py:99-107 | a pair and a leading slice for which the result is not right |
| `LoraIndex.DotsExactly` | convert_lora_to_gguf.py:82-97 | an ellipsis before other components picks what is meant if and only if the others are half as many as the axes, or fewer and those behind the ellipsis pick the same from the earlier axes they meet |
| `LoraIndex.FullSlicesShift` | convert_lora_to_gguf.py:82-97 | with axes enough between, that is so if and only if those components select everything on both |
| `LoraIndex.DotsTuple` | convert_lora_to_gguf.py:82-113 | in those cases the tuple does what its components mean |
| `LoraIndex.DotsExample` | convert_lora_to_gguf.py:82-113 | a pair of three axes for which an ellipsis and one slice give a wrong result |
| `LoraIndex.PlainTuple` | convert_lora_to_gguf.py:79-97 | without an ellipsis, or with one at the end, missing components are full slices |
| `LoraIndex.FullSelectsAll` | convert_lora_to_gguf.py:96-97 | a full slice selects every position of its axis |
| `LoraIndex.LongTupleIsRefused` | convert_lora_to_gguf.py:96-113 | more components than axes are refused by the factors |
| `LoraFirstAxis.ItemMeansItem` | convert_lora_to_gguf.py:68-72 | a number that both factors have, counted from either end, picks that slab of the product, and any other is refused |
| `LoraFirstAxis.SliceExactly` | convert_lora_to_gguf.py:73-75 | one slice, with any bounds and any positive step (others are refused), of a stack of matrices is right if and only if A is not shared, or the slice keeps an axis of size 1, or it selects nothing |
| `LoraFirstAxis.SliceExample` | convert_lora_to_gguf.py:73-75 | a pair and a slice for which the factors no longer fit |
| `LoraFirstAxis.MatrixSlice` | convert_lora_to_gguf.py:76-77 | one slice of a matrix is right for every positive step and refused otherwise |
| `LoraFirstAxis.StackCommutes` | convert_lora_to_gguf.py:199-206 | stacking the factors stacks the products |
| `LoraFirstAxis.CatExactly` | convert_lora_to_gguf.py:207-215 | concatenating the factors of any number of stacks concatenates the products when no A is shared or there is one slab of A in all, and only then unless a stack has a slab of A and none of B |
| `LoraFirstAxis.CatExample` | convert_lora_to_gguf.py:211-215 | two stacks for which the factors no longer fit |
| `LoraFirstAxis.IdleExample` | convert_lora_to_gguf.py:211-215 | two stacks, one with a slab of A and none of B, for which the sizes fit and the product is wrong |
| `LoraFirstAxis.CatRowsCommutes` | convert_lora_to_gguf.py:216-220 | matrices with one A are concatenated by their B |

## Left out

- JsonPartial.SaxParse: number overflow, the validation of UTF-8, a byte order mark, and a null character outside strings, which the JSON library takes for the end of the input; characters are code points.
- JsonPartial.CommonJsonParse: the same, and the values that are parsed, of which only the text is kept.
- JsonHealingTheorem.HealingExact: the marker is not empty and has no quote, backslash or control character; other markers can be closed or escaped by the marker itself.
- PegStreaming.TruncationsGrow: the parse is orderly (a call is named once and not with blanks, an argument has one value, and a node of complete JSON arguments continues what is already collected), which `PegComplete.CallsAreOrderly` proves for complete calls; and a node is cut where its kind allows it, of which `PegStreaming.ArgNameCutExactly` and `PegStreaming.ValuesGrowExactly` state the exact condition for two cuts. For untyped values that are not containers all cuts are JSON or none, since two other cuts may be continued by the whole and not by each other.
- PegMapper.Mapper.Map: a closing node for a call that never got a name leaves no current call, since the pointer the source keeps there points to a destroyed object; whether an untyped value is JSON is decided by the recogniser, with the limits of `JsonPartial.SaxParse`.
- PegComplete.CompleteCall: arguments are declared strings; untyped values are followed up to the streamed message only.
- The PEG engine, its grammars and the parsers built from chat templates: the nodes of a parse are inputs.
- Chat.ComputeDiffs: role, content parts and tool name of a message, which the deltas do not use.
- LogProtocol.RunConserves: two free slots at every pause, which `LogProtocol.PauseReturnsExactly` shows to be needed; one controller, no real threads, and no levels, prefixes, timestamps or colours of entries.
- LineEditor.Editor.PressAll: the bytes sent to the terminal, the completion callback and the history list, whose lines are parameters, special characters, Windows, and keys pressed on lines that are not UTF-8.
- Base64.RoundTrip: the iterators of the source; texts are sequences and arrays of bytes.
- CpuMask.ParseCpuMask: the error message.
- LoraIndex.IndexExactly: index tensors, and more than one ellipsis in a tuple.
- LoraFirstAxis.CatExactly: the converse for a stack with a slab of A and none of B, for which the entries decide.
- Element types and rounding of tensors: entries are integers.
- Model loading, downloads, argument parsing, sampling, debug output and everything outside the files named above.
