# OTP input: a Dafny model of the cell, masking and focus logic

This project models the pure logic of a segmented one-time-passcode input
(`OtpTextInput` in `index.tsx`): a row of `N` cells of up to `L` characters
each that together edit one string value. It covers:

- chunking the value into cells (`getOTPTextChucks`),
- merging a masked cell's field text with the cell's stored text (`repaceOtp`),
- the focus rule shared by the value effect and `fixFocus`, and the initial focus,
- the state transitions of `onTextChange`, `onKeyPress` and `onInputFocus`,
- the `OTPMaskingChar` constructor and the text each cell's field displays.

The component's state is an immutable record `OtpState(cells, focused)`. Each
handler is a function returning a `Step`: the next state and the value passed to
`handleTextChange`, if any. Whether that callback was supplied is the
`controlled` flag of `Config`. Strings are `seq<char>`, one element per Unicode
scalar value. JavaScript counts and indexes UTF-16 code units instead; the two
agree on text within the Basic Multilingual Plane. Only the masking character's
length check counts code units (`Masking.Utf16Length`); elsewhere the model
treats a character outside that plane as one unit (see Left out).

Files, one module each: `wrappers.dfy` (Option, Result), `chunking.dfy`,
`masking.dfy`, `focus.dfy`, `otp_input.dfy` (the state machine) and
`scenarios.dfy` (concrete runs with four one-character cells).

Behaviour the model takes from the code, where a reader might expect otherwise:

- A backspace in an empty cell after an empty cell moves focus to the array's
  last element (`length - 1`), not to the last non-empty cell. Emptied cells stay
  in the array, so after deleting a whole value focus can stay off cell 0
  (`Scenarios.BackspaceLeavesFocusOffFirstCell`).
- A merging backspace in an uncontrolled component does not re-chunk. It settles
  focus on the array as it is, which may end in an empty cell.
- A controlled edit still writes the reconciled text into the state array in
  place. The edit reports the join clipped to `N*L`. A controlled backspace
  reports the join unclipped.
- The initial focus (`min(len, N-1)`) can be one past the settled focus. The
  value effect runs on mount and replaces it.
- Writing a cell past the end of the array leaves holes. `join('')` and
  `|| ''` read holes as empty, so they are modelled as `""` cells.

## Model

| member | source | states |
|---|---|---|
| Masking.Utf16Length | index.tsx:28 | a string's JavaScript length lies between its character count and twice that; a single character counts 2 when it lies outside the Basic Multilingual Plane and 1 otherwise |
| Masking.Utf16LengthAppend | index.tsx:28 | JavaScript's length of a concatenation is the sum of the parts' lengths, so with the one-character case it is the code-unit count of any string |
| Masking.MakeMaskingChar | index.tsx:25-37 | construction succeeds iff the string's JavaScript length is 1, that is one character of the Basic Multilingual Plane; `value` then gives back that string; otherwise it fails with the source's message |
| Chunking.Split | index.tsx:64-66 | the matches of `.{1,L}` each hold 1..L characters, all but the last exactly L, and joined they give back the text |
| Chunking.MatchAll | index.tsx:65-66 | on any text, including line terminators, every match of `.{1,L}` is non-empty, at most L long and free of line terminators |
| Chunking.SplitIsMatchAll | index.tsx:65-66 | on text without line terminators the pattern's matches are exactly `Split` |
| Chunking.SplitOfShaped | index.tsx:64-66 | splitting the join of any array of that shape gives back the same array, so the split is the unique such partition |
| Chunking.Chunk | index.tsx:59-70 | at most N cells, each non-empty and at most L long, all but the last exactly L; their join is the text cut to N*L characters; empty only for empty text (or N = 0) |
| Chunking.ChunkCharacterization | index.tsx:59-70 | an array equals the chunking of a text iff it has at most N cells, that shape, and joins to the text cut to N*L characters |
| Chunking.ChunkIdempotent | index.tsx:65-69 | re-chunking the join of a chunk array returns the same array |
| Chunking.ChunkJoinWithinCapacity | index.tsx:65-69 | a text of at most N*L characters is kept whole by chunking |
| Masking.MergeLoop | index.tsx:81-86 | the first n iterations of the intended merge loop produce n characters, each the typed one, or the stored one where the mask hides one |
| Masking.MergeLoopAsWritten | index.tsx:81-86 | the loop as written produces at least one character per position, and at least eight more once a masked position has no stored character behind it |
| Masking.ReconcileAsWritten | index.tsx:72-87 | `repaceOtp` as written: the field text verbatim without a mask; with one, never shorter than the field text, and at least eight characters longer (the text "undefined") when a masked position has nothing stored behind it |
| Masking.Reconcile | index.tsx:72-87 | without a mask the field text is returned verbatim; with one the result has the field text's length, and each masked position with a stored character behind it is restored from the stored text while every other position keeps the typed character |
| Masking.ReconcileAgreesWithSource | index.tsx:72-87 | when every masked position has a stored character behind it, the loop as written computes exactly `Reconcile` |
| Masking.TypedMaskCharStoresUndefined | index.tsx:81-84 | as written, typing the mask character into an empty masked cell stores "undefined"; the corrected merge stores the typed character |
| Masking.CellText | index.tsx:238-242 | a cell's field shows as many characters as the cell holds: nothing for an empty cell, only mask characters when masked, the cell's text otherwise |
| Masking.DisplayThenReconcile | index.tsx:238-242 | merging the displayed text of a cell followed by freshly typed non-mask characters gives the cell's real text followed by those characters |
| Focus.FocusIndex | index.tsx:206-214 | for any array of at most N cells the focus rule yields a cell index in [0, N-1] |
| Focus.FocusOfShaped | index.tsx:141-148 | on a chunk-shaped array the focus rule gives min(joined length / L, N-1), the cell that takes the next character |
| Focus.FocusOfChunks | index.tsx:133-148 | after chunking a text, focus goes to min(length / L, N-1) |
| Focus.FocusIsFirstIncompleteCell | index.tsx:206-214 | on a chunk-shaped array every cell before the focused one is full, and the focused cell is incomplete unless it is the last |
| Focus.InitialFocus | index.tsx:115-121 | the initial index is -1 exactly when `autoFocus` is false, and otherwise min(chunk count, N-1) |
| Focus.InitialFocusVersusSettled | index.tsx:115-121 | with auto-focus on, the initial index equals the settled one iff the array is empty, complete or ends in a full cell; otherwise it is one more |
| OtpInput.MakeConfig | index.tsx:107 | an absent or zero cell length becomes 1, a positive one is kept, and count, mask and mode are taken as given; a positive cell count gives a valid configuration |
| OtpInput.Initial | index.tsx:108-121 | the first-render state is a chunk-shaped array of at most N cells joining to the value cut to N*L; no cell is focused exactly when `autoFocus` is false, and otherwise the focus is min(cell count, N-1) |
| OtpInput.SyncValue | index.tsx:133-153 | the value effect leaves a settled, well-formed state whose cells join to the value cut to N*L and whose focus is min(length / L, N-1) |
| OtpInput.SetCell | index.tsx:156 | writing cell i sets it, keeps every other cell, and grows the array to i+1 with empty holes when i is past the end |
| OtpInput.JoinSetCell | index.tsx:156-157 | writing cell i replaces that cell's slice of the joined value, or appends to the value when i is past the end |
| OtpInput.Edit | index.tsx:155-170 | a controlled edit writes the reconciled text into cell i in place, keeping every other cell, reports the resulting join clipped to N*L (so at most N*L long) and leaves focus alone; an uncontrolled edit ends settled on the re-chunked join with focus min(length / L, N-1); well-formedness is kept |
| OtpInput.DropLast | index.tsx:186-189 | the trimmed text followed by the removed last character is the original text |
| OtpInput.KeyPress | index.tsx:178-204 | anything but a backspace in an empty non-first cell changes nothing; with text in the previous cell exactly its last character goes and no other cell changes; otherwise only focus moves, to the last element or 0; well-formedness is kept |
| OtpInput.FocusCell | index.tsx:172-176 | a field gaining focus becomes the focused cell and the cells are unchanged |
| OtpInput.BackspaceRemovesOneCharacter | index.tsx:184-192 | a merging backspace removes exactly one character of the joined value, the one just before cell i's slice |
| OtpInput.TypingAppendsToValue | index.tsx:155-170 | typing one non-mask character into the focused cell of a settled state appends it to the value: reported when controlled, re-derived as by the value effect when not |
| OtpInput.BackspaceDeletesLastCharacter | index.tsx:178-196 | backspace in the empty focused cell of a settled state deletes the value's last character, and an uncontrolled component moves focus back one cell |
| Scenarios.MaskedTypingReconciles | index.tsx:81-86 | with stored "1", mask '*' and field text "*3", the merge gives "13" |
| Scenarios.ChunksOf123 | index.tsx:59-70 | "123" in four one-character cells chunks to ["1","2","3"] |
| Scenarios.BackspaceMergesIntoPreviousCell | index.tsx:184-196 | from value "123", backspace in the empty fourth cell empties the third and focus settles on it |
| Scenarios.BackspaceAfterEmptyCellOnlyMovesFocus | index.tsx:197-202 | with an empty previous cell only focus moves: to 0 for an empty array, to the last element otherwise |
| Scenarios.BackspaceLeavesFocusOffFirstCell | index.tsx:184-202 | deleting "12" with backspaces leaves empty cells in the array and focus on cell 1 |
| Scenarios.ControlledTypingReports | index.tsx:159-160 | controlled, value "12": typing "3" into the third cell reports "123" |
| Scenarios.MaskedCellsShowOnlyTheMask | index.tsx:238-242 | value "1234" with mask '*' shows "*" in every cell while the value stays "1234" |
| Scenarios.AstralMaskingCharRejected | index.tsx:27-29 | an emoji, one character but two UTF-16 code units, is refused as a masking character, while "*" is accepted |

## Left out

- React machinery: `forwardRef`, `useState`, `useEffect`, re-render timing. State is an explicit record and each handler a function.
- The imperative focus commands (`inputs[idx].focus()`), the `inputs` handle table and the exposed `focus()` handle. These are native side effects, so only the computed index is modelled.
- Native `TextInput` behaviour: `maxLength` on the last cell, `autoCorrect`, `keyboardType`, pass-through props. The field text a handler receives is a parameter.
- Presentation: styles, border tint colours, `testID` strings and the `console.log` call.
- Chunking.Chunk: chunks by `Split`, which is the pattern's result only on text for which `Chunking.NoLineTerminators` holds (`Chunking.SplitIsMatchAll`). On other text the pattern skips the terminators (`Chunking.MatchAll`) and the chunks no longer join back to the value; the state machine does not model that case.
- Chunking.Split: treats a character outside the Basic Multilingual Plane as one unit. The pattern, having no `u` flag, counts it as two code units and can cut it in half at a cell boundary.
- OtpInput.DropLast: removes one whole character. `split('')` works on code units, so backspace after a character outside the Basic Multilingual Plane leaves its first half behind.
- Masking.CellText: shows one mask character per character of the cell; `repeat(length)` gives two for a character outside the Basic Multilingual Plane.
- A cell count of 0 is not modelled. The component renders no cells, but the value effect on mount then computes focus index -1 and calls `focus()` on the missing `inputs[-1]` (index.tsx:141-151), which throws a TypeError.
- A negative or fractional cell count, and a negative or fractional cell length, are not modelled: counts and lengths are naturals. `Array(n)` throws a RangeError for such a count, and such a length does not make `.{1,L}` a counted repetition.
- Masking.Reconcile, OtpInput.Edit: differ from the source only where the source is wrong (see Findings). A masked position with no stored character keeps the typed character. The source appends "undefined" there, or throws a TypeError when the cell lies past the end of the array.

## Findings

| source | as written | input that shows it | evidently intended | confidence | as-written member | corrected member |
|---|---|---|---|---|---|---|
| index.tsx:81-84 | a masked position of the field text is always restored from `prevOtp[i]`, even past its end, appending `undefined` as text | mask '*' and the `""` cell left by a merging backspace (`Scenarios.BackspaceMergesIntoPreviousCell`), the user types '*': the cell stores "undefined"; or L = 2, cell "1", field text "**": the cell stores "1undefined" | a masked position with nothing stored behind it keeps the typed character | medium, not executed | Masking.ReconcileAsWritten | Masking.Reconcile |
