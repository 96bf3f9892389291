# calcula-blksize in Dafny

A model of the core of the calcula-blksize editor extension. The extension
works on z/OS JCL. It computes an efficient block size (BLKSIZE) and a 3390
disk space allocation from a record length (LRECL), a record count and a
record format (RECFM). It then either writes that block size into an
existing `BLKSIZE=` parameter or inserts a complete DD statement.

The model has six modules, one per concern of `extension.js`:

- `Wrappers`: `Option` and `Result`.
- `Decimal`: how JavaScript prints a non-negative integer (`String(n)`, a
  template literal) and how `parseInt(digits, 10)` reads a run of digits.
- `Calculator`: `calculateBlksize` (lines 199-248).
  - Fixed-blocked formats (`FB`, `FBS`) pack as many whole records into 27966
    bytes as fit.
  - Every other format uses the record length plus 4, capped at 27966.
  - Blocks per track, total blocks, tracks and cylinders are floors and
    ceilings of integer ratios.
  - The 20% margin and the 80/20 primary/secondary split are the ceilings of
    6/5, 4/5 and 1/5 of the cylinder count, each split quantity raised to at
    least one.
- `JclTemplate`: `generateJCL` (lines 250-256). It produces four `//` cards,
  each ended by a line break, with five holes filled in.
- `KeywordScan`: the three case-insensitive regular expressions of the
  insert command.
  - `/LRECL\s*=\s*(\d+)/i` and `/RECFM\s*=\s*([A-Z]+)/i` read LRECL and
    RECFM.
  - `/(BLKSIZE\s*=\s*)(\d*)/i` locates the block size that `replace` rewrites.
  - Matching is leftmost-first, with greedy `\s*` and value runs. `\s` is
    ECMAScript white space plus line terminators. Without the unicode flag,
    `/i` never folds a non-ASCII character onto an ASCII one. Every pattern is
    ASCII, so folding ASCII letters decides every match.
- `InsertCommand`: the decision logic of the `cobol-blksize.insertJCL`
  command (lines 52-184).
  - The editor supplies the selected text and the cursor's line.
  - The answers to the LRECL and record-count input boxes and to the RECFM
    quick pick are a parameter. `None` stands for a dismissed prompt.
  - The result is the edit the command makes: replace the selection, replace
    the line, insert at the cursor, or nothing.

An LRECL above 27966 gives a block that holds no record. This happens in
both branches: for `FB`/`FBS` the block size is 0, and for other formats it
is capped at 27966.
`recordCount / recordsPerBlock` on line 222 then divides by zero, so every
count from `totalBlocks` on is `Infinity`.

`Calculator.Calculate` returns `Failure(NoRecordFits(blksize))` for exactly
these inputs. The block size is still computed and kept. Full mode renders
the word `Infinity` for both space quantities, as the template literal
does. Line 228 never divides by zero: with a block size of 0 there are
56664 / 12 = 4722 blocks per track.

## Model

| member | source | states |
|---|---|---|
| Decimal.NatToString | extension.js:254 | a printed number is a non-empty run of decimal digits with no leading zero, except for 0 itself |
| Decimal.ParseNatToString | extension.js:73-75 | `parseInt` of the numeral that the block-size rewrite prints gives back the printed number (the round trip between printing and reading a value) |
| Decimal.ParseDigits | extension.js:75 | `parseInt(digits, 10)` on the non-empty digit runs the source parses; a leading zero does not change the value; the empty run, which the source never parses (`parseInt` would give NaN), is taken as 0 |
| Decimal.NatToStringInjective | extension.js:254 | two different numbers never print as the same numeral |
| Calculator.IsFixedBlocked | extension.js:207 | the fixed-blocked branch is taken exactly for the strings `FB` and `FBS`, i.e. exactly when the format is two or three characters starting `FB` with an `S` third; any other string, including lower case, takes the variable branch |
| Calculator.CeilDiv | extension.js:222 | the quotient is the least number of units of size b that hold a (Math.ceil of an exact ratio) |
| Calculator.FloorDiv | extension.js:209 | the quotient is the greatest number of units of size b that fit in a (Math.floor of an exact ratio) |
| Calculator.BlockSize | extension.js:207-219 | the block size never exceeds 27966; for FB/FBS it is a multiple of LRECL and one more record would pass 27966; for other formats it is LRECL+4 unless that exceeds 27966, in which case it is 27966 |
| Calculator.NoRecordFitsWhenTooLong | extension.js:209-221 | the block holds no whole record exactly when LRECL exceeds 27966, whatever the format |
| Calculator.TwoBlocksPerTrack | extension.js:211-218 | any block size up to 27966 leaves room for at least two blocks, with their 12-byte overhead, on a 56664-byte track |
| Calculator.Calculate | extension.js:199-248 | the calculation fails exactly when LRECL exceeds 27966, and then keeps the block size; on success the block size is as above, at least one record fits per block, at least two blocks per track, each count is the ceiling of its ratio, total bytes is count times LRECL, and the margin and primary/secondary quantities are the ceilings of 6/5, 4/5 and 1/5 of the cylinders, with both quantities at least 1 |
| Calculator.Derive | extension.js:221-233 | from the block geometry: enough blocks for all records, tracks for all blocks and cylinders for all tracks, each the fewest that suffice, plus the margin and the split |
| Calculator.SpaceFor | extension.js:230-233 | the margin is the ceiling of 6/5 of the cylinders; primary and secondary are at least 1 and at least 4/5 and 1/5 of the cylinders, and are exactly those ceilings unless raised to 1 |
| Calculator.Max1 | extension.js:232-233 | `Math.max(1, n)`: at least 1 and at least n, and equal to one of them |
| Calculator.SpaceCoversNeed | extension.js:229-233 | the margin never shrinks the allocation; primary plus secondary covers the cylinders needed and exceeds them by at most two |
| Calculator.RecordsPerBlockAgrees | extension.js:207-221 | for LRECL up to 27966 the calculation succeeds; for FB/FBS the generic records-per-block count equals the branch's `floor(27966 / LRECL)`; for other formats with LRECL of at least 5 it is 1 |
| Calculator.Example80x10000FB | extension.js:199-248 | 10000 records of 80 bytes, FB: block 27920, 349 records per block, 29 blocks, 2 blocks per track, 800000 bytes, 15 tracks, 1 cylinder, margin 2, space (1,1) |
| Calculator.Example133VB | extension.js:214-219 | a 133-byte VB record gets a 137-byte block |
| JclTemplate.DdStatement | extension.js:250-256 | the statement contains `SPACE=(CYL,(p,s),RLSE)` and `DCB=(RECFM=…,LRECL=…,BLKSIZE=…)` with the given values |
| JclTemplate.RenderDd | extension.js:250-256 | the rendered statement contains the SPACE parameter with the result's primary and secondary quantities and the DCB parameter with its block size |
| JclTemplate.FourCards | extension.js:250-256 | with single-line values the statement splits into exactly four lines, each a `//` card, and joining them back with line breaks gives the statement |
| JclTemplate.SplitJoin | extension.js:250-256 | splitting single-line texts that were joined with line breaks gives the texts back |
| JclTemplate.RenderReadsThreeFields | extension.js:250-256 | the renderer reads only the block size and the two quantities: results that agree on those render the same text |
| JclTemplate.Example80FB | extension.js:250-256 | rendering the 80-byte FB example gives text containing `RECFM=FB,LRECL=80,BLKSIZE=27920` and `SPACE=(CYL,(1,1),RLSE)` |
| KeywordScan.MatchAt | extension.js:118 | trying a pattern at one position finds the greedy match there, which covers every match at that position, and fails only when no match starts there |
| KeywordScan.SearchFrom | extension.js:118 | the search finds the match with the smallest start at or after the given position, or reports that every match starts earlier |
| KeywordScan.FirstMatch | extension.js:73 | the match found is the regular expression's own match (leftmost, greedy, covering every match at its start); there is none exactly when the pattern matches nowhere |
| KeywordScan.RegexMatchUnique | extension.js:73 | a text has at most one leftmost greedy match per pattern |
| KeywordScan.DetectLrecl | extension.js:73-76 | no LRECL is detected exactly when `LRECL\s*=\s*\d+` matches nowhere; otherwise the value is the decimal value of the leftmost match's digits |
| KeywordScan.ToUpper | extension.js:82 | `toUpperCase()` keeps the length, leaves no small ASCII letter, and changes no character except a small ASCII letter, which becomes the letter 32 code points below, its capital; for the `[A-Z]+` capture this is exact, since the capture holds only ASCII letters (at lines 60-61 the source's `toUpperCase` also maps ı and ſ to ASCII, which this folding does not; see InsertCommand.MentionsBlksize under Left out) |
| KeywordScan.ToUpperIdempotent | extension.js:82 | upper-casing an already upper-cased text changes nothing |
| KeywordScan.DetectRecfm | extension.js:80-83 | no RECFM is detected exactly when `RECFM\s*=\s*[A-Za-z]+` matches nowhere; otherwise the value is the leftmost match's letters in capitals, non-empty and all in A-Z |
| KeywordScan.ReplaceBlksize | extension.js:117-120 | without a match the text is unchanged; otherwise only the digit run of the leftmost `BLKSIZE\s*=\s*\d*` match is replaced by the numeral, with everything before and after kept |
| KeywordScan.ReplacedMatch | extension.js:117-120 | after the rewrite, the leftmost match is at the same place with the new numeral as its value run |
| KeywordScan.ReplaceThenRead | extension.js:117-120 | reading the block size back after writing n gives n |
| KeywordScan.ReplaceLastWins | extension.js:124-127 | rewriting twice gives the same text as the second rewrite alone |
| KeywordScan.ReplaceIdempotent | extension.js:124-127 | repeating a rewrite with the same value changes nothing |
| InsertCommand.MentionsBlksize | extension.js:59-64 | `toUpperCase().includes("BLKSIZE=")` holds exactly when the key occurs at some position in any mix of ASCII cases |
| InsertCommand.SelectionMentionsBlksize | extension.js:62-63 | `selectedText && …includes("BLKSIZE=")` holds exactly when the selection mentions the key; the emptiness test never changes the outcome |
| InsertCommand.QuickContext | extension.js:68-69 | quick mode reads LRECL and RECFM from the selection or the line: the selection whenever it mentions `BLKSIZE=`, and also whenever it is merely non-empty, even if only the line mentions the key; the line exactly when nothing is selected |
| InsertCommand.ChosenLrecl | extension.js:72-99 | without an LRECL match the prompt's answer is used; with one, its digits' value is used unless it is 0, in which case the prompt's answer is used |
| InsertCommand.ChosenRecfm | extension.js:79-111 | without a RECFM match the quick pick's answer is used; with one, the matched letters in capitals are used |
| InsertCommand.QuickBlksize | extension.js:113 | a block size is known exactly when both an LRECL and a RECFM are; it is the block size `calculateBlksize(lrecl, 1, recfm)` reports, whether or not a record fits, and at most 27966 |
| InsertCommand.QuickMode | extension.js:113-130 | quick mode never inserts; it does nothing exactly when no block size is known; it replaces the selection exactly when a block size is known and the selection mentions `BLKSIZE=`; the block size read back from the edited text is the one computed |
| InsertCommand.RecordCount | extension.js:164 | `numRecords ? parseInt(numRecords) : 1`: the record count is the answered count when there is one, and 1 when the box is dismissed or left empty |
| InsertCommand.FullMode | extension.js:139-179 | full mode inserts exactly when both LRECL and RECFM are answered; the text carries the DCB parameter with the computed block size, and the SPACE parameter with the computed quantities, or with `Infinity` twice when no record fits |
| InsertCommand.InsertJcl | extension.js:59-183 | the selection is replaced exactly when it is non-empty, mentions `BLKSIZE=`, and LRECL and RECFM are obtained; the line is replaced exactly when it mentions `BLKSIZE=`, the selection does not, and both values are obtained; when either mentions `BLKSIZE=` nothing happens exactly when a value is missing; otherwise a statement is inserted exactly when the LRECL and RECFM prompts are answered, and it is the rendering of `calculateBlksize` with the answered record count (1 by default), or the `Infinity` statement when no record fits |
| InsertCommand.GuardFindsMatch | extension.js:59-67 | wherever the case-insensitive `BLKSIZE=` guard holds, the rewriting expression `/(BLKSIZE\s*=\s*)(\d*)/i` has a match in the same text |
| InsertCommand.QuickEditSetsBlksize | extension.js:66-135 | a quick-mode edit writes a block size of at most 27966, computed for one record; the new text is the rewrite of the edited text, and the block size read back from it is the one computed |
| InsertCommand.DetectedValuesNeedNoPrompt | extension.js:71-111 | when the quick-mode context names a non-zero LRECL and a RECFM, the prompts' answers do not affect the edit |
| InsertCommand.FullModeInsertsFourCards | extension.js:138-179 | whenever full mode inserts text, the text is four lines, each ended by a line break, including when no record fits and the quantities print as `Infinity` |
| InsertCommand.FullModeCards | extension.js:164-175 | once LRECL and RECFM are answered, full mode always inserts, whether the calculation succeeds or not, and the inserted text is four lines, each ended by a line break |

## Left out

- The editor glue is outside the model: command registration, the webview
  calculator panel and its message passing, information and error messages,
  and the activation logging.
- Prompt validation is outside the model. The answers are taken as positive
  integers or a missing value. In the source, validation uses `isNaN` and a
  radix-less `parseInt`, while the stored value uses `parseInt(…, 10)`. So
  an answer such as `0x10` passes validation and is stored as 0. The
  record-count prompt's radix-less parse is not modelled either.
- The `totalKB` and `totalMB` display strings (`toFixed(2)`) are left out
  because they are floating-point formatting. The model keeps the integer
  `totalBytes` they are computed from.
- The float products `cylindersNeeded * 1.2`, `* 0.8` and `* 0.2` are taken
  as the exact ratios 6/5, 4/5 and 1/5. That IEEE double rounding never
  changes their ceilings is a modelling assumption, not a proved fact.
- Numbers beyond 2^53 are out of scope. The model's integers are unbounded;
  JavaScript numbers lose precision above 2^53, and `parseInt` of a very long
  digit run gives a rounded or infinite value.
- Calculator.Calculate: when no record fits in a block, it returns
  `Failure(NoRecordFits(blksize))` instead of the source's result object.
  Only the block size is kept. The source's object also has records per
  block 0, a finite blocks per track (4722 for FB/FBS, 2 otherwise), and
  `Infinity` for total blocks, tracks, cylinders, the margin, and the primary
  and secondary quantities. Those fields are not represented.
- Calculator.Calculate: LRECL 0 is excluded by its requires, because the
  prompt answers are modelled as positive integers. In the source, LRECL 0 is
  reachable through the validation gap above, at lines 143/150 and 91/98.
  `calculateBlksize(0, …)` then gives a NaN block size for FB/FBS and 4
  otherwise. The model does not cover that case.
- InsertCommand.MentionsBlksize folds only ASCII letters. JavaScript's
  `toUpperCase` also maps a few non-ASCII letters to ASCII, for example the
  dotless ı to I and the long ſ to S, so in the source a line such as
  `blkſize=` passes the guard without the regular expression matching it.
- InsertCommand.QuickMode reads the selection and the cursor's line once.
  The source re-reads the cursor's line after the prompts close (lines
  123-124). It also replaces the selection range captured before the prompts
  with text computed from the selection's earlier contents (lines 54-56,
  117-121). An edit made while a prompt is open therefore changes what the
  source writes, and the model does not cover that.
- The same calculation in the webview's own script is not part of this
  model. That includes its inline copy of the calculator and of the JCL
  template.
