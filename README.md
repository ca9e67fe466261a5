# Packer line front-end, modelled in Dafny

This project models the per-line parsing and validation front-end of `com.mobiquity.packer.Packer`.
Each input line should look like `<capacity> : (<index>,<weight>,€<cost>) ...`. The front-end turns
each line into either the sentinel `"-"` or a list of items for the solver. It also models the loop
in `pack` that runs this over every non-blank line and joins the answers.

Files:

- `Wrappers.dfy`: `Option` and `Result`.
- `JavaText.dfy`: the `java.lang.String` operations the code relies on.
  - `trim` strips characters up to U+0020.
  - `split(":")` and `split(",")` use limit 0: with no match the string itself is the single piece; otherwise trailing empty pieces are dropped.
  - `split("\\s+")` splits on runs of `[ \t\n\x0B\f\r]`.
  - `replace(c, "")` removes every occurrence of `c`.
- `JavaNumbers.dfy`: `Integer.parseInt` and `Double.parseDouble` as partial functions. `None` stands for `NumberFormatException`.
  - `parseInt` takes an optional sign and ASCII digits, within the `int` range.
  - `parseDouble` trims its argument. It then accepts an optional sign and one of `NaN`, `Infinity`, or a decimal literal with an optional exponent and an optional `f`/`F`/`d`/`D` suffix.
  - Finite values are kept as exact reals.
- `Packer.dfy`: the front-end itself, with one function per Java helper.
  - Every `throw` becomes a `Failure` value and every `catch` a match.
  - `processItemsPack`, `processLine` and `pack` are methods with loops. Each is proved equal to a reference function, and the properties are proved about those functions.
- `PackerExamples.dfy`: the scenarios of `PackerTest.java`, proved about the model. It also proves that a line with a valid capacity and a blank item part is accepted with no items.

Where the code departs from the design the library documents, the model follows the code:

- The line is split on every `:`, not on the first one, and Java drops the trailing empty pieces of a split:
  - A `:` inside the item part makes a third part, so the line is rejected (`80:x:y`).
  - `:` characters at the very end only make empty pieces, which are dropped, so `80:x:` reads like `80:x`.
  - `"80:"` is rejected, because its only other piece is empty and is dropped too.
- Neither the line nor the items are bounded:
  - Item weights and costs are not range-checked.
  - There is no limit of 15 items.
  - An item part with no valid item at all is still accepted.
- The duplicate-index check filters with a predicate that is always `false`, so it never fires. Items with repeated indices are all kept.
- Items are not matched against a pattern. Every `(` and `)` is removed from each whitespace-separated token, the rest is split on `,`, and the token needs exactly three fields. Any number text `parseDouble` accepts is taken as a weight or cost, and any number of `€` signs is removed.
- The capacity is validated and then discarded. The solver is called with the static `maxWeight`, which is never assigned, so it is `0`. The model keeps the capacity in `Accepted` only so that properties can be stated about it.
- `findOptimalCombination` returns `null`. An accepted line therefore answers `null`, and `pack` prints the text `null` for it, not an index list. The test at `PackerTest.java:44-53` expects `"1"`, which the code cannot produce.
- The final `trim()` of `pack` removes only the last newline, because every entry is `-` or `null`.

## Model

| member | source | states |
|---|---|---|
| `JavaText.TrimStart` | src/main/java/com/mobiquity/packer/Packer.java:71 | the result is a suffix of the input, everything dropped is at most U+0020, and the result does not start with such a character |
| `JavaText.TrimEnd` | src/main/java/com/mobiquity/packer/Packer.java:71 | the result is a prefix of the input, everything dropped is at most U+0020, and the result does not end with such a character |
| `JavaText.Trim` | src/main/java/com/mobiquity/packer/Packer.java:71 | `trim()` is empty exactly when every character is at most U+0020; otherwise both ends are above U+0020; it never lengthens |
| `JavaText.TrimKeeps` | src/main/java/com/mobiquity/packer/Packer.java:71 | a string whose ends are above U+0020 is left unchanged |
| `JavaText.TrimIdempotent` | src/main/java/com/mobiquity/packer/Packer.java:71 | trimming twice is trimming once |
| `JavaText.TrimIsSlice` | src/main/java/com/mobiquity/packer/Packer.java:71 | the trimmed string is the slice of the input starting after the leading blanks |
| `JavaText.TrimRemovesOnlyTrimmable` | src/main/java/com/mobiquity/packer/Packer.java:71 | everything before and after that slice is at most U+0020 |
| `JavaText.TrimDropsFinalNewline` | src/main/java/com/mobiquity/packer/Packer.java:35 | text with visible ends followed by `"\n"` trims back to that text |
| `JavaText.Pieces` | src/main/java/com/mobiquity/packer/Packer.java:41 | the pieces between separators hold no separator, and with no separator the string is the single piece |
| `JavaText.JoinPieces` | src/main/java/com/mobiquity/packer/Packer.java:41 | joining the pieces with the separator gives back the string |
| `JavaText.PiecesJoin` | src/main/java/com/mobiquity/packer/Packer.java:41 | separator-free pieces, once joined, are split back into exactly those pieces |
| `JavaText.PiecesKeepAbsence` | src/main/java/com/mobiquity/packer/Packer.java:107 | a character absent from the string is absent from every piece |
| `JavaText.DropTrailingEmpty` | src/main/java/com/mobiquity/packer/Packer.java:41 | keeps a prefix of the pieces that does not end with an empty piece, and drops only empty pieces |
| `JavaText.Split` | src/main/java/com/mobiquity/packer/Packer.java:41 | `split(c)`: no piece holds `c`; with no `c` the string is the single piece; otherwise the result is a prefix of the pieces and only trailing empty pieces are dropped |
| `JavaText.SplitKeepsAbsence` | src/main/java/com/mobiquity/packer/Packer.java:107 | a character absent from the string is absent from every field of the split |
| `JavaText.SplitJoin` | src/main/java/com/mobiquity/packer/Packer.java:41 | separator-free parts, the last one non-empty, are split back into exactly those parts after joining |
| `JavaText.SpacePieces` | src/main/java/com/mobiquity/packer/Packer.java:87 | the pieces between whitespace runs hold no whitespace, and inner pieces are non-empty |
| `JavaText.SpacePiecesFlatten` | src/main/java/com/mobiquity/packer/Packer.java:87 | the pieces together hold exactly the non-whitespace characters, in order |
| `JavaText.SplitOnSpacesFlatten` | src/main/java/com/mobiquity/packer/Packer.java:87 | for every string, the tokens of `split("\\s+")` hold exactly its non-whitespace characters, in order |
| `JavaText.SplitOnSpaces` | src/main/java/com/mobiquity/packer/Packer.java:87 | `split("\\s+")`: tokens hold no whitespace; with no whitespace the string is the single token; otherwise the result is a prefix of the pieces only empty pieces are dropped, and the last token kept is non-empty |
| `JavaText.TokensOfTrimmed` | src/main/java/com/mobiquity/packer/Packer.java:87 | on a string with visible ends, no token is empty, and the tokens hold exactly its non-whitespace characters |
| `JavaText.SpacePiecesPrefix` | src/main/java/com/mobiquity/packer/Packer.java:87 | a whitespace-free prefix only extends the first piece |
| `JavaText.SpacePiecesAfterRun` | src/main/java/com/mobiquity/packer/Packer.java:87 | a whitespace run of any length and kind before a visible character ends one piece and starts the next |
| `JavaText.SpacePiecesJoinRuns` | src/main/java/com/mobiquity/packer/Packer.java:87 | non-empty whitespace-free tokens joined by whitespace runs of any length and kind give back exactly those pieces |
| `JavaText.SplitOnSpacesJoinRuns` | src/main/java/com/mobiquity/packer/Packer.java:87 | `split("\\s+")` inverts joining non-empty whitespace-free tokens by any whitespace runs: tabs, several blanks and line breaks read like one blank |
| `JavaText.JoinIsJoinRuns` | src/main/java/com/mobiquity/packer/Packer.java:87 | joining on single blanks is the case where every run is one blank |
| `JavaText.SplitOnSpacesJoin` | src/main/java/com/mobiquity/packer/Packer.java:87 | non-empty whitespace-free tokens joined by blanks split back into exactly those tokens |
| `JavaText.RemoveAll` | src/main/java/com/mobiquity/packer/Packer.java:106 | `replace(c, "")` leaves no `c`, and leaves a string without `c` unchanged |
| `JavaText.RemoveAllKeepsOthers` | src/main/java/com/mobiquity/packer/Packer.java:106 | every other character keeps its number of occurrences |
| `JavaText.RemoveAllAppend` | src/main/java/com/mobiquity/packer/Packer.java:106 | removal distributes over concatenation |
| `JavaNumbers.ParseInt` | src/main/java/com/mobiquity/packer/Packer.java:75 | `Integer.parseInt` succeeds only on an optional sign followed by digits, and only with a value in the `int` range |
| `JavaNumbers.ParseIntShowInt` | src/main/java/com/mobiquity/packer/Packer.java:75 | the decimal spelling of an integer parses back to it exactly when it is in the `int` range, and fails otherwise |
| `JavaNumbers.ParseIntOfDigits` | src/main/java/com/mobiquity/packer/Packer.java:75 | conversely, one or more digits with no sign, `+` or `-` parse to their value exactly when it is in the `int` range, and fail otherwise |
| `JavaNumbers.LeadingZero` | src/main/java/com/mobiquity/packer/Packer.java:75 | a leading zero does not change the value of a digit string |
| `JavaNumbers.ParseIntSignAndZeros` | src/main/java/com/mobiquity/packer/Packer.java:75 | a `+` sign and leading zeros, also after `-`, never change what `parseInt` reads |
| `JavaNumbers.ParseDouble` | src/main/java/com/mobiquity/packer/Packer.java:135-136 | no contract of its own: `Double.parseDouble` is the argument trimmed, then an optional sign and `NaN`, `Infinity` or a decimal literal with optional exponent and type suffix; the lemmas below state what it returns for each spelling the item fields use |
| `JavaNumbers.ParseDoubleIgnoresTrim` | src/main/java/com/mobiquity/packer/Packer.java:135 | the `trim()` before `parseDouble` never changes its result |
| `JavaNumbers.MantissaOfDigits` | src/main/java/com/mobiquity/packer/Packer.java:135 | a string of digits is a mantissa worth its decimal value |
| `JavaNumbers.MantissaWithPoint` | src/main/java/com/mobiquity/packer/Packer.java:135 | `<digits>.<digits>` is a mantissa worth whole plus fraction |
| `JavaNumbers.DecimalWithoutExponent` | src/main/java/com/mobiquity/packer/Packer.java:135 | with no exponent and no type suffix, a literal is read as its mantissa |
| `JavaNumbers.FloatingOfPlain` | src/main/java/com/mobiquity/packer/Packer.java:135 | a literal that starts with a digit, ends with a digit or a point, and has no exponent parses to its mantissa, or fails with it |
| `JavaNumbers.ParseDoubleShowNat` | src/main/java/com/mobiquity/packer/Packer.java:136 | a whole number's spelling parses to that number |
| `JavaNumbers.ParseDoublePoint` | src/main/java/com/mobiquity/packer/Packer.java:135 | `<whole>.<fraction>` parses to its exact decimal value |
| `Packer.ValidateLineFormat` | src/main/java/com/mobiquity/packer/Packer.java:64-68 | succeeds exactly when the split gave two parts, and fails otherwise as an invalid pack format |
| `Packer.BufferPart` | src/main/java/com/mobiquity/packer/Packer.java:70-72 | no contract of its own: the part trimmed; `Trim`, `TrimIsSlice` and `TrimRemovesOnlyTrimmable` state what trimming keeps and drops |
| `Packer.ValidatePackMaxWeight` | src/main/java/com/mobiquity/packer/Packer.java:74-79 | succeeds exactly when the trimmed first part parses as an `int` in (0, 100], with that value; it fails as not-an-int exactly when `parseInt` throws |
| `Packer.ValidatePackItems` | src/main/java/com/mobiquity/packer/Packer.java:81-84 | succeeds for every line: the split it makes is discarded and no item count is checked |
| `Packer.ValidateLinePackComposition` | src/main/java/com/mobiquity/packer/Packer.java:55-68 | succeeds exactly when there are two parts and the capacity check passes; the value is in (0, 100] and equals the parsed first part; any other number of parts is an invalid format |
| `Packer.ParseItemDelimiters` | src/main/java/com/mobiquity/packer/Packer.java:105-108 | no field holds a parenthesis or a comma, wherever they stood in the token |
| `Packer.ParseItemDelimitersOfTuple` | src/main/java/com/mobiquity/packer/Packer.java:105-108 | `(a,b,c)` with delimiter-free fields and a non-empty `c` yields exactly `[a, b, c]` |
| `Packer.FindAny` | src/main/java/com/mobiquity/packer/Packer.java:124-127 | anything found is an accepted item that the filter keeps |
| `Packer.ValidateItemLength` | src/main/java/com/mobiquity/packer/Packer.java:117-121 | succeeds exactly for three fields, and fails otherwise as an invalid item format |
| `Packer.ValidateItemIndex` | src/main/java/com/mobiquity/packer/Packer.java:123-131 | no contract of its own: fails when `FindAny` finds an accepted item; `ValidateItemIndexAccepts` proves it never does |
| `Packer.ValidateItems` | src/main/java/com/mobiquity/packer/Packer.java:110-121 | a token passes only with exactly three fields |
| `Packer.ValidateItemIndexAccepts` | src/main/java/com/mobiquity/packer/Packer.java:123-131 | the duplicate-index check never rejects, whatever was accepted before |
| `Packer.TokenWithoutCommaDropped` | src/main/java/com/mobiquity/packer/Packer.java:105-121 | a token with no comma yields a single field and is dropped |
| `Packer.TransformItem` | src/main/java/com/mobiquity/packer/Packer.java:133-138 | succeeds exactly when the trimmed index parses as an `int` and the trimmed weight and the trimmed cost without euro signs parse as numbers; the item then carries those three values; a bad index is reported as such first, then a bad weight |
| `Packer.ProcessItem` | src/main/java/com/mobiquity/packer/Packer.java:90-96 | no contract of its own: parseItemDelimiters, validateItems, then transformItem on a token; `ProcessItemIsParseItem` ties it to `ParseItem` |
| `Packer.ParseItem` | src/main/java/com/mobiquity/packer/Packer.java:105-138 | no contract of its own: the reference meaning of a token, three fields and then `TransformItem`; the lemmas below state it for concrete shapes |
| `Packer.ParseItemOfFields` | src/main/java/com/mobiquity/packer/Packer.java:133-138 | three fields that parse (index trimmed, weight trimmed, cost with every `€` removed and trimmed) give exactly that item |
| `Packer.ParseItemOfTuple` | src/main/java/com/mobiquity/packer/Packer.java:105-138 | a token `(a,b,c)` whose fields parse gives exactly the item they spell |
| `Packer.ParseItemOfDocumentedToken` | src/main/java/com/mobiquity/packer/Packer.java:105-138 | every token in the documented format `(<index>,<whole>.<fraction>,€<cost>)` is read as its index, its exact weight and its whole-number cost |
| `Packer.IndexField` | src/main/java/com/mobiquity/packer/Packer.java:134 | an index spelled in decimal holds no delimiter and parses to its value |
| `Packer.WeightField` | src/main/java/com/mobiquity/packer/Packer.java:135 | a weight `<whole>.<fraction>` holds no delimiter and parses to its exact value |
| `Packer.CostField` | src/main/java/com/mobiquity/packer/Packer.java:136 | a cost `€<n>` holds no delimiter and parses to `n` once the euro sign is removed |
| `Packer.ProcessItemIsParseItem` | src/main/java/com/mobiquity/packer/Packer.java:89-100 | a token yields an item exactly when it parses on its own, and it yields the same item whatever was accepted before |
| `Packer.AccumulateStep` | src/main/java/com/mobiquity/packer/Packer.java:89-100 | one more token appends the item its step yields, or nothing |
| `Packer.AccumulateIsFilterMap` | src/main/java/com/mobiquity/packer/Packer.java:86-103 | a loop whose step ignores the accepted items gives the same list as filtering the tokens independently |
| `Packer.FilterMapAppend` | src/main/java/com/mobiquity/packer/Packer.java:86-103 | the items of two runs of tokens are those of each, in order |
| `Packer.FilterMapLength` | src/main/java/com/mobiquity/packer/Packer.java:86-103 | at most one item per token, and exactly one per token when every token parses |
| `Packer.FilterMapMembers` | src/main/java/com/mobiquity/packer/Packer.java:86-103 | an item is in the list exactly when some token parses to it |
| `Packer.FilterMapAllParse` | src/main/java/com/mobiquity/packer/Packer.java:86-103 | when every token parses, the i-th item is the i-th token's |
| `Packer.FilterMapPair` | src/main/java/com/mobiquity/packer/Packer.java:86-103 | two tokens that both parse give their two items in order |
| `Packer.ItemsAfterIsAcceptedItems` | src/main/java/com/mobiquity/packer/Packer.java:86-103 | the list built by the loop is exactly the items of the tokens that parse on their own, in input order |
| `Packer.AcceptedItemsLength` | src/main/java/com/mobiquity/packer/Packer.java:86-103 | at most one item per token; exactly one per token when every token parses |
| `Packer.AcceptedItemsMembers` | src/main/java/com/mobiquity/packer/Packer.java:86-103 | an item is accepted exactly when some token parses to it |
| `Packer.AcceptedItemsAllParse` | src/main/java/com/mobiquity/packer/Packer.java:86-103 | when every token parses, the i-th item is the i-th token's item |
| `Packer.DuplicateIndicesKept` | src/main/java/com/mobiquity/packer/Packer.java:123-131 | two tokens with the same index are both kept, in order |
| `Packer.BlankItemPartHasNoItems` | src/main/java/com/mobiquity/packer/Packer.java:81-103 | an item part of blanks only gives one empty token and no item |
| `Packer.ItemTokensOfRuns` | src/main/java/com/mobiquity/packer/Packer.java:87 | an item part that trims to tokens joined by any whitespace runs yields exactly those tokens |
| `Packer.ProcessItemsPack` | src/main/java/com/mobiquity/packer/Packer.java:86-103 | the loop returns the reference list of the trimmed second part's tokens, which is the list of their independently parsed items, at most one per token |
| `Packer.ParseLine` | src/main/java/com/mobiquity/packer/Packer.java:38-53 | no contract of its own: split on `:`, validateLinePackComposition, then the items of the tokens; `LineAcceptance` states exactly when it accepts and with what |
| `Packer.MalformedLineRejected` | src/main/java/com/mobiquity/packer/Packer.java:38-68 | a line whose `:`-split does not give two parts is rejected as an invalid format and answers `"-"` |
| `Packer.LineAcceptance` | src/main/java/com/mobiquity/packer/Packer.java:38-79 | a line is accepted exactly when it has two parts and a capacity in (0, 100]; it then carries that capacity and the items of its tokens |
| `Packer.TwoPartLine` | src/main/java/com/mobiquity/packer/Packer.java:55-84 | for `<capacity>:<rest>` the verdict depends on the capacity alone, whatever and however many tokens the rest holds |
| `Packer.TrailingColonDropped` | src/main/java/com/mobiquity/packer/Packer.java:41-70 | `:` at the very end of a line makes only an empty piece, which is dropped: the line splits into two parts and reads as if the colon were absent |
| `Packer.InnerColonRejected` | src/main/java/com/mobiquity/packer/Packer.java:41-70 | a `:` inside the item part makes a third part, and the line is rejected as malformed |
| `Packer.FindOptimalCombination` | src/main/java/com/mobiquity/packer/Packer.java:142-144 | the stub answers null for every capacity and item list |
| `Packer.LineAnswer` | src/main/java/com/mobiquity/packer/Packer.java:38-53 | no contract of its own: `"-"` for a rejected line, the solver's answer otherwise; `LineAnswerCases` states both directions |
| `Packer.LineAnswerCases` | src/main/java/com/mobiquity/packer/Packer.java:38-53 | `processLine` answers `"-"` exactly for a rejected line, and null exactly for an accepted one |
| `Packer.ProcessLine` | src/main/java/com/mobiquity/packer/Packer.java:38-53 | the method, which runs the item loop, returns the reference answer, which is always `"-"` or null |
| `Packer.IsBlankIsTrimEmpty` | src/main/java/com/mobiquity/packer/Packer.java:27 | the blank-line test is `trim().isEmpty()` |
| `Packer.NonBlank` | src/main/java/com/mobiquity/packer/Packer.java:26-30 | keeps no blank line and every non-blank one, and nothing that is not an input line; with `NonBlankAppend` and `NonBlankOne`, the kept lines are exactly the non-blank ones in input order |
| `Packer.NonBlankAppend` | src/main/java/com/mobiquity/packer/Packer.java:26-30 | the kept lines of two runs of lines are those of the first run followed by those of the second |
| `Packer.NonBlankOne` | src/main/java/com/mobiquity/packer/Packer.java:27 | a single line is kept exactly when it is not blank |
| `Packer.Entries` | src/main/java/com/mobiquity/packer/Packer.java:26-30 | no contract of its own: what each non-blank line appends before its newline; `EntriesOfNonBlank` and `EntriesAppend` state it |
| `Packer.EntriesAppend` | src/main/java/com/mobiquity/packer/Packer.java:26-30 | lines are processed independently: the entries of two runs of lines are those of each, in order |
| `Packer.EntriesOfNonBlank` | src/main/java/com/mobiquity/packer/Packer.java:26-30 | one entry per non-blank line, in order, each the rendered answer for that line |
| `Packer.Rendered` | src/main/java/com/mobiquity/packer/Packer.java:28 | no contract of its own: `StringBuilder.append` of a `String`, writing `null` for a null one; `RenderedAnswer` states it for line answers |
| `Packer.RenderedAnswer` | src/main/java/com/mobiquity/packer/Packer.java:28 | the appended text is `-` for a rejected line and `null` for an accepted one |
| `Packer.EntriesArePrintable` | src/main/java/com/mobiquity/packer/Packer.java:26-30 | every entry is `-` or `null` |
| `Packer.Appended` | src/main/java/com/mobiquity/packer/Packer.java:26-30 | no contract of its own: every entry followed by a newline; `AppendedIsJoined` and `AppendedStep` state it |
| `Packer.AppendedIsJoined` | src/main/java/com/mobiquity/packer/Packer.java:28 | the builder holds the entries joined by newlines, plus one final newline |
| `Packer.JoinLinesEnds` | src/main/java/com/mobiquity/packer/Packer.java:35 | the joined entries start with the first entry's first character and end with the last entry's last |
| `Packer.TrimAppended` | src/main/java/com/mobiquity/packer/Packer.java:35 | with visible entries, the final `trim()` gives exactly the entries joined by newlines |
| `Packer.AppendedStep` | src/main/java/com/mobiquity/packer/Packer.java:26-30 | one more line adds nothing when it is blank, and its rendered answer and a newline otherwise |
| `Packer.PackOutputIsJoined` | src/main/java/com/mobiquity/packer/Packer.java:35 | the trimmed builder content is the entries joined by newlines |
| `Packer.Pack` | src/main/java/com/mobiquity/packer/Packer.java:21-36 | the loop over the lines returns the trimmed builder content, which is one entry per non-blank line joined by newlines |
| `PackerExamples.InvalidFormatLine` | src/test/java/com/mobiquity/packer/PackerTest.java:55-64 | `"invalid_format"` is rejected as an invalid format and answers `"-"` |
| `PackerExamples.CapacityTooLarge` | src/test/java/com/mobiquity/packer/PackerTest.java:66-76 | a capacity of 150 fails the capacity check, so the line's validation fails |
| `PackerExamples.CapacityValid` | src/test/java/com/mobiquity/packer/PackerTest.java:78-85 | a capacity of 80 passes validation with value 80 |
| `PackerExamples.FirstToken` | src/test/java/com/mobiquity/packer/PackerTest.java:47 | `(1,53.38,€45)` is read as item 1 of weight 53.38 and cost 45 |
| `PackerExamples.SecondToken` | src/test/java/com/mobiquity/packer/PackerTest.java:47 | `(2,88.62,€98)` is read as item 2 of weight 88.62 and cost 98 |
| `PackerExamples.ExampleLineAccepted` | src/test/java/com/mobiquity/packer/PackerTest.java:44-53 | `81 : (1,53.38,€45) (2,88.62,€98)` is accepted with capacity 81 and both items in order |
| `PackerExamples.TabbedTokens` | src/main/java/com/mobiquity/packer/Packer.java:87 | the example's two tokens with a tab and two blanks between them are read as the same two tokens |
| `PackerExamples.ExampleLineAnswer` | src/main/java/com/mobiquity/packer/Packer.java:141-144 | that line answers null, and `pack` over it prints `null`, not the `"1"` the test expects |
| `PackerExamples.EmptyItemPartAccepted` | src/main/java/com/mobiquity/packer/Packer.java:81-84 | `80: ` is accepted with no items at all, because no item count is checked |

## Left out

- Reading the file, `BufferedReader`, and turning I/O errors into `APIException` (`Packer.java:22-34`) are left out. `Pack` takes the lines as an already-read sequence. The message texts of the exceptions are not modelled either; only which check failed is.
- `PackerApplication.main` prints the result and is I/O only.
- The knapsack optimiser is left out: `findOptimalCombination` is a stub returning null, and it is modelled as exactly that. `Result.java` declares a holder the code never uses.
- IEEE-754 rounding is not modelled. `Double` keeps finite values as exact reals. Rounding to the nearest double, overflow to infinity, underflow, `-0.0` and hexadecimal floating literals (`0x1p3`) are not modelled.
- `JavaNumbers.ParseInt` accepts ASCII digits only. Java's `Character.digit` also accepts other Unicode decimal digits.
- The Lombok setters of `Item` are left out; `Item` is an immutable datatype.
- Test expectations in `PackerTest.java` for methods the code does not have (`readFile`, `mapItemsPerPack`, `validateItemWeight`, `validateItemCost`) are left out, along with its Mockito setup.
- The `null` check in `getBufferPart` is left out: a piece of a split is never null.
- Mutation of the `ArrayList` and the `StringBuilder` is modelled as reassigning a `seq` or a `string`; no aliasing is involved.
