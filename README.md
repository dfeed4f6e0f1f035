# QuizTex core, modelled in Dafny

QuizTex is a flashcard web app. A CSV file of question/answer rows is uploaded and checked. The rows become a deck of cards. The cards are shown one at a time, with LaTeX markup detected so that it can be typeset.

This project models the logic of the three components that hold that behaviour:

- **FileUploader** (`file_uploader.dfy`, module `FileUploader`). The upload decision is a pure function, `HandleUpload`. Its inputs are the file name, the MIME type, the file text and the CSV parser, passed in as a function. Checks run in this order: file type, empty content, parser errors, then row filtering and trimming. The result is an error or the list of question/answer pairs.
- **CardList** (`card_list.dfy`, module `CardList`). The component state is the class `Deck`: the cards, the cursor, the flagged-only filter, the flag count, the flip-state ref and the flashcard's reset key. Each handler is a method of `Deck`.
  - The visible list, the flag count and the card-list updates are functions over values. Lemmas state their properties.
  - The shuffle's write-back loop runs over an array in `WriteBackLoop`.
  - `Render` gives which of the component's screens is drawn.
  - React effects are modelled as running at the end of the handler that triggers them: the flag recount after every change of the cards, and the load effect when a new input arrives.
- **Flashcard** (`flashcard.dfy`, module `Flashcard`).
  - `ContainsLatex` is the disjunction of the five patterns. Each pattern is a hand-written matcher with JavaScript's semantics for `.`: any character except the four line terminators, with lazy `+?`.
  - `ProcessContent` returns the text unchanged, together with its classification.
  - `FlipCard` is the flashcard's flip state, and `HandleFlip` toggles it and reports the new side.

Two supporting modules:

- `js_string.dfy` (module `JsString`): `String.prototype.trim` over a fixed whitespace set (the ECMAScript WhiteSpace and LineTerminator code points), and `endsWith`.
- `wrappers.dfy` (module `Wrappers`): `Option` and `Result`.

## Model

| member | source | states |
|---|---|---|
| JsString.LeadingWhitespace | app/components/FileUploader.tsx:29 | the count is the length of the longest whitespace prefix: every counted character is whitespace, the next one is not |
| JsString.TrailingWhitespace | app/components/FileUploader.tsx:29 | the count is the length of the longest whitespace suffix |
| JsString.TrimSpec | app/components/FileUploader.tsx:29 | `trim` leaves no whitespace at either end; it yields "" exactly when the text is all whitespace; it is the identity on trimmed text |
| JsString.TrimDropsPadding | app/components/FileUploader.tsx:53-54 | `trim` of whitespace + trimmed core + whitespace is the core |
| FileUploader.HandleUpload | app/components/FileUploader.tsx:15-62 | each outcome exactly when its condition holds: not CSV (by type or name) gives `NotCsv`; a CSV file with empty or all-whitespace text gives `EmptyFile`; then a parser error gives `ParseFailed` with the first error's message; then `NoValidData` exactly when no row is valid; `Success` exactly when the file is CSV, not blank, parsed without error and has a valid row, carrying the non-empty list of pairs from the valid rows |
| FileUploader.TypeCheckComesFirst | app/components/FileUploader.tsx:17-20 | a file that is not CSV is rejected whatever its content and whatever the parser would return |
| FileUploader.EmptyCheckComesBeforeParsing | app/components/FileUploader.tsx:29-32 | all-whitespace content is decided without the parser |
| FileUploader.CsvNameIsEnough | app/components/FileUploader.tsx:17-20 | a file named ".csv" is never rejected as not CSV, whatever its MIME type, content or parse |
| FileUploader.RowPairs | app/components/FileUploader.tsx:48-55 | a row yields at most one pair |
| FileUploader.PairsFromRows | app/components/FileUploader.tsx:48-55 | no more pairs than rows |
| FileUploader.PairsFromRowsAppend | app/components/FileUploader.tsx:48-55 | the filter and map work row by row: the pairs of a concatenation are the concatenated pairs |
| FileUploader.PairComesFromValidRow | app/components/FileUploader.tsx:48-55 | every pair is the trimmed first two fields of some valid row |
| FileUploader.ValidRowYieldsPair | app/components/FileUploader.tsx:49-55 | every valid row contributes its trimmed first two fields |
| FileUploader.PairsAreTrimmed | app/components/FileUploader.tsx:53-54 | every question and answer has no whitespace at either end |
| FileUploader.NoPairsIffNoValidRow | app/components/FileUploader.tsx:49-51 | no pairs exactly when no row has two non-empty leading fields |
| FileUploader.WhitespaceFieldBecomesEmpty | app/components/FileUploader.tsx:50-54 | an all-whitespace field passes the filter and becomes an empty question |
| FileUploader.KeptAsIs | app/components/FileUploader.tsx:52-55 | a valid row with already-trimmed fields maps to exactly those fields; later fields are dropped |
| FileUploader.TwoRowExample | app/components/FileUploader.tsx:47-62 | a two-row file loads two pairs in file order |
| FileUploader.OneColumnExample | app/components/FileUploader.tsx:57-60 | a one-column file ends in `NoValidData`, whose message is "No valid data found in the CSV file" |
| Flashcard.FoundFromSpec | app/components/Flashcard.tsx:27 | the scan finds a match exactly when the pattern matches at some position from the start point on (`test` searches the whole string) |
| Flashcard.GapThenSpec | app/components/Flashcard.tsx:20-23 | `.+?` followed by the rest of a pattern matches exactly when some non-empty run on one line is followed by a match of the rest |
| Flashcard.PairPatternSpec | app/components/Flashcard.tsx:20-22 | a delimiter-pair pattern matches exactly when the opening and closing delimiters enclose a non-empty run on one line |
| Flashcard.PairPatternSound | app/components/Flashcard.tsx:20-22 | a match of a delimiter-pair pattern has its enclosing delimiters |
| Flashcard.PairPatternComplete | app/components/Flashcard.tsx:20-22 | enclosing delimiters make the pattern match |
| Flashcard.ContainsCommandFromSpec | app/components/Flashcard.tsx:24 | the command scan succeeds exactly when a backslash followed by an ASCII letter occurs at or after the start point |
| Flashcard.CommandSpec | app/components/Flashcard.tsx:24 | the command pattern matches exactly when the text contains a backslash followed by a run of ASCII letters |
| Flashcard.BackslashLetterIsLatex | app/components/Flashcard.tsx:24 | a backslash followed by an ASCII letter makes the text LaTeX (the brace group is optional) |
| Flashcard.DollarPairIsLatex | app/components/Flashcard.tsx:20 | two `$` enclosing a non-empty run on one line make the text LaTeX |
| Flashcard.EnvironmentImpliesCommand | app/components/Flashcard.tsx:23-24 | every match of the environment pattern is a match of the command pattern |
| Flashcard.EnvironmentPatternIsRedundant | app/components/Flashcard.tsx:19-27 | the decision is unchanged when the environment pattern is dropped |
| Flashcard.FoundNeedsFirstChar | app/components/Flashcard.tsx:19-27 | a pattern can only match text containing its first literal character |
| Flashcard.PlainTextIsNotLatex | app/components/Flashcard.tsx:17-28 | text with neither `$` nor a backslash is never LaTeX |
| Flashcard.ExampleDecisions | app/components/Flashcard.tsx:17-43 | "$x^2$" is LaTeX; "plain question" is not, and is returned unchanged as plain text |
| Flashcard.ProcessContent | app/components/Flashcard.tsx:31-43 | the content is the input text in both branches; the flag is the LaTeX decision |
| Flashcard.FlipCard.constructor | app/components/Flashcard.tsx:53 | a mounted card starts on its question side |
| Flashcard.FlipCard.HandleFlip | app/components/Flashcard.tsx:55-63 | the side is negated, and the new side is passed to the observer when there is one |
| Flashcard.FlipTwice | app/components/Flashcard.tsx:55-63 | two flips restore the side, reporting the new side then the old one |
| CardList.Numbered | app/components/CardList.tsx:29-36 | card ids are positions, one card per input pair, none flagged |
| CardList.NumberedKeepsContents | app/components/CardList.tsx:31-36 | loading keeps every question and answer in input order |
| CardList.DenseIdsAreUnique | app/components/CardList.tsx:31-33 | ids taken from positions are unique |
| CardList.FlaggedOnly | app/components/CardList.tsx:50-52 | the filtered list is no longer than the deck |
| CardList.FlaggedOnlyMembers | app/components/CardList.tsx:50-52 | a card is in the flagged-only view exactly when it is in the deck and flagged |
| CardList.FlaggedOnlyKeepsOrder | app/components/CardList.tsx:50-52 | the flagged-only view is a subsequence of the deck, in deck order |
| CardList.FlaggedCountCountsFlags | app/components/CardList.tsx:46-48 | the flag count is the number of cards whose flag is set, whatever the filter |
| CardList.ToggleFlagChangesOneCard | app/components/CardList.tsx:63-69 | flagging id k flips card k's flag and leaves every other card, and the order, unchanged |
| CardList.ToggleFlagTwice | app/components/CardList.tsx:63-69 | flagging the same id twice restores the deck |
| CardList.ToggleFlagAbsent | app/components/CardList.tsx:63-69 | an id no card has changes nothing |
| CardList.ToggleFlagCount | app/components/CardList.tsx:63-69 | flagging a card moves the flag count down by one if it was flagged, up by one otherwise |
| CardList.ToggleFlagInFlaggedView | app/components/CardList.tsx:50-69 | in the flagged-only view, flagging the card at position k removes exactly that card from the view |
| CardList.NextIndex | app/components/CardList.tsx:101-103 | in range: one on, modulo the count; from the last card to the first |
| CardList.PreviousIndex | app/components/CardList.tsx:93-95 | in range: one back, modulo the count; from the first card to the last |
| CardList.NavigationRoundTrip | app/components/CardList.tsx:91-105 | next then previous, and previous then next, restore the cursor |
| CardList.ClampIndex | app/components/CardList.tsx:60-70 | the corrected cursor is within the visible list, and unchanged when it already was |
| CardList.IndexOfId | app/components/CardList.tsx:80 | `findIndex` by id: -1 exactly when no card has the id, otherwise the first position holding it |
| CardList.WriteOne | app/components/CardList.tsx:80-83 | one pass of the loop keeps the length and every slot's id |
| CardList.WriteBack | app/components/CardList.tsx:78-84 | the loop keeps the length and every slot's id |
| CardList.WriteOneOfMember | app/components/CardList.tsx:80-83 | writing a deck card over the card with its id writes it over itself |
| CardList.WriteBackIsIdentity | app/components/CardList.tsx:78-84 | with unique ids and cards taken from the deck, the loop leaves the deck unchanged, whatever the order |
| CardList.ShuffleWriteBackIsIdentity | app/components/CardList.tsx:72-86 | for any permutation of the visible cards, in either view, the shuffled deck is the old deck |
| CardList.ShuffleWriteBackExample | app/components/CardList.tsx:75-84 | two cards shuffled into reverse order keep their old order after the loop; the intended shuffle would swap them |
| CardList.PlaceFlaggedKeepsUnflagged | app/components/CardList.tsx:77 | the intended shuffle leaves unflagged cards in their slots |
| CardList.PlaceFlaggedShowsShuffled | app/components/CardList.tsx:77 | after the intended shuffle, the flagged-only view is the shuffled sequence |
| CardList.PlaceFlaggedMultiset | app/components/CardList.tsx:77 | the intended shuffle swaps the flagged cards out for the shuffled ones and changes nothing else |
| CardList.PlaceShuffledFlagged | app/components/CardList.tsx:77 | given a permutation of the flagged cards: the view shows it, the deck is a permutation of the old deck, and unflagged cards stay put |
| CardList.ShuffleIntended | app/components/CardList.tsx:72-86 | the corrected shuffle: the visible list becomes the shuffled order, the deck stays a permutation of itself, and hidden cards keep their slots |
| CardList.VisibleCardInDeck | app/components/CardList.tsx:50-52 | a visible card sits in the deck at the slot its id names |
| CardList.WriteBackLoop | app/components/CardList.tsx:78-84 | the array loop computes the write-back |
| CardList.Deck.Render | app/components/CardList.tsx:138-211 | no cards: the upload prompt; filter on with nothing flagged: the empty-view message; cursor past the visible list: the render throws; otherwise the card at the cursor, with position the cursor plus one, out of the visible count, shuffle enabled exactly when there are at least two cards, and the flag count shown only with the filter off |
| CardList.Deck.constructor | app/components/CardList.tsx:19-26 | the initial state: no cards, cursor 0, filter off, count 0, question side, key 0 |
| CardList.Deck.ResetFlipState | app/components/CardList.tsx:55-58 | the flip ref is cleared and the reset key grows by one |
| CardList.Deck.RecountFlags | app/components/CardList.tsx:46-48 | the count is the number of flagged cards |
| CardList.Deck.Load | app/components/CardList.tsx:29-43 | empty input changes nothing; otherwise the deck is the numbered input with its contents kept, cursor 0, filter off, count 0, and the flip reset |
| CardList.Deck.Flag | app/components/CardList.tsx:60-70 | no visible card: nothing changes; cursor past the visible list: the lookup throws and nothing changes; otherwise exactly the current card's flag is toggled, the count moves by one, and the cursor, filter and flip are untouched; in the flagged-only view that card leaves the view |
| CardList.Deck.FlagClamped | app/components/CardList.tsx:60-70 | the corrected handler: the same toggle, with the cursor clamped, so the cursor stays within the visible list |
| CardList.Deck.Shuffle | app/components/CardList.tsx:72-89 | at most one visible card: nothing changes; otherwise the deck is the write-back of the permutation, which is the old deck, with cursor 0 and the flip reset |
| CardList.Deck.Previous | app/components/CardList.tsx:91-97 | no visible card: nothing changes; otherwise the cursor steps back with wrap-around, stays in range, and the flip is reset |
| CardList.Deck.Next | app/components/CardList.tsx:99-105 | no visible card: nothing changes; otherwise the cursor steps on with wrap-around, stays in range, and the flip is reset |
| CardList.Deck.ToggleFlaggedView | app/components/CardList.tsx:107-111 | the filter is negated, the cursor returns to 0, and the flip is reset |
| CardList.Deck.HandleFlipStateChange | app/components/CardList.tsx:114-116 | the flip ref records the side the card reports |
| CardList.Deck.HandleKey | app/components/CardList.tsx:120-131 | ArrowLeft and ArrowRight do nothing on an empty view, and otherwise step the cursor back or on with wrap-around and reset the flip, leaving cards, filter and count alone; "f" toggles the current card's flag (or changes nothing when no card is visible or the lookup throws) and leaves cursor, filter and flip state alone; any other key changes nothing |
| CardList.ToggleFlaggedViewTwice | app/components/CardList.tsx:107-111 | switching the filter twice restores it |
| CardList.UnflagInFlaggedViewSession | app/components/CardList.tsx:60-70 | three cards; flag the second and show flagged only: one card at 1/1; flag it again: the empty-view message |
| CardList.StrandedCursorSession | app/components/CardList.tsx:60-70 | after unflagging the last of two flagged cards in the flagged view, the cursor is past the end of the one-card view and the render reads past the visible list |
| CardList.ClampedCursorSession | app/components/CardList.tsx:60-70 | the same session with the corrected handler shows the remaining flagged card at 1/1 |

## Left out

- Papa.parse (app/components/FileUploader.tsx:35-41) is a foreign CSV parser. It is the parameter `parse`, returning rows and error messages. Its `error` callback (64-66) is left out: for text input it reports only read failures, which are not modelled.
- FileReader (app/components/FileUploader.tsx:25-27, 70-74) is asynchronous I/O. The file's text is a parameter, so "Error reading the file" is not modelled. The `!content` test for a missing result is covered only for the empty string.
- HandleUpload: the success case returns the pairs. The handoff to `onCardsLoaded` and the `setError(null)` reset are not modelled as state.
- The `Math.random() - 0.5` comparator (app/components/CardList.tsx:75) is randomness. `Deck.Shuffle` takes any permutation of the visible cards as a parameter.
- React's batched state updates and effect scheduling are not modelled. Each effect runs at the end of the handler that triggers it.
- Deck.Flag: the remount of the flashcard, when the card under the cursor changes id, is not modelled.
- Deck.Render: after `RenderError` the program unmounts the component, and its cleanup removes the keydown listener. The model's `Deck` state carries on, and `Deck.Flag`'s `thrown` outcome describes `handleFlag` on a state the mounted component never reaches.
- Keyboard listeners are not modelled as DOM plumbing: `preventDefault` for Space, and the Flashcard's own Space and focus checks (app/components/Flashcard.tsx:66-86). The key dispatch itself is `Deck.HandleKey`.
- JSX markup, CSS classes, icons and the KaTeX renderer are presentation. `Render` keeps only which screen is shown and the values it displays.
- General regular-expression semantics are not modelled. Each of the five patterns is a hand-written matcher.
- JsString.Trim uses a fixed whitespace set, without Unicode database lookups.
- app/page.tsx, app/layout.tsx and next.config.js are page glue, fonts and metadata, and build configuration. They are not part of this model.

## Findings

| source | as written | input that shows it | evidently intended | confidence | as-written member | corrected member |
|---|---|---|---|---|---|---|
| app/components/CardList.tsx:78-84 | each shuffled card is written over the slot that already holds the card with its id, so the deck comes out unchanged | cards a, b with unique ids, shuffled to [b, a]: the deck stays [a, b] | the visible cards take the shuffled order in the slots they occupied (the comment at line 77) | high, not executed | CardList.ShuffleWriteBackExample | CardList.ShuffleIntended |
| app/components/CardList.tsx:60-70 | the cursor is not clamped after a flag, so in the flagged-only view unflagging the last visible card leaves the cursor past the end | three cards; flag cards 0 and 1, show flagged only, step to position 2, press "f": one visible card, cursor at index 1, and the render reads `visibleCards[1].id` of an undefined card | the cursor clamped to the shrunken visible list | high, not executed | CardList.StrandedCursorSession | CardList.Deck.FlagClamped |
