# Jeopardy board: a Dafny model

A model of the game logic of `jeopardy.js`, a single-page trivia board. The
board is six categories across and five clues down. Every clue starts masked
with "?". A click on a cell shows the clue's question. A second click shows
its answer. Later clicks do nothing. Restarting builds a fresh board from the
categories picked at random from a trivia web service.

The model has four modules:

- `Board` (`board.dfy`): the values. A clue has a question, an answer and a
  `showing` state (null, "question" or "answer"). A category has a title and a
  sequence of clues. `Reveal` is the three-state step that one click makes on
  one clue. Lemmas prove that the state never regresses, that three clicks go
  question, answer, answer, that any number of clicks after the answer change
  nothing, and that a click changes exactly one clue.
- `CellId` (`cell_id.dfy`): the `data-clue-id` tag `${catIdx}-${clueIdx}` that
  fillTable writes, and handleClick's reading of it. The reading splits the tag
  on "-" and uses the first two pieces as array keys. It is proved to be the
  inverse of the encoding. The lemmas also say exactly which strings decode to
  a given coordinate.
- `Construction` (`construction.dfy`): getCategory's mapping of the sampled raw
  clues to hidden clues, and the board that setupAndStart assembles, one
  category per selected id in id order. The HTTP responses and the results of
  lodash's `sampleSize` are inputs to these functions. The sampler's contract
  (k elements drawn without replacement, or all of them when the pool is
  smaller) is a predicate, `IsSample`, used only as a lemma hypothesis.
- `Game` (`game.dfy`): the page state as a class `Jeopardy`. Its fields are
  the global `categories` board, the header row's texts, and the body rows of
  (tag, text) cells. `Valid()` says the table is in sync with the board: the
  header holds the titles in board order, the body has its fixed 5 x 6 layout
  with cell (row r, column c) tagged `c-r`, and every cell shows the text of
  its clue. `FillTable`, `Click` and `SetupAndStart` are methods with the
  source's loops and in-place updates. `Click` and `SetupAndStart` each end
  in a state satisfying `Valid()`. `FillTable` draws a table in sync with a
  board whose clues are all hidden, which is the board `SetupAndStart` gives
  it.

Where the clicked cell names no clue, the source raises a TypeError. This
happens when a category has fewer than five clues, or the board has fewer
than six categories. Nothing changes before it is raised. `Click` models this
as the `TypeError` outcome, with the state unchanged.

## Model

| member | source | states |
|---|---|---|
| `Board.Reveal` | jeopardy.js:118-124 | one click keeps the question and answer; from null or "question" the state moves exactly one step up the order null < "question" < "answer"; at "answer" the clue is left as it is |
| `Board.CellText` | jeopardy.js:118-123 | a cell shows "?" while its clue is hidden (line 99), the question once it shows the question (line 120), the answer once it shows the answer (line 123); the click sequence is specified by `ThreeClicksFromHidden` and `RevealsSettle` |
| `Board.ThreeClicksFromHidden` | jeopardy.js:105-111 | from a fresh clue, three clicks give states question, answer, answer and texts question, answer, answer |
| `Board.RevealsAtAnswer` | jeopardy.js:108-111 | once the answer shows, any number of further clicks leaves the clue unchanged |
| `Board.RevealsMonotone` | jeopardy.js:118-124 | clicks never change a clue's question or answer, and more clicks never give a lower reveal state |
| `Board.RevealsSettle` | jeopardy.js:118-123 | after two or more clicks a clue shows its answer, and its cell text is the answer |
| `Board.SetClue` | jeopardy.js:116-122 | writing one clue of the board gives a board of the same shape, with the same titles and every other clue as it was |
| `Board.ClickChangesOneClue` | jeopardy.js:115-124 | a click at (c, r) keeps every title, every question and every answer, does not lower any state, and changes no clue other than (c, r) |
| `CellId.NatToString` | jeopardy.js:99 | the template renders an index as a canonical decimal numeral (digits only, no leading zero), starting with "0" exactly for 0 |
| `CellId.ParseIndexIff` | jeopardy.js:116 | a string key names array element n exactly when it is n's canonical numeral |
| `CellId.ParseIndex` | jeopardy.js:116 | a key names an element exactly when it is a canonical numeral, and then the named index renders back to the key; both directions are in `ParseIndexIff` |
| `CellId.Split` | jeopardy.js:115 | splitting on "-" gives at least one piece, and no piece contains "-" |
| `CellId.JoinSplit` | jeopardy.js:115 | joining the pieces of the split with "-" gives back the tag |
| `CellId.Encode` | jeopardy.js:99 | the tag `${catIdx}-${clueIdx}` splits on "-" into exactly the two numerals of its coordinates |
| `CellId.Decode` | jeopardy.js:115 | the first two pieces of the split must be canonical numerals, else no element is named; a decoded pair renders back to those two pieces; `DecodeEncode` and `DecodeIff` specify it fully |
| `CellId.DecodeEncode` | jeopardy.js:115 | reading the tag `c-r` that fillTable writes (line 99) gives back (c, r), for all naturals c and r |
| `CellId.EncodeInjective` | jeopardy.js:99 | distinct cells carry distinct tags |
| `CellId.DecodeExtended` | jeopardy.js:115 | pieces after the second are ignored: `c-r-` followed by anything decodes to (c, r) |
| `CellId.DecodeSound` | jeopardy.js:115 | a tag that decodes to (c, r) is `c-r` or starts with `c-r-` |
| `CellId.DecodeIff` | jeopardy.js:115 | both directions of the two lemmas above: the tags that decode to (c, r) are exactly `c-r` and the strings starting with `c-r-` |
| `Construction.ToClues` | jeopardy.js:65-69 | one clue per raw clue, in order, each copying the question and answer with `showing` null |
| `Construction.GetCategory` | jeopardy.js:62-72 | the category has the response's title and one hidden clue per sampled raw clue, in sample order |
| `Construction.Assemble` | jeopardy.js:153-157 | the board has one category per selected id, and category i is the one fetched for the i-th id |
| `Construction.AssembledBoardHidden` | jeopardy.js:153-157 | every clue of a freshly assembled board has `showing` null |
| `Construction.SampledCategory` | jeopardy.js:65-71 | under the sampler's contract, a category with at least five raw clues gets exactly five, and each clue is one of the category's own raw clues |
| `Construction.FullBoard` | jeopardy.js:149-160 | if the id pool has at least six ids and every category has at least five raw clues, the board has six categories of five hidden clues, titled from the responses, with all ids drawn from the pool |
| `Game.ClickKeepsSync` | jeopardy.js:118-123 | advancing the clue at (c, r) and writing its new text into the cell at row r, column c keeps the header, layout and every cell text in sync with the board |
| `Game.Jeopardy.constructor` | jeopardy.js:36 | the page starts with an empty board and an empty table, which are in sync |
| `Game.Jeopardy.FillTable` | jeopardy.js:86-103 | the header has one title per category in board order; the body has five rows of six cells; the cell at row r, column c is tagged `c-r` and shows "?"; the board is unchanged; if every clue of the board is hidden, the table is in sync with it |
| `Game.Jeopardy.Click` | jeopardy.js:113-125 | if the clicked cell's tag names a clue, that clue takes its next reveal state and the clicked cell shows its new text; no other clue, cell or title changes; otherwise a TypeError, with nothing changed; the table stays in sync with the board |
| `Game.Jeopardy.SetupAndStart` | jeopardy.js:149-164 | the old board is replaced by the one assembled from the ids, and the table is redrawn fully masked and in sync |
| `Game.ThreeClicksOnOneCell` | jeopardy.js:105-111 | on a fresh game, three clicks on one cell show question, answer, answer, while the clue's state goes question, answer, answer |
| `Game.ClickOnMissingClue` | jeopardy.js:115-118 | on a fresh game, a click on a cell whose category or clue is missing raises, and the cell still shows "?" |

## Left out

- The HTTP calls to the trivia service (getCategoryIds, and the request in getCategory). They are network I/O. Their results are inputs: the selected ids, and `fetch`, which maps each id to the response and the sampled clues. Network failures are not modelled; in the source they propagate uncaught.
- Assemble: `fetch` is a function of the id, so an id selected twice would get the same response and the same sample both times. In the source every getCategory call makes its own request and draws its own sample. This only matters for repeated ids, and `sampleSize` picks distinct positions of the service's id listing, so ids repeat only if that listing does.
- lodash `sampleSize`. It is a randomised library call. Its outputs are inputs here, and its contract is the predicate `IsSample`, used only as a hypothesis of `SampledCategory` and `FullBoard`.
- getCategoryIds' extraction of ids from the category listing (`.map(category => category.id)`). This is part of the same network result, so the selected ids are taken as given.
- jQuery DOM building, emptying and event wiring. The table is a header row of texts and body rows of (tag, text) cells. The clicked element is identified by its body row and column.
- The loading spinner views and the `console.log` calls. These are display side effects only.
- The async/await ordering of setupAndStart. `SetupAndStart` runs as one step, so the window in which a restart has emptied `categories` while the old table is still clickable is not modelled. Neither is the race between two restarts in flight.
- Array lookup with a tag piece that is not a canonical index (for example "length"). The source looks up a property of that name. The model treats such a piece as naming no element. Every tag the model's table holds is canonical, so this cannot arise from a click.
- Answers that the service returns as numbers. jQuery's `text` would turn them into strings; here all texts are strings.
