# Jeopardy board: reveal state machine

This project models the client-side core of a jQuery trivia board. When
`fillTable` is called, it builds a table. Its header row has one cell per
category. Its body has `NUM_CLUES_PER_CAT` rows of six clue cells, each showing
"?". Clicks on clue cells are delegated from the board to `handleClick`
(jeopardy.js:149). Nothing in the file calls `fillTable` yet: the functions
meant to set up the board are empty (jeopardy.js:163-178). The model therefore
takes one call of `fillTable` on an empty board as the starting point.

A clue cell keeps its reveal state in its DOM `id`:

- a click on a cell tagged "clue" retags it "question";
- a click on a cell tagged "question" retags it "answer";
- any other click is ignored.

The model has four modules:

- `Reveal` (reveal.dfy) gives the per-cell machine in two forms: on a three-state datatype (`Clue`, `Question`, `Answer`), and literally on id strings (`HandleClick`). It proves the two agree. It also covers repeated clicks (`ClickN`, `Trace`).
- `Decimal` (decimal.dfy) models the decimal text that the header cells' ids and labels are rendered as.
- `Grid` (grid.dfy) is the board's clue cells as `seq<seq<RevealState>>`. It covers a single-cell click (`ClickAt`) and runs of clicks (`ApplyClicks`).
- `Board` (board.dfy) is the table as the page holds it. Each cell has a class set, an id and a text. The module builds the initial table with the two loops of `fillTable`, and dispatches clicks only to cells with the class "clue". It proves that board-level clicks refine grid-level clicks.

Where the source's doc comments and its code differ, the model follows the code:

- The doc comment of `handleClick` (jeopardy.js:129-135) says a click shows the question and then the answer. The code only changes the cell's id: the text stays "?" (jeopardy.js:140, 143). The model therefore emits no text. `Board.FreshBoardAfterClicks` proves every clue cell still shows "?" after any run of clicks.
- The doc comments at jeopardy.js:152-175 describe showing and hiding a loading view and setting up and starting a game. Apart from `showLoadingView`, these functions are empty (jeopardy.js:163-178), so the model has no game start or restart.

In `handleClick`, the id is read from the event target and written to `closest("td")`. A clue cell holds only the text "?", so the target is the cell itself. The model uses one cell for both.

## Model

| member | source | states |
|---|---|---|
| Reveal.FromId | jeopardy.js:139-147 | a cell's id names a reveal state exactly when it is one of "clue", "question", "answer", and that state's id is the id read |
| Reveal.IdInjective | jeopardy.js:139-143 | the three tags are distinct, so a tag identifies the state |
| Reveal.Click | jeopardy.js:129-135 | a click advances a clue to question and a question to answer, never yields a hidden clue, and leaves a cell unchanged exactly when it is already tagged "answer" |
| Reveal.HandleClick | jeopardy.js:137-148 | on the raw id, the handler performs one reveal step on a state tag and leaves every other id untouched; the id changes iff it was "clue" or "question" |
| Reveal.HandleClickRefinesClick | jeopardy.js:137-148 | the id-level handler and the abstract transition commute with the tagging, for every state |
| Reveal.ClickN | jeopardy.js:131-134 | successive clicks never move a cell backward, one or more clicks never leave it hidden, and an answered cell stays answered |
| Reveal.ClickNRank | jeopardy.js:137-148 | `n` clicks advance a cell exactly `n` steps, capped at the answer |
| Reveal.TwoClicksReachAnswer | jeopardy.js:145-147 | from any state, two or more clicks reach the answer, after which clicks are ignored |
| Reveal.ClickNAdd | jeopardy.js:137-148 | `m` clicks followed by `n` clicks equal `m + n` clicks |
| Reveal.Trace | jeopardy.js:131-134 | the trace of `n` clicks has one entry per click, the state after that many clicks |
| Reveal.TraceMonotone | jeopardy.js:131-134 | along a trace, a later state is never behind an earlier one |
| Reveal.ThreeClicksFromClue | jeopardy.js:131-134 | from a hidden clue, three clicks give question, answer, answer |
| Reveal.TraceNeverHidden | jeopardy.js:137-148 | no state reached by a click is the hidden clue |
| Decimal.FromNat | jeopardy.js:111 | the decimal text of a number, as interpolated for the small header indices, is a non-empty digit string without leading zeros |
| Decimal.RoundTrip | jeopardy.js:111 | reading back the decimal text of a number gives the number |
| Decimal.Injective | jeopardy.js:111 | different numbers have different decimal texts |
| Grid.ClickAt | jeopardy.js:138-144 | a click keeps the grid's shape, advances the clicked cell one step, keeps every other cell, and off the grid changes nothing |
| Grid.ClickAnsweredIsNoOp | jeopardy.js:145-147 | a click on an answered cell leaves the whole grid equal to what it was |
| Grid.ClicksCommute | jeopardy.js:140-143 | clicks on any two cells give the same grid in either order |
| Grid.ApplyClicks | jeopardy.js:149 | a run of clicks keeps the grid's shape |
| Grid.ApplyClicksCell | jeopardy.js:137-149 | after a run of clicks each cell is in the state its own click count takes it to, from its starting state |
| Grid.ApplyClicksForward | jeopardy.js:137-149 | no run of clicks moves a cell backward or hides a revealed cell again |
| Grid.ApplyClicksUntouched | jeopardy.js:140-143 | a cell the run never clicks keeps its state |
| Board.States | jeopardy.js:118 | the grid of states has the body's shape and each state's tag is the cell's id |
| Board.FillTable | jeopardy.js:100-127 | the table has `NUM_CATEGORIES` classless header cells with pairwise distinct ids; cell `i` has id `i` and label `i+1`. It has `NUM_CLUES_PER_CAT` rows of `NUM_CATEGORIES` cells. Every body cell has class "clue", id "clue" and text "?", so every state starts hidden |
| Board.Dispatch | jeopardy.js:137-149 | a cell without the clue class never receives the click; a clue cell with a reveal-state id advances one step, and one with any other id is left unchanged; class and text always stay |
| Board.OnClick | jeopardy.js:137-149 | a click changes at most the targeted cell, through the delegated handler, and keeps the table's shape |
| Board.OnClickRefinesClickAt | jeopardy.js:137-149 | on a playable board, a header click changes nothing, a body click keeps the board playable and is one reveal step at that cell of the state grid |
| Board.OnClickAnsweredIsNoOp | jeopardy.js:145-147 | a click on a cell tagged "answer" leaves the table identical |
| Board.Run | jeopardy.js:149 | a run of delegated clicks keeps the header's length and the body's shape |
| Board.BodyClicks | jeopardy.js:149 | a position is among the body clicks of a run exactly when the run clicks that body cell, and it occurs there as many times as the run clicks it |
| Board.RunRefinesApplyClicks | jeopardy.js:137-149 | any run of clicks keeps the board playable and the header intact, and moves the states as the same body clicks move the grid |
| Board.FreshBoardAfterClicks | jeopardy.js:115-149 | on a freshly filled board, after any run of clicks, each clue cell keeps its class and its "?" and is in the state that the number of clicks the run made on it takes a hidden clue to |

## Left out

- `getCategoryIds` and `getCategory` (jeopardy.js:42-86) fetch categories and clues over HTTP. That is network I/O, so they are not modelled.
- The random choice of six category ids with `_.sampleSize` (jeopardy.js:52) is not modelled: it is randomised, and the library is not part of this model.
- Calling `fillTable` is not modelled: nothing in the file calls it, because `setupGameBoard` and `setupAndStart` (jeopardy.js:172-178) are empty and no start handler is bound (jeopardy.js:187).
- Board.FillTable: models one call on a board that holds no table yet. The source appends to `#game-board` and looks up `#catagories` and `#clues` in the whole document (jeopardy.js:101, 111, 116). A second call would therefore add 6 more header cells and 5 more rows to the first table's. The model does not cover that case.
- The markup strings built by `fillTable` and `showLoadingView` are not modelled. The model keeps only what the markup produces: each cell's class, id and text, and the table's shape.
- `hideLoadingView`, `setupGameBoard` and `setupAndStart` (jeopardy.js:163-178) are empty, so the model has no game lifecycle.
- Question and answer text, and any sanitising of it, are not modelled: the code never displays them.
- The `console.log` calls in the handler (jeopardy.js:141, 144) only write debug output.
- Decimal.FromNat: agrees with JavaScript's number-to-text conversion only for the small indices the header uses; the exponent form JavaScript uses from 1e21 on is not modelled.
- Event bubbling from a child element of a cell is not modelled: clue cells have no children, so the click target is always the cell.
