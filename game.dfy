/** The page state of jeopardy.js: the global `categories` board and the
    table that shows it (one header row of titles, a body of tagged cells),
    with the three operations that change them: fillTable, handleClick and
    setupAndStart. */
module Game {
  import opened Board
  import opened CellId
  import opened Construction

  /** A body cell: its `data-clue-id` tag and its displayed text. */
  datatype Cell = Cell(id: string, text: string)

  /** How a click handler call ends: normally, or with the TypeError that
      looking up a missing category or clue raises. */
  datatype ClickOutcome = Handled | TypeError

  /** The text the cell at body row `r`, column `c` shows for this board:
      the clue's current text, or the mask where the board has no clue. */
  function ExpectedText(board: seq<Category>, c: nat, r: nat): string
  {
    if HasClue(board, c, r) then CellText(board[c].clues[r]) else MASK
  }

  /** One title per category, in board order. */
  ghost predicate IsHeader(header: seq<string>, board: seq<Category>)
  {
    |header| == |board| && forall i :: 0 <= i < |board| ==> header[i] == board[i].title
  }

  /** NUM_QUESTIONS_PER_CATEGORY rows of NUM_CATEGORIES cells; the cell in row
      r (a clue index) and column c (a category index) is tagged `c-r`. */
  ghost predicate IsLayout(body: seq<seq<Cell>>)
  {
    && |body| == NUM_QUESTIONS_PER_CATEGORY
    && (forall r :: 0 <= r < |body| ==> |body[r]| == NUM_CATEGORIES)
    && (forall r, c :: 0 <= r < |body| && 0 <= c < |body[r]| ==> body[r][c].id == Encode(c, r))
  }

  /** The table is in sync with the board: the header holds the titles,
      the body (once drawn) has its fixed layout, and every cell shows the
      text of the clue its tag names. */
  ghost predicate InSync(board: seq<Category>, header: seq<string>, body: seq<seq<Cell>>)
  {
    && IsHeader(header, board)
    && (body == [] || IsLayout(body))
    && forall r, c :: 0 <= r < |body| && 0 <= c < |body[r]| ==> body[r][c].text == ExpectedText(board, c, r)
  }

  /** Advancing the clue at (col, row) and showing its new text in the cell
      at (row, col) keeps the table in sync with the board. */
  lemma ClickKeepsSync(board: seq<Category>, header: seq<string>, body: seq<seq<Cell>>, row: nat, col: nat)
    requires InSync(board, header, body)
    requires row < |body| && col < |body[row]| && HasClue(board, col, row)
    ensures var next := Reveal(board[col].clues[row]);
      InSync(SetClue(board, col, row, next), header, body[row := body[row][col := body[row][col].(text := CellText(next))]])
  {
  }

  class Jeopardy {
    /** The board: `categories` in the source. */
    var categories: seq<Category>
    /** The text of the header row's cells. */
    var header: seq<string>
    /** The body rows of the table. */
    var body: seq<seq<Cell>>

    /** The object invariant: the table is in sync with the board. */
    ghost predicate Valid()
      reads this
    {
      InSync(categories, header, body)
    }

    /** The page before the first game: no board and an empty table. */
    constructor ()
      ensures Valid()
      ensures categories == [] && header == [] && body == []
    {
      categories, header, body := [], [], [];
    }

    /** fillTable: empty the table, write one header cell per category title,
        then NUM_QUESTIONS_PER_CATEGORY rows of NUM_CATEGORIES masked cells. */
    method FillTable()
      modifies this
      ensures categories == old(categories)
      ensures IsHeader(header, categories)
      ensures IsLayout(body)
      ensures forall r, c :: 0 <= r < |body| && 0 <= c < |body[r]| ==> body[r][c].text == MASK
      ensures AllHidden(categories) ==> Valid()
    {
      header, body := [], [];

      var titles: seq<string> := [];
      for i := 0 to |categories|
        invariant |titles| == i
        invariant forall k :: 0 <= k < i ==> titles[k] == categories[k].title
      {
        titles := titles + [categories[i].title];
      }
      header := titles;

      for clueIdx := 0 to NUM_QUESTIONS_PER_CATEGORY
        invariant categories == old(categories) && header == titles
        invariant |body| == clueIdx
        invariant forall r :: 0 <= r < clueIdx ==> |body[r]| == NUM_CATEGORIES
        invariant forall r, c :: 0 <= r < clueIdx && 0 <= c < NUM_CATEGORIES ==> body[r][c] == Cell(Encode(c, r), MASK)
      {
        var tr: seq<Cell> := [];
        for catIdx := 0 to NUM_CATEGORIES
          invariant |tr| == catIdx
          invariant forall c :: 0 <= c < catIdx ==> tr[c] == Cell(Encode(c, clueIdx), MASK)
        {
          tr := tr + [Cell(Encode(catIdx, clueIdx), MASK)];
        }
        body := body + [tr];
      }
    }

    /** handleClick on the body cell at (`row`, `col`): read the cell's tag,
        look up the clue it names, advance that clue's reveal state, and show
        the question or the answer in the clicked cell. A tag naming no clue
        raises a TypeError before anything changes. */
    method Click(row: nat, col: nat) returns (outcome: ClickOutcome)
      requires Valid()
      requires row < |body| && col < |body[row]|
      modifies this
      ensures Valid()
      ensures header == old(header)
      ensures outcome == Handled <==> HasClue(old(categories), col, row)
      ensures outcome == Handled ==>
        && categories == SetClue(old(categories), col, row, Reveal(old(categories)[col].clues[row]))
        && body == old(body)[row := old(body)[row][col := Cell(old(body)[row][col].id, CellText(categories[col].clues[row]))]]
      ensures outcome == TypeError ==> categories == old(categories) && body == old(body)
    {
      var target := body[row][col];
      DecodeEncode(col, row);
      var decoded := Decode(target.id);
      var catId, clueId := decoded.value.0, decoded.value.1;

      if catId < |categories| && clueId < |categories[catId].clues| {
        var clue := categories[catId].clues[clueId];
        ClickKeepsSync(categories, header, body, row, col);
        if clue.showing == Hidden {
          categories := SetClue(categories, catId, clueId, clue.(showing := ShowingQuestion));
          body := body[row := body[row][col := target.(text := clue.question)]];
        } else if clue.showing == ShowingQuestion {
          categories := SetClue(categories, catId, clueId, clue.(showing := ShowingAnswer));
          body := body[row := body[row][col := target.(text := clue.answer)]];
        } else {
          SetClueSame(categories, catId, clueId);
          assert body[row][col := Cell(target.id, CellText(clue))] == body[row];
        }
        outcome := Handled;
      } else {
        outcome := TypeError;
      }
    }

    /** setupAndStart, given the selected category ids and what fetching each
        one yields: rebuild the board from scratch, one category per id in id
        order, and redraw the table. Whatever board was there before is gone. */
    method SetupAndStart(categoryIds: seq<int>, fetch: int -> Fetched)
      modifies this
      ensures Valid()
      ensures categories == Assemble(categoryIds, fetch)
      ensures IsHeader(header, categories) && IsLayout(body)
      ensures forall r, c :: 0 <= r < |body| && 0 <= c < |body[r]| ==> body[r][c].text == MASK
    {
      categories := [];
      for i := 0 to |categoryIds|
        invariant categories == Assemble(categoryIds[..i], fetch)
      {
        assert categoryIds[..i + 1][..i] == categoryIds[..i];
        categories := categories + [GetCategory(fetch(categoryIds[i]))];
      }
      assert categoryIds[..|categoryIds|] == categoryIds;
      FillTable();
      AssembledBoardHidden(categoryIds, fetch);
    }
  }

  /** A fresh game, then three clicks on the cell in row `r`, column `c`:
      the cell shows the clue's question, then its answer, then still its
      answer, while the clue's state goes question, answer, answer. */
  method ThreeClicksOnOneCell(categoryIds: seq<int>, fetch: int -> Fetched, c: nat, r: nat)
    returns (shown: seq<string>, states: seq<Showing>)
    requires c < NUM_CATEGORIES && r < NUM_QUESTIONS_PER_CATEGORY
    requires c < |categoryIds| && r < |fetch(categoryIds[c]).sampledClues|
    ensures var raw := fetch(categoryIds[c]).sampledClues[r];
      && shown == [raw.question, raw.answer, raw.answer]
      && states == [ShowingQuestion, ShowingAnswer, ShowingAnswer]
  {
    var game := new Jeopardy();
    game.SetupAndStart(categoryIds, fetch);
    ghost var raw := fetch(categoryIds[c]).sampledClues[r];
    assert game.categories[c].clues[r] == Clue(raw.question, raw.answer, Hidden);
    assert IsLayout(game.body);

    var first := game.Click(r, c);
    assert game.categories[c].clues[r] == Clue(raw.question, raw.answer, ShowingQuestion);
    var firstText, firstState := game.body[r][c].text, game.categories[c].clues[r].showing;

    var second := game.Click(r, c);
    assert game.categories[c].clues[r] == Clue(raw.question, raw.answer, ShowingAnswer);
    var secondText, secondState := game.body[r][c].text, game.categories[c].clues[r].showing;

    var third := game.Click(r, c);
    var thirdText, thirdState := game.body[r][c].text, game.categories[c].clues[r].showing;

    shown := [firstText, secondText, thirdText];
    states := [firstState, secondState, thirdState];
  }

  /** A click on a cell whose category or clue the board lacks (a category
      with fewer than NUM_QUESTIONS_PER_CATEGORY clues, a board with fewer
      than NUM_CATEGORIES categories) raises and leaves everything as it was. */
  method ClickOnMissingClue(categoryIds: seq<int>, fetch: int -> Fetched, c: nat, r: nat)
    returns (outcome: ClickOutcome, text: string)
    requires c < NUM_CATEGORIES && r < NUM_QUESTIONS_PER_CATEGORY
    requires c >= |categoryIds| || r >= |fetch(categoryIds[c]).sampledClues|
    ensures outcome == TypeError && text == MASK
  {
    var game := new Jeopardy();
    game.SetupAndStart(categoryIds, fetch);
    outcome := game.Click(r, c);
    text := game.body[r][c].text;
  }
}
