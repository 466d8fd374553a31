/** The in-memory game board of jeopardy.js: categories of clues, and the
    three-state reveal machine that a click drives on one clue. */
module Board {

  /** Board dimensions: 6 categories across, 5 questions down. */
  const NUM_CATEGORIES: nat := 6
  const NUM_QUESTIONS_PER_CATEGORY: nat := 5

  /** What a cell shows before its clue has been clicked. */
  const MASK: string := "?"

  /** The `showing` property of a clue: null, "question" or "answer". */
  datatype Showing = Hidden | ShowingQuestion | ShowingAnswer

  datatype Clue = Clue(question: string, answer: string, showing: Showing)

  datatype Category = Category(title: string, clues: seq<Clue>)

  /** Progress of a reveal state: it only ever moves up this order. */
  function Rank(s: Showing): nat
  {
    match s
    case Hidden => 0
    case ShowingQuestion => 1
    case ShowingAnswer => 2
  }

  /** One click on a clue: null becomes "question", "question" becomes
      "answer", and an answer is left alone (there is no else branch). */
  function Reveal(clue: Clue): (next: Clue)
    ensures next.question == clue.question && next.answer == clue.answer
    ensures clue.showing != ShowingAnswer ==> Rank(next.showing) == Rank(clue.showing) + 1
    ensures clue.showing == ShowingAnswer ==> next == clue
  {
    match clue.showing
    case Hidden => clue.(showing := ShowingQuestion)
    case ShowingQuestion => clue.(showing := ShowingAnswer)
    case ShowingAnswer => clue
  }

  /** The text a cell holding this clue displays: the mask until the first
      click, then the question, then the answer. */
  function CellText(clue: Clue): (text: string)
    ensures clue.showing != Hidden ==> text == (if Rank(clue.showing) == 1 then clue.question else clue.answer)
  {
    match clue.showing
    case Hidden => MASK
    case ShowingQuestion => clue.question
    case ShowingAnswer => clue.answer
  }

  /** `n` clicks in a row on the same clue. */
  function Reveals(clue: Clue, n: nat): Clue
    decreases n
  {
    if n == 0 then clue else Reveals(Reveal(clue), n - 1)
  }

  /** From a fresh clue, three clicks give the state trajectory question,
      answer, answer and the text trajectory question, answer, answer. */
  lemma ThreeClicksFromHidden(clue: Clue)
    requires clue.showing == Hidden
    ensures Reveal(clue).showing == ShowingQuestion && CellText(Reveal(clue)) == clue.question
    ensures Reveal(Reveal(clue)).showing == ShowingAnswer && CellText(Reveal(Reveal(clue))) == clue.answer
    ensures Reveal(Reveal(Reveal(clue))) == Reveal(Reveal(clue))
  {
  }

  /** Once the answer shows, any number of further clicks changes nothing. */
  lemma {:induction false} RevealsAtAnswer(clue: Clue, n: nat)
    requires clue.showing == ShowingAnswer
    ensures Reveals(clue, n) == clue
  {
    if n > 0 {
      RevealsAtAnswer(Reveal(clue), n - 1);
    }
  }

  /** Clicks never change the clue's question or answer, and the reveal
      state never regresses: more clicks never show less. */
  lemma {:induction false} RevealsMonotone(clue: Clue, m: nat, n: nat)
    requires m <= n
    ensures Reveals(clue, n).question == clue.question && Reveals(clue, n).answer == clue.answer
    ensures Rank(Reveals(clue, m).showing) <= Rank(Reveals(clue, n).showing)
    decreases n
  {
    if m == 0 {
      if n > 0 {
        RevealsMonotone(Reveal(clue), 0, n - 1);
      }
    } else {
      RevealsMonotone(Reveal(clue), m - 1, n - 1);
    }
  }

  /** After two or more clicks every clue shows its answer. */
  lemma {:induction false} RevealsSettle(clue: Clue, n: nat)
    requires n >= 2
    ensures Reveals(clue, n).showing == ShowingAnswer
    ensures CellText(Reveals(clue, n)) == clue.answer
  {
    var settled := Reveal(Reveal(clue));
    assert settled.showing == ShowingAnswer;
    assert Reveals(clue, n) == Reveals(settled, n - 2) by {
      assert Reveals(clue, n) == Reveals(Reveal(clue), n - 1);
    }
    RevealsAtAnswer(settled, n - 2);
  }

  /** Every clue of every category is still hidden. */
  ghost predicate AllHidden(board: seq<Category>)
  {
    forall c, r :: 0 <= c < |board| && 0 <= r < |board[c].clues| ==> board[c].clues[r].showing == Hidden
  }

  /** The board has a clue at column `c`, row `r`. */
  predicate HasClue(board: seq<Category>, c: nat, r: nat)
  {
    c < |board| && r < |board[c].clues|
  }

  /** The board with the clue at (c, r) replaced, and nothing else. */
  function SetClue(board: seq<Category>, c: nat, r: nat, clue: Clue): (result: seq<Category>)
    requires HasClue(board, c, r)
    ensures |result| == |board| && HasClue(result, c, r) && result[c].clues[r] == clue
    ensures forall i :: 0 <= i < |board| ==> result[i].title == board[i].title && |result[i].clues| == |board[i].clues|
    ensures forall i, j :: 0 <= i < |board| && 0 <= j < |board[i].clues| && (i, j) != (c, r) ==> result[i].clues[j] == board[i].clues[j]
  {
    board[c := board[c].(clues := board[c].clues[r := clue])]
  }

  /** Putting back the clue that is already there changes nothing. */
  lemma SetClueSame(board: seq<Category>, c: nat, r: nat)
    requires HasClue(board, c, r)
    ensures SetClue(board, c, r, board[c].clues[r]) == board
  {
    assert board[c].clues[r := board[c].clues[r]] == board[c].clues;
  }

  /** A click changes exactly one clue: its reveal state advances, and every
      title, every question and answer, and every other clue stays as it was. */
  lemma ClickChangesOneClue(board: seq<Category>, c: nat, r: nat)
    requires HasClue(board, c, r)
    ensures var after := SetClue(board, c, r, Reveal(board[c].clues[r]));
      && |after| == |board|
      && (forall i :: 0 <= i < |board| ==> after[i].title == board[i].title && |after[i].clues| == |board[i].clues|)
      && (forall i, j :: 0 <= i < |board| && 0 <= j < |board[i].clues| ==>
            after[i].clues[j].question == board[i].clues[j].question &&
            after[i].clues[j].answer == board[i].clues[j].answer &&
            Rank(after[i].clues[j].showing) >= Rank(board[i].clues[j].showing) &&
            ((i, j) != (c, r) ==> after[i].clues[j] == board[i].clues[j]))
  {
  }
}
