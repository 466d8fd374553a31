/** Building a fresh board: getCategory turns each sampled raw clue into a
    clue that is not yet showing anything, and setupAndStart appends one
    category per selected id, in the order of the ids. The HTTP responses and
    the random sampling are inputs here. */
module Construction {
  import opened Board

  /** A clue as the trivia service returns it. */
  datatype RawClue = RawClue(question: string, answer: string)

  /** A category as the trivia service returns it. */
  datatype RawCategory = RawCategory(title: string, clues: seq<RawClue>)

  /** What getCategory obtains for one id: the service's response, and the
      clues that the random sampler picked from it. */
  datatype Fetched = Fetched(response: RawCategory, sampledClues: seq<RawClue>)

  /** The contract of the random sampler: `picked` holds min(k, |pool|)
      elements of `pool`, drawn without replacement. */
  ghost predicate IsSample<T>(pool: seq<T>, k: nat, picked: seq<T>)
  {
    |picked| == (if |pool| < k then |pool| else k) && multiset(picked) <= multiset(pool)
  }

  /** The `.map` of getCategory: each raw clue becomes a clue with the same
      question and answer, showing nothing. */
  function ToClues(raw: seq<RawClue>): (clues: seq<Clue>)
    ensures |clues| == |raw|
    ensures forall i :: 0 <= i < |raw| ==> clues[i].question == raw[i].question && clues[i].answer == raw[i].answer
    ensures forall i :: 0 <= i < |raw| ==> clues[i].showing == Hidden
  {
    if raw == [] then []
    else [Clue(raw[0].question, raw[0].answer, Hidden)] + ToClues(raw[1..])
  }

  /** The category getCategory returns: the response's title and the mapped
      sample of its clues. */
  function GetCategory(f: Fetched): (category: Category)
    ensures category.title == f.response.title
    ensures |category.clues| == |f.sampledClues|
    ensures forall i :: 0 <= i < |f.sampledClues| ==>
      category.clues[i] == Clue(f.sampledClues[i].question, f.sampledClues[i].answer, Hidden)
  {
    Category(f.response.title, ToClues(f.sampledClues))
  }

  /** The board setupAndStart builds from the selected ids: one category per
      id, category i being the one fetched for the i-th id. */
  function Assemble(ids: seq<int>, fetch: int -> Fetched): (board: seq<Category>)
    ensures |board| == |ids|
    ensures forall i :: 0 <= i < |ids| ==> board[i] == GetCategory(fetch(ids[i]))
  {
    if ids == [] then []
    else Assemble(ids[..|ids| - 1], fetch) + [GetCategory(fetch(ids[|ids| - 1]))]
  }

  /** A freshly built board shows nothing yet. */
  lemma AssembledBoardHidden(ids: seq<int>, fetch: int -> Fetched)
    ensures AllHidden(Assemble(ids, fetch))
  {
  }

  /** Every clue of a built category is one of that category's own raw clues
      (question and answer copied), and a category with at least five raw
      clues yields exactly five. */
  lemma SampledCategory(f: Fetched)
    requires IsSample(f.response.clues, NUM_QUESTIONS_PER_CATEGORY, f.sampledClues)
    ensures |f.response.clues| >= NUM_QUESTIONS_PER_CATEGORY ==>
      |GetCategory(f).clues| == NUM_QUESTIONS_PER_CATEGORY
    ensures forall i :: 0 <= i < |GetCategory(f).clues| ==>
      RawClue(GetCategory(f).clues[i].question, GetCategory(f).clues[i].answer) in f.response.clues
  {
    var category := GetCategory(f);
    forall i | 0 <= i < |category.clues|
      ensures RawClue(category.clues[i].question, category.clues[i].answer) in f.response.clues
    {
      var raw := f.sampledClues[i];
      assert raw in multiset(f.sampledClues);
      assert RawClue(category.clues[i].question, category.clues[i].answer) == raw;
    }
  }

  /** A board built from a sample of six ids out of a pool of at least six,
      where every category has at least five raw clues and five are sampled,
      is a full 6 x 5 board of hidden clues whose ids all come from the pool. */
  lemma FullBoard(pool: seq<int>, ids: seq<int>, fetch: int -> Fetched)
    requires |pool| >= NUM_CATEGORIES && IsSample(pool, NUM_CATEGORIES, ids)
    requires forall i :: 0 <= i < |ids| ==>
      |fetch(ids[i]).response.clues| >= NUM_QUESTIONS_PER_CATEGORY &&
      IsSample(fetch(ids[i]).response.clues, NUM_QUESTIONS_PER_CATEGORY, fetch(ids[i]).sampledClues)
    ensures |Assemble(ids, fetch)| == NUM_CATEGORIES
    ensures forall c :: 0 <= c < NUM_CATEGORIES ==>
      |Assemble(ids, fetch)[c].clues| == NUM_QUESTIONS_PER_CATEGORY &&
      Assemble(ids, fetch)[c].title == fetch(ids[c]).response.title
    ensures AllHidden(Assemble(ids, fetch))
    ensures forall i :: 0 <= i < |ids| ==> ids[i] in pool
  {
    AssembledBoardHidden(ids, fetch);
    forall i | 0 <= i < |ids| ensures ids[i] in pool {
      assert ids[i] in multiset(ids);
    }
  }
}
