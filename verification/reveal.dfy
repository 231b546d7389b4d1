/** The per-cell reveal state machine of the trivia board.

A body cell of the board keeps its reveal state in its DOM `id`: "clue" while
hidden, then "question", then "answer". A click moves a cell one step forward
and a click on an answered cell is ignored. This module gives the state machine
twice: once on an abstract three-state datatype, and once literally on the id
strings the page stores, and proves that the two agree.
 */
module Reveal {

  datatype Option<T> = None | Some(value: T)

  /** Where a cell is in its reveal: tagged "clue", then "question", then "answer".
      The cell's text stays "?" in every state. */
  datatype RevealState = Clue | Question | Answer

  /** How far along its reveal a cell is. */
  function Rank(s: RevealState): nat
  {
    match s
    case Clue => 0
    case Question => 1
    case Answer => 2
  }

  const ClueId: string := "clue"
  const QuestionId: string := "question"
  const AnswerId: string := "answer"

  /** The DOM id that tags a cell in state `s`. */
  function Id(s: RevealState): string
  {
    match s
    case Clue => ClueId
    case Question => QuestionId
    case Answer => AnswerId
  }

  /** Reads a cell's reveal state back from its DOM id; any other id is no state. */
  function FromId(id: string): (r: Option<RevealState>)
    ensures r.Some? ==> Id(r.value) == id
    ensures r.None? ==> forall s :: Id(s) != id
  {
    if id == ClueId then Some(Clue)
    else if id == QuestionId then Some(Question)
    else if id == AnswerId then Some(Answer)
    else None
  }

  /** Distinct states carry distinct ids, so the id is a faithful tag. */
  lemma IdInjective(s: RevealState, t: RevealState)
    ensures Id(s) == Id(t) <==> s == t
  {
  }

  /** Every state survives the trip through its DOM id. */
  lemma IdRoundTrip(s: RevealState)
    ensures FromId(Id(s)) == Some(s)
  {
  }

  /** One click on a cell: a hidden clue is retagged question, a question is
      retagged answer, and an answer ignores the click. */
  function Click(s: RevealState): (r: RevealState)
    ensures Rank(r) == if Rank(s) < 2 then Rank(s) + 1 else 2
    ensures r != Clue
    ensures r == s <==> s == Answer
  {
    match s
    case Clue => Question
    case Question => Answer
    case Answer => Answer
  }

  /** The click handler as the page runs it, on the raw id of the clicked cell:
      "clue" becomes "question", "question" becomes "answer", anything else
      is left alone. */
  function HandleClick(id: string): (r: string)
    ensures FromId(id).Some? ==> FromId(r) == Some(Click(FromId(id).value))
    ensures FromId(id).None? ==> r == id
    ensures r == id <==> id != ClueId && id != QuestionId
  {
    if id == ClueId then QuestionId
    else if id == QuestionId then AnswerId
    else id
  }

  /** The handler on ids and the abstract transition agree on every state. */
  lemma HandleClickRefinesClick(s: RevealState)
    ensures HandleClick(Id(s)) == Id(Click(s))
  {
  }

  /** The state after `n` successive clicks. */
  function ClickN(s: RevealState, n: nat): (r: RevealState)
    ensures Rank(s) <= Rank(r)
    ensures n >= 1 ==> r != Clue
    ensures s == Answer ==> r == Answer
    decreases n
  {
    if n == 0 then s else ClickN(Click(s), n - 1)
  }

  /** `n` clicks advance a cell by `n` steps, capped at the answer. */
  lemma ClickNRank(s: RevealState, n: nat)
    ensures Rank(ClickN(s, n)) == if Rank(s) + n < 2 then Rank(s) + n else 2
    decreases n
  {
  }

  /** After two clicks every cell is in the Answer state, and further clicks change nothing. */
  lemma TwoClicksReachAnswer(s: RevealState, n: nat)
    requires n >= 2
    ensures ClickN(s, n) == Answer
  {
  }

  /** Clicks compose: `m` clicks followed by `n` clicks are `m + n` clicks. */
  lemma ClickNAdd(s: RevealState, m: nat, n: nat)
    ensures ClickN(ClickN(s, m), n) == ClickN(s, m + n)
    decreases m
  {
  }

  /** The states a cell passes through under `n` successive clicks, one per click. */
  function Trace(s: RevealState, n: nat): (r: seq<RevealState>)
    ensures |r| == n
    ensures forall i :: 0 <= i < n ==> r[i] == ClickN(s, i + 1)
    decreases n
  {
    if n == 0 then [] else [Click(s)] + Trace(Click(s), n - 1)
  }

  /** The reveal only ever moves forward along a trace. */
  lemma TraceMonotone(s: RevealState, n: nat, i: nat, j: nat)
    requires i <= j < n
    ensures Rank(Trace(s, n)[i]) <= Rank(Trace(s, n)[j])
  {
  }

  /** From a hidden clue, three clicks give the Question state, then the Answer
      state, then the Answer state again. */
  lemma ThreeClicksFromClue()
    ensures Trace(Clue, 3) == [Question, Answer, Answer]
  {
  }

  /** Once a trace leaves the hidden clue it never comes back to it. */
  lemma TraceNeverHidden(s: RevealState, n: nat)
    ensures Clue !in Trace(s, n)
  {
  }
}
