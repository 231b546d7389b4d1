/** The game board as the page builds it and as clicks change it.

`FillTable` lays out a header row with one cell per category and
`NUM_CLUES_PER_CAT` body rows of six clue cells each. Clicks are delegated
from the board to cells carrying the class "clue", and reach the handler that
retags the cell's id. The handler changes nothing but the id: every clue cell
keeps showing "?" and keeps its class, so it keeps receiving clicks.
 */
module Board {
  import opened Reveal
  import opened Grid
  import Decimal

  const NUM_CATEGORIES: nat := 6
  const NUM_CLUES_PER_CAT: nat := 5

  /** The class that the click delegation selects on. */
  const ClueClass: string := "clue"
  /** The text every clue cell shows. */
  const Placeholder: string := "?"

  /** A table cell: its class list, its DOM id and its text. */
  datatype Cell = Cell(classes: set<string>, id: string, text: string)

  /** The header row and the body rows of the board's table. */
  datatype Table = Table(header: seq<Cell>, body: seq<seq<Cell>>)

  /** What a click lands on: a header cell, or a body cell at a row and column. */
  datatype Target = HeaderAt(col: int) | BodyAt(pos: Pos)

  const BlankClue: Cell := Cell({ClueClass}, ClueId, Placeholder)

  /** One body row: six clue cells, written out one by one as the markup does. */
  const ClueRow: seq<Cell> := [BlankClue, BlankClue, BlankClue, BlankClue, BlankClue, BlankClue]

  predicate InBody(t: Table, p: Pos)
  {
    0 <= p.row < |t.body| && 0 <= p.col < |t.body[p.row]|
  }

  /** A board a game can be played on: no header cell takes part in the click
      delegation, and every body cell does, shows "?", and carries a reveal-state id. */
  predicate Playable(t: Table)
  {
    && (forall i :: 0 <= i < |t.header| ==> ClueClass !in t.header[i].classes)
    && (forall r, c :: 0 <= r < |t.body| && 0 <= c < |t.body[r]| ==>
          && t.body[r][c].classes == {ClueClass}
          && t.body[r][c].text == Placeholder
          && FromId(t.body[r][c].id).Some?)
  }

  /** The reveal states that the body cells' ids encode. */
  function States(t: Table): (g: Grid)
    requires Playable(t)
    ensures |g| == |t.body|
    ensures forall r :: 0 <= r < |g| ==> |g[r]| == |t.body[r]|
    ensures forall p :: InGrid(g, p) ==> Id(g[p.row][p.col]) == t.body[p.row][p.col].id
  {
    seq(|t.body|, r requires 0 <= r < |t.body| =>
      seq(|t.body[r]|, c requires 0 <= c < |t.body[r]| => FromId(t.body[r][c].id).value))
  }

  /** Builds the board: a header cell per category, tagged with the category's
      index and labelled with the index plus one, then the rows of hidden clues. */
  method FillTable() returns (t: Table)
    ensures |t.header| == NUM_CATEGORIES
    ensures forall i :: 0 <= i < |t.header| ==>
              && t.header[i].classes == {}
              && t.header[i].id == [Decimal.DigitChar(i)]
              && t.header[i].text == [Decimal.DigitChar(i + 1)]
    ensures forall i, j :: 0 <= i < j < |t.header| ==> t.header[i].id != t.header[j].id
    ensures |t.body| == NUM_CLUES_PER_CAT
    ensures forall r :: 0 <= r < |t.body| ==> |t.body[r]| == NUM_CATEGORIES
    ensures forall r, c :: 0 <= r < |t.body| && 0 <= c < |t.body[r]| ==>
              t.body[r][c].classes == {ClueClass} && t.body[r][c].id == ClueId && t.body[r][c].text == Placeholder
    ensures Playable(t)
    ensures Uniform(States(t), NUM_CLUES_PER_CAT, NUM_CATEGORIES, Clue)
  {
    var header: seq<Cell> := [];
    for i := 0 to NUM_CATEGORIES
      invariant |header| == i
      invariant forall k :: 0 <= k < i ==>
                  && header[k].classes == {}
                  && header[k].id == [Decimal.DigitChar(k)]
                  && header[k].text == [Decimal.DigitChar(k + 1)]
    {
      Decimal.SingleDigit(i);
      Decimal.SingleDigit(i + 1);
      header := header + [Cell({}, Decimal.FromNat(i), Decimal.FromNat(i + 1))];
    }
    var body: seq<seq<Cell>> := [];
    for i := 0 to NUM_CLUES_PER_CAT
      invariant |body| == i
      invariant forall k :: 0 <= k < i ==> body[k] == ClueRow
    {
      body := body + [ClueRow];
    }
    t := Table(header, body);
    forall i, j | 0 <= i < j < |t.header|
      ensures t.header[i].id != t.header[j].id
    {
      assert t.header[i].id[0] != t.header[j].id[0];
    }
  }

  /** The delegated click handler on one cell: only a cell with the clue class
      receives the click, and then its id is advanced; class and text stay. */
  function Dispatch(cell: Cell): (r: Cell)
    ensures r.classes == cell.classes && r.text == cell.text
    ensures ClueClass !in cell.classes ==> r == cell
    ensures ClueClass in cell.classes && FromId(cell.id).Some? ==>
              FromId(r.id) == Some(Click(FromId(cell.id).value))
    ensures FromId(cell.id).None? ==> r == cell
  {
    if ClueClass in cell.classes then cell.(id := HandleClick(cell.id)) else cell
  }

  /** A click on the board. Only the targeted cell can change; a click that
      lands on no cell changes nothing. */
  function OnClick(t: Table, target: Target): (u: Table)
    ensures |u.header| == |t.header| && |u.body| == |t.body|
    ensures forall r :: 0 <= r < |t.body| ==> |u.body[r]| == |t.body[r]|
    ensures forall i :: 0 <= i < |t.header| && target != HeaderAt(i) ==> u.header[i] == t.header[i]
    ensures forall r, c :: 0 <= r < |t.body| && 0 <= c < |t.body[r]| && target != BodyAt(Pos(r, c)) ==>
              u.body[r][c] == t.body[r][c]
    ensures target.HeaderAt? && 0 <= target.col < |t.header| ==>
              u.header[target.col] == Dispatch(t.header[target.col])
    ensures target.BodyAt? && InBody(t, target.pos) ==>
              u.body[target.pos.row][target.pos.col] == Dispatch(t.body[target.pos.row][target.pos.col])
  {
    match target
    case HeaderAt(c) =>
      if 0 <= c < |t.header| then t.(header := t.header[c := Dispatch(t.header[c])]) else t
    case BodyAt(p) =>
      if InBody(t, p) then
        t.(body := t.body[p.row := t.body[p.row][p.col := Dispatch(t.body[p.row][p.col])]])
      else t
  }

  /** On a playable board a header click is ignored, and a body click is exactly
      one reveal step of the clicked cell in the grid of states. */
  lemma OnClickRefinesClickAt(t: Table, target: Target)
    requires Playable(t)
    ensures Playable(OnClick(t, target))
    ensures target.HeaderAt? ==> OnClick(t, target) == t
    ensures target.BodyAt? ==> States(OnClick(t, target)) == ClickAt(States(t), target.pos)
  {
    var u := OnClick(t, target);
    if target.HeaderAt? {
      if 0 <= target.col < |t.header| {
        assert u.header == t.header;
      }
    } else {
      var g := States(t);
      var h := States(u);
      var k := ClickAt(g, target.pos);
      forall q | InGrid(h, q)
        ensures k[q.row][q.col] == h[q.row][q.col]
      {
        IdRoundTrip(h[q.row][q.col]);
        IdRoundTrip(g[q.row][q.col]);
        if q == target.pos {
          IdRoundTrip(k[q.row][q.col]);
        }
      }
      Extensional(h, k);
    }
  }

  /** A click on a cell tagged "answer" is ignored: the board is unchanged,
      so repeating such clicks is idempotent. */
  lemma OnClickAnsweredIsNoOp(t: Table, p: Pos)
    requires InBody(t, p) && t.body[p.row][p.col].id == AnswerId
    ensures OnClick(t, BodyAt(p)) == t
  {
    var u := OnClick(t, BodyAt(p));
    assert u.body[p.row] == t.body[p.row];
  }

  /** The board after a run of clicks delegated to it one at a time, first
      click first. The header row and the body keep their shape. */
  function Run(t: Table, targets: seq<Target>): (u: Table)
    ensures |u.header| == |t.header| && |u.body| == |t.body|
    ensures forall r :: 0 <= r < |t.body| ==> |u.body[r]| == |t.body[r]|
    decreases |targets|
  {
    if |targets| == 0 then t else Run(OnClick(t, targets[0]), targets[1..])
  }

  /** The body positions that a run of clicks lands on, in order: each body
      click is kept exactly once and header clicks are dropped. */
  function BodyClicks(targets: seq<Target>): (ps: seq<Pos>)
    ensures forall p :: p in ps <==> BodyAt(p) in targets
    ensures forall p :: CountAt(ps, p) == multiset(targets)[BodyAt(p)]
    decreases |targets|
  {
    if |targets| == 0 then []
    else
      assert targets == [targets[0]] + targets[1..];
      var rest := BodyClicks(targets[1..]);
      if targets[0].BodyAt? then
        assert ([targets[0].pos] + rest)[1..] == rest;
        [targets[0].pos] + rest
      else rest
  }

  /** A run of clicks keeps the board playable, leaves the header as it was,
      and moves the states exactly as the same clicks move the grid. */
  lemma {:induction false} RunRefinesApplyClicks(t: Table, targets: seq<Target>)
    requires Playable(t)
    ensures Playable(Run(t, targets))
    ensures Run(t, targets).header == t.header
    ensures States(Run(t, targets)) == ApplyClicks(States(t), BodyClicks(targets))
    decreases |targets|
  {
    if |targets| > 0 {
      var u := OnClick(t, targets[0]);
      OnClickRefinesClickAt(t, targets[0]);
      RunRefinesApplyClicks(u, targets[1..]);
      if targets[0].BodyAt? {
        assert BodyClicks(targets)[1..] == BodyClicks(targets[1..]);
      } else {
        assert BodyClicks(targets) == BodyClicks(targets[1..]);
      }
    }
  }

  /** On a freshly filled board, after any run of clicks, every clue cell still
      has the clue class and shows "?", and its reveal state is the one that
      the number of clicks the run made on that cell takes a hidden clue to. */
  lemma FreshBoardAfterClicks(t: Table, targets: seq<Target>, p: Pos)
    requires Playable(t)
    requires Uniform(States(t), NUM_CLUES_PER_CAT, NUM_CATEGORIES, Clue)
    requires 0 <= p.row < NUM_CLUES_PER_CAT && 0 <= p.col < NUM_CATEGORIES
    ensures InBody(Run(t, targets), p)
    ensures Run(t, targets).body[p.row][p.col].classes == {ClueClass}
    ensures Run(t, targets).body[p.row][p.col].text == Placeholder
    ensures FromId(Run(t, targets).body[p.row][p.col].id)
              == Some(ClickN(Clue, multiset(targets)[BodyAt(p)]))
  {
    var u := Run(t, targets);
    RunRefinesApplyClicks(t, targets);
    ApplyClicksCell(States(t), BodyClicks(targets), p);
    IdRoundTrip(States(u)[p.row][p.col]);
  }
}
