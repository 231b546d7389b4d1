/** The board's clue cells as a grid of reveal states, row by row.

Row `r`, column `c` is the `r`-th clue of the `c`-th category. A click reveals
one step of exactly one cell; every other cell keeps its state. A run of
clicks therefore leaves each cell in the state that the number of clicks it
received alone determines, whatever the order of the clicks.
 */
module Grid {
  import opened Reveal

  type Grid = seq<seq<RevealState>>

  /** A position on the board, row first. */
  datatype Pos = Pos(row: int, col: int)

  predicate InGrid(g: Grid, p: Pos)
  {
    0 <= p.row < |g| && 0 <= p.col < |g[p.row]|
  }

  /** Two grids with the same number of rows and the same row lengths. */
  predicate SameShape(g: Grid, h: Grid)
  {
    |g| == |h| && forall r :: 0 <= r < |g| ==> |g[r]| == |h[r]|
  }

  /** A `rows` by `cols` grid whose cells all hold `s`. */
  predicate Uniform(g: Grid, rows: nat, cols: nat, s: RevealState)
  {
    |g| == rows && forall r :: 0 <= r < rows ==> |g[r]| == cols && forall c :: 0 <= c < cols ==> g[r][c] == s
  }

  /** One click at `p`; a click off the grid reaches no cell and changes nothing. */
  function ClickAt(g: Grid, p: Pos): (h: Grid)
    ensures SameShape(g, h)
    ensures forall q :: InGrid(g, q) && q != p ==> h[q.row][q.col] == g[q.row][q.col]
    ensures InGrid(g, p) ==> h[p.row][p.col] == Click(g[p.row][p.col])
    ensures !InGrid(g, p) ==> h == g
  {
    if InGrid(g, p) then g[p.row := g[p.row][p.col := Click(g[p.row][p.col])]] else g
  }

  /** Two grids of the same shape that agree on every cell are equal. */
  lemma Extensional(g: Grid, h: Grid)
    requires SameShape(g, h)
    requires forall q :: InGrid(g, q) ==> h[q.row][q.col] == g[q.row][q.col]
    ensures g == h
  {
    forall r | 0 <= r < |g|
      ensures g[r] == h[r]
    {
      forall c | 0 <= c < |g[r]|
        ensures g[r][c] == h[r][c]
      {
        assert InGrid(g, Pos(r, c));
      }
    }
  }

  /** A click on a cell already in the Answer state leaves the grid as it is. */
  lemma ClickAnsweredIsNoOp(g: Grid, p: Pos)
    requires InGrid(g, p) && g[p.row][p.col] == Answer
    ensures ClickAt(g, p) == g
  {
    Extensional(g, ClickAt(g, p));
  }

  /** Clicks on two cells commute: each cell's reveal is private to it. */
  lemma ClicksCommute(g: Grid, p: Pos, q: Pos)
    ensures ClickAt(ClickAt(g, p), q) == ClickAt(ClickAt(g, q), p)
  {
    var a := ClickAt(ClickAt(g, p), q);
    var b := ClickAt(ClickAt(g, q), p);
    Extensional(a, b);
  }

  /** The grid after the clicks of `clicks`, first click first. */
  function ApplyClicks(g: Grid, clicks: seq<Pos>): (h: Grid)
    ensures SameShape(g, h)
    decreases |clicks|
  {
    if |clicks| == 0 then g else ApplyClicks(ClickAt(g, clicks[0]), clicks[1..])
  }

  /** How many of `clicks` land on `p`. */
  function CountAt(clicks: seq<Pos>, p: Pos): nat
    decreases |clicks|
  {
    if |clicks| == 0 then 0
    else (if clicks[0] == p then 1 else 0) + CountAt(clicks[1..], p)
  }

  /** After a run of clicks, each cell is in the state reached by clicking it
      as many times as the run clicked it. */
  lemma {:induction false} ApplyClicksCell(g: Grid, clicks: seq<Pos>, p: Pos)
    requires InGrid(g, p)
    ensures InGrid(ApplyClicks(g, clicks), p)
    ensures ApplyClicks(g, clicks)[p.row][p.col] == ClickN(g[p.row][p.col], CountAt(clicks, p))
    decreases |clicks|
  {
    if |clicks| > 0 {
      var g1 := ClickAt(g, clicks[0]);
      ApplyClicksCell(g1, clicks[1..], p);
      var k := CountAt(clicks[1..], p);
      if clicks[0] == p {
        assert ClickN(g[p.row][p.col], 1 + k) == ClickN(g1[p.row][p.col], k);
      }
    }
  }

  /** No run of clicks moves a cell backward, and a revealed cell is never hidden again. */
  lemma ApplyClicksForward(g: Grid, clicks: seq<Pos>, p: Pos)
    requires InGrid(g, p)
    ensures InGrid(ApplyClicks(g, clicks), p)
    ensures Rank(g[p.row][p.col]) <= Rank(ApplyClicks(g, clicks)[p.row][p.col])
    ensures g[p.row][p.col] != Clue ==> ApplyClicks(g, clicks)[p.row][p.col] != Clue
  {
    ApplyClicksCell(g, clicks, p);
  }

  /** A cell the run never clicks keeps its state. */
  lemma ApplyClicksUntouched(g: Grid, clicks: seq<Pos>, p: Pos)
    requires InGrid(g, p)
    requires p !in clicks
    ensures InGrid(ApplyClicks(g, clicks), p)
    ensures ApplyClicks(g, clicks)[p.row][p.col] == g[p.row][p.col]
  {
    ApplyClicksCell(g, clicks, p);
    CountAbsent(clicks, p);
  }

  lemma {:induction false} CountAbsent(clicks: seq<Pos>, p: Pos)
    ensures CountAt(clicks, p) == 0 <==> p !in clicks
    decreases |clicks|
  {
    if |clicks| > 0 {
      CountAbsent(clicks[1..], p);
      assert clicks == [clicks[0]] + clicks[1..];
    }
  }
}
