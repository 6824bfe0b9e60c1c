/**
 * The playing field: integer grid cells, the four headings, and the random
 * draws from which food positions are picked.
 */
module Grid {
  import opened Wrappers

  /** Number of columns or rows of the grid: canvas size divided by the cell size in pixels. */
  type Dim = n: int | n >= 1 witness 1

  /** A grid position in cells; (0, 0) is the top-left corner and y grows downwards. */
  datatype Cell = Cell(x: int, y: int)

  datatype Direction = Up | Down | Left | Right

  /** The heading that would turn the snake back onto itself. */
  function Opposite(d: Direction): (r: Direction)
    ensures r != d
    ensures (d == Up || d == Down) <==> (r == Up || r == Down)
  {
    match d
    case Up => Down
    case Down => Up
    case Left => Right
    case Right => Left
  }

  /** The cell one step away from `c` in direction `d`. */
  function Move(c: Cell, d: Direction): (r: Cell)
    ensures (d == Up || d == Down) <==> r.x == c.x
    ensures (d == Left || d == Right) <==> r.y == c.y
    ensures (r.x - c.x) + (r.y - c.y) in {1, -1}
    ensures (d == Down || d == Right) <==> (r.x - c.x) + (r.y - c.y) == 1
  {
    match d
    case Up => c.(y := c.y - 1)
    case Down => c.(y := c.y + 1)
    case Left => c.(x := c.x - 1)
    case Right => c.(x := c.x + 1)
  }

  /** A step followed by a step in the opposite direction comes back to the start. */
  lemma MoveUndo(c: Cell, d: Direction)
    ensures Opposite(Opposite(d)) == d
    ensures Move(Move(c, d), Opposite(d)) == c
  {
  }

  predicate InGrid(w: Dim, h: Dim, c: Cell) {
    0 <= c.x < w && 0 <= c.y < h
  }

  /** A value of the host's uniform generator: a number in [0, 1). */
  type Unit = r: real | 0.0 <= r < 1.0

  /** The two values drawn for one food candidate: first its column, then its row. */
  datatype Draw = Draw(rx: Unit, ry: Unit)

  /** floor(r * n): a uniform value spread over the slots 0 .. n - 1 (only slot 0 when n is 0). */
  function Scale(r: Unit, n: nat): (k: int)
    ensures 0 <= k
    ensures n >= 1 ==> k < n
    ensures n == 0 ==> k == 0
  {
    assert 0.0 <= r * n as real;
    assert n >= 1 ==> r * n as real < n as real;
    (r * n as real).Floor
  }

  /**
   * The cells food can be put on: the scale factor is one less than the grid
   * size, so the last column and the last row are never chosen.
   */
  predicate FoodRange(w: Dim, h: Dim, c: Cell) {
    && 0 <= c.x && (c.x <= w - 2 || c.x == 0)
    && 0 <= c.y && (c.y <= h - 2 || c.y == 0)
  }

  /** The food candidate a draw produces on a `w` by `h` grid. */
  function Candidate(w: Dim, h: Dim, d: Draw): (c: Cell)
    ensures FoodRange(w, h, c)
    ensures InGrid(w, h, c)
  {
    Cell(Scale(d.rx, w - 1), Scale(d.ry, h - 1))
  }

  /** Some draw of the stream lands on a cell outside `occupied`. */
  predicate HasFree(w: Dim, h: Dim, occupied: seq<Cell>, draws: seq<Draw>) {
    exists i :: 0 <= i < |draws| && Candidate(w, h, draws[i]) !in occupied
  }

  /**
   * Rejection sampling: the candidate of the first draw that is not on an
   * occupied cell, or None when the stream runs out first.
   */
  function FirstFree(w: Dim, h: Dim, occupied: seq<Cell>, draws: seq<Draw>): (r: Option<Cell>)
    ensures r.Some? <==> HasFree(w, h, occupied, draws)
    ensures r.Some? ==> r.value !in occupied && FoodRange(w, h, r.value)
    ensures r.Some? ==> exists i :: && 0 <= i < |draws| && r.value == Candidate(w, h, draws[i])
                                   && forall j :: 0 <= j < i ==> Candidate(w, h, draws[j]) in occupied
  {
    if draws == [] then None
    else
      var c := Candidate(w, h, draws[0]);
      if c !in occupied then Some(c)
      else
        var rest := FirstFree(w, h, occupied, draws[1..]);
        assert HasFree(w, h, occupied, draws) ==> HasFree(w, h, occupied, draws[1..]) by {
          if HasFree(w, h, occupied, draws) {
            var i :| 0 <= i < |draws| && Candidate(w, h, draws[i]) !in occupied;
            assert draws[1..][i - 1] == draws[i];
          }
        }
        assert rest.Some? ==> exists i :: && 0 <= i < |draws| && rest.value == Candidate(w, h, draws[i])
                                          && forall j :: 0 <= j < i ==> Candidate(w, h, draws[j]) in occupied by {
          if rest.Some? {
            var i :| && 0 <= i < |draws| - 1 && rest.value == Candidate(w, h, draws[1..][i])
                     && forall j :: 0 <= j < i ==> Candidate(w, h, draws[1..][j]) in occupied;
            forall j | 0 <= j < i + 1 ensures Candidate(w, h, draws[j]) in occupied {
              if j > 0 {
                assert draws[j] == draws[1..][j - 1];
              }
            }
            assert draws[1..][i] == draws[i + 1];
          }
        }
        rest
  }
}
