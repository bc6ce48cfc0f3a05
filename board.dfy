/** The Connect Four grid as a value: cells, shape, gravity, the spot a piece
    falls to, piece tallies and the four-in-a-row runs.

    The grid is an array of rows, `g[y][x]`, row 0 at the top and row `h - 1`
    at the bottom, as in connect4.js. */
module Board {

  datatype Option<T> = None | Some(value: T)

  /** The two participants. The colour each carries in connect4.js is a
      display label and is not part of the model. */
  datatype Player = P1 | P2

  /** A cell is empty (`undefined` in connect4.js) or holds a player. */
  datatype Cell = Empty | Taken(owner: Player)

  type Grid = seq<seq<Cell>>

  /** The player who is not `p`: the toggle between `players[0]` and `players[1]`. */
  function Other(p: Player): (r: Player)
    ensures r != p
  {
    if p == P1 then P2 else P1
  }

  /** `h` rows, each of `w` cells. */
  ghost predicate Shaped(g: Grid, w: nat, h: nat) {
    |g| == h && forall y :: 0 <= y < h ==> |g[y]| == w
  }

  /** One row of `w` empty cells, like `Array.from({ length: w })`. */
  function EmptyRow(w: nat): (r: seq<Cell>)
    ensures |r| == w
    ensures forall x :: 0 <= x < w ==> r[x] == Empty
  {
    seq(w, _ => Empty)
  }

  /** `h` empty rows, pushed one after the other. */
  function EmptyGrid(w: nat, h: nat): (g: Grid)
    ensures Shaped(g, w, h)
    ensures forall y, x :: 0 <= y < h && 0 <= x < w ==> g[y][x] == Empty
  {
    if h == 0 then [] else EmptyGrid(w, h - 1) + [EmptyRow(w)]
  }

  /** Gravity: in every column the occupied cells form one block that ends at
      the bottom row, so a piece never sits above an empty cell. */
  ghost predicate Settled(g: Grid, w: nat, h: nat)
    requires Shaped(g, w, h)
  {
    forall i, j, x :: 0 <= i < j < h && 0 <= x < w && g[i][x].Taken? ==> g[j][x].Taken?
  }

  /** The bottom-up scan of rows `y - 1`, `y - 2`, ..., `0` of column `x`:
      the first empty row met, or None when all of them are occupied. */
  function LowestEmpty(g: Grid, w: nat, h: nat, x: nat, y: nat): (r: Option<nat>)
    requires Shaped(g, w, h) && x < w && y <= h
    ensures r.Some? ==> r.value < y && g[r.value][x] == Empty
    ensures r.Some? ==> forall i :: r.value < i < y ==> g[i][x].Taken?
    ensures r.None? <==> forall i :: 0 <= i < y ==> g[i][x].Taken?
  {
    if y == 0 then None
    else if g[y - 1][x] == Empty then Some(y - 1)
    else LowestEmpty(g, w, h, x, y - 1)
  }

  /** Where a piece dropped into column `x` lands: the largest empty row, or
      None when the column is full. */
  function Spot(g: Grid, w: nat, h: nat, x: nat): (r: Option<nat>)
    requires Shaped(g, w, h) && x < w
  {
    LowestEmpty(g, w, h, x, h)
  }

  /** On a settled grid the landing row splits the column: empty at and above
      it, occupied below it. */
  lemma SpotSplitsColumn(g: Grid, w: nat, h: nat, x: nat)
    requires Shaped(g, w, h) && Settled(g, w, h) && x < w
    requires Spot(g, w, h, x).Some?
    ensures forall i :: 0 <= i < h ==>
              (g[i][x] == Empty <==> i <= Spot(g, w, h, x).value)
  {
  }

  /** `g` with `p`'s piece in row `y` of column `x`. */
  function Place(g: Grid, w: nat, h: nat, y: nat, x: nat, p: Player): (r: Grid)
    requires Shaped(g, w, h) && y < h && x < w
    ensures Shaped(r, w, h)
    ensures r[y][x] == Taken(p)
    ensures forall i, j :: 0 <= i < h && 0 <= j < w && (i != y || j != x) ==> r[i][j] == g[i][j]
  {
    g[y := g[y][x := Taken(p)]]
  }

  /** Placing a piece in the landing row of a column keeps the grid settled. */
  lemma PlaceAtSpotSettled(g: Grid, w: nat, h: nat, x: nat, p: Player)
    requires Shaped(g, w, h) && Settled(g, w, h) && x < w
    requires Spot(g, w, h, x).Some?
    ensures Settled(Place(g, w, h, Spot(g, w, h, x).value, x, p), w, h)
  {
  }

  /** The tie test: every cell of every row is occupied. */
  predicate Full(g: Grid) {
    forall y, x :: 0 <= y < |g| && 0 <= x < |g[y]| ==> g[y][x].Taken?
  }

  // ---------------------------------------------------------------------
  // Tallies

  /** How many cells of row `r` are `c`. */
  function RowTally(r: seq<Cell>, c: Cell): nat {
    if r == [] then 0 else (if r[0] == c then 1 else 0) + RowTally(r[1..], c)
  }

  /** How many cells of `g` are `c`. */
  function Tally(g: Grid, c: Cell): nat {
    if g == [] then 0 else RowTally(g[0], c) + Tally(g[1..], c)
  }

  /** The number of occupied cells. */
  function Pieces(g: Grid): nat {
    Tally(g, Taken(P1)) + Tally(g, Taken(P2))
  }

  /** A value that no cell of the row holds has tally zero. */
  lemma {:induction false} RowTallyAbsent(r: seq<Cell>, c: Cell)
    requires forall x :: 0 <= x < |r| ==> r[x] != c
    ensures RowTally(r, c) == 0
  {
    if r != [] {
      RowTallyAbsent(r[1..], c);
    }
  }

  /** A value that no cell of the grid holds has tally zero. */
  lemma {:induction false} TallyAbsent(g: Grid, c: Cell)
    requires forall y, x :: 0 <= y < |g| && 0 <= x < |g[y]| ==> g[y][x] != c
    ensures Tally(g, c) == 0
  {
    if g != [] {
      RowTallyAbsent(g[0], c);
      assert forall y :: 1 <= y < |g| ==> g[1..][y - 1] == g[y];
      TallyAbsent(g[1..], c);
    }
  }

  /** Every cell of a row is counted exactly once, under one of its three values. */
  lemma {:induction false} RowTallySum(r: seq<Cell>)
    ensures RowTally(r, Empty) + RowTally(r, Taken(P1)) + RowTally(r, Taken(P2)) == |r|
  {
    if r != [] {
      RowTallySum(r[1..]);
      match r[0]
      case Empty =>
      case Taken(p) => assert p == P1 || p == P2;
    }
  }

  /** Every cell of the grid is counted exactly once, under one of its three values. */
  lemma {:induction false} TallySum(g: Grid, w: nat, h: nat)
    requires Shaped(g, w, h)
    ensures Tally(g, Empty) + Pieces(g) == w * h
  {
    if g != [] {
      RowTallySum(g[0]);
      TallySum(g[1..], w, h - 1);
      assert (h - 1) * w + w == w * h;
    }
  }

  /** A row has no empty cell exactly when its empty tally is zero. */
  lemma {:induction false} RowNoEmpty(r: seq<Cell>)
    ensures RowTally(r, Empty) == 0 <==> forall x :: 0 <= x < |r| ==> r[x].Taken?
  {
    if r != [] {
      RowNoEmpty(r[1..]);
      assert forall x :: 1 <= x < |r| ==> r[x] == r[1..][x - 1];
    }
  }

  /** The grid is full exactly when its empty tally is zero. */
  lemma {:induction false} FullIffNoEmpty(g: Grid)
    ensures Full(g) <==> Tally(g, Empty) == 0
  {
    if g != [] {
      RowNoEmpty(g[0]);
      FullIffNoEmpty(g[1..]);
      assert forall y :: 1 <= y < |g| ==> g[y] == g[1..][y - 1];
    }
  }

  /** The tie test fires exactly when all `w * h` cells hold a piece, and a
      grid never holds more pieces than that. */
  lemma FullIffAllPieces(g: Grid, w: nat, h: nat)
    requires Shaped(g, w, h)
    ensures Pieces(g) <= w * h
    ensures Full(g) <==> Pieces(g) == w * h
  {
    TallySum(g, w, h);
    FullIffNoEmpty(g);
  }

  /** Writing `v` over an empty cell of a row moves one cell from the empty
      tally to `v`'s tally. */
  lemma {:induction false} RowTallyUpdate(r: seq<Cell>, x: nat, v: Cell, c: Cell)
    requires x < |r| && r[x] == Empty && v != Empty
    ensures RowTally(r[x := v], c) ==
              RowTally(r, c) + (if c == v then 1 else 0) - (if c == Empty then 1 else 0)
  {
    var s := r[x := v];
    if x == 0 {
      assert s[1..] == r[1..];
    } else {
      assert s[1..] == r[1..][x - 1 := v];
      RowTallyUpdate(r[1..], x - 1, v, c);
    }
  }

  /** Replacing row `y` changes the grid tally by the change in that row. */
  lemma {:induction false} TallyUpdate(g: Grid, y: nat, row: seq<Cell>, c: Cell)
    requires y < |g|
    ensures Tally(g[y := row], c) + RowTally(g[y], c) == Tally(g, c) + RowTally(row, c)
  {
    var s := g[y := row];
    if y == 0 {
      assert s[1..] == g[1..];
    } else {
      assert s[1..] == g[1..][y - 1 := row];
      TallyUpdate(g[1..], y - 1, row, c);
    }
  }

  /** Placing a piece on an empty cell adds one to its owner's tally, takes one
      from the empty tally and leaves the other player's tally alone. */
  lemma PlaceTally(g: Grid, w: nat, h: nat, y: nat, x: nat, p: Player, c: Cell)
    requires Shaped(g, w, h) && y < h && x < w && g[y][x] == Empty
    ensures Tally(Place(g, w, h, y, x, p), c) ==
              Tally(g, c) + (if c == Taken(p) then 1 else 0) - (if c == Empty then 1 else 0)
  {
    RowTallyUpdate(g[y], x, Taken(p), c);
    TallyUpdate(g, y, g[y][x := Taken(p)], c);
  }

  // ---------------------------------------------------------------------
  // Runs of four

  /** The four ways to line up four pieces. */
  datatype Direction = Horizontal | Vertical | DownRight | DownLeft {
    function DY(): int {
      if this == Horizontal then 0 else 1
    }
    function DX(): int {
      match this
      case Horizontal => 1
      case Vertical => 0
      case DownRight => 1
      case DownLeft => -1
    }
  }

  /** The four coordinates `(y, x)` of the run that starts at `(y, x)` and
      extends along `d`; they may leave the grid. */
  function Run(y: int, x: int, d: Direction): (cells: seq<(int, int)>)
    ensures |cells| == 4
    ensures forall k :: 0 <= k < 4 ==> cells[k] == (y + k * d.DY(), x + k * d.DX())
  {
    [(y, x), (y + d.DY(), x + d.DX()), (y + 2 * d.DY(), x + 2 * d.DX()), (y + 3 * d.DY(), x + 3 * d.DX())]
  }

  /** `(y, x)` lies on the grid and holds `p`'s piece; the bounds are tested
      before the cell is read. */
  predicate Owns(g: Grid, w: nat, h: nat, p: Player, y: int, x: int)
    requires Shaped(g, w, h)
  {
    0 <= y && y < h && 0 <= x && x < w && g[y][x] == Taken(p)
  }

  /** Every listed cell lies on the grid and holds `p`'s piece. */
  predicate AllOwned(g: Grid, w: nat, h: nat, p: Player, cells: seq<(int, int)>)
    requires Shaped(g, w, h)
  {
    forall i :: 0 <= i < |cells| ==> Owns(g, w, h, p, cells[i].0, cells[i].1)
  }

  /** `p` has four in a row somewhere on the grid. */
  ghost predicate WinFor(g: Grid, w: nat, h: nat, p: Player)
    requires Shaped(g, w, h)
  {
    exists y: int, x: int, d: Direction :: AllOwned(g, w, h, p, Run(y, x, d))
  }

  /** A run of `p`'s pieces starts on the grid. */
  lemma RunStartsOnGrid(g: Grid, w: nat, h: nat, p: Player, y: int, x: int, d: Direction)
    requires Shaped(g, w, h) && AllOwned(g, w, h, p, Run(y, x, d))
    ensures 0 <= y < h && 0 <= x < w && g[y][x] == Taken(p)
  {
    assert Run(y, x, d)[0] == (y, x);
  }
}
