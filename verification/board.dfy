/** The rules of the 8x8 Othello board: cells, rays, move legality, move
    resolution, score tallies and the successor map of a state. */
module Board {

  /** The two sides. Black moves first. */
  datatype Color = Black | White

  /** The side that is not `c`. */
  function Opponent(c: Color): (o: Color)
    ensures o != c
  {
    if c == Black then White else Black
  }

  /** A cell is empty or holds one disc. */
  datatype Cell = Empty | Disc(color: Color)

  /** A (row, col) coordinate; rows and columns run 0..7. */
  type Pos = (int, int)

  predicate InBounds(p: Pos) {
    0 <= p.0 < 8 && 0 <= p.1 < 8
  }

  /** The grid, stored row by row. */
  type Grid = g: seq<Cell> | |g| == 64 witness seq(64, _ => Empty)

  function Index(p: Pos): (i: nat)
    requires InBounds(p)
    ensures i < 64
  {
    8 * p.0 + p.1
  }

  function At(g: Grid, p: Pos): Cell
    requires InBounds(p)
  {
    g[Index(p)]
  }

  /** The grid with the cell at `p` overwritten by `x`. */
  function SetCell(g: Grid, p: Pos, x: Cell): (h: Grid)
    requires InBounds(p)
    ensures At(h, p) == x
    ensures forall q :: InBounds(q) && q != p ==> At(h, q) == At(g, q)
  {
    g[Index(p) := x]
  }

  /** All 64 coordinates. */
  const Cells: set<Pos> := set r, c | 0 <= r < 8 && 0 <= c < 8 :: (r, c)

  lemma CellsAreInBounds(p: Pos)
    ensures p in Cells <==> InBounds(p)
  {
    if InBounds(p) {
      var r, c := p.0, p.1;
      assert (r, c) in Cells;
    }
  }

  // ---------------------------------------------------------------------------
  // Tallies

  /** How many of `cells` equal `x`. */
  function Count(cells: seq<Cell>, x: Cell): (n: nat)
    ensures n <= |cells|
  {
    if cells == [] then 0 else (if cells[0] == x then 1 else 0) + Count(cells[1..], x)
  }

  /** Every cell is empty, white or black, so the three tallies add up to the length. */
  lemma {:induction false} CountPartition(cells: seq<Cell>)
    ensures Count(cells, Empty) + Count(cells, Disc(White)) + Count(cells, Disc(Black)) == |cells|
  {
    if cells != [] {
      CountPartition(cells[1..]);
      assert cells[0] == Empty || cells[0] == Disc(White) || cells[0] == Disc(Black) by {
        if cells[0].Disc? {
          assert cells[0].color == White || cells[0].color == Black;
        }
      }
    }
  }

  lemma {:induction false} CountAppend(a: seq<Cell>, b: seq<Cell>, x: Cell)
    ensures Count(a + b, x) == Count(a, x) + Count(b, x)
  {
    if a == [] {
      assert a + b == b;
    } else {
      assert (a + b)[1..] == a[1..] + b;
      CountAppend(a[1..], b, x);
    }
  }

  /** Overwriting one cell changes each tally by at most the old and the new value. */
  lemma {:induction false} CountUpdate(cells: seq<Cell>, i: nat, y: Cell, x: Cell)
    requires i < |cells|
    ensures Count(cells[i := y], x)
            == Count(cells, x) - (if cells[i] == x then 1 else 0) + (if y == x then 1 else 0)
  {
    if i == 0 {
      assert cells[i := y][1..] == cells[1..];
    } else {
      assert cells[i := y][1..] == cells[1..][i - 1 := y];
      CountUpdate(cells[1..], i - 1, y, x);
    }
  }

  // ---------------------------------------------------------------------------
  // Rays

  /** The eight compass directions, listed in the order the resolve loop visits them. */
  datatype Dir = UpLeft | Up | UpRight | Left | Right | DownLeft | Down | DownRight

  const Directions: seq<Dir> := [UpLeft, Up, UpRight, Left, Right, DownLeft, Down, DownRight]

  function RowDelta(d: Dir): int {
    match d
    case UpLeft | Up | UpRight => -1
    case Left | Right => 0
    case DownLeft | Down | DownRight => 1
  }

  function ColDelta(d: Dir): int {
    match d
    case UpLeft | Left | DownLeft => -1
    case Up | Down => 0
    case UpRight | Right | DownRight => 1
  }

  function Shift(x: int, delta: int, t: int): int {
    if delta < 0 then x - t else if delta > 0 then x + t else x
  }

  /** The cell `t` steps away from `p` in direction `d`. */
  function Step(p: Pos, d: Dir, t: int): Pos {
    (Shift(p.0, RowDelta(d), t), Shift(p.1, ColDelta(d), t))
  }

  /** The first step index `e >= t` whose cell is not an in-bounds `opp` disc. */
  function RunFrom(g: Grid, p: Pos, d: Dir, opp: Color, t: int): (e: int)
    requires InBounds(p) && 1 <= t <= 8
    ensures t <= e <= 8
    ensures forall u :: t <= u < e ==> InBounds(Step(p, d, u)) && At(g, Step(p, d, u)) == Disc(opp)
    ensures !(InBounds(Step(p, d, e)) && At(g, Step(p, d, e)) == Disc(opp))
    decreases 8 - t
  {
    var q := Step(p, d, t);
    if InBounds(q) && At(g, q) == Disc(opp) then RunFrom(g, p, d, opp, t + 1) else t
  }

  /** The number of consecutive `opp` discs met walking away from `p` in
      direction `d`: the `while` loop of every ray check and of resolve. */
  function RunLength(g: Grid, p: Pos, d: Dir, opp: Color): (k: nat)
    requires InBounds(p)
    ensures k <= 7
    ensures forall t :: 1 <= t <= k ==> InBounds(Step(p, d, t)) && At(g, Step(p, d, t)) == Disc(opp)
    ensures !(InBounds(Step(p, d, k + 1)) && At(g, Step(p, d, k + 1)) == Disc(opp))
  {
    RunFrom(g, p, d, opp, 1) - 1
  }

  /** Walking from `p` along `d`, one or more opponent discs are followed,
      inside the board, by a disc of `mover`. */
  predicate Brackets(g: Grid, p: Pos, d: Dir, mover: Color)
    requires InBounds(p)
  {
    Closes(g, p, d, mover, RunLength(g, p, d, Opponent(mover)))
  }

  /** A run of `k >= 1` opponent discs is closed by a disc of `mover` right after it. */
  predicate Closes(g: Grid, p: Pos, d: Dir, mover: Color, k: nat) {
    k >= 1 && InBounds(Step(p, d, k + 1)) && At(g, Step(p, d, k + 1)) == Disc(mover)
  }

  // ---------------------------------------------------------------------------
  // States

  /** A board snapshot: grid, side to move, cached disc counts, and the
      successor map last built by UpdatePossibleStates. The counts are only
      recomputed by UpdateScore, so they need not match the grid. */
  datatype State = State(grid: Grid, turn: Color, white: int, black: int, possible: map<Pos, State>)

  /** The cached counts equal the grid's tallies. */
  predicate Recounted(s: State) {
    s.white == Count(s.grid, Disc(White)) && s.black == Count(s.grid, Disc(Black))
  }

  /** The opening grid: white on (3,3) and (4,4), black on (3,4) and (4,3). */
  function Opening(): Grid {
    seq(64, i => if i == 27 || i == 36 then Disc(White) else if i == 28 || i == 35 then Disc(Black) else Empty)
  }

  /** Resets grid and turn; the counts and the successor map are left as they were. */
  function Clear(s: State): (r: State)
    ensures forall p :: InBounds(p) ==>
      At(r.grid, p) == (if p == (3, 3) || p == (4, 4) then Disc(White)
                        else if p == (3, 4) || p == (4, 3) then Disc(Black)
                        else Empty)
    ensures r.turn == Black
    ensures r.white == s.white && r.black == s.black && r.possible == s.possible
  {
    State(Opening(), Black, s.white, s.black, s.possible)
  }

  /** A freshly constructed state: counts 2/2, no successors, then `Clear`. */
  function NewState(): (r: State)
    ensures Recounted(r) && r.white == 2 && r.black == 2
    ensures r.turn == Black && r.possible == map[]
  {
    OpeningTallies();
    Clear(State(Opening(), Black, 2, 2, map[]))
  }

  lemma OpeningTallies()
    ensures Count(Opening(), Disc(White)) == 2 && Count(Opening(), Disc(Black)) == 2
  {
    OpeningIsLayout();
    LayoutCount(White);
    LayoutCount(Black);
  }

  /** The opening grid written out in five pieces: 27 empty cells, row 3's
      centre pair, 6 empty cells, row 4's centre pair, 27 empty cells. */
  function OpeningLayout(): seq<Cell> {
    Blank(27) + [Disc(White), Disc(Black)] + Blank(6) + [Disc(Black), Disc(White)] + Blank(27)
  }

  /** `n` empty cells. */
  function Blank(n: nat): (r: seq<Cell>)
    ensures |r| == n && forall i :: 0 <= i < n ==> r[i] == Empty
  {
    seq(n, _ => Empty)
  }

  lemma OpeningIsLayout()
    ensures Opening() == OpeningLayout()
  {
    assert |OpeningLayout()| == 64;
    forall i | 0 <= i < 64
      ensures Opening()[i] == OpeningLayout()[i]
    {
    }
  }

  /** Each disc colour appears twice in the layout. */
  lemma LayoutCount(c: Color)
    ensures Count(OpeningLayout(), Disc(c)) == 2
  {
    var x := Disc(c);
    NoDiscs(Blank(27), x);
    NoDiscs(Blank(6), x);
    PairCount(Disc(White), Disc(Black), x);
    PairCount(Disc(Black), Disc(White), x);
    CountFive(Blank(27), [Disc(White), Disc(Black)], Blank(6), [Disc(Black), Disc(White)], Blank(27), x);
  }

  /** Counts over five consecutive pieces add up. */
  lemma CountFive(a: seq<Cell>, b: seq<Cell>, c: seq<Cell>, d: seq<Cell>, e: seq<Cell>, x: Cell)
    ensures Count(a + b + c + d + e, x) == Count(a, x) + Count(b, x) + Count(c, x) + Count(d, x) + Count(e, x)
  {
    CountAppend(a, b, x);
    CountAppend(a + b, c, x);
    CountAppend(a + b + c, d, x);
    CountAppend(a + b + c + d, e, x);
  }

  lemma PairCount(a: Cell, b: Cell, x: Cell)
    ensures Count([a, b], x) == (if a == x then 1 else 0) + (if b == x then 1 else 0)
  {
    assert [a, b][1..] == [b];
    assert [b][1..] == [];
  }

  lemma {:induction false} NoDiscs(cells: seq<Cell>, x: Cell)
    requires forall i :: 0 <= i < |cells| ==> cells[i] == Empty
    requires x != Empty
    ensures Count(cells, x) == 0
  {
    if cells != [] {
      NoDiscs(cells[1..], x);
    }
  }

  // ---------------------------------------------------------------------------
  // Legality

  /** Up or down from an empty cell brackets opponent discs. */
  predicate CheckVertical(row: int, col: int, s: State)
    requires InBounds((row, col))
  {
    At(s.grid, (row, col)) == Empty
    && (Brackets(s.grid, (row, col), Up, s.turn) || Brackets(s.grid, (row, col), Down, s.turn))
  }

  /** Left or right from an empty cell brackets opponent discs. */
  predicate CheckHorizontal(row: int, col: int, s: State)
    requires InBounds((row, col))
  {
    At(s.grid, (row, col)) == Empty
    && (Brackets(s.grid, (row, col), Left, s.turn) || Brackets(s.grid, (row, col), Right, s.turn))
  }

  /** One of the four diagonals from an empty cell brackets opponent discs. */
  predicate CheckDiagonal(row: int, col: int, s: State)
    requires InBounds((row, col))
  {
    At(s.grid, (row, col)) == Empty
    && (Brackets(s.grid, (row, col), UpLeft, s.turn) || Brackets(s.grid, (row, col), UpRight, s.turn)
        || Brackets(s.grid, (row, col), DownLeft, s.turn) || Brackets(s.grid, (row, col), DownRight, s.turn))
  }

  predicate IsValidMove(row: int, col: int, s: State) {
    InBounds((row, col))
    && At(s.grid, (row, col)) == Empty
    && (CheckVertical(row, col, s) || CheckHorizontal(row, col, s) || CheckDiagonal(row, col, s))
  }

  // ---------------------------------------------------------------------------
  // Resolution

  /** Writes the mover's colour over steps 1..k of the ray, nearest first
      (the loop over the collected `toFlip` cells). */
  function FlipRun(g: Grid, p: Pos, d: Dir, mover: Color, k: nat): Grid
    requires InBounds(p)
    requires forall t :: 1 <= t <= k ==> InBounds(Step(p, d, t))
  {
    if k == 0 then g else SetCell(FlipRun(g, p, d, mover, k - 1), Step(p, d, k), Disc(mover))
  }

  /** One iteration of the direction loop of resolve, reading the grid as it
      stands after the earlier directions. */
  function FlipDir(g: Grid, p: Pos, d: Dir, mover: Color): Grid
    requires InBounds(p)
  {
    if Brackets(g, p, d, mover) then FlipRun(g, p, d, mover, RunLength(g, p, d, Opponent(mover))) else g
  }

  /** The direction loop of resolve over Directions[i..]. */
  function Sweep(g: Grid, p: Pos, mover: Color, i: nat): Grid
    requires InBounds(p) && i <= 8
    decreases 8 - i
  {
    if i == 8 then g else Sweep(FlipDir(g, p, Directions[i], mover), p, mover, i + 1)
  }

  /** Plays the side to move at (row, col). An illegal move gives the state
      back unchanged. A legal one places the disc, flips every bracketed run,
      hands the turn over and empties the successor map; the counts are not
      recomputed here. */
  function Resolve(row: int, col: int, s: State): (r: State)
    ensures !IsValidMove(row, col, s) ==> r == s
    ensures IsValidMove(row, col, s) ==>
      && r.turn == Opponent(s.turn)
      && r.white == s.white && r.black == s.black
      && r.possible == map[]
      && At(r.grid, (row, col)) == Disc(s.turn)
  {
    if !IsValidMove(row, col, s) then s
    else
      SweepKeepsOrigin(SetCell(s.grid, (row, col), Disc(s.turn)), (row, col), s.turn, 0);
      State(Sweep(SetCell(s.grid, (row, col), Disc(s.turn)), (row, col), s.turn, 0), Opponent(s.turn), s.white, s.black, map[])
  }

  /** No ray passes through its own starting cell. */
  lemma StepLeavesOrigin(p: Pos, d: Dir, t: int)
    requires t >= 1
    ensures Step(p, d, t) != p
  {
  }

  lemma {:induction false} FlipRunKeepsOrigin(g: Grid, p: Pos, d: Dir, mover: Color, k: nat)
    requires InBounds(p)
    requires forall t :: 1 <= t <= k ==> InBounds(Step(p, d, t))
    ensures At(FlipRun(g, p, d, mover, k), p) == At(g, p)
  {
    if k > 0 {
      FlipRunKeepsOrigin(g, p, d, mover, k - 1);
      StepLeavesOrigin(p, d, k);
    }
  }

  lemma {:induction false} SweepKeepsOrigin(g: Grid, p: Pos, mover: Color, i: nat)
    requires InBounds(p) && i <= 8
    ensures At(Sweep(g, p, mover, i), p) == At(g, p)
    decreases 8 - i
  {
    if i < 8 {
      var d := Directions[i];
      if Brackets(g, p, d, mover) {
        FlipRunKeepsOrigin(g, p, d, mover, RunLength(g, p, d, Opponent(mover)));
      }
      SweepKeepsOrigin(FlipDir(g, p, d, mover), p, mover, i + 1);
    }
  }

  /** Sets the cached counts to the grid's tallies. */
  function UpdateScore(s: State): (r: State)
    ensures Recounted(r)
    ensures r.grid == s.grid && r.turn == s.turn && r.possible == s.possible
    ensures 0 <= r.white && 0 <= r.black
    ensures r.white + r.black + Count(r.grid, Empty) == 64
  {
    CountPartition(s.grid);
    s.(white := Count(s.grid, Disc(White)), black := Count(s.grid, Disc(Black)))
  }

  // ---------------------------------------------------------------------------
  // Successors

  /** The successor map: one entry per legal cell, holding the resolved state
      with the opponent to move and recounted scores. */
  function Successors(s: State): (m: map<Pos, State>)
    ensures forall p :: p in m <==> IsValidMove(p.0, p.1, s)
    ensures forall p :: p in m ==>
      && m[p].grid == Resolve(p.0, p.1, s).grid
      && m[p].turn == Opponent(s.turn)
      && Recounted(m[p])
      && m[p].possible == map[]
  {
    ValidMovesInCells(s);
    map p | p in Cells && IsValidMove(p.0, p.1, s) :: UpdateScore(Resolve(p.0, p.1, s).(turn := Opponent(s.turn)))
  }

  lemma ValidMovesInCells(s: State)
    ensures forall p: Pos :: IsValidMove(p.0, p.1, s) ==> p in Cells
  {
    forall p: Pos | IsValidMove(p.0, p.1, s) ensures p in Cells {
      CellsAreInBounds(p);
    }
  }

  /** Rebuilds the stored successor map; nothing else changes. */
  function UpdatePossibleStates(s: State): (r: State)
    ensures r.grid == s.grid && r.turn == s.turn && r.white == s.white && r.black == s.black
    ensures forall p :: p in r.possible <==> IsValidMove(p.0, p.1, s)
  {
    s.(possible := Successors(s))
  }

  /** Adopts the stored successor for (row, col) when there is one; otherwise
      nothing happens. */
  function Place(s: State, row: int, col: int): (r: State)
    ensures (row, col) in s.possible ==> r == s.possible[(row, col)]
    ensures (row, col) !in s.possible ==> r == s
  {
    if (row, col) in s.possible then s.possible[(row, col)] else s
  }

  /** Some cell is a legal move for the side to move. */
  predicate HasMove(s: State) {
    exists row, col | 0 <= row < 8 && 0 <= col < 8 :: IsValidMove(row, col, s)
  }

  /** The game is over when neither side has a legal move. The first
      component is the verdict; the second is the argument state, whose
      successor map the check refreshes as a side effect. */
  function IsGameOver(s: State): (r: (bool, State))
    ensures r.1 == UpdatePossibleStates(s)
    ensures r.0 <==> !HasMove(s) && !HasMove(s.(turn := Opponent(s.turn)))
  {
    if |UpdatePossibleStates(s).possible| != 0 then (false, UpdatePossibleStates(s))
    else (|Successors(s.(turn := Opponent(s.turn)))| == 0, UpdatePossibleStates(s))
  }
}
