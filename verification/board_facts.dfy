/** Properties of the board rules: legality as a declarative capture
    condition, the exact effect of Resolve on cells and tallies, the opening
    position, and the successor map. */
module BoardFacts {
  import opened Board

  // ---------------------------------------------------------------------------
  // Legality

  /** Steps 1..k from `p` along `d` hold opponent discs and step k+1, still on
      the board, holds a disc of `mover`. */
  ghost predicate IsCaptureLine(g: Grid, p: Pos, d: Dir, mover: Color, k: int)
    requires InBounds(p)
  {
    && 1 <= k
    && (forall t :: 1 <= t <= k ==> InBounds(Step(p, d, t)) && At(g, Step(p, d, t)) == Disc(Opponent(mover)))
    && InBounds(Step(p, d, k + 1))
    && At(g, Step(p, d, k + 1)) == Disc(mover)
  }

  /** Some ray from `p` is a capture line for `mover`. */
  ghost predicate CanCapture(g: Grid, p: Pos, mover: Color)
    requires InBounds(p)
  {
    exists d: Dir, k: int :: IsCaptureLine(g, p, d, mover, k)
  }

  /** The ray walk agrees with the declarative capture line, both ways. */
  lemma BracketsIsCaptureLine(g: Grid, p: Pos, d: Dir, mover: Color)
    requires InBounds(p)
    ensures Brackets(g, p, d, mover) <==> exists k :: IsCaptureLine(g, p, d, mover, k)
  {
    var opp := Opponent(mover);
    var run := RunLength(g, p, d, opp);
    if Brackets(g, p, d, mover) {
      assert IsCaptureLine(g, p, d, mover, run);
    }
    if k :| IsCaptureLine(g, p, d, mover, k) {
      RunLengthExact(g, p, d, opp, k);
    }
  }

  /** A run of exactly k opponent discs, ended by anything else, has length k. */
  lemma RunLengthExact(g: Grid, p: Pos, d: Dir, opp: Color, k: nat)
    requires InBounds(p)
    requires forall t :: 1 <= t <= k ==> InBounds(Step(p, d, t)) && At(g, Step(p, d, t)) == Disc(opp)
    requires !(InBounds(Step(p, d, k + 1)) && At(g, Step(p, d, k + 1)) == Disc(opp))
    ensures RunLength(g, p, d, opp) == k
  {
  }

  /** A move is legal exactly when it is on the board, its cell is empty, and
      some of the eight rays from it captures. */
  /** Some capture line runs from `p` in direction `d`. */
  ghost predicate CapturesToward(g: Grid, p: Pos, d: Dir, mover: Color)
    requires InBounds(p)
  {
    exists k :: IsCaptureLine(g, p, d, mover, k)
  }

  /** Each of the three direction checks holds exactly when the cell is empty
      and a capture line runs along one of its directions. */
  lemma CheckLines(row: int, col: int, s: State)
    requires InBounds((row, col))
    ensures var g, p, c := s.grid, (row, col), s.turn;
      && (CheckVertical(row, col, s)
          <==> At(g, p) == Empty && (CapturesToward(g, p, Up, c) || CapturesToward(g, p, Down, c)))
      && (CheckHorizontal(row, col, s)
          <==> At(g, p) == Empty && (CapturesToward(g, p, Left, c) || CapturesToward(g, p, Right, c)))
      && (CheckDiagonal(row, col, s)
          <==> At(g, p) == Empty && (CapturesToward(g, p, UpLeft, c) || CapturesToward(g, p, UpRight, c)
                                     || CapturesToward(g, p, DownLeft, c) || CapturesToward(g, p, DownRight, c)))
  {
    VerticalLines(row, col, s);
    HorizontalLines(row, col, s);
    DiagonalLines(row, col, s);
  }

  lemma VerticalLines(row: int, col: int, s: State)
    requires InBounds((row, col))
    ensures var g, p, c := s.grid, (row, col), s.turn;
      CheckVertical(row, col, s)
      <==> At(g, p) == Empty && (CapturesToward(g, p, Up, c) || CapturesToward(g, p, Down, c))
  {
    BracketsIsCaptureLine(s.grid, (row, col), Up, s.turn);
    BracketsIsCaptureLine(s.grid, (row, col), Down, s.turn);
  }

  lemma HorizontalLines(row: int, col: int, s: State)
    requires InBounds((row, col))
    ensures var g, p, c := s.grid, (row, col), s.turn;
      CheckHorizontal(row, col, s)
      <==> At(g, p) == Empty && (CapturesToward(g, p, Left, c) || CapturesToward(g, p, Right, c))
  {
    BracketsIsCaptureLine(s.grid, (row, col), Left, s.turn);
    BracketsIsCaptureLine(s.grid, (row, col), Right, s.turn);
  }

  lemma DiagonalLines(row: int, col: int, s: State)
    requires InBounds((row, col))
    ensures var g, p, c := s.grid, (row, col), s.turn;
      CheckDiagonal(row, col, s)
      <==> At(g, p) == Empty && (CapturesToward(g, p, UpLeft, c) || CapturesToward(g, p, UpRight, c)
                                 || CapturesToward(g, p, DownLeft, c) || CapturesToward(g, p, DownRight, c))
  {
    BracketsIsCaptureLine(s.grid, (row, col), UpLeft, s.turn);
    BracketsIsCaptureLine(s.grid, (row, col), UpRight, s.turn);
    BracketsIsCaptureLine(s.grid, (row, col), DownLeft, s.turn);
    BracketsIsCaptureLine(s.grid, (row, col), DownRight, s.turn);
  }

  lemma ValidMoveIff(row: int, col: int, s: State)
    ensures IsValidMove(row, col, s)
            <==> InBounds((row, col)) && At(s.grid, (row, col)) == Empty && CanCapture(s.grid, (row, col), s.turn)
  {
    if InBounds((row, col)) && At(s.grid, (row, col)) == Empty {
      var p := (row, col);
      if IsValidMove(row, col, s) {
        var d: Dir :| Brackets(s.grid, p, d, s.turn) by {
          if Brackets(s.grid, p, Up, s.turn) {
          } else if Brackets(s.grid, p, Down, s.turn) {
          } else if Brackets(s.grid, p, Left, s.turn) {
          } else if Brackets(s.grid, p, Right, s.turn) {
          } else if Brackets(s.grid, p, UpLeft, s.turn) {
          } else if Brackets(s.grid, p, UpRight, s.turn) {
          } else if Brackets(s.grid, p, DownLeft, s.turn) {
          } else {
            assert Brackets(s.grid, p, DownRight, s.turn);
          }
        }
        BracketsIsCaptureLine(s.grid, p, d, s.turn);
      }
      if CanCapture(s.grid, p, s.turn) {
        var d, k :| IsCaptureLine(s.grid, p, d, s.turn, k);
        BracketsIsCaptureLine(s.grid, p, d, s.turn);
        assert Brackets(s.grid, p, d, s.turn);
        match d
        case Up | Down => assert CheckVertical(row, col, s);
        case Left | Right => assert CheckHorizontal(row, col, s);
        case _ => assert CheckDiagonal(row, col, s);
      }
    }
  }

  // ---------------------------------------------------------------------------
  // Rays

  /** The step index at which `q` lies on the line from `p` along `d` (meaningful when it does). */
  function Dist(p: Pos, d: Dir, q: Pos): int {
    if RowDelta(d) < 0 then p.0 - q.0
    else if RowDelta(d) > 0 then q.0 - p.0
    else if ColDelta(d) < 0 then p.1 - q.1
    else q.1 - p.1
  }

  /** `q` is one of steps 1..k from `p` along `d`. */
  predicate OnRun(p: Pos, d: Dir, q: Pos, k: int) {
    1 <= Dist(p, d, q) <= k && Step(p, d, Dist(p, d, q)) == q
  }

  lemma DistOfStep(p: Pos, d: Dir, t: int)
    ensures Dist(p, d, Step(p, d, t)) == t
  {
  }

  /** Rays in two different directions from the same cell never meet. */
  lemma RaysDisjoint(p: Pos, d1: Dir, d2: Dir, t1: int, t2: int)
    requires d1 != d2 && 1 <= t1 && 1 <= t2
    ensures Step(p, d1, t1) != Step(p, d2, t2)
  {
  }

  /** Two grids that agree along a ray from `p`. */
  ghost predicate AgreeOnRay(g: Grid, h: Grid, p: Pos, d: Dir) {
    forall t :: 1 <= t && InBounds(Step(p, d, t)) ==> At(g, Step(p, d, t)) == At(h, Step(p, d, t))
  }

  lemma RunFromAgrees(g: Grid, h: Grid, p: Pos, d: Dir, opp: Color, t: int)
    requires InBounds(p) && 1 <= t <= 8
    requires AgreeOnRay(g, h, p, d)
    ensures RunFrom(g, p, d, opp, t) == RunFrom(h, p, d, opp, t)
  {
  }

  /** The ray walk reads only the cells of its ray. */
  lemma BracketsAgree(g: Grid, h: Grid, p: Pos, d: Dir, mover: Color)
    requires InBounds(p)
    requires AgreeOnRay(g, h, p, d)
    ensures RunLength(g, p, d, Opponent(mover)) == RunLength(h, p, d, Opponent(mover))
    ensures Brackets(g, p, d, mover) == Brackets(h, p, d, mover)
  {
    RunFromAgrees(g, h, p, d, Opponent(mover), 1);
  }

  // ---------------------------------------------------------------------------
  // Flipping one run

  lemma {:induction false} FlipRunCells(g: Grid, p: Pos, d: Dir, mover: Color, k: nat)
    requires InBounds(p)
    requires forall t :: 1 <= t <= k ==> InBounds(Step(p, d, t))
    ensures forall q :: InBounds(q) ==>
      At(FlipRun(g, p, d, mover, k), q) == if OnRun(p, d, q, k) then Disc(mover) else At(g, q)
  {
    if k > 0 {
      FlipRunCells(g, p, d, mover, k - 1);
      DistOfStep(p, d, k);
    }
  }

  /** Flipping steps 1..k leaves the cells further along the ray alone. */
  lemma {:induction false} FlipRunAhead(g: Grid, p: Pos, d: Dir, mover: Color, k: nat, t: int)
    requires InBounds(p) && k < t && InBounds(Step(p, d, t))
    requires forall u :: 1 <= u <= k ==> InBounds(Step(p, d, u))
    ensures At(FlipRun(g, p, d, mover, k), Step(p, d, t)) == At(g, Step(p, d, t))
  {
    if k > 0 {
      FlipRunAhead(g, p, d, mover, k - 1, t);
      DistOfStep(p, d, k);
      DistOfStep(p, d, t);
    }
  }

  /** The change to the tally of `x` when k opponent discs turn to the mover's colour. */
  function Moved(x: Cell, mover: Color, k: int): int {
    if x == Disc(mover) then k else if x == Disc(Opponent(mover)) then -k else 0
  }

  /** Flipping a run of k opponent discs moves exactly k discs from one tally to the other. */
  lemma {:induction false} FlipRunCount(g: Grid, p: Pos, d: Dir, mover: Color, k: nat, x: Cell)
    requires InBounds(p)
    requires forall t :: 1 <= t <= k ==> InBounds(Step(p, d, t)) && At(g, Step(p, d, t)) == Disc(Opponent(mover))
    ensures Count(FlipRun(g, p, d, mover, k), x) == Count(g, x) + Moved(x, mover, k)
  {
    if k > 0 {
      var prev := FlipRun(g, p, d, mover, k - 1);
      var q := Step(p, d, k);
      FlipRunCount(g, p, d, mover, k - 1, x);
      FlipRunAhead(g, p, d, mover, k - 1, k);
      CountUpdate(prev, Index(q), Disc(mover), x);
    }
  }

  // ---------------------------------------------------------------------------
  // The whole sweep

  /** Direction `d` flips `q`: it brackets, and `q` lies inside its opponent run. */
  predicate FlippedBy(g: Grid, p: Pos, d: Dir, mover: Color, q: Pos)
    requires InBounds(p)
  {
    Brackets(g, p, d, mover) && OnRun(p, d, q, RunLength(g, p, d, Opponent(mover)))
  }

  /** Some direction among Directions[i..] flips `q`. */
  predicate FlippedFrom(g: Grid, p: Pos, mover: Color, q: Pos, i: nat)
    requires InBounds(p) && i <= 8
    decreases 8 - i
  {
    i < 8 && (FlippedBy(g, p, Directions[i], mover, q) || FlippedFrom(g, p, mover, q, i + 1))
  }

  /** The cell `q` lies in a bracketed opponent run from `p`, in any of the 8 directions. */
  predicate Flipped(g: Grid, p: Pos, mover: Color, q: Pos)
    requires InBounds(p)
  {
    FlippedFrom(g, p, mover, q, 0)
  }

  /** Discs flipped in one direction: its run length when it brackets, else 0. */
  function FlipCount(g: Grid, p: Pos, d: Dir, mover: Color): nat
    requires InBounds(p)
  {
    if Brackets(g, p, d, mover) then RunLength(g, p, d, Opponent(mover)) else 0
  }

  /** Sum of FlipCount over Directions[i..]. */
  function FlipTotal(g: Grid, p: Pos, mover: Color, i: nat): nat
    requires InBounds(p) && i <= 8
    decreases 8 - i
  {
    if i == 8 then 0 else FlipCount(g, p, Directions[i], mover) + FlipTotal(g, p, mover, i + 1)
  }

  lemma {:induction false} FlipTotalCovers(g: Grid, p: Pos, mover: Color, i: nat, j: nat)
    requires InBounds(p) && i <= j < 8
    ensures FlipTotal(g, p, mover, i) >= FlipCount(g, p, Directions[j], mover)
    decreases j - i
  {
    assert FlipTotal(g, p, mover, i) == FlipCount(g, p, Directions[i], mover) + FlipTotal(g, p, mover, i + 1);
    if i < j {
      FlipTotalCovers(g, p, mover, i + 1, j);
    }
  }

  lemma DirectionsDistinct(i: int, j: int)
    requires 0 <= i < 8 && 0 <= j < 8 && i != j
    ensures Directions[i] != Directions[j]
  {
  }

  /** One direction of the sweep, run on a grid that agrees with `g0` on its
      ray, flips exactly the cells `g0` says it brackets. */
  lemma FlipDirCells(g0: Grid, h: Grid, p: Pos, d: Dir, mover: Color)
    requires InBounds(p) && AgreeOnRay(g0, h, p, d)
    ensures forall q :: InBounds(q) ==>
      At(FlipDir(h, p, d, mover), q) == if FlippedBy(g0, p, d, mover, q) then Disc(mover) else At(h, q)
  {
    BracketsAgree(g0, h, p, d, mover);
    if Brackets(g0, p, d, mover) {
      FlipRunCells(h, p, d, mover, RunLength(g0, p, d, Opponent(mover)));
    }
  }

  /** One direction of the sweep moves FlipCount discs between the tallies. */
  lemma FlipDirCount(g0: Grid, h: Grid, p: Pos, d: Dir, mover: Color, x: Cell)
    requires InBounds(p) && AgreeOnRay(g0, h, p, d)
    ensures Count(FlipDir(h, p, d, mover), x) == Count(h, x) + Moved(x, mover, FlipCount(g0, p, d, mover))
  {
    BracketsAgree(g0, h, p, d, mover);
    if Brackets(g0, p, d, mover) {
      FlipRunCount(h, p, d, mover, RunLength(g0, p, d, Opponent(mover)), x);
    }
  }

  /** Flipping along Directions[i] leaves the later rays as they were, since
      rays in different directions never meet. */
  lemma FlipDirKeepsRays(g0: Grid, h: Grid, p: Pos, mover: Color, i: nat)
    requires InBounds(p) && i < 8
    requires forall j :: i <= j < 8 ==> AgreeOnRay(g0, h, p, Directions[j])
    ensures forall j :: i + 1 <= j < 8 ==> AgreeOnRay(g0, FlipDir(h, p, Directions[i], mover), p, Directions[j])
  {
    var d := Directions[i];
    var h' := FlipDir(h, p, d, mover);
    FlipDirCells(g0, h, p, d, mover);
    forall j | i + 1 <= j < 8
      ensures AgreeOnRay(g0, h', p, Directions[j])
    {
      forall t | 1 <= t && InBounds(Step(p, Directions[j], t))
        ensures At(g0, Step(p, Directions[j], t)) == At(h', Step(p, Directions[j], t))
      {
        var q := Step(p, Directions[j], t);
        DirectionsDistinct(i, j);
        if FlippedBy(g0, p, d, mover, q) {
          RaysDisjoint(p, d, Directions[j], Dist(p, d, q), t);
          assert false;
        }
      }
    }
  }

  /** The sweep over Directions[i..], started on a grid that agrees with `g0`
      on those rays, flips exactly the cells `g0` says are bracketed. */
  lemma {:induction false} SweepCells(g0: Grid, h: Grid, p: Pos, mover: Color, i: nat)
    requires InBounds(p) && i <= 8
    requires forall j :: i <= j < 8 ==> AgreeOnRay(g0, h, p, Directions[j])
    ensures forall q :: InBounds(q) ==>
      At(Sweep(h, p, mover, i), q) == if FlippedFrom(g0, p, mover, q, i) then Disc(mover) else At(h, q)
    decreases 8 - i
  {
    if i < 8 {
      FlipDirCells(g0, h, p, Directions[i], mover);
      FlipDirKeepsRays(g0, h, p, mover, i);
      SweepCells(g0, FlipDir(h, p, Directions[i], mover), p, mover, i + 1);
    }
  }

  /** The same sweep moves FlipTotal discs between the two tallies. */
  lemma {:induction false} SweepCount(g0: Grid, h: Grid, p: Pos, mover: Color, i: nat, x: Cell)
    requires InBounds(p) && i <= 8
    requires forall j :: i <= j < 8 ==> AgreeOnRay(g0, h, p, Directions[j])
    ensures Count(Sweep(h, p, mover, i), x) == Count(h, x) + Moved(x, mover, FlipTotal(g0, p, mover, i))
    decreases 8 - i
  {
    if i < 8 {
      FlipDirCount(g0, h, p, Directions[i], mover, x);
      FlipDirKeepsRays(g0, h, p, mover, i);
      SweepCount(g0, FlipDir(h, p, Directions[i], mover), p, mover, i + 1, x);
    }
  }

  /** The whole sweep: the cells it flips and the tallies it moves. */
  lemma SweepEffect(g0: Grid, h: Grid, p: Pos, mover: Color, i: nat)
    requires InBounds(p) && i <= 8
    requires forall j :: i <= j < 8 ==> AgreeOnRay(g0, h, p, Directions[j])
    ensures forall q :: InBounds(q) ==>
      At(Sweep(h, p, mover, i), q) == if FlippedFrom(g0, p, mover, q, i) then Disc(mover) else At(h, q)
    ensures Count(Sweep(h, p, mover, i), Disc(mover)) == Count(h, Disc(mover)) + FlipTotal(g0, p, mover, i)
    ensures Count(Sweep(h, p, mover, i), Disc(Opponent(mover)))
            == Count(h, Disc(Opponent(mover))) - FlipTotal(g0, p, mover, i)
    ensures Count(Sweep(h, p, mover, i), Empty) == Count(h, Empty)
  {
    SweepCells(g0, h, p, mover, i);
    SweepCount(g0, h, p, mover, i, Disc(mover));
    SweepCount(g0, h, p, mover, i, Disc(Opponent(mover)));
    SweepCount(g0, h, p, mover, i, Empty);
  }

  /** The origin lies on none of its own rays, so it is never flipped. */
  lemma OriginNotFlipped(g: Grid, p: Pos, mover: Color, i: nat)
    requires InBounds(p) && i <= 8
    ensures !FlippedFrom(g, p, mover, p, i)
    decreases 8 - i
  {
    if i < 8 {
      OriginNotFlipped(g, p, mover, i + 1);
    }
  }

  /** A cell that is flipped held an opponent disc before the move. */
  lemma {:induction false} FlippedWasOpponent(g: Grid, p: Pos, mover: Color, q: Pos, i: nat)
    requires InBounds(p) && InBounds(q) && i <= 8
    requires FlippedFrom(g, p, mover, q, i)
    ensures At(g, q) == Disc(Opponent(mover))
    decreases 8 - i
  {
    if !FlippedBy(g, p, Directions[i], mover, q) {
      FlippedWasOpponent(g, p, mover, q, i + 1);
    }
  }

  // ---------------------------------------------------------------------------
  // Resolve

  /** A legal move puts the mover's disc on its cell, turns exactly the
      bracketed opponent discs, and leaves every other cell as it was. */
  lemma ResolveCells(row: int, col: int, s: State)
    requires IsValidMove(row, col, s)
    ensures forall q :: InBounds(q) ==>
      At(Resolve(row, col, s).grid, q)
        == if q == (row, col) || Flipped(s.grid, (row, col), s.turn, q) then Disc(s.turn) else At(s.grid, q)
    ensures forall q :: InBounds(q) && Flipped(s.grid, (row, col), s.turn, q) ==>
      At(s.grid, q) == Disc(Opponent(s.turn))
  {
    var p := (row, col);
    var placed := SetCell(s.grid, p, Disc(s.turn));
    forall j | 0 <= j < 8
      ensures AgreeOnRay(s.grid, placed, p, Directions[j])
    {
      forall t | 1 <= t && InBounds(Step(p, Directions[j], t))
        ensures At(s.grid, Step(p, Directions[j], t)) == At(placed, Step(p, Directions[j], t))
      {
        StepLeavesOrigin(p, Directions[j], t);
      }
    }
    SweepEffect(s.grid, placed, p, s.turn, 0);
    OriginNotFlipped(s.grid, p, s.turn, 0);
    forall q | InBounds(q) && Flipped(s.grid, p, s.turn, q)
      ensures At(s.grid, q) == Disc(Opponent(s.turn))
    {
      FlippedWasOpponent(s.grid, p, s.turn, q, 0);
    }
  }

  /** A legal move flips k >= 1 discs, where k is the sum over the eight
      directions of the bracketed opponent runs: the mover gains 1 + k discs,
      the opponent loses k, and one empty cell is filled. */
  lemma ResolveCounts(row: int, col: int, s: State)
    requires IsValidMove(row, col, s)
    ensures var k := FlipTotal(s.grid, (row, col), s.turn, 0);
      && k >= 1
      && Count(Resolve(row, col, s).grid, Disc(s.turn)) == Count(s.grid, Disc(s.turn)) + 1 + k
      && Count(Resolve(row, col, s).grid, Disc(Opponent(s.turn))) == Count(s.grid, Disc(Opponent(s.turn))) - k
      && Count(Resolve(row, col, s).grid, Empty) == Count(s.grid, Empty) - 1
  {
    var p := (row, col);
    var mover := s.turn;
    var placed := SetCell(s.grid, p, Disc(mover));
    forall j | 0 <= j < 8
      ensures AgreeOnRay(s.grid, placed, p, Directions[j])
    {
      forall t | 1 <= t && InBounds(Step(p, Directions[j], t))
        ensures At(s.grid, Step(p, Directions[j], t)) == At(placed, Step(p, Directions[j], t))
      {
        StepLeavesOrigin(p, Directions[j], t);
      }
    }
    SweepEffect(s.grid, placed, p, mover, 0);
    CountUpdate(s.grid, Index(p), Disc(mover), Disc(mover));
    CountUpdate(s.grid, Index(p), Disc(mover), Disc(Opponent(mover)));
    CountUpdate(s.grid, Index(p), Disc(mover), Empty);
    // Some direction brackets, and its run is counted in the total.
    var j: int :|
      0 <= j < 8 && Brackets(s.grid, p, Directions[j], mover)
    by {
      assert CheckVertical(row, col, s) || CheckHorizontal(row, col, s) || CheckDiagonal(row, col, s);
      if Brackets(s.grid, p, Directions[0], mover) {
      } else if Brackets(s.grid, p, Directions[1], mover) {
      } else if Brackets(s.grid, p, Directions[2], mover) {
      } else if Brackets(s.grid, p, Directions[3], mover) {
      } else if Brackets(s.grid, p, Directions[4], mover) {
      } else if Brackets(s.grid, p, Directions[5], mover) {
      } else if Brackets(s.grid, p, Directions[6], mover) {
      } else {
        assert Brackets(s.grid, p, Directions[7], mover);
      }
    }
    FlipTotalCovers(s.grid, p, mover, 0, j);
  }

  /** The same statement about the counts of a successor: the recount after
      a legal move adds 1 + k discs for the mover and removes k from the other side. */
  lemma SuccessorScores(s: State, row: int, col: int)
    requires IsValidMove(row, col, s)
    ensures var t := Successors(s)[(row, col)];
      var k := FlipTotal(s.grid, (row, col), s.turn, 0);
      && k >= 1
      && (s.turn == Black ==> t.black == Count(s.grid, Disc(Black)) + 1 + k && t.white == Count(s.grid, Disc(White)) - k)
      && (s.turn == White ==> t.white == Count(s.grid, Disc(White)) + 1 + k && t.black == Count(s.grid, Disc(Black)) - k)
  {
    ResolveCounts(row, col, s);
  }

  // ---------------------------------------------------------------------------
  // Successor map and Place

  /** After rebuilding the successor map, `Place` adopts the recounted
      successor of a legal move, and is a no-op for any other coordinate. */
  lemma PlaceAfterUpdate(s: State, row: int, col: int)
    ensures var t := Place(UpdatePossibleStates(s), row, col);
      && (IsValidMove(row, col, s) ==>
            t.grid == Resolve(row, col, s).grid && t.turn == Opponent(s.turn)
            && Recounted(t) && t.possible == map[])
      && (!IsValidMove(row, col, s) ==> t == UpdatePossibleStates(s))
  {
  }

  /** Every successor's counts are grid tallies, so they are non-negative
      and sum to at most 64. */
  lemma SuccessorScoresBounded(s: State, p: Pos)
    requires p in Successors(s)
    ensures var t := Successors(s)[p];
      0 <= t.white && 0 <= t.black && t.white + t.black <= 64 && -64 <= t.white - t.black <= 64
  {
    CountPartition(Successors(s)[p].grid);
  }

  // ---------------------------------------------------------------------------
  // Opening

  /** A bracketing ray starts with an opponent disc next to the origin. */
  lemma BracketsNeedsNeighbour(g: Grid, p: Pos, d: Dir, mover: Color)
    requires InBounds(p) && Brackets(g, p, d, mover)
    ensures InBounds(Step(p, d, 1)) && At(g, Step(p, d, 1)) == Disc(Opponent(mover))
  {
  }

  /** The four centre discs of the opening grid. */
  lemma OpeningAt(q: Pos)
    ensures InBounds(q) ==>
      At(Opening(), q) == (if q == (3, 3) || q == (4, 4) then Disc(White)
                           else if q == (3, 4) || q == (4, 3) then Disc(Black)
                           else Empty)
  {
  }

  /** The four (cell, direction) pairs along which black captures in the opening. */
  predicate OpeningRay(p: Pos, d: Dir) {
    (p, d) == ((2, 3), Down) || (p, d) == ((3, 2), Right) || (p, d) == ((4, 5), Left) || (p, d) == ((5, 4), Up)
  }

  /** Each of the four opening rays captures exactly one white disc. */
  lemma OpeningRayBrackets(p: Pos, d: Dir)
    requires OpeningRay(p, d)
    ensures InBounds(p) && Brackets(Opening(), p, d, Black)
  {
    OpeningAt(Step(p, d, 1));
    OpeningAt(Step(p, d, 2));
    RunLengthExact(Opening(), p, d, White, 1);
  }

  /** Any capturing ray from an empty cell of the opening grid is one of the four. */
  lemma OpeningBracketsOnly(p: Pos, d: Dir)
    requires InBounds(p) && At(Opening(), p) == Empty && Brackets(Opening(), p, d, Black)
    ensures OpeningRay(p, d)
  {
    OpeningAt(Step(p, d, 1));
    OpeningAt(Step(p, d, 2));
    OpeningAt(Step(p, d, 3));
  }

  /** In the opening grid, black brackets along exactly four (cell, direction) pairs. */
  lemma OpeningBrackets(p: Pos, d: Dir)
    requires InBounds(p) && At(Opening(), p) == Empty
    ensures Brackets(Opening(), p, d, Black) <==> OpeningRay(p, d)
  {
    if OpeningRay(p, d) {
      OpeningRayBrackets(p, d);
    } else if Brackets(Opening(), p, d, Black) {
      OpeningBracketsOnly(p, d);
    }
  }

  /** The four standard opening moves for black. */
  function OpeningMoveSet(): set<Pos> {
    {(2, 3), (3, 2), (4, 5), (5, 4)}
  }

  /** In the opening position with black to move, a cell is legal exactly
      when it is one of the four standard opening moves. */
  lemma OpeningValid(c: State, p: Pos)
    requires c.grid == Opening() && c.turn == Black
    ensures IsValidMove(p.0, p.1, c) <==> p in OpeningMoveSet()
  {
    OpeningAt(p);
    if InBounds(p) && At(c.grid, p) == Empty {
      OpeningBrackets(p, Up);
      OpeningBrackets(p, Down);
      OpeningBrackets(p, Left);
      OpeningBrackets(p, Right);
      OpeningBrackets(p, UpLeft);
      OpeningBrackets(p, UpRight);
      OpeningBrackets(p, DownLeft);
      OpeningBrackets(p, DownRight);
    }
  }

  /** The successor map's keys are exactly the legal cells. */
  lemma SuccessorKeys(s: State, moves: set<Pos>)
    requires forall p: Pos :: IsValidMove(p.0, p.1, s) <==> p in moves
    ensures Successors(s).Keys == moves
  {
  }

  /** In the opening position with black to move, the legal cells are the four
      standard opening moves. */
  lemma OpeningLegal(c: State)
    requires c.grid == Opening() && c.turn == Black
    ensures forall p: Pos :: IsValidMove(p.0, p.1, c) <==> p in OpeningMoveSet()
  {
    forall p: Pos
      ensures IsValidMove(p.0, p.1, c) <==> p in OpeningMoveSet()
    {
      OpeningValid(c, p);
    }
  }

  /** After `Clear`, black to move has exactly the four standard opening moves. */
  lemma OpeningMoves(s: State)
    ensures Successors(Clear(s)).Keys == {(2, 3), (3, 2), (4, 5), (5, 4)}
  {
    OpeningLegal(Clear(s));
    SuccessorKeys(Clear(s), OpeningMoveSet());
  }

  // ---------------------------------------------------------------------------
  // Game over

  /** A state where neither side can move is over, and a state where the side
      to move can play is not; no pass is ever made. */
  lemma GameOverOnlyWithoutMoves(s: State)
    ensures IsGameOver(s).0 ==> Successors(s) == map[]
    ensures HasMove(s) ==> !IsGameOver(s).0
  {
    if IsGameOver(s).0 {
      assert Successors(s).Keys == {};
    }
  }
}
