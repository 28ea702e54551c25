/** What the bot's search computes: the game-theoretic value it returns, the
    fail-soft bounds of alpha-beta, the shape and size of the trees it builds,
    and the move the root loop picks. */
module SearchFacts {
  import opened Board
  import opened SearchTree
  import opened Search

  // ---------------------------------------------------------------------------
  // The reference value

  /** Every move is a board cell and every successor carries recounted scores. */
  ghost predicate WellFormed(succ: Game) {
    forall t, p | p in succ(t) :: InBounds(p) && Recounted(succ(t)[p])
  }

  lemma WellFormedAt(succ: Game, t: State, p: Pos)
    requires WellFormed(succ) && p in succ(t)
    ensures InBounds(p) && Recounted(succ(t)[p])
  {
  }

  lemma SuccessorsWellFormed()
    ensures WellFormed(Successors)
  {
    forall t, p | p in Successors(t)
      ensures InBounds(p) && Recounted(Successors(t)[p])
    {
      ValidMovesInCells(t);
      CellsAreInBounds(p);
    }
  }

  /** The cell with row-major index `i`. */
  function CellAt(i: int): Pos {
    (i / 8, i % 8)
  }

  lemma CellAtIndex(p: Pos)
    requires InBounds(p)
    ensures 0 <= 8 * p.0 + p.1 < 64 && CellAt(8 * p.0 + p.1) == p
  {
  }

  /** The minimax value of `s` searched `depth` plies deep under `succ`: the
      disc difference where the search stops, otherwise the best successor
      value for the side. The best is taken over the set of successors (by a
      scan of the 64 cells), so it depends on no iteration order. */
  ghost function Value(succ: Game, s: State, depth: nat, maximizing: bool): int
    decreases depth, 1, 0
  {
    if depth == 0 || |succ(s)| == 0 then s.white - s.black
    else
      match BestCell(succ, s, depth, maximizing, 0)
      case Some(v) => v
      case None => s.white - s.black
  }

  /** The best successor value over the cells with index `i` to 63, if any of them is a move. */
  ghost function BestCell(succ: Game, s: State, depth: nat, maximizing: bool, i: nat): Option<int>
    requires depth > 0
    decreases depth, 0, 64 - i
  {
    if i >= 64 then None
    else
      var rest := BestCell(succ, s, depth, maximizing, i + 1);
      if CellAt(i) !in succ(s) then rest
      else
        var v := Value(succ, succ(s)[CellAt(i)], depth - 1, !maximizing);
        match rest
        case None => Some(v)
        case Some(w) => Some(Better(maximizing, v, w))
  }

  /** The value of the successor reached by the move `p`. */
  ghost function ChildValue(succ: Game, s: State, depth: nat, maximizing: bool, p: Pos): int
    requires depth > 0 && p in succ(s)
  {
    Value(succ, succ(s)[p], depth - 1, !maximizing)
  }

  lemma {:induction false} BestCellSpec(succ: Game, s: State, depth: nat, maximizing: bool, i: nat)
    requires depth > 0 && i <= 64
    ensures BestCell(succ, s, depth, maximizing, i).None? <==> forall j | i <= j < 64 :: CellAt(j) !in succ(s)
    ensures BestCell(succ, s, depth, maximizing, i).Some? ==>
      && (exists j | i <= j < 64 && CellAt(j) in succ(s) ::
            BestCell(succ, s, depth, maximizing, i).value == ChildValue(succ, s, depth, maximizing, CellAt(j)))
      && (forall j | i <= j < 64 && CellAt(j) in succ(s) ::
            AtLeast(maximizing, BestCell(succ, s, depth, maximizing, i).value,
                    ChildValue(succ, s, depth, maximizing, CellAt(j))))
    decreases 64 - i
  {
    if i < 64 {
      BestCellSpec(succ, s, depth, maximizing, i + 1);
    }
  }

  /** At an inner node the value is the value of some move, and at least as
      good for the side as the value of every move. */
  lemma ValueIsBest(succ: Game, s: State, depth: nat, maximizing: bool)
    requires WellFormed(succ) && depth > 0 && |succ(s)| != 0
    ensures exists p | p in succ(s) :: Value(succ, s, depth, maximizing) == ChildValue(succ, s, depth, maximizing, p)
    ensures forall p | p in succ(s) ::
      AtLeast(maximizing, Value(succ, s, depth, maximizing), ChildValue(succ, s, depth, maximizing, p))
  {
    BestCellSpec(succ, s, depth, maximizing, 0);
    var k :| k in succ(s);
    CellAtIndex(k);
    forall p | p in succ(s)
      ensures AtLeast(maximizing, Value(succ, s, depth, maximizing), ChildValue(succ, s, depth, maximizing, p))
    {
      CellAtIndex(p);
    }
  }

  /** The value of a recounted position lies between -64 and 64. */
  lemma {:induction false} ValueRange(succ: Game, s: State, depth: nat, maximizing: bool)
    requires WellFormed(succ) && Recounted(s)
    ensures -64 <= Value(succ, s, depth, maximizing) <= 64
    decreases depth
  {
    if depth == 0 || |succ(s)| == 0 {
      CountPartition(s.grid);
    } else {
      ValueIsBest(succ, s, depth, maximizing);
      var p :| p in succ(s) && Value(succ, s, depth, maximizing) == ChildValue(succ, s, depth, maximizing, p);
      WellFormedAt(succ, s, p);
      ValueRange(succ, succ(s)[p], depth - 1, !maximizing);
    }
  }

  // ---------------------------------------------------------------------------
  // Folds over the children's values in iteration order

  /** Listing keys that are all in the map keeps every one of them. */
  lemma {:induction false} ListedAll(keys: seq<Pos>, m: map<Pos, State>)
    requires forall i | 0 <= i < |keys| :: keys[i] in m
    ensures |Listed(keys, m)| == |keys|
    ensures forall j | 0 <= j < |keys| :: Listed(keys, m)[j].0 == keys[j]
    decreases |keys|
  {
    if keys != [] {
      ListedAll(keys[1..], m);
    }
  }

  /** Under an order that enumerates, the entries are the map's keys in that order. */
  lemma MovesEnumerate(order: KeyOrder, m: map<Pos, State>)
    requires Enumerates(order)
    ensures |Moves(order, m)| == |order(m)|
    ensures forall j | 0 <= j < |order(m)| :: Moves(order, m)[j].0 == order(m)[j]
  {
    assert IsEnumeration(order(m), m);
    ListedAll(order(m), m);
  }

  /** The values of the entries of `moves` under `succ`, in order. */
  ghost function ChildValues(succ: Game, moves: seq<(Pos, State)>, depth: nat, maximizing: bool): (vs: seq<int>)
    ensures |vs| == |moves|
    ensures forall j | 0 <= j < |moves| :: vs[j] == Value(succ, moves[j].1, depth, maximizing)
  {
    seq(|moves|, j requires 0 <= j < |moves| => Value(succ, moves[j].1, depth, maximizing))
  }

  /** The best of `vals[i..]` for the side. */
  function SeqBest(maximizing: bool, vals: seq<int>, i: nat): (b: int)
    requires i < |vals|
    ensures exists j | i <= j < |vals| :: b == vals[j]
    ensures forall j | i <= j < |vals| :: AtLeast(maximizing, b, vals[j])
    decreases |vals| - i
  {
    if i == |vals| - 1 then vals[i] else Better(maximizing, vals[i], SeqBest(maximizing, vals, i + 1))
  }

  /** A children loop over `vals[i..]` that starts from `best`: the running best, left to right. */
  function FoldFrom(maximizing: bool, best: int, vals: seq<int>, i: nat): int
    requires i <= |vals|
    decreases |vals| - i
  {
    if i == |vals| then best else FoldFrom(maximizing, Better(maximizing, best, vals[i]), vals, i + 1)
  }

  /** The running best over a non-empty suffix is the better of the start and the suffix's best. */
  lemma {:induction false} FoldIsBest(maximizing: bool, best: int, vals: seq<int>, i: nat)
    requires i < |vals|
    ensures FoldFrom(maximizing, best, vals, i) == Better(maximizing, best, SeqBest(maximizing, vals, i))
    decreases |vals| - i
  {
    if i < |vals| - 1 {
      FoldIsBest(maximizing, Better(maximizing, best, vals[i]), vals, i + 1);
    }
  }

  /** Each successor of a well-formed game has a value between -64 and 64. */
  lemma ChildValuesRange(order: KeyOrder, succ: Game, s: State, depth: nat, maximizing: bool)
    requires WellFormed(succ)
    ensures forall j | 0 <= j < |Moves(order, succ(s))| ::
      -64 <= ChildValues(succ, Moves(order, succ(s)), depth, maximizing)[j] <= 64
  {
    var moves := Moves(order, succ(s));
    forall j | 0 <= j < |moves|
      ensures -64 <= ChildValues(succ, moves, depth, maximizing)[j] <= 64
    {
      WellFormedAt(succ, s, moves[j].0);
      ValueRange(succ, moves[j].1, depth, maximizing);
    }
  }

  /** Whatever the iteration order, the best of the children's values taken in
      that order is the value of the position. */
  lemma SeqBestIsValue(order: KeyOrder, succ: Game, s: State, depth: nat, maximizing: bool)
    requires Enumerates(order) && WellFormed(succ) && depth > 0 && |succ(s)| != 0
    ensures Moves(order, succ(s)) != []
    ensures SeqBest(maximizing, ChildValues(succ, Moves(order, succ(s)), depth - 1, !maximizing), 0)
            == Value(succ, s, depth, maximizing)
  {
    var m := succ(s);
    var moves := Moves(order, m);
    MovesEnumerate(order, m);
    var vs := ChildValues(succ, moves, depth - 1, !maximizing);
    var v := Value(succ, s, depth, maximizing);
    ValueIsBest(succ, s, depth, maximizing);
    var p :| p in m && v == ChildValue(succ, s, depth, maximizing, p);
    assert IsEnumeration(order(m), m);
    var j :| 0 <= j < |order(m)| && order(m)[j] == p;
    assert vs[j] == v;
    var b := SeqBest(maximizing, vs, 0);
    var i :| 0 <= i < |vs| && vs[i] == b;
    assert b == ChildValue(succ, s, depth, maximizing, moves[i].0);
  }

  // ---------------------------------------------------------------------------
  // Plain minimax returns the reference value

  /** Whatever the iteration order, plain minimax returns the minimax value of the position. */
  lemma {:induction false} MinimaxValue(order: KeyOrder, succ: Game, s: State, node: Node, depth: nat,
                                        maximizing: bool)
    requires Enumerates(order) && WellFormed(succ)
    ensures Minimax(order, succ, s, node, depth, maximizing).value == Value(succ, s, depth, maximizing)
    decreases depth, 1, 0
  {
    if depth > 0 && |succ(s)| != 0 {
      var moves := Moves(order, succ(s));
      var vs := ChildValues(succ, moves, depth - 1, !maximizing);
      var sentinel := if maximizing then IntMin else IntMax;
      ExpandIsFold(order, succ, moves, 0, node, depth, maximizing, sentinel);
      SeqBestIsValue(order, succ, s, depth, maximizing);
      FoldIsBest(maximizing, sentinel, vs, 0);
      ChildValuesRange(order, succ, s, depth - 1, !maximizing);
      var sb := SeqBest(maximizing, vs, 0);
      var j :| 0 <= j < |vs| && sb == vs[j];
      assert Better(maximizing, sentinel, sb) == sb;
    }
  }

  /** The children loop of minimax folds the children's values, left to right. */
  lemma {:induction false} ExpandIsFold(order: KeyOrder, succ: Game, moves: seq<(Pos, State)>, i: nat,
                                       parent: Node, depth: nat, maximizing: bool, best: int)
    requires Enumerates(order) && WellFormed(succ) && depth >= 1 && i <= |moves|
    ensures Expand(order, succ, moves, i, parent, depth, maximizing, best).best
            == FoldFrom(maximizing, best, ChildValues(succ, moves, depth - 1, !maximizing), i)
    decreases depth, 0, |moves| - i
  {
    if i < |moves| {
      var child := ChildNode(parent, moves[i].0, moves[i].1, depth, maximizing);
      MinimaxValue(order, succ, moves[i].1, child, depth - 1, !maximizing);
      ExpandIsFold(order, succ, moves, i + 1, parent, depth, maximizing,
                   Better(maximizing, best, Minimax(order, succ, moves[i].1, child, depth - 1, !maximizing).value));
    }
  }

  // ---------------------------------------------------------------------------
  // Fail-soft alpha-beta

  /** `r` is a fail-soft answer for the true value `v` in the window (alpha, beta):
      exact inside the window, and a bound on the right side of `v` outside it. */
  predicate FailSoft(r: int, v: int, alpha: int, beta: int) {
    && (v <= alpha ==> v <= r <= alpha)
    && (alpha < v < beta ==> r == v)
    && (beta <= v ==> beta <= r <= v)
  }

  /** The state of a maximizing children loop that started from the window
      (alpha0, beta) and has not cut off: `t` is the true best so far and `best`
      the best returned so far, with `alpha` raised to it. */
  predicate MaxLoop(alpha0: int, beta: int, alpha: int, best: int, t: int) {
    && alpha == Max(alpha0, best) && alpha < beta
    && (t <= alpha0 ==> t <= best <= alpha0)
    && (alpha0 < t ==> best == t)
  }

  /** The mirror image of `MaxLoop` for a minimizing loop, which lowers `beta`. */
  predicate MinLoop(alpha: int, beta0: int, beta: int, best: int, t: int) {
    && beta == Min(beta0, best) && alpha < beta
    && (beta0 <= t ==> beta0 <= best <= t)
    && (t < beta0 ==> best == t)
  }

  /** One child of a maximizing loop: either the window closes, and the child's
      answer is a lower bound of at least `beta`, or the loop state carries over. */
  lemma MaxStep(alpha0: int, beta: int, alpha: int, best: int, t: int, e: int, c: int)
    requires MaxLoop(alpha0, beta, alpha, best, t) && FailSoft(e, c, alpha, beta)
    ensures beta <= Max(alpha, e) ==> Max(best, e) == e && beta <= e <= c
    ensures Max(alpha, e) < beta ==> MaxLoop(alpha0, beta, Max(alpha, e), Max(best, e), Max(t, c))
  {
  }

  lemma MinStep(alpha: int, beta0: int, beta: int, best: int, t: int, e: int, c: int)
    requires MinLoop(alpha, beta0, beta, best, t) && FailSoft(e, c, alpha, beta)
    ensures Min(beta, e) <= alpha ==> Min(best, e) == e && c <= e <= alpha
    ensures alpha < Min(beta, e) ==> MinLoop(alpha, beta0, Min(beta, e), Min(best, e), Min(t, c))
  {
  }

  /** The running best never gets worse than where it started. */
  lemma {:induction false} FoldAtLeast(maximizing: bool, best: int, vals: seq<int>, i: nat)
    requires i <= |vals|
    ensures AtLeast(maximizing, FoldFrom(maximizing, best, vals, i), best)
    decreases |vals| - i
  {
    if i < |vals| {
      FoldAtLeast(maximizing, Better(maximizing, best, vals[i]), vals, i + 1);
    }
  }

  /** Alpha-beta is fail-soft: within the window it returns the minimax value,
      and outside it a bound between the window's edge and that value. */
  lemma {:induction false} AlphaBetaFailSoft(order: KeyOrder, succ: Game, s: State, node: Node, depth: nat,
                                             maximizing: bool, alpha: int, beta: int)
    requires Enumerates(order) && WellFormed(succ) && IntMin <= alpha < beta <= IntMax
    ensures FailSoft(AlphaBeta(order, succ, s, node, depth, maximizing, alpha, beta).value,
                     Value(succ, s, depth, maximizing), alpha, beta)
    decreases depth, 1, 0
  {
    if depth > 0 && |succ(s)| != 0 {
      var moves := Moves(order, succ(s));
      var vs := ChildValues(succ, moves, depth - 1, !maximizing);
      var sentinel := if maximizing then IntMin else IntMax;
      if maximizing {
        ExpandPrunedMax(order, succ, moves, 0, node, depth, alpha, beta, alpha, sentinel, sentinel);
      } else {
        ExpandPrunedMin(order, succ, moves, 0, node, depth, alpha, beta, beta, sentinel, sentinel);
      }
      SeqBestIsValue(order, succ, s, depth, maximizing);
      FoldIsBest(maximizing, sentinel, vs, 0);
      ChildValuesRange(order, succ, s, depth - 1, !maximizing);
    }
  }

  /** The children loop of a maximizing node, as long as the window stays open. */
  lemma {:induction false} ExpandPrunedMax(order: KeyOrder, succ: Game, moves: seq<(Pos, State)>, i: nat,
                                           parent: Node, depth: nat, alpha0: int, beta: int,
                                           alpha: int, best: int, t: int)
    requires Enumerates(order) && WellFormed(succ) && depth >= 1 && i <= |moves|
    requires IntMin <= alpha0 && beta <= IntMax && MaxLoop(alpha0, beta, alpha, best, t)
    ensures FailSoft(ExpandPruned(order, succ, moves, i, parent, depth, true, best, alpha, beta).best,
                     FoldFrom(true, t, ChildValues(succ, moves, depth - 1, false), i), alpha0, beta)
    decreases depth, 0, |moves| - i
  {
    var vs := ChildValues(succ, moves, depth - 1, false);
    if i < |moves| {
      var child := ChildNode(parent, moves[i].0, moves[i].1, depth, true);
      var e := AlphaBeta(order, succ, moves[i].1, child, depth - 1, false, alpha, beta).value;
      AlphaBetaFailSoft(order, succ, moves[i].1, child, depth - 1, false, alpha, beta);
      MaxStep(alpha0, beta, alpha, best, t, e, vs[i]);
      if beta <= Max(alpha, e) {
        FoldAtLeast(true, Max(t, vs[i]), vs, i + 1);
      } else {
        ExpandPrunedMax(order, succ, moves, i + 1, parent, depth, alpha0, beta, Max(alpha, e), Max(best, e),
                        Max(t, vs[i]));
      }
    }
  }

  /** The children loop of a minimizing node, as long as the window stays open. */
  lemma {:induction false} ExpandPrunedMin(order: KeyOrder, succ: Game, moves: seq<(Pos, State)>, i: nat,
                                           parent: Node, depth: nat, alpha: int, beta0: int,
                                           beta: int, best: int, t: int)
    requires Enumerates(order) && WellFormed(succ) && depth >= 1 && i <= |moves|
    requires IntMin <= alpha && beta0 <= IntMax && MinLoop(alpha, beta0, beta, best, t)
    ensures FailSoft(ExpandPruned(order, succ, moves, i, parent, depth, false, best, alpha, beta).best,
                     FoldFrom(false, t, ChildValues(succ, moves, depth - 1, true), i), alpha, beta0)
    decreases depth, 0, |moves| - i
  {
    var vs := ChildValues(succ, moves, depth - 1, true);
    if i < |moves| {
      var child := ChildNode(parent, moves[i].0, moves[i].1, depth, false);
      var e := AlphaBeta(order, succ, moves[i].1, child, depth - 1, true, alpha, beta).value;
      AlphaBetaFailSoft(order, succ, moves[i].1, child, depth - 1, true, alpha, beta);
      MinStep(alpha, beta0, beta, best, t, e, vs[i]);
      if Min(beta, e) <= alpha {
        FoldAtLeast(false, Min(t, vs[i]), vs, i + 1);
      } else {
        ExpandPrunedMin(order, succ, moves, i + 1, parent, depth, alpha, beta0, Min(beta, e), Min(best, e),
                        Min(t, vs[i]));
      }
    }
  }

  /** With the full 32-bit window, alpha-beta returns exactly the plain minimax value. */
  /** The node a search returns stores the position's value: what the tree
      display and the path lookup read. */
  lemma StoredValue(order: KeyOrder, succ: Game, s: State, node: Node, depth: nat, maximizing: bool)
    requires Enumerates(order) && WellFormed(succ)
    ensures Minimax(order, succ, s, node, depth, maximizing).node.heuristic == Value(succ, s, depth, maximizing)
    ensures AlphaBeta(order, succ, s, node, depth, maximizing, IntMin, IntMax).node.heuristic
            == Value(succ, s, depth, maximizing)
  {
    MinimaxValue(order, succ, s, node, depth, maximizing);
    FullWindow(order, succ, s, node, depth, maximizing);
  }

  lemma FullWindow(order: KeyOrder, succ: Game, s: State, node: Node, depth: nat, maximizing: bool)
    requires Enumerates(order) && WellFormed(succ)
    ensures AlphaBeta(order, succ, s, node, depth, maximizing, IntMin, IntMax).value
            == Minimax(order, succ, s, node, depth, maximizing).value
  {
    MinimaxValue(order, succ, s, node, depth, maximizing);
    AlphaBetaFailSoft(order, succ, s, node, depth, maximizing, IntMin, IntMax);
    if depth > 0 && |succ(s)| != 0 {
      ValueIsBest(succ, s, depth, maximizing);
      var p :| p in succ(s) && Value(succ, s, depth, maximizing) == ChildValue(succ, s, depth, maximizing, p);
      WellFormedAt(succ, s, p);
      ValueRange(succ, succ(s)[p], depth - 1, !maximizing);
    }
  }

  // ---------------------------------------------------------------------------
  // Counting the states examined

  lemma ForestCons(x: Node, rest: seq<Node>)
    ensures CountForest([x] + rest) == CountNodes(x) + CountForest(rest)
  {
    assert ([x] + rest)[1..] == rest;
  }

  /** Plain minimax examines exactly the nodes of the tree it builds under a fresh node. */
  lemma {:induction false} MinimaxCount(order: KeyOrder, succ: Game, s: State, node: Node, depth: nat,
                                        maximizing: bool)
    requires node.children == []
    ensures Minimax(order, succ, s, node, depth, maximizing).examined
            == CountNodes(Minimax(order, succ, s, node, depth, maximizing).node)
    decreases depth, 1, 0
  {
    if depth > 0 && |succ(s)| != 0 {
      var b := Expand(order, succ, Moves(order, succ(s)), 0, node, depth, maximizing,
                      if maximizing then IntMin else IntMax);
      ExpandCount(order, succ, Moves(order, succ(s)), 0, node, depth, maximizing,
                  if maximizing then IntMin else IntMax);
      assert node.children + b.children == b.children;
    }
  }

  lemma {:induction false} ExpandCount(order: KeyOrder, succ: Game, moves: seq<(Pos, State)>, i: nat,
                                       parent: Node, depth: nat, maximizing: bool, best: int)
    requires depth >= 1 && i <= |moves|
    ensures Expand(order, succ, moves, i, parent, depth, maximizing, best).examined
            == CountForest(Expand(order, succ, moves, i, parent, depth, maximizing, best).children)
    decreases depth, 0, |moves| - i
  {
    if i < |moves| {
      var child := ChildNode(parent, moves[i].0, moves[i].1, depth, maximizing);
      var e := Minimax(order, succ, moves[i].1, child, depth - 1, !maximizing);
      var rest := Expand(order, succ, moves, i + 1, parent, depth, maximizing, Better(maximizing, best, e.value));
      assert Expand(order, succ, moves, i, parent, depth, maximizing, best)
          == Branch(rest.best, [e.node] + rest.children, e.examined + rest.examined);
      MinimaxCount(order, succ, moves[i].1, child, depth - 1, !maximizing);
      ExpandCount(order, succ, moves, i + 1, parent, depth, maximizing, Better(maximizing, best, e.value));
      ForestCons(e.node, rest.children);
    }
  }

  /** Alpha-beta examines exactly the nodes of the tree it builds under a fresh node. */
  lemma {:induction false} AlphaBetaCount(order: KeyOrder, succ: Game, s: State, node: Node, depth: nat,
                                          maximizing: bool, alpha: int, beta: int)
    requires node.children == []
    ensures AlphaBeta(order, succ, s, node, depth, maximizing, alpha, beta).examined
            == CountNodes(AlphaBeta(order, succ, s, node, depth, maximizing, alpha, beta).node)
    decreases depth, 1, 0
  {
    if depth > 0 && |succ(s)| != 0 {
      var b := ExpandPruned(order, succ, Moves(order, succ(s)), 0, node, depth, maximizing,
                            if maximizing then IntMin else IntMax, alpha, beta);
      ExpandPrunedCount(order, succ, Moves(order, succ(s)), 0, node, depth, maximizing,
                        if maximizing then IntMin else IntMax, alpha, beta);
      assert node.children + b.children == b.children;
    }
  }

  lemma {:induction false} ExpandPrunedCount(order: KeyOrder, succ: Game, moves: seq<(Pos, State)>, i: nat,
                                             parent: Node, depth: nat, maximizing: bool, best: int,
                                             alpha: int, beta: int)
    requires depth >= 1 && i <= |moves|
    ensures ExpandPruned(order, succ, moves, i, parent, depth, maximizing, best, alpha, beta).examined
            == CountForest(ExpandPruned(order, succ, moves, i, parent, depth, maximizing, best, alpha, beta).children)
    decreases depth, 0, |moves| - i
  {
    if i < |moves| {
      var child := ChildNode(parent, moves[i].0, moves[i].1, depth, maximizing);
      var e := AlphaBeta(order, succ, moves[i].1, child, depth - 1, !maximizing, alpha, beta);
      AlphaBetaCount(order, succ, moves[i].1, child, depth - 1, !maximizing, alpha, beta);
      var best' := Better(maximizing, best, e.value);
      var alpha' := if maximizing then Max(alpha, e.value) else alpha;
      var beta' := if maximizing then beta else Min(beta, e.value);
      if beta' <= alpha' {
        ForestCons(e.node, []);
        assert [e.node] + [] == [e.node];
      } else {
        ExpandPrunedCount(order, succ, moves, i + 1, parent, depth, maximizing, best', alpha', beta');
        ForestCons(e.node, ExpandPruned(order, succ, moves, i + 1, parent, depth, maximizing,
                                        best', alpha', beta').children);
      }
    }
  }

  // ---------------------------------------------------------------------------
  // Polarity

  /** Every successor has the other side to move. */
  ghost predicate Alternates(succ: Game) {
    forall t, p | p in succ(t) :: succ(t)[p].turn == Opponent(t.turn)
  }

  lemma SuccessorsAlternate()
    ensures Alternates(Successors)
  {
  }

  /** At every node of the subtree the maximizing flag says whether white is to move. */
  predicate Polar(n: Node)
    decreases n
  {
    && n.maximizing == (n.turn == White)
    && forall k | 0 <= k < |n.children| :: Polar(n.children[k])
  }

  /** Minimax keeps the flag and the side to move in step: a polar fresh node
      searched for the side to move grows into a polar tree. */
  lemma {:induction false} MinimaxPolar(order: KeyOrder, succ: Game, s: State, node: Node, depth: nat,
                                        maximizing: bool)
    requires Alternates(succ) && Polar(node) && node.children == [] && maximizing == (s.turn == White)
    ensures Polar(Minimax(order, succ, s, node, depth, maximizing).node)
    decreases depth, 1, 0
  {
    if depth > 0 && |succ(s)| != 0 {
      var moves := Moves(order, succ(s));
      var b := Expand(order, succ, moves, 0, node, depth, maximizing, if maximizing then IntMin else IntMax);
      forall k | 0 <= k < |moves|
        ensures (moves[k].1.turn == White) == !maximizing
      {
        AlternatesAt(succ, s, moves[k].0);
      }
      ExpandPolar(order, succ, moves, 0, node, depth, maximizing, if maximizing then IntMin else IntMax);
      assert node.children + b.children == b.children;
    }
  }

  lemma AlternatesAt(succ: Game, t: State, p: Pos)
    requires Alternates(succ) && p in succ(t)
    ensures succ(t)[p].turn == Opponent(t.turn)
  {
  }

  lemma {:induction false} ExpandPolar(order: KeyOrder, succ: Game, moves: seq<(Pos, State)>, i: nat,
                                       parent: Node, depth: nat, maximizing: bool, best: int)
    requires Alternates(succ) && depth >= 1 && i <= |moves|
    requires forall k | 0 <= k < |moves| :: (moves[k].1.turn == White) == !maximizing
    ensures forall k | 0 <= k < |Expand(order, succ, moves, i, parent, depth, maximizing, best).children| ::
      Polar(Expand(order, succ, moves, i, parent, depth, maximizing, best).children[k])
    decreases depth, 0, |moves| - i
  {
    if i < |moves| {
      var child := ChildNode(parent, moves[i].0, moves[i].1, depth, maximizing);
      var e := Minimax(order, succ, moves[i].1, child, depth - 1, !maximizing);
      MinimaxPolar(order, succ, moves[i].1, child, depth - 1, !maximizing);
      ExpandPolar(order, succ, moves, i + 1, parent, depth, maximizing, Better(maximizing, best, e.value));
    }
  }

  /** The same for alpha-beta. */
  lemma {:induction false} AlphaBetaPolar(order: KeyOrder, succ: Game, s: State, node: Node, depth: nat,
                                          maximizing: bool, alpha: int, beta: int)
    requires Alternates(succ) && Polar(node) && node.children == [] && maximizing == (s.turn == White)
    ensures Polar(AlphaBeta(order, succ, s, node, depth, maximizing, alpha, beta).node)
    decreases depth, 1, 0
  {
    if depth > 0 && |succ(s)| != 0 {
      var moves := Moves(order, succ(s));
      var b := ExpandPruned(order, succ, moves, 0, node, depth, maximizing,
                            if maximizing then IntMin else IntMax, alpha, beta);
      forall k | 0 <= k < |moves|
        ensures (moves[k].1.turn == White) == !maximizing
      {
        AlternatesAt(succ, s, moves[k].0);
      }
      ExpandPrunedPolar(order, succ, moves, 0, node, depth, maximizing,
                        if maximizing then IntMin else IntMax, alpha, beta);
      assert node.children + b.children == b.children;
    }
  }

  lemma {:induction false} ExpandPrunedPolar(order: KeyOrder, succ: Game, moves: seq<(Pos, State)>, i: nat,
                                             parent: Node, depth: nat, maximizing: bool, best: int,
                                             alpha: int, beta: int)
    requires Alternates(succ) && depth >= 1 && i <= |moves|
    requires forall k | 0 <= k < |moves| :: (moves[k].1.turn == White) == !maximizing
    ensures forall k | 0 <= k < |ExpandPruned(order, succ, moves, i, parent, depth, maximizing, best, alpha, beta).children| ::
      Polar(ExpandPruned(order, succ, moves, i, parent, depth, maximizing, best, alpha, beta).children[k])
    decreases depth, 0, |moves| - i
  {
    if i < |moves| {
      var child := ChildNode(parent, moves[i].0, moves[i].1, depth, maximizing);
      var e := AlphaBeta(order, succ, moves[i].1, child, depth - 1, !maximizing, alpha, beta);
      AlphaBetaPolar(order, succ, moves[i].1, child, depth - 1, !maximizing, alpha, beta);
      var best' := Better(maximizing, best, e.value);
      var alpha' := if maximizing then Max(alpha, e.value) else alpha;
      var beta' := if maximizing then beta else Min(beta, e.value);
      if alpha' < beta' {
        ExpandPrunedPolar(order, succ, moves, i + 1, parent, depth, maximizing, best', alpha', beta');
        var rest := ExpandPruned(order, succ, moves, i + 1, parent, depth, maximizing, best', alpha', beta');
        assert ExpandPruned(order, succ, moves, i, parent, depth, maximizing, best, alpha, beta).children
            == [e.node] + rest.children;
      }
    }
  }

  // ---------------------------------------------------------------------------
  // The alpha-beta tree is a prefix of the plain tree

  /** `a` has the labels of `b`, and at every node the children of `a` are a
      prefix of those of `b`, each again a prefix of its counterpart. */
  predicate Prefix(a: Node, b: Node)
    decreases a
  {
    && SameLabel(a, b)
    && |a.children| <= |b.children|
    && forall k | 0 <= k < |a.children| :: Prefix(a.children[k], b.children[k])
  }

  /** A prefix tree has no more nodes. */
  lemma {:induction false} PrefixCount(a: Node, b: Node)
    requires Prefix(a, b)
    ensures CountNodes(a) <= CountNodes(b)
    decreases a, 1
  {
    ForestPrefixCount(a.children, b.children);
  }

  lemma {:induction false} ForestPrefixCount(xs: seq<Node>, ys: seq<Node>)
    requires |xs| <= |ys| && forall k | 0 <= k < |xs| :: Prefix(xs[k], ys[k])
    ensures CountForest(xs) <= CountForest(ys)
    decreases xs, 0
  {
    if xs != [] {
      PrefixCount(xs[0], ys[0]);
      ForestPrefixCount(xs[1..], ys[1..]);
    }
  }

  /** Whatever its window, alpha-beta builds a prefix of the plain minimax tree
      under the same fresh node. */
  lemma {:induction false} AlphaBetaPrefix(order: KeyOrder, succ: Game, s: State, node: Node, depth: nat,
                                           maximizing: bool, alpha: int, beta: int)
    requires node.children == []
    ensures SameLabel(node, Minimax(order, succ, s, node, depth, maximizing).node)
    ensures Prefix(AlphaBeta(order, succ, s, node, depth, maximizing, alpha, beta).node,
                   Minimax(order, succ, s, node, depth, maximizing).node)
    decreases depth, 1, 0
  {
    if depth > 0 && |succ(s)| != 0 {
      var moves := Moves(order, succ(s));
      var sentinel := if maximizing then IntMin else IntMax;
      var b := Expand(order, succ, moves, 0, node, depth, maximizing, sentinel);
      var bp := ExpandPruned(order, succ, moves, 0, node, depth, maximizing, sentinel, alpha, beta);
      ExpandPrunedPrefix(order, succ, moves, 0, node, depth, maximizing, sentinel, alpha, beta, sentinel);
      assert node.children + b.children == b.children;
      assert node.children + bp.children == bp.children;
    }
  }

  lemma {:induction false} ExpandPrunedPrefix(order: KeyOrder, succ: Game, moves: seq<(Pos, State)>, i: nat,
                                              parent: Node, depth: nat, maximizing: bool, best: int,
                                              alpha: int, beta: int, plainBest: int)
    requires depth >= 1 && i <= |moves|
    ensures var bp := ExpandPruned(order, succ, moves, i, parent, depth, maximizing, best, alpha, beta);
      var b := Expand(order, succ, moves, i, parent, depth, maximizing, plainBest);
      |bp.children| <= |b.children| && forall k | 0 <= k < |bp.children| :: Prefix(bp.children[k], b.children[k])
    decreases depth, 0, |moves| - i
  {
    if i < |moves| {
      var child := ChildNode(parent, moves[i].0, moves[i].1, depth, maximizing);
      var e := AlphaBeta(order, succ, moves[i].1, child, depth - 1, !maximizing, alpha, beta);
      var f := Minimax(order, succ, moves[i].1, child, depth - 1, !maximizing);
      AlphaBetaPrefix(order, succ, moves[i].1, child, depth - 1, !maximizing, alpha, beta);
      var best' := Better(maximizing, best, e.value);
      var alpha' := if maximizing then Max(alpha, e.value) else alpha;
      var beta' := if maximizing then beta else Min(beta, e.value);
      var rest := Expand(order, succ, moves, i + 1, parent, depth, maximizing, Better(maximizing, plainBest, f.value));
      assert Expand(order, succ, moves, i, parent, depth, maximizing, plainBest).children == [f.node] + rest.children;
      ExpandPrunedPrefix(order, succ, moves, i + 1, parent, depth, maximizing, best', alpha', beta',
                         Better(maximizing, plainBest, f.value));
    }
  }

  /** Alpha-beta examines no more states than plain minimax from the same position. */
  lemma AlphaBetaExaminesFewer(order: KeyOrder, succ: Game, s: State, node: Node, depth: nat,
                               maximizing: bool, alpha: int, beta: int)
    requires node.children == []
    ensures AlphaBeta(order, succ, s, node, depth, maximizing, alpha, beta).examined
            <= Minimax(order, succ, s, node, depth, maximizing).examined
  {
    AlphaBetaPrefix(order, succ, s, node, depth, maximizing, alpha, beta);
    AlphaBetaCount(order, succ, s, node, depth, maximizing, alpha, beta);
    MinimaxCount(order, succ, s, node, depth, maximizing);
    PrefixCount(AlphaBeta(order, succ, s, node, depth, maximizing, alpha, beta).node,
                Minimax(order, succ, s, node, depth, maximizing).node);
  }

  // ---------------------------------------------------------------------------
  // The root loop and the chosen move

  /** The values of the searches `es`, in order. */
  function EvalValues(es: seq<Eval>): (vs: seq<int>)
    ensures |vs| == |es| && forall k | 0 <= k < |es| :: vs[k] == es[k].value
  {
    seq(|es|, k requires 0 <= k < |es| => es[k].value)
  }

  /** The root loop ends with the best of `best` and the values from entry `i`
      on. The move changes only on a strict improvement, so a new move is the
      first entry that reaches the final best. */
  lemma {:induction false} RootLoopChoice(moves: seq<(Pos, State)>, es: seq<Eval>, i: nat, maximizing: bool,
                                          best: int, move: Pos)
    requires |es| == |moves| && i <= |moves|
    ensures var r := RootLoop(moves, es, i, maximizing, best, move);
      && r.best == FoldFrom(maximizing, best, EvalValues(es), i)
      && (r.best == best ==> r.move == move)
      && (r.best != best ==>
            exists j | i <= j < |moves| ::
              moves[j].0 == r.move && es[j].value == r.best && forall k | i <= k < j :: es[k].value != r.best)
    decreases |moves| - i
  {
    if i < |moves| {
      var vs := EvalValues(es);
      var e := es[i].value;
      var improves := (maximizing && e > best) || (!maximizing && e < best);
      var best' := if improves then e else best;
      var move' := if improves then moves[i].0 else move;
      RootLoopChoice(moves, es, i + 1, maximizing, best', move');
      FoldAtLeast(maximizing, best', vs, i + 1);
      assert Better(maximizing, best, vs[i]) == best';
    }
  }

  /** The root loop pushes the node of every search, in order. */
  lemma {:induction false} RootLoopChildren(moves: seq<(Pos, State)>, es: seq<Eval>, i: nat, maximizing: bool,
                                            best: int, move: Pos)
    requires |es| == |moves| && i <= |moves|
    ensures |RootLoop(moves, es, i, maximizing, best, move).children| == |moves| - i
    ensures forall k | 0 <= k < |moves| - i :: RootLoop(moves, es, i, maximizing, best, move).children[k] == es[i + k].node
    decreases |moves| - i
  {
    if i < |moves| {
      var e := es[i];
      var improves := (maximizing && e.value > best) || (!maximizing && e.value < best);
      RootLoopChildren(moves, es, i + 1, maximizing, if improves then e.value else best,
                       if improves then moves[i].0 else move);
    }
  }

  /** The root loop adds up the states examined under the nodes it pushes. */
  lemma {:induction false} RootLoopCount(moves: seq<(Pos, State)>, es: seq<Eval>, i: nat, maximizing: bool,
                                         best: int, move: Pos)
    requires |es| == |moves| && i <= |moves|
    requires forall k | 0 <= k < |es| :: es[k].examined == CountNodes(es[k].node)
    ensures RootLoop(moves, es, i, maximizing, best, move).examined
            == CountForest(RootLoop(moves, es, i, maximizing, best, move).children)
    decreases |moves| - i
  {
    if i < |moves| {
      var e := es[i];
      var improves := (maximizing && e.value > best) || (!maximizing && e.value < best);
      var best' := if improves then e.value else best;
      var move' := if improves then moves[i].0 else move;
      RootLoopCount(moves, es, i + 1, maximizing, best', move');
      ForestCons(e.node, RootLoop(moves, es, i + 1, maximizing, best', move').children);
    }
  }

  /** Two root loops over searches with the same values pick the same move and
      best, and the one whose searches examine fewer states examines fewer. */
  lemma {:induction false} RootLoopModes(moves: seq<(Pos, State)>, es: seq<Eval>, fs: seq<Eval>, i: nat,
                                         maximizing: bool, best: int, move: Pos)
    requires |es| == |moves| && |fs| == |moves| && i <= |moves|
    requires forall k | 0 <= k < |moves| :: es[k].value == fs[k].value && fs[k].examined <= es[k].examined
    ensures var plain := RootLoop(moves, es, i, maximizing, best, move);
      var pruned := RootLoop(moves, fs, i, maximizing, best, move);
      plain.best == pruned.best && plain.move == pruned.move && pruned.examined <= plain.examined
    decreases |moves| - i
  {
    if i < |moves| {
      var e := es[i].value;
      var improves := (maximizing && e > best) || (!maximizing && e < best);
      RootLoopModes(moves, es, fs, i + 1, maximizing, if improves then e else best,
                    if improves then moves[i].0 else move);
    }
  }

  /** In either mode, each root child's search returns the child's minimax
      value, examines the nodes of its tree, and builds a polar tree. */
  lemma RootSearchFacts(order: KeyOrder, succ: Game, s: State, bot: Bot, root: Node, maximizing: bool)
    requires Enumerates(order) && WellFormed(succ) && Alternates(succ) && bot.depth >= 1
    requires maximizing == (s.turn == White)
    ensures var moves := Moves(order, succ(s));
      var es := RootSearches(order, succ, bot, moves, root, maximizing);
      && EvalValues(es) == ChildValues(succ, moves, bot.depth - 1, !maximizing)
      && (forall k | 0 <= k < |es| :: es[k].examined == CountNodes(es[k].node))
      && (forall k | 0 <= k < |es| :: Polar(es[k].node))
  {
    var moves := Moves(order, succ(s));
    var es := RootSearches(order, succ, bot, moves, root, maximizing);
    forall k | 0 <= k < |moves|
      ensures es[k].value == ChildValues(succ, moves, bot.depth - 1, !maximizing)[k]
      ensures es[k].examined == CountNodes(es[k].node) && Polar(es[k].node)
    {
      var child := ChildNode(root, moves[k].0, moves[k].1, bot.depth - 1, maximizing);
      AlternatesAt(succ, s, moves[k].0);
      SearchChildValue(order, succ, bot, moves[k].1, child, maximizing);
      SearchChildCount(order, succ, bot, moves[k].1, child, maximizing);
      SearchChildPolar(order, succ, bot, moves[k].1, child, maximizing);
    }
  }

  lemma SearchChildValue(order: KeyOrder, succ: Game, bot: Bot, next: State, child: Node, maximizing: bool)
    requires Enumerates(order) && WellFormed(succ) && bot.depth >= 1
    ensures SearchChild(order, succ, bot, next, child, maximizing).value
            == Value(succ, next, bot.depth - 1, !maximizing)
  {
    MinimaxValue(order, succ, next, child, bot.depth - 1, !maximizing);
    FullWindow(order, succ, next, child, bot.depth - 1, !maximizing);
  }

  lemma SearchChildCount(order: KeyOrder, succ: Game, bot: Bot, next: State, child: Node, maximizing: bool)
    requires bot.depth >= 1 && child.children == []
    ensures SearchChild(order, succ, bot, next, child, maximizing).examined
            == CountNodes(SearchChild(order, succ, bot, next, child, maximizing).node)
  {
    if bot.alphaBeta {
      AlphaBetaCount(order, succ, next, child, bot.depth - 1, !maximizing, IntMin, IntMax);
    } else {
      MinimaxCount(order, succ, next, child, bot.depth - 1, !maximizing);
    }
  }

  lemma SearchChildPolar(order: KeyOrder, succ: Game, bot: Bot, next: State, child: Node, maximizing: bool)
    requires bot.depth >= 1 && child.children == [] && Alternates(succ) && Polar(child)
    requires !maximizing == (next.turn == White)
    ensures Polar(SearchChild(order, succ, bot, next, child, maximizing).node)
  {
    if bot.alphaBeta {
      AlphaBetaPolar(order, succ, next, child, bot.depth - 1, !maximizing, IntMin, IntMax);
    } else {
      MinimaxPolar(order, succ, next, child, bot.depth - 1, !maximizing);
    }
  }

  /** `p` is a move whose value is the value of `s`, and every move before it in
      iteration order is strictly worse: the first best move. */
  ghost predicate FirstBest(order: KeyOrder, succ: Game, s: State, depth: nat, maximizing: bool, p: Pos)
    requires depth >= 1
  {
    && p in succ(s)
    && ChildValue(succ, s, depth, maximizing, p) == Value(succ, s, depth, maximizing)
    && exists j | 0 <= j < |order(succ(s))| ::
         && order(succ(s))[j] == p
         && forall k | 0 <= k < j && order(succ(s))[k] in succ(s) ::
              ChildValue(succ, s, depth, maximizing, order(succ(s))[k]) != Value(succ, s, depth, maximizing)
  }

  /** With a move available, the root loop started from the sentinel ends on a
      key whose value is the minimax value of the position, the first such key
      in iteration order, and with that value as its best. */
  lemma RootChoice(order: KeyOrder, succ: Game, s: State, moves: seq<(Pos, State)>, es: seq<Eval>,
                   depth: nat, maximizing: bool)
    requires Enumerates(order) && WellFormed(succ) && depth >= 1 && |succ(s)| != 0
    requires moves == Moves(order, succ(s)) && EvalValues(es) == ChildValues(succ, moves, depth - 1, !maximizing)
    ensures var r := RootLoop(moves, es, 0, maximizing, if maximizing then IntMin else IntMax, (-1, -1));
      r.best == Value(succ, s, depth, maximizing) && FirstBest(order, succ, s, depth, maximizing, r.move)
  {
    var m := succ(s);
    var sentinel := if maximizing then IntMin else IntMax;
    var vs := EvalValues(es);
    var r := RootLoop(moves, es, 0, maximizing, sentinel, (-1, -1));
    var v := Value(succ, s, depth, maximizing);
    MovesEnumerate(order, m);
    RootLoopChoice(moves, es, 0, maximizing, sentinel, (-1, -1));
    SeqBestIsValue(order, succ, s, depth, maximizing);
    FoldIsBest(maximizing, sentinel, vs, 0);
    ChildValuesRange(order, succ, s, depth - 1, !maximizing);
    assert r.best == v;
    var j :| 0 <= j < |moves| && moves[j].0 == r.move && es[j].value == r.best
             && forall k | 0 <= k < j :: es[k].value != r.best;
    assert order(m)[j] == r.move;
    forall k | 0 <= k < j && order(m)[k] in m
      ensures ChildValue(succ, s, depth, maximizing, order(m)[k]) != v
    {
      assert vs[k] == es[k].value;
      assert order(m)[k] == moves[k].0;
    }
  }

  /** With a move available, the search picks a key of the successor map whose
      value is the minimax value of the position, the first such key in
      iteration order. */
  lemma SearchRootChoice(order: KeyOrder, succ: Game, bot: Bot, s: State)
    requires Enumerates(order) && WellFormed(succ) && Alternates(succ) && bot.depth >= 1 && |succ(s)| != 0
    ensures FirstBest(order, succ, s, bot.depth, s.turn == White, SearchRoot(order, succ, bot, s).move)
  {
    var maximizing := s.turn == White;
    var moves := Moves(order, succ(s));
    var root := RootNode(bot, s);
    RootSearchFacts(order, succ, s, bot, root, maximizing);
    RootChoice(order, succ, s, moves, RootSearches(order, succ, bot, moves, root, maximizing),
               bot.depth, maximizing);
  }

  /** With a move available, the stored root carries the minimax value of the position. */
  lemma SearchRootValue(order: KeyOrder, succ: Game, bot: Bot, s: State)
    requires Enumerates(order) && WellFormed(succ) && Alternates(succ) && bot.depth >= 1 && |succ(s)| != 0
    ensures var r := SearchRoot(order, succ, bot, s);
      GetRoot(r.bot.tree).Some? && GetRoot(r.bot.tree).value.heuristic == Value(succ, s, bot.depth, s.turn == White)
  {
    var maximizing := s.turn == White;
    var moves := Moves(order, succ(s));
    var root := RootNode(bot, s);
    RootSearchFacts(order, succ, s, bot, root, maximizing);
    RootChoice(order, succ, s, moves, RootSearches(order, succ, bot, moves, root, maximizing),
               bot.depth, maximizing);
  }

  /** With a move available, the stored tree has one root child per move, is
      polar, and has as many nodes as the states examined, which is also the
      size recorded. */
  lemma SearchRootTree(order: KeyOrder, succ: Game, bot: Bot, s: State)
    requires Enumerates(order) && WellFormed(succ) && Alternates(succ) && bot.depth >= 1 && |succ(s)| != 0
    ensures var r := SearchRoot(order, succ, bot, s);
      && GetRoot(r.bot.tree).Some?
      && |GetRoot(r.bot.tree).value.children| == |succ(s)|
      && r.bot.examined == GetSize(r.bot.tree) == CountNodes(GetRoot(r.bot.tree).value)
      && Polar(GetRoot(r.bot.tree).value)
  {
    var m := succ(s);
    var maximizing := s.turn == White;
    var root := RootNode(bot, s);
    var moves := Moves(order, m);
    var es := RootSearches(order, succ, bot, moves, root, maximizing);
    var start := if maximizing then IntMin else IntMax;
    var scan := RootLoop(moves, es, 0, maximizing, start, (-1, -1));
    SearchRootUnfold(order, succ, bot, s);
    MovesEnumerate(order, m);
    EnumerationSize(order(m), m);
    RootSearchFacts(order, succ, s, bot, root, maximizing);
    RootLoopChildren(moves, es, 0, maximizing, start, (-1, -1));
    RootLoopCount(moves, es, 0, maximizing, start, (-1, -1));
    SearchedRootFacts(root, es, scan.children, scan.best, scan.examined);
  }

  /** The tree `SearchRoot` stores holds the root node with the root loop's
      value and children, and records one more node than the loop examined. */
  lemma SearchRootUnfold(order: KeyOrder, succ: Game, bot: Bot, s: State)
    requires bot.depth >= 1 && |succ(s)| != 0
    ensures var maximizing := s.turn == White;
      var moves := Moves(order, succ(s));
      var es := RootSearches(order, succ, bot, moves, RootNode(bot, s), maximizing);
      var scan := RootLoop(moves, es, 0, maximizing, if maximizing then IntMin else IntMax, (-1, -1));
      var r := SearchRoot(order, succ, bot, s);
      && GetRoot(r.bot.tree) == Some(RootNode(bot, s).(heuristic := scan.best, children := scan.children))
      && r.bot.examined == GetSize(r.bot.tree) == 1 + scan.examined
  {
  }

  /** A root whose children are the searches' trees is polar and counts one
      node more than they do. */
  lemma SearchedRootFacts(root: Node, es: seq<Eval>, children: seq<Node>, best: int, examined: int)
    requires root.maximizing == (root.turn == White)
    requires |children| == |es| && forall k | 0 <= k < |es| :: children[k] == es[k].node
    requires forall k | 0 <= k < |es| :: Polar(es[k].node)
    requires examined == CountForest(children)
    ensures Polar(root.(heuristic := best, children := children))
    ensures CountNodes(root.(heuristic := best, children := children)) == 1 + examined
  {
  }

  /** Plain and alpha-beta mode pick the same move and the same root value, and
      alpha-beta mode examines no more states. */
  lemma SearchRootModes(order: KeyOrder, succ: Game, bot: Bot, s: State)
    requires Enumerates(order) && WellFormed(succ) && bot.depth >= 1
    ensures var plain := SearchRoot(order, succ, bot.(alphaBeta := false), s);
      var pruned := SearchRoot(order, succ, bot.(alphaBeta := true), s);
      && plain.move == pruned.move
      && (GetRoot(plain.bot.tree).Some? <==> GetRoot(pruned.bot.tree).Some?)
      && (GetRoot(plain.bot.tree).Some? ==>
            GetRoot(plain.bot.tree).value.heuristic == GetRoot(pruned.bot.tree).value.heuristic)
      && pruned.bot.examined <= plain.bot.examined
  {
    var m := succ(s);
    if |m| != 0 {
      var maximizing := s.turn == White;
      var moves := Moves(order, m);
      var root := RootNode(bot, s);
      var es := RootSearches(order, succ, bot.(alphaBeta := false), moves, root, maximizing);
      var fs := RootSearches(order, succ, bot.(alphaBeta := true), moves, root, maximizing);
      forall k | 0 <= k < |moves|
        ensures es[k].value == fs[k].value && fs[k].examined <= es[k].examined
      {
        SearchChildModes(order, succ, bot, moves[k].1,
                         ChildNode(root, moves[k].0, moves[k].1, bot.depth - 1, maximizing), maximizing);
      }
      RootLoopModes(moves, es, fs, 0, maximizing, if maximizing then IntMin else IntMax, (-1, -1));
    }
  }

  /** The bot on the board: with a legal move available it plays a legal cell
      of minimax value, the first in iteration order, and keeps a tree whose
      root carries that value. */
  lemma BestMove(order: KeyOrder, bot: Bot, s: State)
    requires Enumerates(order) && bot.depth >= 1 && |Successors(s)| != 0
    ensures var r := GetBestMove(order, bot, s);
      && IsValidMove(r.move.0, r.move.1, s)
      && FirstBest(order, Successors, s, bot.depth, s.turn == White, r.move)
      && GetRoot(r.bot.tree).Some?
      && GetRoot(r.bot.tree).value.heuristic == Value(Successors, s, bot.depth, s.turn == White)
  {
    SuccessorsWellFormed();
    SuccessorsAlternate();
    SearchRootChoice(order, Successors, bot, s);
    SearchRootValue(order, Successors, bot, s);
  }

  /** The disc differential the search scores a position by. */
  function Differential(t: State): int {
    t.white - t.black
  }

  /** Searching one ply is greedy: the move played leads to a position whose
      differential is the best, for the side to move, over all legal moves. */
  lemma GreedyAtDepthOne(order: KeyOrder, bot: Bot, s: State)
    requires Enumerates(order) && bot.depth == 1 && |Successors(s)| != 0
    ensures var r := GetBestMove(order, bot, s);
      && r.move in Successors(s)
      && forall p | p in Successors(s) ::
           AtLeast(s.turn == White, Differential(Successors(s)[r.move]), Differential(Successors(s)[p]))
  {
    var maximizing := s.turn == White;
    var r := GetBestMove(order, bot, s);
    BestMove(order, bot, s);
    SuccessorsWellFormed();
    ValueIsBest(Successors, s, 1, maximizing);
    assert ChildValue(Successors, s, 1, maximizing, r.move) == Value(Successors, s, 1, maximizing);
  }

  /** The bot on the board keeps a polar tree with one root child per legal
      move and as many nodes as the states it examined. */
  lemma BestMoveTree(order: KeyOrder, bot: Bot, s: State)
    requires Enumerates(order) && bot.depth >= 1 && |Successors(s)| != 0
    ensures var r := GetBestMove(order, bot, s);
      && GetRoot(r.bot.tree).Some?
      && |GetRoot(r.bot.tree).value.children| == |Successors(s)|
      && r.bot.examined == GetSize(r.bot.tree) == CountNodes(GetRoot(r.bot.tree).value)
      && Polar(GetRoot(r.bot.tree).value)
  {
    SuccessorsWellFormed();
    SuccessorsAlternate();
    SearchRootTree(order, Successors, bot, s);
  }

  /** On the board, both modes of the bot pick the same move and root value,
      and pruning examines no more states. */
  lemma ModesAgree(order: KeyOrder, bot: Bot, s: State)
    requires Enumerates(order) && bot.depth >= 1
    ensures var plain := GetBestMove(order, bot.(alphaBeta := false), s);
      var pruned := GetBestMove(order, bot.(alphaBeta := true), s);
      && plain.move == pruned.move
      && (GetRoot(plain.bot.tree).Some? <==> GetRoot(pruned.bot.tree).Some?)
      && (GetRoot(plain.bot.tree).Some? ==>
            GetRoot(plain.bot.tree).value.heuristic == GetRoot(pruned.bot.tree).value.heuristic)
      && pruned.bot.examined <= plain.bot.examined
  {
    SuccessorsWellFormed();
    SearchRootModes(order, Successors, bot, s);
  }

  lemma SearchChildModes(order: KeyOrder, succ: Game, bot: Bot, next: State, child: Node, maximizing: bool)
    requires Enumerates(order) && WellFormed(succ) && bot.depth >= 1 && child.children == []
    ensures var plain := SearchChild(order, succ, bot.(alphaBeta := false), next, child, maximizing);
      var pruned := SearchChild(order, succ, bot.(alphaBeta := true), next, child, maximizing);
      plain.value == pruned.value && pruned.examined <= plain.examined
  {
    FullWindow(order, succ, next, child, bot.depth - 1, !maximizing);
    AlphaBetaExaminesFewer(order, succ, next, child, bot.depth - 1, !maximizing, IntMin, IntMax);
  }
}
