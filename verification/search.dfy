/** The bot's game-tree search: plain minimax, fail-soft alpha-beta, and the
    root loop that picks a move, each building a search tree and counting the
    states it examines. White maximizes and black minimizes the evaluation
    `white - black`. */
module Search {
  import opened Board
  import opened SearchTree

  /** The 32-bit sentinels the root and each inner node start from. */
  const IntMin: int := -2147483648
  const IntMax: int := 2147483647

  function Max(a: int, b: int): int {
    if a < b then b else a
  }

  function Min(a: int, b: int): int {
    if b < a then b else a
  }

  /** `a` is at least as good as `b` for the side that maximizes, or minimizes. */
  predicate AtLeast(maximizing: bool, a: int, b: int) {
    if maximizing then b <= a else a <= b
  }

  /** The better of two values for the side: their maximum or their minimum. */
  function Better(maximizing: bool, a: int, b: int): (c: int)
    ensures c == a || c == b
    ensures AtLeast(maximizing, c, a) && AtLeast(maximizing, c, b)
  {
    if maximizing then Max(a, b) else Min(a, b)
  }

  // ---------------------------------------------------------------------------
  // Iteration order of the successor map

  /** The order in which the successor map hands out its keys. The standard
      library leaves it unspecified; the search is defined for any order and
      the facts about it assume one that `Enumerates`. */
  type KeyOrder = map<Pos, State> -> seq<Pos>

  /** A successor function: the legal moves of a position, each with the
      position it leads to. The bot searches with the board's `Successors`,
      which is what `UpdatePossibleStates` stores. */
  type Game = State -> map<Pos, State>

  /** `keys` lists every key of `m` exactly once. */
  ghost predicate IsEnumeration(keys: seq<Pos>, m: map<Pos, State>) {
    && (forall i | 0 <= i < |keys| :: keys[i] in m)
    && (forall k | k in m :: k in keys)
    && (forall i, j | 0 <= i < j < |keys| :: keys[i] != keys[j])
  }

  /** The order lists the keys of every map exactly once. */
  ghost predicate Enumerates(order: KeyOrder) {
    forall m {:trigger IsEnumeration(order(m), m)} :: IsEnumeration(order(m), m)
  }

  /** The entries of `m` whose keys are listed in `keys`, in that order. */
  function Listed(keys: seq<Pos>, m: map<Pos, State>): (r: seq<(Pos, State)>)
    ensures |r| <= |keys|
    ensures forall j | 0 <= j < |r| :: r[j].0 in m && r[j].1 == m[r[j].0]
    decreases |keys|
  {
    if keys == [] then []
    else if keys[0] in m then [(keys[0], m[keys[0]])] + Listed(keys[1..], m)
    else Listed(keys[1..], m)
  }

  /** The successor map's entries in iteration order. */
  function Moves(order: KeyOrder, m: map<Pos, State>): (r: seq<(Pos, State)>)
    ensures forall j | 0 <= j < |r| :: r[j].0 in m && r[j].1 == m[r[j].0]
  {
    Listed(order(m), m)
  }

  // ---------------------------------------------------------------------------
  // Search nodes

  /** Two nodes carry the same labels: everything except the evaluation and the children. */
  predicate SameLabel(a: Node, b: Node) {
    && a.row == b.row && a.col == b.col && a.depth == b.depth && a.maximizing == b.maximizing
    && a.turn == b.turn && a.whiteScore == b.whiteScore && a.blackScore == b.blackScore
    && a.moves == b.moves
  }

  /** The fresh node made for the successor `next` reached by `key` from the
      node `parent`, whose side is `maximizing`; `depth` is the label written. */
  function ChildNode(parent: Node, key: Pos, next: State, depth: int, maximizing: bool): Node {
    Node(key.0, key.1, 0, depth, !maximizing, next.turn, next.white, next.black, parent.moves + [key], [])
  }

  /** The result of a search call: the value, the node with its evaluation and
      children filled in, and the number of states examined. */
  datatype Eval = Eval(value: int, node: Node, examined: nat)

  /** The result of a children loop: the best value, the child nodes pushed and
      the states examined under them. */
  datatype Branch = Branch(best: int, children: seq<Node>, examined: nat)

  /** The evaluation of a position where the search stops. */
  function Leaf(s: State, node: Node): (r: Eval)
    ensures Recounted(s) ==> -64 <= r.value <= 64
    ensures SameLabel(r.node, node) && r.node.heuristic == r.value && r.node.children == node.children
  {
    CountPartition(s.grid);
    Eval(s.white - s.black, node.(heuristic := s.white - s.black), 1)
  }

  // ---------------------------------------------------------------------------
  // Plain minimax

  /** Minimax to `depth` plies from `s`, filling in `node`. A position is
      terminal at depth 0 or when the side to move has no legal move. */
  function Minimax(order: KeyOrder, succ: Game, s: State, node: Node, depth: int, maximizing: bool): (r: Eval)
    requires depth >= 0
    ensures SameLabel(r.node, node) && r.node.heuristic == r.value
    decreases depth, 1, 0
  {
    if depth == 0 then Leaf(s, node)
    else
      var m := succ(s);
      if |m| == 0 then Leaf(s, node)
      else
        var b := Expand(order, succ, Moves(order, m), 0, node, depth, maximizing, if maximizing then IntMin else IntMax);
        Eval(b.best, node.(heuristic := b.best, children := node.children + b.children), 1 + b.examined)
  }

  /** The children loop of `Minimax` from entry `i` on, with `best` the value so far. */
  function Expand(order: KeyOrder, succ: Game, moves: seq<(Pos, State)>, i: nat, parent: Node, depth: int,
                  maximizing: bool, best: int): (b: Branch)
    requires depth >= 1 && i <= |moves|
    ensures |b.children| == |moves| - i
    decreases depth, 0, |moves| - i
  {
    if i == |moves| then Branch(best, [], 0)
    else
      var e := Minimax(order, succ, moves[i].1, ChildNode(parent, moves[i].0, moves[i].1, depth, maximizing),
                       depth - 1, !maximizing);
      var rest := Expand(order, succ, moves, i + 1, parent, depth, maximizing, Better(maximizing, best, e.value));
      Branch(rest.best, [e.node] + rest.children, e.examined + rest.examined)
  }

  // ---------------------------------------------------------------------------
  // Alpha-beta

  /** Fail-soft alpha-beta to `depth` plies from `s` within the window
      (alpha, beta), filling in `node`. */
  function AlphaBeta(order: KeyOrder, succ: Game, s: State, node: Node, depth: int, maximizing: bool,
                     alpha: int, beta: int): (r: Eval)
    requires depth >= 0
    ensures SameLabel(r.node, node) && r.node.heuristic == r.value
    decreases depth, 1, 0
  {
    if depth == 0 then Leaf(s, node)
    else
      var m := succ(s);
      if |m| == 0 then Leaf(s, node)
      else
        var b := ExpandPruned(order, succ, Moves(order, m), 0, node, depth, maximizing,
                              if maximizing then IntMin else IntMax, alpha, beta);
        Eval(b.best, node.(heuristic := b.best, children := node.children + b.children), 1 + b.examined)
  }

  /** The children loop of `AlphaBeta` from entry `i` on: each child is pushed,
      then the window narrows, and the loop stops once it is empty. */
  function ExpandPruned(order: KeyOrder, succ: Game, moves: seq<(Pos, State)>, i: nat, parent: Node, depth: int,
                        maximizing: bool, best: int, alpha: int, beta: int): (b: Branch)
    requires depth >= 1 && i <= |moves|
    ensures i < |moves| ==> 1 <= |b.children|
    ensures |b.children| <= |moves| - i
    decreases depth, 0, |moves| - i
  {
    if i == |moves| then Branch(best, [], 0)
    else
      var e := AlphaBeta(order, succ, moves[i].1, ChildNode(parent, moves[i].0, moves[i].1, depth, maximizing),
                         depth - 1, !maximizing, alpha, beta);
      var best' := Better(maximizing, best, e.value);
      var alpha' := if maximizing then Max(alpha, e.value) else alpha;
      var beta' := if maximizing then beta else Min(beta, e.value);
      if beta' <= alpha' then Branch(best', [e.node], e.examined)
      else
        var rest := ExpandPruned(order, succ, moves, i + 1, parent, depth, maximizing, best', alpha', beta');
        Branch(rest.best, [e.node] + rest.children, e.examined + rest.examined)
  }

  // ---------------------------------------------------------------------------
  // The bot

  /** The bot: its search depth, whether pruning is on, the tree of its last
      search and the number of states that search examined. */
  datatype Bot = Bot(depth: int, alphaBeta: bool, tree: Tree, examined: nat)

  /** A new bot searches four plies without pruning. */
  const DefaultBot: Bot := Bot(4, false, EmptyTree, 0)

  /** The default bot searches four plies without pruning and holds an empty
      tree and a zero counter. */
  lemma DefaultBotFacts()
    ensures DefaultBot.depth == 4 && !DefaultBot.alphaBeta && DefaultBot.examined == 0
    ensures GetRoot(DefaultBot.tree) == None && GetSize(DefaultBot.tree) == 0
  {
  }

  /** The chosen move, the bot after the search, and the argument state, whose
      successor map the search refreshes. */
  datatype Choice = Choice(move: Pos, bot: Bot, state: State)

  /** The result of the root loop: the best value, the move that reached it,
      the child nodes and the states examined under them. */
  datatype RootScan = RootScan(best: int, move: Pos, children: seq<Node>, examined: nat)

  /** The search of one root child, in the bot's current mode, with the full window. */
  function SearchChild(order: KeyOrder, succ: Game, bot: Bot, next: State, child: Node, maximizing: bool): (e: Eval)
    requires bot.depth >= 1
  {
    if bot.alphaBeta then AlphaBeta(order, succ, next, child, bot.depth - 1, !maximizing, IntMin, IntMax)
    else Minimax(order, succ, next, child, bot.depth - 1, !maximizing)
  }

  /** The searches of the root's children, one per entry of `moves`. Each is
      made with the full window, so none depends on the ones before it. */
  function RootSearches(order: KeyOrder, succ: Game, bot: Bot, moves: seq<(Pos, State)>, root: Node,
                        maximizing: bool): (es: seq<Eval>)
    requires bot.depth >= 1
    ensures |es| == |moves|
  {
    seq(|moves|, k requires 0 <= k < |moves| =>
      SearchChild(order, succ, bot, moves[k].1, ChildNode(root, moves[k].0, moves[k].1, bot.depth - 1, maximizing),
                  maximizing))
  }

  /** The root loop from entry `i` on, over the children's searches `es`: a
      child replaces the best so far only when it is strictly better for the
      side to move. */
  function RootLoop(moves: seq<(Pos, State)>, es: seq<Eval>, i: nat, maximizing: bool, best: int,
                    move: Pos): (r: RootScan)
    requires |es| == |moves| && i <= |moves|
    decreases |moves| - i
  {
    if i == |moves| then RootScan(best, move, [], 0)
    else
      var e := es[i];
      var improves := (maximizing && e.value > best) || (!maximizing && e.value < best);
      var rest := RootLoop(moves, es, i + 1, maximizing,
                           if improves then e.value else best, if improves then moves[i].0 else move);
      RootScan(rest.best, rest.move, [e.node] + rest.children, e.examined + rest.examined)
  }

  /** The root node of a search from `s`. */
  function RootNode(bot: Bot, s: State): Node {
    Node(-1, -1, 0, bot.depth, s.turn == White, s.turn, s.white, s.black, [], [])
  }

  /** The outcome of a search: the chosen move and the bot afterwards. */
  datatype Outcome = Outcome(move: Pos, bot: Bot)

  /** The search behind `GetBestMove` under the successor function `succ`.
      With no move the answer is (-1, -1) and the bot is untouched; otherwise
      the bot keeps the new search tree and the number of states examined. */
  function SearchRoot(order: KeyOrder, succ: Game, bot: Bot, s: State): (r: Outcome)
    requires bot.depth >= 1
    ensures |succ(s)| == 0 ==> r == Outcome((-1, -1), bot)
    ensures r.bot.depth == bot.depth && r.bot.alphaBeta == bot.alphaBeta
  {
    var m := succ(s);
    if |m| == 0 then Outcome((-1, -1), bot)
    else
      var maximizing := s.turn == White;
      var root := RootNode(bot, s);
      var moves := Moves(order, m);
      var es := RootSearches(order, succ, bot, moves, root, maximizing);
      var scan := RootLoop(moves, es, 0, maximizing, if maximizing then IntMin else IntMax, (-1, -1));
      var searched := root.(heuristic := scan.best, children := scan.children);
      var tree := SetSize(SetRoot(bot.tree, Some(searched)), 1 + scan.examined);
      Outcome(scan.move, Bot(bot.depth, bot.alphaBeta, tree, 1 + scan.examined))
  }

  /** Picks a move for the side to move in `s`, refreshing its successor map
      and searching the board's successors. */
  function GetBestMove(order: KeyOrder, bot: Bot, s: State): (r: Choice)
    requires bot.depth >= 1
    ensures r.state == UpdatePossibleStates(s)
    ensures |Successors(s)| == 0 ==> r.move == (-1, -1) && r.bot == bot
  {
    var u := UpdatePossibleStates(s);
    var o := SearchRoot(order, Successors, bot, s);
    Choice(o.move, o.bot, u)
  }

  /** A listing of each key once has as many entries as the map has keys. */
  lemma {:induction false} EnumerationSize(keys: seq<Pos>, m: map<Pos, State>)
    requires IsEnumeration(keys, m)
    ensures |keys| == |m|
    decreases |keys|
  {
    if keys != [] {
      var k := keys[0];
      var m' := m - {k};
      var rest := keys[1..];
      assert IsEnumeration(rest, m') by {
        forall x | x in m'
          ensures x in rest
        {
          var i :| 0 <= i < |keys| && keys[i] == x;
          assert i != 0;
          assert rest[i - 1] == x;
        }
      }
      EnumerationSize(rest, m');
      assert m'.Keys == m.Keys - {k};
    } else {
      assert m.Keys == {} by {
        if k :| k in m {
          assert false;
        }
      }
    }
  }
}
