# Othello engine: board rules, game-tree search and search tree

This project models the core of an Othello game with a minimax bot.

- **Board rules** (`board.dfy`, module `Board`; facts in `board_facts.dfy`, module `BoardFacts`).
  - A state holds an 8×8 grid, the side to move, cached white and black disc counts, and the successor map built by `updatePossibleStates`.
  - Legality is the ray walk of `checkVertical`, `checkHorizontal` and `checkDiagonal`.
  - `resolve` places a disc and flips the bracketed runs direction by direction, on the growing board, as the source loop does.
  - `updateScore` recounts the discs.
  - `place` adopts a stored successor.
  - `isGameOver` asks both sides for a move.
- **The bot** (`search.dfy`, module `Search`; facts in `search_facts.dfy`, module `SearchFacts`).
  - `minimax` comes in two forms: plain, and fail-soft alpha-beta. Both build search nodes and count the states they examine.
  - `getBestMove` runs the root loop. It keeps the first strictly better child, stores the tree and the count in the bot, and answers (-1, -1) when there is no move.
  - The search is written for any successor function (`Game`). `GetBestMove` passes the board's `Successors`, which is exactly the map `updatePossibleStates` stores.
  - Facts are proved under two hypotheses: every successor key is a cell and every successor is recounted (`WellFormed`), and the turn alternates (`Alternates`). They are then instantiated for the board.
- **The search tree** (`searchtree.dfy`, module `SearchTree`).
  - Nodes carry a `seq` of children.
  - The operations are the root and size accessors, pre-order `traverse`, the first-match `getPath`, `getMaxDepth` and `countNodes`.
- **The colour decoder** (`hex_color.dfy`, module `HexColor`): `fromHex`.

## Model decisions

- The successor map is a `std::unordered_map`, whose iteration order the language leaves unspecified.
  - The model takes the order as a parameter: a `KeyOrder`, a function from a map to a sequence of its keys.
  - Every fact about the search assumes only that the order lists each key exactly once (`Enumerates`).
  - Tie-breaking is stated relative to that order.
- Map keys `"r:c"` are modelled as `(row, col)` pairs. The move-sequence string of a node is modelled as the list of moves from the root.
- The reference value `SearchFacts.Value` is an independent definition. It scans the 64 cells and takes the maximum or minimum of the successors' values, with `white - black` at depth 0 or when there is no move.
  - Plain minimax is proved equal to it (`MinimaxValue`).
  - Alpha-beta is proved equal to it only with the full window `(INT_MIN, INT_MAX)`, the window the bot uses (`FullWindow`). For any other window, `AlphaBetaFailSoft` proves only the fail-soft bounds.
- The counts cached in a state are only recomputed by `updateScore`, as in the source.
- The leaf evaluation reads the cached counts, as the source does.
- **Successor order.** The code iterates a `std::unordered_map`, so the model allows any order.
- **The examined counter.** Only `minimax` calls and the root increment it (inc/OthelloBot.hpp:47, 98, 174). A pruned sibling is never constructed, so the count equals the number of nodes in the tree.
- **Node depth.** The labels are the ones the code writes:
  - A child node made inside `minimax` carries its parent's depth (inc/OthelloBot.hpp:129, 155, 205, 237).
  - The root's children carry `m_depth - 1` (inc/OthelloBot.hpp:63).
- **The search tree's visitor.** `traverse` hands each node to the visitor as a mutable `shared_ptr`. `Traverse` and `Preorder` model a traversal as the list of nodes visited. This assumes that the visitor does not change the tree while it is walked.

## Model

| member | source | states |
|---|---|---|
| Board.Clear | inc/Board.hpp:36-47 | the grid becomes the opening grid (white on (3,3) and (4,4), black on (3,4) and (4,3), all else empty) and black is to move; the cached counts and the successor map are kept |
| Board.NewState | inc/Board.hpp:27-34 | a constructed state has counts 2 and 2 that equal the grid's tallies, black to move and no successors |
| Board.OpeningTallies | inc/Board.hpp:30-44 | the opening grid holds exactly two white and two black discs |
| Board.Resolve | inc/Board.hpp:210-250 | an illegal move returns the state unchanged; a legal one puts the mover's disc on the cell, hands the turn to the opponent, keeps the cached counts and empties the successor map |
| Board.UpdateScore | inc/Board.hpp:252-266 | the counts become the grid's tallies, both non-negative, with white + black + empty = 64; grid, turn and map are kept |
| Board.Successors | inc/Board.hpp:52-62 | the keys are exactly the legal cells; each entry has the resolved grid, the opponent to move, recounted scores and no successors |
| Board.UpdatePossibleStates | inc/Board.hpp:49-63 | the stored map's keys become exactly the legal cells; grid, turn and counts are kept |
| Board.Place | inc/Board.hpp:65-69 | the stored successor is adopted exactly when the key is present; otherwise the state is unchanged |
| Board.IsGameOver | inc/Board.hpp:268-282 | the verdict is true exactly when neither the side to move nor its opponent has a legal cell; the argument's successor map is refreshed |
| Board.CheckVertical | inc/Board.hpp:72-103 | holds exactly when the cell is empty and a capture line runs up or down from it (proved in `BoardFacts.VerticalLines`) |
| Board.CheckHorizontal | inc/Board.hpp:105-136 | holds exactly when the cell is empty and a capture line runs left or right from it (proved in `BoardFacts.HorizontalLines`) |
| Board.CheckDiagonal | inc/Board.hpp:138-175 | holds exactly when the cell is empty and a capture line runs along one of the four diagonals (proved in `BoardFacts.DiagonalLines`) |
| Board.IsValidMove | inc/Board.hpp:177-191 | holds exactly when the cell is on the board, empty, and a capture line runs from it in some direction (proved in `BoardFacts.ValidMoveIff`) |
| BoardFacts.CheckLines | inc/Board.hpp:72-175 | each of the three direction checks holds exactly when the cell is empty and some k >= 1 opponent discs along one of its directions are followed by a disc of the mover |
| BoardFacts.BracketsIsCaptureLine | inc/Board.hpp:84-100 | the ray walk finds a capture exactly when some k >= 1 opponent discs are followed, on the board, by a disc of the mover |
| BoardFacts.ValidMoveIff | inc/Board.hpp:177-191 | a move is legal exactly when it is on the board, its cell is empty and some of the eight rays is a capture line |
| BoardFacts.SweepEffect | inc/Board.hpp:226-246 | the direction loop, run on the growing board, flips exactly the cells that lie in a run bracketed on the original board, and moves that many discs between the tallies |
| BoardFacts.ResolveCells | inc/Board.hpp:214-250 | a legal move sets its cell and exactly the bracketed cells to the mover's colour, every other cell is unchanged, and every flipped cell held an opponent disc |
| BoardFacts.ResolveCounts | inc/Board.hpp:217-248 | a legal move flips k >= 1 discs, k being the sum over the eight directions of the bracketed runs; the mover gains 1 + k discs, the opponent loses k, and one empty cell is filled |
| BoardFacts.SuccessorScores | inc/Board.hpp:54-57 | each successor's recounted scores are the old tallies moved by 1 + k for the mover and -k for the opponent, with k >= 1 |
| BoardFacts.SuccessorScoresBounded | inc/Board.hpp:257-265 | each successor's counts are non-negative, sum to at most 64, and their difference lies in [-64, 64] |
| BoardFacts.PlaceAfterUpdate | inc/Board.hpp:49-69 | after the map is rebuilt, placing a legal move yields the resolved grid with the opponent to move and recounted scores; any other coordinate leaves the state unchanged |
| BoardFacts.OpeningBrackets | inc/Board.hpp:41-44 | on the opening grid, black captures along exactly four (cell, direction) pairs: (2,3) down, (3,2) right, (4,5) left and (5,4) up |
| BoardFacts.OpeningValid | inc/Board.hpp:177-191 | in the opening with black to move, a cell is legal exactly when it is one of (2,3), (3,2), (4,5), (5,4) |
| BoardFacts.OpeningMoves | inc/Board.hpp:36-63 | after a reset, the successor keys are exactly {(2,3), (3,2), (4,5), (5,4)} |
| BoardFacts.GameOverOnlyWithoutMoves | inc/Board.hpp:273-275 | a finished game has an empty successor map, and a side with a legal cell is never reported finished |
| SearchTree.EmptyTreeFacts | inc/SearchTree.hpp:29 | a default-constructed tree has no root and size 0; it visits nothing, finds no path and has depth 0 |
| SearchTree.SetRoot | inc/SearchTree.hpp:32-36 | the root read back is the one set, and the recorded size is kept |
| SearchTree.SetSize | inc/SearchTree.hpp:38-44 | the size read back is the one set, and the root is kept |
| SearchTree.AccessorRoundTrips | inc/SearchTree.hpp:32-44 | writing back what was read changes nothing, a second write wins, and the two setters commute |
| SearchTree.Traverse | inc/SearchTree.hpp:46-49 | an empty tree visits nothing; otherwise the root is visited first |
| SearchTree.TraverseLength | inc/SearchTree.hpp:67-80 | a traversal visits as many nodes as countNodes counts |
| SearchTree.PreorderShape | inc/SearchTree.hpp:75-80 | a node is visited before its children, and each child's subtree is one contiguous block, left to right |
| SearchTree.CountNodes | inc/SearchTree.hpp:67-73 | a node counts itself and its descendants, at least 1; it equals the number of nodes a traversal visits (`SearchTree.TraverseLength`) |
| SearchTree.FindPath | inc/SearchTree.hpp:82-96 | the depth-first path search; its meaning is stated by `SearchTree.FindPathSpec` |
| SearchTree.GetPath | inc/SearchTree.hpp:51-56 | the root-to-first-match path; its meaning is stated by `SearchTree.GetPathSpec` |
| SearchTree.FindPathSpec | inc/SearchTree.hpp:82-96 | no path is found exactly when no node in the subtree matches; a found path starts at the node, descends child by child, ends at the first matching node in pre-order and passes no earlier match |
| SearchTree.GetPathSpec | inc/SearchTree.hpp:51-56 | the path is empty exactly when no traversed node matches; otherwise it runs from the root to the first match in traversal order |
| SearchTree.CalcMaxDepth | inc/SearchTree.hpp:98-107 | the depth of the deepest node below the argument, counted from `currentDepth`; stated by `SearchTree.CalcMaxDepthIsMax` |
| SearchTree.GetMaxDepth | inc/SearchTree.hpp:58-61 | 0 without a root, else the depth of the deepest node; stated by `SearchTree.GetMaxDepthSpec` |
| SearchTree.CalcMaxDepthIsMax | inc/SearchTree.hpp:98-107 | the result is the depth of some node and no node is deeper |
| SearchTree.GetMaxDepthSpec | inc/SearchTree.hpp:58-61 | the maximum depth is 0 for an empty tree or a lone root; otherwise it is the depth of the deepest node |
| Search.Leaf | inc/OthelloBot.hpp:100-115 | a leaf scores white - black, which lies in [-64, 64] when the counts are tallies, and writes it into the node without changing its labels or children |
| Search.Minimax | inc/OthelloBot.hpp:97-168 | the returned node keeps the argument's labels and stores the returned value as its heuristic; the value is the reference value (`SearchFacts.MinimaxValue`) |
| Search.AlphaBeta | inc/OthelloBot.hpp:173-256 | the returned node keeps the argument's labels and stores the returned value as its heuristic; fail-soft bounds in `SearchFacts.AlphaBetaFailSoft` |
| Search.DefaultBotFacts | inc/OthelloBot.hpp:89-92 | a default bot searches 4 plies without pruning, with an empty tree and a zero counter |
| Search.SearchRoot | inc/OthelloBot.hpp:29-86 | with no successor the answer is (-1, -1) and the bot is untouched; the bot's depth and mode never change |
| Search.GetBestMove | inc/OthelloBot.hpp:29-33 | the argument state gets its successor map refreshed; with no legal move the answer is (-1, -1) and the bot, tree and counter included, is untouched |
| SearchFacts.SuccessorsWellFormed | inc/Board.hpp:52-59 | every successor key is a board cell and every successor's counts are its grid's tallies |
| SearchFacts.ValueIsBest | inc/OthelloBot.hpp:117-167 | at an inner position the reference value is some child's value and is at least as good as every child's for the side to move |
| SearchFacts.ValueRange | inc/OthelloBot.hpp:101-115 | the value of a position with recounted scores lies in [-64, 64], so no sentinel leaks out |
| SearchFacts.MinimaxValue | inc/OthelloBot.hpp:97-168 | plain minimax returns the reference value: white - black at depth 0 or with no move, otherwise the max or min of the children |
| SearchFacts.AlphaBetaFailSoft | inc/OthelloBot.hpp:173-256 | alpha-beta within (alpha, beta) is fail-soft: the exact value inside the window, otherwise a bound on the same side of the window as the value |
| SearchFacts.StoredValue | inc/OthelloBot.hpp:139-165 | the node a plain or full-window alpha-beta search returns stores the position's reference value, which the tree display and the path lookup read |
| SearchFacts.FullWindow | inc/OthelloBot.hpp:69-70 | alpha-beta started with (INT_MIN, INT_MAX) returns exactly the plain minimax value |
| SearchFacts.MinimaxCount | inc/OthelloBot.hpp:97-98 | the states plain minimax examines equal the nodes of the tree it builds |
| SearchFacts.AlphaBetaCount | inc/OthelloBot.hpp:173-174 | the states alpha-beta examines equal the nodes of the tree it builds |
| SearchFacts.MinimaxPolar | inc/OthelloBot.hpp:118-167 | searched for the side to move, every node of the plain tree has maximizing == (turn is white) |
| SearchFacts.AlphaBetaPolar | inc/OthelloBot.hpp:194-255 | the same polarity holds in every node of the alpha-beta tree |
| SearchFacts.AlphaBetaPrefix | inc/OthelloBot.hpp:210-219 | the alpha-beta tree is a child-prefix of the plain tree: same labels, and at every node the first children of the plain tree |
| SearchFacts.AlphaBetaExaminesFewer | inc/OthelloBot.hpp:213-219 | alpha-beta examines no more states than plain minimax |
| SearchFacts.RootLoopChoice | inc/OthelloBot.hpp:76-79 | the root loop's best is the fold of the children's values; the move changes only on a strict improvement and is then the first entry reaching the best |
| SearchFacts.RootChoice | inc/OthelloBot.hpp:49-80 | the root loop's best is the position's minimax value, and its move is the first key in iteration order whose child reaches it |
| SearchFacts.SearchRootTree | inc/OthelloBot.hpp:35-84 | the stored tree has one root child per successor, its size and the counter both equal its node count, and it is polar |
| SearchFacts.SearchRootModes | inc/OthelloBot.hpp:67-70 | both modes pick the same move and root value, and the pruned mode examines no more states |
| SearchFacts.BestMove | inc/OthelloBot.hpp:29-86 | with a legal move available, the bot plays a legal cell of minimax value, the first such in iteration order, and its tree's root carries that value |
| SearchFacts.BestMoveTree | inc/OthelloBot.hpp:38-84 | on the board, the stored tree has one root child per legal move, records its node count as size and counter, and is polar |
| SearchFacts.ModesAgree | inc/OthelloBot.hpp:68-79 | on the board, with and without pruning the bot plays the same move and stores the same root value, and pruning examines no more states |
| SearchFacts.GreedyAtDepthOne | inc/OthelloBot.hpp:101-105 | at depth 1 the move played leads to the best disc differential, for the side to move, among all legal moves |
| HexColor.StripHash | inc/Util.hpp:15-17 | one leading '#' is removed; any other string is kept as it is |
| HexColor.PairValue | inc/Util.hpp:22-29 | two hex digits decode to a value of at most 255 |
| HexColor.FromHex | inc/Util.hpp:11-33 | any length other than 6 or 8 gives (0, 0, 0, 255); 6 digits give alpha 255; r, g, b (and alpha with 8 digits) are the values spelled by digit pairs 0-1, 2-3, 4-5 (and 6-7); every channel fits in a byte |
| HexColor.FromHexToHex | inc/Util.hpp:19-32 | decoding the '#' and eight-digit encoding of a colour gives the colour back |
| HexColor.ToHexFromHex | inc/Util.hpp:25-29 | a '#' with eight lower-case digits is re-encoded from its decoded colour to the same string |
| HexColor.HashOptional | inc/Util.hpp:15-17 | the leading '#' does not change the decoded colour |
| HexColor.ShortFormIsOpaque | inc/Util.hpp:21-29 | six digits decode like the same digits followed by "ff" |

## Left out

- `printState` (inc/Board.hpp:193-208) writes to the terminal; it is output only.
- Only the cases used by the bot are modelled for `minimax`'s `node` argument.
  - The counting, polarity and prefix facts assume a fresh node without children, as `std::make_shared<SearchNode>()` creates.
  - Minimax itself accepts any node and appends the children it builds.
- Search.GetBestMove: requires `depth >= 1`. With a non-positive depth, the `depth == 0` test at inc/OthelloBot.hpp:101 is never reached. The source then searches on until it reaches a position where the side to move has no legal move (inc/OthelloBot.hpp:111). The side without a move does not pass, so that position need not be the end of the game.
- HexColor.FromHex: requires that a stripped string of length 6 or 8 consists of hex digits. `std::stoul` throws on other characters, or reads only a prefix of them. That behaviour is not modelled.
- The conversion of the `unsigned int` channels to the colour type's byte is not written out. It never truncates, since every channel is at most 255.
- The search uses no integer arithmetic that could overflow. Values stay within [-64, 64], so the 32-bit sentinels `INT_MIN` and `INT_MAX` are plain integers here.
- `size_t` counters are unbounded naturals. A search tree never comes near 2^64 nodes.
- The user interface, threads, timers and tree layout are not part of this model. This covers inc/Othello.hpp, inc/TreeDisplay.hpp and src/main.cpp: the SFML window, `std::async` bots, and floating-point layout.
- `KeyOrder` makes the iteration order a function of the map's contents. A real `std::unordered_map` order also depends on its bucket count and insertion history. No proved fact depends on this, since every fact holds for any order that lists each key once.
- The text of `moveSequence` (`"Root"`, `"r:c -> r:c"`) is represented by the list of moves it spells.
