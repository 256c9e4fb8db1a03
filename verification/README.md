# Go rules engine — a Dafny model

This project models the rules engine of a small two-player Go program (`Go.py`).
The engine covers:

- intersections, stones and square boards ("gobans") of size 9, 13 or 19;
- chains (maximal connected groups of equal occupancy) found by flood fill;
- liberties, and capture of opposing chains left without liberties;
- move legality: the target must be empty, suicide is forbidden, and simple ko
  forbids repeating the board the mover left on their previous turn (on the
  first turns, Black may not recreate the empty board and White may not
  recreate the initial board);
- empty territories and area scoring: stones, plus empty regions whose whole
  frontier belongs to one player;
- the turn loop of a game that ends after two consecutive passes.

The source mutates its boards in place. The model uses immutable boards and pure
functions: a board is a sequence of columns, each a sequence of stones, indexed
`g[col][row - 1]`. An intersection is a column index (`'A'` is 0) and a 1-based
row. The source raises `ValueError` on bad arguments; the model returns a
`Result` carrying one `Error` variant per family of rejected arguments.

Modules follow the structure of the program:

- `Errors`: the error values and `Result`.
- `Stones`, `Intersections`: the abstract data types and their adjacency.
- `Sorting`: the sort that `sorted(..., key=...)` performs, by reading order of a
  key (row first, then column). Where the engine sorts, equal keys belong to equal
  elements (intersections sorted by themselves) or do not occur (regions sorted by
  their distinct first intersections), so stability is never observable and the
  model does not state it.
- `Goban`: construction, access, placement, removal, copying and comparison of
  boards.
- `Chains`: flood fill, chains described as reachable components, chain
  boundaries and liberties.
- `Capture`: `jogada`, which places a stone and then captures. The result is
  described cell by cell. The order in which captures run does not matter.
- `Legality`: `eh_jogada_legal`, as a function and as an if-and-only-if of the
  three rules.
- `Scoring`: stone counts, territories, frontiers and the score. The score is
  stated independently of how it is computed: stones plus the empty
  intersections whose region touches stones of one player only.
- `Game`: the turn loop of `go`, driven by a sequence of attempted moves in
  place of terminal input.

Two behaviours come straight from the code:

- `go` tests whether an initial intersection is `in (tbranco, tpreto)`. That
  compares the intersection with the two tuples themselves, never with their
  members, so the test never fires. Repeated or overlapping initial stones are
  still rejected, but by the board construction (`cria_goban`). The model reports
  them with that construction's error.
- On a board with no stone at all, the only empty region has no frontier. The
  code returns `(0, 0)` for such a board before looking at regions. On every other
  board, each empty region touches at least one stone (`RegionTouchesStone`).

## Model

| member | source | states |
|---|---|---|
| Intersections.MakeIntersection | Go.py:7-23 | construction succeeds exactly for a column letter in A..S and a row in 1..19, returns that column and row, and fails with the intersection error otherwise |
| Intersections.Adjacent | Go.py:96-117 | the neighbours of an intersection are exactly the on-board intersections one step away along a row or column, listed in reading order |
| Intersections.AscendingUnique | Go.py:119-128 | two reading-ordered sequences without repeats that hold the same intersections are identical, so a sorted result is determined by its elements |
| Sorting.SortBy | Go.py:576-578 | the key-based sort returns a permutation of its input, ordered by the key's reading order, and keeps elements distinct when they were |
| Sorting.SortIntersections | Go.py:119-128 | the result holds the same intersections as the input, with multiplicity, in reading order (by row, then column); it is strictly ascending when the input has no repeats |
| Stones.Opponent | Go.py:623-635 | the opposing stone of a player is the other player's stone |
| Goban.LastIntersection | Go.py:310-320 | the last intersection is the top-right corner: on the board, and no intersection of the board lies right of or above it |
| Goban.InBoundsLast | Go.py:453-471 | an intersection is valid on a board exactly when its column, counted from 1, and its row both lie between 1 and the row of the last intersection |
| Goban.InBounds | Go.py:453-471 | validity of an intersection on a board: both coordinates inside the board; `Goban.InBoundsLast` shows it agrees with the source's test against the last intersection |
| Goban.Get | Go.py:322-337 | the stone stored at an intersection (White, Black or empty); `Goban.Place` and `Goban.Clear` show that a write is read back and nothing else changes, and `Goban.SameCellsSameBoard` that these readings determine the board |
| Goban.Neighbours | Go.py:96-117 | on a board, the neighbours of an intersection are exactly the intersections of that board adjacent to it, in reading order |
| Goban.NeighbourCount | Go.py:96-117 | an intersection has two neighbours at a corner, three elsewhere on an edge, and four inside |
| Goban.EmptyBoard | Go.py:238-255 | an empty board is produced exactly for sizes 9, 13 and 19, with every intersection empty; other sizes yield the board-size error |
| Goban.BuildBoard | Go.py:257-293 | construction fails exactly on a bad size, an intersection listed for both colours, an intersection off the board or one listed twice; otherwise each cell holds White if listed white, Black if listed black, and is empty otherwise |
| Goban.Copy | Go.py:295-308 | a copy holds the same stone as the original on every intersection |
| Goban.Place | Go.py:387-400 | placing sets the chosen intersection and leaves every other intersection unchanged |
| Goban.Clear | Go.py:402-410 | removing a stone empties the chosen intersection and leaves every other intersection unchanged |
| Goban.ClearAll | Go.py:412-423 | removing a chain empties exactly the listed intersections and leaves all others unchanged |
| Goban.BoardsEqual | Go.py:473-498 | two arguments compare equal exactly when the first is a valid board and both are the same board |
| Goban.Shared | Go.py:257-293 | the overlap test is true exactly when some intersection occurs in both lists |
| Goban.Repeats | Go.py:257-293 | the repetition test is true exactly when some intersection occurs twice in the list |
| Goban.SameCellsSameBoard | Go.py:473-498 | two boards of one size that agree on every intersection are the same board |
| Chains.Fill | Go.py:348-369 | the flood fill keeps what it already found, finds only intersections holding the seed's stone, never repeats one, and returns a set closed under same-stone adjacency |
| Chains.FillReachable | Go.py:348-369 | everything the flood fill returns is connected to the seed by a path of equal-stone adjacent intersections |
| Chains.Chain | Go.py:339-385 | the chain through an intersection contains it, holds only that intersection's stone, is closed under same-stone adjacency and is listed in reading order |
| Chains.ChainIsComponent | Go.py:339-385 | the chain is exactly the set of intersections connected to the start by a path of equal-stone adjacent intersections |
| Chains.SameChain | Go.py:339-385 | every member of a chain yields the same chain |
| Chains.ChainFrame | Go.py:339-385 | a chain depends only on the stones of its members and of their neighbours |
| Chains.Boundary | Go.py:580-606 | the boundary of a set of intersections is exactly the on-board neighbours of its members holding a different stone, empty ones only when the members are stones, in reading order |
| Chains.ChainBoundaryMember | Go.py:580-606 | an intersection is on a chain's boundary exactly when it is next to the chain, holds a different stone, and is empty if the chain is a group of stones |
| Chains.LibertiesOfGroup | Go.py:580-606 | an intersection is on the boundary of a group of stones exactly when it is an empty intersection of the board next to the group |
| Chains.BorderOfRegion | Go.py:580-606 | an intersection is on the boundary of an empty region exactly when it holds a stone and is next to the region |
| Chains.HasLibertyIff | Go.py:858-870 | a chain has a liberty exactly when it is a group of stones with an empty intersection next to one of its members; an empty region never has one |
| Chains.HasLiberty | Go.py:858-870 | whether some boundary intersection of the chain is empty; `Chains.HasLibertyIff` characterises it as a group of stones with an empty intersection next to one of its members |
| Chains.LibertyFrame | Go.py:858-870 | whether a chain has a liberty depends only on the stones of the chain and of its neighbours |
| Capture.Opposing | Go.py:623-635 | the opposing neighbours of the placed stone are exactly its neighbours holding the other player's stone |
| Capture.RemoveDead | Go.py:637-641 | the capture loop over the opposing intersections returns a valid board of the same size; `Capture.RemoveDeadClears` states which intersections it empties and `Capture.CaptureOrderIrrelevant` that the order does not matter |
| Capture.StepOnEmpty | Go.py:637-641 | the capture step applied to an intersection that is already empty changes nothing |
| Capture.RemoveDeadClears | Go.py:637-641 | the capture loop empties exactly the intersections of the listed opposing chains that lack a liberty on the board as it was before any capture, and leaves all other intersections unchanged |
| Capture.PlayClears | Go.py:608-643 | a move empties exactly the opposing chains next to the placed stone that lack a liberty after placement, and leaves every other intersection as placed |
| Capture.CapturedByMove | Go.py:623-641 | an intersection is emptied by the capture loop of a move exactly when it belongs to an opposing chain next to the placed stone that the placement left without a liberty; such an intersection held an opposing stone and is not the target |
| Capture.PlayCell | Go.py:608-643 | after a move, the target holds the mover's stone, a captured intersection is empty, and every other intersection keeps its stone |
| Capture.PlayOutcome | Go.py:608-643 | after a move the target holds the mover's stone; no stone of the mover disappears; any other intersection changes exactly when it is captured; and a captured intersection held an opposing stone and is now empty |
| Capture.Play | Go.py:608-643 | a move returns a valid board of the same size; its effect on each intersection is stated by `Capture.PlayOutcome`, `Capture.PlayCell` and `Capture.PlayClears` |
| Capture.CaptureOrderIrrelevant | Go.py:637-641 | running the capture loop over the same opposing intersections in any order yields the same board |
| Legality.IsLegal | Go.py:730-750 | a legal move targets an empty intersection of the board and does not recreate the forbidden board |
| Legality.LegalityRules | Go.py:730-750 | a move is legal exactly when the target is an empty on-board intersection, the result differs from the forbidden board, and after captures some stone of the new chain touches an empty intersection |
| Legality.EmptyNeighbourLegal | Go.py:730-750 | a move next to an empty intersection is legal exactly when it does not recreate the forbidden board |
| Legality.CaptureGivesLiberty | Go.py:730-750 | a move that captures an adjacent opposing chain is never suicide |
| Scoring.AllCells | Go.py:645-670 | the scan visits every intersection of an n-by-n board exactly once |
| Scoring.CountAll | Go.py:645-670 | a count over a list of intersections equals the list's length exactly when every listed intersection holds the counted stone |
| Scoring.StoneCounts | Go.py:645-670 | the counts are the numbers of intersections holding a White stone and a Black stone |
| Scoring.ScanCovers | Go.py:568-575 | the territory scan keeps every region it already found and claims every empty intersection it visits |
| Scoring.ScanRegions | Go.py:568-575 | the scan records only regions that are non-empty chains of empty intersections, each given by its first member, and no two recorded regions share an intersection; `Scoring.ScanCovers` shows every visited empty intersection is claimed |
| Scoring.FrontierMember | Go.py:682-697 | an intersection is on the frontier of an empty region exactly when it holds a stone and is next to the region |
| Scoring.OwnedIsSurrounded | Go.py:710-726 | on a board with a stone, the regions credited to a player cover exactly the empty intersections that player alone surrounds |
| Scoring.Territories | Go.py:540-578 | the territories are the chains through empty intersections: every empty intersection lies in exactly one, they share no intersection, and they are ordered by the reading order of their first intersections |
| Scoring.Frontier | Go.py:682-697 | the frontier of a region is exactly the intersections adjacent to the region and outside it, each once |
| Scoring.OwnerMeaning | Go.py:711-726 | on a board with a stone, an empty region is credited to a player exactly when some stone touches the region and all stones touching it are that player's |
| Scoring.OwnerOfFrontier | Go.py:710-726 | a region with a non-empty frontier counts for a player exactly when the whole frontier holds that player's stones |
| Scoring.OwnerOfNoFrontier | Go.py:710-726 | a region with no frontier counts for White, because the White test is checked first and no frontier intersection fails it |
| Scoring.Owner | Go.py:710-726 | who a region counts for; `Scoring.OwnerOfFrontier`, `Scoring.OwnerOfNoFrontier` and `Scoring.OwnerMeaning` characterise it |
| Scoring.RegionTouchesStone | Go.py:703-707 | on a board with any stone, every empty region touches at least one stone |
| Scoring.AreasCount | Go.py:710-726 | the territory totals are the sizes of the sets of empty intersections in regions credited to each player |
| Scoring.ScoreIsArea | Go.py:674-728 | an all-empty board scores zero for both; otherwise each player's score is their stones plus the empty intersections whose region touches only that player's stones |
| Scoring.Score | Go.py:674-728 | the score of a board; `Scoring.ScoreIsArea` characterises it as zero on the all-empty board and otherwise stones plus surrounded empty intersections |
| Game.Start | Go.py:826-837 | a game starts on the given board with Black to move and nobody having passed; Black may not recreate the empty board and White may not recreate the initial board |
| Game.Step | Go.py:753-776 | a refused placement changes nothing; a pass or a legal placement hands the turn over, records whether the mover passed, gives the opponent the board the turn began from as the one to avoid, and ends the game exactly when it is a pass answering a pass |
| Game.PlacementRespectsKo | Go.py:835-846 | an accepted placement targets an empty intersection, puts the mover's stone there, and never recreates the board the mover must avoid |
| Game.KoIsLastOwnResult | Go.py:835-846 | after one turn of each player, the board the first player must avoid is the board their own turn produced |
| Game.RunStopsAtEnd | Go.py:835-846 | the loop keeps the board size, stops at once on a finished game, and a game that ends does so on the attempt that first finishes it |
| Game.RunAppend | Go.py:835-846 | running attempts in two pieces gives the same state as running them at once |
| Game.Run | Go.py:835-847 | the turn loop keeps a valid state of the same size; `Game.RunStopsAtEnd` shows it stops at the first pass answering a pass, and `Game.RunAppend` that attempts can be fed in pieces |
| Game.Go | Go.py:778-826 | a game fails exactly when its board cannot be built: with the game's own error for a bad size or an initial intersection off the board, and with the construction's error for an intersection given to both players or listed twice |
| Game.GoVerdict | Go.py:778-854 | on a board that can be built, the game gives a verdict exactly when the moves end it with two passes; a finished game on an empty board is not a White win; otherwise White wins exactly when its stones plus the territory it alone surrounds exceed Black's |

## Left out

- Text input and output are not modelled: the prompts of `turno_jogador`, the score printing of `go`, `goban_para_str`, `intersecao_para_str`, `str_para_intersecao` and `str_intersecao_valida`. The attempted moves arrive as a sequence of `Move` values, and an unreadable answer, which the source simply asks again, has no counterpart.
- The dynamic type tests (`eh_intersecao`, `eh_pedra`, `eh_goban`, `isinstance` checks) and the comparison helpers `intersecoes_iguais` and `pedras_iguais` are not modelled. Dafny's types guarantee what they check, and equality is Dafny's `==`.
- The single-stone constructors and recognisers (`cria_pedra_*`, `eh_pedra_branca`, `eh_pedra_preta`, `eh_pedra_jogador`) and the selectors `obtem_col` and `obtem_lin` are not modelled separately. They are the constructors, discriminators and fields of the `Stone` and `Intersection` datatypes.
- Destructive update is not modelled: every board operation returns a new board. `cria_copia_goban` is still modelled (`Copy`), and `IsLegal` simulates on a copy as the source does.
- Game.Run: a game whose attempts run out before two consecutive passes is reported as `Undecided`. The source instead keeps asking for input forever.
- Game.Go: the source's error messages differ between `go` and `cria_goban`; the model keeps only the error variants.
