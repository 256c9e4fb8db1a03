/** The turn driver of `go`: Black and White alternate, each either passing or
    placing a legal stone, until both have passed in a row; then White wins when
    its score is strictly greater. Moves are given as data instead of being read
    from a terminal. */
module Game {
  import opened Errors
  import opened Intersections
  import opened Stones
  import opened Sorting
  import opened Goban
  import opened Capture
  import opened Legality
  import opened Scoring

  /** One attempt by the player to move: pass, or put a stone on an intersection. */
  datatype Move = Pass | PlaceAt(at: Intersection)

  /** What a game reports: the attempts ran out before both players passed, or
      the game ended and White either won or did not. */
  datatype Outcome = Undecided | Decided(whiteWins: bool)

  /** The state of the loop in `go`: the board, whose turn it is, whether each
      player passed on their last turn, and the board each player may not
      recreate (the snapshot taken before the opponent's last turn). */
  datatype State = State(
    board: Board,
    toMove: Stone,
    blackPassed: bool,
    whitePassed: bool,
    koBlack: Board,
    koWhite: Board)

  /** The shape every state of a game on an n-by-n board keeps. */
  ghost predicate Valid(s: State, n: int) {
    && ValidBoard(s.board) && |s.board| == n
    && IsPlayer(s.toMove)
    && ValidBoard(s.koBlack) && |s.koBlack| == n
    && ValidBoard(s.koWhite) && |s.koWhite| == n
  }

  /** The board `p` may not recreate on this turn. */
  function KoFor(s: State, p: Stone): Board {
    if p == Black then s.koBlack else s.koWhite
  }

  /** Both players passed on their last turns. */
  predicate Over(s: State) {
    s.blackPassed && s.whitePassed
  }

  /** The state before Black's first turn: Black may not recreate the empty board;
      White's snapshot is taken before Black's turn. */
  function Start(g: Board): (r: State)
    requires ValidBoard(g)
    ensures Valid(r, |g|) && r.board == g && r.toMove == Black
    ensures !r.blackPassed && !r.whitePassed
    ensures KoFor(r, Black) == Blank(|g|) && KoFor(r, White) == g
  {
    State(g, Black, false, false, Blank(|g|), g)
  }

  /** Ends the turn of the player to move, leaving `board`: records whether the
      player passed and gives the opponent, as the board to avoid, the one the
      turn started from. */
  function EndTurn(s: State, board: Board, passed: bool): (r: State)
    requires IsPlayer(s.toMove)
    ensures Valid(s, |s.board|) && ValidBoard(board) && |board| == |s.board| ==> Valid(r, |s.board|)
    ensures r.board == board && r.toMove == Opponent(s.toMove)
    ensures KoFor(r, r.toMove) == s.board && KoFor(r, s.toMove) == KoFor(s, s.toMove)
    ensures OpponentPassed(r) == passed
    ensures if s.toMove == Black then r.whitePassed == s.whitePassed else r.blackPassed == s.blackPassed
    ensures Over(r) <==> passed && OpponentPassed(s)
  {
    if s.toMove == Black then
      s.(board := board, toMove := White, blackPassed := passed, koWhite := s.board)
    else
      s.(board := board, toMove := Black, whitePassed := passed, koBlack := s.board)
  }

  /** The other player's pass flag. */
  function OpponentPassed(s: State): bool {
    if s.toMove == Black then s.whitePassed else s.blackPassed
  }

  /** One attempt of `turno_jogador`: a pass ends the turn; a legal placement is
      played and ends the turn; an illegal one is refused and the same player
      tries again. A turn that ends hands the move to the opponent, records
      whether the mover passed, leaves the opponent's flag alone, and gives the
      opponent the board the turn started from as the one to avoid; the game is
      then over exactly when a pass answers a pass. */
  function Step(s: State, m: Move): (r: State)
    requires Valid(s, |s.board|)
    ensures Valid(r, |s.board|)
    ensures m.PlaceAt? && !IsLegal(s.board, m.at, s.toMove, KoFor(s, s.toMove)) ==> r == s
    ensures m.Pass? ==> r.board == s.board
    ensures m.PlaceAt? && IsLegal(s.board, m.at, s.toMove, KoFor(s, s.toMove)) ==>
      r.board == Play(s.board, m.at, s.toMove)
    ensures m.Pass? || IsLegal(s.board, m.at, s.toMove, KoFor(s, s.toMove)) ==>
      && r.toMove == Opponent(s.toMove)
      && KoFor(r, r.toMove) == s.board
      && KoFor(r, s.toMove) == KoFor(s, s.toMove)
      && OpponentPassed(r) == m.Pass?
      && (if s.toMove == Black then r.whitePassed == s.whitePassed else r.blackPassed == s.blackPassed)
    ensures !Over(s) ==> (Over(r) <==> m.Pass? && OpponentPassed(s))
  {
    var p := s.toMove;
    match m
    case Pass => EndTurn(s, s.board, true)
    case PlaceAt(i) =>
      if IsLegal(s.board, i, p, KoFor(s, p)) then EndTurn(s, Play(s.board, i, p), false)
      else s
  }

  /** The loop of `go` over the given attempts: it stops once both players have
      passed in a row, ignoring the attempts left, or when the attempts run out. */
  function Run(s: State, moves: seq<Move>): (r: State)
    requires Valid(s, |s.board|)
    ensures Valid(r, |s.board|)
    decreases |moves|
  {
    if Over(s) || |moves| == 0 then s
    else Run(Step(s, moves[0]), moves[1..])
  }

  /** `go`: checks the size and the initial intersections, builds the board, plays
      the attempts and, once both players have passed, says whether White wins.
      `Undecided` means the attempts ran out before the game ended. The game fails
      exactly when building its board would, with the game's own error for a bad
      size or an initial stone off the board and the construction's error for
      the rest. */
  function Go(n: int, ib: seq<Intersection>, ip: seq<Intersection>, moves: seq<Move>): (r: Result<Outcome>)
    ensures r.Err? <==> BuildBoard(n, ib, ip).Err?
    ensures r == Err(InvalidGameArguments) <==>
      !ValidSize(n) || (exists x :: x in ib && !OnBoard(x, n)) || (exists x :: x in ip && !OnBoard(x, n))
    ensures r == Err(InvalidGobanConstruction) <==>
      && ValidSize(n) && (forall x :: x in ib ==> OnBoard(x, n)) && (forall x :: x in ip ==> OnBoard(x, n))
      && ((exists x :: x in ib && x in ip) || !Distinct(ib) || !Distinct(ip))
  {
    if !ValidSize(n) || (exists x :: x in ib && !OnBoard(x, n)) || (exists x :: x in ip && !OnBoard(x, n)) then
      Err(InvalidGameArguments)
    else
      match BuildBoard(n, ib, ip)
      case Err(e) => Err(e)
      case Ok(g) =>
        var last := Run(Start(g), moves);
        if !Over(last) then Ok(Undecided)
        else
          var score := Score(last.board);
          Ok(Decided(score.0 > score.1))
  }

  // ----- Properties of the driver -----

  /** A legal placement never produces the board the mover must avoid, and puts a
      stone with a liberty on the chosen intersection. */
  lemma PlacementRespectsKo(s: State, i: Intersection)
    requires Valid(s, |s.board|)
    requires Step(s, PlaceAt(i)) != s
    ensures Step(s, PlaceAt(i)).board != KoFor(s, s.toMove)
    ensures InBounds(s.board, i) && Get(s.board, i) == Neutral
    ensures Get(Step(s, PlaceAt(i)).board, i) == s.toMove
  {
    PlayOutcome(s.board, i, s.toMove);
  }

  /** Simple ko: after a turn of `p` and a turn of the opponent, the board `p` must
      avoid is the one `p`'s turn left, so `p` cannot undo the opponent's reply
      by recreating it. */
  lemma KoIsLastOwnResult(s: State, m1: Move, m2: Move)
    requires Valid(s, |s.board|)
    requires Step(s, m1).toMove != s.toMove
    requires Step(Step(s, m1), m2).toMove != Step(s, m1).toMove
    ensures Step(Step(s, m1), m2).toMove == s.toMove
    ensures KoFor(Step(Step(s, m1), m2), s.toMove) == Step(s, m1).board
  {
  }

  /** Every run keeps the board size, and a run that ended stopped at a pass
      answering a pass: no state after the end is reached. */
  lemma {:induction false} RunStopsAtEnd(s: State, moves: seq<Move>)
    requires Valid(s, |s.board|)
    ensures |Run(s, moves).board| == |s.board|
    ensures Over(s) ==> Run(s, moves) == s
    ensures !Over(s) && Over(Run(s, moves)) ==>
      exists k :: 0 <= k < |moves| && Over(Run(s, moves[..k + 1])) && !Over(Run(s, moves[..k]))
    decreases |moves|
  {
    if !Over(s) && |moves| > 0 {
      var s' := Step(s, moves[0]);
      RunStopsAtEnd(s', moves[1..]);
      if Over(Run(s, moves)) {
        if Over(s') {
          RunPrefixStep(s, moves, 1);
          assert moves[..0] == [];
          assert Over(Run(s, moves[..0 + 1])) && !Over(Run(s, moves[..0]));
        } else {
          var k :| 0 <= k < |moves[1..]| && Over(Run(s', moves[1..][..k + 1])) && !Over(Run(s', moves[1..][..k]));
          RunPrefixStep(s, moves, k + 2);
          RunPrefixStep(s, moves, k + 1);
          assert Over(Run(s, moves[..(k + 1) + 1])) && !Over(Run(s, moves[..k + 1]));
        }
      }
    }
  }

  /** A non-empty prefix of the attempts, run from a game still on, is its first
      attempt followed by the rest of the prefix. */
  lemma RunPrefixStep(s: State, moves: seq<Move>, j: int)
    requires Valid(s, |s.board|) && !Over(s) && 1 <= j <= |moves|
    ensures Run(s, moves[..j]) == Run(Step(s, moves[0]), moves[1..][..j - 1])
  {
    assert moves[..j][0] == moves[0];
    assert moves[..j][1..] == moves[1..][..j - 1];
  }

  /** Running a sequence of attempts in two pieces is the same as running it at
      once: the loop keeps no state besides the game state. */
  lemma {:induction false} RunAppend(s: State, a: seq<Move>, b: seq<Move>)
    requires Valid(s, |s.board|)
    ensures Run(s, a + b) == Run(Run(s, a), b)
    decreases |a|
  {
    if |a| > 0 && !Over(s) {
      assert (a + b)[0] == a[0];
      assert (a + b)[1..] == a[1..] + b;
      RunAppend(Step(s, a[0]), a[1..], b);
    } else if |a| == 0 {
      assert a + b == b;
    } else {
      RunStopsAtEnd(s, b);
    }
  }

  /** The verdict of `go`: a finished game ended on two passes in a row; if its
      final board is empty White does not win, and otherwise White wins exactly
      when its area score, stones plus the empty intersections it alone
      surrounds, is strictly greater than Black's. */
  lemma GoVerdict(n: int, ib: seq<Intersection>, ip: seq<Intersection>, moves: seq<Move>)
    requires BuildBoard(n, ib, ip).Ok?
    ensures Go(n, ib, ip, moves).Ok?
    ensures Go(n, ib, ip, moves).value.Decided? <==> Over(Run(Start(BuildBoard(n, ib, ip).value), moves))
    ensures Go(n, ib, ip, moves).value.Decided? ==>
      var last := Run(Start(BuildBoard(n, ib, ip).value), moves).board;
      && ValidBoard(last)
      && ((forall c :: InBounds(last, c) ==> Get(last, c) == Neutral) ==> !Go(n, ib, ip, moves).value.whiteWins)
      && ((exists c :: InBounds(last, c) && IsPlayer(Get(last, c))) ==>
            (Go(n, ib, ip, moves).value.whiteWins <==>
               |Holding(last, White)| + |Surrounded(last, White)| > |Holding(last, Black)| + |Surrounded(last, Black)|))
  {
    var g := BuildBoard(n, ib, ip).value;
    var last := Run(Start(g), moves);
    assert ValidBoard(last.board);
    if Over(last) {
      var score := Score(last.board);
      assert Go(n, ib, ip, moves) == Ok(Decided(score.0 > score.1));
      ScoreIsArea(last.board);
    }
  }
}
