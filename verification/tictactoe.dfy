/** Model of the tic-tac-toe game engine: a nine-cell board, the player whose
    turn it is, and a game-over flag, with the move rule, win and draw
    detection and the reset transition as pure functions on a `Game` value. */
module TicTacToe {
  import opened Wrappers

  datatype Player = X | O

  /** A board cell: `Empty` is the source's `null`. */
  datatype Cell = Empty | Mark(player: Player)

  datatype Game = Game(board: seq<Cell>, current: Player, gameOver: bool)

  /** A position on the 3x3 board, numbered row by row. */
  type Index = i: int | 0 <= i < 9

  /** Three board positions that win when one player holds all of them. */
  datatype Line = Line(a: Index, b: Index, c: Index)

  function Other(p: Player): Player {
    if p == X then O else X
  }

  /** The fixed table of winning lines, in the order the engine scans them. */
  const Lines: seq<Line> := [
    Line(0, 1, 2),
    Line(3, 4, 5),
    Line(6, 7, 8),
    Line(0, 3, 6),
    Line(1, 4, 7),
    Line(2, 5, 8),
    Line(0, 4, 8),
    Line(2, 4, 6)
  ]

  function Row(r: nat): Line
    requires r < 3
  {
    Line(3 * r, 3 * r + 1, 3 * r + 2)
  }

  function Column(c: nat): Line
    requires c < 3
  {
    Line(c, c + 3, c + 6)
  }

  const MainDiagonal: Line := Line(0, 4, 8)
  const AntiDiagonal: Line := Line(2, 4, 6)

  /** The table holds eight distinct lines: the three rows, the three columns
      and the two diagonals, and nothing else. */
  lemma LinesAreRowsColumnsDiagonals()
    ensures |Lines| == 8
    ensures forall i, j :: 0 <= i < j < |Lines| ==> Lines[i] != Lines[j]
    ensures (set l | l in Lines) ==
              (set r: nat | r < 3 :: Row(r)) + (set c: nat | c < 3 :: Column(c))
              + {MainDiagonal, AntiDiagonal}
  {
    var rows := set r: nat | r < 3 :: Row(r);
    assert rows == {Row(0), Row(1), Row(2)};
    var columns := set c: nat | c < 3 :: Column(c);
    assert columns == {Column(0), Column(1), Column(2)};
  }

  /** Player `m` holds all three cells of line `l`. */
  ghost predicate Owns(board: seq<Cell>, l: Line, m: Player) {
    |board| == 9 && board[l.a] == Mark(m) && board[l.b] == Mark(m) && board[l.c] == Mark(m)
  }

  /** Some winning line is held entirely by `m`. */
  ghost predicate HasLine(board: seq<Cell>, m: Player) {
    exists j :: 0 <= j < |Lines| && Owns(board, Lines[j], m)
  }

  /** No player holds a winning line. */
  ghost predicate NoLine(board: seq<Cell>) {
    !HasLine(board, X) && !HasLine(board, O)
  }

  /** Every cell is marked. */
  predicate Full(board: seq<Cell>) {
    forall j :: 0 <= j < |board| ==> board[j] != Empty
  }

  /** Number of cells holding `m`'s marker. */
  function Count(board: seq<Cell>, m: Player): (n: nat)
    ensures n <= |board|
  {
    if board == [] then 0
    else (if board[0] == Mark(m) then 1 else 0) + Count(board[1..], m)
  }

  /** The scan of a table of lines in order: the first line whose three
      cells hold the same marker names the winner. */
  function CheckWinIn(board: seq<Cell>, lines: seq<Line>): (r: Option<Player>)
    requires |board| == 9
    ensures r.Some? ==>
              exists j :: 0 <= j < |lines| && Owns(board, lines[j], r.value)
                && forall i, p :: 0 <= i < j ==> !Owns(board, lines[i], p)
    ensures r.None? <==> forall j, p :: 0 <= j < |lines| ==> !Owns(board, lines[j], p)
  {
    if lines == [] then None
    else
      var l := lines[0];
      match board[l.a]
      case Mark(m) =>
        if board[l.b] == board[l.a] && board[l.c] == board[l.a] then
          assert Owns(board, lines[0], m);
          Some(m)
        else
          CheckWinIn(board, lines[1..])
      case Empty => CheckWinIn(board, lines[1..])
  }

  /** The winner of the board, or None when no line is complete. */
  function CheckWin(board: seq<Cell>): (r: Option<Player>)
    requires |board| == 9
    ensures r.Some? ==> HasLine(board, r.value)
    ensures r.None? <==> NoLine(board)
    ensures !HasLine(board, O) ==> (r == Some(X) <==> HasLine(board, X))
    ensures !HasLine(board, X) ==> (r == Some(O) <==> HasLine(board, O))
  {
    var r := CheckWinIn(board, Lines);
    assert r.Some? ==> r.value == X || r.value == O;
    r
  }

  /** A draw: every cell is marked and no line is complete. */
  function CheckDraw(board: seq<Cell>): (r: bool)
    requires |board| == 9
    ensures r <==> Full(board) && NoLine(board)
  {
    Full(board) && CheckWin(board).None?
  }

  /** The state after `initGame` (and `resetGame`, which only calls it). */
  function NewGame(): (g: Game)
    ensures |g.board| == 9 && forall j :: 0 <= j < 9 ==> g.board[j] == Empty
    ensures g.current == X && !g.gameOver
  {
    Game(seq(9, _ => Empty), X, false)
  }

  /** A click on cell `i` is acted upon: the game is running and the cell is
      an empty board position. An index outside the board reads as undefined
      in the source, which is not `null`, so it is ignored like a marked cell. */
  predicate Accepts(g: Game, i: int) {
    !g.gameOver && 0 <= i < |g.board| && g.board[i] == Empty
  }

  /** The state part of the cell-click handler. */
  function Click(g: Game, i: int): (g': Game)
    requires |g.board| == 9
    ensures |g'.board| == 9
    ensures !Accepts(g, i) ==> g' == g
    ensures Accepts(g, i) ==>
              forall j :: 0 <= j < 9 ==> g'.board[j] == if j == i then Mark(g.current) else g.board[j]
    ensures Accepts(g, i) && !NoLine(g'.board) ==> g'.gameOver && g'.current == g.current
    ensures Accepts(g, i) && NoLine(g'.board) && Full(g'.board) ==> g'.gameOver && g'.current == g.current
    ensures Accepts(g, i) && NoLine(g'.board) && !Full(g'.board) ==> !g'.gameOver && g'.current == Other(g.current)
  {
    if !Accepts(g, i) then g
    else
      var board := g.board[i := Mark(g.current)];
      if CheckWin(board).Some? then Game(board, g.current, true)
      else if CheckDraw(board) then Game(board, g.current, true)
      else Game(board, Other(g.current), false)
  }

  /** The UI events the engine reacts to. */
  datatype Event = CellClicked(index: int) | ResetClicked

  function Step(g: Game, e: Event): (g': Game)
    requires |g.board| == 9
    ensures |g'.board| == 9
  {
    match e
    case CellClicked(i) => Click(g, i)
    case ResetClicked => NewGame()
  }

  function Run(g: Game, events: seq<Event>): (g': Game)
    requires |g.board| == 9
    ensures |g'.board| == 9
    decreases |events|
  {
    if events == [] then g else Run(Step(g, events[0]), events[1..])
  }

  /** The invariant of every state reachable from a new game. */
  ghost predicate Inv(g: Game) {
    && |g.board| == 9
    && var nx, no := Count(g.board, X), Count(g.board, O);
    && (nx == no || nx == no + 1)
    // while running, X is to move exactly when the counts are equal; once
    // over, `current` is the player who made the last move
    && (g.current == X <==> if g.gameOver then nx == no + 1 else nx == no)
    && (!g.gameOver ==> NoLine(g.board) && !Full(g.board))
    && (g.gameOver ==> !HasLine(g.board, Other(g.current)) && (Full(g.board) || HasLine(g.board, g.current)))
  }

  /** Marking an empty cell adds one to the mover's count and leaves the
      other count alone. */
  lemma {:induction false} CountAfterMark(board: seq<Cell>, i: nat, p: Player, m: Player)
    requires i < |board| && board[i] == Empty
    ensures Count(board[i := Mark(p)], m) == Count(board, m) + (if m == p then 1 else 0)
    decreases |board|
  {
    var b' := board[i := Mark(p)];
    if i == 0 {
      assert b'[1..] == board[1..];
    } else {
      assert b'[1..] == board[1..][i - 1 := Mark(p)];
      CountAfterMark(board[1..], i - 1, p, m);
    }
  }

  /** A marker that appears nowhere on the board counts zero. */
  lemma {:induction false} CountAbsent(board: seq<Cell>, m: Player)
    requires forall j :: 0 <= j < |board| ==> board[j] != Mark(m)
    ensures Count(board, m) == 0
    decreases |board|
  {
    if board != [] {
      CountAbsent(board[1..], m);
    }
  }

  /** On a board without a complete line, a line completed by one new marker
      belongs to the player who placed it. */
  lemma NewLineBelongsToMover(board: seq<Cell>, i: Index, p: Player, m: Player)
    requires |board| == 9 && NoLine(board)
    requires HasLine(board[i := Mark(p)], m)
    ensures m == p
  {
    var b' := board[i := Mark(p)];
    var j :| 0 <= j < |Lines| && Owns(b', Lines[j], m);
    var l := Lines[j];
    assert !Owns(board, l, m);
  }

  lemma NewGameSatisfiesInv()
    ensures Inv(NewGame())
  {
    var g := NewGame();
    assert !HasLine(g.board, X) by {
      forall j | 0 <= j < |Lines| ensures !Owns(g.board, Lines[j], X) {
        assert g.board[Lines[j].a] == Empty;
      }
    }
    assert !HasLine(g.board, O) by {
      forall j | 0 <= j < |Lines| ensures !Owns(g.board, Lines[j], O) {
        assert g.board[Lines[j].a] == Empty;
      }
    }
    assert g.board[0] == Empty;
    CountAbsent(g.board, X);
    CountAbsent(g.board, O);
  }

  /** A click keeps the invariant; when it completes a line, the winner is
      the player who made that move. */
  lemma ClickPreservesInv(g: Game, i: int)
    requires Inv(g)
    ensures Inv(Click(g, i))
    ensures Accepts(g, i) && !NoLine(Click(g, i).board) ==> CheckWin(Click(g, i).board) == Some(g.current)
  {
    if Accepts(g, i) {
      var p := g.current;
      var b' := Click(g, i).board;
      assert b' == g.board[i := Mark(p)];
      CountAfterMark(g.board, i, p, X);
      CountAfterMark(g.board, i, p, O);
      if HasLine(b', Other(p)) {
        NewLineBelongsToMover(g.board, i, p, Other(p));
      }
    }
  }

  lemma {:induction false} RunPreservesInv(g: Game, events: seq<Event>)
    requires Inv(g)
    ensures Inv(Run(g, events))
    decreases |events|
  {
    if events != [] {
      match events[0] {
      case CellClicked(i) => ClickPreservesInv(g, i);
      case ResetClicked => NewGameSatisfiesInv();
      }
      RunPreservesInv(Step(g, events[0]), events[1..]);
    }
  }

  /** In every reachable state the mark counts differ by at most one in X's
      favour, a running game has no complete line and a free cell, and any
      reported winner is the player who moved last. */
  lemma ReachableStates(events: seq<Event>)
    ensures var g := Run(NewGame(), events);
      && Inv(g)
      && Count(g.board, O) <= Count(g.board, X) <= Count(g.board, O) + 1
      && (!g.gameOver ==> CheckWin(g.board).None? && !Full(g.board))
      && (CheckWin(g.board).Some? ==>
            g.gameOver && CheckWin(g.board) == Some(if Count(g.board, X) > Count(g.board, O) then X else O))
  {
    NewGameSatisfiesInv();
    RunPreservesInv(NewGame(), events);
  }

  /** A marked cell keeps its marker for as long as only cells are clicked. */
  lemma {:induction false} MarksPersist(g: Game, events: seq<Event>, j: Index)
    requires |g.board| == 9 && g.board[j] != Empty
    requires forall k :: 0 <= k < |events| ==> events[k].CellClicked?
    ensures Run(g, events).board[j] == g.board[j]
    decreases |events|
  {
    if events != [] {
      var g1 := Step(g, events[0]);
      assert g1.board[j] == g.board[j];
      MarksPersist(g1, events[1..], j);
    }
  }

  /** Holding a line means holding one of the eight lines written out. */
  lemma HasLineCases(board: seq<Cell>, m: Player)
    requires |board| == 9
    ensures HasLine(board, m) <==>
      || Owns(board, Line(0, 1, 2), m) || Owns(board, Line(3, 4, 5), m)
      || Owns(board, Line(6, 7, 8), m) || Owns(board, Line(0, 3, 6), m)
      || Owns(board, Line(1, 4, 7), m) || Owns(board, Line(2, 5, 8), m)
      || Owns(board, Line(0, 4, 8), m) || Owns(board, Line(2, 4, 6), m)
  {
    if HasLine(board, m) {
      var j :| 0 <= j < |Lines| && Owns(board, Lines[j], m);
      assert j in {0, 1, 2, 3, 4, 5, 6, 7};
    } else {
      assert !Owns(board, Lines[0], m) && !Owns(board, Lines[1], m);
      assert !Owns(board, Lines[2], m) && !Owns(board, Lines[3], m);
      assert !Owns(board, Lines[4], m) && !Owns(board, Lines[5], m);
      assert !Owns(board, Lines[6], m) && !Owns(board, Lines[7], m);
    }
  }

  /** A move that completes no line on a board with a free cell hands the turn over. */
  lemma ClickContinues(g: Game, i: int)
    requires |g.board| == 9 && Accepts(g, i)
    requires var b := g.board[i := Mark(g.current)]; NoLine(b) && !Full(b)
    ensures Click(g, i) == Game(g.board[i := Mark(g.current)], Other(g.current), false)
  {
    assert Click(g, i).board == g.board[i := Mark(g.current)];
  }

  /** X at 0, 1, 2 against O at 3, 4: the fifth click completes the top
      row, ends the game, and leaves X as the current player. The new game
      is passed in as `start` rather than written as a literal so that the
      solver works through the run one click at a time, using the move
      lemmas above, instead of unfolding all five clicks on a constant. */
  lemma TopRowWinExample(start: Game)
    requires start == NewGame()
    ensures var g := Run(start, [CellClicked(0), CellClicked(3), CellClicked(1), CellClicked(4), CellClicked(2)]);
      g.gameOver && g.current == X && Owns(g.board, Lines[0], X) && CheckWin(g.board) == Some(X)
  {
    var g1, g2 := ExampleFirstMoves(start);
    var g3, g4 := ExampleMiddleMoves(g2);
    var E, x, o := Empty, Mark(X), Mark(O);
    var b5 := [x, x, x, o, o, E, E, E, E];
    assert g4.board[2 := Mark(g4.current)] == b5;
    var g5 := WinningMove(g4, 2, b5);
    HasLineCases(b5, O);
    assert !HasLine(b5, O) && Owns(b5, Lines[0], X);
    RunFiveClicks(start, g1, g2, g3, g4, g5, 0, 3, 1, 4, 2);
  }

  /** X at 0, then O at 3. */
  lemma ExampleFirstMoves(start: Game) returns (g1: Game, g2: Game)
    requires start == NewGame()
    ensures g1 == Click(start, 0) && g2 == Click(g1, 3)
    ensures g2 == Game([Mark(X), Empty, Empty, Mark(O), Empty, Empty, Empty, Empty, Empty], X, false)
  {
    var E, x, o := Empty, Mark(X), Mark(O);
    assert start.board == [E, E, E, E, E, E, E, E, E];
    g1 := OpeningMove(start, 0, [x, E, E, E, E, E, E, E, E]);
    g2 := OpeningMove(g1, 3, [x, E, E, o, E, E, E, E, E]);
  }

  /** X at 1, then O at 4. */
  lemma ExampleMiddleMoves(g2: Game) returns (g3: Game, g4: Game)
    requires g2 == Game([Mark(X), Empty, Empty, Mark(O), Empty, Empty, Empty, Empty, Empty], X, false)
    ensures g3 == Click(g2, 1) && g4 == Click(g3, 4)
    ensures g4 == Game([Mark(X), Mark(X), Empty, Mark(O), Mark(O), Empty, Empty, Empty, Empty], X, false)
  {
    var E, x, o := Empty, Mark(X), Mark(O);
    g3 := OpeningMove(g2, 1, [x, x, E, o, E, E, E, E, E]);
    g4 := OpeningMove(g3, 4, [x, x, E, o, o, E, E, E, E]);
  }

  /** Running a non-empty event list is one step followed by the rest. */
  lemma RunCons(g: Game, e: Event, rest: seq<Event>)
    requires |g.board| == 9
    ensures Run(g, [e] + rest) == Run(Step(g, e), rest)
  {
    assert ([e] + rest)[1..] == rest;
  }

  /** Run over five clicks is the composition of the five clicks. */
  lemma RunFiveClicks(g0: Game, g1: Game, g2: Game, g3: Game, g4: Game, g5: Game, i1: int, i2: int, i3: int, i4: int, i5: int)
    requires |g0.board| == 9
    requires g1 == Click(g0, i1) && g2 == Click(g1, i2) && g3 == Click(g2, i3)
    requires g4 == Click(g3, i4) && g5 == Click(g4, i5)
    ensures Run(g0, [CellClicked(i1), CellClicked(i2), CellClicked(i3), CellClicked(i4), CellClicked(i5)]) == g5
  {
    var e1, e2, e3, e4, e5 := CellClicked(i1), CellClicked(i2), CellClicked(i3), CellClicked(i4), CellClicked(i5);
    RunCons(g4, e5, []);
    RunCons(g3, e4, [e5]);
    RunCons(g2, e3, [e4, e5]);
    RunCons(g1, e2, [e3, e4, e5]);
    RunCons(g0, e1, [e2, e3, e4, e5]);
    assert [e1, e2, e3, e4, e5] == [e1] + [e2, e3, e4, e5];
  }

  /** The example's last step: the click on `i` completes the top row. */
  lemma WinningMove(g: Game, i: Index, board: seq<Cell>) returns (g': Game)
    requires |g.board| == 9 && Accepts(g, i)
    requires board == g.board[i := Mark(g.current)]
    requires Owns(board, Line(0, 1, 2), g.current)
    ensures g' == Click(g, i) && g'.board == board && g'.gameOver && g'.current == g.current
  {
    HasLineCases(board, g.current);
    g' := Click(g, i);
  }

  /** One step of the example game: the click on `i` yields `board`, which
      completes none of the eight lines and leaves the last cell free, so the
      turn passes. */
  lemma OpeningMove(g: Game, i: Index, board: seq<Cell>) returns (g': Game)
    requires |g.board| == 9 && Accepts(g, i)
    requires board == g.board[i := Mark(g.current)] && board[8] == Empty
    requires forall p: Player ::
      && !Owns(board, Line(0, 1, 2), p) && !Owns(board, Line(3, 4, 5), p)
      && !Owns(board, Line(6, 7, 8), p) && !Owns(board, Line(0, 3, 6), p)
      && !Owns(board, Line(1, 4, 7), p) && !Owns(board, Line(2, 5, 8), p)
      && !Owns(board, Line(0, 4, 8), p) && !Owns(board, Line(2, 4, 6), p)
    ensures g' == Click(g, i) == Game(board, Other(g.current), false)
  {
    HasLineCases(board, X);
    HasLineCases(board, O);
    ClickContinues(g, i);
    g' := Click(g, i);
  }
}
