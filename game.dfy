/** The game object: the board array, whose turn it is, whether the game is
    still running, the score tally and the undo stack, with the moves that
    change them and the in-place search the computer opponent runs on the
    board. */
module Game {
  import opened Board
  import Search

  datatype Scores = Scores(x: nat, o: nat, draws: nat)

  /** The result `endGame` records: a player's win or a draw. */
  datatype Outcome = Win(winner: Player) | Draw

  /** An undo entry: a copy of the board and the player to move before a move. */
  datatype Snapshot = Snapshot(board: Board, currentPlayer: Player)

  /** The tally after one more finished game: exactly one counter, the
      winner's or the draws', goes up by one. */
  function Credit(s: Scores, result: Outcome): (r: Scores)
    ensures r.x + r.o + r.draws == s.x + s.o + s.draws + 1
    ensures r.x == s.x + (if result == Win(X) then 1 else 0)
    ensures r.o == s.o + (if result == Win(O) then 1 else 0)
    ensures r.draws == s.draws + (if result == Draw then 1 else 0)
  {
    match result
    case Draw => s.(draws := s.draws + 1)
    case Win(X) => s.(x := s.x + 1)
    case Win(O) => s.(o := s.o + 1)
  }

  /** X moves first and the players alternate, so X has as many marks as O
      when X is to move and one more when O is to move. */
  predicate Balanced(b: Board, toMove: Player) {
    CountOf(b, Mark(X)) == CountOf(b, Mark(O)) + (if toMove == O then 1 else 0)
  }

  /** A position in which a move can be made: balanced, unwon, not full. */
  predicate Live(b: Board, toMove: Player) {
    Balanced(b, toMove) && Winner(b).None? && !IsFull(b)
  }

  /** Placing the mover's mark keeps the marks balanced for the opponent. */
  lemma BalancedAfterMove(b: Board, i: Index, p: Player)
    requires Balanced(b, p) && b[i] == Empty
    ensures Balanced(b[i := Mark(p)], Opponent(p))
  {
    CountUpdate(b, i, Mark(p), Mark(X));
    CountUpdate(b, i, Mark(p), Mark(O));
  }

  /** A fresh game: empty board, X to move. */
  lemma EmptyBoardIsLive()
    ensures Live(EmptyBoard, X)
  {
    CountZeroIffAbsent(EmptyBoard, Mark(X));
    CountZeroIffAbsent(EmptyBoard, Mark(O));
    forall k | 0 <= k < |WinPatterns| ensures !LineOwned(EmptyBoard, k) {
      assert EmptyBoard[WinPatterns[k].0] == Empty;
    }
    assert EmptyBoard[0] == Empty;
  }

  class TicTacToeGame {
    var board: array<Cell>
    var currentPlayer: Player
    var isGameActive: bool
    var scores: Scores
    var moveHistory: seq<Snapshot>
    var difficulty: Search.Difficulty

    /** The object invariant: a nine-cell board; a running game is in a live
        position with the right player to move; a finished game has an empty
        undo stack and its last mover still recorded as current; every undo
        entry is a live position. */
    ghost predicate Valid()
      reads this, board
    {
      && board.Length == 9
      && (isGameActive ==> Live(board[..], currentPlayer))
      && (!isGameActive ==> Balanced(board[..], Opponent(currentPlayer)) && moveHistory == [])
      && forall k :: 0 <= k < |moveHistory| ==> Live(moveHistory[k].board, moveHistory[k].currentPlayer)
    }

    /** `makeMove(index)` is accepted: the game runs and the cell exists and
        is empty. */
    ghost predicate Accepts(index: int)
      reads this, board
      requires board.Length == 9
    {
      isGameActive && 0 <= index < 9 && board[index] == Empty
    }

    constructor ()
      ensures Valid() && fresh(board)
      ensures board[..] == EmptyBoard && currentPlayer == X && isGameActive
      ensures scores == Scores(0, 0, 0) && moveHistory == [] && difficulty == Search.Medium
    {
      board := new Cell[] [Empty, Empty, Empty, Empty, Empty, Empty, Empty, Empty, Empty];
      currentPlayer := X;
      isGameActive := true;
      scores := Scores(0, 0, 0);
      moveHistory := [];
      difficulty := Search.Medium;
      new;
      assert board[..] == EmptyBoard;
      EmptyBoardIsLive();
    }

    /** Place the current player's mark on cell `index`. A rejected call
        changes nothing. An accepted one pushes an undo entry and writes the
        mark; a win by the mover or a full board ends the game, otherwise the
        turn passes to the opponent. */
    method MakeMove(index: int)
      requires Valid()
      modifies this, board
      ensures Valid() && board == old(board) && difficulty == old(difficulty)
      ensures !old(Accepts(index)) ==> unchanged(this) && unchanged(board)
      ensures old(Accepts(index)) ==>
        board[..] == old(board[..])[index := Mark(old(currentPlayer))]
      ensures old(Accepts(index)) && Winner(board[..]).Some? ==>
        && Winner(board[..]) == Some(old(currentPlayer))
        && !isGameActive && currentPlayer == old(currentPlayer)
        && scores == Credit(old(scores), Win(old(currentPlayer))) && moveHistory == []
      ensures old(Accepts(index)) && Winner(board[..]).None? && IsFull(board[..]) ==>
        && !isGameActive && currentPlayer == old(currentPlayer)
        && scores == Credit(old(scores), Draw) && moveHistory == []
      ensures old(Accepts(index)) && !Terminal(board[..]) ==>
        && isGameActive && currentPlayer == Opponent(old(currentPlayer)) && scores == old(scores)
        && moveHistory == old(moveHistory) + [Snapshot(old(board[..]), old(currentPlayer))]
    {
      if !isGameActive || !(0 <= index < 9) || board[index] != Empty {
        return;
      }
      ghost var before: Board := board[..];
      moveHistory := moveHistory + [Snapshot(board[..], currentPlayer)];
      board[index] := Mark(currentPlayer);
      assert board[..] == before[index := Mark(currentPlayer)];
      MoverIsWinner(before, index, currentPlayer);
      BalancedAfterMove(before, index, currentPlayer);
      if Winner(board[..]).Some? {
        EndGame(Win(currentPlayer));
        return;
      }
      if IsFull(board[..]) {
        EndGame(Draw);
        return;
      }
      currentPlayer := Opponent(currentPlayer);
    }

    /** The end of a game: play stops, the result is credited, and the undo
        stack is cleared. The board and the current player stay as they are. */
    method EndGame(result: Outcome)
      modifies this`isGameActive, this`scores, this`moveHistory
      ensures !isGameActive && scores == Credit(old(scores), result) && moveHistory == []
    {
      isGameActive := false;
      scores := Credit(scores, result);
      moveHistory := [];
    }

    /** Take back the last move of a running game: the most recent undo entry
        is popped and its board copy and player become current. Without an
        entry, or once the game is over, nothing changes. */
    method UndoMove()
      requires Valid()
      modifies this
      ensures Valid() && difficulty == old(difficulty)
      ensures old(moveHistory == [] || !isGameActive) ==> unchanged(this)
      ensures old(moveHistory != [] && isGameActive) ==>
        var last := old(moveHistory[|moveHistory| - 1]);
        && fresh(board) && board[..] == last.board && currentPlayer == last.currentPlayer
        && moveHistory == old(moveHistory[..|moveHistory| - 1])
        && isGameActive && scores == old(scores)
    {
      if |moveHistory| == 0 || !isGameActive {
        return;
      }
      var last := moveHistory[|moveHistory| - 1];
      moveHistory := moveHistory[..|moveHistory| - 1];
      board := new Cell[9](i requires 0 <= i < 9 => last.board[i]);
      currentPlayer := last.currentPlayer;
      assert board[..] == last.board;
    }

    /** A new game on an empty board with X to move; the scores are kept. */
    method RestartGame()
      modifies this
      ensures Valid() && fresh(board)
      ensures board[..] == EmptyBoard && currentPlayer == X && isGameActive && moveHistory == []
      ensures scores == old(scores) && difficulty == old(difficulty)
    {
      board := new Cell[] [Empty, Empty, Empty, Empty, Empty, Empty, Empty, Empty, Empty];
      currentPlayer := X;
      isGameActive := true;
      moveHistory := [];
      assert board[..] == EmptyBoard;
      EmptyBoardIsLive();
    }

    /** All three counters back to zero; nothing else changes. */
    method ResetScore()
      requires Valid()
      modifies this`scores
      ensures Valid() && scores == Scores(0, 0, 0)
    {
      scores := Scores(0, 0, 0);
    }

    /** One trial of the search, in place: the side to move marks the empty
        cell i, the position is searched at `childDepth`, and the cell is
        cleared again. */
    method TryCell(cells: array<Cell>, i: Index, isMaximizing: bool, childDepth: nat) returns (score: int)
      requires cells.Length == 9 && cells[i] == Empty
      modifies cells
      ensures cells[..] == old(cells[..])
      ensures score == Search.Minimax(Search.Child(old(cells[..]), i, isMaximizing), childDepth, !isMaximizing)
      decreases CountOf(cells[..], Empty), 0
    {
      ghost var b: Board := cells[..];
      cells[i] := Search.MoverMark(isMaximizing);
      assert cells[..] == Search.Child(b, i, isMaximizing);
      CountUpdate(b, i, Search.MoverMark(isMaximizing), Empty);
      score := Minimax(cells, childDepth, !isMaximizing);
      cells[i] := Empty;
      assert cells[..] == b;
    }

    /** The minimax search run in place on `cells`: each empty cell is tried
        with the mover's mark, searched one ply deeper and cleared again, so
        the cells come back as they were. */
    method Minimax(cells: array<Cell>, depth: nat, isMaximizing: bool) returns (score: int)
      requires cells.Length == 9
      modifies cells
      ensures cells[..] == old(cells[..])
      ensures score == Search.Minimax(old(cells[..]), depth, isMaximizing)
      decreases CountOf(cells[..], Empty), 1
    {
      var b: Board := cells[..];
      var winner := Winner(b);
      if winner == Some(O) {
        return 10 - depth;
      }
      if winner == Some(X) {
        return depth - 10;
      }
      if IsFull(b) {
        return 0;
      }
      assert Search.Minimax(b, depth, isMaximizing) == Search.ChildrenUpTo(b, depth, isMaximizing, 9).value;
      var best: Option<int> := None;
      if isMaximizing {
        var i := 0;
        while i < 9
          invariant 0 <= i <= 9
          invariant cells[..] == b
          invariant best == Search.ChildrenUpTo(b, depth, true, i)
        {
          Search.ChildrenStep(b, depth, true, i);
          if cells[i] == Empty {
            var s := TryCell(cells, i, true, depth + 1);
            best := Some(Search.MaxInto(s, best));
          }
          i := i + 1;
        }
      } else {
        var i := 0;
        while i < 9
          invariant 0 <= i <= 9
          invariant cells[..] == b
          invariant best == Search.ChildrenUpTo(b, depth, false, i)
        {
          Search.ChildrenStep(b, depth, false, i);
          if cells[i] == Empty {
            var s := TryCell(cells, i, false, depth + 1);
            best := Some(Search.MinInto(s, best));
          }
          i := i + 1;
        }
      }
      score := best.value;
    }

    /** The computer's best move for O, searched in place on the board: each
        empty cell in index order is tried as O and scored by Minimax; a cell
        replaces the best so far only with a strictly greater score. */
    method GetBestMove() returns (move: int)
      requires Valid()
      modifies board
      ensures Valid() && board[..] == old(board[..])
      ensures move == Search.BestMove(old(board[..]))
    {
      ghost var b: Board := board[..];
      var bestScore: Option<int> := None;
      move := -1;
      var i := 0;
      while i < 9
        invariant 0 <= i <= 9
        invariant board[..] == b
        invariant (bestScore, move) == Search.BestUpTo(b, i)
      {
        if board[i] == Empty {
          var score := TryCell(board, i, true, 0);
          if bestScore.None? || score > bestScore.value {
            bestScore := Some(score);
            move := i;
          }
        }
        i := i + 1;
      }
    }

    /** The computer's move at the current difficulty: `chance` is the draw
        that decides between search and a random cell (medium and hard only),
        `pick` the draw that chooses the random cell. */
    method GetAIMove(chance: real, pick: real) returns (move: int)
      requires Valid() && 0.0 <= chance < 1.0 && 0.0 <= pick < 1.0
      modifies board
      ensures Valid() && board[..] == old(board[..])
      ensures move == Search.AIMove(board[..], difficulty, chance, pick)
      ensures move == -1 <==> IsFull(board[..])
      ensures move != -1 ==> 0 <= move < 9 && board[move] == Empty
    {
      if Search.UsesSearch(difficulty, chance) {
        move := GetBestMove();
      } else {
        move := Search.RandomMove(board[..], pick);
      }
    }
  }

  /** A move followed by an undo restores the board and the player to move
      and leaves the undo stack as it was, whenever the move was accepted and
      did not end the game. */
  method MoveThenUndo(game: TicTacToeGame, index: int)
    requires game.Valid()
    modifies game, game.board
    ensures game.Valid()
    ensures (old(game.Accepts(index))
             && !Terminal(old(game.board[..])[index := Mark(old(game.currentPlayer))])) ==>
      && game.board[..] == old(game.board[..]) && game.currentPlayer == old(game.currentPlayer)
      && game.moveHistory == old(game.moveHistory) && game.isGameActive
      && game.scores == old(game.scores)
  {
    game.MakeMove(index);
    game.UndoMove();
  }

  /** On the board of every game, running or finished, X has as many marks
      as O or one more: X opens and the players alternate. */
  lemma MarksOfAGame(g: TicTacToeGame)
    requires g.Valid()
    ensures CountOf(g.board[..], Mark(X)) == CountOf(g.board[..], Mark(O))
         || CountOf(g.board[..], Mark(X)) == CountOf(g.board[..], Mark(O)) + 1
  {
    var b: Board := g.board[..];
    var toMove := if g.isGameActive then g.currentPlayer else Opponent(g.currentPlayer);
    assert Balanced(b, toMove);
  }
}
