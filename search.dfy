/** What the computer opponent computes: the depth-scored minimax value of a
    position, the best reply for O, the random reply, and the difficulty
    policy that chooses between them. These functions specify the in-place
    search methods of Game.TicTacToeGame. */
module Search {
  import opened Board

  /** `Math.max(score, best)` where None stands for -Infinity. */
  function MaxInto(score: int, best: Option<int>): int {
    match best
    case None => score
    case Some(t) => if score > t then score else t
  }

  /** `Math.min(score, best)` where None stands for +Infinity. */
  function MinInto(score: int, best: Option<int>): int {
    match best
    case None => score
    case Some(t) => if score < t then score else t
  }

  /** The mark placed by the side to move: O maximises, X minimises. */
  function MoverMark(maximizing: bool): Cell {
    if maximizing then Mark(O) else Mark(X)
  }

  /** The position after the side to move takes cell i. */
  function Child(b: Board, i: Index, maximizing: bool): Board {
    b[i := MoverMark(maximizing)]
  }

  /** The minimax score of b searched `depth` plies below the root: an O win
      scores 10 - depth, an X win depth - 10, a full unwon board 0; otherwise
      the best score over the empty cells for the side to move. Within the
      nine-ply horizon of the board every score lies in [-(10 - depth), 10 - depth]. */
  function Minimax(b: Board, depth: nat, maximizing: bool): (r: int)
    ensures depth + CountOf(b, Empty) <= 10 ==> -(10 - depth) <= r <= 10 - depth
    decreases CountOf(b, Empty), 10
  {
    var winner := Winner(b);
    if winner == Some(O) then 10 - depth
    else if winner == Some(X) then depth - 10
    else if IsFull(b) then 0
    else
      var best := ChildrenUpTo(b, depth, maximizing, 9);
      best.value
  }

  /** The score of the reply that takes cell j, one ply deeper. */
  function Reply(b: Board, depth: nat, maximizing: bool, j: Index): int {
    Minimax(Child(b, j, maximizing), depth + 1, !maximizing)
  }

  /** The running best of the search loop after cells 0 .. i - 1 have been
      tried, None while no empty cell has been seen (the ±Infinity start). */
  function ChildrenUpTo(b: Board, depth: nat, maximizing: bool, i: nat): (r: Option<int>)
    requires i <= 9
    ensures r.Some? <==> exists j :: 0 <= j < i && b[j] == Empty
    ensures r.Some? && depth + CountOf(b, Empty) <= 10 ==> -(9 - depth) <= r.value <= 9 - depth
    decreases CountOf(b, Empty), i
  {
    if i == 0 then None
    else
      var rest := ChildrenUpTo(b, depth, maximizing, i - 1);
      if b[i - 1] != Empty then rest
      else
        CountUpdate(b, i - 1, MoverMark(maximizing), Empty);
        var score := Minimax(Child(b, i - 1, maximizing), depth + 1, !maximizing);
        Some(if maximizing then MaxInto(score, rest) else MinInto(score, rest))
  }

  /** One step of the search loop: an occupied cell leaves the running best
      alone, an empty one folds in the score of its reply. */
  lemma ChildrenStep(b: Board, depth: nat, maximizing: bool, i: Index)
    ensures ChildrenUpTo(b, depth, maximizing, i + 1)
      == if b[i] != Empty then ChildrenUpTo(b, depth, maximizing, i)
         else
           var score := Reply(b, depth, maximizing, i);
           var rest := ChildrenUpTo(b, depth, maximizing, i);
           Some(if maximizing then MaxInto(score, rest) else MinInto(score, rest))
  {
  }

  /** The running best is the extremum of the children's scores seen so far:
      no tried child beats it, and some tried child attains it. */
  lemma {:induction false} ChildrenUpToIsExtremum(b: Board, depth: nat, maximizing: bool, i: nat)
    requires i <= 9
    ensures var r := ChildrenUpTo(b, depth, maximizing, i);
      r.Some? ==>
        && (forall j: Index :: j < i && b[j] == Empty ==>
              if maximizing then Reply(b, depth, maximizing, j) <= r.value
              else r.value <= Reply(b, depth, maximizing, j))
        && (exists j: Index :: j < i && b[j] == Empty && r.value == Reply(b, depth, maximizing, j))
  {
    if i > 0 {
      ChildrenUpToIsExtremum(b, depth, maximizing, i - 1);
      var rest := ChildrenUpTo(b, depth, maximizing, i - 1);
      var r := ChildrenUpTo(b, depth, maximizing, i);
      if b[i - 1] == Empty {
        var score := Reply(b, depth, maximizing, i - 1);
        assert r == Some(if maximizing then MaxInto(score, rest) else MinInto(score, rest));
        if rest.Some? && r.value == rest.value {
          var w: Index :| w < i - 1 && b[w] == Empty && rest.value == Reply(b, depth, maximizing, w);
          assert w < i && b[w] == Empty && r.value == Reply(b, depth, maximizing, w);
        } else {
          assert r.value == score;
        }
      }
    }
  }

  /** On a position that is not over, the minimax score is the maximum (O to
      move) or minimum (X to move) of the scores of its children one ply
      deeper, and it is attained by some empty cell. */
  lemma MinimaxOfOpenPosition(b: Board, depth: nat, maximizing: bool)
    requires !Terminal(b)
    ensures forall j: Index :: b[j] == Empty ==>
      if maximizing then Reply(b, depth, maximizing, j) <= Minimax(b, depth, maximizing)
      else Minimax(b, depth, maximizing) <= Reply(b, depth, maximizing, j)
    ensures exists j: Index ::
      b[j] == Empty && Minimax(b, depth, maximizing) == Reply(b, depth, maximizing, j)
  {
    assert Minimax(b, depth, maximizing) == ChildrenUpTo(b, depth, maximizing, 9).value;
    ChildrenUpToIsExtremum(b, depth, maximizing, 9);
  }

  /** The leaves of the search: wins are scored by depth, a win taking
      precedence over a full board, and a full unwon board scores 0. */
  lemma MinimaxOfFinishedPosition(b: Board, depth: nat, maximizing: bool)
    requires Terminal(b)
    ensures Winner(b) == Some(O) ==> Minimax(b, depth, maximizing) == 10 - depth
    ensures Winner(b) == Some(X) ==> Minimax(b, depth, maximizing) == depth - 10
    ensures Winner(b).None? ==> Minimax(b, depth, maximizing) == 0
  {
  }

  /** The score `getBestMove` gives cell i: O takes it and X replies. */
  function ChildScore(b: Board, i: Index): int {
    Minimax(Child(b, i, true), 0, false)
  }

  /** A search started at the root, as `getBestMove` starts one for every
      candidate cell, scores in [-10, 10]: a board has at most nine empty
      cells, so it is within the horizon at depth 0. */
  lemma RootScoreBound(b: Board, maximizing: bool)
    ensures -10 <= Minimax(b, 0, maximizing) <= 10
  {
    CountAtMostLength(b, Empty);
  }

  /** Every candidate score of the best-move loop lies in [-10, 10]. */
  lemma ChildScoreBound(b: Board, i: Index)
    ensures -10 <= ChildScore(b, i) <= 10
  {
    RootScoreBound(Child(b, i, true), false);
  }

  /** The (bestScore, bestMove) pair of the best-move loop after cells
      0 .. i - 1 have been tried; a later cell replaces the best only with a
      strictly greater score. */
  function BestUpTo(b: Board, i: nat): (r: (Option<int>, int))
    requires i <= 9
    ensures r.1 == -1 <==> forall j :: 0 <= j < i ==> b[j] != Empty
    ensures r.1 == -1 <==> r.0.None?
    ensures r.1 != -1 ==> 0 <= r.1 < i && b[r.1] == Empty && r.0 == Some(ChildScore(b, r.1))
    ensures r.1 != -1 ==> forall j :: 0 <= j < i && b[j] == Empty ==> ChildScore(b, j) <= r.0.value
    ensures r.1 != -1 ==> forall j :: 0 <= j < r.1 && b[j] == Empty ==> ChildScore(b, j) < r.0.value
  {
    if i == 0 then (None, -1)
    else
      var (best, move) := BestUpTo(b, i - 1);
      if b[i - 1] == Empty && (best.None? || ChildScore(b, i - 1) > best.value)
      then (Some(ChildScore(b, i - 1)), i - 1)
      else (best, move)
  }

  /** The computer's optimal move for O: -1 exactly when the board is full,
      otherwise the lowest-indexed empty cell whose score is maximal among
      all empty cells. */
  function BestMove(b: Board): (m: int)
    ensures m == -1 <==> IsFull(b)
    ensures m != -1 ==>
      && 0 <= m < 9 && b[m] == Empty
      && (forall j :: 0 <= j < 9 && b[j] == Empty ==> ChildScore(b, j) <= ChildScore(b, m))
      && (forall j :: 0 <= j < m && b[j] == Empty ==> ChildScore(b, j) < ChildScore(b, m))
  {
    BestUpTo(b, 9).1
  }

  /** The indices of the empty cells among 0 .. n - 1, in increasing order. */
  function AvailableUpTo(b: Board, n: nat): (r: seq<int>)
    requires n <= 9
    ensures forall k :: 0 <= k < |r| ==> 0 <= r[k] < n && b[r[k]] == Empty
    ensures forall j :: 0 <= j < n && b[j] == Empty ==> j in r
    ensures forall k, l :: 0 <= k < l < |r| ==> r[k] < r[l]
  {
    if n == 0 then []
    else AvailableUpTo(b, n - 1) + (if b[n - 1] == Empty then [n - 1] else [])
  }

  /** The empty cells of the board, in index order. */
  function AvailableMoves(b: Board): seq<int> {
    AvailableUpTo(b, 9)
  }

  /** `Math.floor(pick * n)`: the position the draw `pick` in [0, 1) selects
      among n candidates. */
  function DrawIndex(pick: real, n: nat): (k: nat)
    requires 0.0 <= pick < 1.0 && n > 0
    ensures k < n
  {
    assert pick * n as real < n as real;
    (pick * n as real).Floor
  }

  /** The draw k / n selects position k of n. */
  lemma DrawSelects(k: nat, n: nat)
    requires k < n
    ensures 0.0 <= k as real / n as real < 1.0
    ensures DrawIndex(k as real / n as real, n) == k
  {
  }

  /** The random move: `pick` is the draw of Math.random() in [0, 1), which
      selects one of the empty cells by DrawIndex; -1 when the board is full. */
  function RandomMove(b: Board, pick: real): (m: int)
    requires 0.0 <= pick < 1.0
    ensures m == -1 <==> IsFull(b)
    ensures m != -1 ==> 0 <= m < 9 && b[m] == Empty
  {
    var moves := AvailableMoves(b);
    if |moves| > 0 then moves[DrawIndex(pick, |moves|)] else -1
  }

  /** Every empty cell is the random move for some draw. */
  lemma RandomMoveReachesEveryEmptyCell(b: Board, i: Index)
    requires b[i] == Empty
    ensures exists pick: real :: 0.0 <= pick < 1.0 && RandomMove(b, pick) == i
  {
    var moves := AvailableMoves(b);
    assert i in moves;
    var k :| 0 <= k < |moves| && moves[k] == i;
    DrawSelects(k, |moves|);
    var pick := k as real / |moves| as real;
    assert RandomMove(b, pick) == moves[k];
  }

  /** The difficulty setting of the computer opponent. */
  datatype Difficulty = Easy | Medium | Hard | Impossible | Unrecognized

  /** Whether the computer searches (true) or moves at random (false), given
      the draw `chance` of Math.random() in [0, 1): easy never searches,
      medium below 0.7, hard below 0.9, impossible always; any other setting
      moves at random. */
  function UsesSearch(d: Difficulty, chance: real): bool {
    match d
    case Easy => false
    case Medium => chance < 0.7
    case Hard => chance < 0.9
    case Impossible => true
    case Unrecognized => false
  }

  /** The move the computer opponent picks. */
  function AIMove(b: Board, d: Difficulty, chance: real, pick: real): (m: int)
    requires 0.0 <= pick < 1.0
    ensures m == -1 <==> IsFull(b)
    ensures m != -1 ==> 0 <= m < 9 && b[m] == Empty
  {
    if UsesSearch(d, chance) then BestMove(b) else RandomMove(b, pick)
  }
}
