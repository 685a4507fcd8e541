/** The 3×3 board: cell values, the eight winning lines, the winner scan and
    the full-board test of the game. */
module Board {

  datatype Player = X | O

  /** A cell is empty ('' in the game) or holds one player's mark. */
  datatype Cell = Empty | Mark(player: Player)

  datatype Option<T> = None | Some(value: T)

  /** A board position, `row * 3 + col`. */
  type Index = i: int | 0 <= i < 9

  /** A board is always exactly nine cells. */
  type Board = b: seq<Cell> | |b| == 9
    witness [Empty, Empty, Empty, Empty, Empty, Empty, Empty, Empty, Empty]

  const EmptyBoard: Board := [Empty, Empty, Empty, Empty, Empty, Empty, Empty, Empty, Empty]

  function Opponent(p: Player): (q: Player)
    ensures q != p
  {
    if p == X then O else X
  }

  /** The eight winning lines, in the order the winner scan visits them:
      the three rows, the three columns, then the two diagonals. */
  const WinPatterns: seq<(Index, Index, Index)> := [
    (0, 1, 2), (3, 4, 5), (6, 7, 8),
    (0, 3, 6), (1, 4, 7), (2, 5, 8),
    (0, 4, 8), (2, 4, 6)
  ]

  /** Line k holds three equal marks. */
  predicate LineOwned(b: Board, k: nat)
    requires k < |WinPatterns|
  {
    var line := WinPatterns[k];
    b[line.0] != Empty && b[line.0] == b[line.1] && b[line.0] == b[line.2]
  }

  predicate OnLine(k: nat, i: int)
    requires k < |WinPatterns|
  {
    var line := WinPatterns[k];
    i == line.0 || i == line.1 || i == line.2
  }

  /** The scan over the lines from k on: the index of the first owned line,
      or |WinPatterns| when there is none. */
  function FirstLineFrom(b: Board, k: nat): (r: nat)
    requires k <= |WinPatterns|
    ensures k <= r <= |WinPatterns|
    ensures r < |WinPatterns| ==> LineOwned(b, r)
    ensures forall j :: k <= j < r ==> !LineOwned(b, j)
    decreases |WinPatterns| - k
  {
    if k == |WinPatterns| then k
    else if LineOwned(b, k) then k
    else FirstLineFrom(b, k + 1)
  }

  /** The winner of a board: the owner of the first owned line in scan
      order, or None (null in the game) when no line is owned. */
  function Winner(b: Board): (r: Option<Player>)
    ensures r.None? <==> forall k :: 0 <= k < |WinPatterns| ==> !LineOwned(b, k)
    ensures r.Some? ==>
      exists k :: 0 <= k < |WinPatterns| && LineOwned(b, k)
        && b[WinPatterns[k].0] == Mark(r.value)
        && forall j :: 0 <= j < k ==> !LineOwned(b, j)
  {
    var k := FirstLineFrom(b, 0);
    if k < |WinPatterns| then Some(b[WinPatterns[k].0].player) else None
  }

  /** No cell is empty. */
  predicate IsFull(b: Board) {
    forall i :: 0 <= i < 9 ==> b[i] != Empty
  }

  /** A game position is over once someone has won or the board is full. */
  predicate Terminal(b: Board) {
    Winner(b).Some? || IsFull(b)
  }

  /** The number of cells of s equal to c. */
  function CountOf(s: seq<Cell>, c: Cell): nat {
    if s == [] then 0 else (if s[0] == c then 1 else 0) + CountOf(s[1..], c)
  }

  /** No value occurs more often than s has cells. */
  lemma {:induction false} CountAtMostLength(s: seq<Cell>, c: Cell)
    ensures CountOf(s, c) <= |s|
  {
    if s != [] {
      CountAtMostLength(s[1..], c);
    }
  }

  /** Writing v into cell i moves one cell from the count of s[i] to the
      count of v. */
  lemma {:induction false} CountUpdate(s: seq<Cell>, i: nat, v: Cell, c: Cell)
    requires i < |s|
    ensures CountOf(s[i := v], c)
         == CountOf(s, c) - (if s[i] == c then 1 else 0) + (if v == c then 1 else 0)
  {
    if i == 0 {
      assert s[i := v][1..] == s[1..];
    } else {
      assert s[i := v][1..] == s[1..][i - 1 := v];
      CountUpdate(s[1..], i - 1, v, c);
    }
  }

  /** A value is counted zero times exactly when it does not occur. */
  lemma {:induction false} CountZeroIffAbsent(s: seq<Cell>, c: Cell)
    ensures CountOf(s, c) == 0 <==> forall i :: 0 <= i < |s| ==> s[i] != c
  {
    if s != [] {
      CountZeroIffAbsent(s[1..], c);
      assert forall i :: 1 <= i < |s| ==> s[i] == s[1..][i - 1];
    }
  }

  /** The board is full exactly when it has no empty cell left to count. */
  lemma FullIffNoEmptyCells(b: Board)
    ensures IsFull(b) <==> CountOf(b, Empty) == 0
  {
    CountZeroIffAbsent(b, Empty);
  }

  /** On a board that nobody has won, every line owned after p marks the empty
      cell i passes through i and is p's: only the mover can have won, and
      never both players at once. */
  lemma EveryWinningLineIsMovers(b: Board, i: Index, p: Player)
    requires Winner(b).None? && b[i] == Empty
    ensures forall k :: 0 <= k < |WinPatterns| && LineOwned(b[i := Mark(p)], k) ==>
      OnLine(k, i) && b[i := Mark(p)][WinPatterns[k].0] == Mark(p)
  {
    forall k | 0 <= k < |WinPatterns| && LineOwned(b[i := Mark(p)], k)
      ensures OnLine(k, i) && b[i := Mark(p)][WinPatterns[k].0] == Mark(p)
    {
      if !OnLine(k, i) {
        assert LineOwned(b, k);
        assert false;
      }
    }
  }

  /** After a move on an unwon board the winner, if any, is the mover. */
  lemma MoverIsWinner(b: Board, i: Index, p: Player)
    requires Winner(b).None? && b[i] == Empty
    ensures Winner(b[i := Mark(p)]) == None || Winner(b[i := Mark(p)]) == Some(p)
  {
    var after := b[i := Mark(p)];
    if Winner(after).Some? {
      EveryWinningLineIsMovers(b, i, p);
      var k :| 0 <= k < |WinPatterns| && LineOwned(after, k)
        && after[WinPatterns[k].0] == Mark(Winner(after).value)
        && forall j :: 0 <= j < k ==> !LineOwned(after, j);
    }
  }
}
