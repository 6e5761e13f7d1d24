/**
 * Win detection (`getWinner`) and the values derived from the current board:
 * whether the round is drawn and which status line the game shows.
 */
module Rules {
  import opened Wrappers
  import opened Squares

  /** Three cell indices; every line in `Lines` lists them in increasing order. */
  datatype Line = Line(a: Index, b: Index, c: Index)

  /** The eight lines, in the order the search tries them: rows, columns, diagonals. */
  const Lines: seq<Line> := [
    Line(0, 1, 2), Line(3, 4, 5), Line(6, 7, 8),
    Line(0, 3, 6), Line(1, 4, 7), Line(2, 5, 8),
    Line(0, 4, 8), Line(2, 4, 6)
  ]

  /** What `getWinner` returns when it finds a line: `{ player, line }`. */
  datatype WinnerInfo = WinnerInfo(player: Player, line: Line)

  /** The three cells of `l` hold the same mark. */
  predicate Completes(b: Board, l: Line)
  {
    b[l.a] != Empty && b[l.a] == b[l.b] && b[l.a] == b[l.c]
  }

  /** The search of `getWinner`, started at line `k` of `Lines`. */
  function WinnerFrom(b: Board, k: nat): (r: Option<WinnerInfo>)
    requires k <= |Lines|
    ensures r.Some? ==> r.value.line in Lines[k..] && Completes(b, r.value.line)
                        && b[r.value.line.a] == Mark(r.value.player)
    decreases |Lines| - k
  {
    if k == |Lines| then None
    else if Completes(b, Lines[k]) then Some(WinnerInfo(b[Lines[k].a].player, Lines[k]))
    else WinnerFrom(b, k + 1)
  }

  /** `getWinner(squares)`: the first complete line, or `null`. */
  function Winner(b: Board): (r: Option<WinnerInfo>)
    ensures r.Some? ==> r.value.line in Lines && Completes(b, r.value.line)
                        && b[r.value.line.a] == Mark(r.value.player)
  {
    WinnerFrom(b, 0)
  }

  /** `getWinner` as the source runs it: a loop over `Lines` that returns at the first complete line. */
  method GetWinner(b: Board) returns (w: Option<WinnerInfo>)
    ensures w == Winner(b)
  {
    for k := 0 to |Lines|
      invariant WinnerFrom(b, k) == Winner(b)
    {
      var l := Lines[k];
      if b[l.a] != Empty && b[l.a] == b[l.b] && b[l.a] == b[l.c] {
        return Some(WinnerInfo(b[l.a].player, l));
      }
    }
    return None;
  }

  /** `isDraw`: every cell is marked and there is no winner. */
  predicate IsDraw(b: Board)
    ensures IsDraw(b) <==> Marks(b) == 9 && forall k | 0 <= k < |Lines| :: !Completes(b, Lines[k])
  {
    FullMarks(b);
    WinnerIsFirstCompleteLine(b);
    Full(b) && Winner(b) == None
  }

  /** The status line, as a value: "p wins!", "It's a draw" or "Turn: p". */
  datatype Status = Win(player: Player) | Draw | Turn(player: Player)

  /** The player whose mark the stored turn flag `xIsNext` selects. */
  function NextPlayer(xIsNext: bool): (p: Player)
    ensures p == X <==> xIsNext
  {
    if xIsNext then X else O
  }

  /** The status of the board: a winner first, then a draw, then whose turn it is. */
  function GameStatus(b: Board, xIsNext: bool): (st: Status)
    ensures st.Win? <==> Winner(b).Some?
    ensures st.Win? ==> b[Winner(b).value.line.a] == Mark(st.player)
    ensures st == Draw <==> IsDraw(b)
    ensures st.Turn? ==> st.player == NextPlayer(xIsNext) && Marks(b) < 9
  {
    FullMarks(b);
    match Winner(b)
    case Some(w) => Win(w.player)
    case None => if IsDraw(b) then Draw else Turn(NextPlayer(xIsNext))
  }

  /**
   * The search from line `k` finds nothing exactly when no later line is
   * complete, and otherwise it reports the first complete line.
   */
  lemma {:induction false} WinnerFromFirst(b: Board, k: nat)
    requires k <= |Lines|
    ensures WinnerFrom(b, k) == None <==> forall j | k <= j < |Lines| :: !Completes(b, Lines[j])
    ensures forall j | k <= j < |Lines| ::
              Completes(b, Lines[j]) && (forall m | k <= m < j :: !Completes(b, Lines[m])) ==>
              WinnerFrom(b, k) == Some(WinnerInfo(b[Lines[j].a].player, Lines[j]))
    decreases |Lines| - k
  {
    if k < |Lines| && !Completes(b, Lines[k]) {
      WinnerFromFirst(b, k + 1);
    }
  }

  /**
   * `getWinner` returns `null` exactly when no line is complete, and otherwise
   * the first complete line in the listed order with the mark found on it.
   */
  lemma WinnerIsFirstCompleteLine(b: Board)
    ensures Winner(b) == None <==> forall k | 0 <= k < |Lines| :: !Completes(b, Lines[k])
    ensures forall k | 0 <= k < |Lines| ::
              Completes(b, Lines[k]) && (forall j | 0 <= j < k :: !Completes(b, Lines[j])) ==>
              Winner(b) == Some(WinnerInfo(b[Lines[k].a].player, Lines[k]))
  {
    WinnerFromFirst(b, 0);
  }

  /** A reported winner is one of the eight lines with all three cells holding the winner's mark. */
  lemma WinnerSound(b: Board)
    ensures Winner(b).Some? ==>
              var w := Winner(b).value;
              w.line in Lines &&
              b[w.line.a] == Mark(w.player) && b[w.line.b] == Mark(w.player) && b[w.line.c] == Mark(w.player)
  {
  }

  /** A player with fewer than three marks on the board cannot be the winner. */
  lemma WinnerHasThreeMarks(b: Board)
    ensures Winner(b).Some? ==> Count(b, Mark(Winner(b).value.player)) >= 3
  {
    if Winner(b).Some? {
      var w := Winner(b).value;
      assert w.line in Lines;
      assert w.line.a < w.line.b < w.line.c;
      CountAtLeastThree(b, w.line.a, w.line.b, w.line.c, Mark(w.player));
    }
  }

  /** The all-empty board has no winner. */
  lemma NoWinnerOnEmptyBoard()
    ensures Winner(EmptyBoard) == None
  {
  }

  /** A completed top row is reported as a win for its mark on line [0, 1, 2]. */
  lemma TopRowExample()
    ensures Winner([Mark(X), Mark(X), Mark(X), Empty, Empty, Empty, Empty, Empty, Empty])
         == Some(WinnerInfo(X, Line(0, 1, 2)))
  {
  }

  /** The full board X O X / O X O / O X O has no complete line and is a draw. */
  lemma DrawExample()
    ensures var b: Board := [Mark(X), Mark(O), Mark(X), Mark(O), Mark(X), Mark(O), Mark(O), Mark(X), Mark(O)];
            Winner(b) == None && IsDraw(b) && GameStatus(b, true) == Draw
  {
  }

  /**
   * The status line follows the priority winner, then draw, then turn: a win
   * is shown exactly when a line is complete, a draw exactly when the board is
   * full with no complete line, and otherwise the player the turn flag names.
   */
  lemma StatusPriority(b: Board, xIsNext: bool)
    ensures GameStatus(b, xIsNext).Win? <==> exists k | 0 <= k < |Lines| :: Completes(b, Lines[k])
    ensures GameStatus(b, xIsNext).Win? ==> Mark(GameStatus(b, xIsNext).player) == b[Winner(b).value.line.a]
    ensures GameStatus(b, xIsNext) == Draw <==>
              Marks(b) == 9 && forall k | 0 <= k < |Lines| :: !Completes(b, Lines[k])
    ensures GameStatus(b, xIsNext).Turn? <==>
              Marks(b) < 9 && forall k | 0 <= k < |Lines| :: !Completes(b, Lines[k])
    ensures GameStatus(b, xIsNext).Turn? ==> GameStatus(b, xIsNext).player == NextPlayer(xIsNext)
  {
    WinnerIsFirstCompleteLine(b);
    FullMarks(b);
  }
}
