/**
 * The state of the `App` component and its transitions, each as a function
 * from the state before the handler runs to the state after it. Every read
 * inside a handler sees the old state, as React's setters do.
 */
module Game {
  import opened Wrappers
  import opened Squares
  import opened Rules

  /** The score panel: `{ X, O, draws }`. */
  datatype Scores = Scores(x: nat, o: nat, draws: nat)

  const NoScores: Scores := Scores(0, 0, 0)

  /** `{ ...s, [p]: s[p] + 1 }` */
  function Credit(s: Scores, p: Player): Scores
  {
    match p
    case X => s.(x := s.x + 1)
    case O => s.(o := s.o + 1)
  }

  function Total(s: Scores): nat
  {
    s.x + s.o + s.draws
  }

  /** The four pieces of state of `App`. */
  datatype State = State(history: seq<Board>, currentMove: int, xIsNext: bool, scores: Scores)

  /** The state on first render. */
  function Initial(): (s: State)
    ensures Inv(s) && Marks(Current(s)) == 0
    ensures s.xIsNext && Total(s.scores) == 0
  {
    EmptyBoardHasNoMarks();
    State([EmptyBoard], 0, true, NoScores)
  }

  /** `currentMove` names a snapshot of `history`. */
  predicate Points(s: State)
  {
    0 <= s.currentMove < |s.history|
  }

  /** `currentSquares`: the board at the pointer. */
  function Current(s: State): Board
    requires Points(s)
  {
    s.history[s.currentMove]
  }

  /** `next` is `prev` with exactly one empty cell given a mark. */
  predicate Step(prev: Board, next: Board)
  {
    exists i: Index :: prev[i] == Empty && next[i] != Empty && next == prev[i := next[i]]
  }

  /**
   * The history invariant: the first snapshot is the empty board, each later
   * snapshot adds one mark to the one before, `currentMove` indexes a snapshot,
   * and only the last snapshot may hold a complete line.
   */
  predicate Inv(s: State)
    ensures Inv(s) ==> 0 <= s.currentMove < |s.history| && Marks(s.history[0]) == 0
                       && (Winner(s.history[s.currentMove]).Some? ==> s.currentMove == |s.history| - 1)
  {
    EmptyBoardHasNoMarks();
    && Points(s)
    && s.history[0] == EmptyBoard
    && (forall k | 1 <= k < |s.history| :: Step(s.history[k - 1], s.history[k]))
    && (forall k | 0 <= k < |s.history| - 1 :: Winner(s.history[k]) == None)
  }

  /** `handlePlay(nextSquares)`: keep the history up to the pointer, append, move to the end, flip the turn. */
  function Play(s: State, next: Board): (r: State)
    requires Points(s)
    ensures Points(r) && Current(r) == next && r.currentMove == s.currentMove + 1
    ensures |r.history| == s.currentMove + 2 && r.currentMove == |r.history| - 1
    ensures r.history[..s.currentMove + 1] == s.history[..s.currentMove + 1]
    ensures r.xIsNext != s.xIsNext && r.scores == s.scores
  {
    var nextHistory := s.history[..s.currentMove + 1] + [next];
    s.(history := nextHistory, currentMove := |nextHistory| - 1, xIsNext := !s.xIsNext)
  }

  /** The guard of `handleSquareClick`: a winner exists or the cell is taken. */
  predicate Blocked(s: State, i: Index)
    requires Points(s)
  {
    Winner(Current(s)).Some? || Current(s)[i] != Empty
  }

  /** `handleSquareClick(i)` */
  function Click(s: State, i: Index): (r: State)
    requires Points(s)
    ensures Points(r) && r.scores == s.scores
    ensures r == s <==> Blocked(s, i)
    ensures !Blocked(s, i) ==> Current(r)[i] == Mark(NextPlayer(s.xIsNext)) && r.xIsNext != s.xIsNext
  {
    if Blocked(s, i) then s
    else Play(s, Current(s)[i := Mark(NextPlayer(s.xIsNext))])
  }

  /** `undo()`: step the pointer back and toggle the stored turn, unless at the start or after a win. */
  function Undo(s: State): (r: State)
    requires Points(s)
    ensures Points(r) && r.history == s.history && r.scores == s.scores
    ensures r == s <==> s.currentMove == 0 || Winner(Current(s)).Some?
    ensures r != s ==> r.currentMove == s.currentMove - 1 && r.xIsNext != s.xIsNext
  {
    if s.currentMove == 0 || Winner(Current(s)).Some? then s
    else s.(currentMove := s.currentMove - 1, xIsNext := !s.xIsNext)
  }

  /**
   * `jumpTo(move)`: the pointer moves and the turn follows the parity of
   * `move`. (For a negative `move` JavaScript's `%` and Dafny's disagree in
   * sign, but both say "even" for exactly the same numbers.)
   */
  function JumpTo(s: State, move: int): (r: State)
    ensures r.history == s.history && r.scores == s.scores && r.currentMove == move
    ensures r.xIsNext <==> move % 2 == 0
  {
    s.(currentMove := move, xIsNext := move % 2 == 0)
  }

  /** `resetBoard(nextStarter)`: with no starter, X starts when the old pointer is even. */
  function ResetBoard(s: State, nextStarter: Option<bool>): (r: State)
    ensures Inv(r) && Current(r) == EmptyBoard && |r.history| == 1 && r.scores == s.scores
    ensures nextStarter.Some? ==> r.xIsNext == nextStarter.value
    ensures nextStarter.None? ==> (r.xIsNext <==> s.currentMove % 2 == 0)
  {
    var starter := match nextStarter
      case Some(x) => x
      case None => s.currentMove % 2 == 0;
    s.(history := [EmptyBoard], currentMove := 0, xIsNext := starter)
  }

  /** `newRound()`: score a win or a draw, then reset the board in every case; after a win the loser starts. */
  function NewRound(s: State): (r: State)
    requires Points(s)
    ensures Inv(r) && Current(r) == EmptyBoard && |r.history| == 1
    ensures Total(r.scores) == Total(s.scores) + (if Winner(Current(s)).Some? || IsDraw(Current(s)) then 1 else 0)
    ensures Winner(Current(s)).Some? ==> r.xIsNext == (Winner(Current(s)).value.player == O)
  {
    var info := Winner(Current(s));
    var scores := if info.Some? then Credit(s.scores, info.value.player)
                  else if IsDraw(Current(s)) then s.scores.(draws := s.scores.draws + 1)
                  else s.scores;
    var starter := if info.Some? then Some(info.value.player != X) else None;
    ResetBoard(s.(scores := scores), starter)
  }

  /** The "Reset All" button: zero the scores, then reset the board with X to start. */
  function ResetAll(s: State): (r: State)
    ensures r == Initial()
  {
    var r := ResetBoard(s.(scores := NoScores), Some(true));
    assert r.history == [EmptyBoard];
    r
  }

  // ---------------------------------------------------------------------------
  // The history invariant and what follows from it

  /** One mark added to an empty cell raises the count of marks by one. */
  lemma StepAddsMark(prev: Board, next: Board)
    requires Step(prev, next)
    ensures Marks(next) == Marks(prev) + 1
  {
    var i: Index :| prev[i] == Empty && next[i] != Empty && next == prev[i := next[i]];
    CountUpdate(prev, i, next[i], Empty);
  }

  /** Snapshot `k` of a history that starts empty and grows one mark per step carries `k` marks. */
  lemma {:induction false} SnapshotMarks(h: seq<Board>, k: nat)
    requires |h| > 0 && h[0] == EmptyBoard
    requires forall j | 1 <= j < |h| :: Step(h[j - 1], h[j])
    requires k < |h|
    ensures Marks(h[k]) == k
  {
    if k == 0 {
      EmptyBoardHasNoMarks();
    } else {
      SnapshotMarks(h, k - 1);
      StepAddsMark(h[k - 1], h[k]);
    }
  }

  /** Under the invariant, snapshot `k` has exactly `k` marks, so the history holds at most ten snapshots. */
  lemma HistoryBounded(s: State)
    requires Inv(s)
    ensures forall k | 0 <= k < |s.history| :: Marks(s.history[k]) == k
    ensures |s.history| <= 10
  {
    forall k | 0 <= k < |s.history|
      ensures Marks(s.history[k]) == k
    {
      SnapshotMarks(s.history, k);
    }
    assert Marks(s.history[|s.history| - 1]) == |s.history| - 1;
  }

  /** A drawn board can only be reached as the ninth move. */
  lemma DrawOnlyAtNine(s: State)
    requires Inv(s) && IsDraw(Current(s))
    ensures s.currentMove == 9
  {
    HistoryBounded(s);
    FullMarks(Current(s));
  }

  /** A board with a winner is always the last snapshot of the history. */
  lemma WinnerEndsHistory(s: State)
    requires Inv(s) && Winner(Current(s)).Some?
    ensures s.currentMove == |s.history| - 1
  {
  }

  // ---------------------------------------------------------------------------
  // Square clicks

  /** `handlePlay` with a one-mark extension of a winner-free current board keeps the invariant. */
  lemma PlayInv(s: State, next: Board)
    requires Inv(s) && Step(Current(s), next) && Winner(Current(s)) == None
    ensures Inv(Play(s, next))
    ensures Current(Play(s, next)) == next && Play(s, next).currentMove == s.currentMove + 1
    ensures |Play(s, next).history| == s.currentMove + 2
  {
    var h := s.history;
    var h' := Play(s, next).history;
    var cm := s.currentMove;
    assert h' == h[..cm + 1] + [next];
    forall k | 1 <= k < |h'|
      ensures Step(h'[k - 1], h'[k])
    {
      if k <= cm {
        assert h'[k - 1] == h[k - 1] && h'[k] == h[k];
      } else {
        assert h'[k - 1] == h[cm] && h'[k] == next;
      }
    }
    forall k | 0 <= k < |h'| - 1
      ensures Winner(h'[k]) == None
    {
      assert h'[k] == h[k];
    }
  }

  /** A click is a no-op exactly when the board already has a winner or the cell is taken. */
  lemma ClickNoOp(s: State, i: Index)
    requires Points(s)
    ensures Click(s, i) == s <==> Blocked(s, i)
  {
  }

  /**
   * An effective click keeps the snapshots up to the pointer, discards the
   * rest, and appends the current board with only cell `i` given the mark of
   * the player to move; the pointer moves to it, the turn flips, the scores
   * stay. It also keeps the invariant.
   */
  lemma ClickPlays(s: State, i: Index)
    requires Inv(s) && !Blocked(s, i)
    ensures var r := Click(s, i);
      && Inv(r)
      && |r.history| == s.currentMove + 2
      && r.history[..s.currentMove + 1] == s.history[..s.currentMove + 1]
      && r.currentMove == |r.history| - 1
      && Current(r)[i] == Mark(NextPlayer(s.xIsNext))
      && (forall j: Index | j != i :: Current(r)[j] == Current(s)[j])
      && Marks(Current(r)) == Marks(Current(s)) + 1
      && r.xIsNext == !s.xIsNext
      && r.scores == s.scores
  {
    var next := Current(s)[i := Mark(NextPlayer(s.xIsNext))];
    assert Step(Current(s), next) by {
      assert Current(s)[i] == Empty && next[i] != Empty && next == Current(s)[i := next[i]];
    }
    PlayInv(s, next);
    PlaceAddsMark(Current(s), i, NextPlayer(s.xIsNext));
  }

  /** Every click keeps the invariant. */
  lemma ClickInv(s: State, i: Index)
    requires Inv(s)
    ensures Inv(Click(s, i))
  {
    if !Blocked(s, i) {
      ClickPlays(s, i);
    }
  }

  /** Clicking the same cell twice changes nothing the second time. */
  lemma ClickTwice(s: State, i: Index)
    requires Inv(s)
    ensures Points(Click(s, i)) && Click(Click(s, i), i) == Click(s, i)
  {
    if !Blocked(s, i) {
      ClickPlays(s, i);
    }
  }

  /** Once the current board has a winner, no click changes anything. */
  lemma ClickAfterWin(s: State, i: Index)
    requires Points(s) && Winner(Current(s)).Some?
    ensures Click(s, i) == s
  {
  }

  /**
   * Undo is the inverse of an effective click that did not win: it brings
   * back the board, the pointer and the turn from before the click.
   */
  lemma UndoAfterClick(s: State, i: Index)
    requires Inv(s) && !Blocked(s, i)
    requires Winner(Current(s)[i := Mark(NextPlayer(s.xIsNext))]) == None
    ensures Points(Click(s, i))
    ensures var u := Undo(Click(s, i));
      Points(u) && Current(u) == Current(s) && u.currentMove == s.currentMove && u.xIsNext == s.xIsNext
  {
    ClickPlays(s, i);
    var r := Click(s, i);
    assert r.history[s.currentMove] == s.history[..s.currentMove + 1][s.currentMove];
  }

  // ---------------------------------------------------------------------------
  // Undo and jumps

  /**
   * Undo never touches the history or the scores; it does nothing at the
   * start or after a win, and otherwise moves the pointer back one and
   * toggles the turn. It keeps the invariant.
   */
  lemma UndoInv(s: State)
    requires Inv(s)
    ensures var r := Undo(s);
      && Inv(r)
      && r.history == s.history && r.scores == s.scores
      && (r == s <==> s.currentMove == 0 || Winner(Current(s)).Some?)
      && (r != s ==> r.currentMove == s.currentMove - 1 && r.xIsNext == !s.xIsNext)
  {
  }

  /**
   * A jump to a snapshot of the history keeps the invariant, the history and
   * the scores; X moves next exactly when the target is even.
   */
  lemma JumpToInv(s: State, move: int)
    requires Inv(s) && 0 <= move < |s.history|
    ensures var r := JumpTo(s, move);
      && Inv(r)
      && r.history == s.history && r.scores == s.scores
      && r.currentMove == move && (r.xIsNext <==> move % 2 == 0)
  {
  }

  /**
   * After a jump back, a click truncates the history to the snapshots up to
   * the jump target and appends the new board after them.
   */
  lemma JumpThenClick(s: State, move: int, i: Index)
    requires Inv(s) && 0 <= move < |s.history|
    requires !Blocked(JumpTo(s, move), i)
    ensures var r := Click(JumpTo(s, move), i);
      |r.history| == move + 2 && r.history[..move + 1] == s.history[..move + 1]
  {
    ClickPlays(JumpTo(s, move), i);
  }

  // ---------------------------------------------------------------------------
  // Resets and rounds

  /**
   * A board reset leaves one empty snapshot with the pointer on it and keeps
   * the scores; the starter is the one given, or X when the old pointer was even.
   */
  lemma ResetBoardInv(s: State, nextStarter: Option<bool>)
    ensures var r := ResetBoard(s, nextStarter);
      && Inv(r)
      && r.history == [EmptyBoard] && r.currentMove == 0 && r.scores == s.scores
      && (nextStarter.Some? ==> r.xIsNext == nextStarter.value)
      && (nextStarter.None? ==> (r.xIsNext <==> s.currentMove % 2 == 0))
  {
  }

  /** "Reset All" zeroes every score and starts a fresh board with X to move, whatever came before. */
  lemma ResetAllInv(s: State)
    ensures ResetAll(s) == Initial()
  {
  }

  /**
   * The next round always starts from a fresh board. A winner gets one point
   * and the other player starts; a draw adds one draw and the starter follows
   * the old pointer's parity; an unfinished round scores nothing.
   */
  lemma NewRoundOutcome(s: State)
    requires Inv(s)
    ensures var r := NewRound(s);
      && Inv(r) && r.history == [EmptyBoard] && r.currentMove == 0
      && (Winner(Current(s)).Some? ==>
            var p := Winner(Current(s)).value.player;
            r.scores == Credit(s.scores, p) && r.xIsNext == (Opponent(p) == X))
      && (IsDraw(Current(s)) ==>
            r.scores == s.scores.(draws := s.scores.draws + 1) && (r.xIsNext <==> s.currentMove % 2 == 0))
      && (Winner(Current(s)).None? && !IsDraw(Current(s)) ==>
            r.scores == s.scores && (r.xIsNext <==> s.currentMove % 2 == 0))
      && Total(s.scores) <= Total(r.scores) <= Total(s.scores) + 1
  {
  }

  /**
   * A draw is only ever reached at move nine, so after a drawn round O
   * always starts the next one, whoever started the drawn one.
   */
  lemma DrawThenOStarts(s: State)
    requires Inv(s) && IsDraw(Current(s))
    ensures !NewRound(s).xIsNext
    ensures NewRound(s).scores.draws == s.scores.draws + 1
  {
    DrawOnlyAtNine(s);
  }

  /** The scores never change except through a new round or Reset All. */
  lemma ScoresOnlyChangeByRound(s: State, i: Index, move: int, nextStarter: Option<bool>)
    requires Points(s)
    ensures Click(s, i).scores == s.scores
    ensures Undo(s).scores == s.scores
    ensures JumpTo(s, move).scores == s.scores
    ensures ResetBoard(s, nextStarter).scores == s.scores
  {
  }
}
