/**
 * The `App` component as an object: its four pieces of state are fields, and
 * each event handler is a method that updates them. Every method reads the
 * fields as they were before it ran, and its new state is the matching
 * transition of module `Game` applied to the old state.
 */
module App {
  import opened Wrappers
  import opened Squares
  import opened Rules
  import opened Game

  class Session {
    var history: seq<Board>
    var currentMove: int
    var xIsNext: bool
    var scores: Scores

    /** The fields as one value. */
    function Value(): State
      reads this
    {
      State(history, currentMove, xIsNext, scores)
    }

    /** The history invariant holds of the fields. */
    predicate Valid()
      reads this
    {
      Inv(Value())
    }

    /** The state `useState` starts from: one empty board, X to move, no scores. */
    constructor ()
      ensures Valid() && Value() == Initial()
    {
      history := [EmptyBoard];
      currentMove := 0;
      xIsNext := true;
      scores := NoScores;
    }

    /** `status`: the winner, else a draw, else whose turn it is, read from the current board. */
    method CurrentStatus() returns (status: Status)
      requires Valid()
      ensures status == GameStatus(Current(Value()), xIsNext)
      ensures status.Win? <==> Winner(Current(Value())).Some?
      ensures status == Draw <==> IsDraw(Current(Value()))
    {
      var squares := history[currentMove];
      var winnerInfo := GetWinner(squares);
      if winnerInfo.Some? {
        status := Win(winnerInfo.value.player);
      } else if Full(squares) {
        status := Draw;
      } else {
        status := Turn(NextPlayer(xIsNext));
      }
    }

    /** `handlePlay(nextSquares)` */
    method HandlePlay(nextSquares: Board)
      requires Valid() && Step(Current(Value()), nextSquares) && Winner(Current(Value())) == None
      modifies this
      ensures Valid() && Value() == Play(old(Value()), nextSquares)
    {
      PlayInv(Value(), nextSquares);
      var nextHistory := history[..currentMove + 1] + [nextSquares];
      history := nextHistory;
      currentMove := |nextHistory| - 1;
      xIsNext := !xIsNext;
    }

    /** `handleSquareClick(i)` */
    method HandleSquareClick(i: Index)
      requires Valid()
      modifies this
      ensures Valid() && Value() == Click(old(Value()), i)
    {
      var squares := history[currentMove];
      var winnerInfo := GetWinner(squares);
      if winnerInfo.Some? || squares[i] != Empty {
        return;
      }
      var nextSquares := squares[i := Mark(NextPlayer(xIsNext))];
      ClickPlays(Value(), i);
      HandlePlay(nextSquares);
    }

    /** `resetBoard(nextStarter)` */
    method ResetBoard(nextStarter: Option<bool>)
      requires Valid()
      modifies this
      ensures Valid() && Value() == Game.ResetBoard(old(Value()), nextStarter)
    {
      var starter := if nextStarter.Some? then nextStarter.value else currentMove % 2 == 0;
      history := [EmptyBoard];
      currentMove := 0;
      xIsNext := starter;
    }

    /** `newRound()` */
    method NewRound()
      requires Valid()
      modifies this
      ensures Valid() && Value() == Game.NewRound(old(Value()))
    {
      var squares := history[currentMove];
      var winnerInfo := GetWinner(squares);
      if winnerInfo.Some? {
        scores := Credit(scores, winnerInfo.value.player);
      } else if Full(squares) {
        scores := scores.(draws := scores.draws + 1);
      }
      ResetBoard(if winnerInfo.Some? then Some(winnerInfo.value.player != X) else None);
    }

    /** `undo()` */
    method Undo()
      requires Valid()
      modifies this
      ensures Valid() && Value() == Game.Undo(old(Value()))
    {
      var winnerInfo := GetWinner(history[currentMove]);
      if currentMove == 0 || winnerInfo.Some? {
        return;
      }
      currentMove := currentMove - 1;
      xIsNext := !xIsNext;
    }

    /** `jumpTo(move)`, called with the index of one of the history's snapshots. */
    method JumpTo(move: int)
      requires Valid() && 0 <= move < |history|
      modifies this
      ensures Valid() && Value() == Game.JumpTo(old(Value()), move)
    {
      currentMove := move;
      xIsNext := move % 2 == 0;
    }

    /** The "Reset All" button. */
    method ResetAll()
      requires Valid()
      modifies this
      ensures Valid() && Value() == Game.ResetAll(old(Value())) && Value() == Initial()
    {
      ghost var before := Value();
      scores := NoScores;
      ResetBoard(Some(true));
      assert Value() == Game.ResetBoard(before.(scores := NoScores), Some(true)) == Game.ResetAll(before);
    }
  }
}
