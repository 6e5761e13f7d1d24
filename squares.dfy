/**
 * The board of the game: nine cells in row-major order (cell i is row i / 3,
 * column i % 3), each empty or holding the mark of one player, and how many
 * cells hold a given value.
 */
module Squares {

  datatype Player = X | O

  /** A cell is `null` (empty) or the string 'X' or 'O' in the source. */
  datatype Cell = Empty | Mark(player: Player)

  type Index = i: int | 0 <= i < 9

  type Board = b: seq<Cell> | |b| == 9
    witness [Empty, Empty, Empty, Empty, Empty, Empty, Empty, Empty, Empty]

  /** `Array(9).fill(null)` */
  const EmptyBoard: Board := [Empty, Empty, Empty, Empty, Empty, Empty, Empty, Empty, Empty]

  /** The other player. */
  function Opponent(p: Player): (q: Player)
    ensures q != p
  {
    match p
    case X => O
    case O => X
  }

  /** The number of cells of `s` equal to `c`. */
  function Count(s: seq<Cell>, c: Cell): (n: nat)
    ensures n <= |s|
  {
    if s == [] then 0 else Count(s[..|s| - 1], c) + (if s[|s| - 1] == c then 1 else 0)
  }

  /** The number of marks on a board. */
  function Marks(b: Board): (n: nat)
  {
    9 - Count(b, Empty)
  }

  /** Every cell holds a mark: `squares.every(Boolean)`. */
  predicate Full(b: Board)
  {
    forall i: Index :: b[i] != Empty
  }

  lemma EmptyBoardHasNoMarks()
    ensures Marks(EmptyBoard) == 0
  {
    CountAll(EmptyBoard, Empty);
  }

  /** A prefix holds at most as many cells equal to `c` as the whole sequence. */
  lemma {:induction false} CountPrefix(s: seq<Cell>, n: nat, c: Cell)
    requires n <= |s|
    ensures Count(s[..n], c) <= Count(s, c)
  {
    if n < |s| {
      var init := s[..|s| - 1];
      CountPrefix(init, n, c);
      assert init[..n] == s[..n];
    } else {
      assert s[..n] == s;
    }
  }

  /** Extending a prefix by a cell equal to `c` adds one to its count. */
  lemma CountHit(s: seq<Cell>, i: nat, c: Cell)
    requires i < |s| && s[i] == c
    ensures Count(s[..i + 1], c) == Count(s[..i], c) + 1
  {
    assert s[..i + 1][..i] == s[..i];
  }

  /** Three distinct positions holding `c` make a count of at least three. */
  lemma CountAtLeastThree(s: seq<Cell>, i: nat, j: nat, k: nat, c: Cell)
    requires i < j < k < |s|
    requires s[i] == c && s[j] == c && s[k] == c
    ensures Count(s, c) >= 3
  {
    CountHit(s, i, c);
    CountHit(s, j, c);
    CountHit(s, k, c);
    CountPrefix(s[..j], i + 1, c);
    assert s[..j][..i + 1] == s[..i + 1];
    CountPrefix(s[..k], j + 1, c);
    assert s[..k][..j + 1] == s[..j + 1];
    CountPrefix(s, k + 1, c);
  }

  /** Overwriting one cell changes each count by what left and what arrived. */
  lemma {:induction false} CountUpdate(s: seq<Cell>, i: nat, x: Cell, c: Cell)
    requires i < |s|
    ensures Count(s[i := x], c)
         == Count(s, c) - (if s[i] == c then 1 else 0) + (if x == c then 1 else 0)
  {
    var t := s[i := x];
    var n := |s|;
    if i == n - 1 {
      assert t[..n - 1] == s[..n - 1];
    } else {
      CountUpdate(s[..n - 1], i, x, c);
      assert t[..n - 1] == s[..n - 1][i := x];
    }
  }

  /** A count is zero exactly when no cell equals `c`. */
  lemma {:induction false} CountZero(s: seq<Cell>, c: Cell)
    ensures Count(s, c) == 0 <==> forall i | 0 <= i < |s| :: s[i] != c
  {
    if s != [] {
      var init := s[..|s| - 1];
      CountZero(init, c);
      assert forall i | 0 <= i < |init| :: init[i] == s[i];
    }
  }

  /** A count equals the length exactly when every cell equals `c`. */
  lemma {:induction false} CountAll(s: seq<Cell>, c: Cell)
    ensures Count(s, c) == |s| <==> forall i | 0 <= i < |s| :: s[i] == c
  {
    if s != [] {
      var init := s[..|s| - 1];
      CountAll(init, c);
      assert forall i | 0 <= i < |init| :: init[i] == s[i];
    }
  }

  /** A board is full exactly when it carries nine marks. */
  lemma FullMarks(b: Board)
    ensures Full(b) <==> Marks(b) == 9
  {
    CountZero(b, Empty);
  }

  /** Writing a mark into an empty cell adds exactly one mark. */
  lemma PlaceAddsMark(b: Board, i: Index, p: Player)
    requires b[i] == Empty
    ensures Marks(b[i := Mark(p)]) == Marks(b) + 1
  {
    CountUpdate(b, i, Mark(p), Empty);
  }
}
