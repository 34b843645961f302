/** The end-of-game test of src/utils/game.ts (checkGameOver): the game is
    over when the side that must move next has no piece with an empty
    orthogonal neighbour. The store's own end test is the same loop. */
module Terminal {
  import opened Grid

  /** `findIndex` over the four neighbours of cell `i` finds an open one. */
  predicate CanMove(b: Board, i: Cell) {
    FirstOpen(b, Neighbours(Row(i), Col(i))) > -1
  }

  /** The scan of checkGameOver from cell `i`: it stops with "not over" at
      the first piece of the side opposite `stepIsWhite` that can move. */
  function ScanEnd(b: Board, stepIsWhite: bool, i: nat): (end: bool)
    requires i <= 16
    ensures end <==> forall j: Cell :: i <= j ==> !(Owns(!stepIsWhite, b[j]) && CanMove(b, j))
    decreases 16 - i
  {
    if i == 16 then true
    else if Owns(!stepIsWhite, b[i]) && CanMove(b, i) then false
    else ScanEnd(b, stepIsWhite, i + 1)
  }

  /** checkGameOver(board, stepIsWhite), asked after `stepIsWhite`'s side has moved. */
  function CheckGameOver(b: Board, stepIsWhite: bool): (over: bool)
    ensures over <==> forall j: Cell :: !(Owns(!stepIsWhite, b[j]) && CanMove(b, j))
  {
    ScanEnd(b, stepIsWhite, 0)
  }

  lemma CanMoveIff(b: Board, i: Cell)
    ensures CanMove(b, i) <==> exists d: Dir :: Open(b, Target(Step(i, d)))
  {
    var ns := Neighbours(Row(i), Col(i));
    assert forall d: Dir :: Target(Step(i, d)) == ns[d];
  }

  /** The game is over exactly when the side opposite `stepIsWhite` has no
      legal one-step move. */
  lemma GameOverIffStuck(b: Board, stepIsWhite: bool)
    ensures CheckGameOver(b, stepIsWhite) <==> !HasLegalMove(b, !stepIsWhite)
  {
    if HasLegalMove(b, !stepIsWhite) {
      var i: Cell, d: Dir :| Legal(b, !stepIsWhite, Step(i, d));
      CanMoveIff(b, i);
    }
    if !CheckGameOver(b, stepIsWhite) {
      var i: Cell :| Owns(!stepIsWhite, b[i]) && CanMove(b, i);
      CanMoveIff(b, i);
      var d: Dir :| Open(b, Target(Step(i, d)));
      assert Legal(b, !stepIsWhite, Step(i, d));
    }
  }

  /** A side with no pieces cannot move, so the game is over. */
  lemma GameOverWithoutPieces(b: Board, stepIsWhite: bool)
    requires CountSide(b, !stepIsWhite) == 0
    ensures CheckGameOver(b, stepIsWhite)
  {
  }
}
