/** The game store of src/stores/gameStore.ts: the state record of a game
    and its actions. A drop of a piece on a cell is applied when the cell is
    empty and one orthogonal step from the piece; the store then captures
    with its own string-shaped copy of the 二打一 rule, tests for the end of
    the game, keeps the lone-piece counter and passes the turn. */
module Store {
  import opened Grid
  import Rules
  import Terminal
  import Search

  /** Why the game ended (the source keeps a display string). */
  datatype EndReason =
    | NotEnded
      /** The side `winnerIsWhite` moved and the other side cannot move. */
    | Immobilised(winnerIsWhite: bool)
      /** The side `loneIsWhite` held out with one piece for ten of its turns: a draw. */
    | LoneSurvivor(loneIsWhite: bool)

  /** The store's state. `onlyOnePieceStep` is the lone-piece counter: 0 when
      inactive, its sign the side left with one piece (positive white), its
      magnitude one more than the turns that side has since survived. */
  datatype Game = Game(
    steps: nat,
    board: Board,
    selfIsWhite: bool,
    stepIsWhite: bool,
    onlyOnePieceStep: int,
    gameIsEnd: bool,
    gameEndBecause: EndReason)

  /** A fresh store: black to move, the player on black, no counter. */
  const Initial: Game := Game(0, DefaultBoard, false, false, 0, false, NotEnded)

  /** The number of turns a lone piece must survive, plus one. */
  const LoneLimit: int := 11

  // ---------------------------------------------------------------------
  // The pieces getter

  datatype Piece = Piece(rowIndex: Idx, colIndex: Idx, isWhite: bool, num: int)

  /** The board cell of a piece. */
  function CellOf(p: Piece): Cell {
    p.rowIndex * 4 + p.colIndex
  }

  /** The piece standing on an occupied cell `i`. */
  function PieceOn(b: Board, i: Cell): (p: Piece)
    ensures CellOf(p) == i && p.num == b[i]
  {
    Piece(Row(i), Col(i), b[i] > 0, b[i])
  }

  /** Every entry is the piece standing on its own cell. */
  predicate ReadsFrom(b: Board, ps: seq<Piece>) {
    forall k :: 0 <= k < |ps| ==> b[CellOf(ps[k])] != 0 && ps[k] == PieceOn(b, CellOf(ps[k]))
  }

  /** The occupied cells from `i` on, as pieces, in board order. */
  function PiecesFrom(b: Board, i: nat): (ps: seq<Piece>)
    requires i <= 16
    ensures ReadsFrom(b, ps)
    ensures forall k :: 0 <= k < |ps| ==> i <= CellOf(ps[k])
    ensures forall j: Cell :: i <= j && b[j] != 0 ==> PieceOn(b, j) in ps
    ensures forall k, l :: 0 <= k < l < |ps| ==> CellOf(ps[k]) < CellOf(ps[l])
    decreases 16 - i
  {
    if i == 16 then []
    else if b[i] == 0 then PiecesFrom(b, i + 1)
    else [PieceOn(b, i)] + PiecesFrom(b, i + 1)
  }

  /** The `pieces` getter: one entry per occupied cell, in board order,
      carrying the cell's coordinates, its number and its colour. */
  function Pieces(b: Board): (ps: seq<Piece>)
    ensures ReadsFrom(b, ps)
    ensures forall j: Cell :: b[j] != 0 ==> PieceOn(b, j) in ps
    ensures forall k, l :: 0 <= k < l < |ps| ==> CellOf(ps[k]) < CellOf(ps[l])
  {
    PiecesFrom(b, 0)
  }

  const Empty: Board := [0, 0, 0, 0, 0, 0, 0, 0, 0, 0, 0, 0, 0, 0, 0, 0]

  /** A board drawn from a list of pieces: each written on its cell, in order. */
  function BoardOf(ps: seq<Piece>): Board
    decreases |ps|
  {
    if |ps| == 0 then Empty
    else BoardOf(ps[..|ps| - 1])[CellOf(ps[|ps| - 1]) := ps[|ps| - 1].num]
  }

  /** A cell of a drawn board holds the board's number when some entry
      reads from that cell, and is empty otherwise. */
  lemma {:induction false} BoardOfAt(b: Board, ps: seq<Piece>, i: Cell)
    requires ReadsFrom(b, ps)
    ensures BoardOf(ps)[i] == if exists k :: 0 <= k < |ps| && CellOf(ps[k]) == i then b[i] else 0
    decreases |ps|
  {
    if |ps| > 0 {
      var front := ps[..|ps| - 1];
      assert forall k :: 0 <= k < |front| ==> front[k] == ps[k];
      BoardOfAt(b, front, i);
      if CellOf(ps[|ps| - 1]) != i && exists k :: 0 <= k < |ps| && CellOf(ps[k]) == i {
        var k :| 0 <= k < |ps| && CellOf(ps[k]) == i;
        assert CellOf(front[k]) == i;
      }
    }
  }

  /** Drawing the pieces the getter lists gives back the board. */
  lemma PiecesRoundTrip(b: Board)
    ensures BoardOf(Pieces(b)) == b
  {
    var ps := Pieces(b);
    forall i: Cell ensures BoardOf(ps)[i] == b[i] {
      BoardOfAt(b, ps, i);
      if b[i] != 0 {
        assert PieceOn(b, i) in ps;
        var k :| 0 <= k < |ps| && ps[k] == PieceOn(b, i);
        assert CellOf(ps[k]) == i;
      }
    }
  }

  // ---------------------------------------------------------------------
  // Locating the dragged piece

  /** `findIndex` of a piece number: its first cell, or -1. */
  function IndexOf(b: Board, num: int): (k: int)
    ensures -1 <= k < 16
    ensures k == -1 <==> num !in b
    ensures k >= 0 ==> b[k] == num && forall j :: 0 <= j < k ==> b[j] != num
  {
    IndexFrom(b, num, 0)
  }

  function IndexFrom(b: Board, num: int, i: nat): (k: int)
    requires i <= 16
    ensures k == -1 || i <= k < 16
    ensures k == -1 <==> forall j :: i <= j < 16 ==> b[j] != num
    ensures k >= 0 ==> b[k] == num && forall j :: i <= j < k ==> b[j] != num
    decreases 16 - i
  {
    if i == 16 then -1
    else if b[i] == num then i
    else IndexFrom(b, num, i + 1)
  }

  /** The board as the player sees it is turned half a turn when the player
      holds white: a displayed row or column `x` is board row or column 3 - x. */
  function Mirror(selfIsWhite: bool, x: Idx): Idx {
    if selfIsWhite then 3 - x else x
  }


  // ---------------------------------------------------------------------
  // The store's capture test

  /** A cell as a letter: O empty, X a piece of the side to move, Y a piece
      of the other side. */
  function Mark(v: int, stepIsWhite: bool): (m: char)
    ensures m == 'O' <==> v == 0
    ensures m == 'X' <==> Owns(stepIsWhite, v)
    ensures m == 'Y' <==> Owns(!stepIsWhite, v)
  {
    if v == 0 then 'O'
    else if v > 0 then (if stepIsWhite then 'X' else 'Y')
    else (if stepIsWhite then 'Y' else 'X')
  }

  /** The letters of the four cells of a line. */
  function LineString(b: Board, line: seq<int>, stepIsWhite: bool): (str: seq<char>)
    requires Rules.IsLine(line)
    ensures |str| == 4 && forall k :: 0 <= k < 4 ==> str[k] == Mark(b[line[k]], stepIsWhite)
  {
    seq(4, k requires 0 <= k < 4 => Mark(b[line[k]], stepIsWhite))
  }

  /** The line shapes that capture: two X pieces press one Y piece against
      an empty cell. */
  const KillShapes: seq<seq<char>> := ["YXXO", "OYXX", "XXYO", "OXXY"]

  /** The cells of `line` whose letter is `m`, in line order. */
  function CellsMarked(line: seq<int>, str: seq<char>, m: char): (r: seq<int>)
    requires |line| == |str|
    ensures |r| <= |line|
    ensures forall x :: x in r ==> exists k :: 0 <= k < |line| && line[k] == x && str[k] == m
    decreases |line|
  {
    if |line| == 0 then []
    else (if str[0] == m then [line[0]] else []) + CellsMarked(line[1..], str[1..], m)
  }

  /** The store's checkLine: the Y cells of a capturing shape, else nothing. */
  function StoreCheckLine(b: Board, line: seq<int>, stepIsWhite: bool): (killed: seq<int>)
    requires Rules.IsLine(line)
    ensures |killed| <= 1 && AllCells(killed)
    ensures forall x :: x in killed ==> x in line && Owns(!stepIsWhite, b[x])
  {
    var str := LineString(b, line, stepIsWhite);
    if str in KillShapes then
      OneY(line, str);
      CellsMarked(line, str, 'Y')
    else []
  }

  /** Every capturing shape has its single Y at a known position. */
  lemma OneY(line: seq<int>, str: seq<char>)
    requires |line| == 4 && str in KillShapes
    ensures CellsMarked(line, str, 'Y') ==
      [line[if str == "YXXO" then 0 else if str == "OYXX" then 1 else if str == "XXYO" then 2 else 3]]
  {
    CellsMarkedFour(line, str, 'Y');
  }

  /** The filter over four cells, written out. */
  lemma CellsMarkedFour(line: seq<int>, str: seq<char>, m: char)
    requires |line| == 4 && |str| == 4
    ensures CellsMarked(line, str, m) ==
      (if str[0] == m then [line[0]] else []) + (if str[1] == m then [line[1]] else [])
      + (if str[2] == m then [line[2]] else []) + (if str[3] == m then [line[3]] else [])
  {
    var l3, s3 := line[3..], str[3..];
    assert CellsMarked(l3[1..], s3[1..], m) == [];
    assert CellsMarked(line[2..], str[2..], m) == (if str[2] == m then [line[2]] else []) + CellsMarked(l3, s3, m);
    assert CellsMarked(line[1..], str[1..], m) == (if str[1] == m then [line[1]] else []) + CellsMarked(line[2..], str[2..], m);
  }

  /** Captures of the store's checkBoard at (r, c): row first, then column. */
  function Captures(b: Board, r: Idx, c: Idx, stepIsWhite: bool): (killed: seq<int>)
    ensures AllCells(killed) && |killed| <= 2
    ensures forall x :: x in killed ==> Owns(!stepIsWhite, b[x]) && (x in Rules.RowLine(r) || x in Rules.ColLine(c))
  {
    var row, col := Rules.RowLine(r), Rules.ColLine(c);
    var h := StoreCheckLine(b, row, stepIsWhite);
    var v := StoreCheckLine(b, col, stepIsWhite);
    h + v
  }

  // ---------------------------------------------------------------------
  // Actions

  /** The store's checkBoard: remove the captures at (r, c), then end the
      game when the side opposite `stepIsWhite` has no piece able to move. */
  function CheckBoard(s: Game, r: Idx, c: Idx): (t: Game)
    ensures t.board == RemoveCells(s.board, Captures(s.board, r, c, s.stepIsWhite))
    ensures t.gameIsEnd == (s.gameIsEnd || !HasLegalMove(t.board, !s.stepIsWhite))
    ensures !HasLegalMove(t.board, !s.stepIsWhite) ==> t.gameEndBecause == Immobilised(s.stepIsWhite)
    ensures HasLegalMove(t.board, !s.stepIsWhite) ==> t.gameEndBecause == s.gameEndBecause
    ensures t.steps == s.steps && t.selfIsWhite == s.selfIsWhite && t.stepIsWhite == s.stepIsWhite
    ensures t.onlyOnePieceStep == s.onlyOnePieceStep
  {
    var b := RemoveCells(s.board, Captures(s.board, r, c, s.stepIsWhite));
    Terminal.GameOverIffStuck(b, s.stepIsWhite);
    if Terminal.CheckGameOver(b, s.stepIsWhite) then
      s.(board := b, gameIsEnd := true, gameEndBecause := Immobilised(s.stepIsWhite))
    else
      s.(board := b)
  }

  /** The counter step after a move: a running counter whose side just moved
      grows by one in magnitude, and the game ends in a draw at eleven. */
  function SurviveTurn(s: Game): (t: Game)
    ensures Abs(t.onlyOnePieceStep) == Abs(s.onlyOnePieceStep)
         || Abs(t.onlyOnePieceStep) == Abs(s.onlyOnePieceStep) + 1
    ensures t.onlyOnePieceStep != s.onlyOnePieceStep <==>
      !s.gameIsEnd && s.onlyOnePieceStep != 0 && s.stepIsWhite == (s.onlyOnePieceStep > 0)
    ensures s.onlyOnePieceStep != 0 ==> (t.onlyOnePieceStep > 0 <==> s.onlyOnePieceStep > 0)
    ensures s.onlyOnePieceStep == 0 ==> t == s
    ensures t.gameIsEnd <==> s.gameIsEnd || s.onlyOnePieceStep == LastLoneTurn(s.stepIsWhite)
    ensures !s.gameIsEnd && s.onlyOnePieceStep == LastLoneTurn(s.stepIsWhite) ==> t.gameEndBecause == LoneSurvivor(s.stepIsWhite)
    ensures s.gameIsEnd || s.onlyOnePieceStep != LastLoneTurn(s.stepIsWhite) ==> t.gameEndBecause == s.gameEndBecause
    ensures t.board == s.board && t.steps == s.steps && t.stepIsWhite == s.stepIsWhite && t.selfIsWhite == s.selfIsWhite
  {
    if !s.gameIsEnd && s.onlyOnePieceStep != 0 && s.stepIsWhite == (s.onlyOnePieceStep > 0) then
      var n := s.onlyOnePieceStep + (if s.onlyOnePieceStep > 0 then 1 else -1);
      if Abs(n) == LoneLimit then
        s.(onlyOnePieceStep := n, gameIsEnd := true, gameEndBecause := LoneSurvivor(n > 0))
      else
        s.(onlyOnePieceStep := n)
    else s
  }

  /** checkOnlyOnePiece: an inactive counter starts at +1 (white) or -1
      (black) when the side opposite `stepIsWhite` is down to one piece. */
  function CheckOnlyOnePiece(s: Game): (t: Game)
    ensures s.onlyOnePieceStep != 0 ==> t == s
    ensures s.onlyOnePieceStep == 0 && CountSide(s.board, !s.stepIsWhite) == 1 ==>
      t == s.(onlyOnePieceStep := if s.stepIsWhite then -1 else 1)
    ensures s.onlyOnePieceStep == 0 && CountSide(s.board, !s.stepIsWhite) != 1 ==> t == s
  {
    if s.onlyOnePieceStep != 0 then s
    else if CountSide(s.board, !s.stepIsWhite) == 1 then
      s.(onlyOnePieceStep := if s.stepIsWhite then -1 else 1)
    else s
  }

  /** The guard of handlePieceMove, from the piece's first cell `src` (-1
      when absent) to board cell (row, col): one orthogonal step onto an
      empty cell. Row and column of -1 follow JavaScript: floor and a
      remainder that keeps the dividend's sign. */
  predicate CanDrop(b: Board, src: int, row: Idx, col: Idx)
    requires -1 <= src < 16
  {
    Abs(row - src / 4) + Abs(col - JsRem(src, 4)) == 1 && b[row * 4 + col] == 0
  }

  /** A piece that is not on the board sits at (-1, -1), two steps from every cell. */
  lemma AbsentCannotDrop(b: Board, row: Idx, col: Idx)
    ensures !CanDrop(b, -1, row, col)
  {
    assert -1 / 4 == -1 && JsRem(-1, 4) == -1;
  }

  /** The guard of handlePieceMove for piece `num` dropped on displayed cell (calcRow, calcCol). */
  predicate Drops(s: Game, num: int, calcRow: Idx, calcCol: Idx) {
    CanDrop(s.board, IndexOf(s.board, num), Mirror(s.selfIsWhite, calcRow), Mirror(s.selfIsWhite, calcCol))
  }

  /** The board right after the drop, before captures: the piece's first
      cell cleared and `num` written on the target. */
  function Placed(s: Game, num: int, calcRow: Idx, calcCol: Idx): (m: Board)
    requires Drops(s, num, calcRow, calcCol)
    ensures num in s.board
    ensures m[Mirror(s.selfIsWhite, calcRow) * 4 + Mirror(s.selfIsWhite, calcCol)] == num
    ensures m[IndexOf(s.board, num)] == 0
    ensures forall i :: 0 <= i < 16 && i != IndexOf(s.board, num) && i != Mirror(s.selfIsWhite, calcRow) * 4 + Mirror(s.selfIsWhite, calcCol) ==> m[i] == s.board[i]
  {
    var src := IndexOf(s.board, num);
    AbsentCannotDrop(s.board, Mirror(s.selfIsWhite, calcRow), Mirror(s.selfIsWhite, calcCol));
    s.board[src := 0][Mirror(s.selfIsWhite, calcRow) * 4 + Mirror(s.selfIsWhite, calcCol) := num]
  }

  /** Mirroring undoes itself, so the displayed cell that shows board cell
      (r, c) is where a drop lands the piece on (r, c): for a white player,
      displayed (3 - r, 3 - c). */
  lemma DropOnShownCell(s: Game, num: int, r: Idx, c: Idx)
    requires Drops(s, num, Mirror(s.selfIsWhite, r), Mirror(s.selfIsWhite, c))
    ensures Placed(s, num, Mirror(s.selfIsWhite, r), Mirror(s.selfIsWhite, c))[r * 4 + c] == num
    ensures s.selfIsWhite ==> Placed(s, num, 3 - r, 3 - c)[r * 4 + c] == num
  {
  }

  /** The rest of handlePieceMove once the guard holds: count the step,
      capture, advance the lone-piece counter, then pass the turn. */
  function AfterDrop(s: Game, num: int, calcRow: Idx, calcCol: Idx): (t: Game)
    requires Drops(s, num, calcRow, calcCol)
    ensures t.steps == s.steps + 1 && t.selfIsWhite == s.selfIsWhite
    ensures t.stepIsWhite == s.stepIsWhite <==> t.gameIsEnd
  {
    var placed := s.(board := Placed(s, num, calcRow, calcCol), steps := s.steps + 1);
    PassTurn(SurviveTurn(CheckBoard(placed, Mirror(s.selfIsWhite, calcRow), Mirror(s.selfIsWhite, calcCol))))
  }

  /** The last step of a move: an ended game is left as it is; otherwise
      the counter may start for the side about to move, and the turn passes. */
  function PassTurn(s: Game): (t: Game)
    ensures t.board == s.board && t.steps == s.steps && t.selfIsWhite == s.selfIsWhite
    ensures t.gameIsEnd == s.gameIsEnd && t.gameEndBecause == s.gameEndBecause
    ensures t.stepIsWhite == s.stepIsWhite <==> t.gameIsEnd
    ensures s.onlyOnePieceStep != 0 || s.gameIsEnd ==> t.onlyOnePieceStep == s.onlyOnePieceStep
    ensures s.onlyOnePieceStep == 0 && !s.gameIsEnd ==>
      (t.onlyOnePieceStep != 0 <==> CountSide(s.board, !s.stepIsWhite) == 1)
    ensures s.onlyOnePieceStep == 0 && t.onlyOnePieceStep != 0 ==>
      Abs(t.onlyOnePieceStep) == 1 && (t.onlyOnePieceStep > 0 <==> t.stepIsWhite)
    ensures CounterOk(s) ==> CounterOk(t)
  {
    if s.gameIsEnd then s
    else CheckOnlyOnePiece(s).(stepIsWhite := !s.stepIsWhite)
  }

  /** handlePieceMove with the drop position already turned into a displayed cell
      (calcRow, calcCol). The action checks neither whose turn it is, nor
      the piece's colour, nor whether the game has ended. */
  function HandlePieceMove(s: Game, num: int, calcRow: Idx, calcCol: Idx): (t: Game)
    ensures t.selfIsWhite == s.selfIsWhite
    ensures t.steps == s.steps + 1 <==> Drops(s, num, calcRow, calcCol)
    ensures !Drops(s, num, calcRow, calcCol) ==> t == s
    ensures Drops(s, num, calcRow, calcCol) ==> (t.stepIsWhite == s.stepIsWhite <==> t.gameIsEnd)
  {
    if Drops(s, num, calcRow, calcCol) then AfterDrop(s, num, calcRow, calcCol) else s
  }

  /** handleRestart: the starting board, black to move, no counter, not
      ended; the player's colour and the last end reason are kept. */
  function HandleRestart(s: Game): (t: Game)
    ensures t == Initial.(selfIsWhite := s.selfIsWhite, gameEndBecause := s.gameEndBecause)
  {
    s.(gameIsEnd := false, onlyOnePieceStep := 0, stepIsWhite := false, steps := 0, board := DefaultBoard)
  }

  /** changeSelfColor: the player may switch sides only before the first move. */
  function ChangeSelfColor(s: Game): (t: Game)
    ensures t.selfIsWhite != s.selfIsWhite <==> s.steps == 0
    ensures t.(selfIsWhite := s.selfIsWhite) == s
  {
    if s.steps == 0 then s.(selfIsWhite := !s.selfIsWhite) else s
  }

  // ---------------------------------------------------------------------
  // Frame sync

  /** A partial snapshot received from the other player: every field is optional. */
  datatype FrameData = FrameData(
    steps: Option<nat>,
    board: Option<Board>,
    selfIsWhite: Option<bool>,
    stepIsWhite: Option<bool>,
    onlyOnePieceStep: Option<int>,
    gameIsEnd: Option<bool>,
    gameEndBecause: Option<EndReason>)

  function Or<T>(o: Option<T>, d: T): T {
    if o.Some? then o.value else d
  }

  /** syncByFrameData: overwrite exactly the fields present in the frame. */
  function SyncByFrameData(s: Game, f: FrameData): (t: Game)
    ensures f.steps.Some? ==> t.steps == f.steps.value
    ensures f.steps.None? ==> t.steps == s.steps
    ensures f.board.Some? ==> t.board == f.board.value
    ensures f.board.None? ==> t.board == s.board
    ensures f.selfIsWhite.Some? ==> t.selfIsWhite == f.selfIsWhite.value
    ensures f.selfIsWhite.None? ==> t.selfIsWhite == s.selfIsWhite
    ensures f.stepIsWhite.Some? ==> t.stepIsWhite == f.stepIsWhite.value
    ensures f.stepIsWhite.None? ==> t.stepIsWhite == s.stepIsWhite
    ensures f.onlyOnePieceStep.Some? ==> t.onlyOnePieceStep == f.onlyOnePieceStep.value
    ensures f.onlyOnePieceStep.None? ==> t.onlyOnePieceStep == s.onlyOnePieceStep
    ensures f.gameIsEnd.Some? ==> t.gameIsEnd == f.gameIsEnd.value
    ensures f.gameIsEnd.None? ==> t.gameIsEnd == s.gameIsEnd
    ensures f.gameEndBecause.Some? ==> t.gameEndBecause == f.gameEndBecause.value
    ensures f.gameEndBecause.None? ==> t.gameEndBecause == s.gameEndBecause
  {
    Game(Or(f.steps, s.steps), Or(f.board, s.board), Or(f.selfIsWhite, s.selfIsWhite),
         Or(f.stepIsWhite, s.stepIsWhite), Or(f.onlyOnePieceStep, s.onlyOnePieceStep),
         Or(f.gameIsEnd, s.gameIsEnd), Or(f.gameEndBecause, s.gameEndBecause))
  }

  /** The full snapshot of a state, every field present: syncing it onto
      any state reproduces `s`. */
  function Snapshot(s: Game): (f: FrameData)
    ensures forall u :: SyncByFrameData(u, f) == s
  {
    FrameData(Some(s.steps), Some(s.board), Some(s.selfIsWhite), Some(s.stepIsWhite),
              Some(s.onlyOnePieceStep), Some(s.gameIsEnd), Some(s.gameEndBecause))
  }

  const EmptyFrame: FrameData := FrameData(None, None, None, None, None, None, None)

  // ---------------------------------------------------------------------
  // The store's capture test is the engine's 二打一 rule

  /** Line positions mapped to the board cells of the line. */
  function OnLine(line: seq<int>, offs: seq<int>): (cells: seq<int>)
    requires Rules.IsLine(line)
    requires forall k :: 0 <= k < |offs| ==> 0 <= offs[k] < 4
    ensures |cells| == |offs| && forall k :: 0 <= k < |offs| ==> cells[k] == line[offs[k]]
  {
    seq(|offs|, k requires 0 <= k < |offs| => line[offs[k]])
  }

  /** A letter names the same class as the engine's digit: O 0, X 1, Y 2. */
  lemma MarkIsClass(v: int, w: bool)
    ensures Mark(v, w) == "OXY"[Rules.Class(v, w)]
  {
  }

  /** Each capturing shape is exactly one 二打一 code. */
  lemma ShapeCodes(b: Board, line: seq<int>, w: bool)
    requires Rules.IsLine(line)
    ensures var str := LineString(b, line, w);
      var code := Rules.LineCode(b, line, w);
      && (str == "YXXO" <==> code == 2110)
      && (str == "OYXX" <==> code == 211)
      && (str == "XXYO" <==> code == 1120)
      && (str == "OXXY" <==> code == 112)
  {
    var str := LineString(b, line, w);
    var code := Rules.LineCode(b, line, w);
    Rules.LineCodeDigits(b, line, w);
    Rules.Pow10Values();
    forall k | 0 <= k < 4 ensures str[k] == "OXY"[Rules.Class(b[line[k]], w)] {
      MarkIsClass(b[line[k]], w);
    }
    var c0, c1, c2, c3 := Rules.Class(b[line[0]], w), Rules.Class(b[line[1]], w), Rules.Class(b[line[2]], w), Rules.Class(b[line[3]], w);
    assert str == ["OXY"[c0], "OXY"[c1], "OXY"[c2], "OXY"[c3]];
    Rules.ReadBack(c0, c1, c2, c3);
  }

  /** The offset a 二打一 code captures, or -1 for any other code. */
  function PressedAt(code: int): int {
    if code == 2110 then 0 else if code == 211 then 1 else if code == 1120 then 2 else if code == 112 then 3 else -1
  }

  /** The store's checkLine read through the line code: the one Y cell of
      a 二打一 shape. */
  lemma StoreLineByCode(b: Board, line: seq<int>, w: bool)
    requires Rules.IsLine(line)
    ensures var o := PressedAt(Rules.LineCode(b, line, w));
      StoreCheckLine(b, line, w) == if o == -1 then [] else [line[o]]
  {
    var str := LineString(b, line, w);
    ShapeCodes(b, line, w);
    if str in KillShapes {
      OneY(line, str);
    }
  }

  /** With only 二打一 enabled, a code matches exactly the four 二打一 entries. */
  lemma MatchedByCode(rs: Rules.RuleSet, code: int)
    requires Rules.OnlyTwoPressOne(rs)
    ensures var o := PressedAt(code);
      Rules.MatchedOffsets(rs, code) == if o == -1 then [] else [o]
  {
    assert Rules.Enabled(rs, Rules.TwoPressOne);
    match Rules.Owner(code)
    case None =>
    case Some((n, i)) =>
      if n != Rules.TwoPressOne {
        assert !Rules.Enabled(rs, n);
      }
  }

  /** The store's checkLine captures the same cells as the engine's
      checkLine with only 二打一 enabled, for either side to move. */
  lemma StoreLineAgrees(b: Board, line: seq<int>, w: bool, rs: Rules.RuleSet)
    requires Rules.IsLine(line) && Rules.OnlyTwoPressOne(rs)
    ensures var offs := Rules.CheckLine(b, line, w, rs);
      StoreCheckLine(b, line, w) == OnLine(line, offs)
  {
    var code := Rules.LineCode(b, line, w);
    Rules.CheckLineMatch(b, line, w, rs);
    MatchedByCode(rs, code);
    StoreLineByCode(b, line, w);
  }

  lemma LineCells(r: Idx, c: Idx, o: Idx)
    ensures Rules.RowLine(r)[o] == At(r, o) && Rules.ColLine(c)[o] == At(o, c)
  {
  }

  /** The store's checkBoard captures what the engine's checkBoard does with
      only 二打一 enabled, whenever the destination holds a piece of the
      side to move, as it does after a move of that side. */
  lemma StoreCaptureAgrees(b: Board, r: Idx, c: Idx, w: bool, rs: Rules.RuleSet)
    requires Rules.OnlyTwoPressOne(rs)
    requires Owns(w, b[At(r, c)])
    ensures Captures(b, r, c, w) == Rules.CheckBoard(b, r, c, rs)
  {
    var row, col := Rules.RowLine(r), Rules.ColLine(c);
    assert (b[At(r, c)] > 0) == w;
    StoreLineAgrees(b, row, w, rs);
    StoreLineAgrees(b, col, w, rs);
    var h, v := Rules.CheckLine(b, row, w, rs), Rules.CheckLine(b, col, w, rs);
    forall k | 0 <= k < |h| ensures OnLine(row, h)[k] == Rules.OnRow(r, h)[k] {
      LineCells(r, c, h[k]);
    }
    forall k | 0 <= k < |v| ensures OnLine(col, v)[k] == Rules.OnCol(c, v)[k] {
      LineCells(r, c, v[k]);
    }
    assert OnLine(row, h) == Rules.OnRow(r, h);
    assert OnLine(col, v) == Rules.OnCol(c, v);
  }

  // ---------------------------------------------------------------------
  // The move guard

  /** A number that is on no cell never moves anything. */
  lemma AbsentNeverMoves(s: Game, num: int, calcRow: Idx, calcCol: Idx)
    requires num !in s.board
    ensures HandlePieceMove(s, num, calcRow, calcCol) == s
  {
    AbsentCannotDrop(s.board, Mirror(s.selfIsWhite, calcRow), Mirror(s.selfIsWhite, calcCol));
  }

  /** For a piece of side `w` on `src`, the guard holds exactly when
      (row, col) is the target of a legal one-step move of that piece. */
  lemma DropIffStep(b: Board, w: bool, src: Cell, row: Idx, col: Idx)
    requires Owns(w, b[src])
    ensures CanDrop(b, src, row, col) <==>
      exists d: Dir :: Legal(b, w, Step(src, d)) && Target(Step(src, d)) == (row, col)
  {
    var r, c := src / 4, src % 4;
    assert JsRem(src, 4) == c;
    if CanDrop(b, src, row, col) {
      var d: Dir :=
        if row == r - 1 then 0 else if row == r + 1 then 1 else if col == c - 1 then 2 else 3;
      assert Target(Step(src, d)) == (row, col);
      assert Legal(b, w, Step(src, d));
    }
  }

  /** Piece numbers are unique on the board (empty cells aside). */
  predicate DistinctPieces(b: Board) {
    forall i, j :: 0 <= i < 16 && 0 <= j < 16 && b[i] != 0 && b[i] == b[j] ==> i == j
  }

  /** Dragging a piece of the side to move onto the target of one of its
      legal steps produces the board the move search plays for that step
      with only 二打一 enabled. */
  lemma MoveIsPlay(s: Game, st: Step, calcRow: Idx, calcCol: Idx, rs: Rules.RuleSet)
    requires Rules.OnlyTwoPressOne(rs) && DistinctPieces(s.board)
    requires Legal(s.board, s.stepIsWhite, st)
    requires Target(st) == (Mirror(s.selfIsWhite, calcRow), Mirror(s.selfIsWhite, calcCol))
    ensures Drops(s, s.board[st.from], calcRow, calcCol)
    ensures HandlePieceMove(s, s.board[st.from], calcRow, calcCol).board
         == Search.Play(Search.Configurable(rs), s.board, s.stepIsWhite, st).0
  {
    var b, w, num := s.board, s.stepIsWhite, s.board[st.from];
    var row, col := Mirror(s.selfIsWhite, calcRow), Mirror(s.selfIsWhite, calcCol);
    assert IndexOf(b, num) == st.from;
    DropIffStep(b, w, st.from, row, col);
    var t := Dest(b, w, st);
    assert t == row as int * 4 + col;
    var mid := Moved(b, w, st);
    assert Placed(s, num, calcRow, calcCol) == mid;
    assert t / 4 == row && t % 4 == col;
    StoreCaptureAgrees(mid, row, col, w, rs);
    var killed := Search.Capture(Search.Configurable(rs), mid, row, col, w);
    assert killed == Captures(mid, row, col, w);
    assert Search.Play(Search.Configurable(rs), b, w, st).0 == RemoveCells(mid, killed);
    MoveBoard(s, num, calcRow, calcCol);
  }

  /** The same in the coordinates the player sees: dragging the piece of a
      legal step onto the displayed cell that shows the step's destination
      is accepted, lands the piece on that destination, and yields the
      board the search plays for the step. */
  lemma ShownMoveIsPlay(s: Game, st: Step, rs: Rules.RuleSet)
    requires Rules.OnlyTwoPressOne(rs) && DistinctPieces(s.board)
    requires Legal(s.board, s.stepIsWhite, st)
    ensures var t, num := Dest(s.board, s.stepIsWhite, st), s.board[st.from];
      var shownRow, shownCol := Mirror(s.selfIsWhite, Row(t)), Mirror(s.selfIsWhite, Col(t));
      && Drops(s, num, shownRow, shownCol)
      && Placed(s, num, shownRow, shownCol)[t] == num
      && HandlePieceMove(s, num, shownRow, shownCol).board
         == Search.Play(Search.Configurable(rs), s.board, s.stepIsWhite, st).0
  {
    var t, num := Dest(s.board, s.stepIsWhite, st), s.board[st.from];
    var r, c := Row(t), Col(t);
    MoveIsPlay(s, st, Mirror(s.selfIsWhite, r), Mirror(s.selfIsWhite, c), rs);
    DropOnShownCell(s, num, r, c);
  }

  /** What the capture test of a move leaves: the step counted, the turn
      not yet passed, and the game ended with `w`'s win exactly when the
      other side is stuck. */
  predicate CheckedFrom(s: Game, checked: Game) {
    var w := s.stepIsWhite;
    var stuck := !HasLegalMove(checked.board, !w);
    && checked.steps == s.steps + 1 && checked.selfIsWhite == s.selfIsWhite
    && checked.stepIsWhite == w && checked.onlyOnePieceStep == s.onlyOnePieceStep
    && (checked.gameIsEnd <==> s.gameIsEnd || stuck)
    && (stuck ==> checked.gameEndBecause == Immobilised(w))
    && (!stuck ==> checked.gameEndBecause == s.gameEndBecause)
  }

  /** A move that passes the guard is the capture test followed by the
      counter step and the hand-over of the turn. */
  lemma MoveShape(s: Game, num: int, calcRow: Idx, calcCol: Idx) returns (checked: Game)
    requires Drops(s, num, calcRow, calcCol)
    ensures CheckedFrom(s, checked)
    ensures var mid := Placed(s, num, calcRow, calcCol);
      checked.board == RemoveCells(mid, Captures(mid, Mirror(s.selfIsWhite, calcRow), Mirror(s.selfIsWhite, calcCol), s.stepIsWhite))
    ensures HandlePieceMove(s, num, calcRow, calcCol) == PassTurn(SurviveTurn(checked))
  {
    var placed := s.(board := Placed(s, num, calcRow, calcCol), steps := s.steps + 1);
    var row, col := Mirror(s.selfIsWhite, calcRow), Mirror(s.selfIsWhite, calcCol);
    checked := CheckBoard(placed, row, col);
    CheckedAfterPlace(s, placed, row, col);
    assert HandlePieceMove(s, num, calcRow, calcCol) == AfterDrop(s, num, calcRow, calcCol);
  }

  lemma CheckedAfterPlace(s: Game, placed: Game, row: Idx, col: Idx)
    requires placed == s.(board := placed.board, steps := s.steps + 1)
    ensures CheckedFrom(s, CheckBoard(placed, row, col))
  {
  }

  /** After the guard, the board is the placed board with the store's captures removed. */
  lemma MoveBoard(s: Game, num: int, calcRow: Idx, calcCol: Idx)
    requires Drops(s, num, calcRow, calcCol)
    ensures var mid := Placed(s, num, calcRow, calcCol);
      HandlePieceMove(s, num, calcRow, calcCol).board
        == RemoveCells(mid, Captures(mid, Mirror(s.selfIsWhite, calcRow), Mirror(s.selfIsWhite, calcCol), s.stepIsWhite))
  {
    var checked := MoveShape(s, num, calcRow, calcCol);
  }

  // ---------------------------------------------------------------------
  // End of game and turn

  /** The last lone-piece count before a draw for side `w`: its counter
      reaches eleven on `w`'s next move. */
  function LastLoneTurn(w: bool): int {
    if w then LoneLimit - 1 else -(LoneLimit - 1)
  }

  /** After a move by side `w`, the game has ended exactly when it had
      ended before, when the other side cannot move, or when `w` was the
      lone side on its tenth surviving turn. */
  lemma MoveEnds(s: Game, num: int, calcRow: Idx, calcCol: Idx)
    requires Drops(s, num, calcRow, calcCol)
    ensures var t := HandlePieceMove(s, num, calcRow, calcCol);
      var w := s.stepIsWhite;
      t.gameIsEnd <==> s.gameIsEnd || !HasLegalMove(t.board, !w) || s.onlyOnePieceStep == LastLoneTurn(w)
  {
    var checked := MoveShape(s, num, calcRow, calcCol);
    EndsAfterCheck(s, checked);
  }

  lemma EndsAfterCheck(s: Game, checked: Game)
    requires CheckedFrom(s, checked)
    ensures var t := PassTurn(SurviveTurn(checked));
      var w := s.stepIsWhite;
      && t.board == checked.board
      && (t.gameIsEnd <==> s.gameIsEnd || !HasLegalMove(t.board, !w) || s.onlyOnePieceStep == LastLoneTurn(w))
  {
  }

  /** The reason recorded by a move of side `w`: the other side being
      stuck is `w`'s win, reported ahead of a draw; a lone side surviving
      its tenth turn is a draw; otherwise the reason is kept. */
  lemma MoveEndReason(s: Game, num: int, calcRow: Idx, calcCol: Idx)
    requires Drops(s, num, calcRow, calcCol)
    ensures var t := HandlePieceMove(s, num, calcRow, calcCol);
      var w := s.stepIsWhite;
      var stuck := !HasLegalMove(t.board, !w);
      && (stuck ==> t.gameEndBecause == Immobilised(w))
      && (!stuck && !s.gameIsEnd && s.onlyOnePieceStep == LastLoneTurn(w) ==> t.gameEndBecause == LoneSurvivor(w))
      && (!stuck && (s.gameIsEnd || s.onlyOnePieceStep != LastLoneTurn(w)) ==> t.gameEndBecause == s.gameEndBecause)
  {
    var checked := MoveShape(s, num, calcRow, calcCol);
    ReasonAfterCheck(s, checked);
  }

  lemma ReasonAfterCheck(s: Game, checked: Game)
    requires CheckedFrom(s, checked)
    ensures var t := PassTurn(SurviveTurn(checked));
      var w := s.stepIsWhite;
      var stuck := !HasLegalMove(checked.board, !w);
      && t.board == checked.board
      && (stuck ==> t.gameEndBecause == Immobilised(w))
      && (!stuck && !s.gameIsEnd && s.onlyOnePieceStep == LastLoneTurn(w) ==> t.gameEndBecause == LoneSurvivor(w))
      && (!stuck && (s.gameIsEnd || s.onlyOnePieceStep != LastLoneTurn(w)) ==> t.gameEndBecause == s.gameEndBecause)
  {
  }

  /** How a move changes the lone-piece counter. A running counter keeps
      its sign and grows by one exactly when its own side moved and the
      game went on past the capture test. An inactive counter starts, at
      one for the side now to move, exactly when the game goes on and
      that side has a single piece left. */
  lemma MoveCounter(s: Game, num: int, calcRow: Idx, calcCol: Idx)
    requires Drops(s, num, calcRow, calcCol)
    ensures var t := HandlePieceMove(s, num, calcRow, calcCol);
      var w := s.stepIsWhite;
      var c := s.onlyOnePieceStep;
      && (c != 0 ==> (t.onlyOnePieceStep > 0 <==> c > 0))
      && (c != 0 ==> Abs(t.onlyOnePieceStep) == Abs(c) + (if !s.gameIsEnd && HasLegalMove(t.board, !w) && w == (c > 0) then 1 else 0))
      && (c == 0 ==> (t.onlyOnePieceStep != 0 <==> !t.gameIsEnd && CountSide(t.board, !w) == 1))
      && (c == 0 && t.onlyOnePieceStep != 0 ==> Abs(t.onlyOnePieceStep) == 1 && (t.onlyOnePieceStep > 0 <==> t.stepIsWhite))
  {
    var checked := MoveShape(s, num, calcRow, calcCol);
    CounterAfterCheck(s, checked);
  }

  lemma CounterAfterCheck(s: Game, checked: Game)
    requires CheckedFrom(s, checked)
    ensures var t := PassTurn(SurviveTurn(checked));
      var w := s.stepIsWhite;
      var c := s.onlyOnePieceStep;
      && t.board == checked.board
      && (c != 0 ==> (t.onlyOnePieceStep > 0 <==> c > 0))
      && (c != 0 ==> Abs(t.onlyOnePieceStep) == Abs(c) + (if !s.gameIsEnd && HasLegalMove(t.board, !w) && w == (c > 0) then 1 else 0))
      && (c == 0 ==> (t.onlyOnePieceStep != 0 <==> !t.gameIsEnd && CountSide(t.board, !w) == 1))
      && (c == 0 && t.onlyOnePieceStep != 0 ==> Abs(t.onlyOnePieceStep) == 1 && (t.onlyOnePieceStep > 0 <==> t.stepIsWhite))
  {
    var counted := SurviveTurn(checked);
    assert counted.board == checked.board && counted.stepIsWhite == s.stepIsWhite;
  }

  /** The counter never passes eleven, and at eleven the game is over. */
  predicate CounterOk(s: Game) {
    Abs(s.onlyOnePieceStep) <= LoneLimit && (Abs(s.onlyOnePieceStep) == LoneLimit ==> s.gameIsEnd)
  }

  /** A move keeps the counter within its bound: it grows only while the
      game goes on, and reaching eleven ends the game. */
  lemma MoveKeepsCounterOk(s: Game, num: int, calcRow: Idx, calcCol: Idx)
    requires CounterOk(s)
    ensures CounterOk(HandlePieceMove(s, num, calcRow, calcCol))
  {
    if Drops(s, num, calcRow, calcCol) {
      var checked := MoveShape(s, num, calcRow, calcCol);
      BoundAfterCheck(s, checked);
    }
  }

  lemma BoundAfterCheck(s: Game, checked: Game)
    requires CounterOk(s) && CheckedFrom(s, checked)
    ensures CounterOk(PassTurn(SurviveTurn(checked)))
  {
    assert CounterOk(checked);
  }

  /** Restarting and switching sides keep the counter within its bound. */
  lemma OtherActionsKeepCounterOk(s: Game)
    requires CounterOk(s)
    ensures CounterOk(HandleRestart(s)) && CounterOk(ChangeSelfColor(s))
  {
  }

  // ---------------------------------------------------------------------
  // Pieces

  /** Any accepted drop, whichever piece is dragged, keeps the piece count
      of the side to move and never adds to the other side's. */
  lemma MoveKeepsCounts(s: Game, num: int, calcRow: Idx, calcCol: Idx)
    requires Drops(s, num, calcRow, calcCol)
    ensures var t := HandlePieceMove(s, num, calcRow, calcCol);
      && CountSide(t.board, s.stepIsWhite) == CountSide(s.board, s.stepIsWhite)
      && CountSide(t.board, !s.stepIsWhite) <= CountSide(s.board, !s.stepIsWhite)
  {
    var b, w := s.board, s.stepIsWhite;
    var row, col := Mirror(s.selfIsWhite, calcRow), Mirror(s.selfIsWhite, calcCol);
    var src, dst := IndexOf(b, num), row as int * 4 + col;
    var mid := Placed(s, num, calcRow, calcCol);
    assert mid == b[src := 0][dst := num];
    var killed := Captures(mid, row, col, w);
    MoveBoard(s, num, calcRow, calcCol);
    DropKeepsCounts(b, src, dst, num, w, killed);
  }

  /** Moving the value of `src`, a piece of either side or none, to the
      empty cell `dst` and then clearing cells of the side other than `w`
      keeps `w`'s count and does not raise the other side's. */
  lemma DropKeepsCounts(b: Board, src: Cell, dst: Cell, num: int, w: bool, killed: seq<int>)
    requires b[src] == num && b[dst] == 0 && AllCells(killed)
    requires forall x :: x in killed ==> Owns(!w, b[src := 0][dst := num][x])
    ensures var t := RemoveCells(b[src := 0][dst := num], killed);
      && CountSide(t, w) == CountSide(b, w)
      && CountSide(t, !w) <= CountSide(b, !w)
  {
    var b1 := b[src := 0];
    var mid := b1[dst := num];
    CountUpdate(b, src, 0, w);
    CountUpdate(b, src, 0, !w);
    CountUpdate(b1, dst, num, w);
    CountUpdate(b1, dst, num, !w);
    var t := RemoveCells(mid, killed);
    CountMonotone(mid, t, w);
    CountMonotone(t, mid, w);
    CountMonotone(mid, t, !w);
  }

  /** Piece numbers stay unique through any move. */
  lemma MoveKeepsDistinct(s: Game, num: int, calcRow: Idx, calcCol: Idx)
    requires DistinctPieces(s.board)
    ensures DistinctPieces(HandlePieceMove(s, num, calcRow, calcCol).board)
  {
    if Drops(s, num, calcRow, calcCol) {
      var b, w := s.board, s.stepIsWhite;
      var row, col := Mirror(s.selfIsWhite, calcRow), Mirror(s.selfIsWhite, calcCol);
      var src := IndexOf(b, num);
      var np := row as int * 4 + col;
      var mid := Placed(s, num, calcRow, calcCol);
      assert DistinctPieces(mid);
      MoveBoard(s, num, calcRow, calcCol);
    }
  }

  lemma DefaultBoardDistinct()
    ensures DistinctPieces(DefaultBoard)
  {
  }

  // ---------------------------------------------------------------------
  // Restart and sync

  /** A frame applied twice has the effect of applying it once, and an
      empty frame changes nothing. */
  lemma SyncIdempotent(s: Game, f: FrameData)
    ensures SyncByFrameData(SyncByFrameData(s, f), f) == SyncByFrameData(s, f)
    ensures SyncByFrameData(s, EmptyFrame) == s
  {
  }

  /** After a restart no move has been made, so the player may switch sides. */
  lemma RestartAllowsSwitch(s: Game)
    ensures ChangeSelfColor(HandleRestart(s)).selfIsWhite != s.selfIsWhite
    ensures HandleRestart(HandleRestart(s)) == HandleRestart(s)
  {
  }
}
