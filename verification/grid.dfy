/** The 4×4 board shared by the capture rule engine, the terminal test, the
    move search and the game store. A board is 16 cells in row-major order:
    0 is an empty cell, a positive value a white piece id and a negative
    value a black piece id. */
module Grid {

  datatype Option<+T> = None | Some(value: T)

  type Board = b: seq<int> | |b| == 16 witness [0, 0, 0, 0, 0, 0, 0, 0, 0, 0, 0, 0, 0, 0, 0, 0]

  /** A row or column index. */
  type Idx = i: int | 0 <= i < 4

  /** A cell index. */
  type Cell = i: int | 0 <= i < 16

  /** A direction: 0 up, 1 down, 2 left, 3 right. */
  type Dir = d: int | 0 <= d < 4

  /** The starting layout: six white pieces on the top rows, six black ones below. */
  const DefaultBoard: Board := [1, 2, 3, 4, 5, 0, 0, 6, -5, 0, 0, -6, -1, -2, -3, -4]

  /** Whether cell value `v` is a piece of the white side (`white`) or of the black side. */
  predicate Owns(white: bool, v: int) {
    if white then v > 0 else v < 0
  }

  function Row(i: Cell): Idx { i / 4 }

  function Col(i: Cell): Idx { i % 4 }

  function At(r: Idx, c: Idx): (i: Cell)
    ensures Row(i) == r && Col(i) == c
  {
    r * 4 + c
  }

  /** The four orthogonal neighbours of (r, c), up, down, left, right;
      they may lie off the grid. */
  function Neighbours(r: int, c: int): seq<(int, int)> {
    [(r - 1, c), (r + 1, c), (r, c - 1), (r, c + 1)]
  }

  predicate InGrid(p: (int, int)) {
    0 <= p.0 < 4 && 0 <= p.1 < 4
  }

  /** An in-grid empty position. */
  predicate Open(b: Board, p: (int, int)) {
    InGrid(p) && b[p.0 * 4 + p.1] == 0
  }

  /** `findIndex` over a list of positions: -1 when none is open, else the
      index of the first open one. */
  function FirstOpen(b: Board, ps: seq<(int, int)>): (k: int)
    ensures -1 <= k < |ps|
    ensures k == -1 <==> forall j :: 0 <= j < |ps| ==> !Open(b, ps[j])
    ensures k >= 0 ==> Open(b, ps[k]) && forall j :: 0 <= j < k ==> !Open(b, ps[j])
  {
    if |ps| == 0 then -1
    else if Open(b, ps[0]) then 0
    else
      var k := FirstOpen(b, ps[1..]);
      if k == -1 then -1 else k + 1
  }

  /** One step of the piece on cell `from` in direction `dir`. */
  datatype Step = Step(from: Cell, dir: Dir)

  function Target(st: Step): (int, int) {
    Neighbours(Row(st.from), Col(st.from))[st.dir]
  }

  /** The piece on `from` belongs to side `white` and its neighbour in
      direction `dir` is an empty in-grid cell. */
  predicate Legal(b: Board, white: bool, st: Step) {
    Owns(white, b[st.from]) && Open(b, Target(st))
  }

  predicate HasLegalMove(b: Board, white: bool) {
    exists i: Cell, d: Dir :: Legal(b, white, Step(i, d))
  }

  /** The destination cell of a legal step. */
  function Dest(b: Board, white: bool, st: Step): (t: Cell)
    requires Legal(b, white, st)
    ensures t != st.from && b[t] == 0
  {
    Target(st).0 * 4 + Target(st).1
  }

  /** The board after a legal step: the source is cleared and the piece written on the destination. */
  function Moved(b: Board, white: bool, st: Step): (m: Board)
    requires Legal(b, white, st)
    ensures m[Dest(b, white, st)] == b[st.from] && m[st.from] == 0
    ensures forall i :: 0 <= i < 16 && i != st.from && i != Dest(b, white, st) ==> m[i] == b[i]
  {
    b[st.from := 0][Dest(b, white, st) := b[st.from]]
  }

  /** Scan order of steps: by cell index, then up, down, left, right. */
  predicate Before(s: Step, t: Step) {
    s.from < t.from || (s.from == t.from && s.dir < t.dir)
  }

  /** Whether step `st` comes at or after cell `i`, direction `d` in scan order. */
  predicate FromOn(st: Step, i: int, d: int) {
    st.from > i || (st.from == i && st.dir >= d)
  }

  /** The legal steps of side `white` from cell `i`, direction `d` on, in scan order. */
  function StepsFrom(b: Board, white: bool, i: nat, d: nat): (r: seq<Step>)
    requires i <= 16 && d <= 4
    ensures forall k :: 0 <= k < |r| ==> Legal(b, white, r[k]) && FromOn(r[k], i, d)
    ensures forall k, l :: 0 <= k < l < |r| ==> Before(r[k], r[l])
    ensures forall st :: FromOn(st, i, d) && Legal(b, white, st) ==> st in r
    decreases 16 - i, 4 - d
  {
    if i == 16 then []
    else if d == 4 then StepsFrom(b, white, i + 1, 0)
    else (if Legal(b, white, Step(i, d)) then [Step(i, d)] else []) + StepsFrom(b, white, i, d + 1)
  }

  /** Every legal step of side `white`, in scan order. */
  function LegalSteps(b: Board, white: bool): (r: seq<Step>)
    ensures forall k :: 0 <= k < |r| ==> Legal(b, white, r[k])
    ensures forall k, l :: 0 <= k < l < |r| ==> Before(r[k], r[l])
    ensures forall st :: Legal(b, white, st) <==> st in r
  {
    StepsFrom(b, white, 0, 0)
  }

  lemma NoStepsIffStuck(b: Board, white: bool)
    ensures |LegalSteps(b, white)| == 0 <==> !HasLegalMove(b, white)
  {
    var r := LegalSteps(b, white);
    if |r| > 0 {
      assert Legal(b, white, Step(r[0].from, r[0].dir));
    }
    if HasLegalMove(b, white) {
      var i: Cell, d: Dir :| Legal(b, white, Step(i, d));
      assert Step(i, d) in r;
    }
  }

  predicate AllCells(ks: seq<int>) {
    forall j :: 0 <= j < |ks| ==> 0 <= ks[j] < 16
  }

  /** Sets every listed cell to 0, in list order. */
  function RemoveCells(b: Board, ks: seq<int>): (r: Board)
    requires AllCells(ks)
    ensures forall i :: 0 <= i < 16 ==> r[i] == (if i in ks then 0 else b[i])
    decreases |ks|
  {
    if |ks| == 0 then b
    else RemoveCells(b[ks[0] := 0], ks[1..])
  }

  /** The number of pieces of side `white`. */
  function CountSide(b: seq<int>, white: bool): (n: nat)
    ensures n <= |b|
    ensures n == 0 <==> forall i :: 0 <= i < |b| ==> !Owns(white, b[i])
  {
    if |b| == 0 then 0
    else
      assert forall i :: 0 <= i < |b| - 1 ==> b[..|b| - 1][i] == b[i];
      CountSide(b[..|b| - 1], white) + (if Owns(white, b[|b| - 1]) then 1 else 0)
  }

  function Ind(white: bool, v: int): nat {
    if Owns(white, v) then 1 else 0
  }

  /** Overwriting one cell changes the count by what leaves and what arrives. */
  lemma {:induction false} CountUpdate(b: seq<int>, i: int, x: int, white: bool)
    requires 0 <= i < |b|
    ensures CountSide(b[i := x], white) + Ind(white, b[i]) == CountSide(b, white) + Ind(white, x)
    decreases |b|
  {
    var n := |b| - 1;
    if i == n {
      assert b[i := x][..n] == b[..n];
    } else {
      assert b[i := x][..n] == b[..n][i := x];
      CountUpdate(b[..n], i, x, white);
    }
  }

  /** A board whose pieces of a side are among those of another has no more of them. */
  lemma {:induction false} CountMonotone(b1: seq<int>, b2: seq<int>, white: bool)
    requires |b1| == |b2|
    requires forall i :: 0 <= i < |b2| && Owns(white, b2[i]) ==> Owns(white, b1[i])
    ensures CountSide(b2, white) <= CountSide(b1, white)
    decreases |b1|
  {
    if |b1| > 0 {
      var n := |b1| - 1;
      assert forall i :: 0 <= i < n ==> b1[..n][i] == b1[i] && b2[..n][i] == b2[i];
      CountMonotone(b1[..n], b2[..n], white);
    }
  }

  /** JavaScript's `%`, whose result takes the sign of the dividend. */
  function JsRem(a: int, m: int): (r: int)
    requires m > 0
    ensures a >= 0 ==> r == a % m
    ensures -m < r < m && (r < 0 ==> a < 0)
  {
    if a >= 0 then a % m else -((-a) % m)
  }

  function Abs(x: int): nat {
    if x < 0 then -x else x
  }
}
