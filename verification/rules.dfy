/** The capture rule engine of src/utils/game.ts: the rule table, the
    digit encoding of a line and the capture test on the row and column
    through the cell a piece has just moved to. */
module Rules {
  import opened Grid

  /** The six rules in the order the table declares them: 二打一 (two press
      one), 二打二 (two press two), 二夹一 (two pincer one), 二夹二 (two pincer
      two), 二挑二 (two flick two), 一挑二 (one flick two). */
  datatype RuleName = TwoPressOne | TwoPressTwo | TwoPincerOne | TwoPincerTwo | TwoFlickTwo | OneFlickTwo

  /** A line pattern: its code, and the positions 0..3 of the line it captures. */
  datatype Pattern = Pattern(code: int, killed: seq<int>)

  /** The rule table. A code's decimal digits, read from the thousands down,
      describe the four cells of a line: 0 empty, 1 the mover's side, 2 the
      opponent (so 211 is the line 0211). */
  function Patterns(n: RuleName): (ps: seq<Pattern>)
    ensures |ps| >= 1
    ensures forall k :: 0 <= k < |ps| ==> |ps[k].killed| >= 1 && 0 <= ps[k].code <= 2222
    ensures forall k, o :: 0 <= k < |ps| && 0 <= o < |ps[k].killed| ==> 0 <= ps[k].killed[o] < 4
  {
    match n
    case TwoPressOne => [Pattern(2110, [0]), Pattern(211, [1]), Pattern(1120, [2]), Pattern(112, [3])]
    case TwoPressTwo => [Pattern(2211, [0, 1]), Pattern(1122, [2, 3])]
    case TwoPincerOne => [Pattern(1210, [1]), Pattern(121, [2])]
    case TwoPincerTwo => [Pattern(1221, [1, 2])]
    case TwoFlickTwo => [Pattern(2112, [0, 3])]
    case OneFlickTwo => [Pattern(2120, [1]), Pattern(212, [2])]
  }

  /** The inverse of the table: the rule and entry a code belongs to. */
  function Owner(code: int): (o: Option<(RuleName, nat)>)
    ensures o.Some? ==> o.value.1 < |Patterns(o.value.0)| && Patterns(o.value.0)[o.value.1].code == code
  {
    match code
    case 2110 => Some((TwoPressOne, 0))
    case 211 => Some((TwoPressOne, 1))
    case 1120 => Some((TwoPressOne, 2))
    case 112 => Some((TwoPressOne, 3))
    case 2211 => Some((TwoPressTwo, 0))
    case 1122 => Some((TwoPressTwo, 1))
    case 1210 => Some((TwoPincerOne, 0))
    case 121 => Some((TwoPincerOne, 1))
    case 1221 => Some((TwoPincerTwo, 0))
    case 2112 => Some((TwoFlickTwo, 0))
    case 2120 => Some((OneFlickTwo, 0))
    case 212 => Some((OneFlickTwo, 1))
    case _ => None
  }

  /** A rule set: the entries of the source's rule object (name, enabled), in
      key order. */
  type RuleSet = seq<(RuleName, bool)>

  /** The default rule set: only 二打一 is on. */
  const DefaultRule: RuleSet := [(TwoPressOne, true), (TwoPressTwo, false), (TwoPincerOne, false),
                                 (TwoPincerTwo, false), (TwoFlickTwo, false), (OneFlickTwo, false)]

  /** An object has no repeated keys. */
  predicate WellFormed(rs: RuleSet) {
    forall i, j :: 0 <= i < j < |rs| ==> rs[i].0 != rs[j].0
  }

  predicate Enabled(rs: RuleSet, n: RuleName) {
    exists i :: 0 <= i < |rs| && rs[i] == (n, true)
  }

  /** Exactly 二打一 is enabled. */
  predicate OnlyTwoPressOne(rs: RuleSet) {
    WellFormed(rs) && forall n :: Enabled(rs, n) <==> n == TwoPressOne
  }

  function Pow10(n: nat): (p: nat)
    ensures p >= 1
  {
    if n == 0 then 1 else 10 * Pow10(n - 1)
  }

  /** The class of a cell relative to the mover `white`: 0 empty, 1 the
      mover's side, 2 the opponent. */
  function Class(v: int, white: bool): int {
    if v == 0 then 0 else if white == (v > 0) then 1 else 2
  }

  /** Decimal digit `k` (0 the thousands, 3 the units) of a line code. */
  function DigitAt(code: int, k: Idx): int {
    (code / Pow10(3 - k)) % 10
  }

  /** Four cell indices of the board. */
  predicate IsLine(line: seq<int>) {
    |line| == 4 && AllCells(line)
  }

  function RowLine(r: Idx): (line: seq<int>)
    ensures IsLine(line)
  {
    [r * 4, r * 4 + 1, r * 4 + 2, r * 4 + 3]
  }

  function ColLine(c: Idx): (line: seq<int>)
    ensures IsLine(line)
  {
    [c, c + 4, c + 8, c + 12]
  }

  /** The encoding loop of checkLine from position `i`, with running total `acc`. */
  function CodeFrom(b: Board, line: seq<int>, white: bool, i: nat, acc: int): int
    requires IsLine(line) && i <= 4
    decreases 4 - i
  {
    if i == 4 then acc
    else
      CodeFrom(b, line, white, i + 1, acc + Term(b, line, white, i))
  }

  /** What cell `i` of the line adds to the code: nothing when empty, else
      1 or 2 (mover or opponent) at place value 10^(3 - i). */
  function Term(b: Board, line: seq<int>, white: bool, i: nat): int
    requires IsLine(line) && i < 4
  {
    var v := b[line[i]];
    if v == 0 then 0 else if white == (v > 0) then Pow10(3 - i) else 2 * Pow10(3 - i)
  }

  /** The code of a line relative to the mover `white`, starting from `base`. */
  function LineCodeFrom(base: int, b: Board, line: seq<int>, white: bool): int
    requires IsLine(line)
  {
    CodeFrom(b, line, white, 0, base)
  }

  function LineCode(b: Board, line: seq<int>, white: bool): int
    requires IsLine(line)
  {
    LineCodeFrom(0, b, line, white)
  }

  /** The offsets of the entries of `ps` whose code is `code`, in order. */
  function CollectPatterns(ps: seq<Pattern>, code: int): seq<int> {
    if |ps| == 0 then []
    else (if ps[0].code == code then ps[0].killed else []) + CollectPatterns(ps[1..], code)
  }

  /** The offsets of every matching entry of every enabled rule, in rule-set order. */
  function Collect(rs: RuleSet, code: int): (r: seq<int>)
    ensures forall k :: 0 <= k < |r| ==> 0 <= r[k] < 4
  {
    if |rs| == 0 then []
    else
      var head := if rs[0].1 then CollectPatterns(Patterns(rs[0].0), code) else [];
      OffsetsInLine(rs[0].0, code);
      head + Collect(rs[1..], code)
  }

  /** checkLine: the offsets within `line` captured when side `white` has moved. */
  function CheckLine(b: Board, line: seq<int>, white: bool, rs: RuleSet): (r: seq<int>)
    requires IsLine(line)
    ensures forall k :: 0 <= k < |r| ==> 0 <= r[k] < 4
  {
    Collect(rs, LineCode(b, line, white))
  }

  /** checkBoard: the board indices captured by the piece now on (r, c),
      whose side is read from its sign; row captures first, then column. */
  function CheckBoard(b: Board, r: Idx, c: Idx, rs: RuleSet): (killed: seq<int>)
    ensures AllCells(killed)
    ensures forall k :: 0 <= k < |killed| ==> Row(killed[k]) == r || Col(killed[k]) == c
  {
    var white := b[At(r, c)] > 0;
    RowThenCol(r, c, CheckLine(b, RowLine(r), white, rs), CheckLine(b, ColLine(c), white, rs))
  }

  /** The captures are the row offsets placed on row `r`, then the column
      offsets placed on column `c`, checkLine being asked as the side of the
      destination's piece. */
  lemma CheckBoardCells(b: Board, r: Idx, c: Idx, rs: RuleSet)
    ensures var h := CheckLine(b, RowLine(r), b[At(r, c)] > 0, rs);
      var v := CheckLine(b, ColLine(c), b[At(r, c)] > 0, rs);
      var killed := CheckBoard(b, r, c, rs);
      && |killed| == |h| + |v|
      && (forall k :: 0 <= k < |h| ==> killed[k] == r * 4 + h[k])
      && (forall k :: |h| <= k < |killed| ==> killed[k] == v[k - |h|] * 4 + c)
  {
  }

  /** Row offsets placed on row `r`, then column offsets placed on column `c`. */
  function RowThenCol(r: Idx, c: Idx, h: seq<int>, v: seq<int>): (K: seq<int>)
    requires forall k :: 0 <= k < |h| ==> 0 <= h[k] < 4
    requires forall k :: 0 <= k < |v| ==> 0 <= v[k] < 4
    ensures |K| == |h| + |v|
    ensures forall k :: 0 <= k < |h| ==> K[k] == r * 4 + h[k]
    ensures forall k :: |h| <= k < |K| ==> K[k] == v[k - |h|] * 4 + c
  {
    var H, V := OnRow(r, h), OnCol(c, v);
    ColumnPart(H, V);
    H + V
  }

  /** The second part of a concatenation is read at an offset of the first's length. */
  lemma ColumnPart(H: seq<int>, V: seq<int>)
    ensures forall k :: |H| <= k < |H + V| ==> (H + V)[k] == V[k - |H|]
  {
  }

  /** Row offsets mapped to board indices: rowIndex * 4 + offset. */
  function OnRow(r: Idx, offs: seq<int>): (cells: seq<int>)
    requires forall k :: 0 <= k < |offs| ==> 0 <= offs[k] < 4
    ensures |cells| == |offs| && AllCells(cells)
    ensures forall k :: 0 <= k < |offs| ==> cells[k] == At(r, offs[k])
  {
    seq(|offs|, k requires 0 <= k < |offs| => r * 4 + offs[k])
  }

  /** Column offsets mapped to board indices: offset * 4 + colIndex. */
  function OnCol(c: Idx, offs: seq<int>): (cells: seq<int>)
    requires forall k :: 0 <= k < |offs| ==> 0 <= offs[k] < 4
    ensures |cells| == |offs| && AllCells(cells)
    ensures forall k :: 0 <= k < |offs| ==> cells[k] == At(offs[k], c)
  {
    seq(|offs|, k requires 0 <= k < |offs| => offs[k] * 4 + c)
  }

  // ---------------------------------------------------------------------
  // The table

  lemma OffsetsInLine(n: RuleName, code: int)
    ensures forall k :: 0 <= k < |CollectPatterns(Patterns(n), code)| ==> 0 <= CollectPatterns(Patterns(n), code)[k] < 4
  {
    var ps := Patterns(n);
    CollectPatternsFrom(ps, code);
  }

  lemma {:induction false} CollectPatternsFrom(ps: seq<Pattern>, code: int)
    requires forall i, k :: 0 <= i < |ps| && 0 <= k < |ps[i].killed| ==> 0 <= ps[i].killed[k] < 4
    ensures forall k :: 0 <= k < |CollectPatterns(ps, code)| ==> 0 <= CollectPatterns(ps, code)[k] < 4
  {
    if |ps| > 0 {
      CollectPatternsFrom(ps[1..], code);
    }
  }

  /** Every entry of the table is found again by its code, so no two entries share a code. */
  lemma OwnerInverse(n: RuleName, i: nat)
    requires i < |Patterns(n)|
    ensures Owner(Patterns(n)[i].code) == Some((n, i))
  {
  }

  /** The twelve table codes are pairwise distinct. */
  lemma TableCodesDistinct(n: RuleName, i: nat, m: RuleName, j: nat)
    requires i < |Patterns(n)| && j < |Patterns(m)|
    requires Patterns(n)[i].code == Patterns(m)[j].code
    ensures n == m && i == j
  {
    OwnerInverse(n, i);
    OwnerInverse(m, j);
  }

  lemma Pow10Values()
    ensures Pow10(0) == 1 && Pow10(1) == 10 && Pow10(2) == 100 && Pow10(3) == 1000
  {
  }

  /** Each capture offset is a position of the line holding an opponent
      (digit 2), except in the two 一挑二 entries, whose offset is the
      mover's own middle piece (digit 1); the offsets of one entry are
      distinct. */
  lemma CapturedClass(n: RuleName, i: nat)
    requires i < |Patterns(n)|
    ensures var p := Patterns(n)[i];
      && (forall k :: 0 <= k < |p.killed| ==> 0 <= p.killed[k] < 4)
      && (forall k :: 0 <= k < |p.killed| ==> DigitAt(p.code, p.killed[k]) == if n == OneFlickTwo then 1 else 2)
      && (forall k, l :: 0 <= k < l < |p.killed| ==> p.killed[k] != p.killed[l])
  {
    Pow10Values();
    var p := Patterns(n)[i];
    match n
    case TwoPressOne =>
      assert p in [Pattern(2110, [0]), Pattern(211, [1]), Pattern(1120, [2]), Pattern(112, [3])];
    case TwoPressTwo =>
      assert p in [Pattern(2211, [0, 1]), Pattern(1122, [2, 3])];
    case TwoPincerOne =>
      assert p in [Pattern(1210, [1]), Pattern(121, [2])];
    case TwoPincerTwo =>
      assert p == Pattern(1221, [1, 2]);
    case TwoFlickTwo =>
      assert p == Pattern(2112, [0, 3]);
    case OneFlickTwo =>
      assert p in [Pattern(2120, [1]), Pattern(212, [2])];
  }

  // ---------------------------------------------------------------------
  // The digit encoding

  lemma {:induction false} CodeFromShift(b: Board, line: seq<int>, white: bool, i: nat, acc: int)
    requires IsLine(line) && i <= 4
    ensures CodeFrom(b, line, white, i, acc) == acc + CodeFrom(b, line, white, i, 0)
    decreases 4 - i
  {
    if i < 4 {
      var t := Term(b, line, white, i);
      CodeFromShift(b, line, white, i + 1, acc + t);
      CodeFromShift(b, line, white, i + 1, t);
    }
  }

  /** A code started from `base` is `base` plus the code started from 0. */
  lemma LineCodeBase(base: int, b: Board, line: seq<int>, white: bool)
    requires IsLine(line)
    ensures LineCodeFrom(base, b, line, white) == base + LineCode(b, line, white)
  {
    CodeFromShift(b, line, white, 0, base);
  }

  /** Four classes written at place values 1000, 100, 10 and 1 can be read back digit by digit. */
  lemma ReadBack(c0: int, c1: int, c2: int, c3: int)
    requires 0 <= c0 <= 2 && 0 <= c1 <= 2 && 0 <= c2 <= 2 && 0 <= c3 <= 2
    ensures var code := 1000 * c0 + 100 * c1 + 10 * c2 + c3;
      DigitAt(code, 0) == c0 && DigitAt(code, 1) == c1 && DigitAt(code, 2) == c2 && DigitAt(code, 3) == c3
  {
    Pow10Values();
    var code := 1000 * c0 + 100 * c1 + 10 * c2 + c3;
    assert code / 1000 == c0;
    assert code / 100 == 10 * c0 + c1;
    assert code / 10 == 100 * c0 + 10 * c1 + c2;
  }

  /** The code of a line puts each cell's class at place values 1000, 100,
      10 and 1, so it lies in [0, 2222] and every class can be read back
      from it. */
  lemma LineCodeDigits(b: Board, line: seq<int>, white: bool)
    requires IsLine(line)
    ensures var code := LineCode(b, line, white);
      && code == 1000 * Class(b[line[0]], white) + 100 * Class(b[line[1]], white)
                 + 10 * Class(b[line[2]], white) + Class(b[line[3]], white)
      && 0 <= code <= 2222
      && forall k: Idx :: DigitAt(code, k) == Class(b[line[k]], white)
  {
    Pow10Values();
    var c0, c1, c2, c3 := Class(b[line[0]], white), Class(b[line[1]], white), Class(b[line[2]], white), Class(b[line[3]], white);
    var t0 := CodeFrom(b, line, white, 0, 0);
    assert t0 == CodeFrom(b, line, white, 1, c0 * 1000);
    CodeFromShift(b, line, white, 1, c0 * 1000);
    assert CodeFrom(b, line, white, 1, 0) == CodeFrom(b, line, white, 2, c1 * 100);
    CodeFromShift(b, line, white, 2, c1 * 100);
    assert CodeFrom(b, line, white, 2, 0) == CodeFrom(b, line, white, 3, c2 * 10);
    CodeFromShift(b, line, white, 3, c2 * 10);
    assert CodeFrom(b, line, white, 3, 0) == c3;
    ReadBack(c0, c1, c2, c3);
  }

  // ---------------------------------------------------------------------
  // Matching a code against the enabled rules

  /** The offsets of the one table entry whose code is `code`, when its rule is enabled. */
  function MatchedOffsets(rs: RuleSet, code: int): seq<int> {
    match Owner(code)
    case None => []
    case Some((n, i)) => if Enabled(rs, n) then Patterns(n)[i].killed else []
  }

  lemma {:induction false} CollectUnique(ps: seq<Pattern>, code: int, i: int)
    requires forall j :: 0 <= j < |ps| && ps[j].code == code ==> j == i
    requires 0 <= i < |ps| ==> ps[i].code == code
    ensures CollectPatterns(ps, code) == if 0 <= i < |ps| then ps[i].killed else []
  {
    if |ps| > 0 {
      CollectUnique(ps[1..], code, i - 1);
    }
  }

  lemma CollectPatternsOwn(m: RuleName, code: int)
    ensures CollectPatterns(Patterns(m), code) ==
      match Owner(code)
      case Some((n, i)) => if n == m then Patterns(n)[i].killed else []
      case None => []
  {
    var ps := Patterns(m);
    forall j | 0 <= j < |ps| && ps[j].code == code ensures Owner(code) == Some((m, j)) {
      OwnerInverse(m, j);
    }
    match Owner(code)
    case Some((n, i)) =>
      if n == m {
        CollectUnique(ps, code, i);
      } else {
        CollectUnique(ps, code, -1);
      }
    case None =>
      CollectUnique(ps, code, -1);
  }

  lemma EnabledSplit(rs: RuleSet, n: RuleName)
    requires WellFormed(rs) && |rs| > 0
    ensures Enabled(rs, n) <==> rs[0] == (n, true) || Enabled(rs[1..], n)
    ensures rs[0].0 == n ==> !Enabled(rs[1..], n)
  {
    var tail := rs[1..];
    if Enabled(rs, n) {
      var i :| 0 <= i < |rs| && rs[i] == (n, true);
      if i > 0 {
        assert tail[i - 1] == (n, true);
      }
    }
    if Enabled(tail, n) {
      var i :| 0 <= i < |tail| && tail[i] == (n, true);
      assert rs[i + 1] == (n, true);
    }
  }

  lemma {:induction false} CollectMatch(rs: RuleSet, code: int)
    requires WellFormed(rs)
    ensures Collect(rs, code) == MatchedOffsets(rs, code)
  {
    if |rs| > 0 {
      var tail := rs[1..];
      assert WellFormed(tail);
      CollectMatch(tail, code);
      CollectPatternsOwn(rs[0].0, code);
      var head := if rs[0].1 then CollectPatterns(Patterns(rs[0].0), code) else [];
      assert Collect(rs, code) == head + Collect(tail, code);
      match Owner(code)
      case None =>
      case Some((n, i)) =>
        EnabledSplit(rs, n);
    }
  }

  /** At most one table entry matches a line (its codes are distinct), and
      checkLine returns that entry's offsets exactly when its rule is
      enabled, else nothing. */
  lemma CheckLineMatch(b: Board, line: seq<int>, white: bool, rs: RuleSet)
    requires IsLine(line) && WellFormed(rs)
    ensures CheckLine(b, line, white, rs) == MatchedOffsets(rs, LineCode(b, line, white))
  {
    CollectMatch(rs, LineCode(b, line, white));
  }

  // ---------------------------------------------------------------------
  // checkBoard

  /** The default rule set is a well-formed object with only 二打一 on. */
  lemma DefaultRuleOnlyTwoPressOne()
    ensures OnlyTwoPressOne(DefaultRule)
  {
    assert DefaultRule[0] == (TwoPressOne, true);
  }

  /** The side is taken from the destination's sign, so an occupied
      destination is a digit 1 in both its row code and its column code. */
  lemma MoverIsDigitOne(b: Board, r: Idx, c: Idx)
    requires b[At(r, c)] != 0
    ensures var white := b[At(r, c)] > 0;
      DigitAt(LineCode(b, RowLine(r), white), c) == 1 && DigitAt(LineCode(b, ColLine(c), white), r) == 1
  {
    var white := b[At(r, c)] > 0;
    LineCodeDigits(b, RowLine(r), white);
    LineCodeDigits(b, ColLine(c), white);
    assert RowLine(r)[c] == At(r, c) && ColLine(c)[r] == At(r, c);
  }

  /** Without 一挑二, each offset checkLine returns holds an opponent piece,
      and the offsets are distinct. */
  lemma OpponentOffsets(b: Board, line: seq<int>, white: bool, rs: RuleSet)
    requires IsLine(line) && WellFormed(rs) && !Enabled(rs, OneFlickTwo)
    ensures var o := CheckLine(b, line, white, rs);
      && (forall k :: 0 <= k < |o| ==> Class(b[line[o[k]]], white) == 2)
      && (forall k, l :: 0 <= k < l < |o| ==> o[k] != o[l])
  {
    var code := LineCode(b, line, white);
    CheckLineMatch(b, line, white, rs);
    LineCodeDigits(b, line, white);
    match Owner(code)
    case None =>
    case Some((n, i)) =>
      CapturedClass(n, i);
  }

  /** Offsets that avoid the destination's own position in each line map
      to distinct cells other than the destination. */
  lemma RowColDistinct(r: Idx, c: Idx, h: seq<int>, v: seq<int>)
    requires forall k :: 0 <= k < |h| ==> 0 <= h[k] < 4 && h[k] != c
    requires forall k :: 0 <= k < |v| ==> 0 <= v[k] < 4 && v[k] != r
    requires forall k, l :: 0 <= k < l < |h| ==> h[k] != h[l]
    requires forall k, l :: 0 <= k < l < |v| ==> v[k] != v[l]
    ensures var cells := OnRow(r, h) + OnCol(c, v);
      && (forall k :: 0 <= k < |cells| ==> cells[k] != At(r, c))
      && (forall k, l :: 0 <= k < l < |cells| ==> cells[k] != cells[l])
  {
    var H, V := OnRow(r, h), OnCol(c, v);
    assert forall k :: 0 <= k < |H| ==> Col(H[k]) != c && Row(H[k]) == r;
    assert forall k :: 0 <= k < |V| ==> Row(V[k]) != r && Col(V[k]) == c;
    assert forall k, l :: 0 <= k < l < |H| ==> Col(H[k]) != Col(H[l]);
    assert forall k, l :: 0 <= k < l < |V| ==> Row(V[k]) != Row(V[l]);
  }

  /** Without 一挑二, checkBoard never captures the destination and never
      lists a cell twice: row captures stay off the column and column
      captures off the row, and the two lines meet only at the destination. */
  lemma CapturesAvoidMover(b: Board, r: Idx, c: Idx, rs: RuleSet)
    requires WellFormed(rs) && !Enabled(rs, OneFlickTwo)
    ensures var killed := CheckBoard(b, r, c, rs);
      && (forall k :: 0 <= k < |killed| ==> killed[k] != At(r, c))
      && (forall k, l :: 0 <= k < l < |killed| ==> killed[k] != killed[l])
  {
    var white := b[At(r, c)] > 0;
    var row, col := RowLine(r), ColLine(c);
    var h := CheckLine(b, row, white, rs);
    var v := CheckLine(b, col, white, rs);
    assert row[c] == At(r, c) && col[r] == At(r, c);
    assert Class(b[At(r, c)], white) != 2;
    OpponentOffsets(b, row, white, rs);
    OpponentOffsets(b, col, white, rs);
    RowColDistinct(r, c, h, v);
  }

  /** Two boards that agree on the cells of a line give it the same code. */
  lemma LineCodeLocal(b1: Board, b2: Board, line: seq<int>, white: bool)
    requires IsLine(line)
    requires forall k :: 0 <= k < 4 ==> b1[line[k]] == b2[line[k]]
    ensures LineCode(b1, line, white) == LineCode(b2, line, white)
  {
    LineCodeDigits(b1, line, white);
    LineCodeDigits(b2, line, white);
  }

  /** checkBoard reads only the seven cells of the destination's row and column. */
  lemma CheckBoardLocal(b1: Board, b2: Board, r: Idx, c: Idx, rs: RuleSet)
    requires forall k: Idx :: b1[At(r, k)] == b2[At(r, k)] && b1[At(k, c)] == b2[At(k, c)]
    ensures CheckBoard(b1, r, c, rs) == CheckBoard(b2, r, c, rs)
  {
    var white := b1[At(r, c)] > 0;
    assert white == (b2[At(r, c)] > 0);
    var row, col := RowLine(r), ColLine(c);
    forall k | 0 <= k < 4 ensures b1[row[k]] == b2[row[k]] && b1[col[k]] == b2[col[k]] {
      assert row[k] == At(r, k) && col[k] == At(k, c);
    }
    LineCodeLocal(b1, b2, row, white);
    LineCodeLocal(b1, b2, col, white);
  }

  /** The board with every piece handed to the other side. */
  function Negated(b: Board): (n: Board)
    ensures forall i :: 0 <= i < 16 ==> n[i] == -b[i]
  {
    seq(16, i requires 0 <= i < 16 => -b[i])
  }

  /** Swapping the colours of all pieces swaps the mover too, so the codes
      and hence the captures are unchanged (for an occupied destination). */
  lemma CheckBoardColourBlind(b: Board, r: Idx, c: Idx, rs: RuleSet)
    requires b[At(r, c)] != 0
    ensures CheckBoard(Negated(b), r, c, rs) == CheckBoard(b, r, c, rs)
  {
    var nb := Negated(b);
    var white := b[At(r, c)] > 0;
    assert (nb[At(r, c)] > 0) == !white;
    forall line | IsLine(line) ensures LineCode(nb, line, !white) == LineCode(b, line, white) {
      LineCodeDigits(nb, line, !white);
      LineCodeDigits(b, line, white);
    }
  }
}
