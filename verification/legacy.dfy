/** The capture test of src/utils/ai.ts, an older copy of the rule engine:
    the four 二打一 entries are hard-wired with every code offset by 10000,
    and the mover's side is an argument rather than read from the board. */
module Legacy {
  import opened Grid
  import Rules

  /** checkLineRules: the 二打一 entries with 10000 added to each code. */
  const LegacyRules: seq<Rules.Pattern> :=
    [Rules.Pattern(12110, [0]), Rules.Pattern(10211, [1]), Rules.Pattern(11120, [2]), Rules.Pattern(10112, [3])]

  /** The offsets of the first entry whose code is `code`, or nothing. */
  function FirstMatch(ps: seq<Rules.Pattern>, code: int): (r: seq<int>)
    ensures r == [] || exists k :: 0 <= k < |ps| && ps[k].code == code && r == ps[k].killed
    ensures (forall k :: 0 <= k < |ps| ==> ps[k].code != code) ==> r == []
    ensures forall k :: 0 <= k < |ps| && ps[k].code == code && (forall j :: 0 <= j < k ==> ps[j].code != code) ==> r == ps[k].killed
  {
    if |ps| == 0 then []
    else if ps[0].code == code then ps[0].killed
    else FirstMatch(ps[1..], code)
  }

  /** checkLine: the line code starts at 10000 and is matched against the
      hard-wired entries. */
  function CheckLine(b: Board, line: seq<int>, white: bool): (r: seq<int>)
    requires Rules.IsLine(line)
    ensures forall k :: 0 <= k < |r| ==> 0 <= r[k] < 4
  {
    assert forall k, o :: 0 <= k < |LegacyRules| && 0 <= o < |LegacyRules[k].killed| ==> 0 <= LegacyRules[k].killed[o] < 4;
    FirstMatch(LegacyRules, Rules.LineCodeFrom(10000, b, line, white))
  }

  /** checkBoard: captures on row `r` then column `c` for the mover `white`. */
  function CheckBoard(b: Board, r: Idx, c: Idx, white: bool): (killed: seq<int>)
    ensures AllCells(killed)
    ensures forall k :: 0 <= k < |killed| ==> Row(killed[k]) == r || Col(killed[k]) == c
  {
    var h := CheckLine(b, Rules.RowLine(r), white);
    var v := CheckLine(b, Rules.ColLine(c), white);
    Rules.RowThenCol(r, c, h, v)
  }

  predicate DistinctCodes(ps: seq<Rules.Pattern>) {
    forall i, j :: 0 <= i < j < |ps| ==> ps[i].code != ps[j].code
  }

  /** With distinct codes the first match is the only one: returning the
      first matching entry is the same as collecting all of them. */
  lemma {:induction false} FirstMatchIsOnlyMatch(ps: seq<Rules.Pattern>, code: int)
    requires DistinctCodes(ps)
    ensures FirstMatch(ps, code) == Rules.CollectPatterns(ps, code)
  {
    if |ps| > 0 {
      FirstMatchIsOnlyMatch(ps[1..], code);
      if ps[0].code == code {
        Rules.CollectUnique(ps, code, 0);
      }
    }
  }

  /** Shifting every code of a table by `delta` and the looked-up code by
      the same amount finds the same offsets. */
  lemma {:induction false} ShiftedCollect(ps: seq<Rules.Pattern>, qs: seq<Rules.Pattern>, code: int, delta: int)
    requires |ps| == |qs|
    requires forall i :: 0 <= i < |ps| ==> qs[i] == Rules.Pattern(ps[i].code + delta, ps[i].killed)
    ensures Rules.CollectPatterns(qs, code + delta) == Rules.CollectPatterns(ps, code)
  {
    if |ps| > 0 {
      ShiftedCollect(ps[1..], qs[1..], code, delta);
    }
  }

  /** ai.ts's entries are game.ts's 二打一 entries with 10000 added, and
      their codes are distinct, so at most one of them matches a line. */
  lemma LegacyTable()
    ensures |LegacyRules| == |Rules.Patterns(Rules.TwoPressOne)|
    ensures forall i :: 0 <= i < |LegacyRules| ==>
      LegacyRules[i] == Rules.Pattern(Rules.Patterns(Rules.TwoPressOne)[i].code + 10000, Rules.Patterns(Rules.TwoPressOne)[i].killed)
    ensures DistinctCodes(LegacyRules)
  {
  }

  /** ai.ts's checkLine equals game.ts's checkLine with only 二打一 enabled. */
  lemma CheckLineAgrees(b: Board, line: seq<int>, white: bool, rs: Rules.RuleSet)
    requires Rules.IsLine(line) && Rules.OnlyTwoPressOne(rs)
    ensures CheckLine(b, line, white) == Rules.CheckLine(b, line, white, rs)
  {
    var code := Rules.LineCode(b, line, white);
    Rules.LineCodeBase(10000, b, line, white);
    LegacyTable();
    FirstMatchIsOnlyMatch(LegacyRules, code + 10000);
    ShiftedCollect(Rules.Patterns(Rules.TwoPressOne), LegacyRules, code, 10000);
    Rules.CollectPatternsOwn(Rules.TwoPressOne, code);
    Rules.CheckLineMatch(b, line, white, rs);
  }

  /** ai.ts's checkBoard equals game.ts's checkBoard with only 二打一
      enabled whenever the side passed in is the side of the piece on the
      destination, as it is in every call the search makes. */
  lemma CheckBoardAgrees(b: Board, r: Idx, c: Idx, white: bool, rs: Rules.RuleSet)
    requires Rules.OnlyTwoPressOne(rs)
    requires b[At(r, c)] != 0 && (b[At(r, c)] > 0) == white
    ensures CheckBoard(b, r, c, white) == Rules.CheckBoard(b, r, c, rs)
  {
    CheckLineAgrees(b, Rules.RowLine(r), white, rs);
    CheckLineAgrees(b, Rules.ColLine(c), white, rs);
  }
}
