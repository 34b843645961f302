/** The move search: GameUtils.aiNextStep of src/utils/game.ts and its
    older copy aiNextStep of src/utils/ai.ts. Both enumerate the legal
    one-step moves of the side to move as candidates, then walk three more
    plies, adding into each candidate a score scaled by ±1/3^deep: a point
    for every step possible, ten for every captured piece, minus a point for
    every blocked direction below the root. The copies differ only in how
    they compute captures and in how they pick the answer. */
module Search {
  import opened Grid
  import Rules
  import Legacy
  import Terminal

  /** Which copy runs: game.ts's, capturing with a rule set, or ai.ts's,
      with 二打一 hard-wired. */
  datatype Engine = Configurable(rs: Rules.RuleSet) | HardWired

  /** The cells captured by the piece just moved to (r, c) by side `white`. */
  function Capture(e: Engine, b: Board, r: Idx, c: Idx, white: bool): (killed: seq<int>)
    ensures AllCells(killed)
  {
    match e
    case Configurable(rs) => Rules.CheckBoard(b, r, c, rs)
    case HardWired => Legacy.CheckBoard(b, r, c, white)
  }

  const MaxDeep: nat := 3
  const StepScore: real := 1.0
  const KillScore: real := 10.0

  function Pow3(n: nat): (p: real)
    ensures p >= 1.0
  {
    if n == 0 then 1.0 else 3.0 * Pow3(n - 1)
  }

  /** 1/3^n, built by repeated division by three. */
  function Weight(n: nat): (w: real)
    ensures w > 0.0
  {
    if n == 0 then 1.0 else Weight(n - 1) / 3.0
  }

  lemma {:induction false} WeightInvertsPow3(n: nat)
    ensures Weight(n) * Pow3(n) == 1.0
  {
    if n > 0 {
      WeightInvertsPow3(n - 1);
      assert Weight(n) * Pow3(n) == (Weight(n - 1) / 3.0) * (3.0 * Pow3(n - 1));
    }
  }

  /** scoreScale: +1 when the side moving is the AI's own side (`self`), -1
      otherwise, multiplied by 1/3^deep below the root. */
  function Scale(white: bool, self: bool, deep: nat): real {
    if self == white then Weight(deep) else -Weight(deep)
  }

  /** The scale is the sign of the mover times 1/3^deep, as aiNextStep writes it. */
  lemma ScaleValue(white: bool, self: bool, deep: nat)
    ensures Scale(white, self, deep) == (if self == white then 1.0 else -1.0) * (if deep > 0 then 1.0 / Pow3(deep) else 1.0)
  {
    WeightInvertsPow3(deep);
  }

  /** A candidate move: the piece id, the cell it moves to, its score. */
  datatype Candidate = Candidate(num: int, rowIndex: int, colIndex: int, score: real)

  /** The points a step earns at scale `sc` when it captures `k` pieces:
      the step point plus ten per captured piece. */
  function Gain(sc: real, k: nat): real {
    sc * StepScore + (k as real) * sc * KillScore
  }

  /** A legal step of side `white` played out: the board with the piece
      moved and the captured cells emptied, and how many cells were captured. */
  function Play(e: Engine, b: Board, white: bool, st: Step): (p: (Board, nat))
    requires Legal(b, white, st)
    ensures p.0[st.from] == 0
    ensures p.0[Dest(b, white, st)] in {0, b[st.from]}
    ensures forall i :: 0 <= i < 16 && i != st.from && i != Dest(b, white, st) ==> p.0[i] in {0, b[i]}
    ensures p.1 == 0 ==> p.0 == Moved(b, white, st)
  {
    var t := Dest(b, white, st);
    var next := Moved(b, white, st);
    var killed := Capture(e, next, t / 4, t % 4, white);
    (RemoveCells(next, killed), |killed|)
  }

  /** What a legal step of side `white` at depth `deep` adds to its
      candidate: the step point, ten points per captured cell, and, above
      the last ply, the replies on the board with the captures removed. */
  function MoveScore(e: Engine, b: Board, white: bool, self: bool, deep: nat, st: Step): real
    requires deep <= MaxDeep && Legal(b, white, st)
    decreases MaxDeep - deep, 1
  {
    Outcome(e, Play(e, b, white, st), white, self, deep)
  }

  /** The score of a played-out step `p` (board after it, cells captured). */
  function Outcome(e: Engine, p: (Board, nat), white: bool, self: bool, deep: nat): real
    requires deep <= MaxDeep
    decreases MaxDeep - deep, 0
  {
    Gain(Scale(white, self, deep), p.1)
    + (if deep < MaxDeep then ReplyScore(e, p.0, !white, self, deep + 1, 0, 0) else 0.0)
  }

  /** The plies below the root: every piece of side `white` from cell `i`,
      direction `d` on scores each possible step and loses a point for each
      blocked direction. */
  function ReplyScore(e: Engine, b: Board, white: bool, self: bool, deep: nat, i: nat, d: nat): real
    requires 1 <= deep <= MaxDeep && i <= 16 && d <= 4
    decreases MaxDeep - deep, 2, 16 - i, 4 - d
  {
    if i == 16 then 0.0
    else if d == 4 || !Owns(white, b[i]) then ReplyScore(e, b, white, self, deep, i + 1, 0)
    else
      var st := Step(i, d);
      (if Open(b, Target(st)) then MoveScore(e, b, white, self, deep, st) else -(Scale(white, self, deep) * StepScore))
      + ReplyScore(e, b, white, self, deep, i, d + 1)
  }

  function ToCandidate(e: Engine, b: Board, white: bool, self: bool, st: Step): Candidate
    requires Legal(b, white, st)
  {
    Candidate(b[st.from], Target(st).0, Target(st).1, MoveScore(e, b, white, self, 0, st))
  }

  /** The root: one candidate per legal step of the side to move, in scan order. */
  function Candidates(e: Engine, b: Board, white: bool, self: bool): (cs: seq<Candidate>)
    ensures |cs| == |LegalSteps(b, white)|
    ensures forall k :: 0 <= k < |cs| ==> cs[k] == ToCandidate(e, b, white, self, LegalSteps(b, white)[k])
  {
    var steps := LegalSteps(b, white);
    seq(|steps|, k requires 0 <= k < |steps| => ToCandidate(e, b, white, self, steps[k]))
  }

  // ---------------------------------------------------------------------
  // Ranking: the first two places of a stable sort by descending score

  /** The first candidate of highest score: the head of the sorted list. */
  function Best(cs: seq<Candidate>): (t: nat)
    requires |cs| > 0
    ensures t < |cs|
    ensures forall j :: 0 <= j < |cs| ==> cs[j].score <= cs[t].score
    ensures forall j :: 0 <= j < t ==> cs[j].score < cs[t].score
  {
    if |cs| == 1 then 0
    else
      var t := Best(cs[..|cs| - 1]);
      if cs[|cs| - 1].score > cs[t].score then |cs| - 1 else t
  }

  /** The second place of the sorted list: the first candidate of highest
      score once the head is set aside. */
  function RunnerUp(cs: seq<Candidate>): (s: nat)
    requires |cs| > 1
    ensures s < |cs| && s != Best(cs)
    ensures forall j :: 0 <= j < |cs| && j != Best(cs) ==> cs[j].score <= cs[s].score
    ensures forall j :: 0 <= j < s && j != Best(cs) ==> cs[j].score < cs[s].score
  {
    var t := Best(cs);
    var rest := cs[..t] + cs[t + 1..];
    var u := Best(rest);
    var s := if u < t then u else u + 1;
    SetAsideHead(cs, t, u, s);
    s
  }

  lemma SetAsideHead(cs: seq<Candidate>, t: nat, u: nat, s: nat)
    requires t < |cs| && |cs| > 1
    requires var rest := cs[..t] + cs[t + 1..]; u == Best(rest)
    requires s == if u < t then u else u + 1
    ensures s < |cs| && s != t
    ensures forall j :: 0 <= j < |cs| && j != t ==> cs[j].score <= cs[s].score
    ensures forall j :: 0 <= j < s && j != t ==> cs[j].score < cs[s].score
  {
    var rest := cs[..t] + cs[t + 1..];
    assert |rest| == |cs| - 1;
    assert rest[u] == cs[s];
    forall j | 0 <= j < |cs| && j != t ensures cs[j].score <= cs[s].score {
      if j < t {
        assert rest[j] == cs[j];
      } else {
        assert rest[j - 1] == cs[j];
      }
    }
    forall j | 0 <= j < s && j != t ensures cs[j].score < cs[s].score {
      if j < t {
        assert rest[j] == cs[j];
      } else {
        assert rest[j - 1] == cs[j];
      }
    }
  }

  /** `c` is a candidate of highest score. */
  predicate IsTop(cs: seq<Candidate>, c: Candidate) {
    c in cs && forall j :: 0 <= j < |cs| ==> cs[j].score <= c.score
  }

  /** `c` stands at a place other than the head and scores at least as
      much as every candidate except the head. */
  predicate IsSecond(cs: seq<Candidate>, c: Candidate)
    requires |cs| > 0
  {
    exists s :: 0 <= s < |cs| && s != Best(cs) && c == cs[s] &&
      (forall j :: 0 <= j < |cs| && j != Best(cs) ==> cs[j].score <= c.score)
  }

  // ---------------------------------------------------------------------
  // The two entry points

  /** GameUtils.aiNextStep: no answer when the side to move is stuck, else
      the first candidate of highest score. */
  function AiNextStep(b: Board, stepIsWhite: bool, selfIsWhite: bool, rs: Rules.RuleSet): (r: Option<Candidate>)
    ensures r.None? <==> Terminal.CheckGameOver(b, !stepIsWhite)
    ensures r.Some? ==> IsTop(Candidates(Configurable(rs), b, stepIsWhite, selfIsWhite), r.value)
  {
    NoStepsIffStuck(b, stepIsWhite);
    Terminal.GameOverIffStuck(b, !stepIsWhite);
    var cs := Candidates(Configurable(rs), b, stepIsWhite, selfIsWhite);
    if |cs| == 0 then None else Some(cs[Best(cs)])
  }

  /** The pick of ai.ts from its candidate list with the random draw
      `draw`: nothing from an empty list, the only candidate of a
      singleton, otherwise the head of the sorted list when the draw
      exceeds 0.2 and the second place else. */
  function Pick(cs: seq<Candidate>, draw: real): (r: Option<Candidate>)
    ensures r.None? <==> |cs| == 0
    ensures r.Some? ==> r.value in cs
    ensures |cs| == 1 ==> r == Some(cs[0])
    ensures r.Some? && draw > 0.2 ==> IsTop(cs, r.value)
    ensures |cs| > 1 && draw <= 0.2 ==> r.Some? && IsSecond(cs, r.value)
  {
    if |cs| > 1 then
      if draw > 0.2 then Some(cs[Best(cs)])
      else
        var s := RunnerUp(cs);
        Some(cs[s])
    else if |cs| == 1 then Some(cs[0])
    else None
  }

  /** aiNextStep of ai.ts with the value of Math.random() passed in as `draw`. */
  function LegacyAiNextStep(b: Board, stepIsWhite: bool, selfIsWhite: bool, draw: real): (r: Option<Candidate>)
    ensures r.None? <==> Terminal.CheckGameOver(b, !stepIsWhite)
    ensures r.Some? ==> r.value in Candidates(HardWired, b, stepIsWhite, selfIsWhite)
    ensures r.Some? && draw > 0.2 ==> IsTop(Candidates(HardWired, b, stepIsWhite, selfIsWhite), r.value)
  {
    NoStepsIffStuck(b, stepIsWhite);
    Terminal.GameOverIffStuck(b, !stepIsWhite);
    Pick(Candidates(HardWired, b, stepIsWhite, selfIsWhite), draw)
  }

  // ---------------------------------------------------------------------
  // Properties of the search

  /** A candidate describes a legal step: its piece belongs to the side to
      move and its target is an empty in-grid cell next to that piece. */
  ghost predicate Describes(b: Board, white: bool, c: Candidate) {
    exists st: Step :: Legal(b, white, st) && c.num == b[st.from] && (c.rowIndex, c.colIndex) == Target(st)
  }

  /** Every candidate describes a legal step, and every legal step has its candidate. */
  lemma CandidatesAreLegalSteps(e: Engine, b: Board, white: bool, self: bool)
    ensures forall c :: c in Candidates(e, b, white, self) ==> Describes(b, white, c)
    ensures forall st :: Legal(b, white, st) ==>
      (exists c :: c in Candidates(e, b, white, self) && c.num == b[st.from] && (c.rowIndex, c.colIndex) == Target(st))
  {
    var cs := Candidates(e, b, white, self);
    var steps := LegalSteps(b, white);
    forall c | c in cs ensures Describes(b, white, c) {
      var k :| 0 <= k < |cs| && cs[k] == c;
      assert Legal(b, white, steps[k]);
    }
    forall st | Legal(b, white, st) ensures exists c :: c in cs && c.num == b[st.from] && (c.rowIndex, c.colIndex) == Target(st) {
      var k :| 0 <= k < |steps| && steps[k] == st;
      var c := cs[k];
      assert c in cs;
      assert c.num == b[st.from] && (c.rowIndex, c.colIndex) == Target(st);
    }
  }

  /** The move chosen by game.ts's search is a legal step of the side to move. */
  lemma AnswerIsLegal(b: Board, stepIsWhite: bool, selfIsWhite: bool, rs: Rules.RuleSet)
    requires AiNextStep(b, stepIsWhite, selfIsWhite, rs).Some?
    ensures Describes(b, stepIsWhite, AiNextStep(b, stepIsWhite, selfIsWhite, rs).value)
  {
    CandidatesAreLegalSteps(Configurable(rs), b, stepIsWhite, selfIsWhite);
  }

  /** A piece's capture test sees it on its destination with its own sign,
      so ai.ts's hard-wired capture and game.ts's 二打一-only capture agree
      on every step the search plays. */
  lemma PlayAgrees(b: Board, white: bool, st: Step, rs: Rules.RuleSet)
    requires Legal(b, white, st) && Rules.OnlyTwoPressOne(rs)
    ensures Play(HardWired, b, white, st) == Play(Configurable(rs), b, white, st)
  {
    var next := Moved(b, white, st);
    var t := Dest(b, white, st);
    assert At(t / 4, t % 4) == t;
    Legacy.CheckBoardAgrees(next, t / 4, t % 4, white, rs);
  }

  /** The two copies score every move alike when game.ts enables only 二打一. */
  lemma {:induction false} MoveScoresAgree(b: Board, white: bool, self: bool, deep: nat, st: Step, rs: Rules.RuleSet)
    requires deep <= MaxDeep && Legal(b, white, st) && Rules.OnlyTwoPressOne(rs)
    ensures MoveScore(HardWired, b, white, self, deep, st) == MoveScore(Configurable(rs), b, white, self, deep, st)
    decreases MaxDeep - deep, 1
  {
    PlayAgrees(b, white, st, rs);
    OutcomesAgree(Play(HardWired, b, white, st), white, self, deep, rs);
  }

  lemma {:induction false} OutcomesAgree(p: (Board, nat), white: bool, self: bool, deep: nat, rs: Rules.RuleSet)
    requires deep <= MaxDeep && Rules.OnlyTwoPressOne(rs)
    ensures Outcome(HardWired, p, white, self, deep) == Outcome(Configurable(rs), p, white, self, deep)
    decreases MaxDeep - deep, 0
  {
    if deep < MaxDeep {
      RepliesAgree(p.0, !white, self, deep + 1, 0, 0, rs);
    }
  }

  lemma {:induction false} RepliesAgree(b: Board, white: bool, self: bool, deep: nat, i: nat, d: nat, rs: Rules.RuleSet)
    requires 1 <= deep <= MaxDeep && i <= 16 && d <= 4 && Rules.OnlyTwoPressOne(rs)
    ensures ReplyScore(HardWired, b, white, self, deep, i, d) == ReplyScore(Configurable(rs), b, white, self, deep, i, d)
    decreases MaxDeep - deep, 2, 16 - i, 4 - d, 1
  {
    if i == 16 {
    } else if d == 4 || !Owns(white, b[i]) {
      RepliesAgree(b, white, self, deep, i + 1, 0, rs);
      assert ReplyScore(HardWired, b, white, self, deep, i, d) == ReplyScore(HardWired, b, white, self, deep, i + 1, 0);
      assert ReplyScore(Configurable(rs), b, white, self, deep, i, d) == ReplyScore(Configurable(rs), b, white, self, deep, i + 1, 0);
    } else {
      RepliesAgree(b, white, self, deep, i, d + 1, rs);
      ReplyStepAgree(b, white, self, deep, i, d, rs);
    }
  }

  /** One direction of one piece: equal steps and equal remainders give equal sums. */
  lemma {:induction false} ReplyStepAgree(b: Board, white: bool, self: bool, deep: nat, i: nat, d: nat, rs: Rules.RuleSet)
    requires 1 <= deep <= MaxDeep && i < 16 && d < 4 && Rules.OnlyTwoPressOne(rs) && Owns(white, b[i])
    requires ReplyScore(HardWired, b, white, self, deep, i, d + 1) == ReplyScore(Configurable(rs), b, white, self, deep, i, d + 1)
    ensures ReplyScore(HardWired, b, white, self, deep, i, d) == ReplyScore(Configurable(rs), b, white, self, deep, i, d)
    decreases MaxDeep - deep, 2, 16 - i, 4 - d, 0
  {
    var st := Step(i, d);
    var e := Configurable(rs);
    var rest := ReplyScore(e, b, white, self, deep, i, d + 1);
    if Open(b, Target(st)) {
      MoveScoresAgree(b, white, self, deep, st, rs);
      assert ReplyScore(HardWired, b, white, self, deep, i, d) == MoveScore(HardWired, b, white, self, deep, st) + rest;
      assert ReplyScore(e, b, white, self, deep, i, d) == MoveScore(e, b, white, self, deep, st) + rest;
    } else {
      var lost := -(Scale(white, self, deep) * StepScore);
      assert ReplyScore(HardWired, b, white, self, deep, i, d) == lost + rest;
      assert ReplyScore(e, b, white, self, deep, i, d) == lost + rest;
    }
  }

  /** ai.ts's search and game.ts's search with only 二打一 enabled return
      the same move whenever the draw keeps ai.ts on the head of its list. */
  lemma LegacyAgrees(b: Board, stepIsWhite: bool, selfIsWhite: bool, rs: Rules.RuleSet, draw: real)
    requires Rules.OnlyTwoPressOne(rs) && draw > 0.2
    ensures LegacyAiNextStep(b, stepIsWhite, selfIsWhite, draw) == AiNextStep(b, stepIsWhite, selfIsWhite, rs)
  {
    var hs := Candidates(HardWired, b, stepIsWhite, selfIsWhite);
    var gs := Candidates(Configurable(rs), b, stepIsWhite, selfIsWhite);
    var steps := LegalSteps(b, stepIsWhite);
    forall k | 0 <= k < |hs| ensures hs[k] == gs[k] {
      MoveScoresAgree(b, stepIsWhite, selfIsWhite, 0, steps[k], rs);
    }
    assert hs == gs;
  }

  lemma ScaleFlip(white: bool, self: bool, deep: nat)
    ensures Scale(white, !self, deep) == -Scale(white, self, deep)
  {
  }

  lemma GainFlip(sc: real, k: nat)
    ensures Gain(-sc, k) == -Gain(sc, k)
  {
    assert (k as real) * (-sc) * KillScore == -((k as real) * sc * KillScore);
  }

  lemma GainScaleFlip(white: bool, self: bool, deep: nat, k: nat)
    ensures Gain(Scale(white, !self, deep), k) == -Gain(Scale(white, self, deep), k)
  {
    ScaleFlip(white, self, deep);
    GainFlip(Scale(white, self, deep), k);
  }

  /** Scores are antisymmetric in the AI's side: a search run for the other
      side rates every move with the opposite score. */
  lemma {:induction false} MoveScoreFlip(e: Engine, b: Board, white: bool, self: bool, deep: nat, st: Step)
    requires deep <= MaxDeep && Legal(b, white, st)
    ensures MoveScore(e, b, white, !self, deep, st) == -MoveScore(e, b, white, self, deep, st)
    decreases MaxDeep - deep, 1
  {
    OutcomeFlip(e, Play(e, b, white, st), white, self, deep);
  }

  lemma {:induction false} OutcomeFlip(e: Engine, p: (Board, nat), white: bool, self: bool, deep: nat)
    requires deep <= MaxDeep
    ensures Outcome(e, p, white, !self, deep) == -Outcome(e, p, white, self, deep)
    decreases MaxDeep - deep, 0
  {
    var g1 := Gain(Scale(white, !self, deep), p.1);
    var g2 := Gain(Scale(white, self, deep), p.1);
    GainScaleFlip(white, self, deep, p.1);
    if deep < MaxDeep {
      var r1 := ReplyScore(e, p.0, !white, !self, deep + 1, 0, 0);
      var r2 := ReplyScore(e, p.0, !white, self, deep + 1, 0, 0);
      ReplyFlip(e, p.0, !white, self, deep + 1, 0, 0);
      assert Outcome(e, p, white, !self, deep) == g1 + r1;
      assert Outcome(e, p, white, self, deep) == g2 + r2;
    } else {
      assert Outcome(e, p, white, !self, deep) == g1;
      assert Outcome(e, p, white, self, deep) == g2;
    }
  }

  lemma {:induction false} ReplyFlip(e: Engine, b: Board, white: bool, self: bool, deep: nat, i: nat, d: nat)
    requires 1 <= deep <= MaxDeep && i <= 16 && d <= 4
    ensures ReplyScore(e, b, white, !self, deep, i, d) == -ReplyScore(e, b, white, self, deep, i, d)
    decreases MaxDeep - deep, 2, 16 - i, 4 - d, 1
  {
    if i == 16 {
    } else if d == 4 || !Owns(white, b[i]) {
      ReplyFlip(e, b, white, self, deep, i + 1, 0);
      assert ReplyScore(e, b, white, !self, deep, i, d) == ReplyScore(e, b, white, !self, deep, i + 1, 0);
      assert ReplyScore(e, b, white, self, deep, i, d) == ReplyScore(e, b, white, self, deep, i + 1, 0);
    } else {
      ReplyFlip(e, b, white, self, deep, i, d + 1);
      ReplyStepFlip(e, b, white, self, deep, i, d);
    }
  }

  lemma {:induction false} ReplyStepFlip(e: Engine, b: Board, white: bool, self: bool, deep: nat, i: nat, d: nat)
    requires 1 <= deep <= MaxDeep && i < 16 && d < 4 && Owns(white, b[i])
    requires ReplyScore(e, b, white, !self, deep, i, d + 1) == -ReplyScore(e, b, white, self, deep, i, d + 1)
    ensures ReplyScore(e, b, white, !self, deep, i, d) == -ReplyScore(e, b, white, self, deep, i, d)
    decreases MaxDeep - deep, 2, 16 - i, 4 - d, 0
  {
    var st := Step(i, d);
    var rest1 := ReplyScore(e, b, white, !self, deep, i, d + 1);
    var rest2 := ReplyScore(e, b, white, self, deep, i, d + 1);
    if Open(b, Target(st)) {
      MoveScoreFlip(e, b, white, self, deep, st);
      assert ReplyScore(e, b, white, !self, deep, i, d) == MoveScore(e, b, white, !self, deep, st) + rest1;
      assert ReplyScore(e, b, white, self, deep, i, d) == MoveScore(e, b, white, self, deep, st) + rest2;
    } else {
      ScaleFlip(white, self, deep);
      assert ReplyScore(e, b, white, !self, deep, i, d) == -(Scale(white, !self, deep) * StepScore) + rest1;
      assert ReplyScore(e, b, white, self, deep, i, d) == -(Scale(white, self, deep) * StepScore) + rest2;
    }
  }
}
