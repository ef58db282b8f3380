/** The score keeping of Scarne's Dice: the player and the CPU take turns rolling a die; a
    roll of 1 wipes the turn score and ends the turn, any other face adds to it, and holding
    banks the turn score into the total. The first total to reach 100 wins. The CPU holds
    once its turn score reaches 15. Die faces are inputs. */
module ScarnesDice {
  import opened Wrappers

  const CPU_HOLD_SCORE := 15
  /** The total at which a game is won. */
  const WINNING_SCORE := 100

  /** The six score fields of the activity, as one value. */
  datatype Game = Game(userTotal: int, userTurn: int, cpuTotal: int, cpuTurn: int,
                       isPlayerTurn: bool, gameOver: bool)

  datatype Player = User | Cpu

  /** What the CPU's runnable does once its step is over: stop because the game is over, give
      the buttons back to the player, or post itself again to roll once more. */
  datatype CpuNext = Stop | PlayerTurn | RollAgain

  /** The state when the activity starts. */
  const Initial := Game(0, 0, 0, 0, true, false)

  predicate IsFace(face: int) {
    1 <= face <= 6
  }

  /** Scores are never negative. */
  predicate NonNegative(g: Game) {
    g.userTotal >= 0 && g.userTurn >= 0 && g.cpuTotal >= 0 && g.cpuTurn >= 0
  }

  // ---------------------------------------------------------------------------
  // The state changes, one per method of the activity

  /** rollDice: the current player's turn score is wiped by a 1 and grows by any other face. */
  function Roll(g: Game, face: int): Game {
    if g.isPlayerTurn then g.(userTurn := if face == 1 then 0 else g.userTurn + face)
    else g.(cpuTurn := if face == 1 then 0 else g.cpuTurn + face)
  }

  /** checkWin: the game is over once either total reaches 100. */
  function CheckWin(g: Game): Game {
    if g.cpuTotal >= WINNING_SCORE || g.userTotal >= WINNING_SCORE then g.(gameOver := true) else g
  }

  /** The message checkWin shows: the CPU whenever it reached 100, else the player. */
  function Winner(g: Game): Option<Player> {
    if g.cpuTotal >= WINNING_SCORE then Some(Cpu)
    else if g.userTotal >= WINNING_SCORE then Some(User)
    else None
  }

  /** holdScore: the current player banks the turn score, then checkWin. */
  function Hold(g: Game): Game {
    CheckWin(
      if g.isPlayerTurn then g.(userTotal := g.userTotal + g.userTurn, userTurn := 0)
      else g.(cpuTotal := g.cpuTotal + g.cpuTurn, cpuTurn := 0))
  }

  /** transitionToCpu: hold, and hand the turn to the CPU unless the game has ended. */
  function TransitionToCpu(g: Game): Game {
    var h := Hold(g);
    if h.gameOver then h else h.(isPlayerTurn := false)
  }

  /** One run of the CPU's runnable with the given face. */
  function CpuStep(g: Game, face: int): (Game, CpuNext) {
    var rolled := Roll(g, face);
    var after :=
      if face == 1 then rolled.(isPlayerTurn := true)
      else if rolled.cpuTurn >= CPU_HOLD_SCORE then Hold(rolled).(isPlayerTurn := true)
      else rolled;
    (after, if after.gameOver then Stop else if after.isPlayerTurn then PlayerTurn else RollAgain)
  }

  /** The roll button: roll; after a 1 the turn score is zeroed and transitionToCpu is
      scheduled (the second component). */
  function RollClick(g: Game, face: int): (Game, bool) {
    var rolled := Roll(g, face);
    if face == 1 then (rolled.(userTurn := 0), true) else (rolled, false)
  }

  /** resetGame as written: the chained assignment names userTotalScore twice and never
      userTurnScore, which keeps its value. */
  function ResetAsWritten(g: Game): Game {
    g.(userTotal := 0, cpuTurn := 0, cpuTotal := 0, isPlayerTurn := true, gameOver := false)
  }

  /** resetGame as intended: every score is zeroed. */
  function Reset(g: Game): Game {
    g.(userTotal := 0, userTurn := 0, cpuTurn := 0, cpuTotal := 0, isPlayerTurn := true,
       gameOver := false)
  }

  // ---------------------------------------------------------------------------
  // What the rules promise

  /** A roll changes only the current player's turn score: a 1 zeroes it, another face adds
      to it. */
  lemma RollEffect(g: Game, face: int)
    requires NonNegative(g) && IsFace(face)
    ensures var r := Roll(g, face);
            && r.userTotal == g.userTotal && r.cpuTotal == g.cpuTotal
            && r.isPlayerTurn == g.isPlayerTurn && r.gameOver == g.gameOver
            && (g.isPlayerTurn ==> r.cpuTurn == g.cpuTurn && (face == 1 <==> r.userTurn == 0))
            && (!g.isPlayerTurn ==> r.userTurn == g.userTurn && (face == 1 <==> r.cpuTurn == 0))
            && (face != 1 && g.isPlayerTurn ==> r.userTurn == g.userTurn + face)
            && (face != 1 && !g.isPlayerTurn ==> r.cpuTurn == g.cpuTurn + face)
  {
  }

  /** checkWin ends the game exactly when a total has reached 100, and never un-ends it. */
  lemma CheckWinIff(g: Game)
    ensures CheckWin(g).gameOver <==> g.gameOver || g.cpuTotal >= 100 || g.userTotal >= 100
    ensures CheckWin(g).(gameOver := g.gameOver) == g
    ensures Winner(g).Some? <==> g.cpuTotal >= 100 || g.userTotal >= 100
    ensures g.cpuTotal >= 100 ==> Winner(g) == Some(Cpu)
  {
  }

  /** Holding banks the current player's turn score and leaves the other player alone. */
  lemma HoldBanks(g: Game)
    ensures var h := Hold(g);
            && h.isPlayerTurn == g.isPlayerTurn
            && (g.isPlayerTurn ==> h.userTotal == g.userTotal + g.userTurn && h.userTurn == 0
                                   && h.cpuTotal == g.cpuTotal && h.cpuTurn == g.cpuTurn)
            && (!g.isPlayerTurn ==> h.cpuTotal == g.cpuTotal + g.cpuTurn && h.cpuTurn == 0
                                    && h.userTotal == g.userTotal && h.userTurn == g.userTurn)
            && (h.gameOver <==> g.gameOver || h.cpuTotal >= 100 || h.userTotal >= 100)
  {
  }

  /** transitionToCpu gives the turn to the CPU exactly when the hold did not end the game. */
  lemma TransitionEffect(g: Game)
    requires g.isPlayerTurn
    ensures var t := TransitionToCpu(g);
            && t.userTotal == g.userTotal + g.userTurn && t.userTurn == 0
            && (t.isPlayerTurn <==> t.gameOver)
            && (t.gameOver <==> g.gameOver || g.cpuTotal >= 100 || g.userTotal + g.userTurn >= 100)
  {
  }

  /** The CPU's step: a 1 hands over with nothing banked; otherwise it holds as soon as its
      turn score reaches 15, and rolls again below that unless the game is over. */
  lemma CpuStepEffect(g: Game, face: int)
    requires !g.isPlayerTurn && IsFace(face)
    ensures var (a, next) := CpuStep(g, face);
            && a.userTotal == g.userTotal && a.userTurn == g.userTurn
            && (face == 1 ==> a.cpuTurn == 0 && a.cpuTotal == g.cpuTotal && a.isPlayerTurn
                              && next == (if g.gameOver then Stop else PlayerTurn))
            && (face != 1 && g.cpuTurn + face >= CPU_HOLD_SCORE ==>
                  a.cpuTotal == g.cpuTotal + g.cpuTurn + face && a.cpuTurn == 0 && a.isPlayerTurn
                  && (next == Stop <==> a.gameOver))
            && (face != 1 && g.cpuTurn + face < CPU_HOLD_SCORE ==>
                  a == g.(cpuTurn := g.cpuTurn + face) && next == (if g.gameOver then Stop else RollAgain))
  {
  }

  /** Starting a CPU turn below the threshold, the CPU banks between 15 and 20 points when it
      holds, and is still below 15 whenever it rolls again. */
  lemma CpuHoldsBetween15And20(g: Game, face: int)
    requires !g.isPlayerTurn && IsFace(face) && 0 <= g.cpuTurn < CPU_HOLD_SCORE
    ensures var (a, next) := CpuStep(g, face);
            && (next == RollAgain ==> 0 <= a.cpuTurn < CPU_HOLD_SCORE && !a.isPlayerTurn)
            && (face != 1 && a.cpuTotal != g.cpuTotal ==>
                  CPU_HOLD_SCORE <= a.cpuTotal - g.cpuTotal <= CPU_HOLD_SCORE + 5)
  {
  }

  /** A roll of 1 by the player leaves a zero turn score behind, so the scheduled
      transitionToCpu banks nothing. */
  lemma PlayerRollOfOne(g: Game)
    requires g.isPlayerTurn
    ensures var (r, scheduled) := RollClick(g, 1);
            && scheduled && r.userTurn == 0
            && TransitionToCpu(r).userTotal == g.userTotal
  {
  }

  /** Every operation keeps scores non-negative and never lowers a total; only reset does. */
  lemma TotalsNeverDecrease(g: Game, face: int)
    requires NonNegative(g) && IsFace(face)
    ensures var ops := [Roll(g, face), Hold(g), TransitionToCpu(g), CpuStep(g, face).0, RollClick(g, face).0];
            forall i :: 0 <= i < |ops| ==>
              NonNegative(ops[i]) && ops[i].userTotal >= g.userTotal && ops[i].cpuTotal >= g.cpuTotal
  {
  }

  /** Once over, a game stays over through every operation but reset. */
  lemma GameOverStays(g: Game, face: int)
    requires g.gameOver
    ensures Roll(g, face).gameOver && Hold(g).gameOver && TransitionToCpu(g).gameOver
    ensures CpuStep(g, face).0.gameOver && CpuStep(g, face).1 == Stop && RollClick(g, face).0.gameOver
  {
  }

  /** The intended reset starts a new game from any state. */
  lemma ResetStartsOver(g: Game)
    ensures Reset(g) == Initial
  {
  }

  /** The reset as written is the intended one except that the player's turn score stays,
      so it starts a new game exactly when that turn score is already 0; and the player's
      first hold in the new game banks the kept turn score. */
  lemma ResetAsWrittenKeepsOnlyTurnScore(g: Game)
    ensures ResetAsWritten(g) == Reset(g).(userTurn := g.userTurn)
    ensures ResetAsWritten(g).userTurn == g.userTurn
    ensures ResetAsWritten(g) == Initial <==> g.userTurn == 0
    ensures Hold(ResetAsWritten(g)).userTotal == g.userTurn
  {
  }

  /** The reset as written carries the player's turn score into the new game: after rolling
      a 4 and resetting, a hold banks those 4 points in the new game. */
  lemma ResetAsWrittenKeepsTurnScore()
    ensures var g := Roll(Initial, 4);
            var restarted := ResetAsWritten(g);
            && restarted != Initial
            && Hold(restarted).userTotal == 4
  {
  }

  // ---------------------------------------------------------------------------
  // A whole CPU turn: the runnable re-posts itself until the turn or the game ends

  /** Where a run of CPU steps stops: the state, how many faces it rolled, and what the last
      step decided (RollAgain when the faces ran out first). */
  datatype TurnEnd = TurnEnd(game: Game, rolls: nat, next: CpuNext)

  predicate AllFaces(faces: seq<int>) {
    forall i :: 0 <= i < |faces| ==> IsFace(faces[i])
  }

  /** The CPU's runnable applied to the faces one at a time while it keeps re-posting. */
  function CpuTurn(g: Game, faces: seq<int>): TurnEnd
    decreases |faces|
  {
    if |faces| == 0 then TurnEnd(g, 0, RollAgain)
    else
      var (a, next) := CpuStep(g, faces[0]);
      if next == RollAgain then
        var t := CpuTurn(a, faces[1..]);
        t.(rolls := t.rolls + 1)
      else TurnEnd(a, 1, next)
  }

  /** A CPU turn that starts below the threshold is over after at most eight rolls: every face
      other than 1 adds at least 2. */
  lemma {:induction false} CpuTurnEnds(g: Game, faces: seq<int>)
    requires !g.isPlayerTurn && !g.gameOver && 0 <= g.cpuTurn < CPU_HOLD_SCORE && AllFaces(faces)
    requires 2 * |faces| >= CPU_HOLD_SCORE - g.cpuTurn
    ensures CpuTurn(g, faces).next != RollAgain && CpuTurn(g, faces).rolls <= |faces|
    decreases |faces|
  {
    var (a, next) := CpuStep(g, faces[0]);
    if next == RollAgain {
      CpuStepEffect(g, faces[0]);
      assert IsFace(faces[1..][0]) by { assert faces[1..][0] == faces[1]; }
      assert AllFaces(faces[1..]) by {
        forall i | 0 <= i < |faces[1..]| ensures IsFace(faces[1..][i]) {
          assert faces[1..][i] == faces[i + 1];
        }
      }
      CpuTurnEnds(a, faces[1..]);
    }
  }

  /** What a whole CPU turn does to the scores: the player's are untouched; a finished turn
      hands over with a zero turn score, having banked nothing (after a 1) or between 15 and
      20 points (after a hold); the game, still open with the player below 100, ends only by
      such a hold taking the CPU to 100. */
  lemma {:induction false} CpuTurnBanks(g: Game, faces: seq<int>)
    requires !g.isPlayerTurn && !g.gameOver && 0 <= g.cpuTurn < CPU_HOLD_SCORE && AllFaces(faces)
    requires g.userTotal < WINNING_SCORE
    ensures var t := CpuTurn(g, faces);
            && t.game.userTotal == g.userTotal && t.game.userTurn == g.userTurn
            && t.rolls <= |faces|
            && (t.next == RollAgain ==>
                  t.game.cpuTotal == g.cpuTotal && !t.game.isPlayerTurn && !t.game.gameOver
                  && 0 <= t.game.cpuTurn < CPU_HOLD_SCORE)
            && (t.next != RollAgain ==>
                  t.game.isPlayerTurn && t.game.cpuTurn == 0
                  && (t.game.cpuTotal == g.cpuTotal
                      || CPU_HOLD_SCORE <= t.game.cpuTotal - g.cpuTotal <= CPU_HOLD_SCORE + 5))
            && (t.next == Stop <==> t.game.gameOver)
            && (t.game.gameOver ==> t.game.cpuTotal >= WINNING_SCORE)
    decreases |faces|
  {
    if |faces| > 0 {
      var (a, next) := CpuStep(g, faces[0]);
      CpuStepEffect(g, faces[0]);
      if next == RollAgain {
        assert AllFaces(faces[1..]) by {
          forall i | 0 <= i < |faces[1..]| ensures IsFace(faces[1..][i]) {
            assert faces[1..][i] == faces[i + 1];
          }
        }
        CpuTurnBanks(a, faces[1..]);
      }
    }
  }

  // ---------------------------------------------------------------------------
  // The activity's fields and methods

  class MainActivity {
    var userTotalScore: int
    var userTurnScore: int
    var cpuTotalScore: int
    var cpuTurnScore: int
    var isPlayerTurn: bool
    var gameOver: bool

    function State(): Game
      reads this
    {
      Game(userTotalScore, userTurnScore, cpuTotalScore, cpuTurnScore, isPlayerTurn, gameOver)
    }

    /** The fields' initial values: zero scores, the player's turn, not over. */
    constructor ()
      ensures State() == Initial
    {
      userTotalScore, userTurnScore, cpuTotalScore, cpuTurnScore := 0, 0, 0, 0;
      isPlayerTurn := true;
      gameOver := false;
    }

    /** rollDice with the face drawn by random.nextInt(6) + 1 as a parameter. */
    method RollDice(face: int) returns (randInt: int)
      requires IsFace(face)
      modifies this
      ensures randInt == face && State() == Roll(old(State()), face)
    {
      randInt := face;
      var isRollOne := randInt == 1;
      if isPlayerTurn {
        userTurnScore := if isRollOne then 0 else userTurnScore + randInt;
      } else {
        cpuTurnScore := if isRollOne then 0 else cpuTurnScore + randInt;
      }
    }

    /** checkWin, returning the winner it announces. */
    method CheckWinner() returns (winner: Option<Player>)
      modifies this
      ensures State() == CheckWin(old(State())) && winner == Winner(old(State()))
    {
      winner := None;
      if cpuTotalScore >= WINNING_SCORE || userTotalScore >= WINNING_SCORE {
        if cpuTotalScore >= WINNING_SCORE {
          winner := Some(Cpu);
        } else {
          winner := Some(User);
        }
        gameOver := true;
      }
    }

    method HoldScore()
      modifies this
      ensures State() == Hold(old(State()))
    {
      if isPlayerTurn {
        userTotalScore := userTotalScore + userTurnScore;
        userTurnScore := 0;
      } else {
        cpuTotalScore := cpuTotalScore + cpuTurnScore;
        cpuTurnScore := 0;
      }
      var _ := CheckWinner();
    }

    /** resetGame as written: the chained assignment zeroes the totals and the CPU's turn
        score but leaves the player's turn score as it was. */
    method ResetGame()
      modifies this
      ensures State() == ResetAsWritten(old(State()))
    {
      userTotalScore, cpuTurnScore, cpuTotalScore := 0, 0, 0;
      isPlayerTurn := true;
      gameOver := false;
    }

    /** transitionToCpu; the result says whether the CPU's runnable is posted. */
    method TransitionToCpuTurn() returns (cpuStarts: bool)
      modifies this
      ensures State() == TransitionToCpu(old(State())) && cpuStarts == !State().gameOver
    {
      HoldScore();
      cpuStarts := false;
      if !gameOver {
        isPlayerTurn := false;
        cpuStarts := true;
      }
    }

    /** The CPU's runnable, with the face of its roll as a parameter. */
    method CpuRun(face: int) returns (next: CpuNext)
      requires IsFace(face)
      modifies this
      ensures (State(), next) == CpuStep(old(State()), face)
    {
      var diceRes := RollDice(face);

      if diceRes == 1 {
        isPlayerTurn := true;
      } else if cpuTurnScore >= CPU_HOLD_SCORE {
        HoldScore();
        isPlayerTurn := true;
      }

      if gameOver {
        return Stop;
      }

      if isPlayerTurn {
        next := PlayerTurn;
      } else {
        next := RollAgain;
      }
    }

    /** The CPU's runnable posted again and again, one face per run, until it stops posting
        itself or the faces run out. */
    method RunCpuTurn(faces: seq<int>) returns (rolls: nat, next: CpuNext)
      requires AllFaces(faces)
      modifies this
      ensures TurnEnd(State(), rolls, next) == CpuTurn(old(State()), faces)
    {
      rolls, next := 0, RollAgain;
      while rolls < |faces| && next == RollAgain
        invariant 0 <= rolls <= |faces|
        invariant next == RollAgain ==>
                    CpuTurn(old(State()), faces) == CpuTurn(State(), faces[rolls..]).(rolls := CpuTurn(State(), faces[rolls..]).rolls + rolls)
        invariant next != RollAgain ==> CpuTurn(old(State()), faces) == TurnEnd(State(), rolls, next)
        decreases |faces| - rolls
      {
        assert faces[rolls..][1..] == faces[rolls + 1..];
        next := CpuRun(faces[rolls]);
        rolls := rolls + 1;
      }
    }

    /** The roll button's handler; the result says whether transitionToCpu is scheduled. */
    method OnRollClick(face: int) returns (transitionScheduled: bool)
      requires IsFace(face)
      modifies this
      ensures (State(), transitionScheduled) == RollClick(old(State()), face)
    {
      var res := RollDice(face);
      transitionScheduled := false;
      if res == 1 {
        userTurnScore := 0;
        transitionScheduled := true;
      }
    }
  }
}
