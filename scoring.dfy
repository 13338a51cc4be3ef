/**
 * Scoring and levelling: how score, level and the fall interval follow from
 * the lines cleared by one lock.
 */
module Scoring {

  /** Score, level and the auto-fall interval in milliseconds. */
  datatype Progress = Progress(score: int, level: int, fallSpeed: int)

  /** The values a new session starts with. */
  const START: Progress := Progress(0, 1, 1000)

  /** The fall interval the code assigns after a clear: 100 ms less per level, never below 100 ms. */
  function FallInterval(level: int): (ms: int)
  {
    if 1000 - level * 100 > 100 then 1000 - level * 100 else 100
  }

  /**
   * What holds of the progress throughout a session: the level follows the score,
   * and the fall interval is the initial 1000 ms until a first clear raises the
   * score, then the level's interval.
   */
  predicate Consistent(p: Progress)
  {
    p.score >= 0 && p.level == 1 + p.score / 1000 &&
    p.fallSpeed == if p.score == 0 then 1000 else FallInterval(p.level)
  }

  /** The update after a lock that cleared `lines` rows; nothing changes when none was cleared. */
  function Rescore(p: Progress, lines: nat): (q: Progress)
  {
    if lines == 0 then p
    else
      var score := p.score + 100 * lines * p.level;
      var level := 1 + score / 1000;
      Progress(score, level, FallInterval(level))
  }

  /**
   * A consistent progress stays consistent; the score, computed with the old
   * level, never goes down and strictly rises when a line was cleared; the level
   * never goes down; the fall interval never grows and never drops below 100 ms.
   */
  lemma RescoreSpec(p: Progress, lines: nat)
    requires Consistent(p)
    ensures var q := Rescore(p, lines);
      Consistent(q) && q.score >= p.score && q.level >= p.level &&
      100 <= q.fallSpeed <= p.fallSpeed <= 1000 &&
      (lines > 0 ==> q.score == p.score + 100 * lines * p.level > p.score)
  {
  }

  /** From a new session, two lines give 200 points at level 1 and a 900 ms interval. */
  lemma RescoreTwoLinesFromStart()
    ensures Rescore(START, 2) == Progress(200, 1, 900)
  {
  }

  /** From 950 points at level 1, one line gives 1050 points, level 2 and an 800 ms interval. */
  lemma RescoreReachesLevelTwo()
    ensures Consistent(Progress(950, 1, 900))
    ensures Rescore(Progress(950, 1, 900), 1) == Progress(1050, 2, 800)
  {
  }
}
