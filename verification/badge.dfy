/**
 * The achievement badges of the leaderboard and the score thresholds that
 * grant them (entity/Badge.java, with the thresholds applied in
 * service/UserService.java).
 */
module Badges {

  /** The three badge kinds; a user holds a set of them. */
  datatype Badge = CodeNinja | CodeChamp | CodeMaster

  /** Every badge kind there is. */
  const AllBadges: set<Badge> := {CodeNinja, CodeChamp, CodeMaster}

  /** The lowest score that grants badge `b`. */
  function Threshold(b: Badge): (t: int)
    ensures 1 <= t <= 60
  {
    match b
    case CodeNinja => 1
    case CodeChamp => 30
    case CodeMaster => 60
  }

  /**
   * The badges a score grants: every kind whose threshold the score reaches.
   * The service adds these to a user's badges on every score update.
   */
  function Earned(score: int): (r: set<Badge>)
    ensures r <= AllBadges
    ensures CodeNinja in r <==> score >= 1
    ensures CodeChamp in r <==> score >= 30
    ensures CodeMaster in r <==> score >= 60
  {
    set b | b in AllBadges && Threshold(b) <= score
  }

  /** There are exactly three badge kinds and `AllBadges` lists each of them. */
  lemma ExactlyThreeKinds()
    ensures forall b: Badge :: b in AllBadges
    ensures |AllBadges| == 3
  {
    forall b: Badge ensures b in AllBadges {
      match b
      case CodeNinja =>
      case CodeChamp =>
      case CodeMaster =>
    }
    assert AllBadges == {CodeNinja} + {CodeChamp} + {CodeMaster};
  }

  /** The thresholds strictly increase along the declaration order. */
  lemma ThresholdsIncrease()
    ensures Threshold(CodeNinja) < Threshold(CodeChamp) < Threshold(CodeMaster)
  {
  }

  /** A score that earns a higher badge also earns every lower one. */
  lemma EarnedIsDownwardClosed(score: int)
    ensures CodeMaster in Earned(score) ==> CodeChamp in Earned(score)
    ensures CodeChamp in Earned(score) ==> CodeNinja in Earned(score)
  {
  }

  /** A higher score earns at least the badges a lower score earns. */
  lemma EarnedMonotone(s: int, t: int)
    requires s <= t
    ensures Earned(s) <= Earned(t)
  {
  }

  /**
   * The threshold table, band by band: below 1 nothing, from 1 the ninja
   * badge, from 30 also the champion badge, from 60 all three.
   */
  lemma EarnedByBand(score: int)
    ensures score < 1 ==> Earned(score) == {}
    ensures 1 <= score < 30 ==> Earned(score) == {CodeNinja}
    ensures 30 <= score < 60 ==> Earned(score) == {CodeNinja, CodeChamp}
    ensures 60 <= score ==> Earned(score) == AllBadges
  {
    var r := Earned(score);
    if score < 1 {
      assert forall b :: b !in r;
    } else if score < 30 {
      assert forall b :: b in r <==> b == CodeNinja;
    } else if score < 60 {
      assert forall b :: b in r <==> b == CodeNinja || b == CodeChamp;
    } else {
      assert forall b :: b in r <==> b in AllBadges;
    }
  }
}
