/** The award engine, `getAwards` in App.tsx: two independent rule groups, each
    giving at most its first matching award, Group A's award ahead of Group B's. */
module Awards {
  import opened Types

  // Group A: tenure and attendance together.
  const King := Award("King Award", Gold, "5년 이상 + 100회 이상 참석")
  const Champion := Award("Champion Award", Silver, "3년 이상 + 70회 이상 참석")
  const Achiever := Award("Achiever Award", Bronze, "1년 이상 + 25회 이상 참석")
  // Group B: attendance alone, for members below a tenure ceiling.
  const Master := Award("Master", Gold, "100회 이상 참석 (Qualification)")
  const Mentor := Award("Mentor", Silver, "70회 이상 참석 (Qualification)")
  const Coach := Award("Coach", Bronze, "50회 이상 참석 (Qualification)")

  predicate InGroupA(a: Award) {
    a == King || a == Champion || a == Achiever
  }

  predicate InGroupB(a: Award) {
    a == Master || a == Mentor || a == Coach
  }

  /** One row of a rule table: the award is earned when the tenure is at least
      `minMonths`, below `monthsBelow` when that is given, and the attendance is
      at least `minCount`. */
  datatype Rule = Rule(minMonths: nat, monthsBelow: Option<nat>, minCount: nat, award: Award)

  predicate Applies(r: Rule, months: nat, count: nat) {
    months >= r.minMonths && count >= r.minCount &&
    (r.monthsBelow.Some? ==> months < r.monthsBelow.value)
  }

  const GroupA: seq<Rule> := [
    Rule(60, None, 100, King),
    Rule(36, None, 70, Champion),
    Rule(12, None, 25, Achiever)
  ]

  const GroupB: seq<Rule> := [
    Rule(0, Some(60), 100, Master),
    Rule(0, Some(36), 70, Mentor),
    Rule(0, Some(36), 50, Coach)
  ]

  /** The award of the first rule of the table that applies, if any does. */
  function FirstMatch(rules: seq<Rule>, months: nat, count: nat): (a: Option<Award>)
    ensures a.Some? <==> exists i :: 0 <= i < |rules| && Applies(rules[i], months, count)
    ensures a.Some? ==> exists i :: 0 <= i < |rules| && Applies(rules[i], months, count) &&
                                    a.value == rules[i].award &&
                                    forall j :: 0 <= j < i ==> !Applies(rules[j], months, count)
  {
    if rules == [] then None
    else if Applies(rules[0], months, count) then Some(rules[0].award)
    else
      var rest := FirstMatch(rules[1..], months, count);
      assert forall i :: 1 <= i < |rules| ==> rules[i] == rules[1..][i - 1];
      rest
  }

  function AsSeq(a: Option<Award>): seq<Award> {
    if a.Some? then [a.value] else []
  }

  /** The reference definition of the awards: the first match of the Group A table
      followed by the first match of the Group B table. */
  function AwardsFor(totalMonths: nat, attendanceCount: nat): seq<Award> {
    AsSeq(FirstMatch(GroupA, totalMonths, attendanceCount)) +
    AsSeq(FirstMatch(GroupB, totalMonths, attendanceCount))
  }

  /** The Group A table read as the ladder of App.tsx: King, else Champion, else Achiever. */
  lemma GroupALadder(m: nat, c: nat)
    ensures FirstMatch(GroupA, m, c) ==
      if m >= 60 && c >= 100 then Some(King)
      else if m >= 36 && c >= 70 then Some(Champion)
      else if m >= 12 && c >= 25 then Some(Achiever)
      else None
  {
    assert GroupA[1..] == [GroupA[1], GroupA[2]];
    assert GroupA[1..][1..] == [GroupA[2]];
    assert GroupA[1..][1..][1..] == [];
  }

  /** The Group B table read as the ladder of App.tsx: Master, else Mentor, else Coach. */
  lemma GroupBLadder(m: nat, c: nat)
    ensures FirstMatch(GroupB, m, c) ==
      if c >= 100 && m < 60 then Some(Master)
      else if c >= 70 && m < 36 then Some(Mentor)
      else if c >= 50 && m < 36 then Some(Coach)
      else None
  {
    assert GroupB[1..] == [GroupB[1], GroupB[2]];
    assert GroupB[1..][1..] == [GroupB[2]];
    assert GroupB[1..][1..][1..] == [];
  }

  /** `getAwards`: the two if/else-if ladders, each pushing at most one award. */
  method GetAwards(totalMonths: nat, attendanceCount: nat) returns (awards: seq<Award>)
    ensures awards == AwardsFor(totalMonths, attendanceCount)
  {
    awards := [];

    if totalMonths >= 60 && attendanceCount >= 100 {
      awards := awards + [King];
    } else if totalMonths >= 36 && attendanceCount >= 70 {
      awards := awards + [Champion];
    } else if totalMonths >= 12 && attendanceCount >= 25 {
      awards := awards + [Achiever];
    }

    if attendanceCount >= 100 && totalMonths < 60 {
      awards := awards + [Master];
    } else if attendanceCount >= 70 && totalMonths < 36 {
      awards := awards + [Mentor];
    } else if attendanceCount >= 50 && totalMonths < 36 {
      awards := awards + [Coach];
    }
    GroupALadder(totalMonths, attendanceCount);
    GroupBLadder(totalMonths, attendanceCount);
  }

  /** At most two awards: at most one from each group, a Group A award first. */
  lemma AwardsShape(totalMonths: nat, attendanceCount: nat)
    ensures var r := AwardsFor(totalMonths, attendanceCount);
      |r| <= 2 &&
      (forall i :: 0 <= i < |r| ==> InGroupA(r[i]) || InGroupB(r[i])) &&
      (forall i, j :: 0 <= i < j < |r| ==> InGroupA(r[i]) && InGroupB(r[j]))
  {
    var a := FirstMatch(GroupA, totalMonths, attendanceCount);
    var b := FirstMatch(GroupB, totalMonths, attendanceCount);
    assert a.Some? ==> InGroupA(a.value);
    assert b.Some? ==> InGroupB(b.value);
  }

  /** Group A keeps its first match: each award is given exactly when its own
      thresholds hold and those of every award above it do not. */
  lemma GroupAChoice(totalMonths: nat, attendanceCount: nat)
    ensures var r, m, c := AwardsFor(totalMonths, attendanceCount), totalMonths, attendanceCount;
      (King in r <==> m >= 60 && c >= 100) &&
      (Champion in r <==> !(m >= 60 && c >= 100) && m >= 36 && c >= 70) &&
      (Achiever in r <==> !(m >= 60 && c >= 100) && !(m >= 36 && c >= 70) && m >= 12 && c >= 25)
  {
    var m, c := totalMonths, attendanceCount;
    var a := FirstMatch(GroupA, m, c);
    var b := FirstMatch(GroupB, m, c);
    assert b.Some? ==> InGroupB(b.value);
    GroupALadder(m, c);
  }

  /** Group B is capped by tenure: Master needs fewer than 60 months, Mentor and
      Coach fewer than 36, and again the first match wins. */
  lemma GroupBChoice(totalMonths: nat, attendanceCount: nat)
    ensures var r, m, c := AwardsFor(totalMonths, attendanceCount), totalMonths, attendanceCount;
      (Master in r <==> c >= 100 && m < 60) &&
      (Mentor in r <==> !(c >= 100 && m < 60) && c >= 70 && m < 36) &&
      (Coach in r <==> !(c >= 100 && m < 60) && !(c >= 70 && m < 36) && c >= 50 && m < 36)
  {
    var m, c := totalMonths, attendanceCount;
    var a := FirstMatch(GroupA, m, c);
    var b := FirstMatch(GroupB, m, c);
    assert a.Some? ==> InGroupA(a.value);
    GroupBLadder(m, c);
  }

  /** Each award carries its fixed tier: King and Master gold, Champion and Mentor
      silver, Achiever and Coach bronze. */
  lemma AwardTiers(totalMonths: nat, attendanceCount: nat)
    ensures forall a :: a in AwardsFor(totalMonths, attendanceCount) ==>
      (a.tier == Gold <==> a.name in {"King Award", "Master"}) &&
      (a.tier == Silver <==> a.name in {"Champion Award", "Mentor"}) &&
      (a.tier == Bronze <==> a.name in {"Achiever Award", "Coach"})
  {
    var r := AwardsFor(totalMonths, attendanceCount);
    AwardsShape(totalMonths, attendanceCount);
    forall a | a in r
      ensures (a.tier == Gold <==> a.name in {"King Award", "Master"}) &&
              (a.tier == Silver <==> a.name in {"Champion Award", "Mentor"}) &&
              (a.tier == Bronze <==> a.name in {"Achiever Award", "Coach"})
    {
      var i :| 0 <= i < |r| && r[i] == a;
      assert InGroupA(a) || InGroupB(a);
    }
  }

  /** No award at all exactly when no rule of either group applies. */
  lemma NoAwards(totalMonths: nat, attendanceCount: nat)
    ensures var m, c := totalMonths, attendanceCount;
      AwardsFor(m, c) == [] <==>
        !(m >= 12 && c >= 25) && !(c >= 100 && m < 60) && !(c >= 50 && m < 36)
  {
    GroupAChoice(totalMonths, attendanceCount);
    GroupBChoice(totalMonths, attendanceCount);
  }

  /** Each Group A threshold is inclusive: exactly at it, its award is given. */
  lemma BoundaryExamples()
    ensures AwardsFor(60, 100) == [King]
    ensures AwardsFor(36, 70) == [Champion]
    ensures AwardsFor(12, 25) == [Achiever]
  {
    assert AwardsFor(60, 100) == [King] by { GroupALadder(60, 100); GroupBLadder(60, 100); }
    assert AwardsFor(36, 70) == [Champion] by { GroupALadder(36, 70); GroupBLadder(36, 70); }
    assert AwardsFor(12, 25) == [Achiever] by { GroupALadder(12, 25); GroupBLadder(12, 25); }
  }

  /** The Group B tenure ceiling is strict, and both groups can give an award together. */
  lemma CeilingExamples()
    ensures AwardsFor(59, 100) == [Champion, Master]
    ensures AwardsFor(70, 120) == [King]
    ensures AwardsFor(40, 110) == [Champion, Master]
    ensures AwardsFor(0, 1) == []
  {
    assert AwardsFor(59, 100) == [Champion, Master] by { GroupALadder(59, 100); GroupBLadder(59, 100); assert [Champion] + [Master] == [Champion, Master]; }
    assert AwardsFor(70, 120) == [King] by { GroupALadder(70, 120); GroupBLadder(70, 120); }
    assert AwardsFor(40, 110) == [Champion, Master] by { GroupALadder(40, 110); GroupBLadder(40, 110); assert [Champion] + [Master] == [Champion, Master]; }
    assert AwardsFor(0, 1) == [] by { GroupALadder(0, 1); GroupBLadder(0, 1); }
  }
}
