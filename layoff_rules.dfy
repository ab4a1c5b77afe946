/** The end-of-year layoff decision: an ordered, first-match list of
    conditions that yields at most one cause. */
module LayoffRules {

  /** The reasons for which an employee announces a layoff. */
  datatype LayOffCause = VacationStockNegative | AgeAboveSixty | SalesTargetNotAchieved | Resignation

  datatype Option<T> = None | Some(value: T)

  /** The fixed quota a salesperson's achieved target is checked against. */
  const SalesQuota: int := 100

  /** An age (in whole years of difference) above which the base rule lays off. */
  const AgeLimit: int := 60

  /** The rule every employee is evaluated by when called through the base type:
      a negative vacation stock first, then the age, computed as the difference
      of the current year and the birth year only. */
  function BaseEvaluation(vacationStock: int, birthYear: int, currentYear: int): (r: Option<LayOffCause>)
    ensures r == Some(VacationStockNegative) <==> vacationStock < 0
    ensures r == Some(AgeAboveSixty) <==> vacationStock >= 0 && currentYear - birthYear > AgeLimit
    ensures r == None <==> vacationStock >= 0 && currentYear - birthYear <= AgeLimit
    ensures r != Some(SalesTargetNotAchieved) && r != Some(Resignation)
  {
    if vacationStock < 0 then Some(VacationStockNegative)
    else if currentYear - birthYear > AgeLimit then Some(AgeAboveSixty)
    else None
  }

  /** Whether a salesperson's achieved target reaches the given quota. */
  function CheckTarget(achievedTarget: int, quota: int): bool
  {
    achievedTarget >= quota
  }

  /** The rule a salesperson is evaluated by when called through the salesperson
      type: an unmet quota first, and only then the base rule. */
  function SalesEvaluation(vacationStock: int, birthYear: int, achievedTarget: int, currentYear: int): (r: Option<LayOffCause>)
    ensures r == Some(SalesTargetNotAchieved) <==> achievedTarget < SalesQuota
    ensures achievedTarget >= SalesQuota ==> r == BaseEvaluation(vacationStock, birthYear, currentYear)
    ensures r != Some(Resignation)
  {
    if !CheckTarget(achievedTarget, SalesQuota) then Some(SalesTargetNotAchieved)
    else BaseEvaluation(vacationStock, birthYear, currentYear)
  }

  // A reference formulation: the rules as a table of (condition, cause) rows
  // scanned from the top, the first row whose condition holds deciding.

  /** What an evaluation looks at: the employee's fields and the current year. */
  datatype Snapshot = Snapshot(vacationStock: int, birthYear: int, achievedTarget: int, currentYear: int)

  datatype Condition = StockBelowZero | AgeAbove(limit: int) | TargetBelow(quota: int)

  datatype Rule = Rule(condition: Condition, cause: LayOffCause)

  predicate Holds(c: Condition, s: Snapshot)
  {
    match c
    case StockBelowZero => s.vacationStock < 0
    case AgeAbove(limit) => s.currentYear - s.birthYear > limit
    case TargetBelow(quota) => s.achievedTarget < quota
  }

  /** The cause of the first row whose condition holds, if any does. */
  function FirstMatch(rules: seq<Rule>, s: Snapshot): (r: Option<LayOffCause>)
    ensures r.None? <==> forall k :: 0 <= k < |rules| ==> !Holds(rules[k].condition, s)
    ensures r.Some? ==> exists k :: 0 <= k < |rules| && Holds(rules[k].condition, s) && rules[k].cause == r.value
                                    && forall j :: 0 <= j < k ==> !Holds(rules[j].condition, s)
  {
    if rules == [] then None
    else if Holds(rules[0].condition, s) then Some(rules[0].cause)
    else
      var r := FirstMatch(rules[1..], s);
      assert forall k :: 1 <= k < |rules| ==> rules[k] == rules[1..][k - 1];
      r
  }

  const BaseRules: seq<Rule> := [Rule(StockBelowZero, VacationStockNegative), Rule(AgeAbove(AgeLimit), AgeAboveSixty)]

  /** The salesperson's table is the base table with the quota row put in front. */
  const SalesRules: seq<Rule> := [Rule(TargetBelow(SalesQuota), SalesTargetNotAchieved)] + BaseRules

  /** The quota check is the negation of the quota row of the table. */
  lemma CheckTargetIsQuotaRow(s: Snapshot, quota: int)
    ensures CheckTarget(s.achievedTarget, quota) <==> !Holds(TargetBelow(quota), s)
  {
  }

  /** The quota check decides the salesperson rule: failing it is exactly
      the announcement of an unmet target, and passing it leaves the
      decision to the base rule. */
  lemma CheckTargetDecidesSalesRule(vacationStock: int, birthYear: int, achievedTarget: int, currentYear: int)
    ensures !CheckTarget(achievedTarget, SalesQuota) <==>
            SalesEvaluation(vacationStock, birthYear, achievedTarget, currentYear) == Some(SalesTargetNotAchieved)
    ensures CheckTarget(achievedTarget, SalesQuota) ==>
            SalesEvaluation(vacationStock, birthYear, achievedTarget, currentYear) == BaseEvaluation(vacationStock, birthYear, currentYear)
  {
  }

  lemma BaseEvaluationIsFirstMatch(s: Snapshot)
    ensures BaseEvaluation(s.vacationStock, s.birthYear, s.currentYear) == FirstMatch(BaseRules, s)
  {
  }

  lemma SalesEvaluationIsFirstMatch(s: Snapshot)
    ensures SalesEvaluation(s.vacationStock, s.birthYear, s.achievedTarget, s.currentYear) == FirstMatch(SalesRules, s)
  {
    assert SalesRules[1..] == BaseRules;
    BaseEvaluationIsFirstMatch(s);
  }
}
