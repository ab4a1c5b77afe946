/** Clients of the model: an employee in a department and a club, evaluated
    at the end of a year, and what each roster holds afterwards. */
module Scenarios {
  import opened LayoffRules
  import opened Lists
  import opened Staffing

  /** A fresh department and a fresh club, each holding only `e`, in that
      order of registration. */
  method Enrol(e: Employee) returns (d: Department, c: Club)
    requires e.subscribers == []
    modifies e`subscribers
    ensures fresh(d) && fresh(c)
    ensures d.staff == [e] && c.members == [e]
    ensures e.subscribers == [StaffRemoval(d), MemberRemoval(c)]
  {
    d := new Department();
    c := new Club();
    d.AddStaff(e);
    c.AddMember(e);
  }

  /** What the two handlers of an employee enrolled as above do with a
      roster that holds it once. */
  lemma OutcomeOfAnnouncement(e: Employee, d: Department, c: Club, cause: LayOffCause)
    ensures AfterHandling(StaffRemoval(d), [e], e, multiset([StaffRemoval(d), MemberRemoval(c)])[StaffRemoval(d)], cause) == []
    ensures AfterHandling(MemberRemoval(c), [e], e, multiset([StaffRemoval(d), MemberRemoval(c)])[MemberRemoval(c)], cause)
            == if cause == VacationStockNegative then [] else [e]
  {
    assert multiset([StaffRemoval(d), MemberRemoval(c)])[StaffRemoval(d)] == 1;
    assert multiset([StaffRemoval(d), MemberRemoval(c)])[MemberRemoval(c)] == 1;
    assert RemoveFirstTimes([e], e, 1) == [];
  }

  /** A negative vacation stock is announced whatever the age, and both the
      department and the club drop the employee. */
  method NegativeStockLeavesBoth() returns (cause: Option<LayOffCause>, staff: seq<Employee>, members: seq<Employee>)
    ensures cause == Some(VacationStockNegative)
    ensures staff == [] && members == []
  {
    var e := new Employee.BoardMember(1950, -5);
    var d, c := Enrol(e);
    cause := e.EndOfYearOperation(2024);
    OutcomeOfAnnouncement(e, d, c, cause.value);
    assert e.subscribers[0] == StaffRemoval(d) && e.subscribers[1] == MemberRemoval(c);
    staff, members := d.staff, c.members;
  }

  /** Age above sixty: the department drops the employee, the club keeps it. */
  method AgeLeavesDepartmentOnly() returns (cause: Option<LayOffCause>, staff: seq<Employee>, members: seq<Employee>, e: Employee)
    ensures cause == Some(AgeAboveSixty)
    ensures staff == [] && members == [e]
  {
    e := new Employee.BoardMember(1950, 10);
    var d, c := Enrol(e);
    cause := e.EndOfYearOperation(2024);
    OutcomeOfAnnouncement(e, d, c, cause.value);
    assert e.subscribers[0] == StaffRemoval(d) && e.subscribers[1] == MemberRemoval(c);
    staff, members := d.staff, c.members;
  }

  /** A salesperson below quota, called as a salesperson: the target is not
      achieved, whatever the stock and age; only the department drops it. */
  method TargetMissedLeavesDepartmentOnly() returns (cause: Option<LayOffCause>, staff: seq<Employee>, members: seq<Employee>, e: Employee)
    ensures cause == Some(SalesTargetNotAchieved)
    ensures staff == [] && members == [e]
  {
    e := new Employee.SalesPerson(1990, -10, 50);
    var d, c := Enrol(e);
    cause := e.SalesEndOfYearOperation(2024);
    OutcomeOfAnnouncement(e, d, c, cause.value);
    assert e.subscribers[0] == StaffRemoval(d) && e.subscribers[1] == MemberRemoval(c);
    staff, members := d.staff, c.members;
  }

  /** A salesperson who met the quota falls through to the base rule: a
      negative stock then drops it from both rosters. */
  method QuotaMetFallsThrough() returns (cause: Option<LayOffCause>, staff: seq<Employee>, members: seq<Employee>)
    ensures cause == Some(VacationStockNegative)
    ensures staff == [] && members == []
  {
    var e := new Employee.SalesPerson(1990, -1, 150);
    var d, c := Enrol(e);
    cause := e.SalesEndOfYearOperation(2024);
    OutcomeOfAnnouncement(e, d, c, cause.value);
    assert e.subscribers[0] == StaffRemoval(d) && e.subscribers[1] == MemberRemoval(c);
    staff, members := d.staff, c.members;
  }

  /** A resignation: the department drops the board member, the club keeps it. */
  method ResignationLeavesDepartmentOnly() returns (staff: seq<Employee>, members: seq<Employee>, e: Employee)
    ensures staff == [] && members == [e]
  {
    e := new Employee.BoardMember(1980, 10);
    var d, c := Enrol(e);
    e.Resign();
    OutcomeOfAnnouncement(e, d, c, Resignation);
    assert e.subscribers[0] == StaffRemoval(d) && e.subscribers[1] == MemberRemoval(c);
    staff, members := d.staff, c.members;
  }

  /** The salesperson rule hides the base rule rather than overriding it: a
      salesperson below quota evaluated through the base entry point is judged
      on stock and age alone and is not laid off. */
  method HiddenRuleNotUsedThroughBase() returns (throughBase: Option<LayOffCause>, throughSales: Option<LayOffCause>)
    ensures throughBase == None
    ensures throughSales == Some(SalesTargetNotAchieved)
  {
    var e := new Employee.SalesPerson(1990, 10, 50);
    throughBase := e.EndOfYearOperation(2024);
    throughSales := e.SalesEndOfYearOperation(2024);
  }

  lemma MiddleEntryLeaves(a: Employee, b: Employee, f: Employee, d: Department)
    requires a != b && f != b
    ensures AfterHandling(StaffRemoval(d), [a, b, f], b, multiset([StaffRemoval(d)])[StaffRemoval(d)], SalesTargetNotAchieved) == [a, f]
  {
    assert RemoveFirstTimes([a, b, f], b, 1) == RemoveFirst([a, b, f], b);
    assert [a, b, f][1..] == [b, f];
  }

  /** Only the first occurrence of the sender leaves the department; the other
      staff keep their order. */
  method OnlySenderLeaves() returns (staff: seq<Employee>, a: Employee, b: Employee, f: Employee)
    ensures staff == [a, f]
  {
    a := new Employee.SalesPerson(1990, 10, 150);
    b := new Employee.SalesPerson(1990, 10, 50);
    f := new Employee.BoardMember(1980, 10);
    var d := new Department();
    d.AddStaff(a);
    d.AddStaff(b);
    d.AddStaff(f);
    assert d.staff == [a, b, f];
    var cause := b.SalesEndOfYearOperation(2024);
    MiddleEntryLeaves(a, b, f, d);
    assert b.subscribers[0] == StaffRemoval(d);
    staff := d.staff;
  }

  /** Evaluation only reads the employee: running it a second time, after the
      rosters have reacted, finds the same cause. */
  method EvaluationRepeats(e: Employee, currentYear: int) returns (first: Option<LayOffCause>, second: Option<LayOffCause>)
    modifies e.Rosters()
    ensures first == second == BaseEvaluation(e.vacationStock, e.birthYear, currentYear)
    ensures unchanged(e)
  {
    first := e.EndOfYearOperation(currentYear);
    second := e.EndOfYearOperation(currentYear);
  }
}
