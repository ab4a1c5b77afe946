/** Employees, the rosters that hold them, and the layoff notification that
    connects the two: an employee keeps an ordered list of the handlers
    registered with it, and announcing a layoff runs every one of them, in
    registration order, once per registration. */
module Staffing {
  import opened LayoffRules
  import opened Lists

  /** The concrete kinds of employee; the base kind itself is abstract. */
  datatype Kind = SalesPersonKind | BoardMemberKind

  /** A registered layoff handler: the removal handler of one department or of
      one club, bound to that roster. */
  datatype Subscriber = StaffRemoval(dept: Department) | MemberRemoval(club: Club)
  {
    /** The roster whose state the handler changes. */
    function Roster(): object
    {
      match this
      case StaffRemoval(d) => d
      case MemberRemoval(c) => c
    }
  }

  /** The list of employees kept by the roster behind handler `s`. */
  function RosterList(s: Subscriber): seq<Employee>
    reads s.Roster()
  {
    match s
    case StaffRemoval(d) => d.staff
    case MemberRemoval(c) => c.members
  }

  /** The lists of the rosters behind each of `subs`, position by position. */
  ghost function RosterLists(subs: seq<Subscriber>): (r: seq<seq<Employee>>)
    reads set s | s in subs :: s.Roster()
    ensures |r| == |subs| && forall j :: 0 <= j < |subs| ==> r[j] == RosterList(subs[j])
  {
    seq(|subs|, j requires 0 <= j < |subs| reads set s | s in subs :: s.Roster() => RosterList(subs[j]))
  }

  /** The list a roster keeps after `k` runs of its handler `s` for a layoff
      of `e` with `cause`, starting from `l`: a department removes `e` `k`
      times over whatever the cause; a club does so only when the cause is a
      negative vacation stock, and otherwise keeps its members as they were. */
  function AfterHandling(s: Subscriber, l: seq<Employee>, e: Employee, k: nat, cause: LayOffCause): seq<Employee>
  {
    if s.StaffRemoval? || cause == VacationStockNegative then RemoveFirstTimes(l, e, k) else l
  }

  /** The roster lists, position by position along `subs`, once `e` has
      announced `cause` to every handler of `subs`: each roster has taken as
      many runs of its handler as the handler is registered. */
  function Delivered(subs: seq<Subscriber>, lists: seq<seq<Employee>>, e: Employee, cause: LayOffCause): (r: seq<seq<Employee>>)
    requires |lists| == |subs|
    ensures |r| == |subs|
  {
    seq(|subs|, j requires 0 <= j < |subs| => AfterHandling(subs[j], lists[j], e, multiset(subs)[subs[j]], cause))
  }

  /** What one announcement of `cause` by `e` has done to the rosters whose
      handlers `subs` lists. */
  twostate predicate Notified(e: Employee, subs: seq<Subscriber>, cause: LayOffCause)
    reads set s | s in subs :: s.Roster()
  {
    RosterLists(subs) == Delivered(subs, old(RosterLists(subs)), e, cause)
  }

  /** How many times `s` occurs among the first `n` registrations. */
  function Registrations(subs: seq<Subscriber>, n: nat, s: Subscriber): nat
    requires n <= |subs|
  {
    if n == 0 then 0 else Registrations(subs, n - 1, s) + if subs[n - 1] == s then 1 else 0
  }

  lemma {:induction false} RegistrationsCount(subs: seq<Subscriber>, n: nat, s: Subscriber)
    requires n <= |subs|
    ensures Registrations(subs, n, s) == multiset(subs[..n])[s]
  {
    if n > 0 {
      RegistrationsCount(subs, n - 1, s);
      assert subs[..n] == subs[..n - 1] + [subs[n - 1]];
    }
  }

  /** The roster lists once the first `n` registered handlers have run,
      starting from `lists`. */
  function Progress(subs: seq<Subscriber>, lists: seq<seq<Employee>>, e: Employee, n: nat, cause: LayOffCause): (r: seq<seq<Employee>>)
    requires |lists| == |subs| && n <= |subs|
    ensures |r| == |subs|
  {
    seq(|subs|, j requires 0 <= j < |subs| => AfterHandling(subs[j], lists[j], e, Registrations(subs, n, subs[j]), cause))
  }

  /** The roster lists after one run of handler `s`: the lists of its roster
      take the run, the others stay as they are. */
  function OneRun(subs: seq<Subscriber>, lists: seq<seq<Employee>>, s: Subscriber, e: Employee, cause: LayOffCause): (r: seq<seq<Employee>>)
    requires |lists| == |subs|
    ensures |r| == |subs|
  {
    seq(|subs|, j requires 0 <= j < |subs| => if subs[j] == s then AfterHandling(s, lists[j], e, 1, cause) else lists[j])
  }

  /** Before any handler has run, every roster list is as it was. */
  lemma ProgressAtStart(subs: seq<Subscriber>, lists: seq<seq<Employee>>, e: Employee, cause: LayOffCause)
    requires |lists| == |subs|
    ensures Progress(subs, lists, e, 0, cause) == lists
  {
  }

  /** Running the handler at position `i` takes the roster lists from the
      progress after `i` handlers to the progress after `i + 1`. */
  lemma ProgressStep(subs: seq<Subscriber>, lists: seq<seq<Employee>>, e: Employee, i: nat, cause: LayOffCause,
                     current: seq<seq<Employee>>, next: seq<seq<Employee>>)
    requires |lists| == |subs| && i < |subs|
    requires current == Progress(subs, lists, e, i, cause)
    requires next == OneRun(subs, current, subs[i], e, cause)
    ensures next == Progress(subs, lists, e, i + 1, cause)
  {
    var after := Progress(subs, lists, e, i + 1, cause);
    forall j | 0 <= j < |subs|
      ensures next[j] == after[j]
    {
      var k := Registrations(subs, i, subs[j]);
      assert current[j] == AfterHandling(subs[j], lists[j], e, k, cause);
      if subs[j] == subs[i] {
        assert next[j] == AfterHandling(subs[j], current[j], e, 1, cause);
        AfterHandlingOnceMore(subs[j], lists[j], e, k, cause);
      } else {
        assert next[j] == current[j];
      }
    }
  }

  /** Once every handler has run, each has run as often as it is registered. */
  lemma ProgressComplete(subs: seq<Subscriber>, lists: seq<seq<Employee>>, e: Employee, cause: LayOffCause)
    requires |lists| == |subs|
    ensures Progress(subs, lists, e, |subs|, cause) == Delivered(subs, lists, e, cause)
  {
    assert subs[..|subs|] == subs;
    forall j | 0 <= j < |subs|
      ensures Registrations(subs, |subs|, subs[j]) == multiset(subs)[subs[j]]
    {
      RegistrationsCount(subs, |subs|, subs[j]);
    }
  }

  /** One more run of a handler adds one more removal. */
  lemma AfterHandlingOnceMore(s: Subscriber, l: seq<Employee>, e: Employee, k: nat, cause: LayOffCause)
    ensures AfterHandling(s, AfterHandling(s, l, e, k, cause), e, 1, cause) == AfterHandling(s, l, e, k + 1, cause)
  {
    var once := RemoveFirstTimes(l, e, k);
    assert RemoveFirstTimes(once, e, 1) == RemoveFirst(once, e);
  }

  /** A handler that acts for the cause and runs at least as often as the
      employee occurs in its roster takes every occurrence out, and leaves
      the other entries in their order. */
  lemma {:induction false} AfterHandlingDropsEveryOccurrence(s: Subscriber, l: seq<Employee>, e: Employee, k: nat, cause: LayOffCause)
    requires s.StaffRemoval? || cause == VacationStockNegative
    requires multiset(l)[e] <= k
    ensures AfterHandling(s, l, e, k, cause) == Without(l, e)
    ensures e !in AfterHandling(s, l, e, k, cause)
  {
    EnoughRemovalsDropAll(l, e, k);
    WithoutDropsExactlyX(l, e);
  }

  /** An announcement by `e` to handlers `subs`, when no roster holds `e`
      more often than its handler is registered (as adding an employee
      does, one entry and one registration each): every department, and
      every club when the stock is negative, no longer holds `e` and keeps
      its other entries in order; any other club is left as it was. */
  lemma DeliveredRemovesSender(subs: seq<Subscriber>, lists: seq<seq<Employee>>, e: Employee, cause: LayOffCause)
    requires |lists| == |subs|
    requires forall j :: 0 <= j < |subs| ==> multiset(lists[j])[e] <= multiset(subs)[subs[j]]
    ensures forall j :: 0 <= j < |subs| && (subs[j].StaffRemoval? || cause == VacationStockNegative) ==>
              Delivered(subs, lists, e, cause)[j] == Without(lists[j], e) && e !in Delivered(subs, lists, e, cause)[j]
    ensures forall j :: 0 <= j < |subs| && subs[j].MemberRemoval? && cause != VacationStockNegative ==>
              Delivered(subs, lists, e, cause)[j] == lists[j]
  {
    forall j | 0 <= j < |subs| && (subs[j].StaffRemoval? || cause == VacationStockNegative)
      ensures Delivered(subs, lists, e, cause)[j] == Without(lists[j], e)
    {
      AfterHandlingDropsEveryOccurrence(subs[j], lists[j], e, multiset(subs)[subs[j]], cause);
    }
    forall j | 0 <= j < |subs| && (subs[j].StaffRemoval? || cause == VacationStockNegative)
      ensures e !in Without(lists[j], e)
    {
      WithoutDropsExactlyX(lists[j], e);
    }
  }

  /** Two different handlers belong to two different rosters. */
  lemma RosterIsDistinct(s: Subscriber, t: Subscriber)
    requires s != t
    ensures s.Roster() != t.Roster()
  {
  }

  class Employee {
    const kind: Kind
    var birthYear: int
    var vacationStock: int
    /** Meaningful for a salesperson only; a board member has no target. */
    var achievedTarget: int
    /** The layoff handlers, in the order they were registered. */
    var subscribers: seq<Subscriber>

    constructor SalesPerson(birthYear: int, vacationStock: int, achievedTarget: int)
      ensures kind == SalesPersonKind && subscribers == []
      ensures this.birthYear == birthYear && this.vacationStock == vacationStock
      ensures this.achievedTarget == achievedTarget
    {
      kind := SalesPersonKind;
      this.birthYear := birthYear;
      this.vacationStock := vacationStock;
      this.achievedTarget := achievedTarget;
      subscribers := [];
    }

    constructor BoardMember(birthYear: int, vacationStock: int)
      ensures kind == BoardMemberKind && subscribers == []
      ensures this.birthYear == birthYear && this.vacationStock == vacationStock
      ensures achievedTarget == 0
    {
      kind := BoardMemberKind;
      this.birthYear := birthYear;
      this.vacationStock := vacationStock;
      achievedTarget := 0;
      subscribers := [];
    }

    /** The rosters a layoff announcement may change. */
    ghost function Rosters(): set<object>
      reads this
    {
      set s | s in subscribers :: s.Roster()
    }

    /** No roster is an employee, so announcing a layoff leaves every
        employee as it was. */
    lemma RostersAreNotEmployees()
      ensures this !in Rosters()
    {
      forall s | s in subscribers
        ensures s.Roster() != this
      {
      }
    }

    /** Announces a layoff: runs each registered handler in turn, with this
        employee as the sender. */
    method OnEmployeeLayOff(cause: LayOffCause)
      modifies Rosters()
      ensures unchanged(this)
      ensures Notified(this, subscribers, cause)
    {
      RostersAreNotEmployees();
      var handlers := subscribers;
      ghost var initial := RosterLists(handlers);
      ProgressAtStart(handlers, initial, this, cause);
      for i := 0 to |handlers|
        invariant RosterLists(handlers) == Progress(handlers, initial, this, i, cause)
      {
        assert handlers[i].Roster() in Rosters();
        Deliver(handlers, i, initial, cause);
      }
      ProgressComplete(handlers, initial, this, cause);
    }

    /** Runs the handler at position `i` of `handlers`, taking the rosters from
        the progress after `i` handlers to the progress after `i + 1`. */
    method Deliver(handlers: seq<Subscriber>, i: nat, ghost initial: seq<seq<Employee>>, cause: LayOffCause)
      requires i < |handlers| && |initial| == |handlers|
      requires RosterLists(handlers) == Progress(handlers, initial, this, i, cause)
      modifies handlers[i].Roster()
      ensures RosterLists(handlers) == Progress(handlers, initial, this, i + 1, cause)
    {
      ghost var current := RosterLists(handlers);
      RunHandler(handlers[i], handlers, cause);
      ProgressStep(handlers, initial, this, i, cause, current, RosterLists(handlers));
    }

    /** One run of handler `s` for a layoff of this employee, seen from the
        lists of the rosters along `subs`. */
    method RunHandler(s: Subscriber, subs: seq<Subscriber>, cause: LayOffCause)
      modifies s.Roster()
      ensures RosterLists(subs) == OneRun(subs, old(RosterLists(subs)), s, this, cause)
    {
      ghost var l := RosterList(s);
      assert RemoveFirstTimes(l, this, 1) == RemoveFirst(l, this);
      match s
      case StaffRemoval(d) => d.RemoveStaff(this, cause);
      case MemberRemoval(c) => c.RemoveMember(this, cause);
      forall j | 0 <= j < |subs| && subs[j] != s
        ensures RosterList(subs[j]) == old(RosterList(subs[j]))
      {
        RosterIsDistinct(s, subs[j]);
      }
    }

    /** The end-of-year evaluation as called through the base type: it looks
        at the vacation stock and the age only, whatever the kind, and
        announces the cause it finds. */
    method EndOfYearOperation(currentYear: int) returns (cause: Option<LayOffCause>)
      modifies Rosters()
      ensures unchanged(this)
      ensures cause == BaseEvaluation(vacationStock, birthYear, currentYear)
      ensures cause.Some? ==> Notified(this, subscribers, cause.value)
      ensures cause.None? ==> unchanged(Rosters())
    {
      cause := BaseEvaluation(vacationStock, birthYear, currentYear);
      if cause.Some? {
        OnEmployeeLayOff(cause.value);
      }
    }

    /** The end-of-year evaluation as called through the salesperson type: the
        quota is checked first, and only a met quota leads on to the base
        evaluation. */
    method SalesEndOfYearOperation(currentYear: int) returns (cause: Option<LayOffCause>)
      requires kind == SalesPersonKind
      modifies Rosters()
      ensures unchanged(this)
      ensures cause == SalesEvaluation(vacationStock, birthYear, achievedTarget, currentYear)
      ensures cause.Some? ==> Notified(this, subscribers, cause.value)
      ensures cause.None? ==> unchanged(Rosters())
    {
      if !CheckTarget(achievedTarget, SalesQuota) {
        cause := Some(SalesTargetNotAchieved);
        OnEmployeeLayOff(SalesTargetNotAchieved);
      } else {
        cause := EndOfYearOperation(currentYear);
      }
    }

    /** A board member's resignation: always announced, with no condition. */
    method Resign()
      requires kind == BoardMemberKind
      modifies Rosters()
      ensures unchanged(this)
      ensures Notified(this, subscribers, Resignation)
    {
      OnEmployeeLayOff(Resignation);
    }
  }

  class Department {
    /** The staff, in the order they were added; the same employee may be
        added more than once. */
    var staff: seq<Employee>

    constructor ()
      ensures staff == []
    {
      staff := [];
    }

    /** Appends the employee and registers this department's removal handler
        with it. */
    method AddStaff(e: Employee)
      modifies this, e`subscribers
      ensures staff == old(staff) + [e]
      ensures e.subscribers == old(e.subscribers) + [StaffRemoval(this)]
    {
      staff := staff + [e];
      e.subscribers := e.subscribers + [StaffRemoval(this)];
    }

    /** The removal handler: drops the first occurrence of the sender, for
        every cause. */
    method RemoveStaff(sender: Employee, cause: LayOffCause)
      modifies this
      ensures staff == RemoveFirst(old(staff), sender)
    {
      staff := RemoveFirst(staff, sender);
    }
  }

  class Club {
    /** The members, in the order they were added. */
    var members: seq<Employee>

    constructor ()
      ensures members == []
    {
      members := [];
    }

    /** Appends the employee and registers this club's removal handler with
        it. */
    method AddMember(e: Employee)
      modifies this, e`subscribers
      ensures members == old(members) + [e]
      ensures e.subscribers == old(e.subscribers) + [MemberRemoval(this)]
    {
      members := members + [e];
      e.subscribers := e.subscribers + [MemberRemoval(this)];
    }

    /** The removal handler: drops the first occurrence of the sender when the
        cause is a negative vacation stock, and keeps the member otherwise. */
    method RemoveMember(sender: Employee, cause: LayOffCause)
      modifies this
      ensures members == if cause == VacationStockNegative then RemoveFirst(old(members), sender) else old(members)
    {
      if cause == VacationStockNegative {
        members := RemoveFirst(members, sender);
      }
    }
  }
}
