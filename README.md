# Employee layoff events, modelled in Dafny

This project models the C# program in `fff/Program.cs`. An employee is
evaluated at the end of the year. When a layoff condition holds, the
employee raises its `EmployeeLayOff` event with a `LayOffCause`. Every
department and club that took the employee in has registered a removal
handler with that event, and each handler decides for itself whether to
drop the employee:

- a department drops the first occurrence of the employee from its staff,
  whatever the cause;
- a club drops the first occurrence from its members only when the cause is
  `VacationStockNegative`, and keeps the member for any other cause.

The model has four modules:

- `LayoffRules` (`layoff_rules.dfy`) holds the pure decision rules.
  - `BaseEvaluation` is the base rule: negative vacation stock first, then
    an age above 60, computed as the current year minus the birth year.
  - `SalesEvaluation` is the salesperson rule: an achieved target below the
    fixed quota of 100 first, then the base rule.
  - Both are also proved equal to a first-match scan (`FirstMatch`) of an
    ordered table of (condition, cause) rows, `BaseRules` and `SalesRules`.
    This is an independent reference definition.
- `Lists` (`lists.dfy`) models `List<T>.Remove`. It drops the first
  occurrence only, keeps the order of the other elements, and does nothing
  when the element is absent. It also covers repeated removal, for a
  handler that is registered more than once.
- `Staffing` (`staffing.dfy`) holds the classes `Employee`, `Department` and
  `Club`.
  - An employee's event is the field `subscribers`: the handlers in the
    order they were registered. Registering the same handler twice makes
    it run twice.
  - `OnEmployeeLayOff` is a loop over a snapshot of that list. Each handler
    runs once per position, with the employee as the sender.
  - The loop is proved against `Delivered`: every roster ends up having
    taken its handler's removal once per registration.
- `Scenarios` (`scenarios.dfy`) holds concrete client runs: an employee in a
  department and a club, evaluated, and what each roster holds afterwards.

The C# `SalesPerson.EndOfYearOperation` is declared `new`, so it hides the
base method rather than overriding it. Which rule runs therefore depends on
the static type the caller uses. The model has two entry points:

- `Employee.EndOfYearOperation`: the call through `Employee`;
- `Employee.SalesEndOfYearOperation`: the call through `SalesPerson`.

Employees are one class with a constant `kind` (`SalesPersonKind` or
`BoardMemberKind`), since the abstract base class has exactly these two
subclasses.

The current year, which the source reads from `DateTime.Now`, is a parameter
of every evaluation. The C# evaluation methods return `void`; in the model
they return the announced cause (`None` when nothing is announced), so that
callers and contracts can state it.

## Model

| member | source | states |
|---|---|---|
| LayoffRules.BaseEvaluation | fff/Program.cs:35-46 | The base rule yields `VacationStockNegative` exactly when the stock is negative. It yields `AgeAboveSixty` exactly when the stock is not negative and the year difference exceeds 60. It yields no cause otherwise, and never the sales or resignation cause. |
| LayoffRules.SalesEvaluation | fff/Program.cs:53-72 | The salesperson rule yields `SalesTargetNotAchieved` exactly when the achieved target is below the quota of 100. When the quota is met, it gives the base rule's result. It never yields `Resignation`. |
| LayoffRules.FirstMatch | fff/Program.cs:38-45 | Scanning an ordered rule table yields no cause exactly when no row's condition holds. Otherwise it yields the cause of a row whose condition holds and that has no holding row above it. |
| LayoffRules.CheckTarget | fff/Program.cs:53-56 | The quota check holds exactly when the achieved target is not below the quota, i.e. when the quota row of the rule table does not hold (`CheckTargetIsQuotaRow`). `CheckTargetDecidesSalesRule` and `SalesEvaluation`'s contract state its role: a failed check is exactly an announced `SalesTargetNotAchieved`, and a passed check hands the decision to the base rule. |
| LayoffRules.CheckTargetDecidesSalesRule | fff/Program.cs:64-71 | With the quota of 100, a failed quota check is exactly the case where the salesperson rule yields `SalesTargetNotAchieved`. A passed check makes the salesperson rule equal to the base rule. |
| LayoffRules.CheckTargetIsQuotaRow | fff/Program.cs:53-56 | `CheckTarget` holds exactly when the "target below quota" row of the table does not. |
| LayoffRules.BaseEvaluationIsFirstMatch | fff/Program.cs:35-46 | The base rule equals a first-match scan of the table [stock below zero, age above 60]. |
| LayoffRules.SalesEvaluationIsFirstMatch | fff/Program.cs:59-72 | The salesperson rule equals a first-match scan of the base table with the quota row put in front. |
| Lists.RemoveFirst | fff/Program.cs:104 | Removing an absent element leaves the list unchanged. Removing a present element shortens the list by exactly one. |
| Lists.RemoveFirstCount | fff/Program.cs:104 | Removal takes exactly one occurrence of the removed element when there is one, and takes no occurrence of any other element. |
| Lists.FirstIndex | fff/Program.cs:104 | Gives the position of the first occurrence: it holds the element, and nothing before it does. |
| Lists.RemoveFirstIsSplice | fff/Program.cs:104 | Removal cuts out exactly the first occurrence. The elements before and after it keep their order. |
| Lists.RemoveFirstTimesCount | fff/Program.cs:104 | `k` removals in a row take `min(k, count)` occurrences of the element and nothing else. |
| Lists.WithoutDropsExactlyX | fff/Program.cs:104 | The list with every occurrence dropped no longer holds the element, and keeps the count of every other element. |
| Lists.EnoughRemovalsDropAll | fff/Program.cs:104 | At least as many removals as occurrences leave exactly the list without the element, in the original order. |
| Staffing.RegistrationsCount | fff/Program.cs:96 | The count of a handler among the first `n` registrations is its multiplicity in that prefix of the event's handler list. |
| Staffing.ProgressStep | fff/Program.cs:23 | Running the handler at position `i` moves every roster from its state after `i` handlers to its state after `i + 1`. |
| Staffing.ProgressComplete | fff/Program.cs:23 | Once every position has run, each roster has taken its handler's removal once per registration. |
| Staffing.AfterHandlingDropsEveryOccurrence | fff/Program.cs:99-106 | Suppose a handler acts for the cause (a department always; a club only when the cause is `VacationStockNegative`), and it runs at least as often as the employee occurs in its roster. Then the roster ends as the employee-free list in the original order. |
| Staffing.DeliveredRemovesSender | fff/Program.cs:21-24 | After an announcement, if no roster holds the employee more often than its handler is registered, then every department no longer holds the employee, and neither does every club when the cause is `VacationStockNegative`. The other entries keep their order, and clubs are untouched for any other cause. |
| Staffing.Employee.OnEmployeeLayOff | fff/Program.cs:21-24 | Raising the event leaves the employee unchanged. Each roster reached through a handler ends with that handler's removal applied once per registration. |
| Staffing.Employee.Deliver | fff/Program.cs:23 | One step of the invocation: the handler at position `i` runs and the rosters advance one step of the progress. |
| Staffing.Employee.RunHandler | fff/Program.cs:23 | One handler run changes its own roster by one removal step. The lists of all other rosters are unchanged. |
| Staffing.Employee.EndOfYearOperation | fff/Program.cs:35-46 | Returns the base rule's cause and leaves the employee unchanged. With a cause, every registered roster has reacted to it. Without one, no roster changes. |
| Staffing.Employee.SalesEndOfYearOperation | fff/Program.cs:59-72 | Returns the salesperson rule's cause and leaves the employee unchanged. With a cause, every registered roster has reacted to it. Without one, no roster changes. |
| Staffing.Employee.Resign | fff/Program.cs:77-80 | A board member's resignation always announces `Resignation` to every registered roster. |
| Staffing.Employee.SalesPerson | fff/Program.cs:49-51 | A new salesperson has the given fields and no registered handlers. |
| Staffing.Employee.BoardMember | fff/Program.cs:75-84 | A new board member has the given fields, an achieved target of 0 that no rule reads, and no registered handlers. |
| Staffing.Department.constructor | fff/Program.cs:91 | A new department has an empty staff list. |
| Staffing.Department.AddStaff | fff/Program.cs:93-97 | Appends the employee to the staff and the department's removal handler to the employee's handler list. |
| Staffing.Department.RemoveStaff | fff/Program.cs:99-106 | Drops the first occurrence of the sender, whatever the cause. |
| Staffing.Club.constructor | fff/Program.cs:114 | A new club has an empty member list. |
| Staffing.Club.AddMember | fff/Program.cs:116-120 | Appends the employee to the members and the club's removal handler to the employee's handler list. |
| Staffing.Club.RemoveMember | fff/Program.cs:122-133 | Drops the first occurrence of the sender only when the cause is `VacationStockNegative`. For any other cause the members are unchanged. |
| Scenarios.Enrol | fff/Program.cs:93-97 | A fresh department and club that each hold only the employee, with the department's handler registered first. |
| Scenarios.OutcomeOfAnnouncement | fff/Program.cs:99-133 | For an employee held once by a department and once by a club, the department always ends empty. The club ends empty only when the cause is `VacationStockNegative`. |
| Scenarios.NegativeStockLeavesBoth | fff/Program.cs:38-41 | A board member with a negative stock is announced with `VacationStockNegative` and leaves both the department and the club. |
| Scenarios.AgeLeavesDepartmentOnly | fff/Program.cs:42-45 | A board member over sixty is announced with `AgeAboveSixty`, leaves the department and stays in the club. |
| Scenarios.TargetMissedLeavesDepartmentOnly | fff/Program.cs:64-67 | A salesperson below quota is announced with `SalesTargetNotAchieved` even with a negative stock. It leaves the department only. |
| Scenarios.QuotaMetFallsThrough | fff/Program.cs:68-71 | A salesperson meeting the quota falls through to the base rule. A negative stock then removes it from both rosters. |
| Scenarios.ResignationLeavesDepartmentOnly | fff/Program.cs:77-80 | A resigning board member leaves the department and stays in the club. |
| Scenarios.HiddenRuleNotUsedThroughBase | fff/Program.cs:59 | A salesperson below quota called through the base type gets no cause. Called through the salesperson type, it gets `SalesTargetNotAchieved`. |
| Scenarios.MiddleEntryLeaves | fff/Program.cs:104 | Removing the middle of three distinct entries leaves the outer two in order. |
| Scenarios.OnlySenderLeaves | fff/Program.cs:99-106 | When one of three staff is laid off, only that one leaves and the other two keep their order. |
| Scenarios.EvaluationRepeats | fff/Program.cs:35-46 | Evaluation only reads the employee. A second evaluation after the rosters have reacted finds the same cause. |

## Left out

- `Employee.RequestVacation` (fff/Program.cs:30-33) only throws `NotImplementedException`. It has no behaviour to model.
- `DateTime.Now` is replaced by a `currentYear` parameter. `BirthDate` is kept as its year only, since the rule compares years alone.
- `EmployeeLayOffEventArgs`, the `EventHandler` delegate type, the `?.Invoke` null check and the `sender as Employee` cast are not modelled as such. A handler is a `Subscriber` value naming its roster. The sender is always the raising employee, so the cast never yields null here. An empty handler list is the C# null event.
- `Department.AddStaff` and `Club.AddMember` with a null argument are not modelled: the parameter has the non-null type `Employee`. In the source, `AddStaff(null)` appends null to the staff (fff/Program.cs:95) and then throws a `NullReferenceException` on the subscription (fff/Program.cs:96), leaving the null entry behind; `AddMember(null)` does the same (fff/Program.cs:118-119).
- `EmployeeID`, `DeptID`, `DeptName`, `ClubID` and `ClubName` are plain properties that no modelled operation reads.
- The comments at fff/Program.cs:82-83 (a board member should always be a club member; no age override) are not enforced by the code, so they are not modelled as invariants.
- Handlers are never unsubscribed in the source, and the model keeps this. After a layoff the employee's handlers stay registered, so a later announcement runs them again.
- Identity: `List<Employee>.Remove` compares employees by reference, because `Employee` does not override `Equals`. The model compares `Employee` object references.
- `Employee.achievedTarget` is a field of every modelled employee, but only the salesperson entry point reads it. A board member's is set to 0 and never used.
- Handlers run one after another on the raising thread. Concurrency and exceptions thrown by a handler are not modelled.
