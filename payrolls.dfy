/** `PayrollController`: one payroll per employee and payment date, with a
    net salary of salary plus bonus minus deduction, listed newest first. */
module Payrolls {
  import opened Php
  import opened Sessions
  import opened Tables

  /** A payroll record; amounts are exact. */
  datatype Payroll = Payroll(employeeId: nat, salary: real, bonus: real, deduction: real, netSalary: real,
                             paymentDate: Day)

  /** A `nullable` amount as the request carries it: left out or null,
      present but not a number, or a number. */
  datatype Amount = Absent | Malformed | Given(value: real)

  /** The fields of a `store` or `update` request, as parsed: a required
      field that is missing or does not parse is None. */
  datatype PayrollForm = PayrollForm(employeeId: Option<nat>, salary: Option<real>, bonus: Amount,
                                     deduction: Amount, paymentDate: Option<Day>)

  /** `nullable|numeric|min:0`: absent, or a number that is not negative;
      a value that is not numeric fails the rule. */
  predicate OptionalAmountAccepted(a: Amount) {
    a.Absent? || (a.Given? && a.value >= 0.0)
  }

  /** The validation of `store` and `update` (PayrollController.php lines 41-47 and 102-108). */
  predicate Accepts(form: PayrollForm, employees: set<nat>) {
    form.employeeId.Some? && form.employeeId.value in employees &&
    form.salary.Some? && form.salary.value >= 0.0 &&
    OptionalAmountAccepted(form.bonus) && OptionalAmountAccepted(form.deduction) &&
    form.paymentDate.Some?
  }

  /** `isset($v) ? (float) $v : 0`, on an amount that passed its rule. */
  function OrZero(a: Amount): real
    requires OptionalAmountAccepted(a)
  {
    if a.Given? then a.value else 0.0
  }

  /** The net salary that goes with the amounts. */
  predicate NetConsistent(p: Payroll) {
    p.netSalary == p.salary + p.bonus - p.deduction
  }

  predicate AmountsNotNegative(p: Payroll) {
    p.salary >= 0.0 && p.bonus >= 0.0 && p.deduction >= 0.0
  }

  /** The payload built at PayrollController.php lines 50-61 and 110-115: a missing bonus or
      deduction counts as 0, and the net salary is computed from the three
      amounts. The net salary never exceeds salary plus bonus, and is never
      below salary minus deduction. */
  function Payload(form: PayrollForm, employees: set<nat>): (p: Payroll)
    requires Accepts(form, employees)
    ensures NetConsistent(p) && AmountsNotNegative(p)
    ensures p.employeeId == form.employeeId.value && Some(p.paymentDate) == form.paymentDate
    ensures p.salary == form.salary.value && p.bonus == OrZero(form.bonus) && p.deduction == OrZero(form.deduction)
    ensures p.netSalary <= p.salary + p.bonus && p.netSalary >= p.salary - p.deduction
  {
    var salary := form.salary.value;
    var bonus := OrZero(form.bonus);
    var deduction := OrZero(form.deduction);
    Payroll(form.employeeId.value, salary, bonus, deduction, salary + bonus - deduction, form.paymentDate.value)
  }

  /** Only the amounts decide the net salary: two accepted payloads with the
      same amounts have the same net salary, and without bonus and
      deduction it is the salary. */
  lemma NetSalaryDependsOnAmounts(f: PayrollForm, g: PayrollForm, employees: set<nat>)
    requires Accepts(f, employees) && Accepts(g, employees)
    requires f.salary == g.salary && OrZero(f.bonus) == OrZero(g.bonus) && OrZero(f.deduction) == OrZero(g.deduction)
    ensures Payload(f, employees).netSalary == Payload(g, employees).netSalary
    ensures f.bonus.Absent? && f.deduction.Absent? ==> Payload(f, employees).netSalary == f.salary.value
  {
  }

  predicate SameEmployeeDate(p: Payroll, q: Payroll) {
    p.employeeId == q.employeeId && p.paymentDate == q.paymentDate
  }

  /** The duplicate query of `store` (PayrollController.php lines 64-66). */
  predicate HasPayroll(rows: seq<Row<Payroll>>, who: nat, d: Day) {
    exists i :: 0 <= i < |rows| && rows[i].fields.employeeId == who && rows[i].fields.paymentDate == d
  }

  /** The duplicate query of `update` (PayrollController.php lines 118-121): the record itself does
      not count. */
  predicate HasOtherPayroll(rows: seq<Row<Payroll>>, who: nat, d: Day, self: nat) {
    exists i :: 0 <= i < |rows| && rows[i].fields.employeeId == who && rows[i].fields.paymentDate == d &&
                rows[i].id != self
  }

  /** At most one payroll per employee and payment date. */
  predicate OnePerPaymentDate(rows: seq<Row<Payroll>>) {
    forall x, y :: x in rows && y in rows && SameEmployeeDate(x.fields, y.fields) ==> x == y
  }

  /** Appending a payroll with a fresh id keeps one payroll per employee and
      payment date exactly when that employee has none on that date yet. */
  lemma InsertKeepsOnePerPaymentDate(rows: seq<Row<Payroll>>, id: nat, p: Payroll)
    requires OnePerPaymentDate(rows) && IdsBelow(rows, id)
    ensures OnePerPaymentDate(rows + [Row(id, p)]) <==> !HasPayroll(rows, p.employeeId, p.paymentDate)
  {
    var extended := rows + [Row(id, p)];
    if HasPayroll(rows, p.employeeId, p.paymentDate) {
      var i :| 0 <= i < |rows| && rows[i].fields.employeeId == p.employeeId && rows[i].fields.paymentDate == p.paymentDate;
      assert extended[i] in extended && extended[|rows|] in extended;
      assert extended[i].id != extended[|rows|].id;
    }
  }

  /** Overwriting the record at `k` keeps one payroll per employee and
      payment date exactly when no other record has the new employee and
      date. */
  lemma ReplaceKeepsOnePerPaymentDate(rows: seq<Row<Payroll>>, k: nat, p: Payroll)
    requires DistinctIds(rows) && OnePerPaymentDate(rows) && k < |rows|
    ensures OnePerPaymentDate(rows[k := Row(rows[k].id, p)]) <==>
            !HasOtherPayroll(rows, p.employeeId, p.paymentDate, rows[k].id)
  {
    var updated := rows[k := Row(rows[k].id, p)];
    if HasOtherPayroll(rows, p.employeeId, p.paymentDate, rows[k].id) {
      var i :| 0 <= i < |rows| && rows[i].fields.employeeId == p.employeeId &&
               rows[i].fields.paymentDate == p.paymentDate && rows[i].id != rows[k].id;
      assert updated[i] in updated && updated[k] in updated;
    } else {
      forall x, y | x in updated && y in updated && SameEmployeeDate(x.fields, y.fields)
        ensures x == y
      {
        var i :| 0 <= i < |updated| && updated[i] == x;
        var j :| 0 <= j < |updated| && updated[j] == y;
        if i != k && j != k {
          assert rows[i] in rows && rows[j] in rows;
        }
      }
    }
  }

  /** A payroll may keep its own employee and date: in a table with one
      payroll per employee and date, the update duplicate query never finds
      another record for the record's own employee and date. */
  lemma KeepOwnDate(rows: seq<Row<Payroll>>, k: nat)
    requires DistinctIds(rows) && OnePerPaymentDate(rows) && k < |rows|
    ensures !HasOtherPayroll(rows, rows[k].fields.employeeId, rows[k].fields.paymentDate, rows[k].id)
  {
    forall i | 0 <= i < |rows| && SameEmployeeDate(rows[i].fields, rows[k].fields)
      ensures rows[i].id == rows[k].id
    {
      assert rows[i] in rows && rows[k] in rows;
    }
  }

  /** Newest first: payment dates never increase along the list. */
  predicate ByDateDescending(s: seq<Row<Payroll>>) {
    forall i, j :: 0 <= i < j < |s| ==> s[i].fields.paymentDate >= s[j].fields.paymentDate
  }

  /** One step of the ordering: `x` placed before the first row with an
      earlier payment date. */
  function InsertByDate(x: Row<Payroll>, s: seq<Row<Payroll>>): (r: seq<Row<Payroll>>)
    ensures multiset(r) == multiset(s) + multiset{x}
    ensures forall y :: y in r ==> y == x || y in s
  {
    if s == [] then [x]
    else if x.fields.paymentDate >= s[0].fields.paymentDate then [x] + s
    else
      assert s == [s[0]] + s[1..];
      [s[0]] + InsertByDate(x, s[1..])
  }

  /** Inserting into a list that is newest first keeps it newest first. */
  lemma {:induction false} InsertByDateKeepsOrder(x: Row<Payroll>, s: seq<Row<Payroll>>)
    requires ByDateDescending(s)
    ensures ByDateDescending(InsertByDate(x, s))
  {
    if s != [] && x.fields.paymentDate < s[0].fields.paymentDate {
      var rest := InsertByDate(x, s[1..]);
      InsertByDateKeepsOrder(x, s[1..]);
      assert forall y :: y in s[1..] ==> y.fields.paymentDate <= s[0].fields.paymentDate;
      assert forall j :: 0 <= j < |rest| ==> rest[j] in rest;
    }
  }

  /** `orderByDesc('payment_date')`: the same rows, newest first. */
  function SortByDateDescending(s: seq<Row<Payroll>>): (r: seq<Row<Payroll>>)
    ensures ByDateDescending(r)
    ensures multiset(r) == multiset(s)
  {
    if s == [] then []
    else
      assert s == [s[0]] + s[1..];
      var sorted := SortByDateDescending(s[1..]);
      InsertByDateKeepsOrder(s[0], sorted);
      InsertByDate(s[0], sorted)
  }

  lemma SortKeepsRows(s: seq<Row<Payroll>>)
    ensures forall x :: x in SortByDateDescending(s) <==> x in s
  {
    var r := SortByDateDescending(s);
    assert forall x :: x in r <==> x in multiset(r);
    assert forall x :: x in s <==> x in multiset(s);
  }

  /** The condition `where('employee_id', session('employee_id'))`. */
  function OwnedBy(session: Session): Row<Payroll> -> bool {
    (x: Row<Payroll>) => Some(x.fields.employeeId) == SessionEmployeeId(session)
  }

  /** The payrolls table. */
  class PayrollTable {
    var rows: seq<Row<Payroll>>
    var nextId: nat

    /** Ids are distinct and below the next id; every payroll has amounts
        that are not negative and the net salary that goes with them; and
        no employee has two payrolls on one date. */
    predicate Valid()
      reads this
    {
      DistinctIds(rows) && IdsBelow(rows, nextId) && OnePerPaymentDate(rows) &&
      forall x :: x in rows ==> NetConsistent(x.fields) && AmountsNotNegative(x.fields)
    }

    constructor ()
      ensures rows == [] && nextId == 1 && Valid()
    {
      rows := [];
      nextId := 1;
    }

    /** `index` (PayrollController.php lines 14-31): every payroll for Admin and HR Manager,
        otherwise exactly those of the session's employee; either way newest
        first. */
    function Index(session: Session): (r: seq<Row<Payroll>>)
      reads this
      ensures ByDateDescending(r)
      ensures IsPrivileged(session) ==> multiset(r) == multiset(rows)
      ensures !IsPrivileged(session) ==> multiset(r) == multiset(Where(rows, OwnedBy(session)))
      ensures !IsPrivileged(session) ==>
        forall x :: x in r <==> x in rows && Some(x.fields.employeeId) == SessionEmployeeId(session)
    {
      var visible := if IsPrivileged(session) then rows else Where(rows, OwnedBy(session));
      SortKeepsRows(visible);
      SortByDateDescending(visible)
    }

    /** `store` (PayrollController.php lines 39-86): an invalid form or an existing payroll for the
        employee and date stores nothing; otherwise the payload is added
        under the next id. */
    method Store(form: PayrollForm, employees: set<nat>) returns (reply: Reply)
      requires Valid()
      modifies this
      ensures Valid()
      ensures !Accepts(form, employees) ==> reply == Refused(Invalid) && rows == old(rows) && nextId == old(nextId)
      ensures Accepts(form, employees) && HasPayroll(old(rows), form.employeeId.value, form.paymentDate.value) ==>
        reply == Refused(AlreadyExists) && rows == old(rows) && nextId == old(nextId)
      ensures Accepts(form, employees) && !HasPayroll(old(rows), form.employeeId.value, form.paymentDate.value) ==>
        reply == Saved && rows == old(rows) + [Row(old(nextId), Payload(form, employees))] && nextId == old(nextId) + 1
    {
      if !Accepts(form, employees) {
        return Refused(Invalid);
      }
      var payload := Payload(form, employees);
      if HasPayroll(rows, payload.employeeId, payload.paymentDate) {
        return Refused(AlreadyExists);
      }
      InsertKeepsIds(rows, nextId, payload);
      InsertKeepsOnePerPaymentDate(rows, nextId, payload);
      rows := rows + [Row(nextId, payload)];
      nextId := nextId + 1;
      reply := Saved;
    }

    /** `update` (PayrollController.php lines 100-137): a missing payroll is a 404; an invalid form
        or another payroll for the employee and date changes nothing;
        otherwise the payroll takes the payload. */
    method Update(id: nat, form: PayrollForm, employees: set<nat>) returns (reply: Reply)
      requires Valid()
      modifies this
      ensures Valid()
      ensures nextId == old(nextId)
      ensures IndexOf(old(rows), id).None? ==> reply == Refused(NotFound) && rows == old(rows)
      ensures IndexOf(old(rows), id).Some? && !Accepts(form, employees) ==>
        reply == Refused(Invalid) && rows == old(rows)
      ensures IndexOf(old(rows), id).Some? && Accepts(form, employees) &&
              HasOtherPayroll(old(rows), form.employeeId.value, form.paymentDate.value, id) ==>
        reply == Refused(AlreadyExists) && rows == old(rows)
      ensures IndexOf(old(rows), id).Some? && Accepts(form, employees) &&
              !HasOtherPayroll(old(rows), form.employeeId.value, form.paymentDate.value, id) ==>
        reply == Saved && rows == old(rows)[IndexOf(old(rows), id).value := Row(id, Payload(form, employees))]
    {
      var found := IndexOf(rows, id);
      if found.None? {
        return Refused(NotFound);
      }
      if !Accepts(form, employees) {
        return Refused(Invalid);
      }
      var payload := Payload(form, employees);
      if HasOtherPayroll(rows, payload.employeeId, payload.paymentDate, id) {
        return Refused(AlreadyExists);
      }
      var k := found.value;
      SetFieldsKeepsIds(rows, nextId, k, payload);
      ReplaceKeepsOnePerPaymentDate(rows, k, payload);
      rows := rows[k := Row(id, payload)];
      reply := Saved;
    }

    /** `destroy` (PayrollController.php lines 139-151): a missing payroll is a 404; otherwise
        exactly that payroll is removed. */
    method Destroy(id: nat) returns (reply: Reply)
      requires Valid()
      modifies this
      ensures Valid()
      ensures nextId == old(nextId)
      ensures IndexOf(old(rows), id).None? ==> reply == Refused(NotFound) && rows == old(rows)
      ensures IndexOf(old(rows), id).Some? ==>
        reply == Saved && rows == Without(old(rows), id) && |rows| == |old(rows)| - 1
    {
      if IndexOf(rows, id).None? {
        return Refused(NotFound);
      }
      WithoutKeepsIds(rows, id, nextId);
      WithoutRemovesOne(rows, id);
      rows := Without(rows, id);
      reply := Saved;
    }
  }
}
