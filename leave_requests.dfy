/** `LeaveRequestController`: leave requests, filed by employees for
    themselves as pending, or by Admin and HR Manager for anyone with any
    status, and approved or rejected by overwriting the status. */
module LeaveRequests {
  import opened Php
  import opened Sessions
  import opened Tables

  datatype LeaveStatus = Pending | Approved | Rejected

  function LeaveStatusName(st: LeaveStatus): string {
    match st
    case Pending => "pending"
    case Approved => "approved"
    case Rejected => "rejected"
  }

  /** The rule `in:pending,approved,rejected`: exactly the three names are
      accepted, and each is read as the status it names. */
  function ParseLeaveStatus(s: string): (r: Option<LeaveStatus>)
    ensures r.Some? <==> s == "pending" || s == "approved" || s == "rejected"
    ensures r.Some? ==> LeaveStatusName(r.value) == s
  {
    if s == "pending" then Some(Pending)
    else if s == "approved" then Some(Approved)
    else if s == "rejected" then Some(Rejected)
    else None
  }

  /** Every status's name is accepted and read back as that status. */
  lemma LeaveStatusNameParses(st: LeaveStatus)
    ensures ParseLeaveStatus(LeaveStatusName(st)) == Some(st)
  {
  }

  /** A leave request: the employee (null when the session held none), the
      kind of leave, the first and last day, and the status. */
  datatype LeaveRequest = LeaveRequest(employeeId: Option<nat>, leaveType: string, startDate: Day, endDate: Day,
                                       status: LeaveStatus)

  /** The fields of a `store` or `update` request, as parsed: a field that is
      missing, or a date that does not parse, is None; a missing status is
      the empty string. */
  datatype LeaveForm = LeaveForm(employeeId: Option<nat>, leaveType: Option<string>, startDate: Option<Day>,
                                 endDate: Option<Day>, status: string)

  /** `required|string|max:255`: present, not blank, at most 255 characters. */
  predicate LeaveTypeAccepted(t: Option<string>) {
    t.Some? && Trim(t.value) != "" && |t.value| <= 255
  }

  /** The rules every form must pass (LeaveRequestController.php lines 42-44 and 108-110): the leave
      type, both dates, and an end not before the start. */
  predicate DatesAndTypeAccepted(form: LeaveForm) {
    LeaveTypeAccepted(form.leaveType) &&
    form.startDate.Some? && form.endDate.Some? && form.endDate.value >= form.startDate.value
  }

  /** The rules of LeaveRequestController.php lines 45-46 and 107, 111: an existing employee and one of
      the three statuses. */
  predicate EmployeeAndStatusAccepted(form: LeaveForm, employees: set<nat>) {
    form.employeeId.Some? && form.employeeId.value in employees && ParseLeaveStatus(form.status).Some?
  }

  /** The validation of `store` (LeaveRequestController.php lines 41-47): the employee and status rules
      apply to Admin and HR Manager only. */
  predicate StoreAccepts(form: LeaveForm, privileged: bool, employees: set<nat>) {
    DatesAndTypeAccepted(form) && (privileged ==> EmployeeAndStatusAccepted(form, employees))
  }

  /** A leave request the table can hold: a non-blank type of at most 255
      characters, and an end not before the start. */
  predicate WellFormed(l: LeaveRequest) {
    Trim(l.leaveType) != "" && |l.leaveType| <= 255 && l.endDate >= l.startDate
  }

  /** The record `store` creates (LeaveRequestController.php lines 49-55): Admin and HR Manager name the
      employee and the status; anyone else files for the session's employee,
      as pending, whatever the form says. */
  function Filed(form: LeaveForm, session: Session): (l: LeaveRequest)
    requires DatesAndTypeAccepted(form)
    requires IsPrivileged(session) ==> ParseLeaveStatus(form.status).Some?
    ensures WellFormed(l)
    ensures IsPrivileged(session) ==> l.employeeId == form.employeeId && LeaveStatusName(l.status) == form.status
    ensures !IsPrivileged(session) ==> l.employeeId == SessionEmployeeId(session) && l.status == Pending
  {
    var privileged := IsPrivileged(session);
    LeaveRequest(if privileged then form.employeeId else SessionEmployeeId(session),
                 form.leaveType.value, form.startDate.value, form.endDate.value,
                 if privileged then ParseLeaveStatus(form.status).value else Pending)
  }

  /** The validation of `update` (LeaveRequestController.php lines 106-112): every rule, whoever asks. */
  predicate UpdateAccepts(form: LeaveForm, employees: set<nat>) {
    DatesAndTypeAccepted(form) && EmployeeAndStatusAccepted(form, employees)
  }

  /** `$leave_request->update($request->all())` (LeaveRequestController.php line 114): every field
      takes the form's value. */
  function Revised(form: LeaveForm): (l: LeaveRequest)
    requires DatesAndTypeAccepted(form) && ParseLeaveStatus(form.status).Some?
    ensures WellFormed(l)
    ensures l.employeeId == form.employeeId && LeaveStatusName(l.status) == form.status
  {
    LeaveRequest(form.employeeId, form.leaveType.value, form.startDate.value, form.endDate.value,
                 ParseLeaveStatus(form.status).value)
  }

  /** The table after `update(['status' => st])` on the row at `k`: that
      row's status is `st`, every other field and row as before. */
  function WithStatus(rows: seq<Row<LeaveRequest>>, k: nat, st: LeaveStatus): (r: seq<Row<LeaveRequest>>)
    requires k < |rows|
    ensures |r| == |rows| && r[k].id == rows[k].id && r[k].fields.status == st
    ensures r[k].fields.(status := rows[k].fields.status) == rows[k].fields
    ensures forall i :: 0 <= i < |rows| && i != k ==> r[i] == rows[i]
  {
    rows[k := Row(rows[k].id, rows[k].fields.(status := st))]
  }

  /** Setting a status twice is setting it once; and the last of two
      settings wins. */
  lemma WithStatusIdempotent(rows: seq<Row<LeaveRequest>>, k: nat, st: LeaveStatus, st2: LeaveStatus)
    requires k < |rows|
    ensures WithStatus(WithStatus(rows, k, st), k, st) == WithStatus(rows, k, st)
    ensures WithStatus(WithStatus(rows, k, st2), k, st) == WithStatus(rows, k, st)
  {
  }

  /** The leave requests table. */
  class LeaveTable {
    var rows: seq<Row<LeaveRequest>>
    var nextId: nat

    /** Ids are distinct and below the next id, and every request is well formed. */
    predicate Valid()
      reads this
    {
      DistinctIds(rows) && IdsBelow(rows, nextId) && forall x :: x in rows ==> WellFormed(x.fields)
    }

    constructor ()
      ensures rows == [] && nextId == 1 && Valid()
    {
      rows := [];
      nextId := 1;
    }

    /** `index` (LeaveRequestController.php lines 16-20): every request for Admin and HR Manager,
        otherwise exactly those of the session's employee. */
    function Index(session: Session): (r: seq<Row<LeaveRequest>>)
      reads this
      ensures IsPrivileged(session) ==> r == rows
      ensures !IsPrivileged(session) ==>
        forall x :: x in r <==> x in rows && x.fields.employeeId == SessionEmployeeId(session)
    {
      if IsPrivileged(session) then rows
      else Where(rows, (x: Row<LeaveRequest>) => x.fields.employeeId == SessionEmployeeId(session))
    }

    /** `store` (LeaveRequestController.php lines 37-60): an invalid form stores nothing; otherwise the
        filed request is added under the next id. */
    method Store(form: LeaveForm, session: Session, employees: set<nat>) returns (reply: Reply)
      requires Valid()
      modifies this
      ensures Valid()
      ensures !StoreAccepts(form, IsPrivileged(session), employees) ==>
        reply == Refused(Invalid) && rows == old(rows) && nextId == old(nextId)
      ensures StoreAccepts(form, IsPrivileged(session), employees) ==>
        reply == Saved && rows == old(rows) + [Row(old(nextId), Filed(form, session))] && nextId == old(nextId) + 1
    {
      var isPrivileged := IsPrivileged(session);
      if !StoreAccepts(form, isPrivileged, employees) {
        return Refused(Invalid);
      }
      var data := Filed(form, session);
      InsertKeepsIds(rows, nextId, data);
      rows := rows + [Row(nextId, data)];
      nextId := nextId + 1;
      reply := Saved;
    }

    /** `approve` and `reject` (LeaveRequestController.php lines 73-90): a missing request is a 404;
        otherwise its status is overwritten and nothing else changes. */
    method SetStatus(id: nat, st: LeaveStatus) returns (reply: Reply)
      requires Valid()
      modifies this
      ensures Valid()
      ensures nextId == old(nextId)
      ensures IndexOf(old(rows), id).None? ==> reply == Refused(NotFound) && rows == old(rows)
      ensures IndexOf(old(rows), id).Some? ==>
        reply == Saved && rows == WithStatus(old(rows), IndexOf(old(rows), id).value, st)
    {
      var found := IndexOf(rows, id);
      if found.None? {
        return Refused(NotFound);
      }
      var k := found.value;
      SetFieldsKeepsIds(rows, nextId, k, rows[k].fields.(status := st));
      rows := WithStatus(rows, k, st);
      reply := Saved;
    }

    /** `approve` (LeaveRequestController.php lines 73-79). */
    method Approve(id: nat) returns (reply: Reply)
      requires Valid()
      modifies this
      ensures Valid()
      ensures nextId == old(nextId)
      ensures IndexOf(old(rows), id).None? ==> reply == Refused(NotFound) && rows == old(rows)
      ensures IndexOf(old(rows), id).Some? ==>
        reply == Saved && rows == WithStatus(old(rows), IndexOf(old(rows), id).value, Approved)
    {
      reply := SetStatus(id, Approved);
    }

    /** `reject` (LeaveRequestController.php lines 84-90). */
    method Reject(id: nat) returns (reply: Reply)
      requires Valid()
      modifies this
      ensures Valid()
      ensures nextId == old(nextId)
      ensures IndexOf(old(rows), id).None? ==> reply == Refused(NotFound) && rows == old(rows)
      ensures IndexOf(old(rows), id).Some? ==>
        reply == Saved && rows == WithStatus(old(rows), IndexOf(old(rows), id).value, Rejected)
    {
      reply := SetStatus(id, Rejected);
    }

    /** `update` (LeaveRequestController.php lines 104-117): a missing request is a 404; an invalid
        form changes nothing; otherwise the request takes the form's
        fields. */
    method Update(id: nat, form: LeaveForm, employees: set<nat>) returns (reply: Reply)
      requires Valid()
      modifies this
      ensures Valid()
      ensures nextId == old(nextId)
      ensures IndexOf(old(rows), id).None? ==> reply == Refused(NotFound) && rows == old(rows)
      ensures IndexOf(old(rows), id).Some? && !UpdateAccepts(form, employees) ==>
        reply == Refused(Invalid) && rows == old(rows)
      ensures IndexOf(old(rows), id).Some? && UpdateAccepts(form, employees) ==>
        reply == Saved && rows == old(rows)[IndexOf(old(rows), id).value := Row(id, Revised(form))]
    {
      var found := IndexOf(rows, id);
      if found.None? {
        return Refused(NotFound);
      }
      if !UpdateAccepts(form, employees) {
        return Refused(Invalid);
      }
      var k := found.value;
      SetFieldsKeepsIds(rows, nextId, k, Revised(form));
      rows := rows[k := Row(id, Revised(form))];
      reply := Saved;
    }

    /** `destroy` (LeaveRequestController.php lines 122-127): a missing request is a 404; otherwise
        exactly that request is removed. */
    method Destroy(id: nat) returns (reply: Reply)
      requires Valid()
      modifies this
      ensures Valid()
      ensures nextId == old(nextId)
      ensures IndexOf(old(rows), id).None? ==> reply == Refused(NotFound) && rows == old(rows)
      ensures IndexOf(old(rows), id).Some? ==>
        reply == Saved && rows == Without(old(rows), id) && |rows| == |old(rows)| - 1
    {
      if IndexOf(rows, id).None? {
        return Refused(NotFound);
      }
      WithoutKeepsIds(rows, id, nextId);
      WithoutRemovesOne(rows, id);
      rows := Without(rows, id);
      reply := Saved;
    }
  }

  /** Approving twice leaves the table as approving once does, and the
      approved request is the only one whose status changed. */
  method ApproveTwice(table: LeaveTable, id: nat) returns (first: Reply, second: Reply)
    requires table.Valid() && IndexOf(table.rows, id).Some?
    modifies table
    ensures first == Saved && second == Saved
    ensures table.rows == WithStatus(old(table.rows), IndexOf(old(table.rows), id).value, Approved)
  {
    first := table.Approve(id);
    second := table.Approve(id);
    WithStatusIdempotent(old(table.rows), IndexOf(old(table.rows), id).value, Approved, Approved);
  }
}
