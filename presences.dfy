/** `PresenceController`: attendance records, at most one per employee and
    day on every insert path. Administrators enter presences by hand; other
    users check themselves in, through `store` or `checkIn`. */
module Presences {
  import opened Php
  import opened Sessions
  import opened Users
  import opened Tables

  /** The statuses the forms accept. */
  datatype Status = Present | Absent | Late | OnLeave

  function StatusName(st: Status): string {
    match st
    case Present => "present"
    case Absent => "absent"
    case Late => "late"
    case OnLeave => "leave"
  }

  /** The rule `in:present,absent,late,leave`: exactly the four names are
      accepted, and each is read as the status it names. */
  function ParseStatus(s: string): (r: Option<Status>)
    ensures r.Some? <==> s == "present" || s == "absent" || s == "late" || s == "leave"
    ensures r.Some? ==> StatusName(r.value) == s
  {
    if s == "present" then Some(Present)
    else if s == "absent" then Some(Absent)
    else if s == "late" then Some(Late)
    else if s == "leave" then Some(OnLeave)
    else None
  }

  /** Every status's name is accepted and read back as that status. */
  lemma StatusNameParses(st: Status)
    ensures ParseStatus(StatusName(st)) == Some(st)
  {
  }

  /** A presence: the employee (null when the session held none), the day,
      the check-in and check-out times, the position the browser sent, and
      the status. */
  datatype Presence = Presence(employeeId: Option<nat>, date: Day, checkIn: Instant, checkOut: Option<Instant>,
                               latitude: Option<string>, longitude: Option<string>, status: Status)

  /** The fields of a `store` or `update` request, as parsed: a field that is
      missing, or does not parse as the date or time its rule asks for, is
      None. */
  datatype PresenceRequest = PresenceRequest(employeeId: Option<nat>, checkIn: Option<Instant>, checkOut: Option<Instant>,
                                             date: Option<Day>, status: string,
                                             latitude: Option<string>, longitude: Option<string>)

  predicate SameEmployeeDay(p: Presence, q: Presence) {
    p.employeeId == q.employeeId && p.date == q.date
  }

  /** The `exists()` query before each insert: a presence of that employee
      on that day. */
  predicate HasPresence(rows: seq<Row<Presence>>, who: Option<nat>, d: Day) {
    exists i :: 0 <= i < |rows| && rows[i].fields.employeeId == who && rows[i].fields.date == d
  }

  /** At most one presence per employee and day. */
  predicate OnePerEmployeeDay(rows: seq<Row<Presence>>) {
    forall x, y :: x in rows && y in rows && SameEmployeeDay(x.fields, y.fields) ==> x == y
  }

  /** A check-out, when there is one, is not before the check-in. */
  predicate CheckOutNotBeforeCheckIn(p: Presence) {
    p.checkOut.Some? ==> p.checkOut.value >= p.checkIn
  }

  /** Appending a presence with a fresh id keeps one presence per employee
      and day exactly when that employee has none on that day yet. */
  lemma InsertKeepsOnePerEmployeeDay(rows: seq<Row<Presence>>, id: nat, p: Presence)
    requires OnePerEmployeeDay(rows) && IdsBelow(rows, id)
    ensures OnePerEmployeeDay(rows + [Row(id, p)]) <==> !HasPresence(rows, p.employeeId, p.date)
  {
    var extended := rows + [Row(id, p)];
    if HasPresence(rows, p.employeeId, p.date) {
      var i :| 0 <= i < |rows| && rows[i].fields.employeeId == p.employeeId && rows[i].fields.date == p.date;
      assert extended[i] in extended && extended[|rows|] in extended;
      assert extended[i].id != extended[|rows|].id;
    }
  }

  /** The validation of the administrator's form (PresenceController.php lines 46-51). */
  predicate AdminAccepts(req: PresenceRequest, employees: set<nat>) {
    req.employeeId.Some? && req.employeeId.value in employees &&
    req.checkIn.Some? && req.date.Some? && ParseStatus(req.status).Some?
  }

  /** The record the administrator's form creates (PresenceController.php lines 53-71): only the
      validated fields, and no check-out. */
  function AdminRecord(req: PresenceRequest): (p: Presence)
    requires req.checkIn.Some? && req.date.Some? && ParseStatus(req.status).Some?
    ensures p.employeeId == req.employeeId && Some(p.date) == req.date && Some(p.checkIn) == req.checkIn
    ensures StatusName(p.status) == req.status
    ensures p.checkOut.None? && p.latitude.None? && p.longitude.None?
  {
    Presence(req.employeeId, req.date.value, req.checkIn.value, None, None, None, ParseStatus(req.status).value)
  }

  /** The record a self check-in through `store` creates (PresenceController.php
      lines 88-96): for the session's employee, today, checked in now and
      present, with the position the request carries and no check-out;
      every other field of the request is ignored. */
  function SelfRecord(session: Session, req: PresenceRequest, today: Day, now: Instant): (p: Presence)
    ensures p.employeeId == SessionEmployeeId(session) && p.date == today && p.checkIn == now
    ensures p.status == Present && p.checkOut.None?
    ensures p.latitude == req.latitude && p.longitude == req.longitude
  {
    Presence(SessionEmployeeId(session), today, now, None, req.latitude, req.longitude, Present)
  }

  /** The employee `checkIn` acts for (PresenceController.php lines 157-162): the session's
      `employee_id` when it is truthy, otherwise the id of the user's
      employee; none when neither is truthy. */
  function CheckInEmployee(user: Option<User>, session: Session): (r: Option<nat>)
    ensures SessionEmployeeId(session).Some? && SessionEmployeeId(session).value != 0 ==> r == SessionEmployeeId(session)
    ensures r.Some? ==> r.value != 0
    ensures r.Some? && r != SessionEmployeeId(session) ==>
      user.Some? && user.value.employee.Some? && r.value == user.value.employee.value.id
    ensures r.None? <==>
      (SessionEmployeeId(session).None? || SessionEmployeeId(session).value == 0) &&
      (user.None? || user.value.employee.None? || user.value.employee.value.id == 0)
  {
    var fromSession := SessionEmployeeId(session);
    var employeeId :=
      if (fromSession.None? || fromSession.value == 0) && user.Some? && user.value.employee.Some?
      then Some(user.value.employee.value.id)
      else fromSession;
    if employeeId.None? || employeeId.value == 0 then None else employeeId
  }

  /** The record `checkIn` creates (PresenceController.php lines 178-184): the day's date string
      stored as the check-in, so the check-in is that day's midnight. */
  function CheckInRecord(who: nat, today: Day): (p: Presence)
    ensures p.employeeId == Some(who) && p.date == today && p.status == Present
    ensures p.checkOut.None? && p.checkIn / SecondsPerDay == today && p.checkIn % SecondsPerDay == 0
    ensures p.latitude.None? && p.longitude.None?
  {
    Presence(Some(who), today, StartOf(today), None, None, None, Present)
  }

  /** `date('Y-m-d H:i:s', strtotime($v))` (PresenceController.php lines
      125-128): a parsed time is kept, and a time that is missing or does not
      parse becomes the epoch, midnight of day 0. */
  function TimeOrEpoch(t: Option<Instant>): (r: Instant)
    ensures t.Some? ==> r == t.value
    ensures t.None? ==> r == StartOf(0)
  {
    if t.Some? then t.value else 0
  }

  /** The validation of `update` (PresenceController.php lines 130-136), on the merged times. */
  predicate UpdateAccepts(req: PresenceRequest, employees: set<nat>) {
    req.employeeId.Some? && req.employeeId.value in employees &&
    TimeOrEpoch(req.checkOut) >= TimeOrEpoch(req.checkIn) &&
    req.date.Some? && ParseStatus(req.status).Some?
  }

  /** `$presence->update($request->all())` (PresenceController.php line 138): the validated fields
      and the merged times replace the old ones; latitude and longitude
      change only when the request carries them. */
  function Edited(p: Presence, req: PresenceRequest): (e: Presence)
    requires req.date.Some? && ParseStatus(req.status).Some?
    ensures e.employeeId == req.employeeId && Some(e.date) == req.date && StatusName(e.status) == req.status
    ensures e.checkIn == TimeOrEpoch(req.checkIn) && e.checkOut == Some(TimeOrEpoch(req.checkOut))
    ensures req.latitude.None? ==> e.latitude == p.latitude
    ensures req.latitude.Some? ==> e.latitude == req.latitude
    ensures req.longitude.None? ==> e.longitude == p.longitude
    ensures req.longitude.Some? ==> e.longitude == req.longitude
  {
    Presence(req.employeeId, req.date.value, TimeOrEpoch(req.checkIn), Some(TimeOrEpoch(req.checkOut)),
             if req.latitude.Some? then req.latitude else p.latitude,
             if req.longitude.Some? then req.longitude else p.longitude,
             ParseStatus(req.status).value)
  }

  /** An accepted update leaves a check-out that is not before the check-in,
      a status among the four, and the request's employee and day. */
  lemma EditedIsConsistent(p: Presence, req: PresenceRequest, employees: set<nat>)
    requires UpdateAccepts(req, employees)
    ensures CheckOutNotBeforeCheckIn(Edited(p, req))
    ensures StatusName(Edited(p, req).status) == req.status
    ensures Edited(p, req).employeeId == req.employeeId && Some(Edited(p, req).date) == req.date
  {
  }

  /** `update` does not repeat the duplicate check: moving one presence onto
      the employee and day of another is accepted, and the table then holds
      two presences for that employee and day. */
  lemma UpdateCanBreakOnePerEmployeeDay(rows: seq<Row<Presence>>, k: nat, j: nat, req: PresenceRequest, employees: set<nat>)
    requires DistinctIds(rows) && k < |rows| && j < |rows| && k != j
    requires UpdateAccepts(req, employees)
    requires req.employeeId == rows[j].fields.employeeId && req.date == Some(rows[j].fields.date)
    ensures !OnePerEmployeeDay(rows[k := Row(rows[k].id, Edited(rows[k].fields, req))])
  {
    var updated := rows[k := Row(rows[k].id, Edited(rows[k].fields, req))];
    assert updated[k] in updated && updated[j] in updated;
    assert SameEmployeeDay(updated[k].fields, updated[j].fields);
    assert updated[k].id != updated[j].id;
  }

  /** The presences table. */
  class PresenceTable {
    var rows: seq<Row<Presence>>
    var nextId: nat

    /** Ids are distinct and below the next id, and no check-out precedes
        its check-in. */
    predicate Valid()
      reads this
    {
      DistinctIds(rows) && IdsBelow(rows, nextId) &&
      forall x :: x in rows ==> CheckOutNotBeforeCheckIn(x.fields)
    }

    constructor ()
      ensures rows == [] && nextId == 1 && Valid()
    {
      rows := [];
      nextId := 1;
    }

    /** `index` (PresenceController.php lines 20-24): every presence for Admin and HR Manager,
        otherwise exactly those of the session's employee. Without an
        employee id in the session that is the presences without one. */
    function Index(session: Session): (r: seq<Row<Presence>>)
      reads this
      ensures IsPrivileged(session) ==> r == rows
      ensures !IsPrivileged(session) ==>
        forall x :: x in r <==> x in rows && x.fields.employeeId == SessionEmployeeId(session)
    {
      if IsPrivileged(session) then rows
      else Where(rows, (x: Row<Presence>) => x.fields.employeeId == SessionEmployeeId(session))
    }

    /** `Presence::create`: a new row under the next id. */
    method Create(p: Presence)
      requires Valid() && CheckOutNotBeforeCheckIn(p)
      modifies this
      ensures Valid()
      ensures rows == old(rows) + [Row(old(nextId), p)] && nextId == old(nextId) + 1
    {
      InsertKeepsIds(rows, nextId, p);
      rows := rows + [Row(nextId, p)];
      nextId := nextId + 1;
    }

    /** `store` (PresenceController.php lines 40-101). Admin and HR Manager enter a presence by
        hand: an invalid form or an existing presence for that employee and
        day stores nothing. Anyone else checks in for today under the
        session's employee id, with the current time, at most once a day. */
    method Store(req: PresenceRequest, session: Session, employees: set<nat>, today: Day, now: Instant)
      returns (reply: Reply)
      requires Valid()
      modifies this
      ensures Valid()
      ensures OnePerEmployeeDay(old(rows)) ==> OnePerEmployeeDay(rows)
      ensures IsPrivileged(session) && !AdminAccepts(req, employees) ==>
        reply == Refused(Invalid) && rows == old(rows) && nextId == old(nextId)
      ensures IsPrivileged(session) && AdminAccepts(req, employees) &&
              HasPresence(old(rows), req.employeeId, req.date.value) ==>
        reply == Refused(AlreadyExists) && rows == old(rows) && nextId == old(nextId)
      ensures IsPrivileged(session) && AdminAccepts(req, employees) &&
              !HasPresence(old(rows), req.employeeId, req.date.value) ==>
        reply == Saved && rows == old(rows) + [Row(old(nextId), AdminRecord(req))] && nextId == old(nextId) + 1
      ensures !IsPrivileged(session) && HasPresence(old(rows), SessionEmployeeId(session), today) ==>
        reply == Refused(AlreadyExists) && rows == old(rows) && nextId == old(nextId)
      ensures !IsPrivileged(session) && !HasPresence(old(rows), SessionEmployeeId(session), today) ==>
        reply == Saved && rows == old(rows) + [Row(old(nextId), SelfRecord(session, req, today, now))] &&
        nextId == old(nextId) + 1
    {
      var isAdmin := IsPrivileged(session);
      var p: Presence;
      if isAdmin {
        if !AdminAccepts(req, employees) {
          return Refused(Invalid);
        }
        p := AdminRecord(req);
      } else {
        p := SelfRecord(session, req, today, now);
      }
      if HasPresence(rows, p.employeeId, p.date) {
        return Refused(AlreadyExists);
      }
      if OnePerEmployeeDay(rows) {
        InsertKeepsOnePerEmployeeDay(rows, nextId, p);
      }
      Create(p);
      reply := Saved;
    }

    /** `checkIn` (PresenceController.php lines 153-187): for the session's employee, or failing
        that the user's; none is an error. A second check-in on the same day
        is refused; otherwise today's presence is created. */
    method CheckIn(user: Option<User>, session: Session, today: Day) returns (reply: Reply)
      requires Valid()
      modifies this
      ensures Valid()
      ensures OnePerEmployeeDay(old(rows)) ==> OnePerEmployeeDay(rows)
      ensures CheckInEmployee(user, session).None? ==>
        reply == Refused(MissingEmployee) && rows == old(rows) && nextId == old(nextId)
      ensures CheckInEmployee(user, session).Some? && HasPresence(old(rows), CheckInEmployee(user, session), today) ==>
        reply == Refused(AlreadyExists) && rows == old(rows) && nextId == old(nextId)
      ensures CheckInEmployee(user, session).Some? && !HasPresence(old(rows), CheckInEmployee(user, session), today) ==>
        reply == Saved &&
        rows == old(rows) + [Row(old(nextId), CheckInRecord(CheckInEmployee(user, session).value, today))] &&
        nextId == old(nextId) + 1
      ensures reply == Saved ==> HasPresence(rows, CheckInEmployee(user, session), today)
    {
      var employeeId := CheckInEmployee(user, session);
      if employeeId.None? {
        return Refused(MissingEmployee);
      }
      if HasPresence(rows, employeeId, today) {
        return Refused(AlreadyExists);
      }
      var p := CheckInRecord(employeeId.value, today);
      if OnePerEmployeeDay(rows) {
        InsertKeepsOnePerEmployeeDay(rows, nextId, p);
      }
      Create(p);
      assert rows[|rows| - 1].fields == p;
      reply := Saved;
    }

    /** `update` (PresenceController.php lines 123-141): a missing presence is a 404; an invalid
        request changes nothing; otherwise the presence takes the request's
        fields. Whether another presence has the same employee and day is
        not checked. */
    method Update(id: nat, req: PresenceRequest, employees: set<nat>) returns (reply: Reply)
      requires Valid()
      modifies this
      ensures Valid()
      ensures nextId == old(nextId)
      ensures IndexOf(old(rows), id).None? ==> reply == Refused(NotFound) && rows == old(rows)
      ensures IndexOf(old(rows), id).Some? && !UpdateAccepts(req, employees) ==>
        reply == Refused(Invalid) && rows == old(rows)
      ensures IndexOf(old(rows), id).Some? && UpdateAccepts(req, employees) ==>
        var k := IndexOf(old(rows), id).value;
        reply == Saved && rows == old(rows)[k := Row(id, Edited(old(rows)[k].fields, req))]
    {
      var found := IndexOf(rows, id);
      if found.None? {
        return Refused(NotFound);
      }
      if !UpdateAccepts(req, employees) {
        return Refused(Invalid);
      }
      var k := found.value;
      var p := Edited(rows[k].fields, req);
      EditedIsConsistent(rows[k].fields, req, employees);
      SetFieldsKeepsIds(rows, nextId, k, p);
      rows := rows[k := Row(id, p)];
      reply := Saved;
    }

    /** `destroy` (PresenceController.php lines 146-151): a missing presence is a 404; otherwise
        exactly that presence is removed. */
    method Destroy(id: nat) returns (reply: Reply)
      requires Valid()
      modifies this
      ensures Valid()
      ensures nextId == old(nextId)
      ensures OnePerEmployeeDay(old(rows)) ==> OnePerEmployeeDay(rows)
      ensures IndexOf(old(rows), id).None? ==> reply == Refused(NotFound) && rows == old(rows)
      ensures IndexOf(old(rows), id).Some? ==>
        reply == Saved && rows == Without(old(rows), id) && |rows| == |old(rows)| - 1
    {
      if IndexOf(rows, id).None? {
        return Refused(NotFound);
      }
      WithoutKeepsIds(rows, id, nextId);
      WithoutRemovesOne(rows, id);
      rows := Without(rows, id);
      reply := Saved;
    }
  }

  /** The attendance rule's scenario: on an empty table, an employee whose
      id is in the session checks in twice on the same day; the first is
      saved and the second refused. */
  method DoubleCheckIn(user: Option<User>, session: Session, today: Day) returns (first: Reply, second: Reply)
    requires SessionEmployeeId(session).Some? && SessionEmployeeId(session).value != 0
    ensures first == Saved && second == Refused(AlreadyExists)
  {
    var table := new PresenceTable();
    first := table.CheckIn(user, session, today);
    second := table.CheckIn(user, session, today);
  }
}
