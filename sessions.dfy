/** The per-request session as the role logic and the controllers use it: a
    key-value store read with `session($key)` and written with `put`. Only
    two keys matter here, `role` and `employee_id`. */
module Sessions {
  import opened Php

  type Session = map<string, Scalar>

  const RoleKey: string := "role"
  const EmployeeIdKey: string := "employee_id"

  /** `session($key)`: the stored value, or null when the key is absent. */
  function Get(s: Session, key: string): (r: Option<Scalar>)
    ensures r.Some? <==> key in s
    ensures r.Some? ==> r.value == s[key]
  {
    if key in s then Some(s[key]) else None
  }

  /** `session('employee_id')` read as an employee id. Ids are put there as
      integers; any other value is read as no id. */
  function SessionEmployeeId(s: Session): (r: Option<nat>)
    ensures r.Some? <==> EmployeeIdKey in s && s[EmployeeIdKey].Num?
    ensures r.Some? ==> s[EmployeeIdKey] == Num(r.value)
  {
    match Get(s, EmployeeIdKey)
    case Some(Num(n)) => Some(n)
    case _ => None
  }

  /** The controllers' test for an administrator: the session role is exactly
      'Admin' or 'HR Manager'. PresenceController writes it with `==` and
      `in_array`, the other controllers with `===`; for a string or an
      integer session value the loose and the strict test agree. */
  predicate IsPrivileged(s: Session) {
    Get(s, RoleKey) == Some(Str("Admin")) || Get(s, RoleKey) == Some(Str("HR Manager"))
  }

  /** The test is exact: no other spelling of the two role names passes. */
  lemma PrivilegedIsExact(s: Session)
    ensures IsPrivileged(s) <==> RoleKey in s && s[RoleKey].Str? && s[RoleKey].text in {"Admin", "HR Manager"}
  {
  }

  /** The session store of one request, which the role middleware updates in place. */
  class SessionStore {
    var data: Session

    constructor (initial: Session)
      ensures data == initial
    {
      data := initial;
    }

    /** `$request->session()->put($key, $value)`. */
    method Put(key: string, value: Scalar)
      modifies this
      ensures data == old(data)[key := value]
    {
      data := data[key := value];
    }
  }
}
