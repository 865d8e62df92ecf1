/** The `User` model's role helpers: the effective-role cascade, the
    role-name check built on it, and the display name. All three only read
    the session and the user; none of them writes anything. */
module Users {
  import opened Php
  import opened Sessions

  /** An employee as these helpers see it: its id, the title its role
      relation yields (`employee->role->title ?? employee->role`, null when
      there is none) and its full name. */
  datatype Employee = Employee(id: nat, roleTitle: Option<string>, fullname: Option<string>)

  /** An authenticated user: id, name, the legacy `role` column (nullable)
      and the linked employee, if any. */
  datatype User = User(id: nat, name: string, legacyRole: Option<string>, employee: Option<Employee>)

  /** The role the employee relation yields: null without an employee. */
  function RoleFromEmployee(u: User): (r: Option<string>)
    ensures u.employee.None? ==> r.None?
    ensures u.employee.Some? ==> r == u.employee.value.roleTitle
  {
    match u.employee
    case None => None
    case Some(e) => e.roleTitle
  }

  /** `User::effectiveRole()`: the first source that is not `empty` among the
      session role and the employee's role; otherwise the legacy column,
      returned even when it is "" or "0". */
  function EffectiveRole(u: User, session: Session): (r: Option<string>)
    ensures RoleKey in session && Truthy(session[RoleKey]) ==> r == Some(AsString(session[RoleKey]))
    ensures !(RoleKey in session && Truthy(session[RoleKey])) ==>
      match RoleFromEmployee(u)
      case Some(t) => r == if IsFalsyString(t) then u.legacyRole else Some(t)
      case None => r == u.legacyRole
    ensures r.Some? && IsFalsyString(r.value) ==> r == u.legacyRole
  {
    var fromSession := Get(session, RoleKey);
    if fromSession.Some? && Truthy(fromSession.value) then Some(AsString(fromSession.value))
    else
      var fromEmployee := RoleFromEmployee(u);
      if fromEmployee.Some? && !IsFalsyString(fromEmployee.value) then fromEmployee
      else u.legacyRole
  }

  /** The argument of `hasRoleName`: one string, split on commas, or an array of names. */
  datatype RoleArgument = OneString(text: string) | Names(names: seq<string>)

  /** The list `hasRoleName` compares against: a string is exploded on
      commas and each piece trimmed; an array is taken as it is. */
  function ListedRoles(arg: RoleArgument): (r: seq<string>)
    ensures arg.OneString? ==> r == TrimAll(Explode(arg.text))
    ensures arg.Names? ==> r == arg.names
  {
    match arg
    case OneString(s) => TrimAll(Explode(s))
    case Names(ns) => ns
  }

  function LowerAll(xs: seq<string>): (r: seq<string>)
    ensures |r| == |xs|
    ensures forall i :: 0 <= i < |xs| ==> r[i] == Lower(xs[i])
  {
    seq(|xs|, i requires 0 <= i < |xs| => Lower(xs[i]))
  }

  /** `User::hasRoleName($role)` (without the optional permission package):
      false when there is no effective role; otherwise true exactly when some
      listed name equals the effective role up to letter case. The
      effective role itself is not trimmed. */
  function HasRoleName(u: User, session: Session, arg: RoleArgument): (r: bool)
    ensures EffectiveRole(u, session).None? ==> !r
    ensures r <==> EffectiveRole(u, session).Some? &&
                   exists a :: a in ListedRoles(arg) && Lower(a) == Lower(EffectiveRole(u, session).value)
  {
    var effective := EffectiveRole(u, session);
    if effective.None? then false
    else
      var allowed := LowerAll(ListedRoles(arg));
      assert forall a :: a in ListedRoles(arg) ==> Lower(a) in allowed;
      Lower(effective.value) in allowed
  }

  /** `display_name`: the employee's full name when it is not `empty`,
      otherwise the user's name. */
  function DisplayName(u: User): (r: string)
    ensures u.employee.Some? && u.employee.value.fullname.Some? && !IsFalsyString(u.employee.value.fullname.value)
            ==> r == u.employee.value.fullname.value
    ensures !(u.employee.Some? && u.employee.value.fullname.Some? && !IsFalsyString(u.employee.value.fullname.value))
            ==> r == u.name
  {
    match u.employee
    case Some(Employee(_, _, Some(full))) => if IsFalsyString(full) then u.name else full
    case _ => u.name
  }

  /** A string argument is trimmed piece by piece: a role name padded with
      spaces still matches. */
  lemma StringArgumentIsTrimmed(u: User, session: Session, name: string)
    requires name != [] && IsTrimmed(name) && ',' !in name
    requires EffectiveRole(u, session) == Some(name)
    ensures HasRoleName(u, session, OneString(" " + name + " "))
  {
    var padded := " " + name + " ";
    assert ',' !in padded by {
      assert forall i :: 0 <= i < |padded| ==> padded[i] == ' ' || padded[i] in name;
    }
    assert Explode(padded) == [padded];
    TrimPadded(name);
    TrimAllSingle(padded);
    assert ListedRoles(OneString(padded)) == [name];
    assert name in [name];
  }

  /** An array argument is not trimmed: the same padded name given as an
      array element does not match. */
  lemma ArrayArgumentIsNotTrimmed(u: User, session: Session, name: string)
    requires EffectiveRole(u, session) == Some(name)
    ensures !HasRoleName(u, session, Names([" " + name + " "]))
  {
    assert |Lower(" " + name + " ")| != |Lower(name)|;
  }

  /** The effective role is compared untrimmed: a padded effective role
      matches no trimmed name given as a string. */
  lemma EffectiveRoleIsNotTrimmed(u: User, session: Session, name: string)
    requires name != [] && IsTrimmed(name) && ',' !in name
    requires EffectiveRole(u, session) == Some(" " + name + " ")
    ensures !HasRoleName(u, session, OneString(name))
  {
    ListedRolesOfOneName(name);
    assert |" " + name + " "| == |name| + 2;
    NoMatchOfOtherLengths(u, session, OneString(name));
  }

  /** A trimmed name without commas, given as a string, lists just itself. */
  lemma ListedRolesOfOneName(name: string)
    requires IsTrimmed(name) && ',' !in name
    ensures ListedRoles(OneString(name)) == [name]
  {
    assert Explode(name) == [name];
    TrimAllSingle(name);
  }

  /** No listed name of another length than the effective role can match it. */
  lemma NoMatchOfOtherLengths(u: User, session: Session, arg: RoleArgument)
    requires EffectiveRole(u, session).Some?
    requires forall a :: a in ListedRoles(arg) ==> |a| != |EffectiveRole(u, session).value|
    ensures !HasRoleName(u, session, arg)
  {
    var e := EffectiveRole(u, session).value;
    forall a | a in ListedRoles(arg)
      ensures Lower(a) != Lower(e)
    {
      LengthsDiffer(a, e);
    }
  }

  lemma LengthsDiffer(a: string, b: string)
    requires |a| != |b|
    ensures Lower(a) != Lower(b)
  {
  }

  /** A comma-separated string names each of its roles. */
  lemma CommaListNamesEach(u: User, session: Session, a: string, b: string)
    requires EffectiveRole(u, session).Some?
    ensures HasRoleName(u, session, OneString(a + "," + b)) <==>
            HasRoleName(u, session, OneString(a)) || HasRoleName(u, session, OneString(b))
  {
    ListedRolesAtComma(a, b);
  }

  lemma ListedRolesAtComma(a: string, b: string)
    ensures ListedRoles(OneString(a + "," + b)) == ListedRoles(OneString(a)) + ListedRoles(OneString(b))
  {
    ExplodeAtComma(a, b);
    TrimAllAppend(Explode(a), Explode(b));
  }
}
