/** The `CheckRole` middleware: it normalises the roles a route requires,
    resolves the current role through session, employee relation and legacy
    column, caches the employee's role in the session, and answers
    Unauthenticated, Allow or Forbidden. */
module CheckRole {
  import opened Php
  import opened Sessions
  import opened Users

  /** The middleware's answer: 401 or a redirect to login, the next stage of
      the pipeline, or 403. */
  datatype Outcome = Unauthenticated | Allow | Forbidden

  predicate NoDuplicates(xs: seq<string>) {
    forall i, j :: 0 <= i < j < |xs| ==> xs[i] != xs[j]
  }

  /** A role name as normalisation leaves it: not falsy, trimmed, no comma. */
  predicate IsCleanRole(x: string) {
    !IsFalsyString(x) && IsTrimmed(x) && ',' !in x
  }

  /** `array_filter($xs)` without a callback: drops "" and "0", keeps order. */
  function KeepTruthy(xs: seq<string>): seq<string>
  {
    if xs == [] then []
    else
      var rest := KeepTruthy(xs[..|xs| - 1]);
      var last := xs[|xs| - 1];
      if IsFalsyString(last) then rest else rest + [last]
  }

  lemma {:induction false} KeepTruthyMembers(xs: seq<string>)
    ensures forall x :: x in KeepTruthy(xs) <==> x in xs && !IsFalsyString(x)
  {
    if xs != [] {
      KeepTruthyMembers(xs[..|xs| - 1]);
      assert xs == xs[..|xs| - 1] + [xs[|xs| - 1]];
    }
  }

  lemma {:induction false} KeepTruthyAppend(xs: seq<string>, ys: seq<string>)
    ensures KeepTruthy(xs + ys) == KeepTruthy(xs) + KeepTruthy(ys)
  {
    if ys != [] {
      var ys' := ys[..|ys| - 1];
      KeepTruthyAppend(xs, ys');
      assert (xs + ys)[..|xs + ys| - 1] == xs + ys';
    } else {
      assert xs + ys == xs;
    }
  }

  /** The filter of CheckRole.php line 154, `$v !== null && $v !== ''`: drops "" only. */
  function KeepNonEmpty(xs: seq<string>): seq<string>
  {
    if xs == [] then []
    else
      var rest := KeepNonEmpty(xs[..|xs| - 1]);
      var last := xs[|xs| - 1];
      if last == "" then rest else rest + [last]
  }

  lemma {:induction false} KeepNonEmptyMembers(xs: seq<string>)
    ensures forall x :: x in KeepNonEmpty(xs) <==> x in xs && x != ""
  {
    if xs != [] {
      KeepNonEmptyMembers(xs[..|xs| - 1]);
      assert xs == xs[..|xs| - 1] + [xs[|xs| - 1]];
    }
  }

  lemma {:induction false} KeepNonEmptyOfNonEmpty(xs: seq<string>)
    requires "" !in xs
    ensures KeepNonEmpty(xs) == xs
  {
    if xs != [] {
      assert xs == xs[..|xs| - 1] + [xs[|xs| - 1]];
      KeepNonEmptyOfNonEmpty(xs[..|xs| - 1]);
    }
  }

  lemma {:induction false} KeepNonEmptyAppend(xs: seq<string>, ys: seq<string>)
    ensures KeepNonEmpty(xs + ys) == KeepNonEmpty(xs) + KeepNonEmpty(ys)
  {
    if ys != [] {
      var ys' := ys[..|ys| - 1];
      KeepNonEmptyAppend(xs, ys');
      assert (xs + ys)[..|xs + ys| - 1] == xs + ys';
    } else {
      assert xs + ys == xs;
    }
  }

  /** `array_unique` followed by `array_values`: the first occurrence of
      each value, in the order of first occurrence. The result has no
      duplicates, the same elements, and is the input itself when that had
      no duplicates. */
  function Unique(xs: seq<string>): (r: seq<string>)
    ensures NoDuplicates(r)
    ensures forall x :: x in r <==> x in xs
  {
    if xs == [] then []
    else
      var init := xs[..|xs| - 1];
      var last := xs[|xs| - 1];
      assert xs == init + [last];
      var rest := Unique(init);
      if last in rest then rest else rest + [last]
  }

  lemma {:induction false} UniqueOfDistinct(xs: seq<string>)
    requires NoDuplicates(xs)
    ensures Unique(xs) == xs
  {
    if xs != [] {
      var init := xs[..|xs| - 1];
      assert xs == init + [xs[|xs| - 1]];
      UniqueOfDistinct(init);
    }
  }

  /** Appending values never reorders the unique values already seen. */
  lemma {:induction false} UniquePrefix(xs: seq<string>, ys: seq<string>)
    ensures Unique(xs) <= Unique(xs + ys)
  {
    if ys != [] {
      var ys' := ys[..|ys| - 1];
      UniquePrefix(xs, ys');
      assert (xs + ys)[..|xs + ys| - 1] == xs + ys';
    } else {
      assert xs + ys == xs;
    }
  }

  /** What one middleware parameter contributes (CheckRole.php line 149):
      `array_filter(array_map('trim', explode(',', $r)))`. */
  function Parts(r: string): seq<string>
  {
    KeepTruthy(TrimAll(Explode(r)))
  }

  lemma PartsAreClean(r: string)
    ensures forall p :: p in Parts(r) ==> IsCleanRole(p)
  {
    var trimmed := TrimAll(Explode(r));
    ExplodePiecesHaveNoComma(r);
    assert forall k :: 0 <= k < |trimmed| ==> ',' !in trimmed[k];
    KeepTruthyMembers(trimmed);
  }

  /** `array_merge` of what `f` gives for each element, left to right. */
  function MergeMap(xs: seq<string>, f: string -> seq<string>): seq<string>
  {
    if xs == [] then [] else MergeMap(xs[..|xs| - 1], f) + f(xs[|xs| - 1])
  }

  lemma MergeMapSnoc(init: seq<string>, last: string, f: string -> seq<string>)
    ensures MergeMap(init + [last], f) == MergeMap(init, f) + f(last)
  {
    assert (init + [last])[..|init|] == init;
  }

  lemma MergeMapPair(a: string, b: string, f: string -> seq<string>)
    ensures MergeMap([a, b], f) == f(a) + f(b)
  {
    assert [a, b] == [a] + [b];
    MergeMapSnoc([a], b, f);
    assert [a] == [] + [a];
    MergeMapSnoc([], a, f);
  }

  lemma {:induction false} MergeMapAppend(xs: seq<string>, ys: seq<string>, f: string -> seq<string>)
    ensures MergeMap(xs + ys, f) == MergeMap(xs, f) + MergeMap(ys, f)
  {
    if ys != [] {
      var ys', last := ys[..|ys| - 1], ys[|ys| - 1];
      assert ys == ys' + [last];
      assert xs + ys == (xs + ys') + [last];
      MergeMapAppend(xs, ys', f);
      MergeMapSnoc(xs + ys', last, f);
      MergeMapSnoc(ys', last, f);
    } else {
      assert xs + ys == xs;
    }
  }

  /** The list the loop of CheckRole.php lines 144-151 builds with `array_merge`. */
  function Collect(roles: seq<string>): seq<string>
  {
    MergeMap(roles, Parts)
  }

  lemma {:induction false} CollectIsClean(roles: seq<string>)
    ensures forall p :: p in Collect(roles) ==> IsCleanRole(p)
  {
    if roles != [] {
      CollectIsClean(roles[..|roles| - 1]);
      PartsAreClean(roles[|roles| - 1]);
    }
  }

  /** The result of `normalizeAllowedRoles`: the merged parts with empty
      entries dropped, made unique. No entry is falsy, untrimmed or holds a
      comma; no entry repeats; and the entries are exactly the parts. */
  function Normalized(roles: seq<string>): (r: seq<string>)
    ensures NoDuplicates(r)
    ensures forall x :: x in r ==> IsCleanRole(x)
    ensures forall x :: x in r <==> x in Collect(roles)
  {
    CollectIsClean(roles);
    KeepNonEmptyMembers(Collect(roles));
    Unique(KeepNonEmpty(Collect(roles)))
  }

  /** `CheckRole::normalizeAllowedRoles`: the loop over the parameters, then
      the filter and `array_unique`. No entry is empty or "0", holds a
      comma or is untrimmed, and no entry repeats. */
  method NormalizeAllowedRoles(roles: seq<string>) returns (allowed: seq<string>)
    ensures allowed == Normalized(roles)
    ensures NoDuplicates(allowed)
    ensures forall x :: x in allowed ==> x != "" && x != "0" && ',' !in x && Trim(x) == x
  {
    allowed := [];
    for i := 0 to |roles|
      invariant allowed == Collect(roles[..i])
    {
      var r := roles[i];
      CollectStep(roles, i);
      if r == "" {
        PartsOfEmpty();
        continue;
      }
      var parts := Parts(r);
      allowed := allowed + parts;
    }
    assert roles[..|roles|] == roles;
    allowed := Unique(KeepNonEmpty(allowed));
  }

  lemma KeepTruthySingle(x: string)
    ensures KeepTruthy([x]) == if IsFalsyString(x) then [] else [x]
  {
    assert [x][..0] == [];
  }

  lemma {:induction false} KeepTruthyOfFalsy(xs: seq<string>)
    requires forall x :: x in xs ==> IsFalsyString(x)
    ensures KeepTruthy(xs) == []
  {
    if xs != [] {
      var init := xs[..|xs| - 1];
      assert forall x :: x in init ==> x in xs;
      assert xs[|xs| - 1] in xs;
      KeepTruthyOfFalsy(init);
    }
  }

  /** A clean role name is its own single part. */
  lemma PartsOfClean(x: string)
    requires IsCleanRole(x)
    ensures Parts(x) == [x]
  {
    assert Explode(x) == [x];
    TrimAllSingle(x);
    KeepTruthySingle(x);
  }

  lemma CollectSnoc(init: seq<string>, last: string)
    ensures Collect(init + [last]) == Collect(init) + Parts(last)
  {
    MergeMapSnoc(init, last, Parts);
  }

  lemma CollectStep(roles: seq<string>, i: nat)
    requires i < |roles|
    ensures Collect(roles[..i + 1]) == Collect(roles[..i]) + Parts(roles[i])
  {
    assert roles[..i + 1][..i] == roles[..i];
  }

  lemma {:induction false} CollectOfClean(xs: seq<string>)
    requires forall x :: x in xs ==> IsCleanRole(x)
    ensures Collect(xs) == xs
  {
    if xs != [] {
      var init, last := xs[..|xs| - 1], xs[|xs| - 1];
      assert xs == init + [last];
      assert forall x :: x in init ==> x in xs;
      CollectOfClean(init);
      PartsOfClean(last);
      CollectSnoc(init, last);
    }
  }

  /** Normalising is idempotent: its output normalises to itself. */
  lemma NormalizedIdempotent(roles: seq<string>)
    ensures Normalized(Normalized(roles)) == Normalized(roles)
  {
    var n := Normalized(roles);
    CollectOfClean(n);
    KeepNonEmptyOfNonEmpty(n);
    UniqueOfDistinct(n);
  }

  lemma CollectAppend(xs: seq<string>, ys: seq<string>)
    ensures Collect(xs + ys) == Collect(xs) + Collect(ys)
  {
    MergeMapAppend(xs, ys, Parts);
  }

  lemma PartsAtComma(a: string, b: string)
    ensures Parts(a + "," + b) == Parts(a) + Parts(b)
  {
    ExplodeAtComma(a, b);
    TrimAllAppend(Explode(a), Explode(b));
    KeepTruthyAppend(TrimAll(Explode(a)), TrimAll(Explode(b)));
  }

  lemma CollectAround(pre: seq<string>, mid: seq<string>, post: seq<string>)
    ensures Collect(pre + mid + post) == Collect(pre) + Collect(mid) + Collect(post)
  {
    CollectAppend(pre + mid, post);
    CollectAppend(pre, mid);
  }

  lemma CollectPair(a: string, b: string)
    ensures Collect([a, b]) == Parts(a) + Parts(b)
  {
    MergeMapPair(a, b, Parts);
  }

  /** A parameter "a,b" normalises like the two parameters "a" and "b",
      wherever it stands among the others. */
  lemma CommaListEquivalence(pre: seq<string>, a: string, b: string, post: seq<string>)
    ensures Normalized(pre + [a + "," + b] + post) == Normalized(pre + [a, b] + post)
  {
    CollectAround(pre, [a + "," + b], post);
    CollectAround(pre, [a, b], post);
    CollectSingle(a + "," + b);
    PartsAtComma(a, b);
    CollectPair(a, b);
  }

  lemma PartsOfEmpty()
    ensures Parts("") == []
  {
    TrimAllSingle("");
    KeepTruthySingle("");
  }

  lemma CollectSingle(x: string)
    ensures Collect([x]) == Parts(x)
  {
    CollectSnoc([], x);
    assert [] + [x] == [x];
  }

  lemma PartsOfJoinStep(x: string, rest: seq<string>)
    requires rest != []
    ensures Parts(Join([x] + rest)) == Parts(x) + Parts(Join(rest))
  {
    assert ([x] + rest)[1..] == rest;
    PartsAtComma(x, Join(rest));
  }

  lemma CollectCons(x: string, rest: seq<string>)
    ensures Collect([x] + rest) == Parts(x) + Collect(rest)
  {
    CollectAppend([x], rest);
    CollectSingle(x);
  }

  /** The parts of an `implode(',', ...)` are the parts of its pieces. */
  lemma {:induction false} PartsOfJoin(xs: seq<string>)
    ensures Parts(Join(xs)) == Collect(xs)
  {
    if xs == [] {
      PartsOfEmpty();
    } else if |xs| == 1 {
      CollectSingle(xs[0]);
    } else {
      var x, rest := xs[0], xs[1..];
      assert xs == [x] + rest;
      PartsOfJoin(rest);
      PartsOfJoinStep(x, rest);
      CollectCons(x, rest);
    }
  }

  /** One comma-separated parameter and the same roles as separate
      parameters normalise to the same list. */
  lemma JoinedListEquivalence(xs: seq<string>)
    ensures Normalized([Join(xs)]) == Normalized(xs)
  {
    PartsOfJoin(xs);
    CollectSingle(Join(xs));
  }

  /** First-occurrence order: further parameters only ever add roles at the
      end of the normalised list. */
  lemma FirstOccurrenceOrder(roles: seq<string>, k: nat)
    requires k <= |roles|
    ensures Normalized(roles[..k]) <= Normalized(roles)
  {
    assert roles == roles[..k] + roles[k..];
    CollectAppend(roles[..k], roles[k..]);
    KeepNonEmptyAppend(Collect(roles[..k]), Collect(roles[k..]));
    UniquePrefix(KeepNonEmpty(Collect(roles[..k])), KeepNonEmpty(Collect(roles[k..])));
  }

  /** Each character of a piece of `explode` occurs in the exploded string. */
  lemma {:induction false} ExplodePiecesChars(s: string)
    ensures forall k, c :: 0 <= k < |Explode(s)| && c in Explode(s)[k] ==> c in s
  {
    if s != [] {
      ExplodePiecesChars(s[1..]);
      ExplodeCons(s[0], s[1..]);
      assert s == [s[0]] + s[1..];
    }
  }

  predicate IsSeparatorsOnly(r: string) {
    forall c :: c in r ==> c == ',' || IsTrimChar(c)
  }

  lemma PartsOfSeparators(r: string)
    requires IsSeparatorsOnly(r)
    ensures Parts(r) == []
  {
    var pieces := Explode(r);
    ExplodePiecesChars(r);
    ExplodePiecesHaveNoComma(r);
    var trimmed := TrimAll(pieces);
    forall k | 0 <= k < |trimmed|
      ensures trimmed[k] == ""
    {
      TrimOfBlank(pieces[k]);
    }
    KeepTruthyOfFalsy(trimmed);
  }

  lemma {:induction false} CollectOfSeparators(roles: seq<string>)
    requires forall r :: r in roles ==> IsSeparatorsOnly(r)
    ensures Collect(roles) == []
  {
    if roles != [] {
      var init := roles[..|roles| - 1];
      assert forall r :: r in init ==> r in roles;
      CollectOfSeparators(init);
      PartsOfSeparators(roles[|roles| - 1]);
    }
  }

  /** `Str::lower(trim($v))` on each element. */
  function Comparable(xs: seq<string>): (r: seq<string>)
    ensures |r| == |xs|
    ensures forall i :: 0 <= i < |xs| ==> r[i] == Lower(Trim(xs[i]))
  {
    seq(|xs|, i requires 0 <= i < |xs| => Lower(Trim(xs[i])))
  }

  /** `$roleFromSession ?? $roleFromEmployee ?? $roleFromUserColumn` (CheckRole.php line 84):
      only an absent value falls through, so a session role of "" is kept.
      The session is the one read at CheckRole.php line 56, before the write-back. */
  function CurrentRole(u: User, session: Session): (r: Option<Scalar>)
    ensures RoleKey in session ==> r == Some(session[RoleKey])
    ensures RoleKey !in session && RoleFromEmployee(u).Some? ==> r == Some(Str(RoleFromEmployee(u).value))
    ensures RoleKey !in session && RoleFromEmployee(u).None? && u.legacyRole.Some? ==> r == Some(Str(u.legacyRole.value))
    ensures r.None? <==> RoleKey !in session && RoleFromEmployee(u).None? && u.legacyRole.None?
  {
    match Get(session, RoleKey)
    case Some(v) => Some(v)
    case None =>
      match RoleFromEmployee(u)
      case Some(t) => Some(Str(t))
      case None =>
        match u.legacyRole
        case Some(c) => Some(Str(c))
        case None => None
  }

  /** The employee relation yields a role that is not `empty` (CheckRole.php line 69),
      which is then cached in the session. */
  predicate CachesEmployeeRole(u: User) {
    u.employee.Some? && u.employee.value.roleTitle.Some? && !IsFalsyString(u.employee.value.roleTitle.value)
  }

  /** The session after CheckRole.php lines 62-72: `role` and `employee_id` overwritten
      with the employee's role and id when that role is not `empty`; no
      other key changes, and nothing changes otherwise. */
  function SessionAfter(u: User, session: Session): (s: Session)
    ensures CachesEmployeeRole(u) ==>
      RoleKey in s && s[RoleKey] == Str(u.employee.value.roleTitle.value) &&
      EmployeeIdKey in s && s[EmployeeIdKey] == Num(u.employee.value.id)
    ensures !CachesEmployeeRole(u) ==> s == session
    ensures forall k :: k != RoleKey && k != EmployeeIdKey ==> (k in s <==> k in session)
    ensures forall k :: k != RoleKey && k != EmployeeIdKey && k in s ==> s[k] == session[k]
  {
    if CachesEmployeeRole(u) then
      session[RoleKey := Str(u.employee.value.roleTitle.value)][EmployeeIdKey := Num(u.employee.value.id)]
    else session
  }

  /** CheckRole.php lines 103-126: the current role, when truthy, trimmed and
      lower-cased, must occur among the trimmed, lower-cased allowed roles.
      The answer is never Unauthenticated; a missing or falsy current role,
      or an empty list, is Forbidden. */
  function Match(current: Option<Scalar>, allowed: seq<string>): (o: Outcome)
    ensures o != Unauthenticated
    ensures current.None? || !Truthy(current.value) || allowed == [] ==> o == Forbidden
    ensures o == Allow ==> exists i :: 0 <= i < |allowed| && Lower(Trim(allowed[i])) == Lower(Trim(AsString(current.value)))
  {
    var normalized := if current.Some? && Truthy(current.value) then Some(Lower(Trim(AsString(current.value)))) else None;
    if normalized.Some? && normalized.value in Comparable(allowed) then Allow else Forbidden
  }

  /** The decision of `CheckRole::handle` for a user (or none), the route's
      role parameters and the session as it was when the request came in.
      Without a user it is Unauthenticated, whatever the parameters; with
      one it is never Unauthenticated, and with no required role it is Allow. */
  function Decide(user: Option<User>, roles: seq<string>, session: Session): (o: Outcome)
    ensures user.None? <==> o == Unauthenticated
    ensures user.Some? && Normalized(roles) == [] ==> o == Allow
  {
    if user.None? then Unauthenticated
    else if Normalized(roles) == [] then Allow
    else Match(CurrentRole(user.value, session), Normalized(roles))
  }

  /** `CheckRole::handle`: checks authentication, normalises the parameters,
      reads the session role, caches the employee's role and id in the
      session, and decides. */
  method Handle(user: Option<User>, roles: seq<string>, session: SessionStore) returns (o: Outcome)
    modifies session
    ensures o == Decide(user, roles, old(session.data))
    ensures user.None? ==> session.data == old(session.data)
    ensures user.Some? ==> session.data == SessionAfter(user.value, old(session.data))
  {
    if user.None? {
      return Unauthenticated;
    }
    var u := user.value;
    var allowed := NormalizeAllowedRoles(roles);
    var roleFromSession := Get(session.data, RoleKey);
    var roleFromEmployee: Option<string> := None;
    var roleFromUserColumn := u.legacyRole;
    if u.employee.Some? {
      var employee := u.employee.value;
      roleFromEmployee := employee.roleTitle;
      if roleFromEmployee.Some? && !IsFalsyString(roleFromEmployee.value) {
        session.Put(RoleKey, Str(roleFromEmployee.value));
        session.Put(EmployeeIdKey, Num(employee.id));
      }
    }
    var currentRole: Option<Scalar> :=
      if roleFromSession.Some? then roleFromSession
      else if roleFromEmployee.Some? then Some(Str(roleFromEmployee.value))
      else if roleFromUserColumn.Some? then Some(Str(roleFromUserColumn.value))
      else None;
    if allowed == [] {
      return Allow;
    }
    o := Match(currentRole, allowed);
  }

  lemma ComparableOfClean(xs: seq<string>)
    requires forall x :: x in xs ==> IsCleanRole(x)
    ensures forall y :: y in Comparable(xs) ==> !IsFalsyString(y)
  {
    forall i | 0 <= i < |xs|
      ensures !IsFalsyString(Comparable(xs)[i])
    {
      assert xs[i] in xs;
      assert Trim(xs[i]) == xs[i];
      LowerOfFalsy(xs[i]);
    }
  }

  /** Matching against clean role names: Allow exactly when the trimmed,
      lower-cased current role is non-empty and among the trimmed,
      lower-cased role names. */
  lemma MatchExactly(current: Option<Scalar>, allowed: seq<string>)
    requires forall x :: x in allowed ==> IsCleanRole(x)
    ensures Match(current, allowed) == Allow <==>
      current.Some? && Lower(Trim(AsString(current.value))) != "" &&
      Lower(Trim(AsString(current.value))) in Comparable(allowed)
  {
    ComparableOfClean(allowed);
    if current.Some? && !Truthy(current.value) {
      var s := AsString(current.value);
      assert IsTrimmed(s);
      LowerOfFalsy(s);
    }
  }

  /** With required roles, the answer is Allow exactly when the trimmed,
      lower-cased current role is non-empty and among the trimmed,
      lower-cased required roles; otherwise it is Forbidden. */
  lemma AllowsExactlyOnMatch(u: User, roles: seq<string>, session: Session)
    requires Normalized(roles) != []
    ensures Decide(Some(u), roles, session) == Allow <==>
      CurrentRole(u, session).Some? &&
      Lower(Trim(AsString(CurrentRole(u, session).value))) != "" &&
      Lower(Trim(AsString(CurrentRole(u, session).value))) in Comparable(Normalized(roles))
    ensures Decide(Some(u), roles, session) != Allow ==> Decide(Some(u), roles, session) == Forbidden
  {
    MatchExactly(CurrentRole(u, session), Normalized(roles));
  }

  /** Parameters made only of commas and whitespace require no role, so
      every authenticated user is let through. */
  lemma SeparatorParametersAreOpen(u: User, roles: seq<string>, session: Session)
    requires forall r :: r in roles ==> IsSeparatorsOnly(r)
    ensures Normalized(roles) == []
    ensures Decide(Some(u), roles, session) == Allow
  {
    CollectOfSeparators(roles);
  }

  /** A session role of "" does not fall through to the employee or the
      column: it is the current role and is denied. */
  lemma EmptySessionRoleIsDenied(u: User, roles: seq<string>, session: Session)
    requires RoleKey in session && session[RoleKey] == Str("")
    requires Normalized(roles) != []
    ensures CurrentRole(u, session) == Some(Str(""))
    ensures Decide(Some(u), roles, session) == Forbidden
  {
  }

  /** Comparison ignores surrounding whitespace and letter case: a session
      role that trims and lower-cases to a required role is allowed. */
  lemma CaseAndSpaceInsensitive(u: User, roles: seq<string>, session: Session, required: string)
    requires required in Normalized(roles)
    requires RoleKey in session && session[RoleKey].Str?
    requires Lower(Trim(session[RoleKey].text)) == Lower(required)
    ensures Decide(Some(u), roles, session) == Allow
  {
    var allowed := Normalized(roles);
    var i :| 0 <= i < |allowed| && allowed[i] == required;
    assert Comparable(allowed)[i] == Lower(required);
    LowerOfFalsy(required);
    AllowsExactlyOnMatch(u, roles, session);
  }

  /** A single clean role name normalises to itself. */
  lemma NormalizedSingle(name: string)
    requires IsCleanRole(name)
    ensures Normalized([name]) == [name]
  {
    CollectSingle(name);
    PartsOfClean(name);
    KeepNonEmptyOfNonEmpty([name]);
    UniqueOfDistinct([name]);
  }

  /** The write-back happens before the decision and whatever its result,
      while the decision uses the session role read before it. An employee
      whose role is not allowed is denied, and the session afterwards holds
      that role and the employee's id. */
  lemma CacheWrittenEvenWhenDenied(u: User, roles: seq<string>, session: Session)
    requires RoleKey !in session && CachesEmployeeRole(u)
    requires Lower(Trim(u.employee.value.roleTitle.value)) !in Comparable(Normalized(roles))
    ensures Normalized(roles) != [] ==> Decide(Some(u), roles, session) == Forbidden
    ensures SessionAfter(u, session)[RoleKey] == Str(u.employee.value.roleTitle.value)
    ensures SessionAfter(u, session)[EmployeeIdKey] == Num(u.employee.value.id)
  {
    MatchExactly(CurrentRole(u, session), Normalized(roles));
  }

  /** A stale session role decides the current request, although the
      employee's role is already cached for the next one: with the session
      role not allowed and the employee's role allowed, this request is
      Forbidden and the next one, on the updated session, is Allowed. */
  lemma StaleSessionRoleDecides(u: User, roles: seq<string>, session: Session)
    requires CachesEmployeeRole(u)
    requires RoleKey in session && session[RoleKey].Str?
    requires Lower(Trim(session[RoleKey].text)) !in Comparable(Normalized(roles))
    requires Lower(Trim(u.employee.value.roleTitle.value)) in Comparable(Normalized(roles))
    ensures Decide(Some(u), roles, session) == Forbidden
    ensures Decide(Some(u), roles, SessionAfter(u, session)) == Allow
  {
    assert |Comparable(Normalized(roles))| > 0;
    SessionRoleNotAllowedIsForbidden(u, roles, session);
    CachedRoleAllowedIsAllowed(u, roles, session);
  }

  /** With required roles, a string session role that is not among them is
      denied, whatever the employee's role. */
  lemma SessionRoleNotAllowedIsForbidden(u: User, roles: seq<string>, session: Session)
    requires Normalized(roles) != []
    requires RoleKey in session && session[RoleKey].Str?
    requires Lower(Trim(session[RoleKey].text)) !in Comparable(Normalized(roles))
    ensures Decide(Some(u), roles, session) == Forbidden
  {
    assert CurrentRole(u, session) == Some(session[RoleKey]);
  }

  /** Once the employee's role is cached, it decides: when it is among the
      required roles, the request on the updated session is allowed. */
  lemma CachedRoleAllowedIsAllowed(u: User, roles: seq<string>, session: Session)
    requires CachesEmployeeRole(u)
    requires Lower(Trim(u.employee.value.roleTitle.value)) in Comparable(Normalized(roles))
    ensures Decide(Some(u), roles, SessionAfter(u, session)) == Allow
  {
    var allowed := Normalized(roles);
    assert allowed != [] by {
      assert |Comparable(allowed)| > 0;
    }
    assert CurrentRole(u, SessionAfter(u, session)) == Some(Str(u.employee.value.roleTitle.value));
  }

  /** The two cascades agree whenever every source that is present is
      truthy: the middleware's current role, cast to a string, is the
      model's effective role. */
  lemma CascadesAgreeOnTruthySources(u: User, session: Session)
    requires RoleKey in session ==> Truthy(session[RoleKey])
    requires RoleFromEmployee(u).Some? ==> !IsFalsyString(RoleFromEmployee(u).value)
    ensures CurrentRole(u, session).None? <==> EffectiveRole(u, session).None?
    ensures CurrentRole(u, session).Some? ==> EffectiveRole(u, session) == Some(AsString(CurrentRole(u, session).value))
  {
  }

  /** The two cascades differ on a falsy session role: the middleware keeps
      "" while the model falls through to the employee's role. */
  lemma CascadesDifferOnEmptySessionRole(u: User, session: Session)
    requires RoleKey in session && session[RoleKey] == Str("")
    requires RoleFromEmployee(u).Some? && !IsFalsyString(RoleFromEmployee(u).value)
    ensures CurrentRole(u, session) == Some(Str(""))
    ensures EffectiveRole(u, session) == RoleFromEmployee(u)
  {
  }

  /** The middleware trims the current role and `hasRoleName` does not: a
      session role padded with spaces passes the middleware for that role
      name and fails `hasRoleName` for the same name. */
  lemma MiddlewareTrimsHasRoleNameDoesNot(u: User, session: Session, name: string)
    requires IsCleanRole(name)
    requires RoleKey in session && session[RoleKey] == Str(" " + name + " ")
    ensures Decide(Some(u), [name], session) == Allow
    ensures !HasRoleName(u, session, OneString(name))
  {
    PaddedSessionRoleIsAllowed(u, session, name);
    PaddedSessionRoleIsEffective(u, session, name);
    EffectiveRoleIsNotTrimmed(u, session, name);
  }

  lemma PaddedSessionRoleIsAllowed(u: User, session: Session, name: string)
    requires IsCleanRole(name)
    requires RoleKey in session && session[RoleKey] == Str(" " + name + " ")
    ensures Decide(Some(u), [name], session) == Allow
  {
    NormalizedSingle(name);
    TrimPadded(name);
    CaseAndSpaceInsensitive(u, [name], session, name);
  }

  lemma PaddedSessionRoleIsEffective(u: User, session: Session, name: string)
    requires RoleKey in session && session[RoleKey] == Str(" " + name + " ")
    ensures EffectiveRole(u, session) == Some(" " + name + " ")
  {
    var padded := " " + name + " ";
    assert |padded| >= 2 && padded[0] == ' ';
  }
}
