# Reltroner HR: role checks and record tables, in Dafny

This project models the core of a Laravel HR application, in two parts.

**Who may do what.** `CheckRole` is the route middleware that guards pages by role. It:

- turns its role parameters (`role:Admin,HR Manager`) into a list of role names;
- finds the current user's role through a cascade: session role, then the employee's role title, then the legacy `role` column;
- caches the employee's role and id in the session;
- answers Unauthenticated, Allow or Forbidden.

The `User` model has a second, separate cascade (`effectiveRole`), a role-name check built on it (`hasRoleName`) and a display-name accessor.

**Attendance, leave and payroll.** Three controllers keep a table each:

- presences: at most one per employee and day on every insert path;
- leave requests: pending when an ordinary employee files one, approved or rejected by overwriting the status;
- payrolls: at most one per employee and payment date, with a net salary of salary + bonus − deduction, listed newest first.

## Layout

| file | module | models |
|---|---|---|
| php.dfy | Php | the PHP built-ins the code relies on: `trim`, ASCII `Str::lower`, `explode`/`implode` on commas, truthiness of strings and scalars, the `(string)` cast of an id |
| sessions.dfy | Sessions | the session as a map from keys to scalars, the Admin/HR Manager test, and a `SessionStore` class the middleware updates in place |
| users.dfy | Users | `effectiveRole`, `hasRoleName` and `display_name` as functions |
| check_role.dfy | CheckRole | `normalizeAllowedRoles` as a loop method proved against a function, and `handle` as a method that writes the session and returns the function `Decide` |
| tables.dfy | Tables | what the controllers share: rows with auto-increment ids, lookup by id (`findOrFail` and route binding), `where`, `delete` |
| presences.dfy | Presences | `PresenceController` as a class over a sequence of rows |
| leave_requests.dfy | LeaveRequests | `LeaveRequestController` as a class over a sequence of rows |
| payrolls.dfy | Payrolls | `PayrollController` as a class over a sequence of rows, with the newest-first ordering |

### Modelling choices

- **Requests.** A request form is modelled as its fields already parsed. A required field that is missing, or that fails its `date`, `date_format` or `numeric` rule, is `None`. The two `nullable` payroll amounts have three states: `Absent` (left out or null), `Malformed` (a non-blank value that is not numeric, which fails the rule) and `Given`. Laravel skips the `numeric` rule on a blank string, and the controller's `isset` and `(float)` cast then give 0, so `""` is modelled as `Absent`, with the same result.
- **Validation.** Each rule list becomes a predicate. A rejected form is answered `Refused(Invalid)` and changes nothing.
- **Dates and times.**
  - Dates are day numbers; times are seconds since the epoch.
  - A `Y-m-d` string stored in a date-time column means midnight of that day.
  - "Today" and "now" are parameters.
- **Employees.** The set of existing employee ids stands for the rule `exists:employees,id`.
- **Session values.** The session maps keys to values that are either strings or integers, because the middleware puts the employee id into the session as an integer.
  - `session('employee_id')` is read as an employee id only when it is an integer.
  - The record columns for presences and leave requests hold an optional id. `where('employee_id', null)` is a `whereNull` query, so a session without an id sees exactly the rows without one.
- **Privilege test.** `PresenceController` compares the session role with `==` and `in_array`; the other two controllers use `===`. For string and integer session values these give the same answer, so one predicate, `IsPrivileged`, serves all three.
- **Update times.** `PresenceController::update` rewrites `check_in` and `check_out` to `date('Y-m-d H:i:s', strtotime(...))` before validating (lines 125-128). A missing or unparsable time therefore becomes the epoch rather than failing `required`. The model does the same.

## Model

| member | source | states |
|---|---|---|
| Php.Trim | app/Http/Middleware/CheckRole.php:149 | the result has no trim character at either end; it equals the input exactly when the input was already trimmed; it introduces no new character |
| Php.TrimRemovesEndsOnly | app/Http/Middleware/CheckRole.php:149 | `trim` gives the slice of the input left after removing trim characters from its two ends, and from nowhere else |
| Php.TrimOfBlank | app/Http/Middleware/CheckRole.php:149 | a string made only of trim characters trims to "" |
| Php.TrimPadded | app/Http/Middleware/CheckRole.php:103 | a trimmed word with one space on each side trims back to the word |
| Php.Lower | app/Http/Middleware/CheckRole.php:103-106 | same length, no upper-case letter left, every other character kept, each upper-case letter shifted by 32 |
| Php.LowerOfFalsy | app/Http/Middleware/CheckRole.php:103-106 | lower-casing gives "0" only for "0", and "" only for "" |
| Php.Explode | app/Http/Middleware/CheckRole.php:149 | at least one piece; a string without a comma is its own single piece |
| Php.ExplodePiecesHaveNoComma | app/Http/Middleware/CheckRole.php:149 | no piece of `explode(',')` contains a comma |
| Php.ExplodeAtComma | app/Http/Middleware/CheckRole.php:149 | exploding `a,b` gives the pieces of `a` followed by the pieces of `b` |
| Php.JoinExplode | app/Http/Middleware/CheckRole.php:149 | `implode` after `explode` gives back the original string |
| Php.ExplodeJoin | app/Http/Middleware/CheckRole.php:149 | `explode` after `implode` gives back the pieces when none contains a comma |
| Php.Decimal | app/Http/Middleware/CheckRole.php:103 | the decimal spelling of an id: non-empty digits whose value is the id, starting with '0' exactly for zero |
| Php.AsString | app/Http/Middleware/CheckRole.php:103 | the `(string)` cast keeps truthiness, in both directions |
| Sessions.Get | app/Http/Middleware/CheckRole.php:56 | `session($key)` is present exactly when the key is stored, and is then the stored value |
| Sessions.SessionEmployeeId | app/Http/Controllers/PresenceController.php:75 | the session's employee id is present exactly when an integer is stored under `employee_id`, and is then that integer |
| Sessions.PrivilegedIsExact | app/Http/Controllers/LeaveRequestController.php:39 | privileged exactly when the session role is the string 'Admin' or 'HR Manager'; no other spelling passes |
| Sessions.SessionStore.Put | app/Http/Middleware/CheckRole.php:70-71 | `put` overwrites one key and leaves every other key as it was |
| Users.RoleFromEmployee | app/Models/User.php:117-118 | there is no employee role without an employee; otherwise it is the employee's role title |
| Users.EffectiveRole | app/Models/User.php:109-125 | a truthy session role wins, cast to a string; otherwise the employee's role if truthy; otherwise the legacy column, even when that is "" or "0"; a falsy result can only come from the column |
| Users.ListedRoles | app/Models/User.php:149 | a string argument becomes its trimmed comma-separated pieces; an array argument is used unchanged |
| Users.HasRoleName | app/Models/User.php:144-151 | false without an effective role; otherwise true exactly when some listed name equals the effective role up to letter case |
| Users.StringArgumentIsTrimmed | app/Models/User.php:149 | a role name given as a string padded with spaces still matches |
| Users.ArrayArgumentIsNotTrimmed | app/Models/User.php:149-151 | the same padded name given inside an array does not match |
| Users.EffectiveRoleIsNotTrimmed | app/Models/User.php:150-151 | a padded effective role matches no trimmed name, because the effective role itself is not trimmed |
| Users.ListedRolesAtComma | app/Models/User.php:149 | the list for `a,b` is the list for `a` followed by the list for `b` |
| Users.CommaListNamesEach | app/Models/User.php:149-151 | `hasRoleName('a,b')` holds exactly when `hasRoleName('a')` or `hasRoleName('b')` holds |
| Users.DisplayName | app/Models/User.php:92-96 | the employee's full name when it is present and truthy, otherwise the user's name |
| CheckRole.KeepTruthyMembers | app/Http/Middleware/CheckRole.php:149 | `array_filter` keeps exactly the entries that are neither "" nor "0" |
| CheckRole.KeepTruthyAppend | app/Http/Middleware/CheckRole.php:149 | filtering a concatenation filters each part, in order |
| CheckRole.KeepTruthyOfFalsy | app/Http/Middleware/CheckRole.php:149 | a list of falsy entries filters to nothing |
| CheckRole.KeepNonEmptyMembers | app/Http/Middleware/CheckRole.php:154-156 | the final filter keeps exactly the entries that are not "" |
| CheckRole.KeepNonEmptyOfNonEmpty | app/Http/Middleware/CheckRole.php:154-156 | on a list without "" the final filter changes nothing |
| CheckRole.Unique | app/Http/Middleware/CheckRole.php:154 | `array_unique` leaves no duplicates and keeps exactly the same set of values |
| CheckRole.UniqueOfDistinct | app/Http/Middleware/CheckRole.php:154 | `array_unique` of a list without duplicates is that list |
| CheckRole.UniquePrefix | app/Http/Middleware/CheckRole.php:154 | the unique values of a prefix are a prefix of the unique values of the whole list, so first occurrences keep their order |
| CheckRole.PartsAreClean | app/Http/Middleware/CheckRole.php:149 | every part of one parameter is truthy, trimmed and free of commas |
| CheckRole.PartsOfClean | app/Http/Middleware/CheckRole.php:149 | a clean role name is its own single part |
| CheckRole.PartsAtComma | app/Http/Middleware/CheckRole.php:149 | the parts of `a,b` are the parts of `a` followed by the parts of `b` |
| CheckRole.PartsOfSeparators | app/Http/Middleware/CheckRole.php:149 | a parameter made only of commas and whitespace contributes no part |
| CheckRole.PartsOfJoin | app/Http/Middleware/CheckRole.php:149-150 | the parts of `implode(',', xs)` are what the loop collects from the parameters `xs` |
| CheckRole.CollectIsClean | app/Http/Middleware/CheckRole.php:144-151 | everything the loop collects is truthy, trimmed and free of commas |
| CheckRole.CollectOfClean | app/Http/Middleware/CheckRole.php:144-151 | a list of clean names is collected unchanged |
| CheckRole.CollectOfSeparators | app/Http/Middleware/CheckRole.php:144-151 | parameters made only of commas and whitespace collect nothing |
| CheckRole.Normalized | app/Http/Middleware/CheckRole.php:140-159 | the normalised list has no duplicates; every entry is truthy, trimmed and free of commas; its entries are exactly the collected parts |
| CheckRole.NormalizeAllowedRoles | app/Http/Middleware/CheckRole.php:140-159 | the loop with `continue` and `array_merge`, then the filter and `array_unique`, computes `Normalized`: no entry is "", "0", untrimmed or holds a comma, and none repeats |
| CheckRole.NormalizedIdempotent | app/Http/Middleware/CheckRole.php:140-159 | normalising the output again returns the same list |
| CheckRole.NormalizedSingle | app/Http/Middleware/CheckRole.php:133 | `['Admin']` normalises to `['Admin']`, and so does any clean name |
| CheckRole.CommaListEquivalence | app/Http/Middleware/CheckRole.php:132-135 | a parameter `a,b` normalises like the two parameters `a` and `b`, wherever it stands among the others |
| CheckRole.JoinedListEquivalence | app/Http/Middleware/CheckRole.php:144-156 | one comma-joined parameter and the same names as separate parameters normalise to the same list |
| CheckRole.FirstOccurrenceOrder | app/Http/Middleware/CheckRole.php:150-156 | the normalised list of the first k parameters is a prefix of the normalised list of all of them |
| CheckRole.SeparatorParametersAreOpen | app/Http/Middleware/CheckRole.php:87-90 | parameters made only of commas and whitespace normalise to an empty list, so every authenticated user is allowed |
| CheckRole.Comparable | app/Http/Middleware/CheckRole.php:104-106 | each allowed role is trimmed and lower-cased, position by position |
| CheckRole.ComparableOfClean | app/Http/Middleware/CheckRole.php:104-106 | the comparable form of clean names is never "" or "0" |
| CheckRole.CurrentRole | app/Http/Middleware/CheckRole.php:56-84 | `session ?? employee ?? column`: a stored session value wins whatever it is, then the employee's role, then the column; none only when all three are absent |
| CheckRole.SessionAfter | app/Http/Middleware/CheckRole.php:62-72 | with a truthy employee role, the session's `role` and `employee_id` become the employee's role and id; otherwise the session is unchanged; no other key changes |
| CheckRole.Decide | app/Http/Middleware/CheckRole.php:41-90 | Unauthenticated exactly when there is no user, whatever the parameters; with a user and no required role the answer is Allow |
| CheckRole.Handle | app/Http/Middleware/CheckRole.php:38-127 | the middleware answers `Decide` on the session as the request found it; without a user the session is untouched, with one it becomes `SessionAfter` |
| CheckRole.MatchExactly | app/Http/Middleware/CheckRole.php:103-110 | against clean names, Allow exactly when the trimmed, lower-cased current role is non-empty and among the trimmed, lower-cased names |
| CheckRole.Match | app/Http/Middleware/CheckRole.php:103-110 | never Unauthenticated; a missing or falsy current role, or no allowed role, is Forbidden; Allow only when some allowed role trims and lower-cases to the trimmed, lower-cased current role (MatchExactly gives the converse) |
| CheckRole.AllowsExactlyOnMatch | app/Http/Middleware/CheckRole.php:103-126 | with required roles, Allow exactly on a trimmed, case-insensitive match of a non-empty current role; otherwise Forbidden |
| CheckRole.EmptySessionRoleIsDenied | app/Http/Middleware/CheckRole.php:84 | a session role of "" does not fall through: it is the current role, and it is denied |
| CheckRole.CaseAndSpaceInsensitive | app/Http/Middleware/CheckRole.php:103-109 | a session role that trims and lower-cases to a required role is allowed |
| CheckRole.CacheWrittenEvenWhenDenied | app/Http/Middleware/CheckRole.php:62-72 | an employee whose role is not allowed is denied, and the session afterwards still holds that role and the employee's id |
| CheckRole.SessionRoleNotAllowedIsForbidden | app/Http/Middleware/CheckRole.php:84-126 | with required roles, a string session role outside them is denied, whatever the employee's role |
| CheckRole.CachedRoleAllowedIsAllowed | app/Http/Middleware/CheckRole.php:69-71 | once an allowed employee role is cached, the next request is allowed |
| CheckRole.StaleSessionRoleDecides | app/Http/Middleware/CheckRole.php:56-84 | a stale session role decides the current request even though the employee's allowed role is already cached: this request is Forbidden, the next one Allow |
| CheckRole.CascadesAgreeOnTruthySources | app/Http/Middleware/CheckRole.php:84 | when every source present is truthy, the middleware's current role, cast to a string, is the user's effective role |
| CheckRole.CascadesDifferOnEmptySessionRole | app/Http/Middleware/CheckRole.php:84 | on a session role of "" the middleware keeps "" while `effectiveRole` falls through to the employee's role |
| CheckRole.MiddlewareTrimsHasRoleNameDoesNot | app/Http/Middleware/CheckRole.php:103 | a session role padded with spaces passes the middleware for that role and fails `hasRoleName` for the same name |
| Tables.StartOf | app/Http/Controllers/PresenceController.php:180 | a date stored as a time is that day's midnight: it falls on that day, at second 0 |
| Tables.IndexOf | app/Http/Controllers/LeaveRequestController.php:75 | `findOrFail`: a position is found only for a row with that id, and none exactly when no row has it |
| Tables.Where | app/Http/Controllers/PresenceController.php:23 | a `where(...)->get()` keeps exactly the rows that satisfy the condition |
| Tables.Without | app/Http/Controllers/PresenceController.php:148 | after `delete`, exactly the rows with other ids remain |
| Tables.WithoutKeepsIds | app/Http/Controllers/PresenceController.php:148 | deleting keeps ids distinct and below the auto-increment counter |
| Tables.WithoutRemovesOne | app/Http/Controllers/LeaveRequestController.php:124 | deleting an existing id removes exactly one row |
| Tables.WithoutOfAbsent | app/Http/Controllers/LeaveRequestController.php:124 | deleting an id no row has changes nothing |
| Tables.InsertKeepsIds | app/Http/Controllers/PresenceController.php:71 | inserting under the next id keeps ids distinct and below the advanced counter |
| Tables.SetFieldsKeepsIds | app/Http/Controllers/PresenceController.php:138 | overwriting a row's fields keeps every id |
| Presences.ParseStatus | app/Http/Controllers/PresenceController.php:135 | `in:present,absent,late,leave` accepts exactly the four names and reads each back as the status named |
| Presences.StatusNameParses | app/Http/Controllers/PresenceController.php:50 | every status's name is accepted and read back as that status |
| Presences.AdminRecord | app/Http/Controllers/PresenceController.php:53-71 | the administrator's presence takes the form's employee, date, check-in and status, with no check-out and no position |
| Presences.SelfRecord | app/Http/Controllers/PresenceController.php:88-96 | a self check-in through `store` is for the session's employee, today, checked in now, present, with the request's position and no check-out |
| Presences.InsertKeepsOnePerEmployeeDay | app/Http/Controllers/PresenceController.php:57-71 | an insert keeps one presence per employee and day exactly when that employee has none on that day yet |
| Presences.CheckInEmployee | app/Http/Controllers/PresenceController.php:157-166 | a truthy session employee id wins; otherwise the user's employee id; the id is never 0; none exactly when neither source gives a truthy id |
| Presences.CheckInRecord | app/Http/Controllers/PresenceController.php:178-184 | the check-in record is for the given employee and today, has status `present`, no check-out and no location, and its check-in is that day's midnight |
| Presences.TimeOrEpoch | app/Http/Controllers/PresenceController.php:125-128 | a parsed time is kept; a missing time becomes the epoch, midnight of day 0 |
| Presences.Edited | app/Http/Controllers/PresenceController.php:138 | the edited presence takes the request's employee, date, status and merged times; latitude and longitude change only when the request carries them |
| Presences.EditedIsConsistent | app/Http/Controllers/PresenceController.php:130-138 | an accepted update leaves a check-out not before the check-in, a status among the four, and the request's employee and day |
| Presences.UpdateCanBreakOnePerEmployeeDay | app/Http/Controllers/PresenceController.php:123-141 | `update` does not repeat the duplicate check: moving a presence onto another's employee and day is accepted and leaves two presences for that pair |
| Presences.PresenceTable.Index | app/Http/Controllers/PresenceController.php:20-24 | Admin and HR Manager see every presence; anyone else sees exactly the presences of the session's employee |
| Presences.PresenceTable.Create | app/Http/Controllers/PresenceController.php:71 | `create` appends the record under the next id and advances the counter |
| Presences.PresenceTable.Store | app/Http/Controllers/PresenceController.php:40-101 | for Admin and HR Manager: an invalid form or an existing presence for that employee and date stores nothing; otherwise one record with no check-out is added. For anyone else: a self check-in for today under the session's employee, refused if one exists. Every branch keeps one presence per employee and day |
| Presences.PresenceTable.CheckIn | app/Http/Controllers/PresenceController.php:153-187 | no employee is an error and stores nothing; a second check-in on the same day is refused and stores nothing; otherwise today's record is added. One per employee and day is kept |
| Presences.PresenceTable.Update | app/Http/Controllers/PresenceController.php:123-141 | a missing presence is NotFound; an invalid request changes nothing; otherwise exactly that row takes the request's fields |
| Presences.PresenceTable.Destroy | app/Http/Controllers/PresenceController.php:146-151 | a missing presence is NotFound; otherwise exactly that presence is removed, and one per employee and day is kept |
| Presences.DoubleCheckIn | tests/Feature/AttendanceRuleTest.php:33-37 | with the employee id in the session, a first check-in is saved and a second on the same day is refused |
| LeaveRequests.ParseLeaveStatus | app/Http/Controllers/LeaveRequestController.php:46 | `in:pending,approved,rejected` accepts exactly the three names and reads each back as the status named |
| LeaveRequests.LeaveStatusNameParses | app/Http/Controllers/LeaveRequestController.php:111 | every status's name is accepted and read back as that status |
| LeaveRequests.Filed | app/Http/Controllers/LeaveRequestController.php:49-55 | privileged users file with the form's employee and status; anyone else files for the session's employee as pending, whatever the form says; the request is well formed |
| LeaveRequests.Revised | app/Http/Controllers/LeaveRequestController.php:114 | an accepted update takes the form's employee and status and is well formed |
| LeaveRequests.WithStatus | app/Http/Controllers/LeaveRequestController.php:76 | a status update changes that row's status and leaves every other field and row as they were |
| LeaveRequests.WithStatusIdempotent | app/Http/Controllers/LeaveRequestController.php:73-90 | setting a status twice is setting it once, and the last setting wins |
| LeaveRequests.LeaveTable.Index | app/Http/Controllers/LeaveRequestController.php:16-20 | Admin and HR Manager see every request; anyone else sees exactly the session employee's requests |
| LeaveRequests.LeaveTable.Store | app/Http/Controllers/LeaveRequestController.php:37-60 | an invalid form stores nothing; otherwise the filed request is added under the next id; an end date before the start is invalid |
| LeaveRequests.LeaveTable.SetStatus | app/Http/Controllers/LeaveRequestController.php:73-90 | a missing request is NotFound; otherwise only that request's status changes |
| LeaveRequests.LeaveTable.Approve | app/Http/Controllers/LeaveRequestController.php:73-79 | a missing request is NotFound; otherwise its status becomes approved and nothing else changes |
| LeaveRequests.LeaveTable.Reject | app/Http/Controllers/LeaveRequestController.php:84-90 | a missing request is NotFound; otherwise its status becomes rejected and nothing else changes |
| LeaveRequests.LeaveTable.Update | app/Http/Controllers/LeaveRequestController.php:104-117 | a missing request is NotFound; an invalid form changes nothing; otherwise exactly that row takes the form's fields |
| LeaveRequests.LeaveTable.Destroy | app/Http/Controllers/LeaveRequestController.php:122-127 | a missing request is NotFound; otherwise exactly that request is removed |
| LeaveRequests.ApproveTwice | app/Http/Controllers/LeaveRequestController.php:73-79 | approving twice succeeds both times and leaves the table as approving once does |
| Payrolls.Payload | app/Http/Controllers/PayrollController.php:50-61 | an absent bonus or deduction counts as 0; the net salary is salary + bonus − deduction; it lies between salary − deduction and salary + bonus; amounts are not negative |
| Payrolls.NetSalaryDependsOnAmounts | app/Http/Controllers/PayrollController.php:53-61 | only the amounts decide the net salary, and without bonus and deduction it is the salary |
| Payrolls.InsertKeepsOnePerPaymentDate | app/Http/Controllers/PayrollController.php:64-72 | an insert keeps one payroll per employee and date exactly when that employee has none on that date yet |
| Payrolls.ReplaceKeepsOnePerPaymentDate | app/Http/Controllers/PayrollController.php:118-125 | overwriting a payroll keeps one per employee and date exactly when no other payroll has the new employee and date |
| Payrolls.KeepOwnDate | app/Http/Controllers/PayrollController.php:118-121 | the update's duplicate query never finds another payroll for the record's own employee and date, so a record may keep its date |
| Payrolls.InsertByDate | app/Http/Controllers/PayrollController.php:21 | inserting one row adds exactly that row to the multiset of rows |
| Payrolls.InsertByDateKeepsOrder | app/Http/Controllers/PayrollController.php:21 | inserting into a newest-first list keeps it newest first |
| Payrolls.SortByDateDescending | app/Http/Controllers/PayrollController.php:21 | `orderByDesc('payment_date')` returns the same rows, newest first |
| Payrolls.SortKeepsRows | app/Http/Controllers/PayrollController.php:21 | the ordered list holds exactly the rows it was given |
| Payrolls.PayrollTable.Index | app/Http/Controllers/PayrollController.php:19-28 | always newest first; Admin and HR Manager see every payroll; anyone else sees exactly the session employee's payrolls; either way the list is a permutation of the rows the query selects |
| Payrolls.PayrollTable.Store | app/Http/Controllers/PayrollController.php:39-86 | an invalid form, including a bonus or deduction that is present but not numeric or is negative, or an existing payroll for the employee and date stores nothing; otherwise the payload is added under the next id; the table keeps one per employee and date, non-negative amounts and a consistent net salary |
| Payrolls.PayrollTable.Update | app/Http/Controllers/PayrollController.php:100-137 | a missing payroll is NotFound; an invalid form, including a bonus or deduction that is present but not numeric or is negative, or another payroll for the employee and date changes nothing; otherwise exactly that row takes the payload; uniqueness is kept |
| Payrolls.PayrollTable.Destroy | app/Http/Controllers/PayrollController.php:139-151 | a missing payroll is NotFound; otherwise exactly that payroll is removed |

## Left out

- Spatie `hasRole` (app/Http/Middleware/CheckRole.php:93-100, app/Models/User.php:139-142): the `HasRoles` trait is not used by the model (its `use` line is commented out at app/Models/User.php:23), so `method_exists($user, 'hasRole')` is taken as false.
- Responses: logging, `abort`, redirects, JSON answers, `expectsJson` and flash messages are collapsed into the answer datatypes (`Outcome`, `Reply`).
- Exceptions and transactions: the `try`/`catch` around the employee relation (app/Http/Middleware/CheckRole.php:61-81) and the database transactions in `PayrollController` are not modelled. A storage failure, and the error reply it leads to, cannot happen in the model.
- Relation loading: the employee and its role title are inputs. `optional(optional($e)->role)->title ?? optional($e)->role` is one optional string. A role relation object whose title is null, which PHP would then cast, is not modelled.
- `Str::lower` lower-cases ASCII letters only; multibyte case mapping is not modelled.
- A session value under `employee_id` that is a string, not an integer, is read as no employee id. Booleans, arrays and floats as session values are not modelled.
- Date and time parsing (Carbon, `strtotime`, `date`) and the clock (`Carbon::today`, `now()`) are not modelled. Parsed dates arrive as day numbers, and today and now are parameters.
- Float casts: amounts are exact real numbers. The rounding of PHP floats and of the database's decimal columns is not modelled.
- `orderByDesc('payment_date')` leaves the order of same-date rows to the database. The model returns one valid order: a stable sort.
- Presences.PresenceTable.Index: for other users the contract states which rows are returned, not their order.
- LeaveRequests.LeaveTable.Index: for other users the contract states which rows are returned, not their order.
- Mass assignment: `$request->all()` may carry fields beyond the ones validated. The models' `$fillable` lists are not part of this model, so only the validated fields, plus latitude and longitude for presences, are written.
- Laravel's global input middleware (trimming strings, empty strings to null) is not part of this model; request fields are taken as they arrive.
- Database constraints are not checked. For example, a self check-in through `store` with no employee id in the session stores a presence without an employee, where a NOT NULL column would refuse it; the model stores it.
- `User::setLegacyRole` and `scopeWithEmployee`, `create`/`show`/`edit` (which only render views), `DepartmentController`, the seeders and the migrations are outside the modelled core.
