/**
 * `employee_admin_api.py`: the administrator's view of the `employees` table,
 * with create, update, password reset and delete, and the two UNIQUE columns
 * (`username`, `email`) the schema declares.
 */
module Employees {
  import opened Wrappers
  import opened Tables
  import opened Http
  import opened Files
  import Text
  import Sorting

  /**
   * A row of `employees`. The scripts here always write every column, so the
   * nullable ones are modelled as plain strings.
   */
  datatype Employee = Employee(
    fullName: string, username: string, passwordHash: string, designation: string,
    pictureUrl: string, email: string, phone: string)

  type Staff = Table<Employee>

  function Username(e: Employee): string { e.username }

  function Email(e: Employee): string { e.email }

  /** The schema's constraints: `username UNIQUE` and `email UNIQUE`. */
  ghost predicate Inv(t: Staff) {
    Valid(t) && UniqueOn(t, Username) && UniqueOn(t, Email)
  }

  datatype Store = Store(staff: Staff, disk: Disk)

  /** What the listing and the profile read return: every column but the password hash. */
  datatype Profile = Profile(
    id: nat, fullName: string, username: string, designation: string,
    pictureUrl: string, email: string, phone: string)

  function View(x: Row<Employee>): Profile {
    Profile(x.id, x.val.fullName, x.val.username, x.val.designation, x.val.pictureUrl, x.val.email, x.val.phone)
  }

  // ---------------------------------------------------------------------------
  // Profile pictures
  // ---------------------------------------------------------------------------

  const PictureTypes := {".jpg", ".jpeg", ".png", ".gif"}

  const BadPicture := "Invalid file type for profile picture. Only JPG, PNG, GIF allowed."

  /** An upload part with a non-empty filename. */
  predicate Uploaded(file: Option<Upload>) {
    file.Some? && file.value.filename != ""
  }

  /**
   * `save_profile_picture`: nothing without a named file; otherwise the
   * lower-cased extension must be on the allow-list, and the file is written as
   * `<token><ext>` under `/uploads/profile_pictures/`.
   */
  function SaveProfilePicture(disk: Disk, file: Option<Upload>, token: string): (r: (Disk, Result<Option<string>>))
    ensures !Uploaded(file) ==> r == (disk, Success(None))
    ensures Uploaded(file) ==> (r.1.Success? <==> LowerExt(file.value.filename) in PictureTypes)
    ensures r.1.Failure? ==> r == (disk, Failure(BadPicture))
    ensures Uploaded(file) && r.1.Success? ==>
      && r.1.value == Some("/uploads/profile_pictures/" + token + LowerExt(file.value.filename))
      && r.0 == disk + {r.1.value.value}
  {
    if !Uploaded(file) then (disk, Success(None))
    else
      var ext := LowerExt(file.value.filename);
      if ext !in PictureTypes then (disk, Failure(BadPicture))
      else
        var path := "/uploads/profile_pictures/" + token + ext;
        (disk + {path}, Success(Some(path)))
  }

  // ---------------------------------------------------------------------------
  // `add_employee`
  // ---------------------------------------------------------------------------

  /**
   * The answer to an email clash: the friendly message when the request sent
   * an email, else the integrity error SQLite raised. `suffix` is what the
   * update appends to the friendly message.
   */
  function EmailClash(email: string, suffix: string): string {
    if email != "" then "Email already exists" + suffix + "."
    else "Database integrity error: UNIQUE constraint failed: employees.email"
  }

  /** The row `add_employee` inserts: absent optional fields are `''`. */
  function NewEmployee(data: map<string, string>, picture: string, hashed: string): Employee
    requires "full_name" in data && "username" in data
  {
    Employee(data["full_name"], data["username"], hashed, GetOrEmpty(data, "designation"),
             picture, GetOrEmpty(data, "email"), GetOrEmpty(data, "phone"))
  }

  /**
   * `add_employee`. An uploaded picture replaces the `profile_picture_url`
   * field; it is written before the INSERT and stays when the INSERT fails.
   * `hashed` is what `hash_password` returned for this request. SQLite names
   * one violated constraint per error, and it checks the `email` index (the
   * later-declared UNIQUE column) before the `username` one: a row clashing
   * on both is reported as an email clash. That clash is named only when the
   * email is non-empty, since two absent emails both store `''`; otherwise
   * the raw integrity message is answered.
   */
  function AddEmployee(s: Store, data: map<string, string>, file: Option<Upload>, token: string, hashed: string)
    : (r: (Store, Result<nat>))
    requires Inv(s.staff)
    requires "full_name" in data && "username" in data && "password" in data
    ensures Inv(r.0.staff)
    ensures r.1.Failure? ==> r.0.staff == s.staff
    ensures Uploaded(file) && LowerExt(file.value.filename) !in PictureTypes ==> r == (s, Failure(BadPicture))
    ensures SaveProfilePicture(s.disk, file, token).1.Success? ==>
      && r.0.disk == SaveProfilePicture(s.disk, file, token).0
      && (KeyTaken(s.staff.rows, Email, GetOrEmpty(data, "email")) ==> r.1 == Failure(EmailClash(GetOrEmpty(data, "email"), "")))
      && (!KeyTaken(s.staff.rows, Email, GetOrEmpty(data, "email")) && KeyTaken(s.staff.rows, Username, data["username"]) ==>
            r.1 == Failure("Username already exists."))
    ensures r.1.Success? <==>
      && SaveProfilePicture(s.disk, file, token).1.Success?
      && !KeyTaken(s.staff.rows, Username, data["username"])
      && !KeyTaken(s.staff.rows, Email, GetOrEmpty(data, "email"))
    ensures r.1.Success? ==>
      && r.1.value == s.staff.nextId
      && |r.0.staff.rows| == |s.staff.rows| + 1
      && r.0.staff.rows[..|s.staff.rows|] == s.staff.rows
      && var e := r.0.staff.rows[|s.staff.rows|].val;
         && e.username == data["username"] && e.email == GetOrEmpty(data, "email") && e.passwordHash == hashed
         && e.pictureUrl == (if Uploaded(file) then "/uploads/profile_pictures/" + token + LowerExt(file.value.filename)
                             else GetOrEmpty(data, "profile_picture_url"))
  {
    var (disk', saved) := SaveProfilePicture(s.disk, file, token);
    match saved
    case Failure(e) => (s, Failure(e))
    case Success(pic) =>
      var v := NewEmployee(data, pic.GetOr(GetOrEmpty(data, "profile_picture_url")), hashed);
      if KeyTaken(s.staff.rows, Email, v.email) then (Store(s.staff, disk'), Failure(EmailClash(GetOrEmpty(data, "email"), "")))
      else if KeyTaken(s.staff.rows, Username, v.username) then (Store(s.staff, disk'), Failure("Username already exists."))
      else
        InsertKeepsUnique(s.staff, v, Username);
        InsertKeepsUnique(s.staff, v, Email);
        var (staff', id) := Insert(s.staff, v);
        (Store(staff', disk'), Success(id))
  }

  /**
   * An employee can be registered once: the same request repeated clashes on
   * both username and email, and is answered with the email clash.
   */
  lemma AddTwiceRefused(s: Store, data: map<string, string>, file: Option<Upload>, token: string, hashed: string)
    requires Inv(s.staff)
    requires "full_name" in data && "username" in data && "password" in data
    requires AddEmployee(s, data, file, token, hashed).1.Success?
    ensures var s' := AddEmployee(s, data, file, token, hashed).0;
      && AddEmployee(s', data, file, token, hashed).1 == Failure(EmailClash(GetOrEmpty(data, "email"), ""))
      && AddEmployee(s', data, file, token, hashed).1 != Failure("Username already exists.")
  {
    var s' := AddEmployee(s, data, file, token, hashed).0;
    assert s'.staff.rows[|s.staff.rows|].val.username == data["username"];
    assert s'.staff.rows[|s.staff.rows|].val.email == GetOrEmpty(data, "email");
    assert SaveProfilePicture(s'.disk, file, token).1.Success?;
  }

  // ---------------------------------------------------------------------------
  // `update_employee`
  // ---------------------------------------------------------------------------

  /**
   * The columns an update overwrites. Name, username, designation, email and
   * phone always; the picture only when there is one; the hash only when a
   * password was given.
   */
  datatype Changes = Changes(
    fullName: string, username: string, designation: string, email: string, phone: string,
    picture: Option<string>, passwordHash: Option<string>)

  function Apply(c: Changes): Employee -> Employee {
    (e: Employee) => Employee(c.fullName, c.username, c.passwordHash.GetOr(e.passwordHash), c.designation,
                              c.picture.GetOr(e.pictureUrl), c.email, c.phone)
  }

  /** `fields_to_update` for the picture URL the update settled on and the hash of the given password. */
  function ChangesOf(data: map<string, string>, picture: Option<string>, hashed: string): (c: Changes)
    requires "full_name" in data && "username" in data
    ensures c.passwordHash.Some? <==> Present(Get(data, "password"))
    ensures c.picture == picture
  {
    Changes(data["full_name"], data["username"], GetOrEmpty(data, "designation"), GetOrEmpty(data, "email"),
            GetOrEmpty(data, "phone"), picture, if Present(Get(data, "password")) then Some(hashed) else None)
  }

  /** The picture an update writes: a saved upload, else the `profile_picture_url` field when sent. */
  function UpdatePicture(data: map<string, string>, saved: Option<string>): (r: Option<string>)
    ensures saved.Some? ==> r == saved
    ensures saved.None? ==> r == Get(data, "profile_picture_url")
  {
    if saved.Some? then saved else Get(data, "profile_picture_url")
  }

  /**
   * `update_employee`: `Success(true)` when the row exists and was rewritten,
   * `Success(false)` when no row has this id, or the classified UNIQUE clash.
   */
  function UpdateEmployee(s: Store, id: int, data: map<string, string>, file: Option<Upload>, token: string, hashed: string)
    : (r: (Store, Result<bool>))
    requires Inv(s.staff)
    requires "full_name" in data && "username" in data
    ensures Inv(r.0.staff)
    ensures Uploaded(file) && LowerExt(file.value.filename) !in PictureTypes ==> r == (s, Failure(BadPicture))
    ensures r.1 != Success(true) ==> r.0.staff == s.staff
    ensures r.1 == Success(false) <==>
      SaveProfilePicture(s.disk, file, token).1.Success? && !HasId(s.staff, id)
    ensures SaveProfilePicture(s.disk, file, token).1.Success? && HasId(s.staff, id) ==>
      && (TakenByOther(s.staff.rows, id, Email, GetOrEmpty(data, "email")) ==>
            r.1 == Failure(EmailClash(GetOrEmpty(data, "email"), " for another employee")))
      && (!TakenByOther(s.staff.rows, id, Email, GetOrEmpty(data, "email"))
          && TakenByOther(s.staff.rows, id, Username, data["username"]) ==>
            r.1 == Failure("Username already exists for another employee."))
    ensures r.1 == Success(true) ==>
      && |r.0.staff.rows| == |s.staff.rows|
      && forall i :: 0 <= i < |s.staff.rows| ==>
           var old_ := s.staff.rows[i];
           var new_ := r.0.staff.rows[i];
           if old_.id != id then new_ == old_
           else
             && new_.id == id
             && new_.val.fullName == data["full_name"] && new_.val.username == data["username"]
             && new_.val.designation == GetOrEmpty(data, "designation")
             && new_.val.email == GetOrEmpty(data, "email") && new_.val.phone == GetOrEmpty(data, "phone")
             && new_.val.pictureUrl ==
                  (if Uploaded(file) then "/uploads/profile_pictures/" + token + LowerExt(file.value.filename)
                   else Get(data, "profile_picture_url").GetOr(old_.val.pictureUrl))
             && new_.val.passwordHash == (if Present(Get(data, "password")) then hashed else old_.val.passwordHash)
  {
    var (disk', saved) := SaveProfilePicture(s.disk, file, token);
    match saved
    case Failure(e) => (s, Failure(e))
    case Success(pic) =>
      var c := ChangesOf(data, UpdatePicture(data, pic), hashed);
      var (staff', res) := UpdateRow(s.staff, id, c);
      (Store(staff', disk'), res)
  }

  /**
   * The UPDATE and its UNIQUE checks: as for the INSERT, SQLite reports a
   * clash on email before one on username.
   */
  function UpdateRow(t: Staff, id: int, c: Changes): (r: (Staff, Result<bool>))
    requires Inv(t)
    ensures Inv(r.0)
    ensures r.1 != Success(true) ==> r.0 == t
    ensures r.1 == Success(false) <==> !HasId(t, id)
    ensures HasId(t, id) && TakenByOther(t.rows, id, Email, c.email) ==>
      r.1 == Failure(EmailClash(c.email, " for another employee"))
    ensures HasId(t, id) && !TakenByOther(t.rows, id, Email, c.email) && TakenByOther(t.rows, id, Username, c.username) ==>
      r.1 == Failure("Username already exists for another employee.")
    ensures r.1 == Success(true) ==>
      && HasId(t, id) && !TakenByOther(t.rows, id, Username, c.username) && !TakenByOther(t.rows, id, Email, c.email)
      && r.0 == RewriteRow(t, id, c)
  {
    if !HasId(t, id) then (t, Success(false))
    else if TakenByOther(t.rows, id, Email, c.email) then (t, Failure(EmailClash(c.email, " for another employee")))
    else if TakenByOther(t.rows, id, Username, c.username) then (t, Failure("Username already exists for another employee."))
    else (RewriteRow(t, id, c), Success(true))
  }

  /** The UPDATE itself, on a row that exists and whose new keys no other row holds. */
  function RewriteRow(t: Staff, id: int, c: Changes): (r: Staff)
    requires Inv(t) && HasId(t, id)
    requires !TakenByOther(t.rows, id, Username, c.username) && !TakenByOther(t.rows, id, Email, c.email)
    ensures Inv(r) && |r.rows| == |t.rows|
    ensures forall i :: 0 <= i < |t.rows| ==>
      r.rows[i] == if t.rows[i].id == id then Row(id, Apply(c)(t.rows[i].val)) else t.rows[i]
  {
    var (t', n) := UpdateWhere(t, IdIs(id), Apply(c));
    UpdateByIdKeepsUnique(t, id, Apply(c), Username);
    UpdateByIdKeepsUnique(t, id, Apply(c), Email);
    t'
  }

  /** Keeping one's own username and email is not a clash with oneself. */
  lemma ResubmitOwnDetails(s: Store, k: nat, token: string, hashed: string)
    requires Inv(s.staff) && k < |s.staff.rows|
    ensures var e := s.staff.rows[k].val;
      var data := map["full_name" := e.fullName, "username" := e.username, "email" := e.email];
      UpdateEmployee(s, s.staff.rows[k].id, data, None, token, hashed).1 == Success(true)
  {
    var e := s.staff.rows[k].val;
    var id := s.staff.rows[k].id;
    var data := map["full_name" := e.fullName, "username" := e.username, "email" := e.email];
    assert HasId(s.staff, id);
    OwnKeyNotTaken(s.staff, Username, id);
    OwnKeyNotTaken(s.staff, Email, id);
  }

  // ---------------------------------------------------------------------------
  // `reset_employee_password`, `delete_employee`, `get_all_employees`
  // ---------------------------------------------------------------------------

  function SetHash(hashed: string): Employee -> Employee {
    (e: Employee) => e.(passwordHash := hashed)
  }

  /** `reset_employee_password`: only the hash of the row with this id changes. */
  function ResetPassword(t: Staff, id: int, hashed: string): (r: (Staff, bool))
    requires Inv(t)
    ensures Inv(r.0)
    ensures r.1 <==> HasId(t, id)
    ensures !r.1 ==> r.0 == t
    ensures |r.0.rows| == |t.rows|
    ensures forall i :: 0 <= i < |t.rows| ==>
      r.0.rows[i] == if t.rows[i].id == id then Row(id, t.rows[i].val.(passwordHash := hashed)) else t.rows[i]
  {
    var (t', n) := UpdateWhere(t, IdIs(id), SetHash(hashed));
    OwnKeyNotTaken(t, Username, id);
    OwnKeyNotTaken(t, Email, id);
    UpdateByIdKeepsUnique(t, id, SetHash(hashed), Username);
    UpdateByIdKeepsUnique(t, id, SetHash(hashed), Email);
    CountId(t, id);
    (t', n > 0)
  }

  /**
   * `delete_employee`: removes the row with this id. The schema's foreign keys
   * are not enforced (SQLite leaves `foreign_keys` off), so the employee's
   * attendance, leave, document and education rows stay.
   */
  function DeleteEmployee(t: Staff, id: int): (r: (Staff, bool))
    requires Inv(t)
    ensures Inv(r.0)
    ensures r.1 <==> HasId(t, id)
    ensures !r.1 ==> r.0 == t
    ensures forall x :: x in r.0.rows <==> x in t.rows && x.id != id
  {
    var (t', n) := DeleteWhere(t, IdIs(id));
    DeleteKeepsUnique(t, IdIs(id), Username);
    DeleteKeepsUnique(t, IdIs(id), Email);
    CountId(t, id);
    (t', n > 0)
  }

  function FullName(x: Row<Employee>): string { x.val.fullName }

  function Views(rows: seq<Row<Employee>>): (r: seq<Profile>)
    ensures |r| == |rows|
    ensures forall i :: 0 <= i < |rows| ==> r[i] == View(rows[i])
  {
    if |rows| == 0 then [] else [View(rows[0])] + Views(rows[1..])
  }

  lemma ViewsContain(rows: seq<Row<Employee>>, x: Row<Employee>)
    requires x in rows
    ensures View(x) in Views(rows)
  {
    var i :| 0 <= i < |rows| && rows[i] == x;
    assert Views(rows)[i] == View(x);
  }

  lemma ViewsSorted(rows: seq<Row<Employee>>)
    requires Sorting.SortedBy(rows, Sorting.AscBy(FullName))
    ensures forall i, j :: 0 <= i < j < |Views(rows)| ==> Sorting.LexLeq(Views(rows)[i].fullName, Views(rows)[j].fullName)
  {
    var r := Views(rows);
    forall i, j | 0 <= i < j < |r| ensures Sorting.LexLeq(r[i].fullName, r[j].fullName) {
      assert Sorting.AscBy(FullName)(rows[i], rows[j]);
      assert r[i].fullName == FullName(rows[i]) && r[j].fullName == FullName(rows[j]);
    }
  }

  /** `get_all_employees`: every employee, by full name, without password hashes. */
  function AllEmployees(t: Staff): (r: seq<Profile>)
    ensures |r| == |t.rows|
    ensures forall x :: x in t.rows ==> View(x) in r
    ensures forall i, j :: 0 <= i < j < |r| ==> Sorting.LexLeq(r[i].fullName, r[j].fullName)
  {
    Sorting.AscByIsPreorder(FullName);
    var sorted := Sorting.Sort(t.rows, Sorting.AscBy(FullName));
    forall x | x in t.rows ensures View(x) in Views(sorted) {
      ViewsContain(sorted, x);
    }
    ViewsSorted(sorted);
    Views(sorted)
  }

  // ---------------------------------------------------------------------------
  // `main`
  // ---------------------------------------------------------------------------

  /** A request: method, the first value of each form field, the file part, the query string's first values. */
  datatype Request = Request(verb: string, form: map<string, string>, file: Option<Upload>, query: map<string, string>)

  datatype AdminData = EmployeeList(employees: seq<Profile>) | Created(id: nat) | NoData

  /** `query_params.get(k, [form.getvalue(k)])[0]`: the query string wins over the form. */
  function QueryFirst(req: Request, k: string): (r: Option<string>)
    ensures k in req.query ==> r == Some(req.query[k])
    ensures k !in req.query ==> r == Get(req.form, k)
  {
    if k in req.query then Some(req.query[k]) else Get(req.form, k)
  }

  /** The PUT sub-operation the request selects. */
  datatype PutAction = Reset | Update

  function ActionOf(req: Request): (a: PutAction)
    ensures a == Reset <==> QueryFirst(req, "action") == Some("reset_password")
  {
    if QueryFirst(req, "action") == Some("reset_password") then Reset else Update
  }

  /** POST: the three required fields, then `add_employee`. */
  function Create(s: Store, req: Request, token: string, hashed: string): (r: (Store, Reply<AdminData>))
    requires Inv(s.staff)
    ensures Inv(r.0.staff)
    ensures !(Present(Get(req.form, "full_name")) && Present(Get(req.form, "username")) && Present(Get(req.form, "password"))) ==>
      r == (s, Err("Full name, username, and password are required."))
    ensures Present(Get(req.form, "full_name")) && Present(Get(req.form, "username")) && Present(Get(req.form, "password")) ==>
      var (s', res) := AddEmployee(s, req.form, req.file, token, hashed);
      r.0 == s' && (r.1.Ok? <==> res.Success?) && (res.Success? ==> r.1.data == Created(res.value))
    ensures r.0.staff != s.staff ==> r.1.Ok?
  {
    var data := req.form;
    if !(Present(Get(data, "full_name")) && Present(Get(data, "username")) && Present(Get(data, "password"))) then
      (s, Err("Full name, username, and password are required."))
    else
      var (s', res) := AddEmployee(s, data, req.file, token, hashed);
      match res
      case Failure(e) => (s', Err(e))
      case Success(id) => (s', Ok(Some("Employee added successfully."), Created(id)))
  }

  /** PUT once the id is read: a password reset, or an update of the other fields. */
  function Edit(s: Store, id: int, req: Request, token: string, hashed: string): (r: (Store, Reply<AdminData>))
    requires Inv(s.staff)
    ensures Inv(r.0.staff)
    ensures ActionOf(req) == Reset ==>
      if !Present(Get(req.form, "password")) then r == (s, Err("New password is required for reset."))
      else
        var (t', ok) := ResetPassword(s.staff, id, hashed);
        r == (Store(t', s.disk), if ok then Ok(Some("Password reset successfully."), NoData) else Err("Failed to reset password."))
    ensures ActionOf(req) == Update && !(Present(Get(req.form, "full_name")) && Present(Get(req.form, "username"))) ==>
      r == (s, Err("Full name and username are required for update."))
    ensures ActionOf(req) == Update && Present(Get(req.form, "full_name")) && Present(Get(req.form, "username")) ==>
      var (s', res) := UpdateEmployee(s, id, req.form - {"id", "action"}, req.file, token, hashed);
      r.0 == s' && (r.1.Ok? <==> res == Success(true))
      && (res == Success(false) ==> r.1 == Err("Employee not found or no changes made."))
    ensures r.0.staff != s.staff ==> r.1.Ok?
  {
    if ActionOf(req) == Reset then
      if !Present(Get(req.form, "password")) then (s, Err("New password is required for reset."))
      else
        var (t', ok) := ResetPassword(s.staff, id, hashed);
        (Store(t', s.disk), if ok then Ok(Some("Password reset successfully."), NoData) else Err("Failed to reset password."))
    else
      var data := req.form - {"id", "action"};
      assert Get(data, "full_name") == Get(req.form, "full_name") && Get(data, "username") == Get(req.form, "username");
      if !(Present(Get(data, "full_name")) && Present(Get(data, "username"))) then
        (s, Err("Full name and username are required for update."))
      else
        var (s', res) := UpdateEmployee(s, id, data, req.file, token, hashed);
        match res
        case Failure(e) => (s', Err(e))
        case Success(true) => (s', Ok(Some("Employee updated successfully."), NoData))
        case Success(false) => (s', Err("Employee not found or no changes made."))
  }

  /** DELETE: the id from the query string, then `delete_employee`; files are left alone. */
  function Remove(s: Store, query: map<string, string>): (r: (Store, Reply<AdminData>))
    requires Inv(s.staff)
    ensures Inv(r.0.staff) && r.0.disk == s.disk
    ensures !Present(Get(query, "id")) ==> r == (s, Err("Employee ID is required for delete."))
    ensures Present(Get(query, "id")) && Text.ParseInt(query["id"]).None? ==> r == (s, Err("Invalid Employee ID format."))
    ensures Present(Get(query, "id")) && Text.ParseInt(query["id"]).Some? ==>
      && (r.1.Ok? <==> HasId(s.staff, Text.ParseInt(query["id"]).value))
      && (r.1.Ok? ==> r.1 == Ok(Some("Employee deleted successfully."), NoData))
      && (!r.1.Ok? ==> r == (s, Err("Employee not found.")))
      && forall x :: x in r.0.staff.rows <==> x in s.staff.rows && x.id != Text.ParseInt(query["id"]).value
  {
    var idText := Get(query, "id");
    if !Present(idText) then (s, Err("Employee ID is required for delete."))
    else match Text.ParseInt(idText.value)
      case None => (s, Err("Invalid Employee ID format."))
      case Some(id) =>
        var (t', ok) := DeleteEmployee(s.staff, id);
        (Store(t', s.disk), if ok then Ok(Some("Employee deleted successfully."), NoData) else Err("Employee not found."))
  }

  /**
   * `main`: list on GET; create on POST; on PUT either a password reset or
   * an update of the employee the id names; delete on DELETE.
   */
  function Handle(s: Store, req: Request, token: string, hashed: string): (r: (Store, Reply<AdminData>))
    requires Inv(s.staff)
    ensures Inv(r.0.staff)
    ensures req.verb == "OPTIONS" ==> r == (s, Preflight)
    ensures req.verb == "GET" ==> r == (s, Ok(None, EmployeeList(AllEmployees(s.staff))))
    ensures req.verb == "POST" ==> r == Create(s, req, token, hashed)
    ensures req.verb == "PUT" && !Present(QueryFirst(req, "id")) ==> r == (s, Err("Employee ID is required for update."))
    ensures req.verb == "PUT" && Present(QueryFirst(req, "id")) && Text.ParseInt(QueryFirst(req, "id").value).None? ==>
      r == (s, Err("Invalid Employee ID format."))
    ensures req.verb == "PUT" && Present(QueryFirst(req, "id")) && Text.ParseInt(QueryFirst(req, "id").value).Some? ==>
      r == Edit(s, Text.ParseInt(QueryFirst(req, "id").value).value, req, token, hashed)
    ensures req.verb == "DELETE" ==> r == Remove(s, req.query)
    ensures req.verb !in {"OPTIONS", "GET", "POST", "PUT", "DELETE"} ==> r == (s, Err(MethodNotAllowed(req.verb)))
    ensures r.0.staff != s.staff ==> r.1.Ok?
  {
    if req.verb == "OPTIONS" then (s, Preflight)
    else if req.verb == "GET" then (s, Ok(None, EmployeeList(AllEmployees(s.staff))))
    else if req.verb == "POST" then Create(s, req, token, hashed)
    else if req.verb == "PUT" then
      var idText := QueryFirst(req, "id");
      if !Present(idText) then (s, Err("Employee ID is required for update."))
      else match Text.ParseInt(idText.value)
        case None => (s, Err("Invalid Employee ID format."))
        case Some(id) => Edit(s, id, req, token, hashed)
    else if req.verb == "DELETE" then Remove(s, req.query)
    else (s, Err(MethodNotAllowed(req.verb)))
  }
}
