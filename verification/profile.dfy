/**
 * `employee_profile_api.py`: an employee reads their own profile and updates
 * their name, email, phone and picture.
 */
module Profiles {
  import opened Wrappers
  import opened Tables
  import opened Http
  import opened Files
  import Text
  import opened Employees

  const ProfileDir := "/uploads/employee_profiles/"

  const BadType := "Invalid file type. Only JPG, PNG, GIF allowed."

  const InternalError := "An internal server error occurred."

  /** How `save_employee_profile_picture` ends. */
  datatype SaveOutcome = Saved(path: string) | Refused(message: string) | Raised

  /**
   * `save_employee_profile_picture` as written: the file name is built with
   * `uuid.uuid4()`, but `uuid` is never imported, so an accepted file raises
   * `NameError` before anything is written.
   */
  function SavePictureAsWritten(file: Upload): (r: SaveOutcome)
    ensures r.Saved? == false
    ensures file.filename == "" ==> r == Refused("No file provided or filename missing.")
    ensures file.filename != "" ==> (r == Raised <==> LowerExt(file.filename) in PictureTypes)
    ensures file.filename != "" && LowerExt(file.filename) !in PictureTypes ==> r == Refused(BadType)
  {
    if file.filename == "" then Refused("No file provided or filename missing.")
    else if LowerExt(file.filename) !in PictureTypes then Refused(BadType)
    else Raised
  }

  /** The same function with `uuid` imported: `<token><ext>` under `/uploads/employee_profiles/`. */
  function SavePicture(file: Upload, token: string): (r: SaveOutcome)
    ensures r.Raised? == false
    ensures file.filename == "" ==> r == Refused("No file provided or filename missing.")
    ensures file.filename != "" ==> (r.Saved? <==> LowerExt(file.filename) in PictureTypes)
    ensures file.filename != "" && LowerExt(file.filename) !in PictureTypes ==> r == Refused(BadType)
    ensures r.Saved? ==> r.path == ProfileDir + token + LowerExt(file.filename)
  {
    if file.filename == "" then Refused("No file provided or filename missing.")
    else if LowerExt(file.filename) !in PictureTypes then Refused(BadType)
    else Saved(ProfileDir + token + LowerExt(file.filename))
  }

  /** The columns `update_employee_basic_info` sets; the picture only when the request settled on one. */
  datatype BasicInfo = BasicInfo(fullName: string, email: string, phone: string, picture: Option<string>)

  function ApplyBasic(b: BasicInfo): Employee -> Employee {
    (e: Employee) => e.(fullName := b.fullName, email := b.email, phone := b.phone, pictureUrl := b.picture.GetOr(e.pictureUrl))
  }

  /**
   * `update_employee_basic_info`: `Success(true)` when the row exists and was
   * rewritten, `Success(false)` when no row has this id, and the email clash
   * (the only UNIQUE column it writes) as a failure.
   */
  function UpdateBasicInfo(t: Staff, id: int, b: BasicInfo): (r: (Staff, Result<bool>))
    requires Inv(t)
    requires b.email != ""
    ensures Inv(r.0)
    ensures r.1 != Success(true) ==> r.0 == t
    ensures r.1 == Success(false) <==> !HasId(t, id)
    ensures HasId(t, id) ==> (r.1.Failure? <==> TakenByOther(t.rows, id, Email, b.email))
    ensures r.1.Failure? ==> r.1.error == "Email already exists for another user."
    ensures |r.0.rows| == |t.rows|
    ensures forall i :: 0 <= i < |t.rows| ==>
      r.0.rows[i] == if t.rows[i].id == id && r.1 == Success(true) then Row(id, ApplyBasic(b)(t.rows[i].val)) else t.rows[i]
  {
    if !HasId(t, id) then (t, Success(false))
    else if TakenByOther(t.rows, id, Email, b.email) then (t, Failure("Email already exists for another user."))
    else
      var (t', _) := UpdateWhere(t, IdIs(id), ApplyBasic(b));
      OwnKeyNotTaken(t, Username, id);
      UpdateByIdKeepsUnique(t, id, ApplyBasic(b), Username);
      UpdateByIdKeepsUnique(t, id, ApplyBasic(b), Email);
      (t', Success(true))
  }

  /** Only managed files, those under `/uploads/employee_profiles/`, are removed when a picture is replaced. */
  function RemoveOldPicture(disk: Disk, prev: Option<string>, undeletable: set<string>): (d: Disk)
    ensures forall p :: p in d <==> p in disk && !(prev == Some(p) && p != "" && Text.StartsWith(p, ProfileDir) && p !in undeletable)
  {
    if prev.Some? && prev.value != "" && Text.StartsWith(prev.value, ProfileDir) then RemoveBestEffort(disk, prev.value, undeletable)
    else disk
  }

  // ---------------------------------------------------------------------------
  // `main`
  // ---------------------------------------------------------------------------

  datatype Request = Request(
    verb: string, employeeHeader: Option<string>, query: map<string, string>, form: map<string, string>, file: Option<Upload>)

  datatype ProfileData = Found(profile: Profile) | Missing

  /** `GET`: the header, else the query string's `employee_id`. */
  function GetIdText(req: Request): Option<string> {
    if Present(req.employeeHeader) then req.employeeHeader else Get(req.query, "employee_id")
  }

  /** `PUT`: the header, else the form's `employee_id`. */
  function PutIdText(req: Request): Option<string> {
    if Present(req.employeeHeader) then req.employeeHeader else Get(req.form, "employee_id")
  }

  /** `get_employee_profile`: every column but the password hash, or nothing. */
  function GetProfile(t: Staff, id: int): (r: Option<Profile>)
    ensures r.Some? <==> HasId(t, id)
    ensures r.Some? ==> r.value.id == id && exists x :: x in t.rows && x.id == id && View(x) == r.value
  {
    match ById(t, id)
    case Some(x) => Some(View(x))
    case None => None
  }

  /** The picture the update writes: a saved upload first, else the escaped URL field when sent. */
  function ChosenPicture(req: Request, saved: Option<string>): (r: Option<string>)
    ensures saved.Some? ==> r == saved
    ensures saved.None? && Get(req.form, "profile_picture_url").Some? ==> r == Some(Text.Escape(req.form["profile_picture_url"]))
    ensures saved.None? && "profile_picture_url" !in req.form ==> r == None
  {
    if saved.Some? then saved
    else match Get(req.form, "profile_picture_url")
      case Some(u) => Some(Text.Escape(u))
      case None => None
  }

  /** The picture the row held before the request, when the row exists. */
  function PrevPicture(t: Staff, emp: int): (r: Option<string>)
    ensures r.Some? <==> HasId(t, emp)
    ensures r.Some? ==> exists x :: x in t.rows && x.id == emp && x.val.pictureUrl == r.value
  {
    match GetProfile(t, emp) case Some(p) => Some(p.pictureUrl) case None => None
  }

  /**
   * The upload part of PUT, given how saving the upload ends (`save`): the
   * new file is written and the old managed one removed, or the request
   * ends with the save's error.
   */
  function PictureStep(s: Store, emp: int, req: Request, save: SaveOutcome, undeletable: set<string>)
    : (r: Result<(Disk, Option<string>)>)
    ensures !Uploaded(req.file) ==> r == Success((s.disk, None))
    ensures Uploaded(req.file) && save.Refused? ==> r == Failure(save.message)
    ensures Uploaded(req.file) && save.Raised? ==> r == Failure(InternalError)
    ensures Uploaded(req.file) && save.Saved? ==>
      r == Success((RemoveOldPicture(s.disk + {save.path}, PrevPicture(s.staff, emp), undeletable), Some(save.path)))
  {
    if Uploaded(req.file) then
      match save
      case Refused(msg) => Failure(msg)
      case Raised => Failure(InternalError)
      case Saved(path) => Success((RemoveOldPicture(s.disk + {path}, PrevPicture(s.staff, emp), undeletable), Some(path)))
    else Success((s.disk, None))
  }

  /** The columns the form asks for: name, email and phone escaped, and the chosen picture. */
  function FormInfo(req: Request, saved: Option<string>): BasicInfo {
    BasicInfo(Text.Escape(GetOrEmpty(req.form, "full_name")), Text.Escape(GetOrEmpty(req.form, "email")),
              Text.Escape(GetOrEmpty(req.form, "phone")), ChosenPicture(req, saved))
  }

  /**
   * The PUT branch once the employee id is known. The old picture is removed
   * in the upload step, before the required fields are checked.
   */
  function Put(s: Store, emp: int, req: Request, save: SaveOutcome, undeletable: set<string>): (r: (Store, Reply<ProfileData>))
    requires Inv(s.staff)
    ensures Inv(r.0.staff)
    ensures r.0.staff != s.staff ==> r.1.Ok?
    ensures PictureStep(s, emp, req, save, undeletable).Failure? ==> r == (s, Err(PictureStep(s, emp, req, save, undeletable).error))
    ensures PictureStep(s, emp, req, save, undeletable).Success? ==>
      var (disk', saved) := PictureStep(s, emp, req, save, undeletable).value;
      var info := FormInfo(req, saved);
      && r.0.disk == disk'
      && (info.fullName == "" || info.email == "" ==> r == (Store(s.staff, disk'), Err("Full name and email are required.")))
      && (info.fullName != "" && info.email != "" ==>
            && r.0.staff == UpdateBasicInfo(s.staff, emp, info).0
            && (r.1.Ok? <==> UpdateBasicInfo(s.staff, emp, info).1 == Success(true)))
  {
    match PictureStep(s, emp, req, save, undeletable)
    case Failure(msg) => (s, Err(msg))
    case Success((disk', saved)) =>
      var info := FormInfo(req, saved);
      if info.fullName == "" || info.email == "" then (Store(s.staff, disk'), Err("Full name and email are required."))
      else
        var (staff', res) := UpdateBasicInfo(s.staff, emp, info);
        match res
        case Success(true) =>
          (Store(staff', disk'), Ok(Some("Profile updated successfully."),
                                   match GetProfile(staff', emp) case Some(p) => Found(p) case None => Missing))
        case Success(false) => (Store(staff', disk'), Err("Failed to update profile."))
        case Failure(e) => (Store(staff', disk'), Err(e))
  }

  /**
   * The picture save a PUT runs: with `uuid` imported when `intended`, as
   * written otherwise. `PictureStep` consults it only when a file came.
   */
  function ChosenSave(req: Request, token: string, intended: bool): SaveOutcome {
    if req.file.None? then Raised
    else if intended then SavePicture(req.file.value, token)
    else SavePictureAsWritten(req.file.value)
  }

  /**
   * `main`: GET reads the profile; PUT updates it. `intended` selects the
   * picture save with `uuid` imported; `false` is the code as written.
   */
  function Handle(s: Store, req: Request, token: string, undeletable: set<string>, intended: bool)
    : (r: (Store, Reply<ProfileData>))
    requires Inv(s.staff)
    ensures Inv(r.0.staff)
    ensures req.verb == "OPTIONS" ==> r == (s, Preflight)
    ensures req.verb == "GET" ==>
      r.0 == s &&
      (if !Present(GetIdText(req)) then r.1 == Err("Authentication required: Employee ID missing for GET.")
       else if Text.ParseInt(GetIdText(req).value).None? then r.1 == Err("Invalid Employee ID format for GET.")
       else match GetProfile(s.staff, Text.ParseInt(GetIdText(req).value).value)
         case Some(p) => r.1 == Ok(None, Found(p))
         case None => r.1 == Err("Profile not found."))
    ensures req.verb == "PUT" && !Present(PutIdText(req)) ==> r == (s, Err("Authentication required: Employee ID missing for PUT."))
    ensures req.verb == "PUT" && Present(PutIdText(req)) && Text.ParseInt(PutIdText(req).value).None? ==>
      r == (s, Err("Invalid Employee ID format for PUT."))
    ensures req.verb == "PUT" && Present(PutIdText(req)) && Text.ParseInt(PutIdText(req).value).Some? ==>
      r == Put(s, Text.ParseInt(PutIdText(req).value).value, req, ChosenSave(req, token, intended), undeletable)
    ensures req.verb !in {"OPTIONS", "GET", "PUT"} ==> r == (s, Err(MethodNotAllowed(req.verb)))
    ensures r.0.staff != s.staff ==> req.verb == "PUT" && r.1.Ok?
  {
    if req.verb == "OPTIONS" then (s, Preflight)
    else if req.verb == "GET" then
      var idText := GetIdText(req);
      if !Present(idText) then (s, Err("Authentication required: Employee ID missing for GET."))
      else match Text.ParseInt(idText.value)
        case None => (s, Err("Invalid Employee ID format for GET."))
        case Some(emp) =>
          match GetProfile(s.staff, emp)
          case Some(p) => (s, Ok(None, Found(p)))
          case None => (s, Err("Profile not found."))
    else if req.verb == "PUT" then
      var idText := PutIdText(req);
      if !Present(idText) then (s, Err("Authentication required: Employee ID missing for PUT."))
      else match Text.ParseInt(idText.value)
        case None => (s, Err("Invalid Employee ID format for PUT."))
        case Some(emp) =>
          Put(s, emp, req, ChosenSave(req, token, intended), undeletable)
    else (s, Err(MethodNotAllowed(req.verb)))
  }

  /** A well-formed PUT for this employee, carrying a picture of an accepted type. */
  predicate PictureUpload(req: Request, emp: int) {
    && req.verb == "PUT" && Present(PutIdText(req)) && Text.ParseInt(PutIdText(req).value) == Some(emp)
    && Uploaded(req.file) && LowerExt(req.file.value.filename) in PictureTypes
  }

  /** As written, no picture upload can succeed: it ends in the generic error with nothing changed. */
  lemma AcceptedPictureFails(s: Store, req: Request, emp: int, token: string, undeletable: set<string>)
    requires Inv(s.staff) && PictureUpload(req, emp)
    ensures Handle(s, req, token, undeletable, false) == (s, Err(InternalError))
  {
  }

  /**
   * With `uuid` imported, a picture upload for an existing employee with valid
   * fields records the new file, and the old one is removed exactly when it is
   * a managed file.
   */
  lemma IntendedPictureReplaces(s: Store, req: Request, emp: int, token: string, undeletable: set<string>, k: nat)
    requires Inv(s.staff) && PictureUpload(req, emp)
    requires k < |s.staff.rows| && s.staff.rows[k].id == emp
    requires Text.Escape(GetOrEmpty(req.form, "full_name")) != "" && Text.Escape(GetOrEmpty(req.form, "email")) != ""
    requires !TakenByOther(s.staff.rows, emp, Email, Text.Escape(GetOrEmpty(req.form, "email")))
    ensures var path := ProfileDir + token + LowerExt(req.file.value.filename);
      var prev := s.staff.rows[k].val.pictureUrl;
      var r := Handle(s, req, token, undeletable, true);
      && r.1.Ok?
      && r.0.staff.rows[k].val.pictureUrl == path
      && (path != prev ==> path in r.0.disk)
      && forall p :: p != path ==>
           (p in r.0.disk <==> p in s.disk && !(p == prev && p != "" && Text.StartsWith(p, ProfileDir) && p !in undeletable))
  {
    var path := ProfileDir + token + LowerExt(req.file.value.filename);
    var save := SavePicture(req.file.value, token);
    HandlePut(s, req, emp, token, undeletable, true);
    var prev := s.staff.rows[k].val.pictureUrl;
    assert ById(s.staff, emp) == Some(s.staff.rows[k]) by {
      IdsIdentify(s.staff, ById(s.staff, emp).value, s.staff.rows[k]);
    }
    assert PrevPicture(s.staff, emp) == Some(prev);
    var disk' := RemoveOldPicture(s.disk + {path}, Some(prev), undeletable);
    assert PictureStep(s, emp, req, save, undeletable) == Success((disk', Some(path)));
    var info := FormInfo(req, Some(path));
    var u := UpdateBasicInfo(s.staff, emp, info);
    assert u.1 == Success(true);
    assert u.0.rows[k] == Row(emp, ApplyBasic(info)(s.staff.rows[k].val));
    var r := Put(s, emp, req, save, undeletable);
    assert r.0.disk == disk' && r.0.staff == u.0 && r.1.Ok?;
    assert r.0.staff.rows[k].val.pictureUrl == path;
    NewPictureDisk(s.disk, path, prev, undeletable);
  }

  /** Saving `path` and removing `prev`: every other file stays unless it is `prev` and managed. */
  lemma NewPictureDisk(disk: Disk, path: string, prev: string, undeletable: set<string>)
    ensures var d := RemoveOldPicture(disk + {path}, Some(prev), undeletable);
      && (path != prev ==> path in d)
      && forall p :: p != path ==>
           (p in d <==> p in disk && !(p == prev && p != "" && Text.StartsWith(p, ProfileDir) && p !in undeletable))
  {
  }

  /** A picture upload's PUT is the `Put` branch with the chosen save. */
  lemma HandlePut(s: Store, req: Request, emp: int, token: string, undeletable: set<string>, intended: bool)
    requires Inv(s.staff) && PictureUpload(req, emp)
    ensures Handle(s, req, token, undeletable, intended) ==
      Put(s, emp, req, if intended then SavePicture(req.file.value, token) else SavePictureAsWritten(req.file.value), undeletable)
  {
  }

  /**
   * With `uuid` imported, the required-field check runs after the old picture
   * is removed: a PUT with a new picture but an empty name is refused, yet the
   * old managed file is gone while the row still points at it. As written the
   * save raises first and nothing is removed (`AcceptedPictureFails`).
   */
  lemma RefusedUpdateStillRemovesOld(s: Store, req: Request, emp: int, token: string, k: nat)
    requires Inv(s.staff) && PictureUpload(req, emp)
    requires k < |s.staff.rows| && s.staff.rows[k].id == emp
    requires GetOrEmpty(req.form, "full_name") == ""
    requires Text.StartsWith(s.staff.rows[k].val.pictureUrl, ProfileDir)
    requires s.staff.rows[k].val.pictureUrl != ProfileDir + token + LowerExt(req.file.value.filename)
    ensures var r := Handle(s, req, token, {}, true);
      && r.1 == Err("Full name and email are required.")
      && r.0.staff == s.staff
      && s.staff.rows[k].val.pictureUrl !in r.0.disk
  {
    var path := ProfileDir + token + LowerExt(req.file.value.filename);
    var save := SavePicture(req.file.value, token);
    assert save == Saved(path);
    HandlePut(s, req, emp, token, {}, true);
    var prev := s.staff.rows[k].val.pictureUrl;
    assert ById(s.staff, emp) == Some(s.staff.rows[k]) by {
      IdsIdentify(s.staff, ById(s.staff, emp).value, s.staff.rows[k]);
    }
    assert PrevPicture(s.staff, emp) == Some(prev);
    var disk' := RemoveOldPicture(s.disk + {path}, Some(prev), {});
    assert PictureStep(s, emp, req, save, {}) == Success((disk', Some(path)));
    assert FormInfo(req, Some(path)).fullName == "";
    assert Put(s, emp, req, save, {}) == (Store(s.staff, disk'), Err("Full name and email are required."));
    assert prev !in disk';
  }
}
