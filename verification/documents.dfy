/**
 * `employee_documents_api.py`: an employee's uploaded documents, each a file
 * under `/uploads/employee_documents/<employee id>/` plus a row pointing at it.
 */
module Documents {
  import opened Wrappers
  import opened Tables
  import opened Http
  import opened Files
  import Text
  import Sorting

  /** A row of `employee_documents`; `filePath` is UNIQUE. */
  datatype Document = Document(employeeId: int, docType: string, fileName: string, filePath: string, uploadedAt: string)

  type Docs = Table<Document>

  /** The table and the upload tree together. */
  datatype Store = Store(docs: Docs, disk: Disk)

  function PathKey(d: Document): string {
    d.filePath
  }

  ghost predicate Inv(s: Store) {
    Valid(s.docs) && UniqueOn(s.docs, PathKey)
  }

  const Allowed: set<string> := {".pdf", ".jpg", ".jpeg", ".png"}

  // ---------------------------------------------------------------------------
  // File naming
  // ---------------------------------------------------------------------------

  function SaneChar(c: char): char {
    if Text.IsAlnum(c) then c else '_'
  }

  /** The document-type sanitiser: every non-alphanumeric character becomes `_`. */
  function Sanitize(s: string): (r: string)
    ensures |r| == |s|
    ensures forall i :: 0 <= i < |s| ==> r[i] == SaneChar(s[i])
  {
    if |s| == 0 then "" else [SaneChar(s[0])] + Sanitize(s[1..])
  }

  /** Sanitised text holds only letters, digits and `_`, and alphanumerics are kept in place. */
  lemma SanitizeShape(s: string)
    ensures forall i :: 0 <= i < |s| ==> Text.IsAlnum(Sanitize(s)[i]) || Sanitize(s)[i] == '_'
    ensures forall i :: 0 <= i < |s| && Text.IsAlnum(s[i]) ==> Sanitize(s)[i] == s[i]
  {
  }

  /** Sanitising twice is sanitising once. */
  lemma SanitizeIdempotent(s: string)
    ensures Sanitize(Sanitize(s)) == Sanitize(s)
  {
    assert forall i :: 0 <= i < |s| ==> Sanitize(Sanitize(s))[i] == Sanitize(s)[i];
  }

  /** `<sanitised type>_<token><lower-cased extension>`. */
  function StoredName(docType: string, token: string, filename: string): string {
    Sanitize(docType) + "_" + token + LowerExt(filename)
  }

  function WebPath(emp: int, name: string): string {
    "/uploads/employee_documents/" + Text.IntToString(emp) + "/" + name
  }

  // ---------------------------------------------------------------------------
  // Save, record, list, delete
  // ---------------------------------------------------------------------------

  datatype Saved = Saved(webPath: string, originalName: string)

  /**
   * `save_employee_document`: refuses a missing filename or an extension
   * outside the allow-list (writing nothing), else writes the file under the
   * employee's directory. `token` is the `uuid4()` the name embeds.
   */
  function SaveDocument(disk: Disk, emp: int, file: Upload, docType: string, token: string): (r: (Disk, Result<Saved>))
    ensures r.1.Success? <==> file.filename != "" && LowerExt(file.filename) in Allowed
    ensures r.1.Failure? ==> r.0 == disk
    ensures r.1.Success? ==> r.1.value == Saved(WebPath(emp, StoredName(docType, token, file.filename)), file.filename)
    ensures r.1.Success? ==> r.0 == disk + {r.1.value.webPath}
  {
    if file.filename == "" then (disk, Failure("No file provided or filename missing."))
    else if LowerExt(file.filename) !in Allowed then
      (disk, Failure("Invalid file type. Allowed: .pdf, .jpg, .jpeg, .png"))
    else
      var path := WebPath(emp, StoredName(docType, token, file.filename));
      (disk + {path}, Success(Saved(path, file.filename)))
  }

  /** An accepted document's stored name keeps the sanitised type, the token, and an allowed extension. */
  lemma SavedNameShape(disk: Disk, emp: int, file: Upload, docType: string, token: string)
    requires SaveDocument(disk, emp, file, docType, token).1.Success?
    ensures var name := StoredName(docType, token, file.filename);
      && Text.StartsWith(name, Sanitize(docType) + "_" + token)
      && name[|name| - |LowerExt(file.filename)|..] in Allowed
      && Text.StartsWith(SaveDocument(disk, emp, file, docType, token).1.value.webPath, "/uploads/employee_documents/")
  {
    var name := StoredName(docType, token, file.filename);
    var pre := Sanitize(docType) + "_" + token;
    assert name[..|pre|] == pre;
    assert name[|name| - |LowerExt(file.filename)|..] == LowerExt(file.filename);
    var path := WebPath(emp, name);
    assert path[..|"/uploads/employee_documents/"|] == "/uploads/employee_documents/";
  }

  const PathTaken := "Database error: UNIQUE constraint failed: employee_documents.file_path"

  /** `add_document_record`: inserts the row, unless another row already records that path. */
  function AddRecord(docs: Docs, emp: int, docType: string, name: string, path: string, now: string): (r: (Docs, Result<nat>))
    requires Valid(docs)
    ensures Valid(r.0)
    ensures r.1.Success? <==> !KeyTaken(docs.rows, PathKey, path)
    ensures r.1.Failure? ==> r.0 == docs && r.1.error == PathTaken
    ensures r.1.Success? ==>
      && r.1.value == docs.nextId
      && r.0.rows == docs.rows + [Row(docs.nextId, Document(emp, docType, name, path, now))]
    ensures UniqueOn(docs, PathKey) ==> UniqueOn(r.0, PathKey)
  {
    if KeyTaken(docs.rows, PathKey, path) then (docs, Failure(PathTaken))
    else
      var v := Document(emp, docType, name, path, now);
      var (docs', id) := Insert(docs, v);
      assert UniqueOn(docs, PathKey) ==> UniqueOn(docs', PathKey) by {
        if UniqueOn(docs, PathKey) { InsertKeepsUnique(docs, v, PathKey); }
      }
      (docs', Success(id))
  }

  function UploadedAt(x: Row<Document>): string {
    x.val.uploadedAt
  }

  function IsOwn(emp: int): Row<Document> -> bool {
    (x: Row<Document>) => x.val.employeeId == emp
  }

  /** `get_employee_documents`: exactly the employee's documents, newest `uploaded_at` first. */
  function List(docs: Docs, emp: int): (r: seq<Row<Document>>)
    ensures forall x :: x in r <==> x in docs.rows && x.val.employeeId == emp
    ensures multiset(r) == multiset(Select(docs.rows, IsOwn(emp)))
    ensures Sorting.SortedBy(r, Sorting.DescBy(UploadedAt))
  {
    Sorting.DescByIsPreorder(UploadedAt);
    Sorting.Sort(Select(docs.rows, IsOwn(emp)), Sorting.DescBy(UploadedAt))
  }

  function OwnedBy(docId: int, emp: int): Row<Document> -> bool {
    (x: Row<Document>) => x.id == docId && x.val.employeeId == emp
  }

  /**
   * `delete_document_record`: only a document with this id that belongs to this
   * employee is found; its row is deleted and committed first, then its file is
   * removed best-effort, so a failed removal still reports success.
   */
  function DeleteDocument(s: Store, docId: int, emp: int, undeletable: set<string>): (r: (Store, Result<()>))
    requires Valid(s.docs)
    ensures Valid(r.0.docs)
    ensures r.1.Success? <==> exists i :: 0 <= i < |s.docs.rows| && OwnedBy(docId, emp)(s.docs.rows[i])
    ensures r.1.Failure? ==> r.0 == s && r.1.error == "Document not found or access denied."
    ensures forall x :: x in r.0.docs.rows <==> x in s.docs.rows && !(x.id == docId && x.val.employeeId == emp)
    ensures r.1.Success? ==> |r.0.docs.rows| == |s.docs.rows| - 1
    ensures r.0.disk <= s.disk
    ensures r.1.Success? ==>
      var k := FirstIndex(s.docs.rows, OwnedBy(docId, emp)).value;
      var path := s.docs.rows[k].val.filePath;
      && k < |s.docs.rows|
      && (path != "" && path !in undeletable ==> r.0.disk == s.disk - {path})
      && (path == "" || path in undeletable ==> r.0.disk == s.disk)
    ensures UniqueOn(s.docs, PathKey) ==> UniqueOn(r.0.docs, PathKey)
  {
    match FirstIndex(s.docs.rows, OwnedBy(docId, emp))
    case None => (s, Failure("Document not found or access denied."))
    case Some(k) =>
      var (docs', n) := DeleteWhere(s.docs, OwnedBy(docId, emp));
      CountOneId(s.docs, OwnedBy(docId, emp), k);
      DeleteKeepsUniqueIf(s.docs, OwnedBy(docId, emp));
      if n == 0 then (s, Failure("Document not found or failed to delete DB record."))
      else
        var path := s.docs.rows[k].val.filePath;
        (Store(docs', if path != "" then RemoveBestEffort(s.disk, path, undeletable) else s.disk), Success(()))
  }

  lemma DeleteKeepsUniqueIf(t: Docs, p: Row<Document> -> bool)
    requires Valid(t)
    ensures UniqueOn(t, PathKey) ==> UniqueOn(DeleteWhere(t, p).0, PathKey)
  {
    if UniqueOn(t, PathKey) { DeleteKeepsUnique(t, p, PathKey); }
  }

  /** A condition that pins the row id matches exactly one row when it matches any. */
  lemma CountOneId(t: Docs, p: Row<Document> -> bool, k: nat)
    requires Valid(t) && k < |t.rows| && p(t.rows[k])
    requires forall x :: p(x) ==> x.id == t.rows[k].id
    ensures Count(t.rows, p) == 1
  {
    assert forall i :: 0 <= i < |t.rows| && i != k ==> t.rows[i].id != t.rows[k].id;
    SelectSingle(t.rows, p, k);
  }

  /** Deleting another employee's document changes nothing; other employees' documents always survive. */
  lemma DeleteIsOwnerScoped(s: Store, docId: int, emp: int, undeletable: set<string>)
    requires Valid(s.docs)
    ensures var r := DeleteDocument(s, docId, emp, undeletable);
      forall x :: x in s.docs.rows && x.val.employeeId != emp ==> x in r.0.docs.rows
    ensures (forall i :: 0 <= i < |s.docs.rows| && s.docs.rows[i].id == docId ==> s.docs.rows[i].val.employeeId != emp) ==>
      DeleteDocument(s, docId, emp, undeletable) == (s, Failure("Document not found or access denied."))
  {
  }

  // ---------------------------------------------------------------------------
  // Upload with compensation
  // ---------------------------------------------------------------------------

  datatype DocData = Listing(documents: seq<Row<Document>>) | Uploaded(id: nat, docType: string, fileName: string, filePath: string) | NoData

  const InternalError := "An internal server error occurred."

  /**
   * The POST branch once the employee id, type and file are in hand. A refused
   * save returns a 2-tuple that `main` unpacks into three names, so the client
   * sees the generic error. A failed insert removes the saved file (unguarded:
   * if that removal fails the generic error escapes instead).
   */
  function UploadDocument(s: Store, emp: int, docType: string, file: Upload, token: string, now: string, removeFails: bool)
    : (r: (Store, Reply<DocData>))
    requires Valid(s.docs)
    ensures Valid(r.0.docs)
    ensures LowerExt(file.filename) !in Allowed || file.filename == "" ==> r == (s, Err(InternalError))
    ensures r.1.Ok? ==>
      var path := WebPath(emp, StoredName(docType, token, file.filename));
      && r.0.docs.rows == s.docs.rows + [Row(s.docs.nextId, Document(emp, docType, file.filename, path, now))]
      && r.0.disk == s.disk + {path}
      && r.1 == Ok(Some("Document uploaded successfully."), Uploaded(s.docs.nextId, docType, file.filename, path))
    ensures !r.1.Ok? ==> r.0.docs == s.docs
    ensures r.1.Err? && r.1.error == PathTaken ==> r.0.disk == s.disk - {WebPath(emp, StoredName(docType, token, file.filename))}
    ensures UniqueOn(s.docs, PathKey) ==> UniqueOn(r.0.docs, PathKey)
  {
    var (disk', saved) := SaveDocument(s.disk, emp, file, docType, token);
    match saved
    case Failure(_) => (s, Err(InternalError))
    case Success(sv) =>
      var (docs', res) := AddRecord(s.docs, emp, docType, sv.originalName, sv.webPath, now);
      match res
      case Success(id) =>
        (Store(docs', disk'), Ok(Some("Document uploaded successfully."), Uploaded(id, docType, sv.originalName, sv.webPath)))
      case Failure(e) =>
        if removeFails then (Store(s.docs, disk'), Err(InternalError))
        else (Store(s.docs, disk' - {sv.webPath}), Err(e))
  }

  /** With a token that names a path no row records yet, an allowed upload succeeds. */
  lemma FreshUploadSucceeds(s: Store, emp: int, docType: string, file: Upload, token: string, now: string, removeFails: bool)
    requires Valid(s.docs)
    requires file.filename != "" && LowerExt(file.filename) in Allowed
    requires !KeyTaken(s.docs.rows, PathKey, WebPath(emp, StoredName(docType, token, file.filename)))
    ensures UploadDocument(s, emp, docType, file, token, now, removeFails).1.Ok?
  {
  }

  // ---------------------------------------------------------------------------
  // `main`
  // ---------------------------------------------------------------------------

  /**
   * A request: method, `X-Employee-ID` header, first query-string values, the
   * form's text fields, and the `document_file` part if it carries a file.
   */
  datatype Request = Request(
    verb: string, employeeHeader: Option<string>, query: map<string, string>,
    form: map<string, string>, file: Option<Upload>)

  /** The id text `main` starts from: the header, else the query string (except on POST). */
  function IdText(req: Request): Option<string> {
    if !Present(req.employeeHeader) && req.verb != "POST" then Get(req.query, "employee_id") else req.employeeHeader
  }

  /** The employee id once it is known to be absent or well-formed; `if not employee_id` makes 0 absent. */
  function KnownId(req: Request): (r: Option<int>)
    ensures r.Some? ==> r.value != 0 && Present(IdText(req)) && Text.ParseInt(IdText(req).value) == r
    ensures Present(IdText(req)) && Text.ParseInt(IdText(req).value).Some? && Text.ParseInt(IdText(req).value).value != 0 ==> r.Some?
  {
    if !Present(IdText(req)) then None
    else match Text.ParseInt(IdText(req).value)
      case Some(v) => if v != 0 then Some(v) else None
      case None => None
  }

  /**
   * `main`. `if not employee_id` treats an id of 0 like a missing one.
   * `removeFails` is a failure of the unguarded `os.remove` that undoes a
   * saved file when its row cannot be inserted.
   */
  function Handle(s: Store, req: Request, token: string, now: string, undeletable: set<string>, removeFails: bool)
    : (r: (Store, Reply<DocData>))
    requires Valid(s.docs)
    ensures Valid(r.0.docs)
    ensures UniqueOn(s.docs, PathKey) ==> UniqueOn(r.0.docs, PathKey)
    ensures req.verb == "OPTIONS" ==> r == (s, Preflight)
    ensures req.verb != "OPTIONS" && req.verb != "POST" && !Present(IdText(req)) ==>
      r == (s, Err("Authentication required: Employee ID missing."))
    ensures req.verb != "OPTIONS" && Present(IdText(req)) && Text.ParseInt(IdText(req).value).None? ==>
      r == (s, Err("Invalid Employee ID format."))
    ensures req.verb == "GET" && Present(IdText(req)) && Text.ParseInt(IdText(req).value) == Some(0) ==>
      r == (s, Err("Authentication required: Employee ID missing for GET."))
    ensures req.verb == "GET" ==> r.0 == s
    ensures r.0.docs != s.docs ==> req.verb in {"POST", "DELETE"} && r.1.Ok?
    ensures (req.verb != "OPTIONS" && (Present(IdText(req)) || req.verb == "POST")
             && !(Present(IdText(req)) && Text.ParseInt(IdText(req).value).None?)) ==>
      r == Dispatch(s, req, KnownId(req), token, now, undeletable, removeFails)
  {
    if req.verb == "OPTIONS" then (s, Preflight)
    else if !Present(IdText(req)) && req.verb != "POST" then (s, Err("Authentication required: Employee ID missing."))
    else if Present(IdText(req)) && Text.ParseInt(IdText(req).value).None? then (s, Err("Invalid Employee ID format."))
    else Dispatch(s, req, KnownId(req), token, now, undeletable, removeFails)
  }

  /** `main` after the id checks: list on GET, upload on POST, delete on DELETE. */
  function Dispatch(s: Store, req: Request, known: Option<int>, token: string, now: string, undeletable: set<string>, removeFails: bool)
    : (r: (Store, Reply<DocData>))
    requires Valid(s.docs)
    ensures Valid(r.0.docs)
    ensures UniqueOn(s.docs, PathKey) ==> UniqueOn(r.0.docs, PathKey)
    ensures req.verb == "GET" && known.None? ==> r == (s, Err("Authentication required: Employee ID missing for GET."))
    ensures req.verb == "GET" && known.Some? ==> r == (s, Ok(None, Listing(List(s.docs, known.value))))
    ensures req.verb == "POST" ==> r == HandlePost(s, req, known, token, now, removeFails)
    ensures req.verb == "DELETE" ==> r == HandleDelete(s, req, known, undeletable)
    ensures r.0.docs != s.docs ==> req.verb in {"POST", "DELETE"} && r.1.Ok?
    ensures req.verb !in {"GET", "POST", "DELETE"} ==> r == (s, Err(MethodNotAllowed(req.verb)))
  {
    if req.verb == "GET" then
      if known.None? then (s, Err("Authentication required: Employee ID missing for GET."))
      else (s, Ok(None, Listing(List(s.docs, known.value))))
    else if req.verb == "POST" then HandlePost(s, req, known, token, now, removeFails)
    else if req.verb == "DELETE" then HandleDelete(s, req, known, undeletable)
    else (s, Err(MethodNotAllowed(req.verb)))
  }

  /** The DELETE branch: the employee must be known, then the document id comes from the query string. */
  function HandleDelete(s: Store, req: Request, known: Option<int>, undeletable: set<string>): (r: (Store, Reply<DocData>))
    requires Valid(s.docs)
    ensures Valid(r.0.docs)
    ensures UniqueOn(s.docs, PathKey) ==> UniqueOn(r.0.docs, PathKey)
    ensures known.None? ==> r == (s, Err("Authentication required: Employee ID missing for DELETE."))
    ensures known.Some? && !Present(Get(req.query, "id")) ==> r == (s, Err("Document ID required for delete."))
    ensures known.Some? && Present(Get(req.query, "id")) && Text.ParseInt(Get(req.query, "id").value).None? ==>
      r == (s, Err("Invalid Document ID format."))
    ensures known.Some? && Present(Get(req.query, "id")) && Text.ParseInt(Get(req.query, "id").value).Some? ==>
      var (s', res) := DeleteDocument(s, Text.ParseInt(Get(req.query, "id").value).value, known.value, undeletable);
      && r.0 == s'
      && (res.Success? ==> r.1 == Ok(Some("Document deleted successfully."), NoData))
      && (res.Failure? ==> r.1 == Err(res.error))
    ensures r.0.docs != s.docs ==> r.1.Ok?
  {
    if known.None? then (s, Err("Authentication required: Employee ID missing for DELETE."))
    else
      var idq := Get(req.query, "id");
      if !Present(idq) then (s, Err("Document ID required for delete."))
      else match Text.ParseInt(idq.value)
        case None => (s, Err("Invalid Document ID format."))
        case Some(docId) =>
          var (s', res) := DeleteDocument(s, docId, known.value, undeletable);
          (s', if res.Success? then Ok(Some("Document deleted successfully."), NoData) else Err(res.error))
  }

  /** The POST branch: the employee id falls back to the form, then type and file are required. */
  function HandlePost(s: Store, req: Request, known: Option<int>, token: string, now: string, removeFails: bool)
    : (r: (Store, Reply<DocData>))
    requires Valid(s.docs)
    ensures Valid(r.0.docs)
    ensures UniqueOn(s.docs, PathKey) ==> UniqueOn(r.0.docs, PathKey)
    ensures known.None? && !Present(Get(req.form, "employee_id")) ==>
      r == (s, Err("Authentication required: Employee ID missing in POST."))
    ensures ((known.Some? || (Present(Get(req.form, "employee_id")) && Text.ParseInt(req.form["employee_id"]).Some?))
             && (!Present(Get(req.form, "document_type")) || req.file.None? || req.file.value.filename == "")) ==>
      r == (s, Err("Document type and file are required."))
    ensures known.None? && Present(Get(req.form, "employee_id")) && Text.ParseInt(req.form["employee_id"]).None? ==>
      r == (s, Err("Invalid Employee ID format in POST form."))
    ensures ((known.Some? || (Present(Get(req.form, "employee_id")) && Text.ParseInt(req.form["employee_id"]).Some?))
             && Present(Get(req.form, "document_type")) && req.file.Some? && req.file.value.filename != "") ==>
      var emp := if known.Some? then known.value else Text.ParseInt(req.form["employee_id"]).value;
      r == UploadDocument(s, emp, req.form["document_type"], req.file.value, token, now, removeFails)
    ensures r.0.docs != s.docs ==> r.1.Ok?
  {
    var emp :=
      if known.Some? then Success(known.value)
      else if !Present(Get(req.form, "employee_id")) then Failure("Authentication required: Employee ID missing in POST.")
      else match Text.ParseInt(req.form["employee_id"])
        case None => Failure("Invalid Employee ID format in POST form.")
        case Some(v) => Success(v);
    match emp
    case Failure(e) => (s, Err(e))
    case Success(id) =>
      var docType := Get(req.form, "document_type");
      if !Present(docType) || req.file.None? || req.file.value.filename == "" then
        (s, Err("Document type and file are required."))
      else UploadDocument(s, id, docType.value, req.file.value, token, now, removeFails)
  }
}
