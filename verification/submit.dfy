/**
 * `submit_contact.py`: the public contact form's endpoint (`POST`). It also
 * carries resource branches (list, update with an optional document, delete
 * with its file) that no page of the site calls: the dashboard's resource
 * form goes to `resources_api.py`.
 */
module SubmitContact {
  import opened Wrappers
  import opened Text
  import opened Tables
  import opened Http
  import opened Files
  import opened Marketing
  import opened Resources
  import Contacts

  datatype Store = Store(inbox: Contacts.Inbox, library: Library, disk: Disk)

  predicate Inv(s: Store) {
    Valid(s.inbox) && Valid(s.library)
  }

  // ---------------------------------------------------------------------------
  // Resource types and documents
  // ---------------------------------------------------------------------------

  const ResourceTypes := ["Blog", "Case Study", "Technical Aspect"]

  const TypeRefused := "Type must be one of: Blog, Case Study, Technical Aspect"

  predicate KnownType(kind: string) {
    kind in ResourceTypes
  }

  predicate Plain(s: string) {
    forall i :: 0 <= i < |s| ==> !IsMarkup(s[i])
  }

  /** Text without markup characters is its own escape. */
  lemma {:induction false} EscapePlain(s: string)
    requires Plain(s)
    ensures Escape(s) == s
  {
    if s != "" {
      EscapePlain(s[1..]);
      assert s == [s[0]] + s[1..];
    }
  }

  /** A markup-free name is the escape of itself and of nothing else. */
  lemma EscapeFixes(a: string, kind: string)
    requires Plain(a)
    ensures Escape(kind) == a <==> kind == a
  {
    EscapePlain(a);
    UnescapeEscape(kind);
    UnescapeEscape(a);
  }

  /** The type is checked after escaping, which changes none of the allowed names. */
  lemma TypeCheckSeesRawText(kind: string)
    ensures KnownType(Escape(kind)) <==> KnownType(kind)
  {
    TypesPlain();
    if KnownType(kind) {
      EscapeFixes(kind, kind);
    }
    if KnownType(Escape(kind)) {
      EscapeFixes(Escape(kind), kind);
    }
  }

  /** None of the allowed names holds a markup character. */
  lemma TypesPlain()
    ensures forall a :: a in ResourceTypes ==> Plain(a)
  {
    assert Plain("Blog");
    assert Plain("Case Study");
    assert Plain("Technical Aspect");
  }

  const DocumentExts := {".pdf", ".doc", ".docx", ".txt"}

  const DocumentRefused := "Only PDF, DOC, DOCX, and TXT files are allowed"

  /**
   * `save_uploaded_file`: no file name means no file (`None`); otherwise the
   * lower-cased extension must be allowed and the file is stored as
   * `/uploads/resources/<token><ext>`.
   */
  function SaveDocument(disk: Disk, file: Upload, token: string): (r: (Disk, Result<Option<string>>))
    ensures file.filename == "" ==> r == (disk, Success(None))
    ensures file.filename != "" ==> (r.1.Success? <==> LowerExt(file.filename) in DocumentExts)
    ensures r.1.Failure? ==> r == (disk, Failure(DocumentRefused))
    ensures r.1.Success? && r.1.value.Some? ==>
      r.1.value.value == "/uploads/resources/" + token + LowerExt(file.filename) && r.0 == disk + {r.1.value.value}
    ensures r.1.Success? && r.1.value.None? ==> r.0 == disk
  {
    if file.filename == "" then (disk, Success(None))
    else if LowerExt(file.filename) !in DocumentExts then (disk, Failure(DocumentRefused))
    else
      var path := "/uploads/resources/" + token + LowerExt(file.filename);
      (disk + {path}, Success(Some(path)))
  }

  /** A stored path names a local upload that may be removed (`path and path.startswith('/uploads/')`). */
  predicate Local(path: Option<string>) {
    path.Some? && StartsWith(path.value, "/uploads/")
  }

  /** The `file_path` of the resource with this id. */
  function StoredPath(t: Library, id: int): Option<string>
    requires HasId(t, id)
  {
    ById(t, id).value.val.filePath
  }

  // ---------------------------------------------------------------------------
  // `update_resource` and `delete_resource`
  // ---------------------------------------------------------------------------

  /** The escaped, stripped title, type and content of a `PUT`. */
  datatype Draft = Draft(title: string, kind: string, content: string)

  /**
   * The rest of `update_resource`, once the row is known to exist: keep the old
   * path unless a file came, else save it and remove the old local file, whose
   * removal failure aborts the update after the new file was written.
   */
  function Rewrite(s: Store, id: int, d: Draft, file: Option<Upload>, token: string, removeError: Option<string>)
    : (r: (Store, Result<bool>))
    requires Inv(s) && HasId(s.library, id)
    ensures Inv(r.0) && r.0.inbox == s.inbox
    ensures r.1.Failure? ==> r.0.library == s.library
    ensures r.1.Success? ==> r.1.value
    ensures file.None? ==> r == (Store(s.inbox, ReplaceById(s.library, id, Resource(d.title, d.kind, d.content, StoredPath(s.library, id))).0, s.disk), Success(true))
    ensures file.Some? ==> r == Reupload(s, id, d, file.value, token, removeError)
    ensures r.1.Success? ==> ById(r.0.library, id) == Some(Row(id, Resource(d.title, d.kind, d.content,
      if file.None? then StoredPath(s.library, id) else SaveDocument(s.disk, file.value, token).1.value)))
  {
    if file.None? then
      ReplaceThenRead(s.library, id, Resource(d.title, d.kind, d.content, StoredPath(s.library, id)));
      (Store(s.inbox, ReplaceById(s.library, id, Resource(d.title, d.kind, d.content, StoredPath(s.library, id))).0, s.disk), Success(true))
    else Reupload(s, id, d, file.value, token, removeError)
  }

  /** `update_resource` with a new file: save it, point the row at it, remove the old local file. */
  function Reupload(s: Store, id: int, d: Draft, file: Upload, token: string, removeError: Option<string>)
    : (r: (Store, Result<bool>))
    requires Inv(s) && HasId(s.library, id)
    ensures Inv(r.0) && r.0.inbox == s.inbox
    ensures r.1.Failure? ==> r.0.library == s.library
    ensures r.1.Success? ==> r.1.value
    ensures file.filename != "" && LowerExt(file.filename) !in DocumentExts ==> r == (s, Failure(DocumentRefused))
    ensures forall p :: p in s.disk && p !in r.0.disk ==> Local(Some(p)) && StoredPath(s.library, id) == Some(p)
    ensures forall p :: p in r.0.disk && p !in s.disk ==> SaveDocument(s.disk, file, token).1 == Success(Some(p))
    ensures r.1.Success? ==>
      ById(r.0.library, id) == Some(Row(id, Resource(d.title, d.kind, d.content, SaveDocument(s.disk, file, token).1.value)))
  {
    var (disk1, saved) := SaveDocument(s.disk, file, token);
    match saved
    case Failure(e) => (s, Failure(e))
    case Success(path) =>
      assert s.disk <= disk1 && forall p :: p in disk1 && p !in s.disk ==> path == Some(p);
      Repoint(s, id, d, disk1, path, removeError)
  }

  /** After the save: point the row at `path`, then remove the old local file if it is on disk. */
  function Repoint(s: Store, id: int, d: Draft, disk1: Disk, path: Option<string>, removeError: Option<string>)
    : (r: (Store, Result<bool>))
    requires Inv(s) && HasId(s.library, id)
    ensures Inv(r.0) && r.0.inbox == s.inbox && r.0.disk <= disk1
    ensures r.1.Failure? ==> r.0.library == s.library
    ensures r.1.Success? ==> r.1.value && ById(r.0.library, id) == Some(Row(id, Resource(d.title, d.kind, d.content, path)))
    ensures forall p :: p in disk1 && p !in r.0.disk ==> Local(Some(p)) && StoredPath(s.library, id) == Some(p)
  {
    var prev := StoredPath(s.library, id);
    var library' := ReplaceById(s.library, id, Resource(d.title, d.kind, d.content, path)).0;
    ReplaceThenRead(s.library, id, Resource(d.title, d.kind, d.content, path));
    if Local(prev) && prev.value in disk1 then
      match removeError
      case Some(e) => (Store(s.inbox, s.library, disk1), Failure(e))
      case None => (Store(s.inbox, library', disk1 - {prev.value}), Success(true))
    else (Store(s.inbox, library', disk1), Success(true))
  }

  /** `update_resource`: `False` for an unknown id, with nothing changed. */
  function UpdateResource(s: Store, id: int, d: Draft, file: Option<Upload>, token: string, removeError: Option<string>)
    : (r: (Store, Result<bool>))
    requires Inv(s)
    ensures Inv(r.0) && r.0.inbox == s.inbox
    ensures !HasId(s.library, id) ==> r == (s, Success(false))
    ensures HasId(s.library, id) ==> r == Rewrite(s, id, d, file, token, removeError)
  {
    if !HasId(s.library, id) then (s, Success(false))
    else Rewrite(s, id, d, file, token, removeError)
  }

  /** Without a new file the update keeps the stored path and touches no file. */
  lemma UpdateKeepsPath(s: Store, id: int, d: Draft, token: string, removeError: Option<string>)
    requires Inv(s) && HasId(s.library, id)
    ensures var r := UpdateResource(s, id, d, None, token, removeError);
      r.1 == Success(true) && r.0.disk == s.disk
      && ById(r.0.library, id) == Some(Row(id, Resource(d.title, d.kind, d.content, StoredPath(s.library, id))))
  {
    ReplaceThenRead(s.library, id, Resource(d.title, d.kind, d.content, StoredPath(s.library, id)));
  }

  /**
   * `delete_resource`: reads the path, deletes and commits the row, then
   * removes a local file. A removal failure raises after the commit.
   */
  function DeleteResource(s: Store, id: int, removeError: Option<string>): (r: (Store, Result<bool>))
    requires Inv(s)
    ensures Inv(r.0) && r.0.inbox == s.inbox
    ensures forall x :: x in r.0.library.rows <==> x in s.library.rows && x.id != id
    ensures r.1.Success? ==> (r.1.value <==> HasId(s.library, id))
    ensures r.1.Failure? ==> removeError.Some? && HasId(s.library, id)
    ensures r.0.disk <= s.disk
    ensures forall p :: p in s.disk && p !in r.0.disk ==> Local(Some(p)) && HasId(s.library, id) && StoredPath(s.library, id) == Some(p)
    ensures HasId(s.library, id) && Local(StoredPath(s.library, id)) && StoredPath(s.library, id).value in s.disk && removeError.None? ==>
      StoredPath(s.library, id).value !in r.0.disk
  {
    var (library', found) := DeleteById(s.library, id);
    if HasId(s.library, id) && Local(StoredPath(s.library, id)) && StoredPath(s.library, id).value in s.disk then
      match removeError
      case Some(e) => (Store(s.inbox, library', s.disk), Failure(e))
      case None => (Store(s.inbox, library', s.disk - {StoredPath(s.library, id).value}), Success(found))
    else (Store(s.inbox, library', s.disk), Success(found))
  }

  // ---------------------------------------------------------------------------
  // `main`
  // ---------------------------------------------------------------------------

  /**
   * A request: the method, the first value `parse_qs` found for each key of the
   * body (read by `POST`), what `cgi.FieldStorage().getvalue` returns for each
   * field (read by `PUT`), the `file` part if one came, and `QUERY_STRING`.
   */
  datatype Request = Request(verb: string, form: map<string, string>, fields: map<string, string>, file: Option<Upload>, query: string)

  /**
   * What the script cannot compute: the time, a fresh uuid, whether the
   * contact INSERT fails, whether removing an old file raises (and its
   * message), and the message of `int()`'s `ValueError` for a bad id.
   */
  datatype World = World(now: string, token: string, insertFails: bool, removeError: Option<string>, intError: string)

  const UpdateFailed := "Failed to update resource: "

  /** `escape(form.getvalue(k, '').strip())`. */
  function PutField(fields: map<string, string>, k: string): (r: string)
    ensures Unescape(r) == Strip(GetOrEmpty(fields, k))
    ensures r == "" <==> AllSpace(GetOrEmpty(fields, k))
    ensures forall i :: 0 <= i < |r| ==> r[i] != '<' && r[i] != '>' && r[i] != '"' && r[i] != '\''
    ensures r == Escape(Strip(GetOrEmpty(fields, k)))
  {
    UnescapeEscape(Strip(GetOrEmpty(fields, k)));
    Escape(Strip(GetOrEmpty(fields, k)))
  }

  function DraftOf(fields: map<string, string>): Draft {
    Draft(PutField(fields, "title"), PutField(fields, "type"), PutField(fields, "content"))
  }

  predicate DraftComplete(d: Draft) {
    d.title != "" && d.kind != "" && d.content != ""
  }

  /** The contact form's `POST`: the contact rules plus the address check. */
  function Submit(s: Store, form: map<string, string>, w: World): (r: (Store, Reply<Data<Contacts.Contact>>))
    requires Inv(s)
    ensures Inv(r.0) && r.0.library == s.library && r.0.disk == s.disk
    ensures var c := Contacts.Fields(form, w.now);
      if !Contacts.Complete(c) then r == (s, Err(Contacts.Required))
      else if !Contacts.EmailLooksValid(c.email) then r == (s, Err("Please enter a valid email address"))
      else if w.insertFails then r == (s, Err("Failed to save your message. Please try again."))
      else (r.1.Ok? && r.1.data.Added? && r.1.data.id >= 1 && !HasId(s.inbox, r.1.data.id)
        && r.0.inbox.rows == s.inbox.rows + [Row(r.1.data.id, c)])
  {
    var c := Contacts.Fields(form, w.now);
    if !Contacts.Complete(c) then (s, Err(Contacts.Required))
    else if !Contacts.EmailLooksValid(c.email) then (s, Err("Please enter a valid email address"))
    else if w.insertFails then (s, Err("Failed to save your message. Please try again."))
    else Accept(s, c)
  }

  /** The insert of a message that passed the checks, with its new id in the answer. */
  function Accept(s: Store, c: Contacts.Contact): (r: (Store, Reply<Data<Contacts.Contact>>))
    requires Inv(s)
    ensures Inv(r.0) && r.0.library == s.library && r.0.disk == s.disk
    ensures r.1.Ok? && r.1.data.Added? && r.1.data.id >= 1 && !HasId(s.inbox, r.1.data.id)
    ensures r.0.inbox.rows == s.inbox.rows + [Row(r.1.data.id, c)]
  {
    var (inbox', id) := Insert(s.inbox, c);
    assert inbox'.rows == s.inbox.rows + [Row(id, c)];
    (Store(inbox', s.library, s.disk), Ok(Some("Thank you for your message! We will get back to you soon."), Added(id)))
  }

  /** The `PUT` branch: id present, fields complete, type known, then the update in its own `try`. */
  function Put(s: Store, req: Request, w: World): (r: (Store, Reply<Data<Resource>>))
    requires Inv(s)
    ensures Inv(r.0) && r.0.inbox == s.inbox
    ensures !Contains(req.query, IdKey) ==> r == (s, Bare("Resource ID required for update"))
    ensures Contains(req.query, IdKey) && !DraftComplete(DraftOf(req.fields)) ==>
      r == (s, Bare("Title, type, and content are required"))
    ensures Contains(req.query, IdKey) && DraftComplete(DraftOf(req.fields)) && !KnownType(DraftOf(req.fields).kind) ==>
      r == (s, Bare(TypeRefused))
    ensures r.1.Ok? ==> (r.1 == Ok(Some("Resource updated successfully"), NoData)
      && QueryId(req.query).Id? && HasId(s.library, QueryId(req.query).n) && KnownType(DraftOf(req.fields).kind))
    ensures (QueryId(req.query).Id? && !HasId(s.library, QueryId(req.query).n) && DraftComplete(DraftOf(req.fields))
      && KnownType(DraftOf(req.fields).kind)) ==> r == (s, Bare("Resource not found"))
    ensures QueryId(req.query).BadId? && DraftComplete(DraftOf(req.fields)) && KnownType(DraftOf(req.fields).kind) ==>
      r == (s, Bare(UpdateFailed + w.intError))
    ensures QueryId(req.query).Id? && DraftComplete(DraftOf(req.fields)) && KnownType(DraftOf(req.fields).kind) ==>
      var (s', res) := UpdateResource(s, QueryId(req.query).n, DraftOf(req.fields), req.file, w.token, w.removeError);
      r.0 == s' && (r.1.Ok? <==> res == Success(true)) && (res.Failure? ==> r.1 == Bare(UpdateFailed + res.error))
    ensures (QueryId(req.query).Id? && HasId(s.library, QueryId(req.query).n) && DraftComplete(DraftOf(req.fields))
             && KnownType(DraftOf(req.fields).kind) && req.file.None?) ==>
      var (n, d) := (QueryId(req.query).n, DraftOf(req.fields));
      r.1 == Ok(Some("Resource updated successfully"), NoData)
      && ById(r.0.library, n) == Some(Row(n, Resource(d.title, d.kind, d.content, StoredPath(s.library, n))))
  {
    if !Contains(req.query, IdKey) then (s, Bare("Resource ID required for update"))
    else
      var d := DraftOf(req.fields);
      if !DraftComplete(d) then (s, Bare("Title, type, and content are required"))
      else if !KnownType(d.kind) then (s, Bare(TypeRefused))
      else match QueryId(req.query)
        case Id(n) =>
          var (s', res) := UpdateResource(s, n, d, req.file, w.token, w.removeError);
          (match res
           case Failure(e) => (s', Bare(UpdateFailed + e))
           case Success(true) => (s', Ok(Some("Resource updated successfully"), NoData))
           case Success(false) => (s', Bare("Resource not found")))
        case _ => (s, Bare(UpdateFailed + w.intError))
  }

  /** The `DELETE` branch; its `int()` and file removal raise to the outer handler. */
  function Delete(s: Store, query: string, w: World): (r: (Store, Reply<Data<Resource>>))
    requires Inv(s)
    ensures Inv(r.0) && r.0.inbox == s.inbox
    ensures QueryId(query).NoId? ==> r == (s, Bare("Resource ID required"))
    ensures QueryId(query).BadId? ==> r == (s, Bare(ServerError))
    ensures QueryId(query).Id? ==> var n := QueryId(query).n;
      && (r.1.Ok? <==> HasId(s.library, n) && (w.removeError.None? || !Local(StoredPath(s.library, n)) || StoredPath(s.library, n).value !in s.disk))
      && (!HasId(s.library, n) ==> r == (s, Bare("Resource not found")))
      && !HasId(r.0.library, n)
  {
    match QueryId(query)
    case NoId => (s, Bare("Resource ID required"))
    case BadId => (s, Bare(ServerError))
    case Id(n) =>
      var (s', res) := DeleteResource(s, n, w.removeError);
      assert !HasId(s'.library, n) by {
        forall i | 0 <= i < |s'.library.rows| ensures s'.library.rows[i].id != n {
          assert s'.library.rows[i] in s'.library.rows;
        }
      }
      match res
      case Failure(_) => (s', Bare(ServerError))
      case Success(true) => (s', Ok(Some("Resource deleted successfully"), NoData))
      case Success(false) => (s', Bare("Resource not found"))
  }

  datatype Answer = Resources(reply: Reply<Data<Resource>>) | Contact(reply': Reply<Data<Contacts.Contact>>)

  /** `main`. */
  function Handle(s: Store, req: Request, w: World): (r: (Store, Answer))
    requires Inv(s)
    ensures Inv(r.0)
    ensures req.verb == "OPTIONS" ==> r == (s, Resources(Preflight))
    ensures req.verb == "GET" ==> r == (s, Resources(Ok(None, Listing(s.library.rows))))
    ensures req.verb == "POST" ==> r.1.Contact? && (r.0, r.1.reply') == Submit(s, req.form, w)
    ensures req.verb == "PUT" ==> r.1.Resources? && (r.0, r.1.reply) == Put(s, req, w)
    ensures req.verb == "DELETE" ==> r.1.Resources? && (r.0, r.1.reply) == Delete(s, req.query, w)
    ensures req.verb !in {"OPTIONS", "GET", "POST", "PUT", "DELETE"} ==> r == (s, Resources(Bare(NotAllowed)))
    ensures req.verb != "POST" ==> r.0.inbox == s.inbox
    ensures req.verb != "PUT" && req.verb != "DELETE" ==> r.0.library == s.library && r.0.disk == s.disk
  {
    if req.verb == "OPTIONS" then (s, Resources(Preflight))
    else if req.verb == "GET" then (s, Resources(Ok(None, Listing(s.library.rows))))
    else if req.verb == "POST" then
      var (s', reply) := Submit(s, req.form, w);
      (s', Contact(reply))
    else if req.verb == "PUT" then
      var (s', reply) := Put(s, req, w);
      (s', Resources(reply))
    else if req.verb == "DELETE" then
      var (s', reply) := Delete(s, req.query, w);
      (s', Resources(reply))
    else (s, Resources(Bare(NotAllowed)))
  }

  /**
   * When the old file cannot be removed, the row is already deleted and
   * committed, yet the client is told of a server error.
   */
  lemma FailedRemovalStillDeletes(s: Store, req: Request, w: World, n: int)
    requires Inv(s) && req.verb == "DELETE" && req.query == IdKey + IntToString(n)
    requires HasId(s.library, n) && Local(StoredPath(s.library, n)) && StoredPath(s.library, n).value in s.disk
    requires w.removeError.Some?
    ensures Handle(s, req, w).1 == Resources(Bare(ServerError))
    ensures !HasId(Handle(s, req, w).0.library, n)
  {
    QueryIdOfNumber(n, "");
    assert IdKey + IntToString(n) + "" == req.query;
  }

  /**
   * Only this script checks the address: a complete message whose email has
   * no `@` or no `.` is stored by `contacts_api.py` and refused here.
   */
  lemma OnlySubmitChecksEmail(s: Store, form: map<string, string>, w: World)
    requires Inv(s)
    requires Contacts.Complete(Contacts.Fields(form, w.now)) && !Contacts.EmailLooksValid(Contacts.Fields(form, w.now).email)
    ensures Submit(s, form, w) == (s, Err("Please enter a valid email address"))
    ensures Contacts.Handle(s.inbox, Contacts.Request("POST", form), w.now).1.Ok?
  {
  }
}
