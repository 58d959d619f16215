/**
 * `handbook_api.py`: the company handbook, a single PDF under
 * `/uploads/company_handbook/` with one row recording it.
 */
module Handbook {
  import opened Wrappers
  import opened Tables
  import opened Http
  import opened Files

  /** A row of `company_handbook`; `filePath` is UNIQUE. */
  datatype Book = Book(fileName: string, filePath: string, uploadedAt: string)

  type Books = Table<Book>

  datatype Store = Store(books: Books, disk: Disk)

  /** `get_current_handbook`: the row with the highest id (`ORDER BY id DESC LIMIT 1`), if any. */
  function Current(t: Books): (r: Option<Row<Book>>)
    requires Valid(t)
    ensures r.None? <==> |t.rows| == 0
    ensures r.Some? ==> r.value in t.rows && forall i :: 0 <= i < |t.rows| ==> t.rows[i].id <= r.value.id
  {
    if |t.rows| == 0 then None else Some(t.rows[|t.rows| - 1])
  }

  /**
   * `save_handbook_file`: refuses a missing filename and any extension other
   * than `.pdf` (any case), else writes `<token>.pdf`.
   */
  function SaveHandbookFile(disk: Disk, file: Upload, token: string): (r: (Disk, Result<string>))
    ensures r.1.Success? <==> file.filename != "" && LowerExt(file.filename) == ".pdf"
    ensures r.1.Failure? ==> r.0 == disk
    ensures file.filename != "" && LowerExt(file.filename) != ".pdf" ==>
      r.1 == Failure("Invalid file type. Only PDF files are allowed for the handbook.")
    ensures r.1.Success? ==> r.1.value == "/uploads/company_handbook/" + token + ".pdf" && r.0 == disk + {r.1.value}
  {
    if file.filename == "" then (disk, Failure("No file provided."))
    else if LowerExt(file.filename) != ".pdf" then
      (disk, Failure("Invalid file type. Only PDF files are allowed for the handbook."))
    else
      var path := "/uploads/company_handbook/" + token + LowerExt(file.filename);
      (disk + {path}, Success(path))
  }

  function AllPaths(rows: seq<Row<Book>>): (r: seq<string>)
    ensures |r| == |rows|
    ensures forall i :: 0 <= i < |rows| ==> r[i] == rows[i].val.filePath
  {
    if |rows| == 0 then [] else [rows[0].val.filePath] + AllPaths(rows[1..])
  }

  function Any(): Row<Book> -> bool {
    (x: Row<Book>) => true
  }

  /**
   * `add_or_replace_handbook`: removes every recorded file best-effort, then
   * deletes every row and inserts the new one. `writeFails` is a database
   * failure in those two statements: the rows roll back, the removed files stay
   * removed.
   */
  function AddOrReplace(s: Store, path: string, name: string, now: string, undeletable: set<string>, writeFails: bool)
    : (r: (Store, Result<nat>))
    requires Valid(s.books)
    ensures Valid(r.0.books)
    ensures r.0.disk == RemoveAllBestEffort(s.disk, AllPaths(s.books.rows), undeletable)
    ensures forall p :: p in s.disk && p !in undeletable && (exists i :: 0 <= i < |s.books.rows| && s.books.rows[i].val.filePath == p) ==> p !in r.0.disk
    ensures r.1.Failure? <==> writeFails
    ensures r.1.Failure? ==> r.0.books == s.books
    ensures r.1.Success? ==> r.0.books.rows == [Row(r.1.value, Book(name, path, now))]
    ensures r.1.Success? ==> r.1.value == s.books.nextId
    ensures UniqueOn(r.0.books, (b: Book) => b.filePath) || writeFails
  {
    var disk' := RemoveAllBestEffort(s.disk, AllPaths(s.books.rows), undeletable);
    if writeFails then (Store(s.books, disk'), Failure("database error"))
    else
      var (cleared, _) := DeleteWhere(s.books, Any());
      DeleteEverything(s.books, Any());
      var (books', id) := Insert(cleared, Book(name, path, now));
      (Store(books', disk'), Success(id))
  }

  /** After a successful replace the handbook is the one just uploaded. */
  lemma CurrentAfterReplace(s: Store, path: string, name: string, now: string, undeletable: set<string>)
    requires Valid(s.books)
    ensures var r := AddOrReplace(s, path, name, now, undeletable, false);
      Current(r.0.books) == Some(Row(r.1.value, Book(name, path, now)))
  {
  }

  /**
   * `delete_current_handbook`: removes the file of the latest row best-effort,
   * deletes every row, and reports whether there was any.
   */
  function DeleteCurrent(s: Store, undeletable: set<string>): (r: (Store, bool))
    requires Valid(s.books)
    ensures Valid(r.0.books) && r.0.books.rows == []
    ensures r.1 <==> |s.books.rows| > 0
    ensures Current(s.books).None? ==> r.0.disk == s.disk
    ensures Current(s.books).Some? ==>
      r.0.disk == if Current(s.books).value.val.filePath != "" then RemoveBestEffort(s.disk, Current(s.books).value.val.filePath, undeletable) else s.disk
  {
    var cur := Current(s.books);
    var disk' := if cur.Some? && cur.value.val.filePath != "" then RemoveBestEffort(s.disk, cur.value.val.filePath, undeletable) else s.disk;
    var (books', n) := DeleteWhere(s.books, Any());
    DeleteEverything(s.books, Any());
    (Store(books', disk'), n > 0)
  }

  /** Only the latest row's file is removed; files of older rows stay on disk. */
  lemma DeleteKeepsOlderFiles(s: Store, undeletable: set<string>, p: string)
    requires Valid(s.books) && |s.books.rows| > 0
    requires p in s.disk && p != Current(s.books).value.val.filePath
    ensures p in DeleteCurrent(s, undeletable).0.disk
  {
  }

  // ---------------------------------------------------------------------------
  // `main`
  // ---------------------------------------------------------------------------

  datatype Request = Request(verb: string, file: Option<Upload>)

  datatype BookData = Latest(book: Row<Book>) | NoHandbook | Uploaded(fileName: string, filePath: string) | NoData

  /**
   * `main`. A `ValueError` from the save is reported as its message. Any other
   * exception in the upload reaches `traceback.print_exc` before `main`'s own
   * `import traceback` has bound the name, so the outer handler answers instead.
   */
  function Handle(s: Store, req: Request, token: string, now: string, undeletable: set<string>, writeFails: bool)
    : (r: (Store, Reply<BookData>))
    requires Valid(s.books)
    ensures Valid(r.0.books)
    ensures req.verb == "OPTIONS" ==> r == (s, Preflight)
    ensures req.verb == "GET" && Current(s.books).None? ==> r == (s, Ok(Some("No handbook uploaded."), NoHandbook))
    ensures req.verb == "GET" && Current(s.books).Some? ==> r == (s, Ok(None, Latest(Current(s.books).value)))
    ensures req.verb == "POST" ==> r == PostHandbook(s, req.file, token, now, undeletable, writeFails)
    ensures req.verb == "DELETE" ==> r.0.books.rows == [] && r.1.Ok?
    ensures req.verb == "DELETE" ==>
      && r.0 == DeleteCurrent(s, undeletable).0
      && r.1 == Ok(Some(if |s.books.rows| > 0 then "Handbook deleted successfully."
                        else "No handbook found to delete or already deleted."), NoData)
    ensures req.verb !in {"OPTIONS", "GET", "POST", "DELETE"} ==> r == (s, Err(MethodNotAllowed(req.verb)))
  {
    if req.verb == "OPTIONS" then (s, Preflight)
    else if req.verb == "GET" then
      match Current(s.books)
      case Some(b) => (s, Ok(None, Latest(b)))
      case None => (s, Ok(Some("No handbook uploaded."), NoHandbook))
    else if req.verb == "POST" then PostHandbook(s, req.file, token, now, undeletable, writeFails)
    else if req.verb == "DELETE" then
      var (s', any) := DeleteCurrent(s, undeletable);
      (s', Ok(Some(if any then "Handbook deleted successfully." else "No handbook found to delete or already deleted."), NoData))
    else (s, Err(MethodNotAllowed(req.verb)))
  }

  /** The POST branch: a PDF is required; it replaces whatever handbook there was. */
  function PostHandbook(s: Store, file: Option<Upload>, token: string, now: string, undeletable: set<string>, writeFails: bool)
    : (r: (Store, Reply<BookData>))
    requires Valid(s.books)
    ensures Valid(r.0.books)
    ensures file.None? || file.value.filename == "" ==> r == (s, Err("No handbook file provided."))
    ensures file.Some? && file.value.filename != "" && LowerExt(file.value.filename) != ".pdf" ==>
      r == (s, Err("Invalid file type. Only PDF files are allowed for the handbook."))
    ensures file.Some? && file.value.filename != "" && LowerExt(file.value.filename) == ".pdf" ==>
      var path := "/uploads/company_handbook/" + token + ".pdf";
      if writeFails then
        r.1 == Err("An unexpected server error occurred.") && r.0.books == s.books
      else
        r.1 == Ok(Some("Handbook uploaded successfully."), Uploaded(file.value.filename, path))
        && |r.0.books.rows| == 1 && r.0.books.rows[0].val == Book(file.value.filename, path, now)
  {
    if file.None? || file.value.filename == "" then (s, Err("No handbook file provided."))
    else
      var (disk', saved) := SaveHandbookFile(s.disk, file.value, token);
      match saved
      case Failure(msg) => (s, Err(msg))
      case Success(path) =>
        var (s', res) := AddOrReplace(Store(s.books, disk'), path, file.value.filename, now, undeletable, writeFails);
        if res.Failure? then (s', Err("An unexpected server error occurred."))
        else (s', Ok(Some("Handbook uploaded successfully."), Uploaded(file.value.filename, path)))
  }

  /**
   * The POST branch as written. `not file_item` calls `FieldStorage.__bool__`,
   * which raises `TypeError` for a file part (a part holds no list of
   * sub-fields), so every request carrying `handbook_file` reaches the outer
   * handler with nothing stored; only a request without it is answered.
   */
  function PostAsWritten(s: Store, file: Option<Upload>): (r: (Store, Reply<BookData>))
    ensures r.0 == s && r.1.Err?
    ensures file.Some? <==> r.1 == Err("An unexpected server error occurred.")
  {
    if file.None? then (s, Err("No handbook file provided."))
    else (s, Err("An unexpected server error occurred."))
  }

  /**
   * As written no handbook can be uploaded, while the branch that reads the
   * truth test as "a file with a name was sent" stores every PDF.
   */
  lemma UploadAsWrittenFails(s: Store, f: Upload, token: string, now: string, undeletable: set<string>)
    requires Valid(s.books) && f.filename != "" && LowerExt(f.filename) == ".pdf"
    ensures PostAsWritten(s, Some(f)) == (s, Err("An unexpected server error occurred."))
    ensures PostHandbook(s, Some(f), token, now, undeletable, false).1
      == Ok(Some("Handbook uploaded successfully."), Uploaded(f.filename, "/uploads/company_handbook/" + token + ".pdf"))
  {
  }
}
