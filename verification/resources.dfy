/**
 * `resources_api.py`: the dashboard's endpoint for blog posts, case studies
 * and technical articles. It is written against a `file_url` column that the
 * `resources` table does not have (the table's column is `file_path`), so
 * only its `DELETE` can do anything.
 */
module Resources {
  import opened Wrappers
  import opened Text
  import opened Tables
  import opened Http
  import opened Marketing

  /** A row of `resources`; `filePath` is the nullable `file_path` column. */
  datatype Resource = Resource(title: string, kind: string, content: string, filePath: Option<string>)

  type Library = Table<Resource>

  /** What `main` reads from the form before it inserts or updates. */
  datatype Submission = Submission(title: string, kind: string, content: string, fileUrl: string)

  /** Title, type and content escaped, the file URL kept as sent. */
  function Fields(form: map<string, string>): (s: Submission)
    ensures Unescape(s.title) == GetOrEmpty(form, "title")
    ensures Unescape(s.kind) == GetOrEmpty(form, "type")
    ensures Unescape(s.content) == GetOrEmpty(form, "content")
    ensures s.fileUrl == GetOrEmpty(form, "file_url")
    ensures s.title == Escape(GetOrEmpty(form, "title")) && s.kind == Escape(GetOrEmpty(form, "type"))
      && s.content == Escape(GetOrEmpty(form, "content"))
  {
    Submission(Escaped(form, "title"), Escaped(form, "type"), Escaped(form, "content"), GetOrEmpty(form, "file_url"))
  }

  predicate Complete(s: Submission) {
    s.title != "" && s.kind != "" && s.content != ""
  }

  const Required := "Title, type, and content are required"

  /**
   * `main`. The `SELECT` of `GET` and the `INSERT` of `POST` name the missing
   * column and raise; a `PUT` that passes its checks calls `update_resource`,
   * which this script does not define; a `PUT` or `DELETE` id that `int()`
   * refuses raises too. All of these reach the outer handler.
   */
  function Handle(t: Library, req: Request): (r: (Library, Reply<Data<Resource>>))
    requires Valid(t)
    ensures Valid(r.0)
    ensures req.verb == "OPTIONS" ==> r == (t, Preflight)
    ensures req.verb == "GET" ==> r == (t, Bare(ServerError))
    ensures req.verb == "PUT" && QueryId(req.query).NoId? ==> r == (t, Err("Resource ID required for update"))
    ensures req.verb == "PUT" && QueryId(req.query).BadId? ==> r == (t, Bare(ServerError))
    ensures (req.verb == "POST" || (req.verb == "PUT" && QueryId(req.query).Id?)) ==>
      r == (t, if Complete(Fields(Form(req))) then Bare(ServerError) else Err(Required))
    ensures req.verb == "DELETE" ==>
      r == BareDelete(t, req.query, "Resource deleted successfully", "Resource not found", "Resource ID required")
    ensures req.verb !in {"OPTIONS", "GET", "POST", "PUT", "DELETE"} ==> r == (t, Bare(NotAllowed))
  {
    if req.verb == "OPTIONS" then (t, Preflight)
    else if req.verb == "GET" then (t, Bare(ServerError))
    else if req.verb == "POST" || req.verb == "PUT" then
      var id := if req.verb == "PUT" then QueryId(req.query) else NoId;
      if req.verb == "PUT" && id.NoId? then (t, Err("Resource ID required for update"))
      else if req.verb == "PUT" && id.BadId? then (t, Bare(ServerError))
      else if !Complete(Fields(Form(req))) then (t, Err(Required))
      else (t, Bare(ServerError))
    else if req.verb == "DELETE" then
      BareDelete(t, req.query, "Resource deleted successfully", "Resource not found", "Resource ID required")
    else (t, Bare(NotAllowed))
  }

  /**
   * Nothing this script does adds or edits a resource: every row afterwards
   * was there before, and only a `DELETE` ever succeeds.
   */
  lemma OnlyDeletes(t: Library, req: Request)
    requires Valid(t)
    ensures forall x :: x in Handle(t, req).0.rows ==> x in t.rows
    ensures Handle(t, req).1.Ok? ==> req.verb == "DELETE"
  {
  }
}
