/**
 * `careers_api.py`: the job listings shown on the careers page, created,
 * updated and deleted from the dashboard.
 */
module Careers {
  import opened Wrappers
  import opened Text
  import opened Tables
  import opened Http
  import opened Marketing

  /** A row of `careers`. */
  datatype Career = Career(title: string, description: string, experience: int, location: string)

  type Careers = Table<Career>

  const ExperienceKey := "experience_required"

  /**
   * `experience_required`: `int()` of the submitted value; `0` when the field is
   * absent or `int()` refuses it.
   */
  function Experience(form: map<string, string>): (r: int)
    ensures r != 0 ==> ExperienceKey in form && ParseInt(form[ExperienceKey]) == Some(r)
    ensures ExperienceKey in form && ParseInt(form[ExperienceKey]).Some? ==> r == ParseInt(form[ExperienceKey]).value
  {
    if ExperienceKey in form then ParseInt(form[ExperienceKey]).GetOr(0) else 0
  }

  /** A submitted number of years is stored as that number. */
  lemma ExperienceOfNumber(form: map<string, string>, n: int)
    ensures Experience(form[ExperienceKey := IntToString(n)]) == n
  {
    ParseIntToString(n);
  }

  /** The fields of `main`: title, description and location escaped, experience as a number. */
  function Fields(form: map<string, string>): (c: Career)
    ensures Unescape(c.title) == GetOrEmpty(form, "title")
    ensures Unescape(c.description) == GetOrEmpty(form, "description")
    ensures Unescape(c.location) == GetOrEmpty(form, "location")
    ensures c.experience == Experience(form)
    ensures c.title == Escape(GetOrEmpty(form, "title")) && c.description == Escape(GetOrEmpty(form, "description"))
      && c.location == Escape(GetOrEmpty(form, "location"))
  {
    Career(Escaped(form, "title"), Escaped(form, "description"), Experience(form), Escaped(form, "location"))
  }

  /** The fields `main` insists on. */
  predicate Complete(c: Career) {
    c.title != "" && c.description != "" && c.location != ""
  }

  /** A submission is complete exactly when title, description and location were sent non-empty. */
  lemma CompleteIffSent(form: map<string, string>)
    ensures Complete(Fields(form)) <==>
      Present(Get(form, "title")) && Present(Get(form, "description")) && Present(Get(form, "location"))
  {
  }

  // ---------------------------------------------------------------------------
  // `main`
  // ---------------------------------------------------------------------------

  const Required := "Title, description, and location are required"

  /** The answer to a `POST` or `PUT` whose id, if any, has been read. */
  function Write(t: Careers, req: Request, target: Option<int>): (r: (Careers, Reply<Data<Career>>))
    requires Valid(t)
    ensures Valid(r.0)
    ensures !Complete(Fields(Form(req))) ==> r == (t, Err(Required))
    ensures Complete(Fields(Form(req))) && target.None? ==>
      r.1.Ok? && r.1.data.Added? && r.1.data.id >= 1 && r.0.rows == t.rows + [Row(r.1.data.id, Fields(Form(req)))] && !HasId(t, r.1.data.id)
    ensures Complete(Fields(Form(req))) && target.Some? ==>
      if HasId(t, target.value) then r == (ReplaceById(t, target.value, Fields(Form(req))).0, Ok(Some("Career opportunity updated successfully"), Updated(target.value)))
      else r == (t, Err("Failed to update career opportunity or not found"))
  {
    var c := Fields(Form(req));
    if !Complete(c) then (t, Err(Required))
    else match target
      case None =>
        var (t', id) := Insert(t, c);
        (t', Ok(Some("Career opportunity added successfully"), Added(id)))
      case Some(id) =>
        var (t', found) := ReplaceById(t, id, c);
        if found then (t', Ok(Some("Career opportunity updated successfully"), Updated(id)))
        else (t, Err("Failed to update career opportunity or not found"))
  }

  /**
   * `main`. `PUT` reads its id before the fields; an id that `int()` refuses is
   * answered here rather than by the outer handler.
   */
  function Handle(t: Careers, req: Request): (r: (Careers, Reply<Data<Career>>))
    requires Valid(t)
    ensures Valid(r.0)
    ensures req.verb == "OPTIONS" ==> r == (t, Preflight)
    ensures req.verb == "GET" ==> r == (t, Ok(None, Listing(t.rows)))
    ensures req.verb == "POST" ==> r == Write(t, req, None)
    ensures req.verb == "PUT" ==> match QueryId(req.query)
      case NoId => r == (t, Err("Career ID required for update"))
      case BadId => r == (t, Err("Invalid Career ID format for update"))
      case Id(n) => r == Write(t, req, Some(n))
    ensures req.verb == "DELETE" ==> match QueryId(req.query)
      case NoId => r == (t, Err("Career ID required for delete"))
      case BadId => r == (t, Err("Invalid Career ID format for delete"))
      case Id(n) =>
        if HasId(t, n) then
          r.1 == Ok(Some("Career opportunity deleted successfully"), NoData) && !HasId(r.0, n)
          && r.0 == DeleteById(t, n).0 && forall x :: x in t.rows && x.id != n ==> x in r.0.rows
        else r == (t, Err("Career opportunity not found"))
    ensures req.verb !in {"OPTIONS", "GET", "POST", "PUT", "DELETE"} ==> r == (t, Bare(NotAllowed))
    ensures !r.1.Ok? ==> r.0 == t
  {
    if req.verb == "OPTIONS" then (t, Preflight)
    else if req.verb == "GET" then (t, Ok(None, Listing(t.rows)))
    else if req.verb == "POST" then Write(t, req, None)
    else if req.verb == "PUT" then
      match QueryId(req.query)
      case NoId => (t, Err("Career ID required for update"))
      case BadId => (t, Err("Invalid Career ID format for update"))
      case Id(n) => Write(t, req, Some(n))
    else if req.verb == "DELETE" then
      match QueryId(req.query)
      case NoId => (t, Err("Career ID required for delete"))
      case BadId => (t, Err("Invalid Career ID format for delete"))
      case Id(n) =>
        var (t', found) := DeleteById(t, n);
        DeleteByIdRemoves(t, n);
        if found then (t', Ok(Some("Career opportunity deleted successfully"), NoData))
        else (t, Err("Career opportunity not found"))
    else (t, Bare(NotAllowed))
  }

  /**
   * Deleting the listing a `POST` just added, by the id it answered with,
   * leaves exactly the listings there were before.
   */
  lemma AddThenDelete(t: Careers, post: Request, del: Request)
    requires Valid(t) && post.verb == "POST" && Complete(Fields(Form(post)))
    requires del.verb == "DELETE"
    requires del.query == IdKey + IntToString(Handle(t, post).1.data.id)
    ensures var (t1, added) := Handle(t, post);
      var (t2, deleted) := Handle(t1, del);
      deleted.Ok? && forall x :: x in t2.rows <==> x in t.rows
  {
    var (t1, added) := Handle(t, post);
    var id := added.data.id;
    QueryIdOfNumber(id, "");
    assert IdKey + IntToString(id) + "" == del.query;
    InsertThenDelete(t, Fields(Form(post)));
  }

  /** A `PUT` that succeeds leaves the row with the submitted fields, whatever it held before. */
  lemma PutThenRead(t: Careers, req: Request, n: int)
    requires Valid(t) && req.verb == "PUT" && QueryId(req.query) == Id(n)
    requires Complete(Fields(Form(req))) && HasId(t, n)
    ensures Handle(t, req).1 == Ok(Some("Career opportunity updated successfully"), Updated(n))
    ensures ById(Handle(t, req).0, n) == Some(Row(n, Fields(Form(req))))
  {
    ReplaceThenRead(t, n, Fields(Form(req)));
  }
}
