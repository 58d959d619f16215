/**
 * `team_api.py`: the team members shown on the about page. Members are added
 * and deleted; there is no way to edit one.
 */
module Team {
  import opened Wrappers
  import opened Text
  import opened Tables
  import opened Http
  import opened Marketing

  /** A row of `team`. */
  datatype Member = Member(name: string, title: string, bio: string, photoUrl: string)

  type Members = Table<Member>

  /** The fields of `main`: name, title and bio escaped, the photo URL kept as sent. */
  function Fields(form: map<string, string>): (m: Member)
    ensures Unescape(m.name) == GetOrEmpty(form, "name")
    ensures Unescape(m.title) == GetOrEmpty(form, "title")
    ensures Unescape(m.bio) == GetOrEmpty(form, "bio")
    ensures m.photoUrl == GetOrEmpty(form, "photo_url")
    ensures m.name == Escape(GetOrEmpty(form, "name")) && m.title == Escape(GetOrEmpty(form, "title"))
      && m.bio == Escape(GetOrEmpty(form, "bio"))
  {
    Member(Escaped(form, "name"), Escaped(form, "title"), Escaped(form, "bio"), GetOrEmpty(form, "photo_url"))
  }

  /** A member is added only with a name and a title. */
  predicate Complete(m: Member) {
    m.name != "" && m.title != ""
  }

  const Required := "Name and title are required"

  /**
   * `main`. `PUT` has no branch of its own and gets the catch-all answer; a
   * `DELETE` id that `int()` refuses ends in the outer handler.
   */
  function Handle(t: Members, req: Request): (r: (Members, Reply<Data<Member>>))
    requires Valid(t)
    ensures Valid(r.0)
    ensures req.verb == "OPTIONS" ==> r == (t, Preflight)
    ensures req.verb == "GET" ==> r == (t, Ok(None, Listing(t.rows)))
    ensures req.verb == "POST" && !Complete(Fields(Form(req))) ==> r == (t, Err(Required))
    ensures req.verb == "POST" && Complete(Fields(Form(req))) ==>
      r.1.Ok? && r.1.data.Added? && r.1.data.id >= 1 && !HasId(t, r.1.data.id)
      && r.0.rows == t.rows + [Row(r.1.data.id, Fields(Form(req)))]
    ensures req.verb == "DELETE" ==>
      r == BareDelete(t, req.query, "Team member deleted successfully", "Team member not found", "Member ID required")
    ensures req.verb !in {"OPTIONS", "GET", "POST", "DELETE"} ==> r == (t, Bare(NotAllowed))
    ensures !r.1.Ok? ==> r.0 == t
  {
    if req.verb == "OPTIONS" then (t, Preflight)
    else if req.verb == "GET" then (t, Ok(None, Listing(t.rows)))
    else if req.verb == "POST" then
      var m := Fields(Form(req));
      if !Complete(m) then (t, Err(Required))
      else
        var (t', id) := Insert(t, m);
        (t', Ok(Some("Team member added successfully"), Added(id)))
    else if req.verb == "DELETE" then
      BareDelete(t, req.query, "Team member deleted successfully", "Team member not found", "Member ID required")
    else (t, Bare(NotAllowed))
  }

  /** No request changes a member's row in place: every row afterwards was there before or is new. */
  lemma NoEdits(t: Members, req: Request, x: Row<Member>)
    requires Valid(t) && x in Handle(t, req).0.rows
    ensures x in t.rows || !HasId(t, x.id)
  {
    var (t', reply) := Handle(t, req);
    if req.verb == "POST" && Complete(Fields(Form(req))) {
      var k :| 0 <= k < |t'.rows| && t'.rows[k] == x;
      if k < |t.rows| {
        assert t'.rows[k] == t.rows[k];
      }
    }
  }

  /** A `DELETE` with a numeric id that is not in the table answers "not found" and removes nothing. */
  lemma DeleteUnknown(t: Members, req: Request, n: int)
    requires Valid(t) && req.verb == "DELETE" && req.query == IdKey + IntToString(n) && !HasId(t, n)
    ensures Handle(t, req) == (t, Bare("Team member not found"))
  {
    QueryIdOfNumber(n, "");
    assert IdKey + IntToString(n) + "" == req.query;
  }
}
