/**
 * `contacts_api.py`: the messages visitors leave through the contact form,
 * and the rules for reading one from a URL-encoded body that
 * `submit_contact.py` repeats.
 */
module Contacts {
  import opened Wrappers
  import opened Text
  import opened Tables
  import opened Http
  import opened Marketing
  import Sorting

  /** A row of `contacts`; `timestamp` is `datetime.now().isoformat()` at insert time. */
  datatype Contact = Contact(name: string, email: string, phone: string, company: string, subject: string, message: string, timestamp: string)

  type Inbox = Table<Contact>

  /** `form_data.get(k, [''])[0].strip()`, where `form` holds the first value `parse_qs` found per key. */
  function Raw(form: map<string, string>, k: string): (r: string)
    ensures k !in form ==> r == ""
    ensures r == "" <==> AllSpace(GetOrEmpty(form, k))
  {
    Strip(GetOrEmpty(form, k))
  }

  /**
   * Every field stripped; name, company, subject and message escaped, email
   * and phone kept as typed.
   */
  function Fields(form: map<string, string>, now: string): (c: Contact)
    ensures Unescape(c.name) == Raw(form, "name")
    ensures Unescape(c.company) == Raw(form, "company")
    ensures Unescape(c.subject) == Raw(form, "subject")
    ensures Unescape(c.message) == Raw(form, "message")
    ensures c.email == Raw(form, "email") && c.phone == Raw(form, "phone")
    ensures c.timestamp == now
    ensures c.name == Escape(Raw(form, "name")) && c.company == Escape(Raw(form, "company"))
      && c.subject == Escape(Raw(form, "subject")) && c.message == Escape(Raw(form, "message"))
  {
    UnescapeEscape(Raw(form, "name"));
    UnescapeEscape(Raw(form, "company"));
    UnescapeEscape(Raw(form, "subject"));
    UnescapeEscape(Raw(form, "message"));
    Contact(Escape(Raw(form, "name")), Raw(form, "email"), Raw(form, "phone"),
      Escape(Raw(form, "company")), Escape(Raw(form, "subject")), Escape(Raw(form, "message")), now)
  }

  /** Name, email and message must be non-empty. */
  predicate Complete(c: Contact) {
    c.name != "" && c.email != "" && c.message != ""
  }

  const Required := "Name, email, and message are required"

  /** A message is complete exactly when name, email and message hold more than whitespace. */
  lemma CompleteIffSent(form: map<string, string>, now: string)
    ensures Complete(Fields(form, now)) <==>
      !AllSpace(GetOrEmpty(form, "name")) && !AllSpace(GetOrEmpty(form, "email")) && !AllSpace(GetOrEmpty(form, "message"))
  {
  }

  /** The optional fields are stored as `''` when the form leaves them out. */
  lemma OptionalsDefaultEmpty(form: map<string, string>, now: string)
    requires "phone" !in form && "company" !in form && "subject" !in form
    ensures var c := Fields(form, now); c.phone == "" && c.company == "" && c.subject == ""
  {
    assert Unescape("") == "";
  }

  /** The address check of `submit_contact.py`: an `@` and a `.` somewhere in it. */
  predicate EmailLooksValid(email: string) {
    '@' in email && '.' in email
  }

  // ---------------------------------------------------------------------------
  // Listing: `ORDER BY timestamp DESC`
  // ---------------------------------------------------------------------------

  function Stamp(x: Row<Contact>): string {
    x.val.timestamp
  }

  /**
   * `get_all_contacts`: every message, newest timestamp first. Messages with
   * equal timestamps stay in insertion order here; SQLite does not promise an
   * order for them.
   */
  function Newest(t: Inbox): (r: seq<Row<Contact>>)
    ensures multiset(r) == multiset(t.rows)
    ensures Sorting.SortedBy(r, Sorting.DescBy(Stamp))
  {
    Sorting.DescByIsPreorder(Stamp);
    Sorting.Sort(t.rows, Sorting.DescBy(Stamp))
  }

  /** A message later than every other one is listed first. */
  lemma LatestListedFirst(t: Inbox, x: Row<Contact>)
    requires x in t.rows
    requires forall y :: y in t.rows && y != x ==> !Sorting.LexLeq(Stamp(x), Stamp(y))
    ensures |Newest(t)| > 0 && Newest(t)[0] == x
  {
    var r := Newest(t);
    assert x in multiset(r);
    var k :| 0 <= k < |r| && r[k] == x;
    assert r[0] in multiset(t.rows);
    if k > 0 {
      assert Sorting.DescBy(Stamp)(r[0], r[k]);
    }
  }

  // ---------------------------------------------------------------------------
  // `main`
  // ---------------------------------------------------------------------------

  /** A request: the method and the first value `parse_qs` found for each key of the body. */
  datatype Request = Request(verb: string, form: map<string, string>)

  /** `main`; `now` is the time of the request. */
  function Handle(t: Inbox, req: Request, now: string): (r: (Inbox, Reply<Data<Contact>>))
    requires Valid(t)
    ensures Valid(r.0)
    ensures req.verb == "OPTIONS" ==> r == (t, Preflight)
    ensures req.verb == "GET" ==> r == (t, Ok(None, Listing(Newest(t))))
    ensures req.verb == "POST" && !Complete(Fields(req.form, now)) ==> r == (t, Err(Required))
    ensures req.verb == "POST" && Complete(Fields(req.form, now)) ==>
      r.1.Ok? && r.1.data.Added? && r.1.data.id >= 1 && !HasId(t, r.1.data.id)
      && r.0.rows == t.rows + [Row(r.1.data.id, Fields(req.form, now))]
    ensures req.verb !in {"OPTIONS", "GET", "POST"} ==> r == (t, Bare(NotAllowed))
  {
    if req.verb == "OPTIONS" then (t, Preflight)
    else if req.verb == "GET" then (t, Ok(None, Listing(Newest(t))))
    else if req.verb == "POST" then
      var c := Fields(req.form, now);
      if !Complete(c) then (t, Err(Required))
      else
        var (t', id) := Insert(t, c);
        (t', Ok(Some("Contact submission added successfully"), Added(id)))
    else (t, Bare(NotAllowed))
  }
}
