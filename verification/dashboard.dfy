/**
 * Two pieces of `dashboard.js`: how the admin dashboard shortens text for
 * its tables, and which request its add/edit and delete buttons send to the
 * CGI scripts.
 */
module Dashboard {
  import opened Wrappers
  import opened Text
  import opened Tables
  import opened Http
  import opened Marketing
  import Careers
  import Team
  import Products
  import Resources

  // ---------------------------------------------------------------------------
  // `truncateText`
  // ---------------------------------------------------------------------------

  /**
   * `truncateText(text, maxLength)`: `None` is a missing value (`null` or
   * `undefined`). Text longer than `maxLength` keeps its first `maxLength`
   * characters and gains `...`.
   */
  function TruncateText(text: Option<string>, maxLength: nat): (r: string)
    ensures text.None? ==> r == ""
    ensures text.Some? && |text.value| <= maxLength ==> r == text.value
    ensures text.Some? && |text.value| > maxLength ==>
      |r| == maxLength + 3 && r[..maxLength] == text.value[..maxLength] && r[maxLength..] == "..."
  {
    if text.None? || text.value == "" then ""
    else if |text.value| > maxLength then text.value[..maxLength] + "..."
    else text.value
  }

  /**
   * What the table shows is the text itself exactly when it fits, and
   * otherwise begins with a prefix of the text, never longer than
   * `maxLength + 3`.
   */
  lemma TruncateShowsPrefix(text: string, maxLength: nat)
    ensures var r := TruncateText(Some(text), maxLength);
      (r == text <==> |text| <= maxLength || (|text| == maxLength + 3 && text[maxLength..] == "..."))
      && |r| <= maxLength + 3
      && StartsWith(text, r[..if |r| < maxLength then |r| else maxLength])
  {
    var r := TruncateText(Some(text), maxLength);
    if |text| > maxLength {
      assert r[maxLength..] == "...";
      if |text| == maxLength + 3 && text[maxLength..] == "..." {
        assert r == text[..maxLength] + text[maxLength..];
      }
    }
  }

  /**
   * A text just over the limit comes out longer than it went in: with
   * `maxLength` 50, a 51-character text is shown as 53 characters.
   */
  lemma TruncateCanLengthen(text: string, maxLength: nat)
    requires maxLength < |text| < maxLength + 3
    ensures |TruncateText(Some(text), maxLength)| > |text|
  {
  }

  // ---------------------------------------------------------------------------
  // Requests sent by the dashboard
  // ---------------------------------------------------------------------------

  const CareersUrl := "/cgi-bin/careers_api.py"
  const TeamUrl := "/cgi-bin/team_api.py"
  const ProductsUrl := "/cgi-bin/products_api.py"
  const ResourcesUrl := "/cgi-bin/resources_api.py"

  /** A request as `apiRequest` sends it: the method and the URL. */
  datatype Call = Call(verb: string, url: string)

  /**
   * The save handler of a dashboard form: `PUT` to `url?id=<id>` when the form
   * is in edit mode and carries a non-empty id, `POST` to `url` otherwise.
   * `None` is a `dataset` entry that was never set.
   */
  function SaveCall(endpoint: string, mode: Option<string>, id: Option<string>): (c: Call)
    ensures c.verb == "PUT" <==> mode == Some("edit") && Present(id)
    ensures c.verb == "PUT" ==> c.url == endpoint + "?" + IdKey + id.value
    ensures c.verb != "PUT" ==> c == Call("POST", endpoint)
  {
    if mode == Some("edit") && Present(id) then Call("PUT", endpoint + "?" + IdKey + id.value)
    else Call("POST", endpoint)
  }

  /** The delete button: `DELETE` to `url?id=<id>`. */
  function DeleteCall(endpoint: string, id: string): Call {
    Call("DELETE", endpoint + "?" + IdKey + id)
  }

  /** The `QUERY_STRING` a script sees for a URL: what follows the first `?`. */
  function QueryString(url: string): (q: string)
    ensures |q| < |url| || q == ""
  {
    if url == "" then ""
    else if url[0] == '?' then url[1..]
    else QueryString(url[1..])
  }

  /** A path without `?` followed by `?q` gives the script exactly `q`. */
  lemma {:induction false} QueryAfterPath(path: string, q: string)
    requires '?' !in path
    ensures QueryString(path + "?" + q) == q
  {
    if path == "" {
      assert path + "?" + q == "?" + q;
    } else {
      assert (path + "?" + q)[1..] == path[1..] + "?" + q;
      QueryAfterPath(path[1..], q);
    }
  }

  /** The request a script receives for a call carrying this form. */
  function Send(c: Call, contentType: string, body: string, urlencoded: map<string, string>): (req: Request)
    ensures req.verb == c.verb && QueryString(c.url) == req.query
  {
    Request(c.verb, contentType, body, urlencoded, QueryString(c.url))
  }

  /** Editing row `n` sends a `PUT` whose query string the script reads back as `n`. */
  lemma EditSendsId(endpoint: string, n: int)
    requires '?' !in endpoint
    ensures var c := SaveCall(endpoint, Some("edit"), Some(IntToString(n)));
      c.verb == "PUT" && QueryId(QueryString(c.url)) == Id(n)
  {
    var v := IntToString(n);
    var c := SaveCall(endpoint, Some("edit"), Some(v));
    assert c.url == endpoint + "?" + (IdKey + v);
    QueryAfterPath(endpoint, IdKey + v);
    QueryIdOfNumber(n, "");
    assert IdKey + v + "" == IdKey + v;
  }

  /** Deleting row `n` sends a `DELETE` whose query string the script reads back as `n`. */
  lemma DeleteSendsId(endpoint: string, n: int)
    requires '?' !in endpoint
    ensures var c := DeleteCall(endpoint, IntToString(n));
      c.verb == "DELETE" && QueryId(QueryString(c.url)) == Id(n)
  {
    var v := IntToString(n);
    assert DeleteCall(endpoint, v).url == endpoint + "?" + (IdKey + v);
    QueryAfterPath(endpoint, IdKey + v);
    QueryIdOfNumber(n, "");
    assert IdKey + v + "" == IdKey + v;
  }

  /**
   * Saving an edited career updates that listing with the submitted fields.
   * `endpoint` is the careers script's path (`CareersUrl`, or any other path
   * without a `?`).
   */
  lemma EditCareer(t: Careers.Careers, n: int, req: Request, endpoint: string)
    requires Valid(t) && HasId(t, n) && '?' !in endpoint
    requires var c := SaveCall(endpoint, Some("edit"), Some(IntToString(n)));
      req.verb == c.verb && req.query == QueryString(c.url)
    requires Careers.Complete(Careers.Fields(Form(req)))
    ensures Careers.Handle(t, req).1.Ok?
    ensures ById(Careers.Handle(t, req).0, n) == Some(Row(n, Careers.Fields(Form(req))))
  {
    EditSendsId(endpoint, n);
    assert req.verb == "PUT" && QueryId(req.query) == Id(n);
    Careers.PutThenRead(t, req, n);
  }

  /** Deleting a listed career from the dashboard removes it. */
  lemma DeleteCareer(t: Careers.Careers, n: int)
    requires Valid(t) && HasId(t, n)
    ensures var (t', reply) := Careers.Handle(t, Send(DeleteCall(CareersUrl, IntToString(n)), "", "", map[]));
      reply.Ok? && !HasId(t', n)
  {
    DeleteSendsId(CareersUrl, n);
  }

  /**
   * `team_api.py` has no `PUT` branch, so saving an edited team member is
   * always refused and changes nothing.
   */
  lemma EditTeamRefused(t: Team.Members, id: string, contentType: string, body: string, urlencoded: map<string, string>)
    requires Valid(t) && id != ""
    ensures var req := Send(SaveCall(TeamUrl, Some("edit"), Some(id)), contentType, body, urlencoded);
      Team.Handle(t, req) == (t, Bare(NotAllowed))
  {
  }

  /** Likewise `products_api.py`: an edited product is never saved. */
  lemma EditProductRefused(t: Products.Products, id: string, contentType: string, body: string, urlencoded: map<string, string>)
    requires Valid(t) && id != ""
    ensures var req := Send(SaveCall(ProductsUrl, Some("edit"), Some(id)), contentType, body, urlencoded);
      Products.Handle(t, req) == (t, Bare(NotAllowed))
  {
  }

  /**
   * The resources form never succeeds, in either mode: `resources_api.py`
   * cannot add or update a resource, and the library is left as it was.
   */
  lemma SaveResourceFails(t: Resources.Library, mode: Option<string>, id: Option<string>,
                          contentType: string, body: string, urlencoded: map<string, string>)
    requires Valid(t)
    ensures var req := Send(SaveCall(ResourcesUrl, mode, id), contentType, body, urlencoded);
      !Resources.Handle(t, req).1.Ok? && Resources.Handle(t, req).0 == t
  {
    var req := Send(SaveCall(ResourcesUrl, mode, id), contentType, body, urlencoded);
    Resources.OnlyDeletes(t, req);
  }
}
