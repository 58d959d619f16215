/**
 * `products_api.py`: the products shown on the products page. Products are
 * added and deleted; there is no way to edit one.
 */
module Products {
  import opened Wrappers
  import opened Text
  import opened Tables
  import opened Http
  import opened Marketing

  /** A row of `products`. */
  datatype Product = Product(name: string, description: string, logoUrl: string)

  type Products = Table<Product>

  /** The fields of `main`: name and description escaped, the logo URL kept as sent. */
  function Fields(form: map<string, string>): (p: Product)
    ensures Unescape(p.name) == GetOrEmpty(form, "name")
    ensures Unescape(p.description) == GetOrEmpty(form, "description")
    ensures p.logoUrl == GetOrEmpty(form, "logo_url")
    ensures p.name == Escape(GetOrEmpty(form, "name")) && p.description == Escape(GetOrEmpty(form, "description"))
  {
    Product(Escaped(form, "name"), Escaped(form, "description"), GetOrEmpty(form, "logo_url"))
  }

  /** A product is added only with a name and a description. */
  predicate Complete(p: Product) {
    p.name != "" && p.description != ""
  }

  const Required := "Name and description are required"

  /**
   * `main`. `PUT` has no branch of its own and gets the catch-all answer; a
   * `DELETE` id that `int()` refuses ends in the outer handler.
   */
  function Handle(t: Products, req: Request): (r: (Products, Reply<Data<Product>>))
    requires Valid(t)
    ensures Valid(r.0)
    ensures req.verb == "OPTIONS" ==> r == (t, Preflight)
    ensures req.verb == "GET" ==> r == (t, Ok(None, Listing(t.rows)))
    ensures req.verb == "POST" && !Complete(Fields(Form(req))) ==> r == (t, Err(Required))
    ensures req.verb == "POST" && Complete(Fields(Form(req))) ==>
      r.1.Ok? && r.1.data.Added? && r.1.data.id >= 1 && !HasId(t, r.1.data.id)
      && r.0.rows == t.rows + [Row(r.1.data.id, Fields(Form(req)))]
    ensures req.verb == "DELETE" ==>
      r == BareDelete(t, req.query, "Product deleted successfully", "Product not found", "Product ID required")
    ensures req.verb !in {"OPTIONS", "GET", "POST", "DELETE"} ==> r == (t, Bare(NotAllowed))
    ensures !r.1.Ok? ==> r.0 == t
  {
    if req.verb == "OPTIONS" then (t, Preflight)
    else if req.verb == "GET" then (t, Ok(None, Listing(t.rows)))
    else if req.verb == "POST" then
      var p := Fields(Form(req));
      if !Complete(p) then (t, Err(Required))
      else
        var (t', id) := Insert(t, p);
        (t', Ok(Some("Product added successfully"), Added(id)))
    else if req.verb == "DELETE" then
      BareDelete(t, req.query, "Product deleted successfully", "Product not found", "Product ID required")
    else (t, Bare(NotAllowed))
  }

  /**
   * Deleting the product a `POST` just added, by the id it answered with,
   * leaves exactly the products there were before.
   */
  lemma AddThenDelete(t: Products, post: Request, del: Request)
    requires Valid(t) && post.verb == "POST" && Complete(Fields(Form(post)))
    requires del.verb == "DELETE"
    requires del.query == IdKey + IntToString(Handle(t, post).1.data.id)
    ensures var (t1, added) := Handle(t, post);
      var (t2, deleted) := Handle(t1, del);
      deleted == Ok(Some("Product deleted successfully"), NoData) && forall x :: x in t2.rows <==> x in t.rows
  {
    var (t1, added) := Handle(t, post);
    var id := added.data.id;
    QueryIdOfNumber(id, "");
    assert IdKey + IntToString(id) + "" == del.query;
    InsertThenDelete(t, Fields(Form(post)));
  }
}
