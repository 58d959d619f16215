/**
 * What `careers_api.py`, `team_api.py`, `products_api.py` and
 * `resources_api.py` share: how a request's form and query string are read,
 * how a field is taken from the form, and the `DELETE … WHERE id = ?` they all
 * run.
 */
module Marketing {
  import opened Wrappers
  import opened Text
  import opened Tables
  import opened Http
  import Multipart

  /**
   * A request to one of these scripts: the method, `CONTENT_TYPE`, the body
   * (`CONTENT_LENGTH` characters of stdin), what `parse_qs` makes of that body
   * (the first value of each key), and `QUERY_STRING`.
   */
  datatype Request = Request(verb: string, contentType: string, body: string, urlencoded: map<string, string>, query: string)

  /** What a script answers with: the listing, a new row's id, an updated row's id, or nothing. */
  datatype Data<R> = Listing(rows: seq<Row<R>>) | Added(id: int) | Updated(id: int) | NoData

  const NotAllowed := "Method not allowed"

  /** The answer of the outer `except Exception` handler (its `details` are not modelled). */
  const ServerError := "Server error"

  /** `parse_form_data()`. */
  function Form(req: Request): map<string, string> {
    Multipart.FormData(req.contentType, req.body, req.urlencoded)
  }

  /** `escape(form[k])` when the field is present, `''` otherwise. */
  function Escaped(form: map<string, string>, k: string): (r: string)
    ensures r == "" <==> GetOrEmpty(form, k) == ""
    ensures Unescape(r) == GetOrEmpty(form, k)
    ensures forall i :: 0 <= i < |r| ==> r[i] != '<' && r[i] != '>' && r[i] != '"' && r[i] != '\''
    ensures r == Escape(GetOrEmpty(form, k))
  {
    UnescapeEscape(GetOrEmpty(form, k));
    Escape(GetOrEmpty(form, k))
  }

  // ---------------------------------------------------------------------------
  // The id in the query string
  // ---------------------------------------------------------------------------

  const IdKey := "id="

  /**
   * `query.split('id=')[1].split('&')[0]`, guarded by `'id=' in query`: the
   * text after the first `id=`, up to the next `&` or `id=`. The first `id=` may
   * be the tail of another key, as in `uid=`.
   */
  function IdText(query: string): (r: Option<string>)
    ensures r.None? <==> !Contains(query, IdKey)
    ensures r.Some? ==> '&' !in r.value
  {
    if !Contains(query, IdKey) then None
    else
      SplitPieces(query, IdKey);
      var piece := SplitOn(query, IdKey)[1];
      SplitPieces(piece, "&");
      var v := SplitOn(piece, "&")[0];
      assert '&' !in v by {
        if '&' in v {
          var j :| 0 <= j < |v| && v[j] == '&';
          assert OccursAt(v, "&", j);
        }
      }
      Some(v)
  }

  /** The query string's id: absent, not an integer (`int()` raises), or a number. */
  datatype IdArg = NoId | BadId | Id(n: int)

  function QueryId(query: string): (r: IdArg)
    ensures r.NoId? <==> !Contains(query, IdKey)
    ensures r.BadId? <==> Contains(query, IdKey) && ParseInt(IdText(query).value).None?
    ensures r.Id? ==> ParseInt(IdText(query).value) == Some(r.n)
  {
    match IdText(query)
    case None => NoId
    case Some(v) =>
      match ParseInt(v)
      case None => BadId
      case Some(n) => Id(n)
  }

  /** The first piece of a split ends where the separator first occurs, here at `k`, or at the end. */
  lemma SplitHead(s: string, sep: string, k: nat)
    requires |sep| > 0 && k <= |s|
    requires forall j :: 0 <= j < k ==> !OccursAt(s, sep, j)
    requires k == |s| || OccursAt(s, sep, k)
    ensures SplitOn(s, sep)[0] == s[..k]
  {
    SplitPieces(s, sep);
    match IndexOf(s, sep)
    case None =>
    case Some(m) =>
  }

  /** With no separator before `k`, the first piece reaches at least to `k` or is all of `s`. */
  lemma SplitHeadBeyond(s: string, sep: string, k: nat)
    requires |sep| > 0
    requires forall j :: 0 <= j < k ==> !OccursAt(s, sep, j)
    ensures StartsWith(s, SplitOn(s, sep)[0])
    ensures |SplitOn(s, sep)[0]| >= k || SplitOn(s, sep)[0] == s
  {
    SplitPieces(s, sep);
    match IndexOf(s, sep)
    case None =>
    case Some(m) =>
      assert s[..m] == SplitOn(s, sep)[0];
      if m < k {
        assert OccursAt(s, sep, m);
      }
  }

  /** With no `i` before it, the first `id=` of `pre + "id=" + rest` is the one after `pre`. */
  lemma KeyAfter(pre: string, rest: string)
    requires 'i' !in pre
    ensures OccursAt(pre + IdKey + rest, IdKey, |pre|)
    ensures forall j :: 0 <= j < |pre| ==> !OccursAt(pre + IdKey + rest, IdKey, j)
  {
    var q := pre + IdKey + rest;
    assert q[|pre|..|pre| + 3] == IdKey;
    forall j | 0 <= j < |pre| ensures !OccursAt(q, IdKey, j) {
      if j + 3 <= |q| {
        assert q[j..j + 3][0] == q[j] == pre[j];
      }
    }
  }

  /** The piece after the key, cut at the first `&`, is the value when the value has no `i` or `&`. */
  lemma ValueBeforeAmpersand(v: string, tail: string)
    requires 'i' !in v && '&' !in v
    requires tail == "" || tail[0] == '&'
    ensures SplitOn(SplitOn(v + tail, IdKey)[0], "&")[0] == v
  {
    var rest := v + tail;
    var piece := SplitOn(rest, IdKey)[0];
    forall j | 0 <= j < |v| + 1 ensures !OccursAt(rest, IdKey, j) {
      if j + 3 <= |rest| {
        assert rest[j..j + 3][0] == rest[j];
        assert rest[j] == if j < |v| then v[j] else tail[0];
      }
    }
    SplitHeadBeyond(rest, IdKey, |v| + 1);
    assert piece == rest[..|piece|];
    assert piece[..|v|] == v;
    assert |piece| == |v| || piece[|v|] == '&' by {
      if |piece| > |v| {
        assert piece[|v|] == rest[|v|] == tail[0];
      }
    }
    forall j | 0 <= j < |v| ensures !OccursAt(piece, "&", j) {
      assert piece[j] == v[j];
    }
    if |piece| > |v| {
      assert piece[|v|..|v| + 1] == "&";
    }
    SplitHead(piece, "&", |v|);
  }

  lemma Regroup(pre: string, v: string, tail: string)
    ensures pre + IdKey + v + tail == pre + IdKey + (v + tail)
  {
  }

  /** The text between the first `id=` and the following `&`, when the value has no `i` in it. */
  lemma IdTextAfter(pre: string, v: string, tail: string)
    requires 'i' !in pre && 'i' !in v && '&' !in v
    requires tail == "" || tail[0] == '&'
    ensures IdText(pre + IdKey + v + tail) == Some(v)
  {
    var rest := v + tail;
    Regroup(pre, v, tail);
    KeyAfter(pre, rest);
    Multipart.SplitAfter(pre, IdKey, rest);
    ValueBeforeAmpersand(v, tail);
  }

  /** The query string `id=<n>`, as the dashboard sends it, carries the number `n`. */
  lemma QueryIdOfNumber(n: int, tail: string)
    requires tail == "" || tail[0] == '&'
    ensures QueryId(IdKey + IntToString(n) + tail) == Id(n)
  {
    var v := IntToString(n);
    assert 'i' !in v && '&' !in v by {
      if n < 0 {
        assert v == "-" + NatToString(-n);
        assert forall j :: 1 <= j < |v| ==> v[j] == NatToString(-n)[j - 1];
      }
    }
    IdTextAfter("", v, tail);
    assert "" + IdKey + v + tail == IdKey + v + tail;
    ParseIntToString(n);
  }

  /**
   * The first `id=` decides, even when it ends another key: `uid=5&id=3`
   * names row 5.
   */
  lemma FirstIdWins(v: string, w: string)
    requires 'i' !in v && '&' !in v
    ensures IdText("uid=" + v + "&id=" + w) == Some(v)
  {
    IdTextAfter("u", v, "&id=" + w);
    assert "u" + IdKey + v + ("&id=" + w) == "uid=" + v + "&id=" + w;
  }

  // ---------------------------------------------------------------------------
  // `DELETE FROM … WHERE id = ?`
  // ---------------------------------------------------------------------------

  /** `delete_…(id)`: removes the row with this id and reports `rowcount > 0`. */
  function DeleteById<R(!new)>(t: Table<R>, id: int): (r: (Table<R>, bool))
    requires Valid(t)
    ensures Valid(r.0)
    ensures r.1 <==> HasId(t, id)
    ensures forall x :: x in r.0.rows <==> x in t.rows && x.id != id
    ensures !r.1 ==> r.0 == t
  {
    var (t', n) := DeleteWhere(t, IdIs(id));
    CountId(t, id);
    (t', n > 0)
  }

  /** After a delete the id is gone. */
  lemma DeleteByIdRemoves<R(!new)>(t: Table<R>, id: int)
    requires Valid(t)
    ensures !HasId(DeleteById(t, id).0, id)
  {
    var t' := DeleteById(t, id).0;
    forall i | 0 <= i < |t'.rows| ensures t'.rows[i].id != id {
      assert t'.rows[i] in t'.rows;
    }
  }

  /**
   * `UPDATE … SET <every column> WHERE id = ?`: the row with this id becomes
   * `v`; the result is `rowcount > 0`.
   */
  function ReplaceById<R(!new)>(t: Table<R>, id: int, v: R): (r: (Table<R>, bool))
    requires Valid(t)
    ensures Valid(r.0) && r.0.nextId == t.nextId && |r.0.rows| == |t.rows|
    ensures r.1 <==> HasId(t, id)
    ensures forall i :: 0 <= i < |t.rows| ==> r.0.rows[i] == if t.rows[i].id == id then Row(id, v) else t.rows[i]
  {
    var (t', n) := UpdateWhere(t, IdIs(id), (_: R) => v);
    CountId(t, id);
    (t', n > 0)
  }

  /** After the update the row with that id holds exactly the new values. */
  lemma ReplaceThenRead<R(!new)>(t: Table<R>, id: int, v: R)
    requires Valid(t) && HasId(t, id)
    ensures ById(ReplaceById(t, id, v).0, id) == Some(Row(id, v))
  {
    var t' := ReplaceById(t, id, v).0;
    var i :| 0 <= i < |t.rows| && t.rows[i].id == id;
    assert t'.rows[i] == Row(id, v);
    assert HasId(t', id);
    var x := ById(t', id).value;
    assert t'.rows[i] in t'.rows;
    IdsIdentify(t', x, t'.rows[i]);
  }

  /** Deleting a row by the id its INSERT returned gives back the rows there were before. */
  lemma InsertThenDelete<R(!new)>(t: Table<R>, v: R)
    requires Valid(t)
    ensures var (t1, id) := Insert(t, v);
      var (t2, found) := DeleteById(t1, id);
      found && forall x :: x in t2.rows <==> x in t.rows
  {
    var (t1, id) := Insert(t, v);
    assert t1.rows[|t.rows|] == Row(id, v);
    assert HasId(t1, id);
    var t2 := DeleteById(t1, id).0;
    forall x ensures x in t2.rows <==> x in t.rows {
      if x in t.rows {
        assert x.id != id;
        assert x in t1.rows;
      }
    }
  }

  /**
   * The `DELETE` branch of `team_api.py`, `products_api.py` and
   * `resources_api.py`: their `int()` is outside any `try` of its own, so an id
   * that is not an integer reaches the outer handler.
   */
  function BareDelete<R(!new)>(t: Table<R>, query: string, deleted: string, notFound: string, required: string)
    : (r: (Table<R>, Reply<Data<R>>))
    requires Valid(t)
    ensures Valid(r.0)
    ensures QueryId(query).NoId? ==> r == (t, Bare(required))
    ensures QueryId(query).BadId? ==> r == (t, Bare(ServerError))
    ensures QueryId(query).Id? ==>
      (r.1.Ok? <==> HasId(t, QueryId(query).n))
      && (r.1.Ok? ==> r.1 == Ok(Some(deleted), NoData) && !HasId(r.0, QueryId(query).n))
      && (!r.1.Ok? ==> r == (t, Bare(notFound)))
    ensures QueryId(query).Id? && r.1.Ok? ==> r.0 == DeleteById(t, QueryId(query).n).0
    ensures QueryId(query).Id? ==> forall x :: x in t.rows && x.id != QueryId(query).n ==> x in r.0.rows
    ensures forall x :: x in r.0.rows ==> x in t.rows
  {
    match QueryId(query)
    case NoId => (t, Bare(required))
    case BadId => (t, Bare(ServerError))
    case Id(n) =>
      var (t', found) := DeleteById(t, n);
      DeleteByIdRemoves(t, n);
      if found then (t', Ok(Some(deleted), NoData)) else (t, Bare(notFound))
  }
}
