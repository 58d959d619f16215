/**
 * `education_api.py`: an employee's education history, where every update and
 * delete is scoped to the pair (record id, employee id).
 */
module Education {
  import opened Wrappers
  import opened Tables
  import opened Http
  import Text
  import Sorting

  /** A row of `education_history`; a missing year is SQL `NULL`. */
  datatype Record = Record(employeeId: int, institution: string, degree: string, year: Option<int>, details: string)

  type Records = Table<Record>

  /** The four columns a POST inserts and a PUT overwrites. */
  datatype Fields = Fields(institution: string, degree: string, year: Option<int>, details: string)

  const NotOwned := "Record not found or not owned by user."

  /** `WHERE id = ? AND employee_id = ?` */
  function Owned(id: int, emp: int): Row<Record> -> bool {
    (x: Row<Record>) => x.id == id && x.val.employeeId == emp
  }

  function IsOwn(emp: int): Row<Record> -> bool {
    (x: Row<Record>) => x.val.employeeId == emp
  }

  predicate OwnsRecord(t: Records, id: int, emp: int) {
    exists i :: 0 <= i < |t.rows| && t.rows[i].id == id && t.rows[i].val.employeeId == emp
  }

  /** The `SET` of the update: all four columns, whatever the old values were. */
  function Overwrite(f: Fields): Record -> Record {
    (v: Record) => Record(v.employeeId, f.institution, f.degree, f.year, f.details)
  }

  /** Within a valid table at most one row carries a given id, so an owner-scoped statement touches at most one row. */
  lemma {:induction false} AtMostOneOwned(t: Records, id: int, emp: int)
    requires Valid(t)
    ensures Count(t.rows, Owned(id, emp)) <= 1
  {
    var s := Select(t.rows, Owned(id, emp));
    SelectSubsequence(t.rows, Owned(id, emp));
    forall k | 0 <= k < |s| ensures s[k].id == id {
      assert s[k] in s;
    }
    if |s| > 0 {
      assert s[0].id == s[|s| - 1].id;
    }
  }

  lemma CountOwned(t: Records, id: int, emp: int)
    requires Valid(t)
    ensures Count(t.rows, Owned(id, emp)) > 0 <==> OwnsRecord(t, id, emp)
  {
    var p := Owned(id, emp);
    if OwnsRecord(t, id, emp) {
      var i :| 0 <= i < |t.rows| && t.rows[i].id == id && t.rows[i].val.employeeId == emp;
      assert t.rows[i] in Select(t.rows, p);
    }
    if Count(t.rows, p) > 0 {
      var x := Select(t.rows, p)[0];
      assert x in Select(t.rows, p);
      var i :| 0 <= i < |t.rows| && t.rows[i] == x;
      assert t.rows[i].id == id && t.rows[i].val.employeeId == emp;
    }
  }

  /**
   * `update_education_record`: overwrites the four columns of the row with this
   * id when it belongs to `emp`; a rowcount of zero is reported as not found.
   */
  function UpdateRecord(t: Records, id: int, emp: int, f: Fields): (r: (Records, Option<string>))
    requires Valid(t)
    ensures Valid(r.0) && |r.0.rows| == |t.rows|
    ensures r.1.None? <==> OwnsRecord(t, id, emp)
    ensures r.1.Some? ==> r.1 == Some(NotOwned) && r.0 == t
    ensures forall i :: 0 <= i < |t.rows| && t.rows[i].id == id && t.rows[i].val.employeeId == emp ==>
      r.0.rows[i] == Row(id, Record(emp, f.institution, f.degree, f.year, f.details))
    ensures forall i :: 0 <= i < |t.rows| && !(t.rows[i].id == id && t.rows[i].val.employeeId == emp) ==>
      r.0.rows[i] == t.rows[i]
  {
    var (t', n) := UpdateWhere(t, Owned(id, emp), Overwrite(f));
    CountOwned(t, id, emp);
    (t', if n == 0 then Some(NotOwned) else None)
  }

  /** Repeating an update changes nothing further. */
  lemma UpdateIdempotent(t: Records, id: int, emp: int, f: Fields)
    requires Valid(t)
    ensures var once := UpdateRecord(t, id, emp, f).0;
      UpdateRecord(once, id, emp, f).0 == once
  {
    var once := UpdateRecord(t, id, emp, f).0;
    var twice := UpdateRecord(once, id, emp, f).0;
    assert |twice.rows| == |once.rows|;
    forall i | 0 <= i < |once.rows| ensures twice.rows[i] == once.rows[i] {
      assert once.rows[i].id == t.rows[i].id;
    }
    assert twice.rows == once.rows;
  }

  /** Another employee cannot change a record: the update is refused and nothing changes. */
  lemma UpdateOthersRefused(t: Records, id: int, emp: int, f: Fields, k: nat)
    requires Valid(t) && k < |t.rows| && t.rows[k].id == id && t.rows[k].val.employeeId != emp
    ensures UpdateRecord(t, id, emp, f) == (t, Some(NotOwned))
  {
    if OwnsRecord(t, id, emp) {
      var i :| 0 <= i < |t.rows| && t.rows[i].id == id && t.rows[i].val.employeeId == emp;
      IdsIdentify(t, t.rows[i], t.rows[k]);
    }
  }

  /**
   * `delete_education_record`: removes the row with this id when it belongs to
   * `emp`; a rowcount of zero is reported as not found.
   */
  function DeleteRecord(t: Records, id: int, emp: int): (r: (Records, Option<string>))
    requires Valid(t)
    ensures Valid(r.0)
    ensures r.1.None? <==> OwnsRecord(t, id, emp)
    ensures r.1.Some? ==> r.1 == Some(NotOwned) && r.0 == t
    ensures forall x :: x in r.0.rows <==> x in t.rows && !(x.id == id && x.val.employeeId == emp)
    ensures |r.0.rows| + 1 >= |t.rows|
  {
    var (t', n) := DeleteWhere(t, Owned(id, emp));
    CountOwned(t, id, emp);
    AtMostOneOwned(t, id, emp);
    (t', if n == 0 then Some(NotOwned) else None)
  }

  /** Deleting one employee's record leaves every other employee's records in place. */
  lemma DeleteLeavesOthers(t: Records, id: int, emp: int, x: Row<Record>)
    requires Valid(t) && x in t.rows && x.val.employeeId != emp
    ensures x in DeleteRecord(t, id, emp).0.rows
  {
  }

  // ---------------------------------------------------------------------------
  // Listing: `ORDER BY year_of_completion DESC, id DESC`
  // ---------------------------------------------------------------------------

  /** Descending on the year, where SQLite puts `NULL` below every integer. */
  predicate YearAbove(a: Option<int>, b: Option<int>) {
    a.Some? && (b.None? || a.value > b.value)
  }

  function ListOrder(): (Row<Record>, Row<Record>) -> bool {
    (x: Row<Record>, y: Row<Record>) =>
      YearAbove(x.val.year, y.val.year) || (x.val.year == y.val.year && x.id >= y.id)
  }

  lemma ListOrderIsPreorder()
    ensures Sorting.TotalPreorder(ListOrder())
  {
  }

  /** `get_education_history`: the employee's records, latest year first, then newest id first. */
  function History(t: Records, emp: int): (r: seq<Row<Record>>)
    ensures forall x :: x in r <==> x in t.rows && x.val.employeeId == emp
    ensures multiset(r) == multiset(Select(t.rows, IsOwn(emp)))
    ensures Sorting.SortedBy(r, ListOrder())
  {
    ListOrderIsPreorder();
    Sorting.Sort(Select(t.rows, IsOwn(emp)), ListOrder())
  }

  /** The order leaves no ties in a valid table, so the listing is the only correctly ordered one. */
  lemma HistoryDetermined(t: Records, emp: int, a: seq<Row<Record>>)
    requires Valid(t)
    requires Sorting.SortedBy(a, ListOrder())
    requires multiset(a) == multiset(Select(t.rows, IsOwn(emp)))
    ensures a == History(t, emp)
  {
    forall x, y | x in a && y in a && ListOrder()(x, y) && ListOrder()(y, x) ensures x == y {
      assert x in multiset(Select(t.rows, IsOwn(emp)));
      assert y in multiset(Select(t.rows, IsOwn(emp)));
      IdsIdentify(t, x, y);
    }
    Sorting.SortedPermutationUnique(a, History(t, emp), ListOrder());
  }

  // ---------------------------------------------------------------------------
  // Form fields
  // ---------------------------------------------------------------------------

  const YearInvalid := "Invalid year format."

  /** The year: absent or empty is `NULL`, otherwise it must be what `int()` accepts. */
  function ParseYear(raw: Option<string>): (r: Result<Option<int>>)
    ensures !Present(raw) ==> r == Success(None)
    ensures Present(raw) ==> (r.Success? <==> Text.ParseInt(raw.value).Some?)
    ensures r.Failure? ==> r.error == YearInvalid
    ensures r.Success? && r.value.Some? ==> Present(raw) && Text.ParseInt(raw.value) == r.value
  {
    if !Present(raw) then Success(None)
    else match Text.ParseInt(raw.value)
      case None => Failure(YearInvalid)
      case Some(y) => Success(Some(y))
  }

  /** A year rendered by `str()` is read back as that year. */
  lemma ParseYearRoundTrip(y: int)
    ensures ParseYear(Some(Text.IntToString(y))) == Success(Some(y))
  {
    Text.ParseIntToString(y);
    assert Text.ParseInt(Text.IntToString(y)).Some?;
  }

  /**
   * The fields POST and PUT read: name, degree and details escaped, the year
   * parsed; the required check runs before the year is looked at.
   */
  function FieldsOf(form: map<string, string>): (r: Result<Fields>)
    ensures r.Success? <==>
      GetOrEmpty(form, "institution_name") != "" && GetOrEmpty(form, "degree") != ""
      && ParseYear(Get(form, "year_of_completion")).Success?
    ensures (GetOrEmpty(form, "institution_name") == "" || GetOrEmpty(form, "degree") == "") ==>
      r == Failure("Institution name and degree are required.")
    ensures r.Success? ==>
      && r.value.institution == Text.Escape(form["institution_name"])
      && r.value.degree == Text.Escape(form["degree"])
      && r.value.details == Text.Escape(GetOrEmpty(form, "details"))
      && r.value.year == ParseYear(Get(form, "year_of_completion")).value
  {
    var institution := Text.Escape(GetOrEmpty(form, "institution_name"));
    var degree := Text.Escape(GetOrEmpty(form, "degree"));
    var details := Text.Escape(GetOrEmpty(form, "details"));
    if institution == "" || degree == "" then Failure("Institution name and degree are required.")
    else match ParseYear(Get(form, "year_of_completion"))
      case Failure(e) => Failure(e)
      case Success(year) => Success(Fields(institution, degree, year, details))
  }

  // ---------------------------------------------------------------------------
  // `main`
  // ---------------------------------------------------------------------------

  /**
   * A request: method, the `X-Employee-ID` header, the first value of each form
   * field, and the first value of each query parameter.
   */
  datatype Request = Request(
    verb: string, employeeHeader: Option<string>, form: map<string, string>, query: map<string, string>)

  datatype EduData = Listing(records: seq<Row<Record>>) | Saved(record: Option<Row<Record>>) | NoData

  /** The employee id text: the header, or for POST and PUT without it, the form's `employee_id`. */
  function EmployeeIdText(req: Request): Option<string> {
    if !Present(req.employeeHeader) && (req.verb == "POST" || req.verb == "PUT") then Get(req.form, "employee_id")
    else req.employeeHeader
  }

  /** The employee the request acts for, when it names a well-formed one. */
  function Employee(req: Request): Option<int> {
    if Present(EmployeeIdText(req)) then Text.ParseInt(EmployeeIdText(req).value) else None
  }

  /** A record id from a request field: required, then `int()`. */
  function RecordId(raw: Option<string>, missing: string): (r: Result<int>)
    ensures !Present(raw) ==> r == Failure(missing)
    ensures Present(raw) && Text.ParseInt(raw.value).None? ==> r == Failure("Invalid Record ID format.")
    ensures r.Success? <==> Present(raw) && Text.ParseInt(raw.value).Some?
    ensures r.Success? ==> Some(r.value) == Text.ParseInt(raw.value)
  {
    if !Present(raw) then Failure(missing)
    else match Text.ParseInt(raw.value)
      case None => Failure("Invalid Record ID format.")
      case Some(id) => Success(id)
  }

  /** POST for `emp`: the fields, then the insert. */
  function AddFor(t: Records, emp: int, form: map<string, string>): (r: (Records, Reply<EduData>))
    requires Valid(t)
    ensures Valid(r.0)
    ensures r.1.Ok? <==> FieldsOf(form).Success?
    ensures !r.1.Ok? ==> r.0 == t
    ensures r.1.Ok? ==>
      var f := FieldsOf(form).value;
      r.0.rows == t.rows + [Row(t.nextId, Record(emp, f.institution, f.degree, f.year, f.details))]
  {
    match FieldsOf(form)
    case Failure(e) => (t, Err(e))
    case Success(f) =>
      var (t', id) := Insert(t, Record(emp, f.institution, f.degree, f.year, f.details));
      (t', Ok(Some("Education record added."), Saved(ById(t', id))))
  }

  /** PUT for `emp`: the record id from the form, the fields, then the owner-scoped update. */
  function EditFor(t: Records, emp: int, form: map<string, string>): (r: (Records, Reply<EduData>))
    requires Valid(t)
    ensures Valid(r.0)
    ensures !r.1.Ok? ==> r.0 == t
    ensures forall x :: x in t.rows && x.val.employeeId != emp ==> x in r.0.rows
    ensures r.1.Ok? ==>
      && FieldsOf(form).Success? && RecordId(Get(form, "id"), "").Success?
      && OwnsRecord(t, RecordId(Get(form, "id"), "").value, emp)
    ensures FieldsOf(form).Success? && RecordId(Get(form, "id"), "").Success? ==>
      var id := RecordId(Get(form, "id"), "").value;
      && (OwnsRecord(t, id, emp) ==> r.1.Ok? && r.0 == UpdateRecord(t, id, emp, FieldsOf(form).value).0)
      && (!OwnsRecord(t, id, emp) ==> r == (t, Err(NotOwned)))
  {
    match RecordId(Get(form, "id"), "Record ID is required for update.")
    case Failure(e) => (t, Err(e))
    case Success(id) =>
      match FieldsOf(form)
      case Failure(e) => (t, Err(e))
      case Success(f) =>
        var (t', err) := UpdateRecord(t, id, emp, f);
        if err.Some? then (t, Err(err.value))
        else
          assert forall x :: x in t.rows && x.val.employeeId != emp ==> x in t'.rows by {
            forall x | x in t.rows && x.val.employeeId != emp ensures x in t'.rows {
              var i :| 0 <= i < |t.rows| && t.rows[i] == x;
              assert t'.rows[i] == x;
            }
          }
          (t', Ok(Some("Education record updated."), Saved(ById(t', id))))
  }

  /** DELETE for `emp`: the record id from the query string, then the owner-scoped delete. */
  function RemoveFor(t: Records, emp: int, query: map<string, string>): (r: (Records, Reply<EduData>))
    requires Valid(t)
    ensures Valid(r.0)
    ensures !r.1.Ok? ==> r.0 == t
    ensures forall x :: x in t.rows && x.val.employeeId != emp ==> x in r.0.rows
    ensures r.1.Ok? ==>
      RecordId(Get(query, "id"), "").Success? && OwnsRecord(t, RecordId(Get(query, "id"), "").value, emp)
    ensures RecordId(Get(query, "id"), "").Success? ==>
      var id := RecordId(Get(query, "id"), "").value;
      && (OwnsRecord(t, id, emp) ==> r == (DeleteRecord(t, id, emp).0, Ok(Some("Education record deleted."), NoData)))
      && (!OwnsRecord(t, id, emp) ==> r == (t, Err(NotOwned)))
  {
    match RecordId(Get(query, "id"), "Record ID required for delete.")
    case Failure(e) => (t, Err(e))
    case Success(id) =>
      var (t', err) := DeleteRecord(t, id, emp);
      if err.Some? then (t, Err(err.value))
      else (t', Ok(Some("Education record deleted."), NoData))
  }

  /**
   * `main`: the id gate, then list on GET, insert on POST, owner-scoped update
   * on PUT (id from the form) and owner-scoped delete on DELETE (id from the
   * query string).
   */
  function Handle(t: Records, req: Request): (r: (Records, Reply<EduData>))
    requires Valid(t)
    ensures Valid(r.0)
    ensures req.verb == "OPTIONS" ==> r == (t, Preflight)
    ensures req.verb != "OPTIONS" && !Present(EmployeeIdText(req)) ==>
      r == (t, Err("Authentication required: Employee ID missing."))
    ensures req.verb != "OPTIONS" && Present(EmployeeIdText(req)) && Employee(req).None? ==>
      r == (t, Err("Invalid Employee ID format."))
    ensures req.verb == "GET" && Employee(req).Some? ==>
      r == (t, Ok(None, Listing(History(t, Employee(req).value))))
    ensures r.0 != t ==> r.1.Ok? && Employee(req).Some?
    ensures forall x :: x in t.rows && Some(x.val.employeeId) != Employee(req) ==> x in r.0.rows
    ensures req.verb == "POST" && Employee(req).Some? ==> r == AddFor(t, Employee(req).value, req.form)
    ensures req.verb == "PUT" && Employee(req).Some? ==> r == EditFor(t, Employee(req).value, req.form)
    ensures req.verb == "DELETE" && Employee(req).Some? ==> r == RemoveFor(t, Employee(req).value, req.query)
    ensures req.verb !in {"OPTIONS", "GET", "POST", "PUT", "DELETE"} && Employee(req).Some? ==>
      r == (t, Err(MethodNotAllowed(req.verb)))
  {
    if req.verb == "OPTIONS" then (t, Preflight)
    else if !Present(EmployeeIdText(req)) then (t, Err("Authentication required: Employee ID missing."))
    else match Employee(req)
      case None => (t, Err("Invalid Employee ID format."))
      case Some(emp) =>
        if req.verb == "GET" then (t, Ok(None, Listing(History(t, emp))))
        else if req.verb == "POST" then AddFor(t, emp, req.form)
        else if req.verb == "PUT" then EditFor(t, emp, req.form)
        else if req.verb == "DELETE" then RemoveFor(t, emp, req.query)
        else (t, Err(MethodNotAllowed(req.verb)))
  }
}
