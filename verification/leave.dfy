/**
 * `leave_api.py`: an employee's leave requests, validated on intake and always
 * stored as `Pending`.
 */
module Leave {
  import opened Wrappers
  import opened Tables
  import opened Http
  import Text
  import Sorting

  /** A calendar date; `Before` is Python's `date.__lt__`. */
  datatype Date = Date(year: int, month: int, day: int)

  predicate Before(a: Date, b: Date) {
    a.year < b.year || (a.year == b.year && (a.month < b.month || (a.month == b.month && a.day < b.day)))
  }

  /**
   * A row of `leave_requests`. The dates are stored as the strings the client
   * sent; `requestedAt` is `datetime.now().isoformat()`.
   */
  datatype LeaveRequest = LeaveRequest(
    employeeId: int, startDate: string, endDate: string, reason: string, status: string, requestedAt: string)

  type Requests = Table<LeaveRequest>

  /** The three fields `main` collects from the form, `reason` already escaped. */
  datatype LeaveForm = LeaveForm(startDate: string, endDate: string, reason: string)

  /** `datetime.strptime(s, '%Y-%m-%d').date()`, `None` where it raises `ValueError`. */
  type DateParser = string -> Option<Date>

  predicate Acceptable(f: LeaveForm, today: Date, parse: DateParser) {
    && parse(f.startDate).Some? && parse(f.endDate).Some?
    && !Before(parse(f.endDate).value, parse(f.startDate).value)
    && !Before(parse(f.startDate).value, today)
  }

  /**
   * `add_leave_request`: parses both dates, rejects a range that ends before it
   * starts, then a start before today, and otherwise inserts a `Pending` row,
   * returning its id.
   */
  function AddLeaveRequest(t: Requests, emp: int, f: LeaveForm, today: Date, now: string, parse: DateParser)
    : (r: (Requests, Result<nat>))
    requires Valid(t)
    ensures Valid(r.0)
    ensures r.1.Success? <==> Acceptable(f, today, parse)
    ensures r.1.Failure? ==> r.0 == t
    ensures parse(f.startDate).None? || parse(f.endDate).None? ==>
      r.1 == Failure("Invalid date format. Please use YYYY-MM-DD.")
    ensures parse(f.startDate).Some? && parse(f.endDate).Some? && Before(parse(f.endDate).value, parse(f.startDate).value) ==>
      r.1 == Failure("End date cannot be before start date.")
    ensures (parse(f.startDate).Some? && parse(f.endDate).Some? && !Before(parse(f.endDate).value, parse(f.startDate).value)
             && Before(parse(f.startDate).value, today)) ==>
      r.1 == Failure("Start date cannot be in the past.")
    ensures r.1.Success? ==>
      && r.1.value == t.nextId
      && r.0.rows == t.rows + [Row(t.nextId, LeaveRequest(emp, f.startDate, f.endDate, f.reason, "Pending", now))]
  {
    match (parse(f.startDate), parse(f.endDate))
    case (Some(start), Some(end)) =>
      if Before(end, start) then (t, Failure("End date cannot be before start date."))
      else if Before(start, today) then (t, Failure("Start date cannot be in the past."))
      else
        var (t', id) := Insert(t, LeaveRequest(emp, f.startDate, f.endDate, f.reason, "Pending", now));
        (t', Success(id))
    case _ => (t, Failure("Invalid date format. Please use YYYY-MM-DD."))
  }

  /** Both comparisons are strict: a one-day leave starting today is accepted. */
  lemma OneDayLeaveTodayAccepted(t: Requests, emp: int, f: LeaveForm, today: Date, now: string, parse: DateParser)
    requires Valid(t)
    requires parse(f.startDate) == Some(today) && parse(f.endDate) == Some(today)
    ensures AddLeaveRequest(t, emp, f, today, now, parse).1.Success?
  {
  }

  /** The range check comes first: a past range that also ends before it starts gets the range message. */
  lemma RangeCheckedFirst(t: Requests, emp: int, f: LeaveForm, today: Date, now: string, parse: DateParser)
    requires Valid(t)
    requires parse(f.startDate).Some? && parse(f.endDate).Some?
    requires Before(parse(f.endDate).value, parse(f.startDate).value) && Before(parse(f.startDate).value, today)
    ensures AddLeaveRequest(t, emp, f, today, now, parse).1 == Failure("End date cannot be before start date.")
  {
  }

  function RequestedAt(x: Row<LeaveRequest>): string {
    x.val.requestedAt
  }

  function IsOwn(emp: int): Row<LeaveRequest> -> bool {
    (x: Row<LeaveRequest>) => x.val.employeeId == emp
  }

  /**
   * `get_employee_leave_history`: exactly the employee's requests, newest
   * `requested_at` first. SQLite leaves the order of equal timestamps open; the
   * model keeps rowid order.
   */
  function History(t: Requests, emp: int): (r: seq<Row<LeaveRequest>>)
    ensures forall x :: x in r <==> x in t.rows && x.val.employeeId == emp
    ensures multiset(r) == multiset(Select(t.rows, IsOwn(emp)))
    ensures Sorting.SortedBy(r, Sorting.DescBy(RequestedAt))
  {
    Sorting.DescByIsPreorder(RequestedAt);
    Sorting.Sort(Select(t.rows, IsOwn(emp)), Sorting.DescBy(RequestedAt))
  }

  // ---------------------------------------------------------------------------
  // `main`
  // ---------------------------------------------------------------------------

  /**
   * A request: method, the `X-Employee-ID` header, and the first value of each
   * field of the urlencoded body (`parse_qs` drops empty values).
   */
  datatype Request = Request(verb: string, employeeHeader: Option<string>, body: map<string, string>)

  datatype LeaveData = HistoryData(requests: seq<Row<LeaveRequest>>) | Submitted(request: Row<LeaveRequest>)

  /** The employee id: the header, or for a POST without it, the body's `employee_id`. */
  function EmployeeIdText(req: Request): Option<string> {
    if !Present(req.employeeHeader) && req.verb == "POST" then Get(req.body, "employee_id")
    else req.employeeHeader
  }

  function FormOf(req: Request): LeaveForm {
    LeaveForm(GetOrEmpty(req.body, "start_date"), GetOrEmpty(req.body, "end_date"), Text.Escape(GetOrEmpty(req.body, "reason")))
  }

  /** `main`: id gating, then the history on GET and the validated insert on POST. */
  function Handle(t: Requests, req: Request, today: Date, now: string, parse: DateParser): (r: (Requests, Reply<LeaveData>))
    requires Valid(t)
    ensures Valid(r.0)
    ensures req.verb == "OPTIONS" ==> r == (t, Preflight)
    ensures req.verb != "OPTIONS" && !Present(EmployeeIdText(req)) ==>
      r == (t, Err("Authentication required: Employee ID missing."))
    ensures req.verb != "OPTIONS" && Present(EmployeeIdText(req)) && Text.ParseInt(EmployeeIdText(req).value).None? ==>
      r == (t, Err("Invalid Employee ID format."))
    ensures (req.verb == "POST" && Present(EmployeeIdText(req)) && Text.ParseInt(EmployeeIdText(req).value).Some?
             && (FormOf(req).startDate == "" || FormOf(req).endDate == "" || FormOf(req).reason == "")) ==>
      r == (t, Err("Start date, end date, and reason are required."))
    ensures r.0 != t ==>
      && req.verb == "POST" && r.1.Ok? && |r.0.rows| == |t.rows| + 1
      && r.1.data == Submitted(r.0.rows[|t.rows|])
      && r.0.rows[|t.rows|].val.status == "Pending"
      && r.0.rows[|t.rows|].val.reason == Text.Escape(GetOrEmpty(req.body, "reason"))
    ensures req.verb == "GET" && Present(EmployeeIdText(req)) && Text.ParseInt(EmployeeIdText(req).value).Some? ==>
      r == (t, Ok(None, HistoryData(History(t, Text.ParseInt(EmployeeIdText(req).value).value))))
    ensures (req.verb == "POST" && Present(EmployeeIdText(req)) && Text.ParseInt(EmployeeIdText(req).value).Some?
             && FormOf(req).startDate != "" && FormOf(req).endDate != "" && FormOf(req).reason != "") ==>
      var (emp, f) := (Text.ParseInt(EmployeeIdText(req).value).value, FormOf(req));
      var row := Row(t.nextId, LeaveRequest(emp, f.startDate, f.endDate, f.reason, "Pending", now));
      && (Acceptable(f, today, parse) ==>
            r == (Table(t.rows + [row], r.0.nextId), Ok(Some("Leave request submitted."), Submitted(row))))
      && (!Acceptable(f, today, parse) ==> r == (t, Err(AddLeaveRequest(t, emp, f, today, now, parse).1.error)))
    ensures req.verb !in {"OPTIONS", "GET", "POST"} && Present(EmployeeIdText(req))
            && Text.ParseInt(EmployeeIdText(req).value).Some? ==>
      r == (t, Err(MethodNotAllowed(req.verb)))
  {
    if req.verb == "OPTIONS" then (t, Preflight)
    else
      var idText := EmployeeIdText(req);
      if !Present(idText) then (t, Err("Authentication required: Employee ID missing."))
      else match Text.ParseInt(idText.value)
        case None => (t, Err("Invalid Employee ID format."))
        case Some(emp) =>
          if req.verb == "GET" then (t, Ok(None, HistoryData(History(t, emp))))
          else if req.verb == "POST" then
            var f := FormOf(req);
            if f.startDate == "" || f.endDate == "" || f.reason == "" then
              (t, Err("Start date, end date, and reason are required."))
            else
              var (t', res) := AddLeaveRequest(t, emp, f, today, now, parse);
              match res
              case Failure(e) => (t, Err(e))
              case Success(id) => (t', Ok(Some("Leave request submitted."), Submitted(t'.rows[|t.rows|])))
          else (t, Err(MethodNotAllowed(req.verb)))
  }
}
