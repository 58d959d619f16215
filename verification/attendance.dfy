/**
 * `attendance_api.py`: one attendance row per employee and calendar day, moving
 * from "no row" to "punched in" to "punched out".
 */
module Attendance {
  import opened Wrappers
  import opened Tables
  import opened Http
  import Text

  /** A row of `attendance`; `date` is `date.today().isoformat()`, the times are ISO timestamps. */
  datatype Punch = Punch(employeeId: int, date: string, punchIn: string, punchOut: Option<string>)

  type Log = Table<Punch>

  /** The `UNIQUE (employee_id, date)` key of the table. */
  function DayKey(p: Punch): (int, string) {
    (p.employeeId, p.date)
  }

  /** The table invariant: well-formed ids and at most one row per employee and day. */
  ghost predicate OnePerDay(t: Log) {
    Valid(t) && UniqueOn(t, DayKey)
  }

  predicate OnDay(r: Row<Punch>, emp: int, day: string) {
    r.val.employeeId == emp && r.val.date == day
  }

  predicate OpenOnDay(r: Row<Punch>, emp: int, day: string) {
    OnDay(r, emp, day) && r.val.punchOut.None?
  }

  /** Position of the row `SELECT … WHERE employee_id = ? AND date = ?` fetches. */
  function DayIndex(t: Log, emp: int, day: string): Option<nat> {
    FirstIndex(t.rows, (x: Row<Punch>) => OnDay(x, emp, day))
  }

  /** Position of the row `… AND punch_out_time IS NULL` fetches. */
  function OpenIndex(t: Log, emp: int, day: string): Option<nat> {
    FirstIndex(t.rows, (x: Row<Punch>) => OpenOnDay(x, emp, day))
  }

  /** What `get_today_attendance` returns for an existing row. */
  datatype Today = Today(id: nat, punchIn: string, punchOut: Option<string>, date: string)

  /** `get_today_attendance`: the employee's row for today, if any; the table is only read. */
  function GetToday(t: Log, emp: int, today: string): (r: Option<Today>)
    ensures r.None? <==> forall i :: 0 <= i < |t.rows| ==> !OnDay(t.rows[i], emp, today)
    ensures r.Some? ==> Row(r.value.id, Punch(emp, today, r.value.punchIn, r.value.punchOut)) in t.rows
    ensures r.Some? ==> r.value.date == today
  {
    match DayIndex(t, emp, today)
    case None => None
    case Some(k) =>
      var x := t.rows[k];
      assert x == Row(x.id, Punch(emp, today, x.val.punchIn, x.val.punchOut));
      Some(Today(x.id, x.val.punchIn, x.val.punchOut, today))
  }

  /** Under the invariant, the row of a pair is the one every lookup of that pair finds. */
  lemma UniqueDay(t: Log, emp: int, day: string, i: nat)
    requires OnePerDay(t)
    requires i < |t.rows| && OnDay(t.rows[i], emp, day)
    ensures DayIndex(t, emp, day) == Some(i)
    ensures OpenIndex(t, emp, day) == if t.rows[i].val.punchOut.None? then Some(i) else None
  {
    var j := DayIndex(t, emp, day).value;
    assert DayKey(t.rows[i].val) == DayKey(t.rows[j].val);
    forall k | 0 <= k < |t.rows| && k != i ensures !OnDay(t.rows[k], emp, day) {
      assert DayKey(t.rows[i].val) != DayKey(t.rows[k].val) || i == k;
    }
  }

  /** The `data` of a successful reply. */
  datatype PunchData =
    | Status(today: Option<Today>)
    | PunchedIn(punchIn: string, date: string)
    | PunchedOut(punchIn: string, punchOut: string, date: string)

  /**
   * `punch_in`: refuses when any row exists for (employee, today), punched out
   * or not; otherwise appends the row with `punch_in_time = now` and no
   * punch-out. The `IntegrityError` fallback is kept, and the contract shows it
   * never fires: the refusal always carries the message of the SELECT check.
   */
  function PunchIn(t: Log, emp: int, today: string, now: string): (r: (Log, Result<PunchData>))
    requires Valid(t)
    ensures r.1.Success? <==> forall i :: 0 <= i < |t.rows| ==> !OnDay(t.rows[i], emp, today)
    ensures r.1.Failure? ==> r.0 == t && r.1.error == "Already punched in today."
    ensures r.1.Success? ==> r.1.value == PunchedIn(now, today)
    ensures r.1.Success? ==> r.0.rows == t.rows + [Row(t.nextId, Punch(emp, today, now, None))]
    ensures Valid(r.0)
    ensures OnePerDay(t) ==> OnePerDay(r.0)
  {
    if DayIndex(t, emp, today).Some? then
      (t, Failure("Already punched in today."))
    else if KeyTaken(t.rows, DayKey, (emp, today)) then
      (t, Failure("Already punched in today (Integrity Error)."))
    else
      var v := Punch(emp, today, now, None);
      var (t', id) := Insert(t, v);
      assert OnePerDay(t) ==> OnePerDay(t') by {
        if OnePerDay(t) {
          InsertKeepsUnique(t, v, DayKey);
        }
      }
      (t', Success(PunchedIn(now, today)))
  }

  /** `SET punch_out_time = now`. */
  function SetPunchOut(now: string): Punch -> Punch {
    (q: Punch) => q.(punchOut := Some(now))
  }

  /** `UPDATE attendance SET punch_out_time = now WHERE id = k-th row's id`. */
  function StampOut(t: Log, k: nat, now: string): (r: Log)
    requires Valid(t) && k < |t.rows|
    ensures Valid(r) && |r.rows| == |t.rows| && r.nextId == t.nextId
    ensures r.rows[k] == Row(t.rows[k].id, t.rows[k].val.(punchOut := Some(now)))
    ensures forall i :: 0 <= i < |t.rows| && i != k ==> r.rows[i] == t.rows[i]
    ensures UniqueOn(t, DayKey) ==> UniqueOn(r, DayKey)
  {
    StampOutRows(t, k, now);
    UpdateWhere(t, IdIs(t.rows[k].id), SetPunchOut(now)).0
  }

  lemma StampOutRows(t: Log, k: nat, now: string)
    requires Valid(t) && k < |t.rows|
    ensures var u := UpdateWhere(t, IdIs(t.rows[k].id), SetPunchOut(now)).0;
      && u.rows[k] == Row(t.rows[k].id, t.rows[k].val.(punchOut := Some(now)))
      && (forall i :: 0 <= i < |t.rows| && i != k ==> u.rows[i] == t.rows[i])
      && (UniqueOn(t, DayKey) ==> UniqueOn(u, DayKey))
  {
    var id := t.rows[k].id;
    var u := UpdateWhere(t, IdIs(id), SetPunchOut(now)).0;
    assert forall i :: 0 <= i < |t.rows| && i != k ==> !IdIs(id)(t.rows[i]);
    assert IdIs(id)(t.rows[k]);
    if UniqueOn(t, DayKey) {
      assert forall i :: 0 <= i < |t.rows| ==> DayKey(u.rows[i].val) == DayKey(t.rows[i].val);
      SameKeysKeepUnique(t, u, DayKey);
    }
  }

  /**
   * `punch_out`: finds today's row with no punch-out; without one it refuses.
   * Otherwise it stamps `punch_out_time = now` on that row (by id) and replies
   * with the stored punch-in time.
   */
  function PunchOut(t: Log, emp: int, today: string, now: string): (r: (Log, Result<PunchData>))
    requires Valid(t)
    ensures r.1.Success? <==> exists i :: 0 <= i < |t.rows| && OpenOnDay(t.rows[i], emp, today)
    ensures r.1.Failure? ==> r.0 == t && r.1.error == "Not punched in today or already punched out."
    ensures r.1.Success? ==>
      var k := OpenIndex(t, emp, today).value;
      && k < |t.rows| && OpenOnDay(t.rows[k], emp, today)
      && r.0 == StampOut(t, k, now)
      && r.1.value == PunchedOut(t.rows[k].val.punchIn, now, today)
    ensures Valid(r.0)
    ensures OnePerDay(t) ==> OnePerDay(r.0)
  {
    match OpenIndex(t, emp, today)
    case None => (t, Failure("Not punched in today or already punched out."))
    case Some(k) =>
      (StampOut(t, k, now), Success(PunchedOut(t.rows[k].val.punchIn, now, today)))
  }

  /** The state of one (employee, day) pair. */
  datatype DayState = Absent | PunchedInAt(time: string) | Done

  function StateOf(t: Log, emp: int, day: string): DayState {
    match GetToday(t, emp, day)
    case None => Absent
    case Some(d) => if d.punchOut.None? then PunchedInAt(d.punchIn) else Done
  }

  /** Punching in moves (employee, today) from Absent to PunchedIn and leaves every other pair alone. */
  lemma PunchInTransition(t: Log, emp: int, today: string, now: string, emp': int, day': string)
    requires OnePerDay(t)
    ensures var t' := PunchIn(t, emp, today, now).0;
      && (StateOf(t, emp, today).Absent? ==> StateOf(t', emp, today) == PunchedInAt(now))
      && (!StateOf(t, emp, today).Absent? ==> t' == t)
      && ((emp', day') != (emp, today) ==> StateOf(t', emp', day') == StateOf(t, emp', day'))
  {
    var t' := PunchIn(t, emp, today, now).0;
    if StateOf(t, emp, today).Absent? {
      var n := |t.rows|;
      assert OnePerDay(t');
      UniqueDay(t', emp, today, n);
      if (emp', day') != (emp, today) {
        SameLookup(t, t', emp', day', n);
      }
    }
  }

  /**
   * Two tables that agree on every row of one pair, where only one position may
   * differ, give that pair the same state.
   */
  lemma SameLookup(t: Log, t': Log, emp: int, day: string, n: nat)
    requires |t'.rows| >= |t.rows|
    requires forall i :: 0 <= i < |t.rows| && i != n ==> t'.rows[i] == t.rows[i]
    requires forall i :: |t.rows| <= i < |t'.rows| ==> i == n && !OnDay(t'.rows[i], emp, day)
    requires n < |t.rows| ==> !OnDay(t.rows[n], emp, day) && !OnDay(t'.rows[n], emp, day)
    ensures StateOf(t', emp, day) == StateOf(t, emp, day)
  {
    var p := (x: Row<Punch>) => OnDay(x, emp, day);
    match DayIndex(t, emp, day)
    case None =>
      assert forall i :: 0 <= i < |t'.rows| ==> !OnDay(t'.rows[i], emp, day) by {
        forall i | 0 <= i < |t'.rows| ensures !OnDay(t'.rows[i], emp, day) {
          if i < |t.rows| && i != n { assert !OnDay(t.rows[i], emp, day); }
        }
      }
    case Some(k) =>
      assert k != n;
      assert t'.rows[k] == t.rows[k];
      forall i | 0 <= i < k ensures !OnDay(t'.rows[i], emp, day) {
        if i != n { assert !OnDay(t.rows[i], emp, day); }
      }
      assert DayIndex(t', emp, day) == Some(k);
  }

  /** Punching out moves (employee, today) from PunchedIn to Done and leaves every other pair alone. */
  lemma PunchOutTransition(t: Log, emp: int, today: string, now: string, emp': int, day': string)
    requires OnePerDay(t)
    ensures var t' := PunchOut(t, emp, today, now).0;
      && (StateOf(t, emp, today).PunchedInAt? ==> StateOf(t', emp, today) == Done)
      && (!StateOf(t, emp, today).PunchedInAt? ==> t' == t)
      && ((emp', day') != (emp, today) ==> StateOf(t', emp', day') == StateOf(t, emp', day'))
  {
    var t' := PunchOut(t, emp, today, now).0;
    match DayIndex(t, emp, today)
    case None =>
    case Some(k) =>
      UniqueDay(t, emp, today, k);
      if t.rows[k].val.punchOut.None? {
        assert t' == StampOut(t, k, now);
        assert OnePerDay(t');
        UniqueDay(t', emp, today, k);
        if (emp', day') != (emp, today) {
          SameLookup(t, t', emp', day', k);
        }
      }
  }

  /** A second punch-in on the same day fails and changes nothing. */
  lemma PunchInTwice(t: Log, emp: int, today: string, now1: string, now2: string)
    requires OnePerDay(t)
    ensures var t1 := PunchIn(t, emp, today, now1).0;
      var r2 := PunchIn(t1, emp, today, now2);
      r2.1 == Failure("Already punched in today.") && r2.0 == t1
  {
    PunchInTransition(t, emp, today, now1, emp, today);
  }

  /** Two punch-outs in a row: the second always fails. */
  lemma PunchOutTwice(t: Log, emp: int, today: string, now1: string, now2: string)
    requires OnePerDay(t)
    ensures var t1 := PunchOut(t, emp, today, now1).0;
      var r2 := PunchOut(t1, emp, today, now2);
      r2.1 == Failure("Not punched in today or already punched out.") && r2.0 == t1
  {
    var t1 := PunchOut(t, emp, today, now1).0;
    PunchOutTransition(t, emp, today, now1, emp, today);
    OutNeedsPunchedIn(t1, emp, today, now2);
  }

  /** A punch-out succeeds only from the PunchedIn state. */
  lemma OutNeedsPunchedIn(t: Log, emp: int, today: string, now: string)
    requires OnePerDay(t)
    ensures PunchOut(t, emp, today, now).1.Success? <==> StateOf(t, emp, today).PunchedInAt?
  {
    match DayIndex(t, emp, today)
    case None =>
      assert OpenIndex(t, emp, today).None?;
    case Some(k) =>
      UniqueDay(t, emp, today, k);
  }

  /** A punch-in followed by a punch-out succeeds and reports the punch-in time. */
  lemma PunchInThenOut(t: Log, emp: int, today: string, now1: string, now2: string)
    requires OnePerDay(t)
    requires StateOf(t, emp, today).Absent?
    ensures var t1 := PunchIn(t, emp, today, now1).0;
      PunchOut(t1, emp, today, now2).1 == Success(PunchedOut(now1, now2, today))
  {
    var t1 := PunchIn(t, emp, today, now1).0;
    UniqueDay(t1, emp, today, |t.rows|);
  }

  // ---------------------------------------------------------------------------
  // `main`
  // ---------------------------------------------------------------------------

  /** A request: method, the `X-Employee-ID` header, the first `action` query value. */
  datatype Request = Request(verb: string, employeeHeader: Option<string>, action: Option<string>)

  /** `main`: answers `OPTIONS`, then demands an integer employee id, then dispatches. */
  function Handle(t: Log, req: Request, today: string, now: string): (r: (Log, Reply<PunchData>))
    requires Valid(t)
    ensures req.verb == "OPTIONS" ==> r == (t, Preflight)
    ensures req.verb != "OPTIONS" && !Present(req.employeeHeader) ==>
      r == (t, Err("Authentication required: Employee ID missing."))
    ensures req.verb != "OPTIONS" && Present(req.employeeHeader) && Text.ParseInt(req.employeeHeader.value).None? ==>
      r == (t, Err("Invalid Employee ID format."))
    ensures req.verb == "POST" && req.action != Some("punch_in") && req.action != Some("punch_out") && Present(req.employeeHeader) && Text.ParseInt(req.employeeHeader.value).Some? ==>
      r == (t, Err("Invalid action for POST request."))
    ensures !(req.verb == "POST" && req.action in {Some("punch_in"), Some("punch_out")}) ==> r.0 == t
    ensures req.verb == "GET" && Present(req.employeeHeader) && Text.ParseInt(req.employeeHeader.value).Some? ==>
      r == (t, Ok(None, Status(GetToday(t, Text.ParseInt(req.employeeHeader.value).value, today))))
    ensures (req.verb == "POST" && req.action == Some("punch_in") && Present(req.employeeHeader)
             && Text.ParseInt(req.employeeHeader.value).Some?) ==>
      var (t', res) := PunchIn(t, Text.ParseInt(req.employeeHeader.value).value, today, now);
      r.0 == t' && (res.Success? ==> r.1 == Ok(Some("Punched in successfully."), res.value))
      && (res.Failure? ==> r.1 == Err(res.error))
    ensures (req.verb == "POST" && req.action == Some("punch_out") && Present(req.employeeHeader)
             && Text.ParseInt(req.employeeHeader.value).Some?) ==>
      var (t', res) := PunchOut(t, Text.ParseInt(req.employeeHeader.value).value, today, now);
      r.0 == t' && (res.Success? ==> r.1 == Ok(Some("Punched out successfully."), res.value))
      && (res.Failure? ==> r.1 == Err(res.error))
    ensures req.verb !in {"OPTIONS", "GET", "POST"} && Present(req.employeeHeader)
            && Text.ParseInt(req.employeeHeader.value).Some? ==>
      r == (t, Err(MethodNotAllowed(req.verb)))
    ensures Valid(r.0)
    ensures OnePerDay(t) ==> OnePerDay(r.0)
  {
    if req.verb == "OPTIONS" then (t, Preflight)
    else if !Present(req.employeeHeader) then (t, Err("Authentication required: Employee ID missing."))
    else match Text.ParseInt(req.employeeHeader.value)
      case None => (t, Err("Invalid Employee ID format."))
      case Some(emp) =>
        if req.verb == "GET" then (t, Ok(None, Status(GetToday(t, emp, today))))
        else if req.verb == "POST" then
          if req.action == Some("punch_in") then
            var (t', res) := PunchIn(t, emp, today, now);
            (t', if res.Success? then Ok(Some("Punched in successfully."), res.value) else Err(res.error))
          else if req.action == Some("punch_out") then
            var (t', res) := PunchOut(t, emp, today, now);
            (t', if res.Success? then Ok(Some("Punched out successfully."), res.value) else Err(res.error))
          else (t, Err("Invalid action for POST request."))
        else (t, Err(MethodNotAllowed(req.verb)))
  }
}
