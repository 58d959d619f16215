# Suyog Works website back end, modelled in Dafny

The Suyog Works site has a public marketing part and an employee portal. A
set of Python CGI scripts under `website/cgi-bin/` keep the state behind it
in SQLite and an `uploads/` tree:

- the marketing part: careers, team members, products, resources, contact
  messages and the admin login;
- the employee portal: attendance, leave requests, employee documents, the
  company handbook, education history, employee administration and the
  self-service profile.

The admin dashboard (`website/assets/js/dashboard.js`) calls those scripts.

This project models the logic of each script as pure Dafny functions of the
form `(state, request) -> (state', reply)`:

- A table is a `Tables.Table<R>`: its rows in rowid order, plus the next
  AUTOINCREMENT id.
- The upload tree is a set of web paths.
- Every reply is an `Http.Reply`, one of:
  - the CORS preflight answer;
  - `{"success": true, ...}` with a message and data;
  - `{"success": false, "error": ...}`;
  - a bare `{"error": ...}` object.
- UNIQUE columns of `website/database/init_db.py` become invariants. They are
  proved preserved by every operation that writes them:
  - `employees.username` and `employees.email`;
  - `company_handbook.file_path`;
  - `attendance(employee_id, date)`;
  - `employee_documents.file_path`.

Modules follow the scripts:

- **Common pieces:**
  - `Text`: Python's `str.strip`, `html.escape`, `int()`, `str.split` and `os.path.splitext`.
  - `Tables`: SQL `INSERT`, `SELECT ... WHERE`, `UPDATE ... WHERE` and `DELETE ... WHERE`, with `rowcount` and `lastrowid`.
  - `Sorting`: `ORDER BY`.
  - `Files`: extension checks and best-effort `os.remove`.
  - `Http`: form look-ups and replies.
- **The multipart parser:** `Multipart` is the hand-written `multipart/form-data` parser. It is shared, line for line, by the careers, team, products, resources and auth scripts.
- **Marketing scripts:** `Marketing` holds their shared pieces: the `id=` query-string reading, and delete and replace by id. `Careers`, `Team`, `Products`, `Resources`, `Contacts`, `SubmitContact` and `Auth` model one script each.
- **Dashboard:** `Dashboard` holds `truncateText` and the requests the dashboard's save and delete buttons send.
- **Employee portal scripts:** `Attendance`, `Leave`, `Documents`, `Handbook`, `Education`, `Employees` (`employee_admin_api.py`) and `Profiles` (`employee_profile_api.py`).

Things the scripts get from outside are parameters of the model:

- the current time and today's date;
- the `uuid` token that names an upload;
- the bcrypt hash of a new password;
- the date parser standing in for `strptime`;
- the admin credential map;
- whether a file removal or a database write fails.

## Model

| member | source | states |
|---|---|---|
| Text.Strip | website/cgi-bin/careers_api.py:146 | the result is a slice of the input that starts after exactly its leading whitespace and is followed only by whitespace; it is empty or has non-whitespace at both ends, and it is empty iff the input is all whitespace |
| Text.StripIgnoresTrailingSpace | website/cgi-bin/careers_api.py:146 | appending whitespace to a text does not change its stripped form |
| Text.Escape | website/cgi-bin/careers_api.py:195 | `html.escape` leaves no `<`, `>`, `"` or `'`, never shortens, and is empty exactly for empty input |
| Text.UnescapeEscape | website/cgi-bin/careers_api.py:195 | escaping is lossless: unescaping the escaped text gives the original back |
| Text.SplitPieces | website/cgi-bin/careers_api.py:120 | `str.split` gives the whole text when the separator is absent, else the text before its first occurrence first; no piece contains the separator |
| Text.JoinSplit | website/cgi-bin/careers_api.py:120 | joining the pieces of a split with the separator rebuilds the text |
| Text.ParseInt | website/cgi-bin/careers_api.py:179 | `int()` of a string accepts exactly an optionally signed run of ASCII digits, with optional surrounding whitespace, and yields its decimal value, negated after `-` and unchanged after `+` |
| Text.ParseIntToString | website/cgi-bin/careers_api.py:179 | `int()` reads back every integer's decimal text |
| Text.Lower | website/cgi-bin/submit_contact.py:55 | lower-casing keeps the length and maps each character on its own |
| Text.Ext | website/cgi-bin/submit_contact.py:55 | the extension is a suffix of the path, empty or a dot followed by no dot and no slash |
| Files.LowerExt | website/cgi-bin/employee_documents_api.py:24-27 | the lower-cased extension is empty or starts with a dot, and is as long as the extension |
| Files.RemoveBestEffort | website/cgi-bin/employee_documents_api.py:98-108 | a removal either takes out exactly that path or, when it fails, leaves the upload tree as it was |
| Files.RemoveAllBestEffort | website/cgi-bin/handbook_api.py:61-70 | after removing a list of paths, a file is left iff it was there and either was not listed or could not be removed |
| Tables.Insert | website/cgi-bin/careers_api.py:40-54 | an insert appends exactly one row with a fresh id (`lastrowid`) and keeps every other row |
| Tables.IdsIdentify | website/database/init_db.py:44-45 | two rows of a table with the same primary key are the same row |
| Tables.Select | website/cgi-bin/leave_api.py:16-30 | a `WHERE` selection holds exactly the rows satisfying the condition |
| Tables.DeleteWhere | website/cgi-bin/careers_api.py:56-67 | a `DELETE ... WHERE` removes exactly the matching rows, reports their number as `rowcount`, and changes nothing when none match |
| Tables.UpdateWhere | website/cgi-bin/careers_api.py:69-84 | an `UPDATE ... WHERE` rewrites exactly the matching rows, keeps ids and the others, and reports their number as `rowcount` |
| Tables.InsertKeepsUnique | website/database/init_db.py:79-83 | inserting a row whose key is not taken keeps a UNIQUE column unique |
| Tables.DeleteKeepsUnique | website/database/init_db.py:79-83 | deleting rows keeps a UNIQUE column unique |
| Tables.UpdateByIdKeepsUnique | website/database/init_db.py:79-83 | rewriting one row to a key no other row holds keeps the column unique |
| Tables.CountId | website/cgi-bin/careers_api.py:62 | a delete by id affects some row iff a row with that id exists |
| Tables.ById | website/cgi-bin/employee_profile_api.py:50-65 | the row with a given id, or nothing exactly when there is none |
| Sorting.Sort | website/cgi-bin/contacts_api.py:24 | `ORDER BY` yields a permutation of the rows that is sorted by the order |
| Sorting.SortedPermutationUnique | website/cgi-bin/education_api.py:21 | when the order has no ties, there is only one sorted arrangement of a set of rows |
| Sorting.DescByIsPreorder | website/cgi-bin/contacts_api.py:24 | ordering by a text column descending is a total preorder |
| Sorting.AscByIsPreorder | website/cgi-bin/employee_admin_api.py:52 | ordering by a text column ascending is a total preorder |
| Http.Get | website/cgi-bin/employee_profile_api.py:163 | `getvalue(k)` is the submitted value when the field was sent, else nothing |
| Http.GetOrEmpty | website/cgi-bin/employee_profile_api.py:175 | `getvalue(k, '')` is the submitted value, or empty when absent |
| Multipart.BoundaryParam | website/cgi-bin/careers_api.py:113 | the boundary read from the Content-Type is non-empty and stops before any `;` |
| Multipart.BoundaryOfHeader | website/cgi-bin/careers_api.py:113 | the Content-Type a browser sends for a form gives back its boundary |
| Multipart.NameParam | website/cgi-bin/careers_api.py:133 | a field name read from `name="..."` is non-empty and holds no quote |
| Multipart.BlankLine | website/cgi-bin/careers_api.py:141-144 | the value search finds the first whitespace-only line from its start line on, or reports there is none |
| Multipart.ParsePart | website/cgi-bin/careers_api.py:122-147 | a piece read as a field is not blank and not `--`, has a quote-free non-empty name, and its value is already stripped |
| Multipart.ReadPart | website/cgi-bin/careers_api.py:127-146 | a piece with at least three lines and a readable name on its second line is read as that name and the joined, stripped lines after the first blank one |
| Multipart.Parsed | website/cgi-bin/careers_api.py:122 | every piece of the body is read on its own, in order |
| Multipart.Parse | website/cgi-bin/careers_api.py:113-115 | without `boundary=` in the Content-Type the result is empty |
| Multipart.FormData | website/cgi-bin/careers_api.py:86-105 | an empty body gives no fields; a multipart body goes to the corrected multipart reader, any other to the URL-encoded reading |
| Multipart.CollectKeys | website/cgi-bin/careers_api.py:147 | a name is in the form exactly when some readable piece carries it |
| Multipart.CollectLastWins | website/cgi-bin/careers_api.py:147 | for a repeated name, the value of the last piece carrying it wins |
| Multipart.CollectKeeps | website/cgi-bin/careers_api.py:147 | a name no later piece carries keeps its earlier value |
| Multipart.PartRoundTrip | website/cgi-bin/careers_api.py:127-146 | with the blank-line search starting after the delimiter's line end, every field a browser renders is read back as itself |
| Multipart.BodyRoundTrip | website/cgi-bin/careers_api.py:107-149 | a whole body built from renderable fields, whose boundary occurs only as delimiters, decodes to those fields, a later field overriding an earlier one of the same name |
| Multipart.AsWrittenKeepsHeader | website/cgi-bin/careers_api.py:140-146 | as written, the search stops at the empty first line of every piece, so each value comes back with the `Content-Disposition` header in front of it |
| Multipart.AsWrittenExample | website/cgi-bin/careers_api.py:140-146 | for the field `title` = `Engineer` the parser as written does not give the value back, the corrected one does |
| Marketing.Escaped | website/cgi-bin/team_api.py:165-175 | a field is `html.escape` of the submitted value, or empty when absent: it holds no `<`, `>` or quote, is empty iff the raw value is, and unescapes to the submitted value |
| Marketing.IdText | website/cgi-bin/careers_api.py:179 | the text after the first `id=` up to `&` is there exactly when the query holds `id=`, and holds no `&` |
| Marketing.QueryId | website/cgi-bin/careers_api.py:175-185 | a query without `id=` has no id; with one, the id is the `int()` of that text, or invalid when `int()` refuses it |
| Marketing.QueryIdOfNumber | website/assets/js/dashboard.js:333 | the query `id=<n>` the dashboard sends is read back as `n` |
| Marketing.FirstIdWins | website/cgi-bin/careers_api.py:179 | the first occurrence of `id=` wins, even inside another key such as `uid=` |
| Marketing.DeleteById | website/cgi-bin/careers_api.py:56-67 | a delete by id succeeds iff the id exists, removes exactly that row, and otherwise changes nothing |
| Marketing.ReplaceById | website/cgi-bin/careers_api.py:69-84 | an update by id succeeds iff the id exists and replaces exactly that row's values |
| Marketing.ReplaceThenRead | website/cgi-bin/careers_api.py:69-84 | after an update by id the row reads back as the new values |
| Marketing.InsertThenDelete | website/cgi-bin/careers_api.py:40-67 | deleting by the id an insert returned restores the earlier rows |
| Marketing.BareDelete | website/cgi-bin/team_api.py:195-205 | the shared DELETE branch: a missing `id=` and an id `int()` refuses are reported; success iff the row existed, and then the table is exactly the one without that row, every other row kept |
| Careers.Experience | website/cgi-bin/careers_api.py:201-206 | `experience_required` is the submitted number, and 0 when absent or not an integer |
| Careers.ExperienceOfNumber | website/cgi-bin/careers_api.py:201-206 | a submitted number of years is stored as that number |
| Careers.Fields | website/cgi-bin/careers_api.py:188-217 | title, description and location are each `html.escape` of their submitted value and unescape back to it; experience is the parsed number |
| Careers.CompleteIffSent | website/cgi-bin/careers_api.py:219-221 | a submission passes the required check iff title, description and location were sent non-empty |
| Careers.Write | website/cgi-bin/careers_api.py:219-234 | incomplete fields are refused unchanged; POST appends one row with a fresh id; PUT replaces the row iff the id exists, else reports not found |
| Careers.Handle | website/cgi-bin/careers_api.py:151-254 | each verb's answer: listing, add, update by query id, delete by query id with its not-found and invalid-id errors, and "Method not allowed"; a successful delete removes exactly that listing and keeps every other; only a success changes the table |
| Careers.AddThenDelete | website/cgi-bin/careers_api.py:223-248 | deleting a listing by the id its POST answered restores the previous listings |
| Careers.PutThenRead | website/cgi-bin/careers_api.py:226-234 | a successful PUT leaves the row holding exactly the submitted fields |
| Team.Fields | website/cgi-bin/team_api.py:165-179 | name, title and bio are each `html.escape` of their submitted value and unescape back to it; photo_url is stored verbatim |
| Team.Handle | website/cgi-bin/team_api.py:134-211 | POST requires name and title and appends one row; DELETE is the shared delete; PUT and other verbs get "Method not allowed"; failures change nothing |
| Team.NoEdits | website/cgi-bin/team_api.py:207-208 | no request changes an existing team member: every row afterwards is old or has a new id |
| Team.DeleteUnknown | website/cgi-bin/team_api.py:195-205 | deleting an id that does not exist reports "Team member not found" and changes nothing |
| Products.Fields | website/cgi-bin/products_api.py:163-173 | name and description are each `html.escape` of their submitted value and unescape back to it; logo_url is stored verbatim |
| Products.Handle | website/cgi-bin/products_api.py:133-204 | POST requires name and description and appends one row; DELETE is the shared delete; PUT is not allowed; failures change nothing |
| Products.AddThenDelete | website/cgi-bin/products_api.py:154-198 | deleting a product by the id its POST answered succeeds and restores the previous products |
| Resources.Fields | website/cgi-bin/resources_api.py:168-194 | title, type and content are each `html.escape` of their submitted value and unescape back to it; file_url is stored verbatim |
| Resources.Handle | website/cgi-bin/resources_api.py:134-228 | GET, a complete POST and a complete PUT with an id all end in "Server error"; incomplete fields are refused; only DELETE can succeed |
| Resources.OnlyDeletes | website/cgi-bin/resources_api.py:200-222 | no request adds or changes a resource, and only DELETE can answer success |
| Contacts.Raw | website/cgi-bin/contacts_api.py:100-107 | a contact field is the stripped submitted value; absent fields are empty |
| Contacts.Fields | website/cgi-bin/contacts_api.py:100-107 | every field is stripped; name, company, subject and message are then `html.escape`d and unescape back to the stripped value; email and phone are kept as typed; the time is the request's |
| Contacts.CompleteIffSent | website/cgi-bin/contacts_api.py:109-111 | a message passes iff name, email and message contain more than whitespace |
| Contacts.OptionalsDefaultEmpty | website/cgi-bin/contacts_api.py:52-57 | phone, company and subject default to empty when absent |
| Contacts.Newest | website/cgi-bin/contacts_api.py:24 | the listing is all messages, newest timestamp first |
| Contacts.LatestListedFirst | website/cgi-bin/contacts_api.py:24 | the message with the strictly latest timestamp is listed first |
| Contacts.Handle | website/cgi-bin/contacts_api.py:75-120 | GET lists newest first; a complete POST appends one message with a fresh id; an incomplete one is refused unchanged; other verbs are not allowed |
| SubmitContact.TypeCheckSeesRawText | website/cgi-bin/submit_contact.py:253-266 | checking the escaped type against the allow-list accepts exactly the submitted types on the list |
| SubmitContact.SaveDocument | website/cgi-bin/submit_contact.py:43-67 | no file gives no path; a file is stored iff its lower-cased extension is .pdf, .doc, .docx or .txt, at `/uploads/resources/<token><ext>` |
| SubmitContact.UpdateResource | website/cgi-bin/submit_contact.py:89-129 | an unknown id changes nothing and returns false; a known id is rewritten |
| SubmitContact.Rewrite | website/cgi-bin/submit_contact.py:101-129 | without a new file the row keeps its stored file path; with one, the outcome is the re-upload; on success the row holds the new title, type and content and the path chosen |
| SubmitContact.Reupload | website/cgi-bin/submit_contact.py:105-117 | a refused file changes nothing; the only file removed is the row's old local file, the only file added is the new upload, and on success the row points at what the save returned (the new path, or no path for a nameless part) |
| SubmitContact.UpdateKeepsPath | website/cgi-bin/submit_contact.py:101-102 | an update without a file keeps the stored file path |
| SubmitContact.DeleteResource | website/cgi-bin/submit_contact.py:131-154 | the row is removed and the result is true iff it existed; only its own local file can disappear, and a failed removal raises after the row is gone |
| SubmitContact.PutField | website/cgi-bin/submit_contact.py:252-256 | a PUT field is `html.escape` of the stripped value: no `<`, `>` or quote, unescapes to the stripped value, and is empty iff the raw value is all whitespace |
| SubmitContact.Submit | website/cgi-bin/submit_contact.py:209-240 | a contact is refused when incomplete, then when its email lacks `@` or `.`, then when the insert fails; otherwise it is appended |
| SubmitContact.Put | website/cgi-bin/submit_contact.py:242-277 | the id, required-field and type checks run in that order; then the answer and the store are those of `update_resource`: success iff it reports an update, "Resource not found" for an unknown id, its exception text otherwise; a known id without a file always succeeds and keeps the stored path |
| SubmitContact.Delete | website/cgi-bin/submit_contact.py:279-289 | after a DELETE with a valid id the row is gone, even when removing its file failed |
| SubmitContact.Handle | website/cgi-bin/submit_contact.py:188-295 | each verb goes to its branch; only POST touches contacts and only PUT and DELETE touch resources and files |
| SubmitContact.FailedRemovalStillDeletes | website/cgi-bin/submit_contact.py:140-152 | when removing the file fails, the client sees "Server error" but the row has been deleted |
| SubmitContact.OnlySubmitChecksEmail | website/cgi-bin/submit_contact.py:228-230 | a message with a malformed email is refused here but accepted by `contacts_api.py` |
| Auth.Authenticate | website/cgi-bin/auth_api.py:14-22 | true iff the (username, password) pair is one of the credential map's entries |
| Auth.Login | website/cgi-bin/auth_api.py:113-135 | empty fields are refused; success iff the escaped username and the raw password match, answering the username with role "admin" |
| Auth.Handle | website/cgi-bin/auth_api.py:89-141 | OPTIONS is preflight, POST is the login, anything else is "Method not allowed" |
| Auth.MarkupNameNeverLogsIn | website/cgi-bin/auth_api.py:113-115 | a username containing markup can never log in against names without `&` |
| Dashboard.TruncateText | website/assets/js/dashboard.js:621-624 | a missing text shows as empty; one that fits is shown unchanged; a longer one shows its first `maxLength` characters and `...` |
| Dashboard.TruncateShowsPrefix | website/assets/js/dashboard.js:621-624 | the shown text equals the text iff it fits (or already ends in `...` at the cut); it is never longer than `maxLength + 3` and starts with a prefix of the text |
| Dashboard.TruncateCanLengthen | website/assets/js/dashboard.js:623 | a text one or two characters over the limit is shown longer than it is |
| Dashboard.SaveCall | website/assets/js/dashboard.js:326-335 | the save button sends PUT to `url?id=<id>` iff the form is in edit mode with an id, else POST to the bare url |
| Dashboard.QueryAfterPath | website/assets/js/dashboard.js:333 | the script sees as its query string exactly what follows the path's `?` |
| Dashboard.EditSendsId | website/assets/js/dashboard.js:408-418 | editing row `n` sends a PUT whose id the script reads back as `n` |
| Dashboard.DeleteSendsId | website/assets/js/dashboard.js:446 | deleting row `n` sends a DELETE whose id the script reads back as `n` |
| Dashboard.EditCareer | website/assets/js/dashboard.js:408-418 | saving an edited, complete career succeeds and the listing then holds exactly the submitted fields |
| Dashboard.DeleteCareer | website/assets/js/dashboard.js:446 | deleting a listed career from the dashboard removes it |
| Dashboard.EditTeamRefused | website/assets/js/dashboard.js:326-335 | saving an edited team member is always refused by `team_api.py` and changes nothing |
| Dashboard.EditProductRefused | website/assets/js/dashboard.js:568-577 | saving an edited product is always refused by `products_api.py` and changes nothing |
| Dashboard.SaveResourceFails | website/assets/js/dashboard.js:489-498 | the resources form never succeeds in either mode and leaves the library unchanged |
| Attendance.GetToday | website/cgi-bin/attendance_api.py:15-28 | today's row for the employee, or nothing exactly when no row has that employee and date |
| Attendance.PunchIn | website/cgi-bin/attendance_api.py:30-55 | succeeds iff the employee has no row for today; then appends exactly one open row with the punch-in time; otherwise "Already punched in today." with nothing changed; one row per employee and day is kept |
| Attendance.PunchOut | website/cgi-bin/attendance_api.py:57-87 | succeeds iff today's row is open; then stamps the punch-out on that row only, keeping its punch-in; otherwise fails with nothing changed |
| Attendance.StampOut | website/cgi-bin/attendance_api.py:74-82 | the punch-out stamps one row, leaves all others and keeps one row per employee and day |
| Attendance.PunchInTransition | website/cgi-bin/attendance_api.py:38-47 | a punch-in moves Absent to PunchedIn for that employee and day, and leaves every other employee and day in its state |
| Attendance.PunchOutTransition | website/cgi-bin/attendance_api.py:65-82 | a punch-out moves PunchedIn to PunchedOut for that employee and day, and leaves every other employee and day in its state |
| Attendance.OutNeedsPunchedIn | website/cgi-bin/attendance_api.py:65-72 | a punch-out succeeds exactly from the PunchedIn state |
| Attendance.PunchInTwice | website/cgi-bin/attendance_api.py:38-40 | a second punch-in on the same day fails |
| Attendance.PunchOutTwice | website/cgi-bin/attendance_api.py:65-72 | a second punch-out on the same day fails |
| Attendance.PunchInThenOut | website/cgi-bin/attendance_api.py:30-87 | from Absent, a punch-in and a punch-out both succeed and end in PunchedOut with both times |
| Attendance.Handle | website/cgi-bin/attendance_api.py:89-146 | a missing or non-integer employee id and an unknown POST action fail; GET answers today's row; `punch_in` and `punch_out` answer and store exactly what PunchIn and PunchOut do; any other verb with a valid id is answered "Method … not allowed."; nothing else changes the log, which keeps one row per employee and day |
| Leave.AddLeaveRequest | website/cgi-bin/leave_api.py:32-63 | unparsable dates, an end before the start and a start in the past are refused in that order with nothing inserted; otherwise one Pending request is appended |
| Leave.OneDayLeaveTodayAccepted | website/cgi-bin/leave_api.py:39-42 | a one-day leave starting today is accepted, because both comparisons are strict |
| Leave.RangeCheckedFirst | website/cgi-bin/leave_api.py:39-42 | a reversed range starting in the past gets the range error, not the past-date one |
| Leave.History | website/cgi-bin/leave_api.py:16-30 | the history is exactly the employee's requests, newest first |
| Leave.Handle | website/cgi-bin/leave_api.py:65-148 | a missing or invalid employee id and empty required fields are refused; GET answers the employee's history; a complete POST appends one Pending request for the parsed employee with the escaped reason exactly when its dates are acceptable, and otherwise answers the date error with nothing changed; any other verb with a valid id is answered "Method … not allowed." |
| Documents.Sanitize | website/cgi-bin/employee_documents_api.py:30 | the sanitised type has the same length, keeps ASCII letters and digits, and turns every other character into `_` |
| Documents.SanitizeIdempotent | website/cgi-bin/employee_documents_api.py:30 | sanitising twice is sanitising once |
| Documents.SaveDocument | website/cgi-bin/employee_documents_api.py:19-46 | a file is stored iff it has a name and an allowed lower-cased extension, at `/uploads/employee_documents/<employee>/<type>_<token><ext>`; otherwise nothing is written |
| Documents.AddRecord | website/cgi-bin/employee_documents_api.py:48-62 | the insert succeeds iff the file path is not taken, appending exactly one row, and keeps file paths unique |
| Documents.List | website/cgi-bin/employee_documents_api.py:64-76 | the listing is exactly the employee's documents, newest upload first |
| Documents.DeleteDocument | website/cgi-bin/employee_documents_api.py:78-113 | succeeds iff the employee owns a document with that id, removing exactly that row; its file may go; otherwise "Document not found or access denied." with nothing changed |
| Documents.DeleteIsOwnerScoped | website/cgi-bin/employee_documents_api.py:83-86 | another employee's document is never deleted |
| Documents.UploadDocument | website/cgi-bin/employee_documents_api.py:179-197 | a refused file ends in the generic error, because of the unpacking into three at line 179; a failed insert removes the saved file; success appends one row and one file |
| Documents.FreshUploadSucceeds | website/cgi-bin/employee_documents_api.py:184-197 | an allowed file whose path is free is uploaded |
| Documents.KnownId | website/cgi-bin/employee_documents_api.py:128-147 | an employee id counts only when it parses to a non-zero integer |
| Documents.Handle | website/cgi-bin/employee_documents_api.py:115-229 | the id checks run first (OPTIONS, then a missing id except on POST, then an id `int()` refuses); past them the request is dispatched with the known id; only a successful POST or DELETE changes the records, and file paths stay unique |
| Documents.Dispatch | website/cgi-bin/employee_documents_api.py:149-223 | GET without a known id is refused, with one it lists exactly that employee's documents; POST and DELETE are their branches; any other verb is "Method ... not allowed." with nothing changed |
| Documents.HandlePost | website/cgi-bin/employee_documents_api.py:157-197 | the id falls back to the form's `employee_id`, missing or non-integer ones refused; a type and a named file are required; then the answer and store are those of the upload with its compensation, whose `os.remove` may fail |
| Documents.HandleDelete | website/cgi-bin/employee_documents_api.py:199-217 | a known employee and a document id are required and the id must parse; then the store is that of the owner-scoped delete, answering success iff it succeeded and its error otherwise |
| Handbook.Current | website/cgi-bin/handbook_api.py:19-29 | the current handbook is the row with the highest id, or nothing for an empty table |
| Handbook.SaveHandbookFile | website/cgi-bin/handbook_api.py:31-53 | a file is stored iff it has a name and a `.pdf` extension, at `/uploads/company_handbook/<token>.pdf` |
| Handbook.AddOrReplace | website/cgi-bin/handbook_api.py:55-87 | every recorded file is removed where possible; on success the table holds exactly the new row; a failed write keeps the rows |
| Handbook.CurrentAfterReplace | website/cgi-bin/handbook_api.py:73-82 | after a successful replace the current handbook is the new one |
| Handbook.DeleteCurrent | website/cgi-bin/handbook_api.py:89-118 | all rows go and the result says whether there were any; only the latest handbook's file is removed, where possible |
| Handbook.DeleteKeepsOlderFiles | website/cgi-bin/handbook_api.py:94-113 | files of older handbooks survive a delete |
| Handbook.PostHandbook | website/cgi-bin/handbook_api.py:141-158 | a missing file and a non-PDF are refused, an accepted one replaces the handbook |
| Handbook.PostAsWritten | website/cgi-bin/handbook_api.py:141-147 | as written, a request with no file part is refused and one with a file part ends in the generic error; nothing is ever stored |
| Handbook.UploadAsWrittenFails | website/cgi-bin/handbook_api.py:145 | as written a named PDF upload ends in the generic error, while the branch that reads the test as intended stores it |
| Handbook.Handle | website/cgi-bin/handbook_api.py:120-176 | GET reports the current handbook or its absence; POST is the upload branch; DELETE is `delete_current_handbook`, removing only the latest file and answering which of its two messages applies; any other verb is "Method ... not allowed." with nothing changed |
| Education.UpdateRecord | website/cgi-bin/education_api.py:52-76 | succeeds iff the employee owns that record, overwriting exactly its four fields; otherwise "Record not found or not owned by user." with nothing changed |
| Education.UpdateIdempotent | website/cgi-bin/education_api.py:52-76 | repeating an update changes nothing more |
| Education.UpdateOthersRefused | website/cgi-bin/education_api.py:56-71 | updating another employee's record is refused |
| Education.DeleteRecord | website/cgi-bin/education_api.py:78-91 | succeeds iff the employee owns that record, removing exactly it; otherwise nothing changes |
| Education.DeleteLeavesOthers | website/cgi-bin/education_api.py:82-86 | other employees' records survive a delete |
| Education.History | website/cgi-bin/education_api.py:15-28 | the history is exactly the employee's records, by year descending and then id descending |
| Education.HistoryDetermined | website/cgi-bin/education_api.py:21 | any listing of those records in that order is the history |
| Education.ParseYear | website/cgi-bin/education_api.py:140-147 | an empty year is none, an integer is stored, anything else is "Invalid year format." |
| Education.ParseYearRoundTrip | website/cgi-bin/education_api.py:140-147 | every year's decimal text is read back as that year |
| Education.FieldsOf | website/cgi-bin/education_api.py:129-147 | institution and degree must be non-empty and the year valid, and the fields are escaped |
| Education.RecordId | website/cgi-bin/education_api.py:164-172 | a record id is present and parses, or the matching error |
| Education.AddFor | website/cgi-bin/education_api.py:128-160 | an add succeeds iff the fields are valid, then appends one record for the employee |
| Education.EditFor | website/cgi-bin/education_api.py:163-204 | an edit succeeds iff the fields are valid and the record id is one the employee owns; then the table is the owner-scoped update; an id the employee does not own gets "Record not found or not owned by user."; failures change nothing, and other employees' records always survive |
| Education.RemoveFor | website/cgi-bin/education_api.py:207-225 | a delete succeeds iff the record id is one the employee owns; then the table is the owner-scoped delete; otherwise "Record not found or not owned by user." with nothing changed; other employees' records always survive |
| Education.Handle | website/cgi-bin/education_api.py:93-234 | without a valid employee id nothing happens; every change is the employee's own and answered with success |
| Employees.SaveProfilePicture | website/cgi-bin/employee_admin_api.py:32-47 | a picture is stored iff its lower-cased extension is .jpg, .jpeg, .png or .gif, at `/uploads/profile_pictures/<token><ext>` |
| Employees.AddEmployee | website/cgi-bin/employee_admin_api.py:60-90 | a bad picture is refused; a taken email is reported first, as "Email already exists." when one was sent and as SQLite's integrity error when it is empty, and only a free email with a taken username gives "Username already exists."; otherwise one row is appended with the given username, email and hash; usernames and emails stay unique |
| Employees.AddTwiceRefused | website/cgi-bin/employee_admin_api.py:82-88 | adding the same employee twice is refused the second time with the email clash, never the username message |
| Employees.ChangesOf | website/cgi-bin/employee_admin_api.py:106-118 | the password column is written iff a non-empty password was sent, and the picture column as chosen |
| Employees.UpdatePicture | website/cgi-bin/employee_admin_api.py:93-101 | an uploaded picture wins over the `profile_picture_url` field |
| Employees.UpdateEmployee | website/cgi-bin/employee_admin_api.py:92-135 | a bad picture is refused; an unknown id gives false; an email taken by another employee is reported before a taken username; a conflict leaves the staff unchanged; success rewrites that row only |
| Employees.UpdateRow | website/cgi-bin/employee_admin_api.py:123-133 | an email taken by another employee is reported first (SQLite's integrity error when it is empty), then a taken username; success iff the id exists and neither is taken |
| Employees.RewriteRow | website/cgi-bin/employee_admin_api.py:106-126 | the update rewrites the given columns of that row, keeps unwritten ones and every other row, and keeps usernames and emails unique |
| Employees.ResubmitOwnDetails | website/cgi-bin/employee_admin_api.py:127-133 | resubmitting an employee's own username and email never conflicts with itself |
| Employees.ResetPassword | website/cgi-bin/employee_admin_api.py:137-148 | succeeds iff the id exists, changing only that row's password hash |
| Employees.DeleteEmployee | website/cgi-bin/employee_admin_api.py:150-158 | succeeds iff the id exists, removing exactly that row |
| Employees.AllEmployees | website/cgi-bin/employee_admin_api.py:49-58 | the listing shows every employee without the password hash, by full name |
| Employees.QueryFirst | website/cgi-bin/employee_admin_api.py:204-206 | a query-string value takes precedence over the form field |
| Employees.ActionOf | website/cgi-bin/employee_admin_api.py:205-222 | a PUT is a password reset iff the action is `reset_password` |
| Employees.Create | website/cgi-bin/employee_admin_api.py:182-199 | full name, username and password are required, then the add decides |
| Employees.Edit | website/cgi-bin/employee_admin_api.py:222-255 | a reset needs a password and succeeds iff the id exists; an update needs full name and username and succeeds iff a row was rewritten |
| Employees.Remove | website/cgi-bin/employee_admin_api.py:257-276 | a delete needs a valid id and succeeds iff that employee existed, removing exactly it |
| Employees.Handle | website/cgi-bin/employee_admin_api.py:160-286 | each verb's branch; only a success changes the staff, and usernames and emails stay unique |
| Profiles.SavePictureAsWritten | website/cgi-bin/employee_profile_api.py:30-48 | as written, no picture is ever saved: a missing name and a bad type are refused, and an accepted type raises |
| Profiles.SavePicture | website/cgi-bin/employee_profile_api.py:30-48 | with `uuid` imported, a picture is saved iff its type is allowed, at `/uploads/employee_profiles/<token><ext>` |
| Profiles.UpdateBasicInfo | website/cgi-bin/employee_profile_api.py:67-100 | false iff no row has the id; an email taken by another employee is reported; success rewrites that row only, keeping emails unique |
| Profiles.RemoveOldPicture | website/cgi-bin/employee_profile_api.py:199-206 | the old picture is removed only when it lies under `/uploads/employee_profiles/` and can be removed |
| Profiles.GetProfile | website/cgi-bin/employee_profile_api.py:50-65 | the profile is the row's columns without the password, or nothing exactly when the id is unknown |
| Profiles.ChosenPicture | website/cgi-bin/employee_profile_api.py:187-208 | a saved upload wins; otherwise the escaped URL field when sent; otherwise the column is not written |
| Profiles.PictureStep | website/cgi-bin/employee_profile_api.py:187-206 | with no upload nothing changes; a refused or raising save ends the request; a saved one adds the file and removes the old managed one |
| Profiles.Put | website/cgi-bin/employee_profile_api.py:174-221 | the upload step runs before the required check on full name and email, then the update decides |
| Profiles.Handle | website/cgi-bin/employee_profile_api.py:116-230 | the id is required and must parse; a PUT with a parsed id is the update branch for that employee with the picture save chosen; only a successful PUT changes the staff |
| Profiles.AcceptedPictureFails | website/cgi-bin/employee_profile_api.py:35-39 | as written, every upload of an allowed picture ends in the generic error with nothing changed |
| Profiles.IntendedPictureReplaces | website/cgi-bin/employee_profile_api.py:187-219 | with `uuid` imported, an upload for an existing employee records the new file and removes exactly the old managed one |
| Profiles.RefusedUpdateStillRemovesOld | website/cgi-bin/employee_profile_api.py:199-213 | with `uuid` imported, a PUT with a picture but an empty name is refused, yet the old managed picture is already deleted |

## Left out

- SQLite itself is not modelled: connections, commits, rollbacks and the CGI environment, stdin/stdout, CORS headers and JSON printing. Tables are sequences of rows and replies are datatypes.
- Most database errors that the scripts catch and report with `str(e)` are modelled as a failure flag or an error-detail parameter. The text of SQLite's messages is not modelled, except the `employees` UNIQUE violations, where SQLite names one constraint per error and checks the `email` index before the `username` one.
- Attendance.PunchIn: the `except Exception` branch (`attendance_api.py:51-53`) is not modelled; the SELECT before the INSERT already refuses a second punch-in, so only an I/O failure of SQLite reaches it.
- Attendance.PunchOut: the `except Exception` branch (`attendance_api.py:83-85`) is not modelled, for the same reason.
- Leave.AddLeaveRequest: the `except Exception` branch (`leave_api.py:59-61`) is not modelled; only an I/O failure of SQLite reaches it.
- `urllib.parse.parse_qs` is not modelled; the URL-encoded form it yields is a parameter. Only the first value of each key is kept, which is what every script reads. The same holds for `cgi.FieldStorage` forms. Multi-valued `getvalue` results are not modelled.
- `cgi.FieldStorage` truth tests on file parts are read as intended, "an upload with a file name was sent", everywhere except `Handbook.PostAsWritten`. In Python, `bool()` of a file part raises `TypeError`. As written, every request carrying a file therefore ends in an error with nothing stored. This affects `employee_documents_api.py:20,175`, `handbook_api.py:145`, `employee_admin_api.py:34,62,96`, `employee_profile_api.py:32,187` and `submit_contact.py:45,105`. See Findings.
- Multipart.FormData: multipart bodies are read by the corrected reader `Multipart.Decode`, not by the reader as written (`Parse(…, 0)`), so the marketing endpoints are modelled as they evidently intend. As written every multipart value carries its header (see Findings).
- Documents.Sanitize: only ASCII letters and digits are kept. Python's `str.isalnum` also keeps other Unicode letters and digits, so `"Café"` is `"Café"` there but `"Caf_"` here.
- Text.Lower: only ASCII letters are lower-cased. Python's `str.lower` also lower-cases other letters and can lengthen a string (`"İ"` becomes two characters); every extension allow-list it is compared against is ASCII.
- `Text.ParseInt`: underscores between digits and non-ASCII digits, both of which Python's `int()` accepts, are not modelled.
- Ties in `ORDER BY timestamp DESC`, `uploaded_at DESC`, `requested_at DESC` and `full_name` are not modelled. The listing contracts state the order and the contents, not SQLite's tie-break.
- The admin credentials, hard-coded in `auth_api.py`, are a parameter map.
- bcrypt hashing (`employee_admin_api.py:26-30`) is a parameter: the new hash is passed in.
- `uuid`, `datetime.now()`, `date.today()` and `strptime` are parameters; date parsing is `string -> Option<Date>`.
- Dashboard.TruncateText: lengths are counted in characters rather than JavaScript's UTF-16 code units. A negative `maxLength` and falsy non-string values such as `0` are not modelled.
- Dashboard.EditCareer: states the edit for any endpoint path without `?`, which includes the careers script's own path.
- Dashboard: the request a delete button sends has no contract of its own; DeleteSendsId states it.
- The punch-in check-then-insert race (`attendance_api.py:38-47`) is not modelled, nor is any other concurrency. Requests are sequential.
- Foreign keys are not modelled. SQLite leaves them unenforced by default, so deleting an employee does not cascade, and the model does not cascade either.
- `add_resource` in `submit_contact.py:69-87` is not modelled; `main` never calls it.
- `website/assets/js/background.js`, `main.js` and the DOM rendering in `dashboard.js` are not modelled: they are animation and UI plumbing.
- `website/server.py`, `logger_config.py`, `tasks_api.py` and `employee_auth_api.py` are not modelled. They are a CGI shim, logging set-up, a single SELECT, and a bcrypt check around one SELECT.
- `handbook_api.py:155-158` uses `traceback` before importing it. Any upload failure other than `ValueError` therefore ends in the outer handler's generic error, and the model takes that path.

## Findings

| source | as written | input that shows it | evidently intended | confidence | as-written member | corrected member |
|---|---|---|---|---|---|---|
| website/cgi-bin/careers_api.py:140-146 | the search for the blank line before a field's value starts at `lines[0]`, which is always empty after the delimiter's line end, so the value includes the `Content-Disposition` line | a browser-rendered field `title` = `Engineer` is read as `Content-Disposition: form-data; name="title"` followed by a blank line and `Engineer` | the value is the text after the header's blank line, `Engineer` | not executed | Multipart.AsWrittenKeepsHeader | Multipart.PartRoundTrip |
| website/cgi-bin/handbook_api.py:145 | `not file_item` calls `cgi.FieldStorage.__bool__`, which raises `TypeError` for a file part, so the POST reaches the outer handler; the same test guards the uploads of the documents, admin, profile and resource scripts | a POST of `handbook.pdf` as `handbook_file` | a named file part is stored and replaces the handbook | not executed | Handbook.UploadAsWrittenFails | Handbook.PostHandbook |
| website/cgi-bin/employee_profile_api.py:35-39 | `uuid.uuid4()` is called but `uuid` is never imported, so saving an accepted picture raises `NameError` and the PUT ends in the generic error | a PUT with a `.png` profile picture for an existing employee | the picture is saved under `/uploads/employee_profiles/` and replaces the old one | not executed | Profiles.AcceptedPictureFails | Profiles.IntendedPictureReplaces |
