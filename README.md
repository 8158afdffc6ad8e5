# Ecampus-tracker, modelled in Dafny

Ecampus-tracker watches a college e-campus portal for one student. Each run:

1. It logs in. After a successful login it sends a short login-success e-mail, which the model leaves out (see "## Left out").
2. It fetches the attendance and the results pages and parses their HTML tables into records. A record is an ordered dict from field name to cell text.
3. It compares each table with the snapshot stored by an earlier run.
4. If either table changed, it sends one combined e-mail listing the changes.
5. Once that e-mail is delivered, it stores the new snapshot of each table that changed.

On the first run there is no stored snapshot: the fetched tables become the baseline and no change notice is sent. The login-success e-mail still goes out.

The model covers the parts of that cycle that decide what is reported, what is written and what is sent. It is split into these modules:

- `Dicts` (`dicts.dfy`): Python's insertion-ordered `dict`.
  - A `RawDict` holds a key sequence (first-insertion order) and a value map.
  - The subset type `Dict` requires the keys to be distinct and to match the map.
  - `IndexBy` is the dict left by assigning `ks[i] = vs[i]` in turn.
- `Text` (`text.dfy`): the `str` operations the code uses. These are `strip`, `split`, `join`, `replace`, `lower` (on ASCII), `in` and `str(n)`, with Python's whitespace set.
- `Changes` (`changes.dfy`): `detect_result_changes` and `detect_attendance_changes` from `main.py`.
  - Each one has a specification function (`ResultChanges`, `AttendanceChanges`) and the imperative loops of the source, proved equal to it.
  - Lemmas state what a reported entry means, that the reporting is complete, the order of entries, and that a snapshot compared with itself reports nothing.
- `Parser` (`parser.dfy`): `_clean_text`, `_normalize_header`, `parse_results` and `parse_attendance`.
  - A table is the sequence of its rows. A row is its cells, each with its tag (`th`/`td`) and text.
  - Each parser is a method with the source's loops, proved equal to a specification function.
  - The specification functions have lemmas about the error cases and about the records' shape and keys.
- `Notifier` (`notifier.dfy`): `_format_change`, `_format_snapshot_records` and the bodies of the result, attendance and combined update e-mails, as line lists joined and stripped.
- `Login` (`login.py` in the source, `login.dfy` here): `_build_login_url`, the candidate URLs, the GET loop with its 404 fallback, and the test for rejected credentials.
  - The handling of the 404 status is modelled both as written and as corrected; see Findings.
- `Monitor` (`monitor.dfy`): `_load_state`, `check_attendance`, `check_results` and `perform_check`.
  - The two state files are the fields of the class `StateFiles`, and the check methods rewrite them.
  - `Cycle` is the specification of one run. Lemmas about it state:
    - the write rules;
    - that a first run sends no change notice;
    - that repeating a run after a delivered notice sends no change notice and writes nothing;
    - that repeating a run after an undelivered notice sends the same notice again.

Login success, the page fetches and the delivery of an e-mail are inputs to the model (`loginOk`, `Fetch`, `notifyOk`). The timestamp of an e-mail is a string parameter.

## Model

| member | source | states |
|---|---|---|
| Text.Strip | college_result_notifier/parser.py:14 | `strip()` returns the slice of the input between its leading and trailing whitespace. Everything before and after the slice is whitespace. The result is empty exactly when the input is all whitespace, and otherwise starts and ends with non-whitespace. |
| Text.Split | college_result_notifier/parser.py:21 | `split()` returns whitespace-free, non-empty words. There are none exactly when the text is all whitespace. |
| Dicts.IndexByKeys | main.py:52-57 | A dict filled by `d[k] = v` assignments holds exactly the keys that were assigned. |
| Dicts.IndexByLastWins | main.py:57 | Each key of such a dict holds the value of its last assignment. |
| Dicts.IndexByFirstOrder | main.py:57 | The dict lists its keys in the order of their first assignment, each once. |
| Dicts.IndexByDistinct | main.py:108-115 | With distinct keys, the dict lists them in assignment order, each with its own value. |
| Changes.IndexResults | main.py:51-58 | The loop of `_index_results` builds the index keyed by the semester and course code joined by a spaced vertical bar, then stripped. A missing field reads as "", and a later row with the same key replaces an earlier one. |
| Changes.RecordKey | main.py:90-94 | `_record_key` is the stripped `_key` when that is non-empty, and `row_<index>` when it is blank. Either way it is non-empty and has no surrounding whitespace. |
| Changes.Sanitize | main.py:97-102 | `_sanitize_record` drops `_key` and keeps every other field with its value. |
| Changes.UnionFields | main.py:127 | The compared fields are exactly those of either sanitized record, each listed once. |
| Changes.CompareFieldsMeaning | main.py:75-79 | The field loop records one change per listed field whose old and new values differ, with those values, and no other. With distinct fields, no field is recorded twice. |
| Changes.CollectFieldChanges | main.py:75-79 | The loop that fills `field_changes` computes the field comparison. |
| Changes.DetectResultChanges | main.py:61-87 | The two loops of `detect_result_changes` compute `ResultChanges(previous, current)`. |
| Changes.AttendanceKeyEntries | main.py:120-138 | One pass of the attendance loop gives a `new` entry for an unseen key, an `updated` entry when a field changed, and nothing otherwise. |
| Changes.DetectAttendanceChanges | main.py:105-140 | The loops of `detect_attendance_changes` compute `AttendanceChanges(previous, current)`. |
| Changes.DiffFacts | main.py:69-85 | The diff reports exactly the current keys that are new or changed. Each entry is the `new` or `updated` entry for its key, in the order of the current index, with no key twice. |
| Changes.ComparedResults | main.py:73-85 | For a course on both sides, an update is reported exactly when `grade` or `result` differs. Each of the two fields is named exactly when its value differs, at most once, with its old and new values. |
| Changes.ResultEntriesContent | main.py:61-87 | Every result entry names a current course. It is `new` exactly when the course is absent from the previous snapshot, and then carries the last current row for it. Otherwise it is `updated`, with non-empty changes between the last rows for the course: each of `grade` and `result` is named exactly when it differs, at most once, with its old and new values. |
| Changes.ResultChangesComplete | main.py:69-85 | A current course is reported exactly when it is new, or when its `grade` or `result` differs from the previous snapshot's. |
| Changes.ResultChangesEmptyIff | main.py:61-87 | No result change is reported exactly when every current course was stored before with the same `grade` and `result`. Other fields never matter. |
| Changes.ResultEntriesFollowCurrent | main.py:64-71 | Result entries follow the order in which course keys first appear in the current results, each key at most once. A course that only the previous snapshot holds is never reported. |
| Changes.ComparedAttendance | main.py:124-132 | For a key on both sides, the attendance comparison lists each non-`_key` field whose values differ, with those values. Each such field appears exactly once, and the list is empty exactly when the rows agree on every field except `_key`. |
| Changes.AttendanceEntriesContent | main.py:105-140 | An attendance entry is `new` exactly for a key absent before, and then carries the last current row without `_key`. An `updated` entry lists exactly the differing non-`_key` fields, once each, with their old and new values. |
| Changes.AttendanceChangesComplete | main.py:119-138 | A current attendance key is reported exactly when it is new, or when some field other than `_key` differs. |
| Changes.AttendanceChangesEmptyIff | main.py:105-140 | No attendance change is reported exactly when every current key was stored before with the same content. |
| Changes.AttendanceEntriesFollowCurrent | main.py:108-122 | Attendance entries follow the first occurrence of their `_record_key` keys in the current rows, each key at most once. |
| Changes.SelfDiffIsEmpty | main.py:61-140 | Comparing any snapshot with itself reports nothing, for both detectors. |
| Changes.DisjointResultsAllNew | main.py:69-72 | Against previous results that share no course key, every current row, each with a distinct key, is reported as `new`, in order, carrying the row. |
| Changes.DisjointAttendanceAllNew | main.py:119-123 | Against a previous snapshot that shares no key, every current attendance row is reported `new`, in order, without its `_key`. |
| Changes.GradeChangeReported | main.py:75-85 | A new grade for a stored course yields exactly one `updated` entry with one `grade` change from the old value to the new. |
| Changes.OtherResultFieldIgnored | main.py:31 | A change to a result field other than the key fields, `grade` and `result` (such as the course title or credits) is never reported. |
| Changes.AttendanceSingleFieldChange | main.py:126-138 | Changing one non-`_key` field of a single attendance row yields one `updated` entry naming exactly that field, with its old and new values. |
| Parser.CleanText | college_result_notifier/parser.py:13-14 | A cleaned cell text is empty exactly when the text is all whitespace, and otherwise starts and ends with non-whitespace. It holds no no-break space. |
| Parser.CleanTextIdempotent | college_result_notifier/parser.py:13-14 | Cleaning a cleaned text changes nothing. |
| Parser.SubNonAlnum | college_result_notifier/parser.py:18 | `re.sub(r"[^A-Za-z0-9]+", " ", s)` leaves only ASCII letters, digits and single spaces. It is empty only for an empty input, and it is all spaces when the input has no ASCII letter or digit. |
| Parser.NormalizeHeaderShape | college_result_notifier/parser.py:17-22 | A normalized header is lower-case ASCII letters and digits in words joined by single `_`. A header without an ASCII letter or digit becomes `column`. |
| Parser.NormalizeHeaderIdempotent | college_result_notifier/parser.py:17-22 | Normalizing a normalized header gives it back unchanged. |
| Parser.NormalizedNameFixed | college_result_notifier/parser.py:17-22 | Every name of normalized shape is a fixed point of `_normalize_header`. |
| Parser.DataTexts | college_result_notifier/parser.py:56-59 | Defines a row's data values as the cleaned texts of its `td` cells, in order. Its contract states that there are none exactly when every cell is a `th`, and that there are at most as many as cells. |
| Parser.ResultField | college_result_notifier/parser.py:61-74 | A heading fills a record field exactly when it is one of the expected labels. Each label's field is stated: `semester`, `course code` → `course_code`, `course title` → `course_title`, `credits`, `result`, and `grade`, `grade / remark`, `grade/remark` → `grade`. |
| Parser.HeaderTexts | college_result_notifier/parser.py:35-50 | The result headings are the lower-cased cleaned texts of every cell of the first row, header or data. |
| Parser.ResultRecordColumns | college_result_notifier/parser.py:60-74 | A result record holds exactly the fields named by recognised headings among the zipped columns. Each holds the value of the last such column. |
| Parser.BuildResultRecord | college_result_notifier/parser.py:60-74 | The zip loop builds the record `ResultRecord(headings, values)`. |
| Parser.CollectResultRows | college_result_notifier/parser.py:54-76 | The row loop collects `ResultRows(headings, body)`: one record per body row that has data cells and yields a non-empty record. |
| Parser.ParseResults | college_result_notifier/parser.py:25-81 | `parse_results` computes `ParseResultsSpec(table)`. |
| Parser.ResultRowsShape | college_result_notifier/parser.py:55-76 | Every collected result record is non-empty. It carries only known field names, each with a cleaned value. |
| Parser.ParseResultsOutcome | college_result_notifier/parser.py:25-81 | `TableNotFound` exactly when the table is missing. `EmptyTable` exactly when it has no rows. `UnexpectedHeaders` exactly when no first-row label is expected. `NoRows` exactly when the labels are recognised but no body row has a data cell under a recognised heading, so a table with such a row parses. A successful parse returns between 1 and (rows − 1) well-shaped records. |
| Parser.ResultRecordNonEmpty | college_result_notifier/parser.py:60-76 | A row's record is non-empty exactly when one of its zipped columns sits under a recognised heading. |
| Parser.ResultRowsEmptyIff | college_result_notifier/parser.py:54-79 | No result record is collected exactly when no body row has a zipped column under a recognised heading. |
| Parser.ColumnName | college_result_notifier/parser.py:102 | `column_<k>` is a normalized name and never the bare `column`. |
| Parser.NameColumn | college_result_notifier/parser.py:98-103 | One pass of the header loop names column `index` `AttendanceHeader(text, index)`: the normalized cleaned text, or `Column <index+1>` when blank, with `column` replaced by `column_<index+1>`. |
| Parser.AttendanceHeaderCases | college_result_notifier/parser.py:98-102 | A header cell is named `column_<index+1>` when its cleaned text is blank, when it holds no ASCII letter or digit, and when it normalizes to `column`. Otherwise it is named by its normalized cleaned text. |
| Parser.BlankColumnName | college_result_notifier/parser.py:98-99 | The fallback heading `Column <k>` normalizes to `column_<k>`. |
| Parser.AttendanceHeaderShape | college_result_notifier/parser.py:97-103 | Every attendance column name is a normalized name, and never `column`. |
| Parser.AttendanceHeadersNormalized | college_result_notifier/parser.py:97-103 | All names of the header row are normalized names. |
| Parser.NameColumns | college_result_notifier/parser.py:97-103 | The header loop produces one name per header cell, `AttendanceHeaders(cells)`. |
| Parser.ZipColumns | college_result_notifier/parser.py:111-112 | Assigning `record[name] = value` column by column builds `IndexBy(names, values)`. A repeated name keeps its first position and its last value. |
| Parser.BuildAttendanceRecord | college_result_notifier/parser.py:110-115 | One attendance row builds `AttendanceRecord(headers, values, idx)`. |
| Parser.AppendAttendanceRow | college_result_notifier/parser.py:107-116 | A row without data cells adds nothing. Any other row adds its record, numbered by its position among all body rows. |
| Parser.CollectAttendanceRows | college_result_notifier/parser.py:105-116 | The row loop collects `AttendanceRows(headers, body)`. |
| Parser.ParseAttendance | college_result_notifier/parser.py:84-121 | `parse_attendance` computes `ParseAttendanceSpec(table)`. |
| Parser.AttendanceRecordContent | college_result_notifier/parser.py:110-115 | An attendance record holds the zipped columns, the last value winning for a repeated name, plus `_key`. `_key` is the value stored under the first column's normalized name when that is non-empty, and `row_<idx>` otherwise. |
| Parser.AttendanceKeySource | college_result_notifier/parser.py:113-115 | The `_key` is `row_<idx>` or one of the row's non-empty values. |
| Parser.NoHeaderIsKey | college_result_notifier/parser.py:115 | No normalized column name is `_key`, so `setdefault` always stores the computed key. |
| Parser.AttendanceRecordKey | college_result_notifier/parser.py:113-115 | A parsed row's `_key` is non-empty and has no surrounding whitespace. |
| Parser.AttendanceRowsKeyed | college_result_notifier/parser.py:105-116 | Every collected attendance record carries such a `_key`. |
| Parser.AttendanceRowsEmptyIff | college_result_notifier/parser.py:105-119 | No record is collected exactly when no body row has a data cell. |
| Parser.ParseAttendanceOutcome | college_result_notifier/parser.py:84-121 | `TableNotFound` exactly when the table is missing. `EmptyTable` exactly when it has fewer than two rows. `NoRows` exactly when no body row has a data cell. A successful parse returns between 1 and (rows − 1) records, each keyed so that `_record_key` returns its `_key`. |
| Notifier.FormatChange | notifier.py:16-33 | `_format_change` computes `ChangeText(c, label)`: heading and field lines for `new`/`updated` entries, and `Change detected for <key>: <dict>` otherwise. |
| Notifier.ChangeTextLines | notifier.py:19-32 | When no part holds a line break, the formatted change reads back line by line. The heading `New <label>: <key>` or `Updated <label>: <key>` comes first, then exactly one line per record field or per field change, in order. |
| Notifier.AppendFieldLines | notifier.py:99-103 | The inner snapshot loop adds one `   field: value` line per field, skipping `_key`. |
| Notifier.KeptLinesSkipKey | notifier.py:99-103 | The snapshot field lines are exactly the lines of the record's fields other than `_key`, in record order. |
| Notifier.AppendRecordBlock | notifier.py:95-104 | One record of the snapshot adds its label, its field lines and a blank line. |
| Notifier.FormatSnapshotRecords | notifier.py:93-105 | `_format_snapshot_records` is the stripped join of the record blocks, numbered from 1. |
| Notifier.SnapshotNumbering | notifier.py:95-98 | Record `i` is introduced by label `i+1` (with its `_key`, or the index when absent, if keys are included), right after the lines of the records before it. |
| Notifier.Finish | notifier.py:63 | A body ends in exactly one line break after stripping, and its text neither starts nor ends with whitespace. |
| Notifier.AppendChanges | notifier.py:59-61 | The change loop adds each formatted change followed by a blank line. |
| Notifier.ResultNotificationBody | notifier.py:52-63 | The result e-mail body is the finished title, timestamp, blank line and change blocks. |
| Notifier.AttendanceNotificationBody | notifier.py:77-88 | The attendance e-mail body is the same, with the attendance title and the `attendance entry` label. |
| Notifier.NotificationBodyStart | notifier.py:54-63 | A per-domain body opens with its title and the timestamp line, whatever the changes. |
| Notifier.AppendResultSection | notifier.py:158-165 | The result section is its heading and change blocks, or the "none detected" line and a blank line. |
| Notifier.AppendAttendanceSection | notifier.py:167-173 | The attendance section is its heading and change blocks, or the "none detected" line alone. |
| Notifier.PortalUpdateBody | notifier.py:145-175 | The combined body is the finished title, timestamp, result section and attendance section. |
| Notifier.PortalBodyOrder | notifier.py:152-175 | The combined body opens with the title, the timestamp, the whole result section and then the attendance heading. With no attendance changes, the attendance "none detected" line ends the body. |
| Login.LoginUrlShape | login.py:28-33 | The login URL is the base URL alone exactly when the stripped path is only slashes. Otherwise it is the base URL, one `/` and the stripped path without its leading slashes. |
| Login.EmptyOverride | login.py:37 | An empty override path, which is not `None`, gives the base URL. |
| Login.ExplicitIsBase | login.py:38-41 | The configured login URL equals the base URL exactly when the configured path is only slashes after stripping. |
| Login.CandidateList | login.py:37-42 | The candidates are one or two distinct URLs: the base URL first and the configured login URL last. There are two exactly when the configured path is more than slashes. |
| Login.LoginCandidates | login.py:37-42 | The candidate list `authenticate` builds. |
| Login.FetchLoginPage | login.py:46-65 | The GET loop computes `FetchFrom(replies, 0, reading)`. It stops at the first page without an HTTP error, and goes on to the next candidate only after a 404 (as read) that is not the last. |
| Login.CorrectedFallback | login.py:48-65 | With the status read, the login page is found exactly when some candidate serves it after every earlier one answered 404, and it is that candidate's page. |
| Login.AsWrittenTriesOnlyFirst | login.py:56-57 | As written, the outcome depends on the first candidate's reply alone. |
| Login.NotFoundFallbackLost | login.py:56-57 | Base URL answers 404 and the login URL serves the form: as written the login fails, and with the status read it proceeds with the login URL. |
| Login.RejectionRule | login.py:101-102 | The credentials are rejected exactly when the reply contains `Invalid` (case as written) or `alert` in any mix of upper and lower case. |
| Login.Authenticate | login.py:36-102 | `authenticate` succeeds exactly when the GET loop finds a page, the hidden fields are present, the POST answers without an HTTP error, and the reply is not a rejection. |
| Monitor.StateFiles.ReadPage | main.py:156-161 | A fetch error or a parse error yields no records. Otherwise the parsed records are returned. |
| Monitor.StateFiles.CheckAttendance | main.py:151-175 | `check_attendance` computes `CheckDomain(Attendance, …)`. Only a first run with an empty baseline writes the attendance file, and the results file is unchanged. |
| Monitor.StateFiles.CheckResults | main.py:178-202 | `check_results` computes `CheckDomain(Results, …)` and leaves the attendance file unchanged. |
| Monitor.StateFiles.PerformCheck | main.py:205-244 | `perform_check` returns the notice and leaves the files as `Cycle(…)` says. |
| Monitor.CycleWrites | main.py:205-244 | A failed login touches nothing. After a successful login the notice carries exactly the attendance and result changes of this cycle, and there is none when both are empty. Without a delivered notice, only first-run baselines are written. After delivery, exactly the domains that reported changes hold the fetched records. |
| Monitor.FirstRunIsSilent | main.py:163-167 | With no usable baseline (a state file missing or corrupt reads as empty), a run sends no change notice and stores every snapshot it could fetch. |
| Monitor.CheckAgainIsQuiet | main.py:190-199 | When a check reported nothing, checking again against the file it left reports nothing and leaves the file as it is. |
| Monitor.AdvancedIsQuiet | main.py:239-244 | A domain whose changes were delivered and stored reports nothing the next time. |
| Monitor.RepeatAfterDeliveryIsQuiet | main.py:221-244 | After a delivered notice, the same run on the same pages sends no change notice and writes nothing. |
| Monitor.CheckAgainRepeats | main.py:169-175 | Checking again against the file a check left reports the same changes. |
| Monitor.RetryRepeatsNotice | main.py:228-237 | After an undelivered notice, the next run on the same pages tries to send the same notice. |

## Left out

- Network, SMTP, file and clock access are not modelled:
  - The HTTP session, its GET and POST requests and timeouts are not modelled. Their outcomes are inputs: `Fetch` for the portal pages, and `Reply` plus `hiddenFieldsFound` for the login.
  - Sending e-mail (`_send_email`) is not modelled. Delivery is the input `notifyOk`, and the model builds the message bodies only.
  - JSON reading and writing of the state files is not modelled. A state file is `Missing`, `Corrupt` (JSON that fails to parse) or `Saved(records)`, and `_save_state` is assignment to a field of `StateFiles`.
  - A state file that is not valid UTF-8 is not modelled. `_load_state` catches only `json.JSONDecodeError`, so the `UnicodeDecodeError` escapes `perform_check`.
  - A state file holding valid JSON that is not a list of objects is not modelled. `_load_state` returns it to the diffing unchecked.
  - The e-mail timestamp is a string parameter, not `datetime.now()`.
- HTML parsing (BeautifulSoup) is not modelled. A page is modelled as its table, if found, given as rows of tagged cells with their `get_text()` texts. For the login page, only whether the three hidden fields are present is kept; `_extract_hidden_fields` and the POST payload contents are not modelled.
- Some source files are not part of this model: `scheduler.py` (the periodic loop), `config.py` (configuration loading), `scraper.py` (page fetching) and the command-line entry point and logging in `main.py`.
- `send_login_success_email`, `send_snapshot_email` and `send_snapshot`: the login-success e-mail, sent after every successful login (main.py:211), has no effect on the cycle (its failure is only logged), and the snapshot e-mail is a separate command. Only `_format_snapshot_records`, which the snapshot e-mail uses, is modelled.
- `Notifier.FormatChange`:
  - For a change dict of unknown type, the text `Change detected for <key>: <dict>` is modelled with the dict's Python `repr` given as a parameter. `repr` is not modelled.
  - `_format_change` receives the entries the detectors build. Dicts of other shapes (missing `old`/`new` keys) are not modelled.
- `Changes.DetectAttendanceChanges`: the source iterates over a Python `set` of field names, so the order of field changes within an `updated` entry depends on string hashing. The model fixes one order: the new record's fields, then fields only in the old record. Every contract speaks of the fields as a set (each reported once, exactly the differing ones), not of their order.
- `str()` coercion of stored values: records are modelled as string-to-string dicts, as the parser produces them. A state file edited to hold non-string values is not modelled.
- `Text.Lower`: `str.lower()` is modelled on ASCII letters only. Every comparison made with it (the expected result labels and `alert`) involves ASCII text only, but a non-ASCII letter that Python would lower-case into one of those is not modelled.
- `Parser.NormalizeHeaderShape`: the `else "column"` branch at the end of `_normalize_header` is unreachable, because after the emptiness test the text always has a word. The model has no such branch.
- `Login.Authenticate`: the URL and `Referer` of the POST are not modelled. Only its status and text decide the outcome.

## Findings

| source | as written | input that shows it | evidently intended | confidence | as-written member | corrected member |
|---|---|---|---|---|---|---|
| login.py:56 | `exc.response.status_code if exc.response else None`. A `requests.Response` is truthy only when its status is below 400, so for every HTTP error the status is read as `None` and the 404 test on line 57 never holds. | Base URL answers 404 and the configured login URL answers 200 with the form: the login fails on the first candidate. | Read the status whenever a response exists (`exc.response is not None`), so a 404 moves on to the next candidate. | not executed | Login.NotFoundFallbackLost | Login.CorrectedFallback |

The model keeps both readings through the `Reading` parameter (`AsWritten`, `Corrected`):

- `Login.AsWrittenTriesOnlyFirst` states that, as written, only the first candidate's reply matters.
- `Login.CorrectedFallback` states the fallback behaviour intended by the candidate list.
