/** One portal check cycle: log in, check attendance and results against the
    stored snapshots, send one combined notice, and advance the snapshots. */
module Monitor {
  import opened Wrappers
  import opened Changes
  import Parser

  /** What a state file holds: nothing yet, JSON that fails to parse, or a snapshot. */
  datatype Stored = Missing | Corrupt | Saved(records: Snapshot)

  /** `_load_state`: a missing or corrupt file reads as the empty snapshot. */
  function LoadState(s: Stored): Snapshot {
    if s.Saved? then s.records else []
  }

  /** What fetching a portal page gave: a network error, or the page's table rows
      (`None` when the page has no such table). */
  datatype Fetch = FetchError | Page(table: Option<seq<Parser.Row>>)

  /** The records a fetch yields, or `None` when fetching or parsing failed. */
  function Current(dom: Domain, page: Fetch): Option<Snapshot> {
    match page
    case FetchError => None
    case Page(table) =>
      var p := if dom == Results then Parser.ParseResultsSpec(table) else Parser.ParseAttendanceSpec(table);
      if p.Parsed? then Some(p.records) else None
  }

  function Detect(dom: Domain, previous: Snapshot, current: Snapshot): seq<Entry> {
    if dom == Results then ResultChanges(previous, current) else AttendanceChanges(previous, current)
  }

  /** What `check_attendance` / `check_results` return: the changes and the current records. */
  datatype Check = Check(changes: seq<Entry>, records: Option<Snapshot>)

  /** One `check_*` call: its result, and what the domain's state file holds afterwards.
      Only the first run (empty baseline) writes the file here. */
  function CheckDomain(dom: Domain, stored: Stored, page: Fetch): (Check, Stored) {
    match Current(dom, page)
    case None => (Check([], None), stored)
    case Some(records) =>
      var previous := LoadState(stored);
      if previous == [] then (Check([], Some(records)), Saved(records))
      else (Check(Detect(dom, previous, records), Some(records)), stored)
  }

  /** The file after a successful notice: rewritten only for a domain that reported changes. */
  function Advance(c: Check, s: Stored): Stored {
    if c.changes != [] && c.records.Some? then Saved(c.records.value) else s
  }

  /** The combined notice `perform_check` tries to send. */
  datatype Notice = Notice(attendance: seq<Entry>, results: seq<Entry>)

  /** The two state files. */
  datatype Files = Files(attendance: Stored, results: Stored)

  /** A run: the notice it tried to send, if any, and the files it leaves. */
  datatype Run = Run(notice: Option<Notice>, files: Files)

  /** `perform_check`, with login, the two page fetches and the notice's delivery as inputs. */
  function Cycle(files: Files, loginOk: bool, attendancePage: Fetch, resultPage: Fetch, notifyOk: bool): Run {
    if !loginOk then Run(None, files)
    else
      var (a, attendance) := CheckDomain(Attendance, files.attendance, attendancePage);
      var (r, results) := CheckDomain(Results, files.results, resultPage);
      if a.changes == [] && r.changes == [] then Run(None, Files(attendance, results))
      else if !notifyOk then Run(Some(Notice(a.changes, r.changes)), Files(attendance, results))
      else Run(Some(Notice(a.changes, r.changes)), Files(Advance(a, attendance), Advance(r, results)))
  }

  /** The two state files as fields, rewritten by the check cycle. */
  class StateFiles {
    var attendance: Stored
    var results: Stored

    constructor(attendance: Stored, results: Stored)
      ensures this.attendance == attendance && this.results == results
    {
      this.attendance := attendance;
      this.results := results;
    }

    /** Fetches and parses one domain's page. */
    static method ReadPage(dom: Domain, page: Fetch) returns (current: Option<Snapshot>)
      ensures current == Current(dom, page)
    {
      if page.FetchError? {
        return None;
      }
      var p;
      if dom == Results {
        p := Parser.ParseResults(page.table);
      } else {
        p := Parser.ParseAttendance(page.table);
      }
      if p.Parsed? {
        current := Some(p.records);
      } else {
        current := None;
      }
    }

    /** `check_attendance`. */
    method CheckAttendance(page: Fetch) returns (c: Check)
      modifies this
      ensures (c, attendance) == CheckDomain(Attendance, old(attendance), page)
      ensures results == old(results)
    {
      var current := ReadPage(Attendance, page);
      if current.None? {
        return Check([], None);
      }
      var records := current.value;
      var previous := LoadState(attendance);
      if previous == [] {
        attendance := Saved(records);
        return Check([], Some(records));
      }
      var changes := DetectAttendanceChanges(previous, records);
      c := Check(changes, Some(records));
    }

    /** `check_results`. */
    method CheckResults(page: Fetch) returns (c: Check)
      modifies this
      ensures (c, results) == CheckDomain(Results, old(results), page)
      ensures attendance == old(attendance)
    {
      var current := ReadPage(Results, page);
      if current.None? {
        return Check([], None);
      }
      var records := current.value;
      var previous := LoadState(results);
      if previous == [] {
        results := Saved(records);
        return Check([], Some(records));
      }
      var changes := DetectResultChanges(previous, records);
      c := Check(changes, Some(records));
    }

    /** `perform_check`: returns the notice it tried to send. */
    method PerformCheck(loginOk: bool, attendancePage: Fetch, resultPage: Fetch, notifyOk: bool)
      returns (notice: Option<Notice>)
      modifies this
      ensures Run(notice, Files(attendance, results))
        == Cycle(Files(old(attendance), old(results)), loginOk, attendancePage, resultPage, notifyOk)
    {
      if !loginOk {
        return None;
      }
      var a := CheckAttendance(attendancePage);
      var r := CheckResults(resultPage);
      if a.changes == [] && r.changes == [] {
        return None;
      }
      notice := Some(Notice(a.changes, r.changes));
      if !notifyOk {
        return;
      }
      if a.changes != [] && a.records.Some? {
        attendance := Saved(a.records.value);
      }
      if r.changes != [] && r.records.Some? {
        results := Saved(r.records.value);
      }
    }
  }

  function FilesOf(dom: Domain, files: Files): Stored {
    if dom == Results then files.results else files.attendance
  }

  function PageOf(dom: Domain, attendancePage: Fetch, resultPage: Fetch): Fetch {
    if dom == Results then resultPage else attendancePage
  }

  function ChangesOf(dom: Domain, n: Notice): seq<Entry> {
    if dom == Results then n.results else n.attendance
  }

  /** A file that is either left alone or, on a first run, receives the fetched baseline. */
  predicate BaselineOnly(dom: Domain, before: Stored, page: Fetch, after: Stored) {
    after == before || (LoadState(before) == [] && Current(dom, page).Some? && after == Saved(Current(dom, page).value))
  }

  /** The write rules of one cycle:
      a failed login touches nothing; without a delivered notice only first-run
      baselines are written; a notice is sent only when some domain changed; after a
      delivered notice exactly the domains that reported changes hold the fetched
      records. */
  lemma CycleWrites(files: Files, loginOk: bool, attendancePage: Fetch, resultPage: Fetch, notifyOk: bool, dom: Domain)
    ensures var run := Cycle(files, loginOk, attendancePage, resultPage, notifyOk);
      var before := FilesOf(dom, files);
      var after := FilesOf(dom, run.files);
      var page := PageOf(dom, attendancePage, resultPage);
      && (!loginOk ==> run == Run(None, files))
      && (run.notice.None? || !notifyOk ==> BaselineOnly(dom, before, page, after))
      && (run.notice.Some? ==> run.notice.value.attendance != [] || run.notice.value.results != [])
      && (loginOk ==>
            var a := CheckDomain(Attendance, files.attendance, attendancePage).0;
            var r := CheckDomain(Results, files.results, resultPage).0;
            run.notice == if a.changes == [] && r.changes == [] then None else Some(Notice(a.changes, r.changes)))
      && (run.notice.Some? && notifyOk && ChangesOf(dom, run.notice.value) != [] ==>
            Current(dom, page).Some? && after == Saved(Current(dom, page).value))
      && (run.notice.Some? && notifyOk && ChangesOf(dom, run.notice.value) == [] ==>
            BaselineOnly(dom, before, page, after))
  {
    var page := PageOf(dom, attendancePage, resultPage);
    var (c, s) := CheckDomain(dom, FilesOf(dom, files), page);
    assert c.changes != [] ==> c.records == Current(dom, page) && c.records.Some?;
    assert BaselineOnly(dom, FilesOf(dom, files), page, s);
  }

  /** With no usable baseline in either file, a cycle sends no change notice and stores
      every snapshot it could fetch. */
  lemma FirstRunIsSilent(files: Files, attendancePage: Fetch, resultPage: Fetch, notifyOk: bool)
    requires LoadState(files.attendance) == [] && LoadState(files.results) == []
    ensures var run := Cycle(files, true, attendancePage, resultPage, notifyOk);
      && run.notice == None
      && run.files.attendance == (match Current(Attendance, attendancePage)
                                  case None => files.attendance
                                  case Some(records) => Saved(records))
      && run.files.results == (match Current(Results, resultPage)
                               case None => files.results
                               case Some(records) => Saved(records))
  {
  }

  /** Checking a domain a second time against the file the first check left
      reports nothing and leaves the file as it is, unless the first check
      reported changes (which only a delivered notice stores). */
  lemma CheckAgainIsQuiet(dom: Domain, stored: Stored, page: Fetch)
    requires CheckDomain(dom, stored, page).0.changes == []
    ensures var after := CheckDomain(dom, stored, page).1;
      CheckDomain(dom, after, page) == (Check([], Current(dom, page)), after)
  {
    var after := CheckDomain(dom, stored, page).1;
    match Current(dom, page)
    case None =>
    case Some(records) =>
      if LoadState(stored) == [] {
        SelfDiffIsEmpty(records);
        if records != [] {
          assert LoadState(after) == records;
        }
      }
  }

  /** A domain whose changes were delivered and stored reports nothing next time. */
  lemma AdvancedIsQuiet(dom: Domain, stored: Stored, page: Fetch)
    requires CheckDomain(dom, stored, page).0.changes != []
    ensures var after := Advance(CheckDomain(dom, stored, page).0, CheckDomain(dom, stored, page).1);
      CheckDomain(dom, after, page) == (Check([], Current(dom, page)), after)
  {
    var records := Current(dom, page).value;
    SelfDiffIsEmpty(records);
  }

  /** After a delivered notice, repeating the cycle on the same pages sends no change notice
      and writes nothing. */
  lemma RepeatAfterDeliveryIsQuiet(files: Files, attendancePage: Fetch, resultPage: Fetch, notifyOk: bool)
    ensures var first := Cycle(files, true, attendancePage, resultPage, true);
      Cycle(first.files, true, attendancePage, resultPage, notifyOk) == Run(None, first.files)
  {
    var (a, sa) := CheckDomain(Attendance, files.attendance, attendancePage);
    var (r, sr) := CheckDomain(Results, files.results, resultPage);
    if a.changes == [] {
      CheckAgainIsQuiet(Attendance, files.attendance, attendancePage);
    } else {
      AdvancedIsQuiet(Attendance, files.attendance, attendancePage);
    }
    if r.changes == [] {
      CheckAgainIsQuiet(Results, files.results, resultPage);
    } else {
      AdvancedIsQuiet(Results, files.results, resultPage);
    }
  }

  /** Checking a domain again against the file a check left, when nothing was
      stored for its changes, reports the same changes. */
  lemma CheckAgainRepeats(dom: Domain, stored: Stored, page: Fetch)
    ensures var (c, after) := CheckDomain(dom, stored, page);
      CheckDomain(dom, after, page).0 == c
  {
    match Current(dom, page)
    case None =>
    case Some(records) =>
      if LoadState(stored) == [] {
        SelfDiffIsEmpty(records);
      }
  }

  /** After an undelivered notice nothing was stored for the changes, so the next
      cycle on the same pages tries to send the same notice again. */
  lemma RetryRepeatsNotice(files: Files, attendancePage: Fetch, resultPage: Fetch, notifyOk: bool)
    ensures var first := Cycle(files, true, attendancePage, resultPage, false);
      Cycle(first.files, true, attendancePage, resultPage, notifyOk).notice == first.notice
  {
    CheckAgainRepeats(Attendance, files.attendance, attendancePage);
    CheckAgainRepeats(Results, files.results, resultPage);
  }
}
