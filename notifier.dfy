/** The e-mail texts of notifier.py: one line per change or field, joined with
    line breaks, the whole body stripped and ended by a single line break. */
module Notifier {
  import opened Dicts
  import opened Text
  import opened Changes

  /** A change as `_format_change` receives it: an entry from the change
      detection, or a dict of any other `type` (or none), which is shown as its
      `key` and Python's text of the whole dict. */
  datatype Change = Detected(entry: Entry) | Unrecognised(key: string, shown: string)

  /** `"  {field}: {value}"` for every field of a new record, in record order. */
  function RecordLines(r: Record): (ls: seq<string>)
    ensures |ls| == |r.keys|
  {
    seq(|r.keys|, i requires 0 <= i < |r.keys| => "  " + r.keys[i] + ": " + Field(r, r.keys[i]))
  }

  /** `"  {field}: {old} -> {new}"` for every field change, in order. */
  function FieldChangeLines(cs: seq<FieldChange>): (ls: seq<string>)
    ensures |ls| == |cs|
  {
    seq(|cs|, i requires 0 <= i < |cs| => "  " + cs[i].field + ": " + cs[i].oldValue + " -> " + cs[i].newValue)
  }

  function EntryLines(e: Entry, recordLabel: string): seq<string> {
    match e
    case New(key, record) => ["New " + recordLabel + ": " + key] + RecordLines(record)
    case Updated(key, changes) => ["Updated " + recordLabel + ": " + key] + FieldChangeLines(changes)
  }

  /** `_format_change(change, record_label)`. */
  function ChangeText(c: Change, recordLabel: string): string {
    match c
    case Detected(e) => Join(EntryLines(e, recordLabel), "\n")
    case Unrecognised(key, shown) => "Change detected for " + key + ": " + shown
  }

  method FormatChange(c: Change, recordLabel: string) returns (text: string)
    ensures text == ChangeText(c, recordLabel)
  {
    if c.Unrecognised? {
      return "Change detected for " + c.key + ": " + c.shown;
    }
    var e := c.entry;
    var lines: seq<string>;
    if e.New? {
      var record := e.record;
      lines := ["New " + recordLabel + ": " + e.key];
      var i := 0;
      while i < |record.keys|
        invariant 0 <= i <= |record.keys|
        invariant |lines| == i + 1 && lines[0] == "New " + recordLabel + ": " + e.key
        invariant forall j :: 0 <= j < i ==> lines[j + 1] == RecordLines(record)[j]
      {
        var field := record.keys[i];
        lines := lines + ["  " + field + ": " + record.vals[field]];
        i := i + 1;
      }
      assert lines == EntryLines(e, recordLabel);
    } else {
      var changes := e.changes;
      lines := ["Updated " + recordLabel + ": " + e.key];
      var i := 0;
      while i < |changes|
        invariant 0 <= i <= |changes|
        invariant |lines| == i + 1 && lines[0] == "Updated " + recordLabel + ": " + e.key
        invariant forall j :: 0 <= j < i ==> lines[j + 1] == FieldChangeLines(changes)[j]
      {
        var values := changes[i];
        lines := lines + ["  " + values.field + ": " + values.oldValue + " -> " + values.newValue];
        i := i + 1;
      }
      assert lines == EntryLines(e, recordLabel);
    }
    text := Join(lines, "\n");
  }

  /** No text of the entry (nor the record label) holds a line break. */
  predicate EntryOnOneLine(e: Entry, recordLabel: string) {
    && '\n' !in recordLabel && '\n' !in e.key
    && match e
       case New(_, r) => forall k :: k in r.keys ==> '\n' !in k && '\n' !in Field(r, k)
       case Updated(_, cs) => forall c :: c in cs ==> '\n' !in c.field && '\n' !in c.oldValue && '\n' !in c.newValue
  }

  /** The formatted text of a detected change reads back, line by line, as the
      heading `New <recordLabel>: <key>` or `Updated <recordLabel>: <key>` followed by
      exactly one line per record field or per field change, in order. */
  lemma ChangeTextLines(e: Entry, recordLabel: string)
    requires EntryOnOneLine(e, recordLabel)
    ensures var ls := SplitLines(ChangeText(Detected(e), recordLabel));
      && ls == EntryLines(e, recordLabel)
      && ls[0] == (if e.New? then "New " else "Updated ") + recordLabel + ": " + e.key
      && |ls| == 1 + (if e.New? then |e.record.keys| else |e.changes|)
  {
    var ls := EntryLines(e, recordLabel);
    forall l | l in ls ensures '\n' !in l {
      var i :| 0 <= i < |ls| && ls[i] == l;
      if i > 0 {
        match e
        case New(_, r) =>
          assert r.keys[i - 1] in r.keys;
        case Updated(_, cs) =>
          assert cs[i - 1] in cs;
      }
    }
    SplitLinesJoin(ls);
  }

  // ----- _format_snapshot_records -----

  /** `"   {field}: {value}"` for the fields among `keys`, skipping `_key`. */
  function KeptLines(r: Record, keys: seq<string>): seq<string>
    decreases |keys|
  {
    if keys == [] then []
    else
      var n := |keys| - 1;
      KeptLines(r, keys[..n]) + if keys[n] == KeyField then [] else ["   " + keys[n] + ": " + Field(r, keys[n])]
  }

  /** `f"{index}."`, or `f"{index}. ({key})"` with the record's `_key`, or the index when it has none. */
  function SnapshotLabel(r: Record, index: nat, includeKey: bool): string {
    var key := Get(r, KeyField, NatToString(index));
    if !includeKey then NatToString(index) + "." else NatToString(index) + ". (" + key + ")"
  }

  function RecordBlock(r: Record, index: nat, includeKey: bool): seq<string> {
    [SnapshotLabel(r, index, includeKey)] + KeptLines(r, r.keys) + [""]
  }

  /** The lines of `_format_snapshot_records`, before joining: records numbered from 1. */
  function SnapshotLines(records: Snapshot, includeKey: bool): seq<string>
    decreases |records|
  {
    if records == [] then []
    else
      var n := |records| - 1;
      SnapshotLines(records[..n], includeKey) + RecordBlock(records[n], n + 1, includeKey)
  }

  /** `_format_snapshot_records(records, include_key=includeKey)`. */
  method FormatSnapshotRecords(records: Snapshot, includeKey: bool) returns (text: string)
    ensures text == Strip(Join(SnapshotLines(records, includeKey), "\n"))
  {
    var lines: seq<string> := [];
    var i := 0;
    while i < |records|
      invariant 0 <= i <= |records|
      invariant lines == SnapshotLines(records[..i], includeKey)
    {
      lines := AppendRecordBlock(lines, records[i], i + 1, includeKey);
      SnapshotLinesSnoc(records, i, includeKey);
      i := i + 1;
    }
    assert records[..i] == records;
    text := Strip(Join(lines, "\n"));
  }

  /** The body of the loop of `_format_snapshot_records` for the record numbered `index`. */
  method AppendRecordBlock(lines: seq<string>, record: Record, index: nat, includeKey: bool) returns (out: seq<string>)
    ensures out == lines + RecordBlock(record, index, includeKey)
  {
    var key := Get(record, KeyField, NatToString(index));
    var heading := if !includeKey then NatToString(index) + "." else NatToString(index) + ". (" + key + ")";
    out := AppendFieldLines(lines + [heading], record);
    out := out + [""];
  }

  lemma SnapshotLinesSnoc(records: Snapshot, i: nat, includeKey: bool)
    requires i < |records|
    ensures SnapshotLines(records[..i + 1], includeKey) == SnapshotLines(records[..i], includeKey) + RecordBlock(records[i], i + 1, includeKey)
  {
    assert records[..i + 1][..i] == records[..i];
  }

  /** The inner loop of `_format_snapshot_records`: one line per field but `_key`. */
  method AppendFieldLines(lines: seq<string>, record: Record) returns (out: seq<string>)
    ensures out == lines + KeptLines(record, record.keys)
  {
    out := lines;
    var j := 0;
    while j < |record.keys|
      invariant 0 <= j <= |record.keys|
      invariant out == lines + KeptLines(record, record.keys[..j])
    {
      var field := record.keys[j];
      if field != KeyField {
        out := out + ["   " + field + ": " + record.vals[field]];
      }
      assert record.keys[..j + 1][..j] == record.keys[..j];
      j := j + 1;
    }
    assert record.keys[..j] == record.keys;
  }

  /** `"   {field}: {value}"` for each of `fields`. */
  function FieldLines(r: Record, fields: seq<string>): (ls: seq<string>)
    ensures |ls| == |fields|
  {
    seq(|fields|, i requires 0 <= i < |fields| => "   " + fields[i] + ": " + Field(r, fields[i]))
  }

  lemma {:induction false} WithoutSnoc(ks: seq<string>, x: string, k: string)
    ensures Without(ks + [x], k) == Without(ks, k) + (if x == k then [] else [x])
    decreases |ks|
  {
    if ks == [] {
      assert ([x])[1..] == [];
    } else {
      assert (ks + [x])[1..] == ks[1..] + [x];
      WithoutSnoc(ks[1..], x, k);
    }
  }

  /** A snapshot record lists one line for each of its fields but `_key`, in
      record order, and none for `_key`. */
  lemma {:induction false} KeptLinesSkipKey(r: Record, keys: seq<string>)
    ensures KeptLines(r, keys) == FieldLines(r, Without(keys, KeyField))
    ensures KeyField !in Without(keys, KeyField)
    decreases |keys|
  {
    if keys != [] {
      var n := |keys| - 1;
      KeptLinesSkipKey(r, keys[..n]);
      WithoutSnoc(keys[..n], keys[n], KeyField);
      assert keys == keys[..n] + [keys[n]];
    }
  }

  /** The lines of a shorter snapshot begin the lines of a longer one. */
  lemma {:induction false} SnapshotLinesPrefix(records: Snapshot, m: nat, includeKey: bool)
    requires m <= |records|
    ensures var pre := SnapshotLines(records[..m], includeKey);
      |pre| <= |SnapshotLines(records, includeKey)| && SnapshotLines(records, includeKey)[..|pre|] == pre
    decreases |records| - m
  {
    if m < |records| {
      var n := |records| - 1;
      assert records[..n][..m] == records[..m];
      SnapshotLinesPrefix(records[..n], m, includeKey);
    } else {
      assert records[..m] == records;
    }
  }

  /** Record `i` of the snapshot is introduced by the label numbered `i + 1`,
      right after the lines of the records before it. */
  lemma SnapshotNumbering(records: Snapshot, i: nat, includeKey: bool)
    requires i < |records|
    ensures var all := SnapshotLines(records, includeKey);
      var before := |SnapshotLines(records[..i], includeKey)|;
      before < |all| && all[before] == SnapshotLabel(records[i], i + 1, includeKey)
  {
    SnapshotLinesPrefix(records, i + 1, includeKey);
    SnapshotLinesSnoc(records, i, includeKey);
    var all, pre := SnapshotLines(records, includeKey), SnapshotLines(records[..i + 1], includeKey);
    var before := |SnapshotLines(records[..i], includeKey)|;
    assert pre[before] == SnapshotLabel(records[i], i + 1, includeKey);
    assert all[before] == all[..|pre|][before];
  }

  // ----- notification bodies -----

  const ResultTitle: string := "Changes detected in your PSG Tech results."
  const AttendanceTitle: string := "Changes detected in your PSG Tech attendance."
  const PortalTitle: string := "Attendance/results updated."

  function Preamble(title: string, timestamp: string): seq<string> {
    [title, "Timestamp: " + timestamp, ""]
  }

  /** Each change's text followed by a blank line. */
  function ChangeBlock(changes: seq<Change>, recordLabel: string): seq<string>
    decreases |changes|
  {
    if changes == [] then []
    else
      var n := |changes| - 1;
      ChangeBlock(changes[..n], recordLabel) + [ChangeText(changes[n], recordLabel), ""]
  }

  /** `"\n".join(body_lines).strip() + "\n"`: the text, stripped, ending in exactly one line break. */
  function Finish(lines: seq<string>): (body: string)
    ensures |body| >= 1 && body[|body| - 1] == '\n'
    ensures |body| >= 2 ==> !IsSpace(body[|body| - 2])
    ensures |body| >= 2 ==> !IsSpace(body[0])
  {
    Strip(Join(lines, "\n")) + "\n"
  }

  method AppendChanges(lines: seq<string>, changes: seq<Change>, recordLabel: string) returns (out: seq<string>)
    ensures out == lines + ChangeBlock(changes, recordLabel)
  {
    out := lines;
    var i := 0;
    while i < |changes|
      invariant 0 <= i <= |changes|
      invariant out == lines + ChangeBlock(changes[..i], recordLabel)
    {
      var text := FormatChange(changes[i], recordLabel);
      out := out + [text, ""];
      assert changes[..i + 1][..i] == changes[..i];
      i := i + 1;
    }
    assert changes[..i] == changes;
  }

  /** The body of `send_result_notification`. */
  method ResultNotificationBody(timestamp: string, changes: seq<Change>) returns (body: string)
    ensures body == Finish(Preamble(ResultTitle, timestamp) + ChangeBlock(changes, "result"))
  {
    var bodyLines := AppendChanges(Preamble(ResultTitle, timestamp), changes, "result");
    body := Strip(Join(bodyLines, "\n")) + "\n";
  }

  /** The body of `send_attendance_notification`. */
  method AttendanceNotificationBody(timestamp: string, changes: seq<Change>) returns (body: string)
    ensures body == Finish(Preamble(AttendanceTitle, timestamp) + ChangeBlock(changes, "attendance entry"))
  {
    var bodyLines := AppendChanges(Preamble(AttendanceTitle, timestamp), changes, "attendance entry");
    body := Strip(Join(bodyLines, "\n")) + "\n";
  }

  function ResultSection(changes: seq<Change>): seq<string> {
    if changes != [] then ["Result changes:"] + ChangeBlock(changes, "result")
    else ["Result changes: none detected during this run.", ""]
  }

  function AttendanceHeading(changes: seq<Change>): string {
    if changes != [] then "Attendance changes:" else "Attendance changes: none detected during this run."
  }

  function AttendanceSection(changes: seq<Change>): seq<string> {
    [AttendanceHeading(changes)] + ChangeBlock(changes, "attendance entry")
  }

  function PortalLines(timestamp: string, attendanceChanges: seq<Change>, resultChanges: seq<Change>): seq<string> {
    PortalHead(timestamp, resultChanges) + AttendanceSection(attendanceChanges)
  }

  /** The body of `send_portal_update_notification`. */
  method PortalUpdateBody(timestamp: string, attendanceChanges: seq<Change>, resultChanges: seq<Change>)
    returns (body: string)
    ensures body == Finish(PortalLines(timestamp, attendanceChanges, resultChanges))
  {
    var bodyLines := Preamble(PortalTitle, timestamp);
    bodyLines := AppendResultSection(bodyLines, resultChanges);
    bodyLines := AppendAttendanceSection(bodyLines, attendanceChanges);
    assert bodyLines == PortalLines(timestamp, attendanceChanges, resultChanges);
    body := Strip(Join(bodyLines, "\n")) + "\n";
  }

  /** The result section of the combined body: its changes, or the "none detected" line. */
  method AppendResultSection(lines: seq<string>, resultChanges: seq<Change>) returns (out: seq<string>)
    ensures out == lines + ResultSection(resultChanges)
  {
    if resultChanges != [] {
      out := AppendChanges(lines + ["Result changes:"], resultChanges, "result");
    } else {
      out := lines + ["Result changes: none detected during this run.", ""];
    }
  }

  /** The attendance section of the combined body: its changes, or the "none detected" line. */
  method AppendAttendanceSection(lines: seq<string>, attendanceChanges: seq<Change>) returns (out: seq<string>)
    ensures out == lines + AttendanceSection(attendanceChanges)
  {
    if attendanceChanges != [] {
      out := AppendChanges(lines + ["Attendance changes:"], attendanceChanges, "attendance entry");
    } else {
      out := lines + ["Attendance changes: none detected during this run."];
    }
  }

  /** Whatever follows a non-blank first part of the lines, the finished body starts with it. */
  lemma FinishKeepsPrefix(head: seq<string>, rest: seq<string>)
    requires head != []
    requires var p := Join(head, "\n"); p != [] && !IsSpace(p[0]) && !IsSpace(p[|p| - 1])
    ensures StartsWith(Finish(head + rest), Join(head, "\n"))
  {
    var p := Join(head, "\n");
    if rest == [] {
      assert head + rest == head;
      assert p + [] == p;
      StripKeepsPrefix(p, []);
    } else {
      JoinAppend(head, rest, "\n");
      assert Join(head + rest, "\n") == p + ("\n" + Join(rest, "\n"));
      StripKeepsPrefix(p, "\n" + Join(rest, "\n"));
    }
  }

  /** The title and timestamp lines and the result section, as they open the combined body. */
  function PortalHead(timestamp: string, resultChanges: seq<Change>): seq<string> {
    Preamble(PortalTitle, timestamp) + ResultSection(resultChanges)
  }

  lemma PortalHeadEnds(timestamp: string, resultChanges: seq<Change>, h: string)
    requires h != [] && !IsSpace(h[|h| - 1])
    ensures var p := Join(PortalHead(timestamp, resultChanges) + [h], "\n");
      p != [] && !IsSpace(p[0]) && !IsSpace(p[|p| - 1])
  {
    var pre := PortalHead(timestamp, resultChanges);
    JoinSnoc(pre, h, "\n");
    JoinStartsWithFirst(pre, "\n");
    assert pre[0] == PortalTitle;
  }

  /** The combined body opens with the title and timestamp, then the whole result
      section, then the attendance heading; a domain without changes shows its
      "none detected during this run." line, and with no attendance changes that
      line ends the body. */
  lemma PortalBodyOrder(timestamp: string, attendanceChanges: seq<Change>, resultChanges: seq<Change>)
    ensures var body := Finish(PortalLines(timestamp, attendanceChanges, resultChanges));
      var head := PortalHead(timestamp, resultChanges) + [AttendanceHeading(attendanceChanges)];
      && StartsWith(body, Join(head, "\n"))
      && (attendanceChanges == [] ==> body == Join(head, "\n") + "\n")
  {
    var h := AttendanceHeading(attendanceChanges);
    var head := PortalHead(timestamp, resultChanges) + [h];
    var rest := ChangeBlock(attendanceChanges, "attendance entry");
    assert PortalLines(timestamp, attendanceChanges, resultChanges) == head + rest;
    PortalHeadEnds(timestamp, resultChanges, h);
    FinishKeepsPrefix(head, rest);
    if attendanceChanges == [] {
      assert head + rest == head;
      var p := Join(head, "\n");
      assert Strip(p) == p;
    }
  }

  /** A per-domain body opens with its title and the timestamp line, whatever
      the changes. */
  lemma NotificationBodyStart(title: string, timestamp: string, changes: seq<Change>, recordLabel: string)
    requires title != [] && !IsSpace(title[0])
    requires timestamp != [] && !IsSpace(timestamp[|timestamp| - 1])
    ensures StartsWith(Finish(Preamble(title, timestamp) + ChangeBlock(changes, recordLabel)), title + "\nTimestamp: " + timestamp)
  {
    var head := [title, "Timestamp: " + timestamp];
    var rest := [""] + ChangeBlock(changes, recordLabel);
    assert Preamble(title, timestamp) + ChangeBlock(changes, recordLabel) == head + rest;
    TitleLine(title, timestamp);
    FinishKeepsPrefix(head, [""] + ChangeBlock(changes, recordLabel));
  }

  lemma TitleLine(title: string, timestamp: string)
    requires title != [] && !IsSpace(title[0])
    requires timestamp != [] && !IsSpace(timestamp[|timestamp| - 1])
    ensures var p := Join([title, "Timestamp: " + timestamp], "\n");
      p == title + "\nTimestamp: " + timestamp && !IsSpace(p[0]) && !IsSpace(p[|p| - 1])
  {
    var head := [title, "Timestamp: " + timestamp];
    assert head[1..] == ["Timestamp: " + timestamp];
  }
}
