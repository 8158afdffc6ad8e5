/** Change detection between the stored snapshot and a freshly parsed one:
    `detect_result_changes` and `detect_attendance_changes` of main.py. */
module Changes {
  import opened Dicts
  import Text

  /** One parsed table row: field name to cell text, in column order. */
  type Record = Dict<string, string>

  /** All rows of one table, as parsed or as stored. */
  type Snapshot = seq<Record>

  /** `field_changes[field] = {"old": ..., "new": ...}`. */
  datatype FieldChange = FieldChange(field: string, oldValue: string, newValue: string)

  /** `{"type": "new", "key": ..., "new": ...}` or `{"type": "updated", "key": ..., "changes": ...}`. */
  datatype Entry =
    | New(key: string, record: Record)
    | Updated(key: string, changes: seq<FieldChange>)

  /** The two diffed tables. */
  datatype Domain = Results | Attendance

  /** `RESULT_CHECK_FIELDS`: the only result fields that are compared. */
  const ResultCheckFields: seq<string> := ["grade", "result"]

  const KeyField: string := "_key"

  /** `str(record.get(field, ""))`: a missing field reads as the empty string. */
  function Field(r: Record, f: string): string {
    Get(r, f, "")
  }

  function FieldsOf(cs: seq<FieldChange>): (fs: seq<string>)
    ensures |fs| == |cs|
    ensures forall i :: 0 <= i < |cs| ==> fs[i] == cs[i].field
  {
    seq(|cs|, i requires 0 <= i < |cs| => cs[i].field)
  }

  function EntryKeys(es: seq<Entry>): (ks: seq<string>)
    ensures |ks| == |es|
    ensures forall i :: 0 <= i < |es| ==> ks[i] == es[i].key
  {
    seq(|es|, i requires 0 <= i < |es| => es[i].key)
  }

  lemma EntryKeysAppend(a: seq<Entry>, b: seq<Entry>)
    ensures EntryKeys(a + b) == EntryKeys(a) + EntryKeys(b)
  {
  }

  // ----- identity keys and indexes -----

  /** The composite key of a result row (main.py `_index_results`). */
  function ResultKey(r: Record): string {
    Text.Strip(Field(r, "semester") + " | " + Field(r, "course_code"))
  }

  function ResultKeys(s: Snapshot): (ks: seq<string>)
    ensures |ks| == |s|
    ensures forall i :: 0 <= i < |s| ==> ks[i] == ResultKey(s[i])
  {
    seq(|s|, i requires 0 <= i < |s| => ResultKey(s[i]))
  }

  /** `_index_results(s)`: key to the last record carrying that key. */
  function ResultIndex(s: Snapshot): Dict<string, Record> {
    IndexBy(ResultKeys(s), s)
  }

  lemma ResultKeysSnoc(s: Snapshot, i: nat)
    requires i < |s|
    ensures s[..i + 1] == s[..i] + [s[i]]
    ensures ResultKeys(s[..i + 1]) == ResultKeys(s[..i]) + [ResultKey(s[i])]
  {
    assert s[..i + 1] == s[..i] + [s[i]];
  }

  /** `_index_results`: the loop that fills the index one record at a time. */
  method IndexResults(results: Snapshot) returns (indexed: Dict<string, Record>)
    ensures indexed == ResultIndex(results)
  {
    indexed := Empty();
    var i := 0;
    while i < |results|
      invariant 0 <= i <= |results|
      invariant indexed == IndexBy(ResultKeys(results[..i]), results[..i])
    {
      var record := results[i];
      var semester := Field(record, "semester");
      var courseCode := Field(record, "course_code");
      var key := Text.Strip(semester + " | " + courseCode);
      assert key == ResultKey(record);
      ResultKeysSnoc(results, i);
      IndexBySnoc(ResultKeys(results[..i]), results[..i], key, record);
      indexed := Put(indexed, key, record);
      i := i + 1;
    }
    assert results[..i] == results;
  }

  /** `_record_key`: the stripped `_key`, or `row_<index>` when that is blank.
      Either way the key is non-empty and carries no surrounding whitespace. */
  function RecordKey(r: Record, index: nat): (k: string)
    ensures k != [] && Text.Strip(k) == k
    ensures Text.Strip(Field(r, KeyField)) != [] ==> k == Text.Strip(Field(r, KeyField))
    ensures Text.Strip(Field(r, KeyField)) == [] ==> k == "row_" + Text.NatToString(index)
  {
    var key := Text.Strip(Field(r, KeyField));
    Text.StripIdempotent(Field(r, KeyField));
    if key != [] then key
    else
      RowKeyStripped(index);
      "row_" + Text.NatToString(index)
  }

  /** The fallback key `row_<n>` has no surrounding whitespace. */
  lemma RowKeyStripped(index: nat)
    ensures Text.Strip("row_" + Text.NatToString(index)) == "row_" + Text.NatToString(index)
  {
    var digits := Text.NatToString(index);
    var k := "row_" + digits;
    assert k[0] == 'r' && k[|k| - 1] == digits[|digits| - 1];
    assert !Text.IsSpace(k[0]) && !Text.IsSpace(k[|k| - 1]);
  }

  /** `_sanitize_record`: the record without its `_key`; every other field,
      and the order of fields, is kept. */
  function Sanitize(r: Record): (s: Record)
    ensures KeyField !in s.vals
    ensures forall f :: f != KeyField ==> (f in s.vals <==> f in r.vals) && Field(s, f) == Field(r, f)
  {
    Remove(r, KeyField)
  }

  function AttendanceKeys(s: Snapshot): (ks: seq<string>)
    ensures |ks| == |s|
    ensures forall i :: 0 <= i < |s| ==> ks[i] == RecordKey(s[i], i)
  {
    seq(|s|, i requires 0 <= i < |s| => RecordKey(s[i], i))
  }

  /** `{_record_key(record, idx): record for idx, record in enumerate(s)}`. */
  function AttendanceIndex(s: Snapshot): Dict<string, Record> {
    IndexBy(AttendanceKeys(s), s)
  }

  // ----- field comparison -----

  /** The fields of `a` in order, then those only in `b`: the model's order for
      `set(a) | set(b)`. */
  function UnionFields(a: Record, b: Record): (fs: seq<string>)
    ensures forall f :: f in fs <==> f in a.vals || f in b.vals
    ensures Distinct(fs)
  {
    var extra := MissingFrom(b.keys, a);
    forall i, j | 0 <= i < |a.keys| && 0 <= j < |extra| ensures a.keys[i] != extra[j] {
      assert a.keys[i] in a.keys && extra[j] in extra;
    }
    a.keys + extra
  }

  /** The keys of `ks` that `d` lacks, in order. */
  function MissingFrom(ks: seq<string>, d: Record): (r: seq<string>)
    ensures forall f :: f in r <==> f in ks && f !in d.vals
    ensures Distinct(ks) ==> Distinct(r)
  {
    if ks == [] then []
    else
      var rest := MissingFrom(ks[1..], d);
      assert Distinct(ks) ==> Distinct(ks[1..]) && ks[0] !in ks[1..];
      (if ks[0] in d.vals then [] else [ks[0]]) + rest
  }

  /** `cs` holds one change per field of `fields` whose old and new values
      differ, with those values, and no other. */
  predicate ChangesOfFields(fields: seq<string>, o: Record, n: Record, cs: seq<FieldChange>) {
    && (forall c :: c in cs ==>
          c.field in fields && c.oldValue == Field(o, c.field) && c.newValue == Field(n, c.field) && c.oldValue != c.newValue)
    && (forall f :: f in fields ==> (f in FieldsOf(cs) <==> Field(o, f) != Field(n, f)))
    && (Distinct(fields) ==> Distinct(FieldsOf(cs)))
  }

  /** The change, if any, that one field contributes. */
  function FieldDiff(f: string, o: Record, n: Record): seq<FieldChange> {
    if Field(o, f) != Field(n, f) then [FieldChange(f, Field(o, f), Field(n, f))] else []
  }

  /** The `field_changes` that the loop `for field in fields` collects. */
  function CompareFields(fields: seq<string>, o: Record, n: Record): seq<FieldChange>
    decreases |fields|
  {
    if fields == [] then []
    else
      var m := |fields| - 1;
      CompareFields(fields[..m], o, n) + FieldDiff(fields[m], o, n)
  }

  /** The comparison holds one change per listed field whose old and new values
      differ, with those values, and no other. */
  lemma {:induction false} CompareFieldsMeaning(fields: seq<string>, o: Record, n: Record)
    ensures ChangesOfFields(fields, o, n, CompareFields(fields, o, n))
    decreases |fields|
  {
    if fields != [] {
      var m := |fields| - 1;
      CompareFieldsMeaning(fields[..m], o, n);
      CompareFieldsStep(fields, o, n, CompareFields(fields[..m], o, n));
    }
  }

  /** One more field keeps the comparison's promise. */
  lemma CompareFieldsStep(fields: seq<string>, o: Record, n: Record, init: seq<FieldChange>)
    requires fields != []
    requires ChangesOfFields(fields[..|fields| - 1], o, n, init)
    ensures ChangesOfFields(fields, o, n, init + FieldDiff(fields[|fields| - 1], o, n))
  {
    var m := |fields| - 1;
    var f := fields[m];
    var last := FieldDiff(f, o, n);
    assert FieldsOf(init + last) == FieldsOf(init) + FieldsOf(last);
    assert FieldsOf(last) == if Field(o, f) != Field(n, f) then [f] else [];
    StepValues(fields, o, n, init);
    StepFields(fields, o, n, FieldsOf(init), FieldsOf(last));
    StepDistinct(fields, FieldsOf(init), FieldsOf(last));
  }

  lemma StepValues(fields: seq<string>, o: Record, n: Record, init: seq<FieldChange>)
    requires fields != []
    requires forall c :: c in init ==>
      c.field in fields[..|fields| - 1] && c.oldValue == Field(o, c.field) && c.newValue == Field(n, c.field) && c.oldValue != c.newValue
    ensures forall c :: c in init + FieldDiff(fields[|fields| - 1], o, n) ==>
      c.field in fields && c.oldValue == Field(o, c.field) && c.newValue == Field(n, c.field) && c.oldValue != c.newValue
  {
    assert forall g :: g in fields[..|fields| - 1] ==> g in fields;
  }

  lemma StepFields(fields: seq<string>, o: Record, n: Record, prior: seq<string>, last: seq<string>)
    requires fields != []
    requires forall g :: g in fields[..|fields| - 1] ==> (g in prior <==> Field(o, g) != Field(n, g))
    requires forall g :: g in prior ==> g in fields[..|fields| - 1]
    requires var f := fields[|fields| - 1]; last == if Field(o, f) != Field(n, f) then [f] else []
    ensures forall g :: g in fields ==> (g in prior + last <==> Field(o, g) != Field(n, g))
  {
    var m := |fields| - 1;
    assert forall g :: g in fields ==> g in fields[..m] || g == fields[m];
  }

  lemma StepDistinct(fields: seq<string>, prior: seq<string>, last: seq<string>)
    requires fields != []
    requires Distinct(fields[..|fields| - 1]) ==> Distinct(prior)
    requires forall g :: g in prior ==> g in fields[..|fields| - 1]
    requires last == [] || last == [fields[|fields| - 1]]
    ensures Distinct(fields) ==> Distinct(prior + last)
  {
    var m := |fields| - 1;
    if Distinct(fields) && last != [] {
      assert Distinct(fields[..m]);
      assert fields[m] !in prior by {
        assert forall j :: 0 <= j < m ==> fields[..m][j] == fields[j] != fields[m];
      }
      var r := prior + last;
      forall i, j | 0 <= i < j < |r| ensures r[i] != r[j] {
        if j == |prior| {
          assert r[i] in prior;
        }
      }
    }
  }

  /** The field changes reported for one key present on both sides. */
  function Compared(dom: Domain, o: Record, n: Record): seq<FieldChange> {
    match dom
    case Results => CompareFields(ResultCheckFields, o, n)
    case Attendance =>
      var so, sn := Sanitize(o), Sanitize(n);
      CompareFields(UnionFields(sn, so), so, sn)
  }

  /** What a `new` entry carries: the raw result record, or the attendance
      record without its `_key`. */
  function Shown(dom: Domain, r: Record): Record {
    match dom
    case Results => r
    case Attendance => Sanitize(r)
  }

  // ----- the diff -----

  /** A key of the current index gets an entry: it is new, or a compared field changed. */
  predicate Reported(dom: Domain, oldIdx: Dict<string, Record>, newIdx: Dict<string, Record>, k: string)
    requires k in newIdx.vals
  {
    k !in oldIdx.vals || Compared(dom, oldIdx.vals[k], newIdx.vals[k]) != []
  }

  function EntryOf(dom: Domain, oldIdx: Dict<string, Record>, newIdx: Dict<string, Record>, k: string): Entry
    requires k in newIdx.vals
  {
    if k !in oldIdx.vals then New(k, Shown(dom, newIdx.vals[k]))
    else Updated(k, Compared(dom, oldIdx.vals[k], newIdx.vals[k]))
  }

  /** What key `k` adds to the diff: its entry when it is reported, nothing otherwise. */
  function EntriesFor(dom: Domain, oldIdx: Dict<string, Record>, newIdx: Dict<string, Record>, k: string): (es: seq<Entry>)
    requires k in newIdx.vals
    ensures |es| <= 1 && (es != [] <==> Reported(dom, oldIdx, newIdx, k))
    ensures EntryKeys(es) == if Reported(dom, oldIdx, newIdx, k) then [k] else []
  {
    if Reported(dom, oldIdx, newIdx, k) then [EntryOf(dom, oldIdx, newIdx, k)] else []
  }

  /** The entries the loop `for key in keys` appends. */
  function DiffKeys(dom: Domain, oldIdx: Dict<string, Record>, newIdx: Dict<string, Record>, keys: seq<string>): seq<Entry>
    requires forall k :: k in keys ==> k in newIdx.vals
    decreases |keys|
  {
    if keys == [] then []
    else
      var m := |keys| - 1;
      var k := keys[m];
      DiffKeys(dom, oldIdx, newIdx, keys[..m]) + EntriesFor(dom, oldIdx, newIdx, k)
  }

  /** One more key extends the diff by that key's entry, if any. */
  lemma DiffKeysStep(dom: Domain, oldIdx: Dict<string, Record>, newIdx: Dict<string, Record>, keys: seq<string>, i: nat)
    requires forall k :: k in keys ==> k in newIdx.vals
    requires i < |keys|
    ensures DiffKeys(dom, oldIdx, newIdx, keys[..i + 1]) ==
      DiffKeys(dom, oldIdx, newIdx, keys[..i])
      + EntriesFor(dom, oldIdx, newIdx, keys[i])
  {
    assert keys[..i + 1][..i] == keys[..i];
  }

  function Diff(dom: Domain, oldIdx: Dict<string, Record>, newIdx: Dict<string, Record>): seq<Entry> {
    DiffKeys(dom, oldIdx, newIdx, newIdx.keys)
  }

  /** `detect_result_changes(previous, current)`. */
  function ResultChanges(previous: Snapshot, current: Snapshot): seq<Entry> {
    Diff(Results, ResultIndex(previous), ResultIndex(current))
  }

  /** `detect_attendance_changes(previous, current)`. */
  function AttendanceChanges(previous: Snapshot, current: Snapshot): seq<Entry> {
    Diff(Attendance, AttendanceIndex(previous), AttendanceIndex(current))
  }

  // ----- the loops of main.py -----

  /** The inner `for field in fields` loop filling `field_changes`. */
  method CollectFieldChanges(fields: seq<string>, oldRecord: Record, newRecord: Record) returns (fieldChanges: seq<FieldChange>)
    ensures fieldChanges == CompareFields(fields, oldRecord, newRecord)
  {
    fieldChanges := [];
    var j := 0;
    while j < |fields|
      invariant 0 <= j <= |fields|
      invariant fieldChanges == CompareFields(fields[..j], oldRecord, newRecord)
    {
      var field := fields[j];
      var oldValue := Field(oldRecord, field);
      var newValue := Field(newRecord, field);
      CompareFieldsPrefix(fields, oldRecord, newRecord, j);
      if oldValue != newValue {
        fieldChanges := fieldChanges + [FieldChange(field, oldValue, newValue)];
      }
      j := j + 1;
    }
    assert fields[..j] == fields;
  }

  lemma CompareFieldsPrefix(fields: seq<string>, o: Record, n: Record, j: nat)
    requires j < |fields|
    ensures CompareFields(fields[..j + 1], o, n) == CompareFields(fields[..j], o, n) + FieldDiff(fields[j], o, n)
  {
    assert fields[..j + 1][..j] == fields[..j];
  }

  /** `detect_result_changes`. */
  method DetectResultChanges(previous: Snapshot, current: Snapshot) returns (changes: seq<Entry>)
    ensures changes == ResultChanges(previous, current)
  {
    var oldMap := IndexResults(previous);
    var newMap := IndexResults(current);
    changes := [];
    var i := 0;
    while i < |newMap.keys|
      invariant 0 <= i <= |newMap.keys|
      invariant changes == DiffKeys(Results, oldMap, newMap, newMap.keys[..i])
    {
      var key := newMap.keys[i];
      var newRecord := newMap.vals[key];
      DiffKeysStep(Results, oldMap, newMap, newMap.keys, i);
      if key !in oldMap.vals {
        changes := changes + [New(key, newRecord)];
      } else {
        var oldRecord := oldMap.vals[key];
        var fieldChanges := CollectFieldChanges(ResultCheckFields, oldRecord, newRecord);
        if fieldChanges != [] {
          changes := changes + [Updated(key, fieldChanges)];
        }
      }
      i := i + 1;
    }
    assert newMap.keys[..i] == newMap.keys;
  }

  /** `detect_attendance_changes`. */
  method DetectAttendanceChanges(previous: Snapshot, current: Snapshot) returns (changes: seq<Entry>)
    ensures changes == AttendanceChanges(previous, current)
  {
    var oldMap := AttendanceIndex(previous);
    var newMap := AttendanceIndex(current);
    changes := [];
    var i := 0;
    while i < |newMap.keys|
      invariant 0 <= i <= |newMap.keys|
      invariant changes == DiffKeys(Attendance, oldMap, newMap, newMap.keys[..i])
    {
      var key := newMap.keys[i];
      DiffKeysStep(Attendance, oldMap, newMap, newMap.keys, i);
      var entries := AttendanceKeyEntries(oldMap, newMap, key);
      changes := changes + entries;
      i := i + 1;
    }
    assert newMap.keys[..i] == newMap.keys;
  }

  /** One pass of the attendance loop: the entry, if any, for `key`. */
  method AttendanceKeyEntries(oldMap: Dict<string, Record>, newMap: Dict<string, Record>, key: string)
    returns (entries: seq<Entry>)
    requires key in newMap.vals
    ensures entries == EntriesFor(Attendance, oldMap, newMap, key)
  {
    var sanitizedNew := Sanitize(newMap.vals[key]);
    if key !in oldMap.vals {
      return [New(key, sanitizedNew)];
    }
    var sanitizedOld := Sanitize(oldMap.vals[key]);
    var allFields := UnionFields(sanitizedNew, sanitizedOld);
    var fieldChanges := CollectFieldChanges(allFields, sanitizedOld, sanitizedNew);
    if fieldChanges != [] {
      entries := [Updated(key, fieldChanges)];
    } else {
      entries := [];
    }
  }

  // ----- what the diff promises -----

  /** The last key's contribution to the diff, as a list of at most one entry. */
  lemma DiffKeysLast(dom: Domain, oldIdx: Dict<string, Record>, newIdx: Dict<string, Record>, keys: seq<string>)
    requires forall k :: k in keys ==> k in newIdx.vals
    requires keys != []
    ensures var m := |keys| - 1;
      && keys == keys[..m] + [keys[m]]
      && DiffKeys(dom, oldIdx, newIdx, keys) == DiffKeys(dom, oldIdx, newIdx, keys[..m])
           + EntriesFor(dom, oldIdx, newIdx, keys[m])
  {
  }

  /** The diff over a list of current keys reports exactly the keys that are
      new or changed. */
  lemma {:induction false} DiffKeysReportsExactly(dom: Domain, oldIdx: Dict<string, Record>, newIdx: Dict<string, Record>, keys: seq<string>)
    requires forall k :: k in keys ==> k in newIdx.vals
    ensures var r := DiffKeys(dom, oldIdx, newIdx, keys);
      forall k :: k in EntryKeys(r) <==> k in keys && Reported(dom, oldIdx, newIdx, k)
    decreases |keys|
  {
    if keys != [] {
      var m := |keys| - 1;
      var init, k := keys[..m], keys[m];
      DiffKeysLast(dom, oldIdx, newIdx, keys);
      DiffKeysReportsExactly(dom, oldIdx, newIdx, init);
      var p := DiffKeys(dom, oldIdx, newIdx, init);
      var last := EntriesFor(dom, oldIdx, newIdx, k);
      var r := DiffKeys(dom, oldIdx, newIdx, keys);
      EntryKeysAppend(p, last);
      forall x ensures x in EntryKeys(r) <==> x in keys && Reported(dom, oldIdx, newIdx, x) {
        assert x in keys <==> x in init || x == k;
      }
    }
  }

  /** Each reported entry is the one `EntryOf` describes for its key. */
  lemma {:induction false} DiffKeysEntries(dom: Domain, oldIdx: Dict<string, Record>, newIdx: Dict<string, Record>, keys: seq<string>)
    requires forall k :: k in keys ==> k in newIdx.vals
    ensures var r := DiffKeys(dom, oldIdx, newIdx, keys);
      forall e :: e in r ==> e.key in newIdx.vals && Reported(dom, oldIdx, newIdx, e.key) && e == EntryOf(dom, oldIdx, newIdx, e.key)
    decreases |keys|
  {
    if keys != [] {
      var m := |keys| - 1;
      DiffKeysLast(dom, oldIdx, newIdx, keys);
      DiffKeysEntries(dom, oldIdx, newIdx, keys[..m]);
    }
  }

  /** Over distinct keys, entries follow the key order, so no key is reported twice. */
  lemma {:induction false} DiffKeysOrder(dom: Domain, oldIdx: Dict<string, Record>, newIdx: Dict<string, Record>, keys: seq<string>)
    requires forall k :: k in keys ==> k in newIdx.vals
    requires Distinct(keys)
    ensures InFirstOrder(keys, EntryKeys(DiffKeys(dom, oldIdx, newIdx, keys)))
    decreases |keys|
  {
    if keys != [] {
      var m := |keys| - 1;
      var init, k := keys[..m], keys[m];
      DiffKeysLast(dom, oldIdx, newIdx, keys);
      assert Distinct(init);
      assert k !in init by {
        assert forall j :: 0 <= j < m ==> init[j] == keys[j] != k;
      }
      DiffKeysOrder(dom, oldIdx, newIdx, init);
      var p := DiffKeys(dom, oldIdx, newIdx, init);
      var last := EntriesFor(dom, oldIdx, newIdx, k);
      EntryKeysAppend(p, last);
      InFirstOrderSnoc(init, k, EntryKeys(p), EntryKeys(last));
    }
  }

  /** The same facts for the whole current index, in its key order. */
  lemma DiffFacts(dom: Domain, oldIdx: Dict<string, Record>, newIdx: Dict<string, Record>)
    ensures var r := Diff(dom, oldIdx, newIdx);
      forall k :: k in EntryKeys(r) <==> k in newIdx.vals && Reported(dom, oldIdx, newIdx, k)
    ensures var r := Diff(dom, oldIdx, newIdx);
      forall e :: e in r ==> e.key in newIdx.vals && Reported(dom, oldIdx, newIdx, e.key) && e == EntryOf(dom, oldIdx, newIdx, e.key)
    ensures InFirstOrder(newIdx.keys, EntryKeys(Diff(dom, oldIdx, newIdx)))
  {
    DiffKeysReportsExactly(dom, oldIdx, newIdx, newIdx.keys);
    DiffKeysEntries(dom, oldIdx, newIdx, newIdx.keys);
    DiffKeysOrder(dom, oldIdx, newIdx, newIdx.keys);
  }

  /** A record compared with itself shows no field change. */
  lemma ComparedSelf(dom: Domain, r: Record)
    ensures Compared(dom, r, r) == []
  {
    match dom
    case Results => CompareFieldsSelf(ResultCheckFields, r);
    case Attendance => CompareFieldsSelf(UnionFields(Sanitize(r), Sanitize(r)), Sanitize(r));
  }

  lemma {:induction false} CompareFieldsSelf(fields: seq<string>, r: Record)
    ensures CompareFields(fields, r, r) == []
    decreases |fields|
  {
    if fields != [] {
      CompareFieldsSelf(fields[..|fields| - 1], r);
    }
  }

  /** Diffing an index against itself reports nothing. */
  lemma {:induction false} DiffSelf(dom: Domain, idx: Dict<string, Record>)
    ensures Diff(dom, idx, idx) == []
  {
    DiffFacts(dom, idx, idx);
    var r := Diff(dom, idx, idx);
    if r != [] {
      var k := r[0].key;
      assert k in EntryKeys(r);
      ComparedSelf(dom, idx.vals[k]);
      assert false;
    }
  }

  /** For every snapshot S, both detectors report nothing for (S, S). */
  lemma SelfDiffIsEmpty(s: Snapshot)
    ensures ResultChanges(s, s) == []
    ensures AttendanceChanges(s, s) == []
  {
    DiffSelf(Results, ResultIndex(s));
    DiffSelf(Attendance, AttendanceIndex(s));
  }

  // ----- the same promises, stated on snapshots -----

  /** Entries name keys of the current snapshot, no key twice, in order of the
      key's first row in the current snapshot. */
  lemma IndexedDiffOrder(dom: Domain, oks: seq<string>, ovs: Snapshot, ks: seq<string>, vs: Snapshot)
    requires |oks| == |ovs| && |ks| == |vs|
    ensures InFirstOrder(ks, EntryKeys(Diff(dom, IndexBy(oks, ovs), IndexBy(ks, vs))))
  {
    var newIdx := IndexBy(ks, vs);
    DiffFacts(dom, IndexBy(oks, ovs), newIdx);
    IndexByFirstOrder(ks, vs);
    InFirstOrderCompose(ks, newIdx.keys, EntryKeys(Diff(dom, IndexBy(oks, ovs), newIdx)));
  }

  /** `detect_result_changes`: every entry's key is a key of `current` (so a
      course only in `previous` is never reported), and entries follow the order
      in which keys first occur in `current`, each key at most once. */
  lemma ResultEntriesFollowCurrent(previous: Snapshot, current: Snapshot)
    ensures InFirstOrder(ResultKeys(current), EntryKeys(ResultChanges(previous, current)))
  {
    assert ResultChanges(previous, current)
      == Diff(Results, IndexBy(ResultKeys(previous), previous), IndexBy(ResultKeys(current), current));
    IndexedDiffOrder(Results, ResultKeys(previous), previous, ResultKeys(current), current);
  }

  /** `detect_attendance_changes`: the same ordering promise, over `_record_key` keys. */
  lemma AttendanceEntriesFollowCurrent(previous: Snapshot, current: Snapshot)
    ensures InFirstOrder(AttendanceKeys(current), EntryKeys(AttendanceChanges(previous, current)))
  {
    var pk, ck := AttendanceKeys(previous), AttendanceKeys(current);
    assert AttendanceChanges(previous, current) == Diff(Attendance, IndexBy(pk, previous), IndexBy(ck, current));
    IndexedDiffOrder(Attendance, pk, previous, ck, current);
  }

  /** For a key on both sides, the result comparison is non-empty exactly when
      `grade` or `result` differs. */
  lemma ComparedResults(o: Record, n: Record)
    ensures var cs := Compared(Results, o, n);
      && (cs != [] <==> Field(o, "grade") != Field(n, "grade") || Field(o, "result") != Field(n, "result"))
      && (forall f :: f in ResultCheckFields ==> (f in FieldsOf(cs) <==> Field(o, f) != Field(n, f)))
      && Distinct(FieldsOf(cs))
      && forall c :: c in cs ==>
           && (c.field == "grade" || c.field == "result")
           && c.oldValue == Field(o, c.field) && c.newValue == Field(n, c.field) && c.oldValue != c.newValue
  {
    var cs := CompareFields(ResultCheckFields, o, n);
    assert Compared(Results, o, n) == cs;
    CompareFieldsMeaning(ResultCheckFields, o, n);
    assert Distinct(ResultCheckFields);
    assert forall g :: g in ResultCheckFields ==> g == "grade" || g == "result";
    assert "grade" in ResultCheckFields && "result" in ResultCheckFields;
    if cs != [] {
      assert cs[0] in cs;
    }
  }

  /** Result entries: `new` exactly for keys absent from `previous`, carrying the
      last current row with that key as is; `updated` carries only `grade` and
      `result` changes, each between the last rows with that key and with
      differing values. */
  lemma ResultEntriesContent(previous: Snapshot, current: Snapshot)
    ensures var r := ResultChanges(previous, current); var pk, ck := ResultKeys(previous), ResultKeys(current);
      forall e :: e in r ==>
        && e.key in ck
        && (e.New? <==> e.key !in pk)
        && (e.New? ==> e.record == current[LastIndex(ck, e.key)])
        && (e.Updated? ==>
              var o, n := previous[LastIndex(pk, e.key)], current[LastIndex(ck, e.key)];
              && e.changes != []
              && Distinct(FieldsOf(e.changes))
              && (forall f :: f in ResultCheckFields ==> (f in FieldsOf(e.changes) <==> Field(o, f) != Field(n, f)))
              && forall c :: c in e.changes ==>
                   && (c.field == "grade" || c.field == "result")
                   && c.oldValue == Field(o, c.field) && c.newValue == Field(n, c.field)
                   && c.oldValue != c.newValue)
  {
    var pk, ck := ResultKeys(previous), ResultKeys(current);
    var oldIdx, newIdx := ResultIndex(previous), ResultIndex(current);
    var r := ResultChanges(previous, current);
    DiffFacts(Results, oldIdx, newIdx);
    IndexByKeys(pk, previous);
    IndexByKeys(ck, current);
    IndexByLastWins(pk, previous);
    IndexByLastWins(ck, current);
    forall e | e in r
      ensures e.Updated? ==>
        var o, n := oldIdx.vals[e.key], newIdx.vals[e.key];
        && Distinct(FieldsOf(e.changes))
        && (forall f :: f in ResultCheckFields ==> (f in FieldsOf(e.changes) <==> Field(o, f) != Field(n, f)))
        && forall c :: c in e.changes ==>
             && (c.field == "grade" || c.field == "result")
             && c.oldValue == Field(o, c.field) && c.newValue == Field(n, c.field)
             && c.oldValue != c.newValue
    {
      if e.Updated? {
        ComparedResults(oldIdx.vals[e.key], newIdx.vals[e.key]);
      }
    }
  }

  /** A current key is reported exactly when it is new or its `grade` or
      `result` changed. */
  lemma ResultChangesComplete(previous: Snapshot, current: Snapshot)
    ensures var pk, ck := ResultKeys(previous), ResultKeys(current);
      forall k :: k in ck ==>
        (k in EntryKeys(ResultChanges(previous, current)) <==>
          || k !in pk
          || Field(previous[LastIndex(pk, k)], "grade") != Field(current[LastIndex(ck, k)], "grade")
          || Field(previous[LastIndex(pk, k)], "result") != Field(current[LastIndex(ck, k)], "result"))
  {
    var pk, ck := ResultKeys(previous), ResultKeys(current);
    var oldIdx, newIdx := ResultIndex(previous), ResultIndex(current);
    DiffFacts(Results, oldIdx, newIdx);
    IndexByKeys(pk, previous);
    IndexByKeys(ck, current);
    IndexByLastWins(pk, previous);
    IndexByLastWins(ck, current);
    forall k | k in ck && k in pk {
      ComparedResults(oldIdx.vals[k], newIdx.vals[k]);
    }
  }

  /** The result diff is empty exactly when no current key is new and no
      `grade` or `result` changed; other fields (title, credits) never matter. */
  lemma ResultChangesEmptyIff(previous: Snapshot, current: Snapshot)
    ensures var pk, ck := ResultKeys(previous), ResultKeys(current);
      ResultChanges(previous, current) == [] <==>
        forall k :: k in ck ==>
          && k in pk
          && Field(previous[LastIndex(pk, k)], "grade") == Field(current[LastIndex(ck, k)], "grade")
          && Field(previous[LastIndex(pk, k)], "result") == Field(current[LastIndex(ck, k)], "result")
  {
    var r := ResultChanges(previous, current);
    ResultChangesComplete(previous, current);
    ResultEntriesFollowCurrent(previous, current);
    if r != [] {
      assert EntryKeys(r)[0] in EntryKeys(r);
    }
  }

  /** Two attendance rows agree on every field except `_key` (a missing field reads as ""). */
  ghost predicate SameContent(o: Record, n: Record) {
    forall f :: f != KeyField ==> Field(o, f) == Field(n, f)
  }

  /** For a key on both sides, the attendance comparison covers every field of
      either row except `_key`, once each, and lists exactly those that differ. */
  lemma ComparedAttendance(o: Record, n: Record)
    ensures var cs := Compared(Attendance, o, n);
      && Distinct(FieldsOf(cs))
      && (forall c :: c in cs ==>
            && c.field != KeyField
            && c.oldValue == Field(o, c.field) && c.newValue == Field(n, c.field)
            && c.oldValue != c.newValue)
      && (forall f :: f != KeyField ==> (f in FieldsOf(cs) <==> Field(o, f) != Field(n, f)))
      && (cs == [] <==> SameContent(o, n))
  {
    var so, sn := Sanitize(o), Sanitize(n);
    var fields := UnionFields(sn, so);
    var cs := Compared(Attendance, o, n);
    assert cs == CompareFields(fields, so, sn);
    CompareFieldsMeaning(fields, so, sn);
    forall f | f != KeyField ensures f in FieldsOf(cs) <==> Field(o, f) != Field(n, f) {
      if f !in fields {
        assert f !in so.vals && f !in sn.vals;
      }
    }
    if cs != [] {
      assert cs[0] in cs;
      assert cs[0].field != KeyField by {
        assert cs[0].field in fields;
      }
    } else {
      forall f | f != KeyField ensures Field(o, f) == Field(n, f) {
        assert f !in FieldsOf(cs);
      }
    }
  }

  /** Attendance entries: `new` exactly for keys absent from `previous`,
      carrying the last current row with that key without its `_key`;
      `updated` lists, once each, exactly the non-`_key` fields whose values
      differ between the last rows with that key. */
  lemma AttendanceEntriesContent(previous: Snapshot, current: Snapshot)
    ensures var r := AttendanceChanges(previous, current);
      var pk, ck := AttendanceKeys(previous), AttendanceKeys(current);
      forall e :: e in r ==>
        && e.key in ck
        && (e.New? <==> e.key !in pk)
        && (e.New? ==> e.record == Sanitize(current[LastIndex(ck, e.key)]))
        && (e.Updated? ==>
              var o, n := previous[LastIndex(pk, e.key)], current[LastIndex(ck, e.key)];
              && e.changes != []
              && Distinct(FieldsOf(e.changes))
              && (forall c :: c in e.changes ==>
                    c.field != KeyField && c.oldValue == Field(o, c.field) && c.newValue == Field(n, c.field))
              && (forall f :: f != KeyField ==> (f in FieldsOf(e.changes) <==> Field(o, f) != Field(n, f))))
  {
    var pk, ck := AttendanceKeys(previous), AttendanceKeys(current);
    var oldIdx, newIdx := AttendanceIndex(previous), AttendanceIndex(current);
    var r := AttendanceChanges(previous, current);
    DiffFacts(Attendance, oldIdx, newIdx);
    IndexByKeys(pk, previous);
    IndexByKeys(ck, current);
    IndexByLastWins(pk, previous);
    IndexByLastWins(ck, current);
    forall e | e in r && e.Updated?
      ensures var o, n := previous[LastIndex(pk, e.key)], current[LastIndex(ck, e.key)];
        && Distinct(FieldsOf(e.changes))
        && (forall c :: c in e.changes ==>
              c.field != KeyField && c.oldValue == Field(o, c.field) && c.newValue == Field(n, c.field))
        && (forall f :: f != KeyField ==> (f in FieldsOf(e.changes) <==> Field(o, f) != Field(n, f)))
    {
      ComparedAttendance(oldIdx.vals[e.key], newIdx.vals[e.key]);
    }
  }

  /** A current attendance key is reported exactly when it is new or some
      field other than `_key` changed. */
  lemma AttendanceChangesComplete(previous: Snapshot, current: Snapshot)
    ensures var pk, ck := AttendanceKeys(previous), AttendanceKeys(current);
      forall k :: k in ck ==>
        (k in EntryKeys(AttendanceChanges(previous, current)) <==>
          k !in pk || !SameContent(previous[LastIndex(pk, k)], current[LastIndex(ck, k)]))
  {
    var pk, ck := AttendanceKeys(previous), AttendanceKeys(current);
    var oldIdx, newIdx := AttendanceIndex(previous), AttendanceIndex(current);
    DiffFacts(Attendance, oldIdx, newIdx);
    IndexByKeys(pk, previous);
    IndexByKeys(ck, current);
    IndexByLastWins(pk, previous);
    IndexByLastWins(ck, current);
    forall k | k in ck && k in pk {
      ComparedAttendance(oldIdx.vals[k], newIdx.vals[k]);
    }
  }

  /** The attendance diff is empty exactly when every current key was already
      stored with the same content. */
  lemma AttendanceChangesEmptyIff(previous: Snapshot, current: Snapshot)
    ensures var pk, ck := AttendanceKeys(previous), AttendanceKeys(current);
      AttendanceChanges(previous, current) == [] <==>
        forall k :: k in ck ==> k in pk && SameContent(previous[LastIndex(pk, k)], current[LastIndex(ck, k)])
  {
    var r := AttendanceChanges(previous, current);
    AttendanceChangesComplete(previous, current);
    AttendanceEntriesFollowCurrent(previous, current);
    if r != [] {
      assert EntryKeys(r)[0] in EntryKeys(r);
    }
  }

  /** With no key in common, every current key is reported `new`, in index order. */
  lemma {:induction false} DiffKeysAllNew(dom: Domain, oldIdx: Dict<string, Record>, newIdx: Dict<string, Record>, keys: seq<string>)
    requires forall k :: k in keys ==> k in newIdx.vals && k !in oldIdx.vals
    ensures var r := DiffKeys(dom, oldIdx, newIdx, keys);
      |r| == |keys| && forall i :: 0 <= i < |keys| ==> r[i] == New(keys[i], Shown(dom, newIdx.vals[keys[i]]))
    decreases |keys|
  {
    if keys != [] {
      var m := |keys| - 1;
      var k := keys[m];
      assert k in keys && forall x :: x in keys[..m] ==> x in keys;
      DiffKeysAllNew(dom, oldIdx, newIdx, keys[..m]);
      DiffKeysLast(dom, oldIdx, newIdx, keys);
      assert Reported(dom, oldIdx, newIdx, k);
      AllNewSnoc(dom, newIdx, keys, DiffKeys(dom, oldIdx, newIdx, keys[..m]));
    }
  }

  lemma AllNewSnoc(dom: Domain, newIdx: Dict<string, Record>, keys: seq<string>, p: seq<Entry>)
    requires keys != [] && forall k :: k in keys ==> k in newIdx.vals
    requires |p| == |keys| - 1
    requires forall i :: 0 <= i < |keys| - 1 ==> p[i] == New(keys[..|keys| - 1][i], Shown(dom, newIdx.vals[keys[..|keys| - 1][i]]))
    ensures var k := keys[|keys| - 1]; var r := p + [New(k, Shown(dom, newIdx.vals[k]))];
      |r| == |keys| && forall i :: 0 <= i < |keys| ==> r[i] == New(keys[i], Shown(dom, newIdx.vals[keys[i]]))
  {
    var m := |keys| - 1;
    assert forall i :: 0 <= i < m ==> keys[..m][i] == keys[i];
  }

  /** A first comparison against unrelated results (no key in common, each
      course once) reports every current row as `new`, in order. */
  lemma DisjointResultsAllNew(previous: Snapshot, current: Snapshot)
    requires Distinct(ResultKeys(current))
    requires forall k :: k in ResultKeys(current) ==> k !in ResultKeys(previous)
    ensures var r := ResultChanges(previous, current);
      |r| == |current| && forall i :: 0 <= i < |current| ==> r[i] == New(ResultKey(current[i]), current[i])
  {
    var pk, ck := ResultKeys(previous), ResultKeys(current);
    IndexByDistinct(ck, current);
    IndexByKeys(pk, previous);
    DiffKeysAllNew(Results, ResultIndex(previous), ResultIndex(current), ck);
  }

  /** The same for attendance: every current row is `new`, without its `_key`. */
  lemma DisjointAttendanceAllNew(previous: Snapshot, current: Snapshot)
    requires Distinct(AttendanceKeys(current))
    requires forall k :: k in AttendanceKeys(current) ==> k !in AttendanceKeys(previous)
    ensures var r := AttendanceChanges(previous, current);
      |r| == |current| && forall i :: 0 <= i < |current| ==> r[i] == New(RecordKey(current[i], i), Sanitize(current[i]))
  {
    var pk, ck := AttendanceKeys(previous), AttendanceKeys(current);
    IndexByDistinct(ck, current);
    IndexByKeys(pk, previous);
    DiffKeysAllNew(Attendance, AttendanceIndex(previous), AttendanceIndex(current), ck);
  }

  /** Fields that all agree produce no change. */
  lemma {:induction false} CompareFieldsNone(fields: seq<string>, o: Record, n: Record)
    requires forall g :: g in fields ==> Field(o, g) == Field(n, g)
    ensures CompareFields(fields, o, n) == []
    decreases |fields|
  {
    if fields != [] {
      var m := |fields| - 1;
      assert fields[m] in fields && forall g :: g in fields[..m] ==> g in fields;
      CompareFieldsNone(fields[..m], o, n);
      CompareFieldsLast(fields, o, n);
    }
  }

  /** The comparison over a list ends with the comparison of its last field. */
  lemma CompareFieldsLast(fields: seq<string>, o: Record, n: Record)
    requires fields != []
    ensures var m := |fields| - 1; var f := fields[m];
      CompareFields(fields, o, n) == CompareFields(fields[..m], o, n)
        + if Field(o, f) != Field(n, f) then [FieldChange(f, Field(o, f), Field(n, f))] else []
  {
  }

  /** When exactly one listed field differs, the comparison is that one change. */
  lemma {:induction false} CompareFieldsOne(fields: seq<string>, o: Record, n: Record, f: string)
    requires Distinct(fields) && f in fields && Field(o, f) != Field(n, f)
    requires forall g :: g in fields && g != f ==> Field(o, g) == Field(n, g)
    ensures CompareFields(fields, o, n) == [FieldChange(f, Field(o, f), Field(n, f))]
    decreases |fields|
  {
    var m := |fields| - 1;
    var init := fields[..m];
    assert fields == init + [fields[m]];
    assert Distinct(init) && forall g :: g in init ==> g in fields;
    CompareFieldsLast(fields, o, n);
    if fields[m] == f {
      assert f !in init;
      CompareFieldsNone(init, o, n);
    } else {
      assert fields[m] in fields && f in init;
      CompareFieldsOne(init, o, n, f);
    }
  }

  /** Changing one field of a row: the comparison names exactly that field. */
  lemma ComparedSingleField(a: Record, f: string, v: string)
    requires f != KeyField && Field(a, f) != v
    ensures Compared(Attendance, a, Put(a, f, v)) == [FieldChange(f, Field(a, f), v)]
  {
    var b := Put(a, f, v);
    var sa, sb := Sanitize(a), Sanitize(b);
    PutKeepsOtherFields(a, f, v);
    var fields := UnionFields(sb, sa);
    assert f in b.vals;
    CompareFieldsOne(fields, sa, sb, f);
  }

  lemma PutOtherField(a: Record, f: string, v: string, g: string)
    requires g != f
    ensures Field(Put(a, f, v), g) == Field(a, g)
  {
  }

  lemma PutKeepsOtherFields(a: Record, f: string, v: string)
    ensures Field(Put(a, f, v), f) == v
    ensures forall g :: g != f ==> Field(Put(a, f, v), g) == Field(a, g)
  {
  }

  /** A one-row snapshot indexes its row under its key. */
  lemma SingleRowIndex(a: Record)
    ensures AttendanceIndex([a]) == Put(Empty(), RecordKey(a, 0), a)
  {
    var k := RecordKey(a, 0);
    assert AttendanceKeys([a]) == [k];
    assert [k][..0] == [] && [a][..0] == [];
    assert IndexBy([k], [a]) == Put(IndexBy([], []), k, a);
  }

  /** Changing one attendance field of a single row yields one `updated`
      entry naming exactly that field with its old and new values. */
  lemma AttendanceSingleFieldChange(a: Record, f: string, v: string)
    requires f != KeyField && Field(a, f) != v
    ensures AttendanceChanges([a], [Put(a, f, v)]) == [Updated(RecordKey(a, 0), [FieldChange(f, Field(a, f), v)])]
  {
    var b := Put(a, f, v);
    PutOtherField(a, f, v, KeyField);
    assert RecordKey(b, 0) == RecordKey(a, 0);
    ComparedSingleField(a, f, v);
    SingleRowAttendance(a, b);
  }

  /** Two one-row attendance snapshots with the same key: at most one `updated` entry. */
  lemma SingleRowAttendance(a: Record, b: Record)
    requires RecordKey(b, 0) == RecordKey(a, 0)
    ensures var cs := Compared(Attendance, a, b);
      AttendanceChanges([a], [b]) == if cs == [] then [] else [Updated(RecordKey(a, 0), cs)]
  {
    SingleRowIndex(a);
    SingleRowIndex(b);
    DiffSingleKey(Attendance, AttendanceIndex([a]), AttendanceIndex([b]));
  }

  lemma DiffSingleKey(dom: Domain, oldIdx: Dict<string, Record>, newIdx: Dict<string, Record>)
    requires |newIdx.keys| == 1
    ensures newIdx.keys[0] in newIdx.vals
    ensures var k := newIdx.keys[0];
      Diff(dom, oldIdx, newIdx) == EntriesFor(dom, oldIdx, newIdx, k)
  {
    var k := newIdx.keys[0];
    assert k in newIdx.keys;
    assert newIdx.keys[..0] == [];
    assert DiffKeys(dom, oldIdx, newIdx, newIdx.keys)
      == DiffKeys(dom, oldIdx, newIdx, []) + EntriesFor(dom, oldIdx, newIdx, k);
  }

  /** A one-row result snapshot indexes its row under its composite key. */
  lemma SingleResultIndex(a: Record)
    ensures ResultIndex([a]) == Put(Empty(), ResultKey(a), a)
  {
    var k := ResultKey(a);
    assert ResultKeys([a]) == [k];
    assert [k][..0] == [] && [a][..0] == [];
    assert IndexBy([k], [a]) == Put(IndexBy([], []), k, a);
  }

  /** Changing a field other than `semester` and `course_code` keeps the composite key. */
  lemma ResultKeyKept(a: Record, f: string, v: string)
    requires f != "semester" && f != "course_code"
    ensures ResultKey(Put(a, f, v)) == ResultKey(a)
  {
    PutKeepsOtherFields(a, f, v);
  }

  lemma ComparedResultsSame(o: Record, n: Record)
    requires Field(o, "grade") == Field(n, "grade") && Field(o, "result") == Field(n, "result")
    ensures Compared(Results, o, n) == []
  {
    assert forall g :: g in ResultCheckFields ==> g == "grade" || g == "result";
    CompareFieldsNone(ResultCheckFields, o, n);
  }

  /** A new grade for a stored course is reported as one `grade` change. */
  lemma GradeChangeReported(a: Record, g: string)
    requires Field(a, "grade") != g
    ensures ResultChanges([a], [Put(a, "grade", g)]) == [Updated(ResultKey(a), [FieldChange("grade", Field(a, "grade"), g)])]
  {
    var b := Put(a, "grade", g);
    ResultKeyKept(a, "grade", g);
    ComparedGradeOnly(a, g);
    SingleRowResults(a, b);
  }

  lemma ComparedGradeOnly(a: Record, g: string)
    requires Field(a, "grade") != g
    ensures Compared(Results, a, Put(a, "grade", g)) == [FieldChange("grade", Field(a, "grade"), g)]
  {
    PutKeepsOtherFields(a, "grade", g);
    CompareFieldsOne(ResultCheckFields, a, Put(a, "grade", g), "grade");
  }

  /** Two one-row result snapshots with the same key: at most one `updated` entry. */
  lemma SingleRowResults(a: Record, b: Record)
    requires ResultKey(b) == ResultKey(a)
    ensures var cs := Compared(Results, a, b);
      ResultChanges([a], [b]) == if cs == [] then [] else [Updated(ResultKey(a), cs)]
  {
    SingleResultIndex(a);
    SingleResultIndex(b);
    DiffSingleKey(Results, ResultIndex([a]), ResultIndex([b]));
  }

  /** A change to a field other than the key fields, `grade` and `result`
      (a course title, say) is never reported. */
  lemma OtherResultFieldIgnored(a: Record, f: string, v: string)
    requires f != "grade" && f != "result" && f != "semester" && f != "course_code"
    ensures ResultChanges([a], [Put(a, f, v)]) == []
  {
    var b := Put(a, f, v);
    PutOtherField(a, f, v, "grade");
    PutOtherField(a, f, v, "result");
    ResultKeyKept(a, f, v);
    ComparedResultsSame(a, b);
    SingleRowResults(a, b);
    assert ResultChanges([a], [b]) == [];
  }
}
