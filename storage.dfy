/**
 * The SQLite storage adapter (src/storage/sqlite-adapter.ts). Each table is a
 * field of the class: a map from its primary key to the rest of its row. The
 * batch saves run their rows one after another inside one transaction: on a
 * failing row statement every write of the call is rolled back and the error is
 * raised. Which row statement (if any) fails is an input, `failAt`: the index of
 * the first row whose statement throws.
 */
module Storage {
  import opened Wrappers
  import opened Seqs

  // ---------------------------------------------------------------------------
  // Rows and results.
  // ---------------------------------------------------------------------------

  /** An announcement row as handed to `saveByAnnouncement`. */
  datatype AnnouncementRow = AnnouncementRow(announcementId: string, sourceSnapshotRef: Option<string>, contentHash: string)

  /** What the `announcements` table stores under an announcement id. */
  datatype StoredAnnouncement = StoredAnnouncement(contentHash: string, sourceSnapshotRef: Option<string>)

  datatype SaveResult = SaveResult(created: nat, updated: nat, skipped: nat)

  /** How one announcement row is classified against the table as it stands at its turn. */
  datatype RowOutcome = Created | Updated | Skipped

  /** A notification row as handed to `saveNotificationKeys`. */
  datatype NotificationRow = NotificationRow(idempotencyKey: string, announcementId: string, profileId: string)

  /** What `notification_deliveries` stores under an idempotency key. */
  datatype DeliveryRecord = DeliveryRecord(announcementId: string, profileId: string)

  datatype NotificationKeySaveResult = NotificationKeySaveResult(created: nat, skipped: nat, createdKeys: seq<string>)

  datatype BatchRunHistoryRecord = BatchRunHistoryRecord(
    runId: string, profileId: string,
    collectedCount: nat, parsedCount: nat, matchedCount: nat, notifiedCount: nat,
    savedCreatedCount: nat, savedUpdatedCount: nat, savedSkippedCount: nat)

  datatype AcceptanceRuntimeMetricRecord = AcceptanceRuntimeMetricRecord(
    runId: string, collectedSuccessCount: nat, requiredFieldsCompleteCount: nat, reviewNeededCount: nat)

  /** One row of the `notices` projection; every column is written by the upsert. */
  datatype NoticeSaveRecord = NoticeSaveRecord(
    announcementId: string,
    sourceOrg: Option<string>,
    applicationType: string,
    applicationTypeRaw: Option<string>,
    title: string,
    originalLink: Option<string>,
    applicationPeriod: Option<string>,
    eligibilityRulesRaw: Option<string>,
    regionRequirement: Option<string>,
    householdRequirement: Option<string>,
    incomeRequirement: Option<string>,
    assetRequirement: Option<string>,
    judgementGradeCap: string,
    parseStatus: string,
    sourceSnapshotRef: Option<string>,
    contentHash: Option<string>)

  datatype EligibilityResultSaveRecord = EligibilityResultSaveRecord(
    announcementId: string, profileId: string, grade: string, reasonsJson: string, ruleVersion: string)

  /** The unique key `(announcement_id, profile_id, rule_version)` of `eligibility_results`. */
  datatype EligibilityKey = EligibilityKey(announcementId: string, profileId: string, ruleVersion: string)

  /** The columns an `eligibility_results` upsert writes. */
  datatype EligibilityRow = EligibilityRow(grade: string, reasonsJson: string)

  /** The error a failing row statement raises, naming the row. */
  datatype StorageError = StatementFailed(row: nat)

  /** The row statement of row `i` throws. */
  predicate RowFails(failAt: Option<nat>, i: nat) {
    failAt == Some(i)
  }

  /** Some row of a batch of `n` rows throws. */
  predicate BatchFails(failAt: Option<nat>, n: nat) {
    failAt.Some? && failAt.value < n
  }

  // ---------------------------------------------------------------------------
  // saveByAnnouncement, as functions of the table before the call.
  // ---------------------------------------------------------------------------

  function ClassifyRow(table: map<string, StoredAnnouncement>, row: AnnouncementRow): RowOutcome {
    if row.announcementId !in table then Created
    else if table[row.announcementId].contentHash == row.contentHash then Skipped
    else Updated
  }

  /** The table after one row: insert when absent, nothing when the hash is unchanged, overwrite otherwise. */
  function ApplyRow(table: map<string, StoredAnnouncement>, row: AnnouncementRow): map<string, StoredAnnouncement> {
    if ClassifyRow(table, row) == Skipped then table
    else table[row.announcementId := StoredAnnouncement(row.contentHash, row.sourceSnapshotRef)]
  }

  function RowIds(rows: seq<AnnouncementRow>): set<string> {
    set r | r in rows :: r.announcementId
  }

  /** The table after the rows, applied in order. */
  function ApplyRows(table: map<string, StoredAnnouncement>, rows: seq<AnnouncementRow>): map<string, StoredAnnouncement> {
    if rows == [] then table
    else
      var n := |rows| - 1;
      ApplyRow(ApplyRows(table, rows[..n]), rows[n])
  }

  /** After the batch the table holds the old ids plus the batch's ids; an id outside the batch keeps its row. */
  lemma {:induction false} ApplyRowsFrame(table: map<string, StoredAnnouncement>, rows: seq<AnnouncementRow>)
    ensures ApplyRows(table, rows).Keys == table.Keys + RowIds(rows)
    ensures forall id :: id in table && id !in RowIds(rows) ==> ApplyRows(table, rows)[id] == table[id]
  {
    if rows != [] {
      var n := |rows| - 1;
      ApplyRowsFrame(table, rows[..n]);
      assert rows == rows[..n] + [rows[n]];
      assert RowIds(rows) == RowIds(rows[..n]) + {rows[n].announcementId};
    }
  }

  function Count(result: SaveResult, outcome: RowOutcome): SaveResult {
    match outcome
    case Created => result.(created := result.created + 1)
    case Updated => result.(updated := result.updated + 1)
    case Skipped => result.(skipped := result.skipped + 1)
  }

  /** The counts `saveByAnnouncement` reports; every row is counted exactly once. */
  function SaveCounts(table: map<string, StoredAnnouncement>, rows: seq<AnnouncementRow>): (r: SaveResult)
    ensures r.created + r.updated + r.skipped == |rows|
  {
    if rows == [] then SaveResult(0, 0, 0)
    else
      var n := |rows| - 1;
      Count(SaveCounts(table, rows[..n]), ClassifyRow(ApplyRows(table, rows[..n]), rows[n]))
  }

  /** The three cases of one row, and what each does to the table and the counts. */
  lemma RowCases(table: map<string, StoredAnnouncement>, row: AnnouncementRow, counts: SaveResult)
    ensures row.announcementId !in table ==>
      && ApplyRow(table, row) == table[row.announcementId := StoredAnnouncement(row.contentHash, row.sourceSnapshotRef)]
      && Count(counts, ClassifyRow(table, row)) == counts.(created := counts.created + 1)
    ensures row.announcementId in table && table[row.announcementId].contentHash == row.contentHash ==>
      && ApplyRow(table, row) == table
      && Count(counts, ClassifyRow(table, row)) == counts.(skipped := counts.skipped + 1)
    ensures row.announcementId in table && table[row.announcementId].contentHash != row.contentHash ==>
      && ApplyRow(table, row) == table[row.announcementId := StoredAnnouncement(row.contentHash, row.sourceSnapshotRef)]
      && Count(counts, ClassifyRow(table, row)) == counts.(updated := counts.updated + 1)
  {
  }

  /** Extending the processed prefix by one row. */
  lemma SaveStep(table: map<string, StoredAnnouncement>, rows: seq<AnnouncementRow>, i: nat)
    requires i < |rows|
    ensures ApplyRows(table, rows[..i + 1]) == ApplyRow(ApplyRows(table, rows[..i]), rows[i])
    ensures SaveCounts(table, rows[..i + 1]) == Count(SaveCounts(table, rows[..i]), ClassifyRow(ApplyRows(table, rows[..i]), rows[i]))
  {
    assert rows[..i + 1][..i] == rows[..i];
  }

  /** Rows with the same announcement id carry the same content hash. */
  predicate ConsistentHashes(rows: seq<AnnouncementRow>) {
    forall i, j :: 0 <= i < |rows| && 0 <= j < |rows| && rows[i].announcementId == rows[j].announcementId ==>
      rows[i].contentHash == rows[j].contentHash
  }

  /** After saving a consistent batch, every row's hash is the one stored under its id. */
  lemma {:induction false} SavedHashesMatch(table: map<string, StoredAnnouncement>, rows: seq<AnnouncementRow>)
    requires ConsistentHashes(rows)
    ensures forall r :: r in rows ==> r.announcementId in ApplyRows(table, rows) && ApplyRows(table, rows)[r.announcementId].contentHash == r.contentHash
  {
    if rows != [] {
      var n := |rows| - 1;
      var prefix := rows[..n];
      var last := rows[n];
      assert ConsistentHashes(prefix);
      SavedHashesMatch(table, prefix);
      var before := ApplyRows(table, prefix);
      var after := ApplyRows(table, rows);
      assert after == ApplyRow(before, last);
      assert last.announcementId in after && after[last.announcementId].contentHash == last.contentHash;
      forall r | r in rows ensures r.announcementId in after && after[r.announcementId].contentHash == r.contentHash {
        if r != last {
          assert r in prefix by {
            var k :| 0 <= k < |rows| && rows[k] == r;
            assert k < n;
            assert prefix[k] == r;
          }
          if r.announcementId == last.announcementId {
            var k :| 0 <= k < |rows| && rows[k] == r;
            assert rows[k].contentHash == rows[n].contentHash;
          }
        }
      }
    }
  }

  /** Rows whose hashes are already stored are all skipped and change nothing. */
  lemma {:induction false} StoredRowsAreSkipped(table: map<string, StoredAnnouncement>, rows: seq<AnnouncementRow>)
    requires forall r :: r in rows ==> r.announcementId in table && table[r.announcementId].contentHash == r.contentHash
    ensures ApplyRows(table, rows) == table
    ensures SaveCounts(table, rows) == SaveResult(0, 0, |rows|)
  {
    if rows != [] {
      var n := |rows| - 1;
      assert forall r :: r in rows[..n] ==> r in rows;
      StoredRowsAreSkipped(table, rows[..n]);
      assert rows[n] in rows;
    }
  }

  /** Saving the same consistent batch a second time skips every row and changes nothing. */
  lemma ResaveSkipsEverything(table: map<string, StoredAnnouncement>, rows: seq<AnnouncementRow>)
    requires ConsistentHashes(rows)
    ensures ApplyRows(ApplyRows(table, rows), rows) == ApplyRows(table, rows)
    ensures SaveCounts(ApplyRows(table, rows), rows) == SaveResult(0, 0, |rows|)
  {
    SavedHashesMatch(table, rows);
    StoredRowsAreSkipped(ApplyRows(table, rows), rows);
  }

  // ---------------------------------------------------------------------------
  // The notification gate, as functions of the table before the call.
  // ---------------------------------------------------------------------------

  function KeysOf(rows: seq<NotificationRow>): (keys: seq<string>)
    ensures |keys| == |rows|
    ensures forall i :: 0 <= i < |rows| ==> keys[i] == rows[i].idempotencyKey
  {
    seq(|rows|, i requires 0 <= i < |rows| => rows[i].idempotencyKey)
  }

  /** `INSERT ... ON CONFLICT(idempotency_key) DO NOTHING` for one row. */
  function GateRow(table: map<string, DeliveryRecord>, row: NotificationRow): map<string, DeliveryRecord> {
    if row.idempotencyKey in table then table
    else table[row.idempotencyKey := DeliveryRecord(row.announcementId, row.profileId)]
  }

  /** The table after the rows, in order. */
  function GateRows(table: map<string, DeliveryRecord>, rows: seq<NotificationRow>): map<string, DeliveryRecord> {
    if rows == [] then table
    else
      var n := |rows| - 1;
      GateRow(GateRows(table, rows[..n]), rows[n])
  }

  /** After the gate every old key and every batch key is stored, and no existing row is touched. */
  lemma {:induction false} GateRowsFrame(table: map<string, DeliveryRecord>, rows: seq<NotificationRow>)
    ensures forall k :: k in GateRows(table, rows) <==> k in table || k in KeysOf(rows)
    ensures forall k :: k in table ==> GateRows(table, rows)[k] == table[k]
  {
    if rows != [] {
      var n := |rows| - 1;
      GateRowsFrame(table, rows[..n]);
      assert KeysOf(rows) == KeysOf(rows[..n]) + [rows[n].idempotencyKey];
    }
  }

  /** No value occurs twice in `s`. */
  predicate NoDuplicates(s: seq<string>) {
    forall i, j :: 0 <= i < j < |s| ==> s[i] != s[j]
  }

  /** What `saveNotificationKeys` reports: the keys that were absent at their turn, in input order. */
  function GateResult(table: map<string, DeliveryRecord>, rows: seq<NotificationRow>): (r: NotificationKeySaveResult)
    ensures r.created + r.skipped == |rows|
    ensures |r.createdKeys| == r.created
  {
    if rows == [] then NotificationKeySaveResult(0, 0, [])
    else
      var n := |rows| - 1;
      var previous := GateResult(table, rows[..n]);
      var key := rows[n].idempotencyKey;
      if key in GateRows(table, rows[..n]) then
        previous.(skipped := previous.skipped + 1)
      else
        previous.(created := previous.created + 1, createdKeys := previous.createdKeys + [key])
  }

  /** `keys.filter((key) => key is not stored)`: the in-order subsequence of unstored keys. */
  function UnstoredKeys(table: map<string, DeliveryRecord>, keys: seq<string>): (r: seq<string>)
    ensures |r| <= |keys|
    ensures forall k :: k in r <==> k in keys && k !in table
  {
    if keys == [] then []
    else
      var n := |keys| - 1;
      assert keys == keys[..n] + [keys[n]];
      UnstoredKeys(table, keys[..n]) + (if keys[n] in table then [] else [keys[n]])
  }

  /** The first occurrence of every value of `s`, in order. */
  function FirstOccurrences(s: seq<string>): (r: seq<string>)
    ensures NoDuplicates(r)
    ensures forall k :: k in r <==> k in s
  {
    if s == [] then []
    else
      var n := |s| - 1;
      assert s == s[..n] + [s[n]];
      FirstOccurrences(s[..n]) + (if s[n] in s[..n] then [] else [s[n]])
  }

  /** Appending a value adds it to the first occurrences unless it already occurred. */
  lemma FirstOccurrencesAppend(s: seq<string>, x: string)
    ensures FirstOccurrences(s + [x]) == FirstOccurrences(s) + (if x in s then [] else [x])
  {
    assert (s + [x])[..|s|] == s;
  }

  /** The unstored keys of a concatenation are those of each part, in order: a filter keeps the input order. */
  lemma {:induction false} UnstoredKeysConcat(table: map<string, DeliveryRecord>, a: seq<string>, b: seq<string>)
    ensures UnstoredKeys(table, a + b) == UnstoredKeys(table, a) + UnstoredKeys(table, b)
    decreases |b|
  {
    if b == [] {
      assert a + b == a;
    } else {
      UnstoredKeysConcat(table, a, b[..|b| - 1]);
      UnstoredKeysConcatStep(table, a, b);
    }
  }

  /** The inductive step of `UnstoredKeysConcat`: peel the last key off `b`. */
  lemma UnstoredKeysConcatStep(table: map<string, DeliveryRecord>, a: seq<string>, b: seq<string>)
    requires b != []
    requires UnstoredKeys(table, a + b[..|b| - 1]) == UnstoredKeys(table, a) + UnstoredKeys(table, b[..|b| - 1])
    ensures UnstoredKeys(table, a + b) == UnstoredKeys(table, a) + UnstoredKeys(table, b)
  {
    var n := |b| - 1;
    var front, key := b[..n], b[n];
    var last := if key in table then [] else [key];
    calc {
      UnstoredKeys(table, a + b);
      == { SplitLast(b); ConcatAssoc(a, front, [key]); }
      UnstoredKeys(table, (a + front) + [key]);
      == { UnstoredLast(table, a + front, key); }
      UnstoredKeys(table, a + front) + last;
      ==
      (UnstoredKeys(table, a) + UnstoredKeys(table, front)) + last;
      == { ConcatAssoc(UnstoredKeys(table, a), UnstoredKeys(table, front), last); }
      UnstoredKeys(table, a) + (UnstoredKeys(table, front) + last);
      == { UnstoredLast(table, front, key); SplitLast(b); }
      UnstoredKeys(table, a) + UnstoredKeys(table, b);
    }
  }

  /** One more key appends it to the unstored keys when it is not stored. */
  lemma UnstoredLast(table: map<string, DeliveryRecord>, s: seq<string>, k: string)
    ensures UnstoredKeys(table, s + [k]) == UnstoredKeys(table, s) + (if k in table then [] else [k])
  {
    assert (s + [k])[..|s|] == s;
  }

  /** The keys of one more row. */
  lemma KeysOfLast(prefix: seq<NotificationRow>, row: NotificationRow)
    ensures KeysOf(prefix + [row]) == KeysOf(prefix) + [row.idempotencyKey]
  {
    assert KeysOf(prefix + [row])[..|prefix|] == KeysOf(prefix);
  }

  /** The gate's result after one more row. */
  lemma GateLast(table: map<string, DeliveryRecord>, prefix: seq<NotificationRow>, row: NotificationRow)
    ensures GateRows(table, prefix + [row]) == GateRow(GateRows(table, prefix), row)
    ensures GateResult(table, prefix + [row]).createdKeys ==
      GateResult(table, prefix).createdKeys + (if row.idempotencyKey in GateRows(table, prefix) then [] else [row.idempotencyKey])
  {
    assert (prefix + [row])[..|prefix|] == prefix;
  }

  /** The inductive step of `CreatedKeysAreFirstUnstored`: one more row. */
  lemma CreatedKeysStep(table: map<string, DeliveryRecord>, prefix: seq<NotificationRow>, row: NotificationRow)
    requires GateResult(table, prefix).createdKeys == FirstOccurrences(UnstoredKeys(table, KeysOf(prefix)))
    ensures GateResult(table, prefix + [row]).createdKeys == FirstOccurrences(UnstoredKeys(table, KeysOf(prefix + [row])))
  {
    var key := row.idempotencyKey;
    var unstored := UnstoredKeys(table, KeysOf(prefix));
    GateLast(table, prefix, row);
    KeysOfLast(prefix, row);
    UnstoredLast(table, KeysOf(prefix), key);
    var stored := key in GateRows(table, prefix);
    if key in table {
      assert stored by {
        GateRowsFrame(table, prefix);
      }
      assert unstored + [] == unstored;
    } else {
      assert stored <==> key in unstored by {
        GateRowsFrame(table, prefix);
      }
      FreshStepKeys(GateResult(table, prefix).createdKeys, unstored, key, stored);
    }
  }

  /** The key bookkeeping of `CreatedKeysStep` for an unstored key, apart from the tables it comes from. */
  lemma FreshStepKeys(previous: seq<string>, unstored: seq<string>, key: string, stored: bool)
    requires previous == FirstOccurrences(unstored)
    requires stored <==> key in unstored
    ensures previous + (if stored then [] else [key]) == FirstOccurrences(unstored + [key])
  {
    FirstOccurrencesAppend(unstored, key);
  }

  /** The gate's created keys are the unstored keys with repeats dropped: at most one delivery per key. */
  lemma {:induction false} CreatedKeysAreFirstUnstored(table: map<string, DeliveryRecord>, rows: seq<NotificationRow>)
    ensures GateResult(table, rows).createdKeys == FirstOccurrences(UnstoredKeys(table, KeysOf(rows)))
  {
    if rows != [] {
      var n := |rows| - 1;
      CreatedKeysAreFirstUnstored(table, rows[..n]);
      SplitLast(rows);
      CreatedKeysStep(table, rows[..n], rows[n]);
    }
  }

  /** Every created key was absent before the call, occurs in the input, and is created once. */
  lemma CreatedKeysAreNewAndDistinct(table: map<string, DeliveryRecord>, rows: seq<NotificationRow>)
    ensures NoDuplicates(GateResult(table, rows).createdKeys)
    ensures forall k :: k in GateResult(table, rows).createdKeys <==> k !in table && k in KeysOf(rows)
  {
    CreatedKeysAreFirstUnstored(table, rows);
  }

  /** A filter that keeps nothing returns the empty sequence. */
  lemma AllStoredLeavesNothing(table: map<string, DeliveryRecord>, keys: seq<string>)
    requires forall k :: k in keys ==> k in table
    ensures UnstoredKeys(table, keys) == []
  {
  }

  /** Passing rows whose keys are all stored through the gate changes nothing. */
  lemma StoredRowsPassUnchanged(table: map<string, DeliveryRecord>, rows: seq<NotificationRow>)
    requires forall k :: k in KeysOf(rows) ==> k in table
    ensures GateRows(table, rows) == table
  {
    var t := GateRows(table, rows);
    GateRowsFrame(table, rows);
    assert t.Keys == table.Keys;
  }

  /** A second gate pass over the same keys creates nothing: at-most-once notification. */
  lemma {:induction false} RegatingCreatesNothing(table: map<string, DeliveryRecord>, rows: seq<NotificationRow>)
    ensures GateResult(GateRows(table, rows), rows).created == 0
    ensures GateResult(GateRows(table, rows), rows).createdKeys == []
    ensures GateRows(GateRows(table, rows), rows) == GateRows(table, rows)
  {
    var t := GateRows(table, rows);
    GateRowsFrame(table, rows);
    CreatedKeysAreFirstUnstored(t, rows);
    AllStoredLeavesNothing(t, KeysOf(rows));
    StoredRowsPassUnchanged(t, rows);
  }

  // ---------------------------------------------------------------------------
  // The projections and the run tables.
  // ---------------------------------------------------------------------------

  function NoticeIds(records: seq<NoticeSaveRecord>): set<string> {
    set r | r in records :: r.announcementId
  }

  /** The notices table after every record is upserted in order (each overwrites all columns). */
  function UpsertNotices(table: map<string, NoticeSaveRecord>, records: seq<NoticeSaveRecord>): map<string, NoticeSaveRecord> {
    if records == [] then table
    else
      var n := |records| - 1;
      UpsertNotices(table, records[..n])[records[n].announcementId := records[n]]
  }

  /** After the upserts the notice ids are the old ones plus the batch's; other notices keep their rows. */
  lemma {:induction false} UpsertNoticesFrame(table: map<string, NoticeSaveRecord>, records: seq<NoticeSaveRecord>)
    ensures UpsertNotices(table, records).Keys == table.Keys + NoticeIds(records)
    ensures forall id :: id in table && id !in NoticeIds(records) ==> UpsertNotices(table, records)[id] == table[id]
  {
    if records != [] {
      var n := |records| - 1;
      UpsertNoticesFrame(table, records[..n]);
      assert records == records[..n] + [records[n]];
      assert NoticeIds(records) == NoticeIds(records[..n]) + {records[n].announcementId};
    }
  }

  /** The last record of the batch for an id is the one stored under it. */
  lemma {:induction false} LastNoticeWins(table: map<string, NoticeSaveRecord>, records: seq<NoticeSaveRecord>, i: nat)
    requires i < |records|
    requires forall j :: i < j < |records| ==> records[j].announcementId != records[i].announcementId
    ensures records[i].announcementId in UpsertNotices(table, records)
    ensures UpsertNotices(table, records)[records[i].announcementId] == records[i]
  {
    var n := |records| - 1;
    if i < n {
      LastNoticeWins(table, records[..n], i);
    }
  }

  function EligibilityKeyOf(r: EligibilityResultSaveRecord): EligibilityKey {
    EligibilityKey(r.announcementId, r.profileId, r.ruleVersion)
  }

  function EligibilityKeys(records: seq<EligibilityResultSaveRecord>): set<EligibilityKey> {
    set r | r in records :: EligibilityKeyOf(r)
  }

  /** The eligibility results after every record is upserted in order (grade and reasons overwritten). */
  function UpsertEligibility(table: map<EligibilityKey, EligibilityRow>, records: seq<EligibilityResultSaveRecord>): map<EligibilityKey, EligibilityRow> {
    if records == [] then table
    else
      var n := |records| - 1;
      var r := records[n];
      UpsertEligibility(table, records[..n])[EligibilityKeyOf(r) := EligibilityRow(r.grade, r.reasonsJson)]
  }

  /** After the upserts the keys are the old ones plus the batch's; other rows are kept. */
  lemma {:induction false} UpsertEligibilityFrame(table: map<EligibilityKey, EligibilityRow>, records: seq<EligibilityResultSaveRecord>)
    ensures UpsertEligibility(table, records).Keys == table.Keys + EligibilityKeys(records)
    ensures forall k :: k in table && k !in EligibilityKeys(records) ==> UpsertEligibility(table, records)[k] == table[k]
  {
    if records != [] {
      var n := |records| - 1;
      var r := records[n];
      UpsertEligibilityFrame(table, records[..n]);
      assert records == records[..n] + [r];
      assert EligibilityKeys(records) == EligibilityKeys(records[..n]) + {EligibilityKeyOf(r)};
    }
  }

  /** The last record of the batch for a key decides its grade and reasons. */
  lemma {:induction false} LastEligibilityWins(table: map<EligibilityKey, EligibilityRow>, records: seq<EligibilityResultSaveRecord>, i: nat)
    requires i < |records|
    requires forall j :: i < j < |records| ==> EligibilityKeyOf(records[j]) != EligibilityKeyOf(records[i])
    ensures EligibilityKeyOf(records[i]) in UpsertEligibility(table, records)
    ensures UpsertEligibility(table, records)[EligibilityKeyOf(records[i])] == EligibilityRow(records[i].grade, records[i].reasonsJson)
  {
    var n := |records| - 1;
    if i < n {
      LastEligibilityWins(table, records[..n], i);
    }
  }

  /** Each run id occurs at most once. */
  predicate UniqueRunIds(log: seq<AcceptanceRuntimeMetricRecord>) {
    forall i, j :: 0 <= i < j < |log| ==> log[i].runId != log[j].runId
  }

  /** `log` without the record of `runId`. */
  function WithoutRun(log: seq<AcceptanceRuntimeMetricRecord>, runId: string): (r: seq<AcceptanceRuntimeMetricRecord>)
    ensures forall m :: m in r <==> m in log && m.runId != runId
    ensures UniqueRunIds(log) ==> UniqueRunIds(r)
  {
    if log == [] then []
    else
      var rest := WithoutRun(log[1..], runId);
      assert forall m :: m in log <==> m == log[0] || m in log[1..];
      if log[0].runId == runId then rest else [log[0]] + rest
  }

  /** Dropping a run from a log split in two drops it from each part: the order of the rest is kept. */
  lemma {:induction false} WithoutRunConcat(a: seq<AcceptanceRuntimeMetricRecord>, b: seq<AcceptanceRuntimeMetricRecord>, runId: string)
    ensures WithoutRun(a + b, runId) == WithoutRun(a, runId) + WithoutRun(b, runId)
  {
    if a == [] {
      assert a + b == b;
    } else {
      assert (a + b)[0] == a[0];
      assert (a + b)[1..] == a[1..] + b;
      WithoutRunConcat(a[1..], b, runId);
      if a[0].runId != runId {
        ConcatAssoc([a[0]], WithoutRun(a[1..], runId), WithoutRun(b, runId));
      }
    }
  }

  /** The newest `limit` records of a log kept oldest first, newest first. */
  function Newest(log: seq<AcceptanceRuntimeMetricRecord>, limit: nat): (r: seq<AcceptanceRuntimeMetricRecord>)
    ensures |r| == if limit < |log| then limit else |log|
    ensures forall i :: 0 <= i < |r| ==> r[i] == log[|log| - 1 - i]
  {
    if limit == 0 || log == [] then []
    else [log[|log| - 1]] + Newest(log[..|log| - 1], limit - 1)
  }

  // ---------------------------------------------------------------------------
  // The adapter.
  // ---------------------------------------------------------------------------

  class SQLiteStorageAdapter {
    var announcements: map<string, StoredAnnouncement>
    var notificationDeliveries: map<string, DeliveryRecord>
    var batchRuns: map<string, BatchRunHistoryRecord>
    /** `acceptance_runtime_metrics`, oldest write first; a rewrite of a run moves it to the end. */
    var acceptanceRuntimeMetrics: seq<AcceptanceRuntimeMetricRecord>
    var notices: map<string, NoticeSaveRecord>
    var eligibilityResults: map<EligibilityKey, EligibilityRow>

    /** Each run has one metrics row, and every keyed row is stored under its own id. */
    ghost predicate Valid()
      reads this
    {
      && UniqueRunIds(acceptanceRuntimeMetrics)
      && (forall id :: id in batchRuns ==> batchRuns[id].runId == id)
      && (forall id :: id in notices ==> notices[id].announcementId == id)
    }

    /** A database with freshly created, empty tables. */
    constructor ()
      ensures Valid()
      ensures announcements == map[] && notificationDeliveries == map[] && batchRuns == map[]
      ensures acceptanceRuntimeMetrics == [] && notices == map[] && eligibilityResults == map[]
    {
      announcements := map[];
      notificationDeliveries := map[];
      batchRuns := map[];
      acceptanceRuntimeMetrics := [];
      notices := map[];
      eligibilityResults := map[];
    }

    /** Classify and write each row in order; commit all of them, or on a failing row roll back and raise. */
    method SaveByAnnouncement(items: seq<AnnouncementRow>, failAt: Option<nat>) returns (result: Result<SaveResult, StorageError>)
      requires Valid()
      modifies this`announcements
      ensures Valid()
      ensures result.Success? <==> !BatchFails(failAt, |items|)
      ensures result.Success? ==> announcements == ApplyRows(old(announcements), items)
      ensures result.Success? ==> result.value == SaveCounts(old(announcements), items)
      ensures result.Failure? ==> announcements == old(announcements) && result.error == StatementFailed(failAt.value)
    {
      var counts := SaveResult(0, 0, 0);
      var snapshot := announcements;
      var i := 0;
      while i < |items|
        invariant 0 <= i <= |items|
        invariant !BatchFails(failAt, i)
        invariant announcements == ApplyRows(snapshot, items[..i])
        invariant counts == SaveCounts(snapshot, items[..i])
      {
        if RowFails(failAt, i) {
          announcements := snapshot;
          return Failure(StatementFailed(i));
        }
        var item := items[i];
        SaveStep(snapshot, items, i);
        RowCases(announcements, item, counts);
        if item.announcementId !in announcements {
          announcements := announcements[item.announcementId := StoredAnnouncement(item.contentHash, item.sourceSnapshotRef)];
          counts := counts.(created := counts.created + 1);
        } else if announcements[item.announcementId].contentHash == item.contentHash {
          counts := counts.(skipped := counts.skipped + 1);
        } else {
          announcements := announcements[item.announcementId := StoredAnnouncement(item.contentHash, item.sourceSnapshotRef)];
          counts := counts.(updated := counts.updated + 1);
        }
        i := i + 1;
      }
      assert items[..|items|] == items;
      return Success(counts);
    }

    /** The keys in `keys`, in order, that have no delivery row; reads only. */
    function FilterUnstoredNotificationKeys(keys: seq<string>): (r: seq<string>)
      reads this
      ensures keys == [] ==> r == []
      ensures |r| <= |keys|
      ensures forall k :: k in r <==> k in keys && k !in notificationDeliveries
    {
      if keys == [] then [] else UnstoredKeys(notificationDeliveries, keys)
    }

    /** Insert each key unless it is stored; report the keys created. All or nothing. */
    method SaveNotificationKeys(keys: seq<NotificationRow>, failAt: Option<nat>) returns (result: Result<NotificationKeySaveResult, StorageError>)
      requires Valid()
      modifies this`notificationDeliveries
      ensures Valid()
      ensures result.Success? <==> !BatchFails(failAt, |keys|)
      ensures result.Success? ==> notificationDeliveries == GateRows(old(notificationDeliveries), keys)
      ensures result.Success? ==> result.value == GateResult(old(notificationDeliveries), keys)
      ensures result.Failure? ==> notificationDeliveries == old(notificationDeliveries) && result.error == StatementFailed(failAt.value)
    {
      var report := NotificationKeySaveResult(0, 0, []);
      var snapshot := notificationDeliveries;
      ghost var done: seq<NotificationRow> := [];
      var i := 0;
      while i < |keys|
        invariant 0 <= i <= |keys|
        invariant done == keys[..i]
        invariant !BatchFails(failAt, i)
        invariant notificationDeliveries == GateRows(snapshot, done)
        invariant report == GateResult(snapshot, done)
      {
        if RowFails(failAt, i) {
          notificationDeliveries := snapshot;
          return Failure(StatementFailed(i));
        }
        var item := keys[i];
        GateLast(snapshot, done, item);
        if item.idempotencyKey !in notificationDeliveries {
          notificationDeliveries := notificationDeliveries[item.idempotencyKey := DeliveryRecord(item.announcementId, item.profileId)];
          report := report.(created := report.created + 1, createdKeys := report.createdKeys + [item.idempotencyKey]);
        } else {
          report := report.(skipped := report.skipped + 1);
        }
        done := done + [item];
        i := i + 1;
      }
      assert done == keys;
      return Success(report);
    }

    /** Insert or replace the history row of `record.runId`. */
    method SaveBatchRunHistory(record: BatchRunHistoryRecord)
      requires Valid()
      modifies this`batchRuns
      ensures Valid()
      ensures batchRuns == old(batchRuns)[record.runId := record]
    {
      batchRuns := batchRuns[record.runId := record];
    }

    /** Insert or replace the metrics row of `record.runId`; the run becomes the most recent one. */
    method SaveAcceptanceRuntimeMetrics(record: AcceptanceRuntimeMetricRecord)
      requires Valid()
      modifies this`acceptanceRuntimeMetrics
      ensures Valid()
      ensures acceptanceRuntimeMetrics == WithoutRun(old(acceptanceRuntimeMetrics), record.runId) + [record]
    {
      var rest := WithoutRun(acceptanceRuntimeMetrics, record.runId);
      acceptanceRuntimeMetrics := rest + [record];
      assert forall i :: 0 <= i < |rest| ==> rest[i] in rest;
    }

    /** At most `limit` metric rows, most recent first; none when `limit <= 0`. */
    function GetRecentAcceptanceRuntimeMetrics(limit: int): (r: seq<AcceptanceRuntimeMetricRecord>)
      reads this
      ensures limit <= 0 ==> r == []
      ensures limit > 0 ==> |r| == if limit < |acceptanceRuntimeMetrics| then limit else |acceptanceRuntimeMetrics|
      ensures forall i :: 0 <= i < |r| ==> r[i] == acceptanceRuntimeMetrics[|acceptanceRuntimeMetrics| - 1 - i]
    {
      if limit <= 0 then [] else Newest(acceptanceRuntimeMetrics, limit)
    }

    /** Upsert every notice record in order. All or nothing; an empty batch does nothing. */
    method SaveNotices(records: seq<NoticeSaveRecord>, failAt: Option<nat>) returns (result: Result<(), StorageError>)
      requires Valid()
      modifies this`notices
      ensures Valid()
      ensures result.Success? <==> !BatchFails(failAt, |records|)
      ensures result.Success? ==> notices == UpsertNotices(old(notices), records)
      ensures result.Failure? ==> notices == old(notices) && result.error == StatementFailed(failAt.value)
    {
      if |records| == 0 {
        return Success(());
      }
      var snapshot := notices;
      var i := 0;
      while i < |records|
        invariant 0 <= i <= |records|
        invariant !BatchFails(failAt, i)
        invariant notices == UpsertNotices(snapshot, records[..i])
        invariant forall id :: id in notices ==> notices[id].announcementId == id
      {
        if RowFails(failAt, i) {
          notices := snapshot;
          return Failure(StatementFailed(i));
        }
        assert records[..i + 1][..i] == records[..i];
        notices := notices[records[i].announcementId := records[i]];
        i := i + 1;
      }
      assert records[..|records|] == records;
      return Success(());
    }

    /** Upsert every eligibility result in order, keyed by (announcement, profile, rule version). All or nothing. */
    method SaveEligibilityResults(records: seq<EligibilityResultSaveRecord>, failAt: Option<nat>) returns (result: Result<(), StorageError>)
      requires Valid()
      modifies this`eligibilityResults
      ensures Valid()
      ensures result.Success? <==> !BatchFails(failAt, |records|)
      ensures result.Success? ==> eligibilityResults == UpsertEligibility(old(eligibilityResults), records)
      ensures result.Failure? ==> eligibilityResults == old(eligibilityResults) && result.error == StatementFailed(failAt.value)
    {
      if |records| == 0 {
        return Success(());
      }
      var snapshot := eligibilityResults;
      var i := 0;
      while i < |records|
        invariant 0 <= i <= |records|
        invariant !BatchFails(failAt, i)
        invariant eligibilityResults == UpsertEligibility(snapshot, records[..i])
      {
        if RowFails(failAt, i) {
          eligibilityResults := snapshot;
          return Failure(StatementFailed(i));
        }
        assert records[..i + 1][..i] == records[..i];
        var r := records[i];
        eligibilityResults := eligibilityResults[EligibilityKeyOf(r) := EligibilityRow(r.grade, r.reasonsJson)];
        i := i + 1;
      }
      assert records[..|records|] == records;
      return Success(());
    }
  }
}
