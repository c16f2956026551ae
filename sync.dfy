/** One table's reconciliation (`_sync_table`, sync_manager.py:56-131) and the start-up run over
    every configured table (`sync_on_startup`, lines 39-54). */
module Sync {
  import opened Wrappers
  import opened Text
  import opened SyncTypes
  import opened OrderedMaps
  import opened Classify
  import opened Metadata
  import opened Pull
  import opened Upsert

  /** The table's CSV file as the sync finds it: absent, present but unreadable, or its rows as
      `csv.DictReader` gives them. */
  datatype LocalFile = Missing | Unreadable | Rows(rows: seq<Row>)

  /** The remote table as the sync sees it: the paged metadata query and the full-row query. */
  datatype Remote = Remote(meta: RemoteTable, query: Query)

  /** What one table's sync did: nothing (no CSV file), stopped after a failed read, or ran,
      possibly rewriting the CSV file and possibly sending one upsert. */
  datatype TableSync =
    | Skipped
    | ReadFailed
    | Synced(written: Option<CsvFile>, upsert: Option<UpsertCall>)

  /** Without a client every remote call raises: every metadata page fails. */
  function MetaSeen(connected: bool, t: RemoteTable): RemoteTable
  {
    if connected then t else RemoteTable(t.rows, (o: nat) => true)
  }

  /** Without a client every full-row query fails. */
  function QuerySeen(connected: bool, q: Query): Query
  {
    if connected then q else (ids: seq<string>) => None
  }

  // ---------------------------------------------------------------------------------------------
  // The rows to push (line 130)

  /** `[local_data_map[uid] for uid in to_push_ids]` as written: `None` stands for the
      `KeyError` raised by the first key that has no local row. */
  function PushRowsAsWritten(byKey: map<string, Row>, toPush: seq<string>): Option<seq<Row>>
    decreases |toPush|
  {
    if toPush == [] then Some([])
    else if toPush[0] !in byKey then None
    else match PushRowsAsWritten(byKey, toPush[1..])
      case None => None
      case Some(rest) => Some([byKey[toPush[0]]] + rest)
  }

  /** A key known only remotely whose remote row has an empty timestamp is classified for
      pushing (line 107), but it has no local row, so line 130 raises `KeyError`; the exception
      leaves `_sync_table` and ends `sync_on_startup` for every later table. */
  lemma RemoteOnlyKeyCrashes(toPush: seq<string>, toPull: seq<string>)
    requires Classification(toPush, toPull, LocalTimestamps([], "id"), map["A" := Some("")])
    ensures "A" in toPush
    ensures PushRowsAsWritten(RowsByKey([], "id"), toPush).None?
  {
    var localTs, remoteTs := LocalTimestamps([], "id"), map["A" := Some("")];
    assert "A" in AllIds(localTs, remoteTs);
    assert Decide(TsOf(localTs, "A"), TsOf(remoteTs, "A")) == Push;
    IndexKeys([], "id");
    assert RowsByKey([], "id") == map[];
    AsWrittenFailsOnMissing(RowsByKey([], "id"), toPush, "A");
  }

  /** The comprehension raises as soon as one key has no row. */
  lemma {:induction false} AsWrittenFailsOnMissing(byKey: map<string, Row>, toPush: seq<string>, u: string)
    requires u in toPush && u !in byKey
    ensures PushRowsAsWritten(byKey, toPush).None?
    decreases |toPush|
  {
    if toPush[0] != u {
      assert u in toPush[1..];
      AsWrittenFailsOnMissing(byKey, toPush[1..], u);
    }
  }

  /** The keys to push that have a local row, in order. */
  function Present(byKey: map<string, Row>, toPush: seq<string>): (ks: seq<string>)
    ensures |ks| <= |toPush|
    ensures forall i :: 0 <= i < |ks| ==> ks[i] in toPush && ks[i] in byKey
    ensures forall u :: u in toPush && u in byKey ==> u in ks
    decreases |toPush|
  {
    if toPush == [] then []
    else
      var rest := Present(byKey, toPush[1..]);
      assert forall u :: u in toPush[1..] ==> u in toPush;
      if toPush[0] in byKey then [toPush[0]] + rest else rest
  }

  /** `[local_data_map[uid] for uid in to_push_ids if uid in local_data_map]`: the rows to push,
      with keys that have no local row left out (such a key has nothing local to push). */
  function PushRows(byKey: map<string, Row>, toPush: seq<string>): (r: seq<Row>)
    ensures |r| <= |toPush|
  {
    var ks := Present(byKey, toPush);
    seq(|ks|, i requires 0 <= i < |ks| => byKey[ks[i]])
  }

  /** `row` is the local row of one of the keys `toPush`. */
  ghost predicate RowOfKeyIn(row: Row, byKey: map<string, Row>, toPush: seq<string>)
  {
    exists u :: u in toPush && u in byKey && row == byKey[u]
  }

  /** The corrected rows: each is the local row of a key to push, and every key to push with a
      local row has its row among them. */
  lemma PushRowsFacts(byKey: map<string, Row>, toPush: seq<string>)
    ensures var r := PushRows(byKey, toPush);
      && (forall i :: 0 <= i < |r| ==> RowOfKeyIn(r[i], byKey, toPush))
      && (forall u :: u in toPush && u in byKey ==> byKey[u] in r)
  {
    var ks := Present(byKey, toPush);
    var r := PushRows(byKey, toPush);
    forall i | 0 <= i < |r|
      ensures RowOfKeyIn(r[i], byKey, toPush)
    {
      assert r[i] == byKey[ks[i]];
    }
    forall u | u in toPush && u in byKey
      ensures byKey[u] in r
    {
      var i :| 0 <= i < |ks| && ks[i] == u;
      assert r[i] == byKey[u];
    }
  }

  /** When every key to push has a local row, the corrected rows are exactly what the code as
      written computes. */
  lemma {:induction false} PushRowsAgree(byKey: map<string, Row>, toPush: seq<string>)
    requires forall u :: u in toPush ==> u in byKey
    ensures PushRowsAsWritten(byKey, toPush) == Some(PushRows(byKey, toPush))
    decreases |toPush|
  {
    if toPush != [] {
      assert forall u :: u in toPush[1..] ==> u in toPush;
      PushRowsAgree(byKey, toPush[1..]);
      var ks := Present(byKey, toPush[1..]);
      assert Present(byKey, toPush) == [toPush[0]] + ks;
      assert PushRows(byKey, toPush) == [byKey[toPush[0]]] + PushRows(byKey, toPush[1..]);
    }
  }

  /** `local_data_map` once `_pull_updates` has merged: that call indexes the same row dicts
      (line 194) and updates them in place (line 215), so every local key's row is the merged
      one; rows new from the remote are fresh dicts and not in this map. */
  function AfterPull(byKey: map<string, Row>, merged: map<string, Row>): map<string, Row>
  {
    map u | u in byKey :: if u in merged then merged[u] else byKey[u]
  }

  /** `local_data_map` as line 130 reads it: as read when nothing was pulled, otherwise after
      the merge. */
  function PushSource(rows: seq<Row>, key: string, toPull: seq<string>, query: Query): map<string, Row>
  {
    var byKey := RowsByKey(rows, key);
    if toPull == [] then byKey else AfterPull(byKey, Merged(rows, key, Fetched(toPull, key, query)).values)
  }

  // ---------------------------------------------------------------------------------------------
  // One table (lines 56-131)

  /** What `_sync_table` does for the table `tableKey`, given the keys it classified for
      pushing and pulling: a missing file is skipped; an unreadable one stops the sync; otherwise
      the keys are classified against the remote metadata, the pulled keys are written to the
      file, and the local rows of the pushed keys are upserted. */
  ghost predicate SyncedAs(result: TableSync, toPush: seq<string>, toPull: seq<string>, tableKey: string,
                           connected: bool, local: LocalFile, remote: Remote, headers: Headers, now: string)
    requires tableKey in Tables
  {
    var conf := Tables[tableKey];
    match local
    case Missing => result == Skipped
    case Unreadable => result == ReadFailed
    case Rows(rows) =>
      var meta := MetaSeen(connected, remote.meta);
      var remoteTs := MetaMap(meta.rows, Consumed(meta, 0));
      var fieldnames := if rows != [] then rows[0].Keys else {};
      && result.Synced?
      && Classification(toPush, toPull, LocalTimestamps(rows, conf.key), remoteTs)
      && (toPull == [] <==> result.written.None?)
      && (toPull != [] ==> Wrote(result.written.value, conf.key, toPull, rows, fieldnames, QuerySeen(connected, remote.query)))
      && result.upsert == (if toPush == [] then None
                           else UpsertRequest(connected, tableKey,
                                  PushRows(PushSource(rows, conf.key, toPull, QuerySeen(connected, remote.query)), toPush), headers, now))
  }

  /** `_sync_table(table_key, TABLE_CONFIG[table_key])`, with the rows to push taken only from
      keys that have a local row. `toPush` and `toPull` are the classified keys, in the order
      the set iteration produced them. The `except` of lines 79-81 cannot fire: the metadata
      fetch catches every error itself. */
  method SyncTable(tableKey: string, connected: bool, local: LocalFile, remote: Remote, headers: Headers, now: string)
    returns (result: TableSync, ghost toPush: seq<string>, ghost toPull: seq<string>)
    requires tableKey in Tables
    ensures SyncedAs(result, toPush, toPull, tableKey, connected, local, remote, headers, now)
  {
    var conf := Tables[tableKey];
    if local.Missing? {
      return Skipped, [], [];
    }
    var remoteMap;
    ghost var requests;
    remoteMap, requests := FetchRemoteMetadata(MetaSeen(connected, remote.meta));
    if local.Unreadable? {
      return ReadFailed, [], [];
    }
    var rows := local.rows;
    var localMap := LocalTimestamps(rows, conf.key);
    var localDataMap := RowsByKey(rows, conf.key);
    var pushIds, pullIds := ClassifyKeys(localMap, remoteMap);
    toPush, toPull := pushIds, pullIds;
    var written: Option<CsvFile> := None;
    if pullIds != [] {
      var fieldnames := if rows != [] then rows[0].Keys else {};
      var merged;
      written, merged := PullUpdates(conf.key, pullIds, rows, fieldnames, QuerySeen(connected, remote.query));
      localDataMap := AfterPull(localDataMap, merged.values);
    }
    var upsert: Option<UpsertCall> := None;
    if pushIds != [] {
      upsert := BatchUpsert(connected, tableKey, PushRows(localDataMap, pushIds), headers, now);
    }
    result := Synced(written, upsert);
  }

  /** No key is both pushed and pulled. */
  lemma PushAndPullAreDisjoint(toPush: seq<string>, toPull: seq<string>,
                               localTs: map<string, Option<string>>, remoteTs: map<string, Option<string>>)
    requires Classification(toPush, toPull, localTs, remoteTs)
    ensures forall u :: !(u in toPush && u in toPull)
  {
    forall u | u in toPush && u in toPull
      ensures false
    {
      ClassificationIsExclusive(localTs, remoteTs, u);
    }
  }

  /** The rows pushed depend only on the keys of the map and on the rows of the keys to push. */
  lemma {:induction false} PushRowsReads(a: map<string, Row>, b: map<string, Row>, toPush: seq<string>)
    requires a.Keys == b.Keys
    requires forall u :: u in toPush && u in a ==> a[u] == b[u]
    ensures Present(a, toPush) == Present(b, toPush)
    ensures PushRows(a, toPush) == PushRows(b, toPush)
    decreases |toPush|
  {
    if toPush != [] {
      assert forall u :: u in toPush[1..] ==> u in toPush;
      PushRowsReads(a, b, toPush[1..]);
    }
  }

  /** When the database answers only with rows of the keys asked for, the merge of a pull does
      not reach the rows pushed: a key classified for pushing is not pulled, so it is not
      fetched, and its row dict is left as read. */
  lemma PulledRowsLeavePushedAlone(rows: seq<Row>, key: string, toPush: seq<string>, toPull: seq<string>, query: Query,
                                   remoteTs: map<string, Option<string>>)
    requires Answers(query, key)
    requires Classification(toPush, toPull, LocalTimestamps(rows, key), remoteTs)
    ensures forall u :: u in Fetched(toPull, key, query).values ==> u !in toPush
    ensures PushRows(PushSource(rows, key, toPull, query), toPush) == PushRows(RowsByKey(rows, key), toPush)
  {
    var byKey := RowsByKey(rows, key);
    var fetched := Fetched(toPull, key, query);
    FetchedOnlyAsked(toPull, key, query);
    PushAndPullAreDisjoint(toPush, toPull, LocalTimestamps(rows, key), remoteTs);
    if toPull != [] {
      var merged := Merged(rows, key, fetched);
      OneRecordPerKey(rows, key, fetched);
      var after := AfterPull(byKey, merged.values);
      forall u | u in toPush && u in byKey
        ensures after[u] == byKey[u]
      {
        assert u !in fetched.values;
      }
      PushRowsReads(after, byKey, toPush);
    }
  }

  /** Every row pushed is a CSV row with a filled key classified for pushing, and the last CSV
      row with that key. */
  lemma PushedRowsAreLocal(rows: seq<Row>, key: string, toPush: seq<string>)
    ensures var pushed := PushRows(RowsByKey(rows, key), toPush);
      forall i :: 0 <= i < |pushed| ==>
        && Filled(Get(pushed[i], key)) && Get(pushed[i], key).value in toPush
        && (exists j :: 0 <= j < |rows| && pushed[i] == rows[j])
        && LastKeyed(rows, key, Get(pushed[i], key).value, pushed[i])
  {
    var byKey := RowsByKey(rows, key);
    var pushed := PushRows(byKey, toPush);
    IndexKeys(rows, key);
    PushRowsFacts(byKey, toPush);
    forall i | 0 <= i < |pushed|
      ensures && Filled(Get(pushed[i], key)) && Get(pushed[i], key).value in toPush
              && (exists j :: 0 <= j < |rows| && pushed[i] == rows[j])
              && LastKeyed(rows, key, Get(pushed[i], key).value, pushed[i])
    {
      assert RowOfKeyIn(pushed[i], byKey, toPush);
      var u :| u in toPush && u in byKey && pushed[i] == byKey[u];
      var j :| 0 <= j < |rows| && KeyedBy(rows[j], key, u) && byKey[u] == rows[j];
    }
  }

  /** Without a client nothing is pulled, the file is not rewritten and no upsert is sent: every
      metadata page fails, so the remote side looks empty and every key is for pushing. */
  lemma OfflineSyncChangesNothing(result: TableSync, toPush: seq<string>, toPull: seq<string>, tableKey: string,
                                  rows: seq<Row>, remote: Remote, headers: Headers, now: string)
    requires tableKey in Tables
    requires SyncedAs(result, toPush, toPull, tableKey, false, Rows(rows), remote, headers, now)
    ensures result == Synced(None, None)
  {
    OfflineRemoteIsEmpty(remote.meta);
    NothingToPullFromEmpty(toPush, toPull, LocalTimestamps(rows, Tables[tableKey].key));
  }

  lemma OfflineRemoteIsEmpty(t: RemoteTable)
    ensures var meta := MetaSeen(false, t); MetaMap(meta.rows, Consumed(meta, 0)) == map[]
  {
    assert Consumed(MetaSeen(false, t), 0) == 0;
  }

  lemma NothingToPullFromEmpty(toPush: seq<string>, toPull: seq<string>, localTs: map<string, Option<string>>)
    requires Classification(toPush, toPull, localTs, map[])
    ensures toPull == []
  {
    forall u | u in toPull
      ensures false
    {
    }
    if toPull != [] {
      HeadIsMember(toPull);
    }
  }

  lemma HeadIsMember(s: seq<string>)
    requires s != []
    ensures s[0] in s
  {
  }

  // ---------------------------------------------------------------------------------------------
  // Values that travel both ways

  /** A remote `date` that starts `YYYY-MM-DD` is written to the CSV as `DD.MM.YYYY` and is
      sent back as the original date. */
  lemma DateRoundTrip(s: string)
    requires StartsWithIsoDate(s)
    ensures CleanValue("date", Some(NormalizeValue("date", Text(s)))) == Some(s[..10])
  {
    DateColumnTravels("date", s);
  }

  /** For any date column: the CSV text of a remote value starting `YYYY-MM-DD` is cleaned back
      into that date. */
  lemma DateColumnTravels(k: string, s: string)
    requires k in DateFields && StartsWithIsoDate(s)
    ensures CleanValue(k, Some(NormalizeValue(k, Text(s)))) == Some(s[..10])
  {
    NormalizeValueCases(k, Text(s));
    var n := NormalizeValue(k, Text(s));
    assert DottedDateMatch(n) && n != "" && n != "N/A";
    CleanValueCases(k, Some(n));
    SwapBack(s, n);
  }

  lemma SwapBack(s: string, n: string)
    requires StartsWithIsoDate(s) && n == s[8..10] + "." + s[5..7] + "." + s[..4]
    ensures n[6..10] + "-" + n[3..5] + "-" + n[..2] == s[..10]
  {
    assert n[6..10] == s[..4] && n[3..5] == s[5..7] && n[..2] == s[8..10];
    assert s[..4] + "-" + s[5..7] + "-" + s[8..10] == s[..10];
  }

  /** A remote `date_updated` or `last_extracted` is written to the CSV as a bare `DD.MM.YYYY`
      date; the upsert turns it back into `YYYY-MM-DD`, which is not a full timestamp, so it is
      sent as `now` instead. */
  lemma DateTimestampIsReplaced(k: string, s: string, row: Row, w: set<string>, now: string)
    requires k == "date_updated" || k == "last_extracted"
    requires StartsWithIsoDate(s) && k in w && k in row && row[k] == Some(NormalizeValue(k, Text(s)))
    ensures k in Cleaned(row, w, now) && Cleaned(row, w, now)[k] == Some(now)
  {
    DateColumnTravels(k, s);
    var v := CleanValue(k, row[k]).value;
    assert v == s[..10];
    DateIsNotTimestamp(v);
    CleanedFacts(row, w, now);
    assert k in TimestampColumns && k != "id";
  }

  /** The upsert sends the `date` column cleaned and does not check it as a timestamp. */
  lemma DateColumnIsKept(row: Row, w: set<string>, now: string)
    requires "date" in row && "date" in w
    ensures "date" in Cleaned(row, w, now) && Cleaned(row, w, now)["date"] == CleanValue("date", row["date"])
  {
    CleanedFacts(row, w, now);
    assert "date" !in TimestampColumns && "date" != "id";
  }

  // ---------------------------------------------------------------------------------------------
  // Start-up (lines 39-54)

  /** `TABLE_CONFIG.items()` visits every configured table once. */
  lemma TableOrderIsConfig()
    ensures Distinct(TableOrder)
    ensures forall t :: t in TableOrder <==> t in Tables
    ensures forall i :: 0 <= i < |TableOrder| ==> TableOrder[i] in Tables
  {
  }

  /** The configured table `t` was synced with a client, as `SyncedAs` describes. */
  ghost predicate TableSynced(result: TableSync, toPush: seq<string>, toPull: seq<string>, t: string,
                              files: string -> LocalFile, remotes: string -> Remote, headers: Headers, now: string)
  {
    t in Tables && SyncedAs(result, toPush, toPull, t, true, files(t), remotes(t), headers, now)
  }

  /** The tables synced so far, followed by the next one. */
  lemma ExtendSynced(results: seq<TableSync>, pushes: seq<seq<string>>, pulls: seq<seq<string>>,
                     r: TableSync, push: seq<string>, pull: seq<string>,
                     files: string -> LocalFile, remotes: string -> Remote, headers: Headers, now: string)
    requires |results| == |pushes| == |pulls| < |TableOrder|
    requires forall j :: 0 <= j < |results| ==> TableSynced(results[j], pushes[j], pulls[j], TableOrder[j], files, remotes, headers, now)
    requires TableSynced(r, push, pull, TableOrder[|results|], files, remotes, headers, now)
    ensures forall j :: 0 <= j < |results| + 1 ==>
      TableSynced((results + [r])[j], (pushes + [push])[j], (pulls + [pull])[j], TableOrder[j], files, remotes, headers, now)
  {
    forall j | 0 <= j < |results| + 1
      ensures TableSynced((results + [r])[j], (pushes + [push])[j], (pulls + [pull])[j], TableOrder[j], files, remotes, headers, now)
    {
      if j < |results| {
        assert (results + [r])[j] == results[j] && (pushes + [push])[j] == pushes[j] && (pulls + [pull])[j] == pulls[j];
      }
    }
  }

  /** `sync_on_startup`: nothing without a client; otherwise every table in turn, each as
      `SyncedAs` describes, with `pushes[i]` and `pulls[i]` the keys table `i` classified. */
  method SyncOnStartup(connected: bool, files: string -> LocalFile, remotes: string -> Remote, headers: Headers, now: string)
    returns (results: seq<TableSync>, ghost pushes: seq<seq<string>>, ghost pulls: seq<seq<string>>)
    ensures !connected ==> results == []
    ensures connected ==> |results| == |pushes| == |pulls| == |TableOrder|
    ensures connected ==> forall i :: 0 <= i < |TableOrder| ==>
      TableSynced(results[i], pushes[i], pulls[i], TableOrder[i], files, remotes, headers, now)
  {
    results, pushes, pulls := [], [], [];
    if !connected {
      return;
    }
    TableOrderIsConfig();
    var i := 0;
    while i < |TableOrder|
      invariant i <= |TableOrder| && |results| == |pushes| == |pulls| == i
      invariant forall j :: 0 <= j < i ==> TableSynced(results[j], pushes[j], pulls[j], TableOrder[j], files, remotes, headers, now)
    {
      var t := TableOrder[i];
      var r;
      ghost var push, pull;
      r, push, pull := SyncTable(t, true, files(t), remotes(t), headers, now);
      ExtendSynced(results, pushes, pulls, r, push, pull, files, remotes, headers, now);
      results, pushes, pulls := results + [r], pushes + [push], pulls + [pull];
      i := i + 1;
    }
  }
}
