/** Deciding, key by key, which way a row travels (`_sync_table`, sync_manager.py:93-120). */
module Classify {
  import opened Wrappers
  import opened Text
  import opened SyncTypes
  import opened OrderedMaps

  /** A row's key value is filled and equals a given key. */
  predicate KeyedBy(row: Row, key: string, u: string)
  {
    Get(row, key) == Some(u) && u != ""
  }

  /** The dict comprehension `{row[key]: row for row in rows if row.get(key)}` continued from `d`:
      every row with a filled key is stored under it; a repeated key keeps its first place and
      takes the later row. */
  function IndexFrom(d: ODict<Row>, rows: seq<Row>, key: string): (r: ODict<Row>)
    requires d.Valid()
    ensures r.Valid()
    decreases |rows|
  {
    if rows == [] then d
    else
      var v := Get(rows[0], key);
      IndexFrom(if Filled(v) then d.Put(v.value, rows[0]) else d, rows[1..], key)
  }

  /** The keys the comprehension holds: those of `d` and the filled keys of the rows. */
  lemma {:induction false} IndexFromMembers(d: ODict<Row>, rows: seq<Row>, key: string)
    requires d.Valid()
    ensures forall u :: u in IndexFrom(d, rows, key).values <==>
      u in d.values || exists i :: 0 <= i < |rows| && KeyedBy(rows[i], key, u)
    decreases |rows|
  {
    if rows != [] {
      var v := Get(rows[0], key);
      var d' := if Filled(v) then d.Put(v.value, rows[0]) else d;
      IndexFromMembers(d', rows[1..], key);
      forall u | exists i :: 0 <= i < |rows| && KeyedBy(rows[i], key, u)
        ensures u in d'.values || exists i :: 0 <= i < |rows[1..]| && KeyedBy(rows[1..][i], key, u)
      {
        var i :| 0 <= i < |rows| && KeyedBy(rows[i], key, u);
        if i > 0 {
          assert KeyedBy(rows[1..][i - 1], key, u);
        }
      }
      assert forall i :: 1 <= i < |rows| ==> rows[1..][i - 1] == rows[i];
    }
  }

  /** Each row the comprehension holds is filed under its own key, when those of `d` are. */
  lemma {:induction false} IndexFromFiled(d: ODict<Row>, rows: seq<Row>, key: string)
    requires d.Valid()
    requires forall u :: u in d.values ==> Get(d.values[u], key) == Some(u)
    ensures forall u :: u in IndexFrom(d, rows, key).values ==> Get(IndexFrom(d, rows, key).values[u], key) == Some(u)
    decreases |rows|
  {
    if rows != [] {
      var v := Get(rows[0], key);
      var d' := if Filled(v) then d.Put(v.value, rows[0]) else d;
      IndexFromFiled(d', rows[1..], key);
    }
  }

  /** `v` is the last of the rows keyed `u`. */
  ghost predicate LastKeyed(rows: seq<Row>, key: string, u: string, v: Row)
  {
    exists i :: 0 <= i < |rows| && KeyedBy(rows[i], key, u) && v == rows[i] &&
      forall j :: i < j < |rows| ==> !KeyedBy(rows[j], key, u)
  }

  /** What the comprehension stores under each key: the last row with that key, or, for a key
      no row has, what `d` held. */
  lemma {:induction false} IndexFromLastWins(d: ODict<Row>, rows: seq<Row>, key: string)
    requires d.Valid()
    ensures var r := IndexFrom(d, rows, key);
      forall u :: u in r.values ==>
        || LastKeyed(rows, key, u, r.values[u])
        || (u in d.values && r.values[u] == d.values[u] && NoneKeyed(rows, key, u))
    decreases |rows|
  {
    if rows != [] {
      var v := Get(rows[0], key);
      var d' := if Filled(v) then d.Put(v.value, rows[0]) else d;
      var r := IndexFrom(d, rows, key);
      assert r == IndexFrom(d', rows[1..], key);
      IndexFromLastWins(d', rows[1..], key);
      forall u | u in r.values
        ensures || LastKeyed(rows, key, u, r.values[u])
                || (u in d.values && r.values[u] == d.values[u] && NoneKeyed(rows, key, u))
      {
        if LastKeyed(rows[1..], key, u, r.values[u]) {
          LastKeyedShift(rows, key, u, r.values[u]);
        } else {
          NoneKeyedShift(rows, key, u);
          if KeyedBy(rows[0], key, u) {
            assert LastKeyed(rows, key, u, rows[0]);
          }
        }
      }
    }
  }

  /** No row is keyed `u`. */
  ghost predicate NoneKeyed(rows: seq<Row>, key: string, u: string)
  {
    forall j :: 0 <= j < |rows| ==> !KeyedBy(rows[j], key, u)
  }

  lemma LastKeyedShift(rows: seq<Row>, key: string, u: string, v: Row)
    requires rows != [] && LastKeyed(rows[1..], key, u, v)
    ensures LastKeyed(rows, key, u, v)
  {
    var i :| 0 <= i < |rows[1..]| && KeyedBy(rows[1..][i], key, u) && v == rows[1..][i] &&
      forall j :: i < j < |rows[1..]| ==> !KeyedBy(rows[1..][j], key, u);
    assert rows[i + 1] == rows[1..][i];
    forall j | i + 1 < j < |rows|
      ensures !KeyedBy(rows[j], key, u)
    {
      assert rows[j] == rows[1..][j - 1];
    }
  }

  /** The rows are not keyed `u` exactly when neither the first nor any later one is. */
  lemma NoneKeyedShift(rows: seq<Row>, key: string, u: string)
    requires rows != []
    ensures NoneKeyed(rows, key, u) <==> !KeyedBy(rows[0], key, u) && NoneKeyed(rows[1..], key, u)
  {
    if !KeyedBy(rows[0], key, u) && NoneKeyed(rows[1..], key, u) {
      forall j | 0 < j < |rows|
        ensures !KeyedBy(rows[j], key, u)
      {
        assert rows[j] == rows[1..][j - 1];
      }
    }
    if NoneKeyed(rows, key, u) {
      forall j | 0 <= j < |rows[1..]|
        ensures !KeyedBy(rows[1..][j], key, u)
      {
        assert rows[1..][j] == rows[j + 1];
      }
    }
  }

  /** `local_data_map` (line 94), and `local_map` of `_pull_updates` (line 194): the CSV rows
      with a filled key, by key. */
  function Index(rows: seq<Row>, key: string): (r: ODict<Row>)
    ensures r.Valid()
  {
    IndexFrom(Empty(), rows, key)
  }

  /** The keys of the index are the filled keys of the rows, each row is filed under its own
      key, and the row stored under a key is the last CSV row with that key. */
  lemma IndexKeys(rows: seq<Row>, key: string)
    ensures var r := Index(rows, key);
      && (forall u :: u in r.values <==> exists i :: 0 <= i < |rows| && KeyedBy(rows[i], key, u))
      && (forall u :: u in r.values ==> Get(r.values[u], key) == Some(u))
      && (forall u :: u in r.values ==> LastKeyed(rows, key, u, r.values[u]))
  {
    IndexFromMembers(Empty(), rows, key);
    IndexFromFiled(Empty(), rows, key);
    IndexFromLastWins(Empty(), rows, key);
  }

  /** The `i`-th CSV row, when no later row has its key, is the row stored under that key. */
  lemma IndexHoldsLast(rows: seq<Row>, key: string, i: nat)
    requires i < |rows| && Filled(Get(rows[i], key))
    ensures var u := Get(rows[i], key).value; var r := Index(rows, key);
      u in r.values &&
      ((forall j :: i < j < |rows| ==> !KeyedBy(rows[j], key, u)) ==> r.values[u] == rows[i])
  {
    var u := Get(rows[i], key).value;
    var r := Index(rows, key);
    IndexKeys(rows, key);
    assert KeyedBy(rows[i], key, u);
    if forall j :: i < j < |rows| ==> !KeyedBy(rows[j], key, u) {
      var i' :| 0 <= i' < |rows| && KeyedBy(rows[i'], key, u) && r.values[u] == rows[i'] &&
        forall j :: i' < j < |rows| ==> !KeyedBy(rows[j], key, u);
      assert i' == i;
    }
  }

  /** `local_data_map` as a map. */
  function RowsByKey(rows: seq<Row>, key: string): map<string, Row>
  {
    Index(rows, key).values
  }

  /** `row.get('last_updated', '')`. */
  function LocalTimestamp(row: Row): Option<string>
  {
    if "last_updated" in row then row["last_updated"] else Some("")
  }

  /** `local_map`: the timestamp of every keyed CSV row, by key. The comprehension runs over the
      same rows with the same filter as `local_data_map`, so it is that map's timestamps. */
  function LocalTimestamps(rows: seq<Row>, key: string): map<string, Option<string>>
  {
    var byKey := RowsByKey(rows, key);
    map u | u in byKey :: LocalTimestamp(byKey[u])
  }

  /** `m.get(u)`, flattening an absent key and a stored `None` (both are false to `not`). */
  function TsOf(m: map<string, Option<string>>, u: string): Option<string>
  {
    if u in m then m[u] else None
  }

  datatype Decision = Push | Pull | Neither

  /** Lines 107-120 for one key. */
  function Decide(local: Option<string>, remote: Option<string>): Decision
  {
    if !Filled(remote) then Push
    else if !Filled(local) then Pull
    else if LexLess(remote.value, local.value) then Push
    else if LexLess(local.value, remote.value) then Pull
    else Neither
  }

  /** The three outcomes of the comparison, each stated as the condition that produces it. */
  lemma DecideCases(local: Option<string>, remote: Option<string>)
    ensures Decide(local, remote) == Push <==> !Filled(remote) || (Filled(local) && LexLess(remote.value, local.value))
    ensures Decide(local, remote) == Pull <==> Filled(remote) && (!Filled(local) || LexLess(local.value, remote.value))
    ensures Decide(local, remote) == Neither <==> Filled(local) && Filled(remote) && local.value == remote.value
  {
    if Filled(local) && Filled(remote) {
      LexLessTrichotomy(local.value, remote.value);
    }
  }

  /** Keys on either side. */
  function AllIds(localTs: map<string, Option<string>>, remoteTs: map<string, Option<string>>): set<string>
  {
    localTs.Keys + remoteTs.Keys
  }

  /** Every key of either side lands in the list its decision names, once, and in no other. */
  ghost predicate Classification(toPush: seq<string>, toPull: seq<string>, localTs: map<string, Option<string>>, remoteTs: map<string, Option<string>>)
  {
    && Distinct(toPush) && Distinct(toPull)
    && (forall u :: u in toPush <==> u in AllIds(localTs, remoteTs) && Decide(TsOf(localTs, u), TsOf(remoteTs, u)) == Push)
    && (forall u :: u in toPull <==> u in AllIds(localTs, remoteTs) && Decide(TsOf(localTs, u), TsOf(remoteTs, u)) == Pull)
  }

  /** The loop of lines 103-120 over `all_ids`, visited in the set's own (unspecified) order. */
  method ClassifyKeys(localTs: map<string, Option<string>>, remoteTs: map<string, Option<string>>)
    returns (toPush: seq<string>, toPull: seq<string>)
    ensures Classification(toPush, toPull, localTs, remoteTs)
  {
    var all := AllIds(localTs, remoteTs);
    var todo := all;
    toPush, toPull := [], [];
    while todo != {}
      invariant todo <= all
      invariant Distinct(toPush) && Distinct(toPull)
      invariant forall u :: u in toPush <==> u in all - todo && Decide(TsOf(localTs, u), TsOf(remoteTs, u)) == Push
      invariant forall u :: u in toPull <==> u in all - todo && Decide(TsOf(localTs, u), TsOf(remoteTs, u)) == Pull
      decreases todo
    {
      var uid :| uid in todo;
      match Decide(TsOf(localTs, uid), TsOf(remoteTs, uid)) {
        case Push => toPush := toPush + [uid];
        case Pull => toPull := toPull + [uid];
        case Neither =>
      }
      todo := todo - {uid};
    }
  }

  /** No key is both pushed and pulled, and a key goes neither way exactly when both sides hold
      the same non-empty timestamp. */
  lemma ClassificationIsExclusive(localTs: map<string, Option<string>>, remoteTs: map<string, Option<string>>, u: string)
    ensures !(Decide(TsOf(localTs, u), TsOf(remoteTs, u)) == Push && Decide(TsOf(localTs, u), TsOf(remoteTs, u)) == Pull)
    ensures Decide(TsOf(localTs, u), TsOf(remoteTs, u)) == Neither <==>
              u in localTs && u in remoteTs && Filled(localTs[u]) && localTs[u] == remoteTs[u]
  {
    DecideCases(TsOf(localTs, u), TsOf(remoteTs, u));
  }

  /** A second run over maps that agree, such as the maps right after a pull, has nothing to
      do: with the same keys and the same non-empty timestamps on both sides, no key is pushed
      or pulled. */
  lemma SecondRunIsIdle(localTs: map<string, Option<string>>, remoteTs: map<string, Option<string>>)
    requires localTs == remoteTs
    requires forall u :: u in localTs ==> Filled(localTs[u])
    ensures forall u :: u in AllIds(localTs, remoteTs) ==> Decide(TsOf(localTs, u), TsOf(remoteTs, u)) == Neither
  {
    forall u | u in AllIds(localTs, remoteTs)
      ensures Decide(TsOf(localTs, u), TsOf(remoteTs, u)) == Neither
    {
      DecideCases(TsOf(localTs, u), TsOf(remoteTs, u));
    }
  }

  /** A key held only locally, or whose remote row has no timestamp, is pushed; a key held only
      remotely with a timestamp is pulled. */
  lemma OneSidedKeys(localTs: map<string, Option<string>>, remoteTs: map<string, Option<string>>, u: string)
    ensures u !in remoteTs ==> Decide(TsOf(localTs, u), TsOf(remoteTs, u)) == Push
    ensures u in remoteTs && Filled(remoteTs[u]) && u !in localTs ==> Decide(TsOf(localTs, u), TsOf(remoteTs, u)) == Pull
  {
  }

  /** Remote `{A: 2024-01-01T00:00:00}` against local `{A: 2024-02-01T00:00:00,
      B: 2024-01-15T00:00:00}`: A is newer locally and B exists only locally, so both are
      pushed and nothing is pulled. */
  lemma NewerLocalScenario()
    ensures var local := map["A" := Some("2024-02-01T00:00:00"), "B" := Some("2024-01-15T00:00:00")];
      var remote := map["A" := Some("2024-01-01T00:00:00")];
      && Decide(TsOf(local, "A"), TsOf(remote, "A")) == Push
      && Decide(TsOf(local, "B"), TsOf(remote, "B")) == Push
      && (forall u :: Decide(TsOf(local, u), TsOf(remote, u)) != Pull)
  {
    var a, b := "2024-01-01T00:00:00", "2024-02-01T00:00:00";
    OneMonthLater(a, b);
  }

  /** `2024-02-01T00:00:00` is later than `2024-01-01T00:00:00`. */
  lemma OneMonthLater(a: string, b: string)
    requires a == "2024-01-01T00:00:00" && b == "2024-02-01T00:00:00"
    ensures Decide(Some(b), Some(a)) == Push
  {
    assert a[..6] == b[..6] && a[6] < b[6];
    LexLessAtFirstDifference(a, b, 6);
  }

  /** Strings sharing a prefix compare as their first differing characters do. */
  lemma {:induction false} LexLessAtFirstDifference(a: string, b: string, n: nat)
    requires n < |a| && n < |b| && a[..n] == b[..n] && a[n] < b[n]
    ensures LexLess(a, b)
  {
    if n > 0 {
      assert a[0] == a[..n][0] == b[..n][0] == b[0];
      assert a[1..][..n - 1] == a[..n][1..] == b[..n][1..] == b[1..][..n - 1];
      LexLessAtFirstDifference(a[1..], b[1..], n - 1);
    }
  }
}
