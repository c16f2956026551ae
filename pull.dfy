/** Bringing newer remote rows into the local CSV (`_pull_updates`, sync_manager.py:173-243):
    fetch the rows in batches, normalise their values to the CSV's conventions, merge them into
    the local rows, and compute the column order of the rewritten file. */
module Pull {
  import opened Wrappers
  import opened Text
  import opened SyncTypes
  import opened OrderedMaps
  import opened Classify

  // ---------------------------------------------------------------------------------------------
  // Fetching (lines 180-191)

  /** `select("*").in_(key, batch).execute()`: the rows returned for a batch of keys, or `None`
      when the call raises. */
  type Query = seq<string> -> Option<seq<RemoteRow>>

  function Concat(bs: seq<seq<string>>): seq<string>
  {
    if bs == [] then [] else bs[0] + Concat(bs[1..])
  }

  /** `ids[i:i + 200]` for `i` in `range(0, len(ids), 200)`: non-empty batches of at most 200
      keys that together are `ids`, in order, every one but the last holding exactly 200. */
  function Batches(ids: seq<string>): (bs: seq<seq<string>>)
    ensures forall j :: 0 <= j < |bs| ==> 0 < |bs[j]| <= PullBatchSize
    ensures forall j :: 0 <= j < |bs| - 1 ==> |bs[j]| == PullBatchSize
    ensures Concat(bs) == ids
    decreases |ids|
  {
    if ids == [] then []
    else if |ids| <= PullBatchSize then
      assert [ids][1..] == [];
      [ids]
    else
      var bs := [ids[..PullBatchSize]] + Batches(ids[PullBatchSize..]);
      assert bs[1..] == Batches(ids[PullBatchSize..]);
      assert ids[..PullBatchSize] + ids[PullBatchSize..] == ids;
      bs
  }

  /** Lines 188-189 for the rows of one answered batch, continued from `d`: each row is stored
      under `str(row[key])`. A row without the key field raises `KeyError`, which the `except`
      of line 190 catches, so the rest of that batch is lost. */
  function AddRows(d: ODict<RemoteRow>, rows: seq<RemoteRow>, key: string): (r: ODict<RemoteRow>)
    requires d.Valid()
    ensures r.Valid()
    decreases |rows|
  {
    if rows == [] || key !in rows[0] then d
    else AddRows(d.Put(Show(rows[0][key]), rows[0]), rows[1..], key)
  }

  /** The batch loop continued from `d`: a batch whose request raises adds nothing. */
  function Collect(d: ODict<RemoteRow>, bs: seq<seq<string>>, key: string, query: Query): (r: ODict<RemoteRow>)
    requires d.Valid()
    ensures r.Valid()
    decreases |bs|
  {
    if bs == [] then d
    else
      var d' := match query(bs[0]) case None => d case Some(rows) => AddRows(d, rows, key);
      Collect(d', bs[1..], key, query)
  }

  /** `upserted_rows` after the batch loop. */
  function Fetched(ids: seq<string>, key: string, query: Query): (r: ODict<RemoteRow>)
    ensures r.Valid()
  {
    Collect(Empty(), Batches(ids), key, query)
  }

  /** Every remote row is filed under `str()` of its own key value. */
  ghost predicate FiledByKey(d: ODict<RemoteRow>, key: string)
  {
    forall u :: u in d.values ==> key in d.values[u] && Show(d.values[u][key]) == u
  }

  lemma {:induction false} AddRowsFiles(d: ODict<RemoteRow>, rows: seq<RemoteRow>, key: string)
    requires d.Valid() && FiledByKey(d, key)
    ensures FiledByKey(AddRows(d, rows, key), key)
    decreases |rows|
  {
    if rows != [] && key in rows[0] {
      AddRowsFiles(d.Put(Show(rows[0][key]), rows[0]), rows[1..], key);
    }
  }

  lemma {:induction false} CollectFiles(d: ODict<RemoteRow>, bs: seq<seq<string>>, key: string, query: Query)
    requires d.Valid() && FiledByKey(d, key)
    ensures FiledByKey(Collect(d, bs, key, query), key)
    decreases |bs|
  {
    if bs != [] {
      var d' := match query(bs[0]) case None => d case Some(rows) => AddRows(d, rows, key);
      if query(bs[0]).Some? {
        AddRowsFiles(d, query(bs[0]).value, key);
      }
      CollectFiles(d', bs[1..], key, query);
    }
  }

  /** `upserted_rows` holds each fetched row under `str(row[key])`, once per key. */
  lemma FetchedIsFiledByKey(ids: seq<string>, key: string, query: Query)
    ensures FiledByKey(Fetched(ids, key, query), key)
  {
    CollectFiles(Empty(), Batches(ids), key, query);
  }

  /** The database answers `in_(key, batch)` as it should: every row it returns that has the
      key field has one of the batch's keys. */
  ghost predicate Answers(query: Query, key: string)
  {
    forall b :: query(b).Some? ==>
      forall j :: 0 <= j < |query(b).value| && key in query(b).value[j] ==> Show(query(b).value[j][key]) in b
  }

  lemma {:induction false} InConcat(bs: seq<seq<string>>, j: nat, u: string)
    requires j < |bs| && u in bs[j]
    ensures u in Concat(bs)
  {
    if j > 0 {
      InConcat(bs[1..], j - 1, u);
    }
  }

  lemma {:induction false} AddRowsAsked(d: ODict<RemoteRow>, rows: seq<RemoteRow>, key: string, asked: set<string>)
    requires d.Valid() && d.values.Keys <= asked
    requires forall j :: 0 <= j < |rows| && key in rows[j] ==> Show(rows[j][key]) in asked
    ensures AddRows(d, rows, key).values.Keys <= asked
    decreases |rows|
  {
    if rows != [] && key in rows[0] {
      assert forall j :: 0 <= j < |rows[1..]| ==> rows[1..][j] == rows[j + 1];
      AddRowsAsked(d.Put(Show(rows[0][key]), rows[0]), rows[1..], key, asked);
    }
  }

  lemma {:induction false} CollectAsked(d: ODict<RemoteRow>, bs: seq<seq<string>>, key: string, query: Query, asked: set<string>)
    requires d.Valid() && d.values.Keys <= asked && Answers(query, key)
    requires forall j, u :: 0 <= j < |bs| && u in bs[j] ==> u in asked
    ensures Collect(d, bs, key, query).values.Keys <= asked
    decreases |bs|
  {
    if bs != [] {
      var d' := match query(bs[0]) case None => d case Some(rows) => AddRows(d, rows, key);
      if query(bs[0]).Some? {
        AddRowsAsked(d, query(bs[0]).value, key, asked);
      }
      assert forall j :: 0 <= j < |bs[1..]| ==> bs[1..][j] == bs[j + 1];
      CollectAsked(d', bs[1..], key, query, asked);
    }
  }

  /** A database that answers as it should returns only rows of keys that were asked for. */
  lemma FetchedOnlyAsked(ids: seq<string>, key: string, query: Query)
    requires Answers(query, key)
    ensures forall u :: u in Fetched(ids, key, query).values ==> u in ids
  {
    var bs := Batches(ids);
    forall j, u | 0 <= j < |bs| && u in bs[j]
      ensures u in set x | x in ids
    {
      InConcat(bs, j, u);
    }
    CollectAsked(Empty(), bs, key, query, set x | x in ids);
  }

  /** One pass of the batch loop: the batch is taken in, from the rows of its answer, and the
      loop goes on with the next one. */
  lemma CollectStep(d: ODict<RemoteRow>, bs: seq<seq<string>>, b: nat, key: string, query: Query)
    requires d.Valid() && b < |bs|
    ensures var d' := match query(bs[b]) case None => d case Some(rows) => AddRows(d, rows, key);
      Collect(d, bs[b..], key, query) == Collect(d', bs[b + 1..], key, query)
  {
    assert bs[b..][0] == bs[b] && bs[b..][1..] == bs[b + 1..];
  }

  /** One row of an answered batch: stored under its key, or, when it has no key field, the
      end of that batch. */
  lemma AddRowsStep(d: ODict<RemoteRow>, rows: seq<RemoteRow>, j: nat, key: string)
    requires d.Valid() && j < |rows|
    ensures key !in rows[j] ==> AddRows(d, rows[j..], key) == d
    ensures key in rows[j] ==> AddRows(d, rows[j..], key) == AddRows(d.Put(Show(rows[j][key]), rows[j]), rows[j + 1..], key)
  {
    assert rows[j..][0] == rows[j] && rows[j..][1..] == rows[j + 1..];
  }

  /** Lines 188-189: the rows of one answered batch, taken in one at a time, until a row
      without the key field raises. */
  method TakeInBatch(d: ODict<RemoteRow>, rows: seq<RemoteRow>, key: string) returns (d': ODict<RemoteRow>)
    requires d.Valid()
    ensures d' == AddRows(d, rows, key)
  {
    d' := d;
    var j := 0;
    while j < |rows|
      invariant j <= |rows| && d'.Valid()
      invariant AddRows(d, rows, key) == AddRows(d', rows[j..], key)
    {
      AddRowsStep(d', rows, j, key);
      if key !in rows[j] {
        break;
      }
      d' := d'.Put(Show(rows[j][key]), rows[j]);
      j := j + 1;
    }
  }

  /** The batch loop of lines 184-191, over the slices `ids[i:i + 200]`. */
  method FetchUpdates(ids: seq<string>, key: string, query: Query) returns (fetched: ODict<RemoteRow>)
    ensures fetched == Fetched(ids, key, query)
  {
    fetched := Empty();
    var batches := Batches(ids);
    var b := 0;
    while b < |batches|
      invariant b <= |batches| && fetched.Valid()
      invariant Fetched(ids, key, query) == Collect(fetched, batches[b..], key, query)
    {
      CollectStep(fetched, batches, b, key, query);
      var answer := query(batches[b]);
      if answer.Some? {
        fetched := TakeInBatch(fetched, answer.value, key);
      }
      b := b + 1;
    }
  }

  // ---------------------------------------------------------------------------------------------
  // Normalising values (lines 198-212)

  /** `iso_date.split('-')` on the first ten characters of a value that starts `YYYY-MM-DD`
      is exactly year, month and day, so the unpacking at line 209 cannot fail. */
  lemma DateParts(s: string)
    requires StartsWithIsoDate(s)
    ensures Split(s[..10], '-') == [s[..4], s[5..7], s[8..10]]
  {
    var parts := [s[..4], s[5..7], s[8..10]];
    assert parts[1..] == [s[5..7], s[8..10]] && parts[1..][1..] == [s[8..10]];
    assert Join(parts[1..][1..], '-') == s[8..10];
    assert Join(parts[1..], '-') == s[5..7] + "-" + s[8..10];
    assert Join(parts, '-') == s[..4] + "-" + s[5..7] + "-" + s[8..10];
    assert s[..4] + "-" + s[5..7] + "-" + s[8..10] == s[..10];
    forall i | 0 <= i < 3
      ensures '-' !in parts[i]
    {
      assert forall c :: c in parts[i] ==> IsDigit(c);
    }
    SplitJoin(parts, '-');
  }

  /** Lines 208-210: `YYYY-MM-DD...` becomes `DD.MM.YYYY`. */
  function Dotted(s: string): string
    requires StartsWithIsoDate(s)
  {
    DateParts(s);
    var p := Split(s[..10], '-');
    p[2] + "." + p[1] + "." + p[0]
  }

  /** Lines 200-212: the text a remote value is stored as in the CSV. */
  function NormalizeValue(k: string, v: RemoteValue): string
  {
    match v
    case Null => ""
    case Boolean(b) => if b then "true" else "false"
    case _ =>
      var s := Show(v);
      if k in DateFields && StartsWithIsoDate(s) then Dotted(s) else s
  }

  /** What normalisation does, value by value: `None` is empty, a boolean is lower case, a date
      column that starts with an ISO date is rewritten `DD.MM.YYYY` (and then is such a date),
      and anything else is its `str()`. */
  lemma NormalizeValueCases(k: string, v: RemoteValue)
    ensures v.Null? ==> NormalizeValue(k, v) == ""
    ensures v.Boolean? ==> NormalizeValue(k, v) == (if v.b then "true" else "false")
    ensures !v.Null? && !v.Boolean? && k in DateFields && StartsWithIsoDate(Show(v)) ==>
      var s := Show(v);
      && NormalizeValue(k, v) == s[8..10] + "." + s[5..7] + "." + s[..4]
      && DottedDateExact(NormalizeValue(k, v))
    ensures !v.Null? && !v.Boolean? && !(k in DateFields && StartsWithIsoDate(Show(v))) ==>
      NormalizeValue(k, v) == Show(v)
  {
    if !v.Null? && !v.Boolean? && k in DateFields && StartsWithIsoDate(Show(v)) {
      DateParts(Show(v));
    }
  }

  /** `"2024-02-12T10:00:00"` in the `date` column is stored as `"12.02.2024"`. */
  lemma NormalizeExample(s: string)
    requires s == "2024-02-12T10:00:00"
    ensures NormalizeValue("date", Text(s)) == "12.02.2024"
  {
    assert Show(Text(s)) == s && "date" in DateFields;
    assert StartsWithIsoDate(s) by {
      assert Digits4(s, 0) && s[4] == '-' && Digits2(s, 5) && s[7] == '-' && Digits2(s, 8);
    }
    NormalizeValueCases("date", Text(s));
    assert s[8..10] == "12" && s[5..7] == "02" && s[..4] == "2024";
    assert "12" + "." + "02" + "." + "2024" == "12.02.2024";
  }

  /** `cleaned_remote`. */
  function NormalizeRow(r: RemoteRow): map<string, string>
  {
    map k | k in r :: NormalizeValue(k, r[k])
  }

  /** The inner loop of lines 199-212. */
  method CleanRemoteRow(r: RemoteRow) returns (cleaned: map<string, string>)
    ensures cleaned == NormalizeRow(r)
  {
    cleaned := map[];
    var todo := r.Keys;
    while todo != {}
      invariant todo <= r.Keys
      invariant cleaned.Keys == r.Keys - todo
      invariant forall k :: k in cleaned ==> cleaned[k] == NormalizeValue(k, r[k])
      decreases todo
    {
      var k :| k in todo;
      cleaned := cleaned[k := NormalizeValue(k, r[k])];
      todo := todo - {k};
    }
  }

  // ---------------------------------------------------------------------------------------------
  // Merging (lines 194-218)

  /** A normalised remote row as a CSV row. */
  function AsRow(m: map<string, string>): Row
  {
    map k | k in m :: Some(m[k])
  }

  /** The local row a remote row is merged into: the existing one, or a fresh dict. */
  function Base(d: ODict<Row>, u: string): Row
  {
    if u in d.values then d.values[u] else map[]
  }

  /** Lines 214-217 for one remote row: `dict.update` on an existing row (remote fields win,
      local-only fields stay), insertion of a new one. */
  function MergeOne(d: ODict<Row>, u: string, cleaned: map<string, string>): (r: ODict<Row>)
    requires d.Valid()
    ensures r.Valid()
  {
    d.Put(u, Base(d, u) + AsRow(cleaned))
  }

  /** The merge loop over the keys `ks` of `fetched`, continued from `d`. */
  function MergeFrom(d: ODict<Row>, fetched: ODict<RemoteRow>, ks: seq<string>): (r: ODict<Row>)
    requires d.Valid()
    requires forall k :: k in ks ==> k in fetched.values
    ensures r.Valid()
    decreases |ks|
  {
    if ks == [] then d
    else MergeFrom(MergeOne(d, ks[0], NormalizeRow(fetched.values[ks[0]])), fetched, ks[1..])
  }

  /** The keys of `ks` not already in `known`, in order. */
  function NewKeys(known: set<string>, ks: seq<string>): seq<string>
  {
    if ks == [] then []
    else (if ks[0] in known then [] else [ks[0]]) + NewKeys(known, ks[1..])
  }

  lemma {:induction false} NewKeysAgree(a: set<string>, b: set<string>, ks: seq<string>)
    requires forall k :: k in ks ==> (k in a <==> k in b)
    ensures NewKeys(a, ks) == NewKeys(b, ks)
  {
    if ks != [] {
      NewKeysAgree(a, b, ks[1..]);
    }
  }

  /** The rest of a list without repeats has no repeats and lacks its head. */
  lemma DistinctTail(ks: seq<string>)
    requires Distinct(ks) && ks != []
    ensures Distinct(ks[1..])
    ensures forall k :: k in ks[1..] ==> k in ks && k != ks[0]
  {
    forall k | k in ks[1..] ensures k in ks && k != ks[0] {
      var i :| 0 <= i < |ks[1..]| && ks[1..][i] == k;
      assert ks[i + 1] == k;
    }
    forall i, j | 0 <= i < j < |ks[1..]| ensures ks[1..][i] != ks[1..][j] {
      assert ks[1..][i] == ks[i + 1] && ks[1..][j] == ks[j + 1];
    }
  }

  /** Which keys the merge loop leaves, and in what order: the local ones in their places, then
      the new ones in fetch order. */
  lemma {:induction false} MergeFromKeys(d: ODict<Row>, fetched: ODict<RemoteRow>, ks: seq<string>)
    requires d.Valid() && Distinct(ks)
    requires forall k :: k in ks ==> k in fetched.values
    ensures var r := MergeFrom(d, fetched, ks);
      && r.keys == d.keys + NewKeys(d.values.Keys, ks)
      && (forall u :: u in r.values <==> u in d.values || u in ks)
    decreases |ks|
  {
    if ks != [] {
      var k0 := ks[0];
      var d' := MergeOne(d, k0, NormalizeRow(fetched.values[k0]));
      MergeOneKeys(d, k0, NormalizeRow(fetched.values[k0]));
      DistinctTail(ks);
      MergeFromKeys(d', fetched, ks[1..]);
      NewKeysAgree(d'.values.Keys, d.values.Keys, ks[1..]);
      NewKeysCons(d.values.Keys, ks);
    }
  }

  /** One merge step keeps the local keys in place and appends a new key. */
  lemma MergeOneKeys(d: ODict<Row>, u: string, cleaned: map<string, string>)
    requires d.Valid()
    ensures MergeOne(d, u, cleaned).keys == d.keys + (if u in d.values then [] else [u])
    ensures MergeOne(d, u, cleaned).values.Keys == d.values.Keys + {u}
  {
  }

  lemma NewKeysCons(known: set<string>, ks: seq<string>)
    requires ks != []
    ensures NewKeys(known, ks) == (if ks[0] in known then [] else [ks[0]]) + NewKeys(known, ks[1..])
  {
  }

  /** What the merge loop leaves under each key: a fetched key's row is the local row updated by
      the normalised remote row; any other local row is unchanged. */
  lemma {:induction false} MergeFromValues(d: ODict<Row>, fetched: ODict<RemoteRow>, ks: seq<string>)
    requires d.Valid() && Distinct(ks)
    requires forall k :: k in ks ==> k in fetched.values
    ensures var r := MergeFrom(d, fetched, ks);
      && (forall u :: u in ks ==> u in r.values && r.values[u] == Base(d, u) + AsRow(NormalizeRow(fetched.values[u])))
      && (forall u :: u in d.values && u !in ks ==> u in r.values && r.values[u] == d.values[u])
    decreases |ks|
  {
    if ks != [] {
      var k0 := ks[0];
      var d' := MergeOne(d, k0, NormalizeRow(fetched.values[k0]));
      DistinctTail(ks);
      MergeFromValues(d', fetched, ks[1..]);
      var r := MergeFrom(d', fetched, ks[1..]);
      assert r == MergeFrom(d, fetched, ks);
      forall u | u in ks
        ensures u in r.values && r.values[u] == Base(d, u) + AsRow(NormalizeRow(fetched.values[u]))
      {
        if u != k0 {
          assert u in ks[1..] && Base(d', u) == Base(d, u);
        }
      }
      forall u | u in d.values && u !in ks
        ensures u in r.values && r.values[u] == d.values[u]
      {
        assert u != k0 && u !in ks[1..];
      }
    }
  }

  /** `local_map` after the merge: the indexed local rows with every fetched row merged in. */
  function Merged(localRows: seq<Row>, key: string, fetched: ODict<RemoteRow>): (r: ODict<Row>)
    requires fetched.Valid()
    ensures r.Valid()
  {
    MergeFrom(Index(localRows, key), fetched, fetched.keys)
  }

  /** One step of the merge loop. */
  lemma MergeFromStep(d: ODict<Row>, fetched: ODict<RemoteRow>, ks: seq<string>, j: nat)
    requires d.Valid() && j < |ks|
    requires forall k :: k in ks ==> k in fetched.values
    ensures MergeFrom(d, fetched, ks[j..]) == MergeFrom(MergeOne(d, ks[j], NormalizeRow(fetched.values[ks[j]])), fetched, ks[j + 1..])
  {
    assert ks[j..][0] == ks[j] && ks[j..][1..] == ks[j + 1..];
  }

  /** The two branches of lines 214-217 both store the row `MergeOne` stores. */
  lemma MergeOneIsPut(d: ODict<Row>, u: string, cleaned: map<string, string>, row: Row)
    requires d.Valid()
    requires row == if u in d.values then d.values[u] + AsRow(cleaned) else AsRow(cleaned)
    ensures MergeOne(d, u, cleaned) == d.Put(u, row)
  {
    if u !in d.values {
      assert map[] + AsRow(cleaned) == AsRow(cleaned);
    }
  }

  /** The merge loop of lines 197-218. */
  method MergeRemote(local: ODict<Row>, fetched: ODict<RemoteRow>) returns (merged: ODict<Row>)
    requires local.Valid() && fetched.Valid()
    ensures merged == MergeFrom(local, fetched, fetched.keys)
  {
    merged := local;
    var j := 0;
    while j < |fetched.keys|
      invariant j <= |fetched.keys| && merged.Valid()
      invariant MergeFrom(local, fetched, fetched.keys) == MergeFrom(merged, fetched, fetched.keys[j..])
    {
      var uid := fetched.keys[j];
      var cleaned := CleanRemoteRow(fetched.values[uid]);
      MergeFromStep(merged, fetched, fetched.keys, j);
      var row: Row;
      if uid in merged.values {
        row := merged.values[uid] + AsRow(cleaned);
      } else {
        row := AsRow(cleaned);
      }
      MergeOneIsPut(merged, uid, cleaned, row);
      merged := merged.Put(uid, row);
      j := j + 1;
    }
  }

  // ---------------------------------------------------------------------------------------------
  // Column order and the rewritten file (lines 220-240)

  /** `list.remove(x)`: the first occurrence of `x` is dropped. */
  function RemoveFirst(s: seq<string>, x: string): (r: seq<string>)
    requires x in s
    ensures |r| == |s| - 1
    ensures Distinct(s) ==> Distinct(r) && forall y :: y in r <==> y in s && y != x
    ensures s[|s| - 1] != x ==> r[|r| - 1] == s[|s| - 1]
  {
    if s[0] == x then s[1..]
    else
      var r := [s[0]] + RemoveFirst(s[1..], x);
      assert Distinct(s) ==> s[0] !in s[1..];
      r
  }

  /** A column name appears in the prior header or in some row. */
  ghost predicate AnyColumn(f: string, fieldnames: set<string>, rows: seq<Row>)
  {
    f in fieldnames || exists i :: 0 <= i < |rows| && f in rows[i]
  }

  /** The header of the rewritten file: every column once, exactly the prior ones and those of
      the rows, the key column first, and `last_updated` last. */
  ghost predicate FieldOrder(names: seq<string>, fieldnames: set<string>, rows: seq<Row>, key: string)
  {
    && Distinct(names)
    && (forall f :: f in names <==> AnyColumn(f, fieldnames, rows))
    && (key in names ==> names[0] == key)
    && ("last_updated" in names && key != "last_updated" ==> names[|names| - 1] == "last_updated")
  }

  /** Lines 222-234; `list(all_keys)` takes the set in its own (unspecified) order. */
  method FinalFieldnames(fieldnames: set<string>, rows: seq<Row>, key: string) returns (names: seq<string>)
    ensures FieldOrder(names, fieldnames, rows, key)
  {
    var allKeys := fieldnames;
    var i := 0;
    while i < |rows|
      invariant i <= |rows|
      invariant forall f :: f in allKeys <==> f in fieldnames || exists j :: 0 <= j < i && f in rows[j]
    {
      allKeys := allKeys + rows[i].Keys;
      i := i + 1;
    }
    names := [];
    var todo := allKeys;
    while todo != {}
      invariant todo <= allKeys && Distinct(names)
      invariant forall f :: f in names <==> f in allKeys - todo
      decreases todo
    {
      var f :| f in todo;
      assert f !in names;
      names := names + [f];
      todo := todo - {f};
    }
    if "last_updated" in names {
      names := RemoveFirst(names, "last_updated") + ["last_updated"];
    }
    ghost var before := names;
    if key in names {
      names := [key] + RemoveFirst(names, key);
      assert "last_updated" in before && key != "last_updated" ==> before[|before| - 1] == "last_updated";
    }
  }

  /** The rewritten CSV: its header and one record per row. */
  datatype CsvFile = CsvFile(header: seq<string>, records: seq<seq<string>>)

  /** `csv.DictWriter` writes a missing column and a `None` value as an empty field. */
  function Cell(row: Row, f: string): string
  {
    match Get(row, f)
    case None => ""
    case Some(s) => s
  }

  /** One record: the row's fields in header order. */
  function Record(header: seq<string>, row: Row): seq<string>
  {
    seq(|header|, i requires 0 <= i < |header| => Cell(row, header[i]))
  }

  /** `writeheader()` then `writerows(rows)`. */
  function Render(header: seq<string>, rows: seq<Row>): CsvFile
  {
    CsvFile(header, seq(|rows|, i requires 0 <= i < |rows| => Record(header, rows[i])))
  }

  /** `DictWriter.writerows` raises `ValueError` for a row with a field outside the header; the
      computed header contains every field of every row, so the write cannot fail that way. */
  lemma HeaderCoversRows(names: seq<string>, fieldnames: set<string>, rows: seq<Row>, key: string)
    requires FieldOrder(names, fieldnames, rows, key)
    ensures forall i, f :: 0 <= i < |rows| && f in rows[i] ==> f in names
  {
  }

  /** The file written for the keys `ids`: one record per key of the merged map, in its order,
      under a header in the order of `FieldOrder`. */
  ghost predicate Wrote(file: CsvFile, key: string, ids: seq<string>, localRows: seq<Row>, fieldnames: set<string>, query: Query)
  {
    var merged := Merged(localRows, key, Fetched(ids, key, query));
    && file == Render(file.header, merged.Items())
    && FieldOrder(file.header, fieldnames, merged.Items(), key)
  }

  /** `_pull_updates`: nothing happens for no keys; otherwise the whole local file is rewritten,
      whether or not any batch could be fetched. `merged` is `local_map` after the merge; its
      local rows are the caller's own row dicts, updated in place. */
  method PullUpdates(key: string, ids: seq<string>, localRows: seq<Row>, fieldnames: set<string>, query: Query)
    returns (written: Option<CsvFile>, merged: ODict<Row>)
    ensures ids == [] ==> written == None && merged == Index(localRows, key)
    ensures ids != [] ==> written.Some? && Wrote(written.value, key, ids, localRows, fieldnames, query)
    ensures ids != [] ==> merged == Merged(localRows, key, Fetched(ids, key, query))
  {
    if ids == [] {
      return None, Index(localRows, key);
    }
    var fetched := FetchUpdates(ids, key, query);
    var local := Index(localRows, key);
    merged := MergeRemote(local, fetched);
    var rows := merged.Items();
    var names := FinalFieldnames(fieldnames, rows, key);
    written := Some(Render(names, rows));
  }

  /** The rewritten file has exactly one record per filled key of the local rows (a row with an
      empty key is dropped and rows sharing a key collapse into one) and one per newly fetched
      key; the local keys come first, in their first-seen order. */
  lemma OneRecordPerKey(localRows: seq<Row>, key: string, fetched: ODict<RemoteRow>)
    requires fetched.Valid()
    ensures var local := Index(localRows, key);
      var merged := Merged(localRows, key, fetched);
      && merged.keys == local.keys + NewKeys(local.values.Keys, fetched.keys)
      && (forall u :: u in merged.values <==> u in fetched.values || exists i :: 0 <= i < |localRows| && KeyedBy(localRows[i], key, u))
      && (forall u :: u in fetched.values ==> merged.values[u] == Base(local, u) + AsRow(NormalizeRow(fetched.values[u])))
      && (forall u :: u in local.values && u !in fetched.values ==> merged.values[u] == local.values[u])
      && (forall u :: u in local.values ==> LastKeyed(localRows, key, u, local.values[u]))
  {
    IndexKeys(localRows, key);
    MergeFromKeys(Index(localRows, key), fetched, fetched.keys);
    MergeFromValues(Index(localRows, key), fetched, fetched.keys);
  }

  /** Merging keeps every local field the remote row does not have and takes every remote field,
      normalised. */
  lemma UpdateKeepsLocalFields(local: Row, cleaned: map<string, string>)
    ensures forall f :: f in local && f !in cleaned ==> (local + AsRow(cleaned))[f] == local[f]
    ensures forall f :: f in cleaned ==> (local + AsRow(cleaned))[f] == Some(cleaned[f])
    ensures (local + AsRow(cleaned)).Keys == local.Keys + cleaned.Keys
  {
  }
}
