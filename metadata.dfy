/** Reading every remote key and its timestamp, a page at a time (`_fetch_remote_metadata`,
    sync_manager.py:134-171). */
module Metadata {
  import opened Wrappers
  import opened SyncTypes

  /** One row of `select("<key>,last_updated")`: the key's value (null when absent) and
      `r.get('last_updated', '')`. */
  datatype MetaRow = MetaRow(key: RemoteValue, lastUpdated: Option<string>)

  /** The remote table as the paged query sees it: its rows in the server's order, and which
      requests (by offset) raise. */
  datatype RemoteTable = RemoteTable(rows: seq<MetaRow>, fails: nat -> bool)

  function Min(a: nat, b: nat): nat
  {
    if a <= b then a else b
  }

  /** The answer to `.range(offset, offset + 999).execute()`: the rows at those positions, or
      an exception. */
  function Page(t: RemoteTable, offset: nat): (page: Option<seq<MetaRow>>)
    ensures page.Some? ==> |page.value| <= PageSize
  {
    if t.fails(offset) then None
    else if offset >= |t.rows| then Some([])
    else Some(t.rows[offset..Min(offset + PageSize, |t.rows|)])
  }

  /** `remote_map` after taking in the first `n` rows in order: every row with a truthy key
      stores its timestamp under `str(key)`, a later row replacing an earlier one. */
  function MetaMap(rows: seq<MetaRow>, n: nat): map<string, Option<string>>
    requires n <= |rows|
  {
    if n == 0 then map[]
    else
      var m := MetaMap(rows, n - 1);
      var r := rows[n - 1];
      if Truthy(r.key) then m[Show(r.key) := r.lastUpdated] else m
  }

  /** `remote_map` holds exactly the keys `str(k)` of the rows whose key `k` is truthy. */
  lemma {:induction false} MetaMapKeys(rows: seq<MetaRow>, n: nat)
    requires n <= |rows|
    ensures forall u :: u in MetaMap(rows, n) <==> exists i :: 0 <= i < n && Truthy(rows[i].key) && Show(rows[i].key) == u
  {
    if n > 0 {
      MetaMapKeys(rows, n - 1);
    }
  }

  /** The value `remote_map` holds for a key is the timestamp of the last row with that key. */
  lemma {:induction false} MetaMapLastWins(rows: seq<MetaRow>, n: nat, i: nat)
    requires i < n <= |rows| && Truthy(rows[i].key)
    requires forall j :: i < j < n ==> !(Truthy(rows[j].key) && Show(rows[j].key) == Show(rows[i].key))
    ensures Show(rows[i].key) in MetaMap(rows, n) && MetaMap(rows, n)[Show(rows[i].key)] == rows[i].lastUpdated
  {
    if i < n - 1 {
      MetaMapLastWins(rows, n - 1, i);
    }
  }

  /** Whether the loop asks for another page after the one at `offset`: only after a full page
      that did not raise. */
  predicate Continues(t: RemoteTable, offset: nat)
  {
    !t.fails(offset) && offset + PageSize <= |t.rows|
  }

  /** The offsets the loop requests, from `offset` on. */
  function Requests(t: RemoteTable, offset: nat): seq<nat>
    decreases |t.rows| - offset
  {
    [offset] + (if Continues(t, offset) then Requests(t, offset + PageSize) else [])
  }

  /** How many leading rows of the table end up in `remote_map`, from `offset` on. */
  function Consumed(t: RemoteTable, offset: nat): (n: nat)
    requires offset <= |t.rows|
    ensures offset <= n <= |t.rows|
    decreases |t.rows| - offset
  {
    if Continues(t, offset) then Consumed(t, offset + PageSize)
    else if t.fails(offset) then offset
    else |t.rows|
  }

  /** Lines 158-161: the rows of one page, taken in one at a time. */
  method TakeInPage(t: RemoteTable, offset: nat, rows: seq<MetaRow>, m: map<string, Option<string>>)
    returns (m': map<string, Option<string>>)
    requires offset + |rows| <= |t.rows| && rows == t.rows[offset..offset + |rows|]
    requires m == MetaMap(t.rows, offset)
    ensures m' == MetaMap(t.rows, offset + |rows|)
  {
    m' := m;
    var i := 0;
    while i < |rows|
      invariant i <= |rows|
      invariant m' == MetaMap(t.rows, offset + i)
    {
      var r := rows[i];
      if Truthy(r.key) {
        m' := m'[Show(r.key) := r.lastUpdated];
      }
      i := i + 1;
    }
  }

  /** What the loop learns from the answer to the request at `offset`, and where that leaves
      `Requests` and `Consumed`: a failed request or an empty page stops the loop with the rows
      before `offset` read; a short page stops it after that page; a full page goes on. */
  lemma PageStep(t: RemoteTable, offset: nat)
    requires offset <= |t.rows|
    ensures t.fails(offset) ==> Page(t, offset).None? && Consumed(t, offset) == offset && Requests(t, offset) == [offset]
    ensures !t.fails(offset) ==> Page(t, offset).Some?
    ensures !t.fails(offset) && Page(t, offset).value == [] ==>
      Consumed(t, offset) == offset && Requests(t, offset) == [offset]
    ensures !t.fails(offset) && Page(t, offset).value != [] ==>
      var rows := Page(t, offset).value;
      && offset + |rows| <= |t.rows| && rows == t.rows[offset..offset + |rows|]
      && (|rows| < PageSize ==> offset + |rows| == Consumed(t, offset) && Requests(t, offset) == [offset])
      && (|rows| >= PageSize ==> offset + PageSize <= |t.rows| && Consumed(t, offset) == Consumed(t, offset + PageSize)
                                 && Requests(t, offset) == [offset] + Requests(t, offset + PageSize))
  {
    if !t.fails(offset) && offset < |t.rows| {
      var end := Min(offset + PageSize, |t.rows|);
      assert Page(t, offset).value == t.rows[offset..end];
    }
  }

  /** The paging loop of lines 140-169. `requests` records the offset of every page asked for. */
  method FetchRemoteMetadata(t: RemoteTable) returns (remoteMap: map<string, Option<string>>, ghost requests: seq<nat>)
    ensures remoteMap == MetaMap(t.rows, Consumed(t, 0))
    ensures requests == Requests(t, 0)
  {
    remoteMap := map[];
    requests := [];
    var offset: nat := 0;
    while true
      invariant offset <= |t.rows|
      invariant remoteMap == MetaMap(t.rows, offset)
      invariant Requests(t, 0) == requests + Requests(t, offset)
      invariant Consumed(t, 0) == Consumed(t, offset)
      decreases |t.rows| - offset
    {
      PageStep(t, offset);
      requests := requests + [offset];
      var page := Page(t, offset);
      if page.None? {
        break;
      }
      var rows := page.value;
      if rows == [] {
        break;
      }
      remoteMap := TakeInPage(t, offset, rows, remoteMap);
      if |rows| < PageSize {
        break;
      }
      offset := offset + PageSize;
    }
  }

  /** Page `i` asks for rows `[1000 i, 1000 i + 999]`. Every page before the last was full and
      answered; the last one raised, or came back short or empty. */
  lemma {:induction false} RequestsArePages(t: RemoteTable, offset: nat)
    ensures var req := Requests(t, offset);
      && (forall i :: 0 <= i < |req| ==> req[i] == offset + PageSize * i)
      && (forall i :: 0 <= i < |req| - 1 ==> Continues(t, req[i]))
      && !Continues(t, req[|req| - 1])
    decreases |t.rows| - offset
  {
    if Continues(t, offset) {
      RequestsArePages(t, offset + PageSize);
    }
  }

  /** When the loop stops: everything was read, unless a request raised, in which case exactly
      the rows before the failing page were read. */
  lemma {:induction false} ConsumedAtStop(t: RemoteTable, offset: nat)
    requires offset <= |t.rows|
    ensures var req := Requests(t, offset);
      Consumed(t, offset) == if t.fails(req[|req| - 1]) then req[|req| - 1] else |t.rows|
    decreases |t.rows| - offset
  {
    if Continues(t, offset) {
      ConsumedAtStop(t, offset + PageSize);
      assert Requests(t, offset)[1..] == Requests(t, offset + PageSize);
    }
  }

  /** With no failing request the whole table is read. */
  lemma NoErrorsReadsAll(t: RemoteTable)
    requires forall o :: !t.fails(o)
    ensures Consumed(t, 0) == |t.rows|
  {
    ConsumedAtStop(t, 0);
  }

  /** A table of 2500 rows takes three pages, at offsets 0, 1000 and 2000, the last one short. */
  lemma ThreePages(t: RemoteTable)
    requires |t.rows| == 2500 && forall o :: !t.fails(o)
    ensures Requests(t, 0) == [0, 1000, 2000]
  {
    assert !Continues(t, 2000) && Requests(t, 2000) == [2000];
    assert Continues(t, 1000) && Requests(t, 1000) == [1000, 2000];
  }
}
