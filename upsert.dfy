/** Pushing local rows to the remote database (`batch_upsert`, sync_manager.py:245-344): every
    row is cleaned column by column, its timestamps are checked, and the batch then passes
    through the data-quality gates before the single upsert call. */
module Upsert {
  import opened Wrappers
  import opened Text
  import opened SyncTypes

  /** `files_and_headers`: the header of each known CSV file, by file name. */
  type Headers = map<string, seq<string>>

  /** Lines 259-265: the columns of the table's CSV header and the audit columns. The audit
      columns make it non-empty, so the `if whitelist and ...` filter always applies. */
  function Whitelist(headers: Headers, csv: string): (w: set<string>)
    ensures AuditColumns <= w && w != {}
    ensures forall f :: f in w <==> f in AuditColumns || (csv in headers && f in headers[csv])
  {
    assert "id" in AuditColumns;
    var header := if csv in headers then headers[csv] else [];
    (set f | f in header) + AuditColumns
  }

  // ---------------------------------------------------------------------------------------------
  // Cleaning one row (lines 267-310)

  /** `f"{y}-{m}-{d}"` from the groups of a `DD.MM.YYYY` match. */
  function IsoFromDotted(s: string): (r: string)
    requires DottedDateMatch(s)
    ensures |r| == 10 && StartsWithIsoDate(r)
    ensures r[..4] == s[6..10] && r[5..7] == s[3..5] && r[8..] == s[..2]
  {
    var d := s[..10];
    assert DottedDateExact(d);
    assert d[6..10] == s[6..10] && d[3..5] == s[3..5] && d[..2] == s[..2];
    var r := s[6..10] + "-" + s[3..5] + "-" + s[..2];
    assert r[0] == d[6] && r[1] == d[7] && r[2] == d[8] && r[3] == d[9];
    assert r[5] == d[3] && r[6] == d[4] && r[8] == d[0] && r[9] == d[1];
    r
  }

  /** Lines 271-289 for one column: the value as sent. */
  function CleanValue(k: string, v: Option<string>): Option<string>
  {
    match v
    case None => None
    case Some(s) =>
      if s == "" || s == "N/A" then None
      else Some(Strip(if k in DateFields && DottedDateMatch(s) then IsoFromDotted(s) else s))
  }

  /** A null stays null; empty and `N/A` become null; a date column holding `DD.MM.YYYY` is sent
      as that date in ISO order; any other text is sent stripped. A value sent is always
      stripped already. */
  lemma CleanValueCases(k: string, v: Option<string>)
    ensures v.None? ==> CleanValue(k, v).None?
    ensures v.Some? && (v.value == "" || v.value == "N/A") ==> CleanValue(k, v).None?
    ensures v.Some? && v.value != "" && v.value != "N/A" && k in DateFields && DottedDateMatch(v.value) ==>
      CleanValue(k, v) == Some(IsoFromDotted(v.value))
    ensures v.Some? && v.value != "" && v.value != "N/A" && !(k in DateFields && DottedDateMatch(v.value)) ==>
      CleanValue(k, v) == Some(Strip(v.value))
    ensures CleanValue(k, v).Some? ==> Strip(CleanValue(k, v).value) == CleanValue(k, v).value
  {
    match v
    case None =>
    case Some(s) =>
      if s != "" && s != "N/A" {
        if k in DateFields && DottedDateMatch(s) {
          IsoDateIsStripped(s);
          assert CleanValue(k, v) == Some(IsoFromDotted(s));
        } else {
          StripIdempotent(s);
          assert CleanValue(k, v) == Some(Strip(s));
        }
      }
  }

  /** The date rewritten in ISO order starts and ends with a digit, so stripping keeps it. */
  lemma IsoDateIsStripped(s: string)
    requires DottedDateMatch(s)
    ensures Strip(IsoFromDotted(s)) == IsoFromDotted(s)
  {
    var t := IsoFromDotted(s);
    assert IsDigit(t[0]) && IsDigit(t[9]);
    assert !IsSpace(t[0]) && !IsSpace(t[9]);
  }

  /** `clean` after the column loop of lines 269-289: the whitelisted columns, cleaned. */
  function CleanFields(row: Row, w: set<string>): Row
  {
    map k | k in row && k in w :: CleanValue(k, row[k])
  }

  /** The column loop of lines 269-289; `row.items()` is visited in any order. */
  method CleanColumns(row: Row, w: set<string>) returns (clean: Row)
    ensures clean == CleanFields(row, w)
  {
    clean := map[];
    var todo := row.Keys;
    while todo != {}
      invariant todo <= row.Keys
      invariant clean.Keys == (row.Keys - todo) * w
      invariant forall k :: k in clean ==> clean[k] == CleanValue(k, row[k])
      decreases todo
    {
      var k :| k in todo;
      if k in w {
        clean := clean[k := CleanValue(k, row[k])];
      }
      todo := todo - {k};
    }
  }

  /** Lines 291-293: a null or empty `id` is dropped. */
  function DropEmptyId(c: Row): Row
  {
    if "id" in c && !Filled(c["id"]) then c - {"id"} else c
  }

  /** `str(v)` of a cleaned value. */
  function ShowText(v: Option<string>): string
  {
    match v
    case None => "None"
    case Some(s) => s
  }

  /** Lines 299-304 for one column: a present value whose stripped text is not a full
      timestamp is replaced by `now`. */
  function SanitizeColumn(c: Row, col: string, now: string): Row
  {
    if col in c && !IsoTimestampMatch(Strip(ShowText(c[col]))) then c[col := Some(now)] else c
  }

  /** The loop of lines 299-304 over the columns `cols`, in order. */
  function Sanitize(c: Row, cols: seq<string>, now: string): Row
    decreases |cols|
  {
    if cols == [] then c else Sanitize(SanitizeColumn(c, cols[0], now), cols[1..], now)
  }

  /** A checked timestamp column holds `now`, or a kept value that is a timestamp. */
  predicate ValidOrNow(v: Option<string>, now: string)
  {
    v == Some(now) || (v.Some? && IsoTimestampMatch(v.value))
  }

  /** Sanitising keeps the columns and leaves unchecked columns alone. A checked column whose
      stripped text is a timestamp is kept as it is; any other checked column is replaced by
      `now`. */
  lemma SanitizeFacts(c: Row, cols: seq<string>, now: string)
    ensures var r := Sanitize(c, cols, now);
      && r.Keys == c.Keys
      && (forall k :: k in c && k !in cols ==> r[k] == c[k])
      && (forall k :: k in c && k in cols ==>
            r[k] == Some(now) || (r[k] == c[k] && c[k].Some? && IsoTimestampMatch(Strip(c[k].value))))
      && (forall k :: k in c && k in cols && c[k].Some? && IsoTimestampMatch(Strip(c[k].value)) ==> r[k] == c[k])
  {
    SanitizeKeeps(c, cols, now);
    SanitizeChecks(c, cols, now);
  }

  /** Sanitising keeps the columns and leaves unchecked columns alone. */
  lemma {:induction false} SanitizeKeeps(c: Row, cols: seq<string>, now: string)
    ensures var r := Sanitize(c, cols, now);
      && r.Keys == c.Keys
      && (forall k :: k in c && k !in cols ==> r[k] == c[k])
    decreases |cols|
  {
    if cols != [] {
      SanitizeKeeps(SanitizeColumn(c, cols[0], now), cols[1..], now);
      assert forall k :: k in cols[1..] ==> k in cols;
    }
  }

  /** Each checked column ends up `now`, or unchanged with a timestamp as its stripped text;
      and one whose stripped text is a timestamp is unchanged. */
  lemma {:induction false} SanitizeChecks(c: Row, cols: seq<string>, now: string)
    ensures var r := Sanitize(c, cols, now);
      forall k :: k in c && k in cols ==>
        && k in r
        && (r[k] == Some(now) || (r[k] == c[k] && c[k].Some? && IsoTimestampMatch(Strip(c[k].value))))
        && (c[k].Some? && IsoTimestampMatch(Strip(c[k].value)) ==> r[k] == c[k])
    decreases |cols|
  {
    SanitizeKeepsStamps(c, cols, now);
    if cols != [] {
      var c' := SanitizeColumn(c, cols[0], now);
      var r := Sanitize(c, cols, now);
      SanitizeChecks(c', cols[1..], now);
      SanitizeKeeps(c', cols[1..], now);
      forall k | k in c && k in cols
        ensures k in r && (r[k] == Some(now) || (r[k] == c[k] && c[k].Some? && IsoTimestampMatch(Strip(c[k].value))))
      {
        SanitizeColumnFacts(c, cols[0], now, k);
      }
    }
  }

  /** A checked column whose stripped text is a timestamp is never replaced. */
  lemma {:induction false} SanitizeKeepsStamps(c: Row, cols: seq<string>, now: string)
    ensures var r := Sanitize(c, cols, now);
      forall k :: k in c && k in cols && c[k].Some? && IsoTimestampMatch(Strip(c[k].value)) ==> k in r && r[k] == c[k]
    decreases |cols|
  {
    if cols != [] {
      var c' := SanitizeColumn(c, cols[0], now);
      var r := Sanitize(c, cols, now);
      SanitizeKeepsStamps(c', cols[1..], now);
      SanitizeKeeps(c', cols[1..], now);
      forall k | k in c && k in cols && c[k].Some? && IsoTimestampMatch(Strip(c[k].value))
        ensures k in r && r[k] == c[k]
      {
        SanitizeColumnFacts(c, cols[0], now, k);
      }
    }
  }

  /** One checked column: it ends up `now`, or unchanged with a timestamp as its stripped text,
      and it is unchanged whenever its stripped text is a timestamp; every other column is
      unchanged. */
  lemma SanitizeColumnFacts(c: Row, col: string, now: string, k: string)
    requires k in c
    ensures var c' := SanitizeColumn(c, col, now);
      && k in c'
      && (k != col ==> c'[k] == c[k])
      && (k == col ==> c'[k] == Some(now) || (c'[k] == c[k] && c[k].Some? && IsoTimestampMatch(Strip(c[k].value))))
      && (k == col && c[k].Some? && IsoTimestampMatch(Strip(c[k].value)) ==> c'[k] == c[k])
  {
    var c' := SanitizeColumn(c, col, now);
    if k == col && c'[k] != Some(now) {
      assert c'[k] == c[k] && IsoTimestampMatch(Strip(ShowText(c[k])));
      assert c[k].Some?;
    }
  }

  /** The row as appended to `cleaned_data` at line 310, with `last_updated` added (lines
      306-308) when it is missing. */
  function Cleaned(row: Row, w: set<string>, now: string): Row
  {
    var c := Sanitize(DropEmptyId(CleanFields(row, w)), TimestampColumns, now);
    if "last_updated" in c then c else c["last_updated" := Some(now)]
  }

  /** Column `k` of `row` is whitelisted and its cleaned value is a full timestamp, so the
      sanitising loop keeps it. */
  predicate KeptStamp(row: Row, w: set<string>, k: string)
  {
    k in row && k in w && CleanValue(k, row[k]).Some? && IsoTimestampMatch(CleanValue(k, row[k]).value)
  }

  /** The timestamp columns of a row `r` made from `row`: each kept timestamp is there as
      cleaned, and every other timestamp column of `r` holds `now`. */
  ghost predicate StampsChecked(r: Row, row: Row, w: set<string>, now: string)
  {
    forall k :: k in TimestampColumns ==>
      && (KeptStamp(row, w, k) ==> k in r && r[k] == CleanValue(k, row[k]))
      && (k in r && !KeptStamp(row, w, k) ==> r[k] == Some(now))
  }

  /** What a cleaned row holds: exactly the whitelisted columns of the row (less a null or
      empty `id`) and `last_updated`; every other column as `CleanValue` makes it; every
      timestamp column its cleaned value when that is a full timestamp, and `now` otherwise. */
  lemma CleanedFacts(row: Row, w: set<string>, now: string)
    ensures var r := Cleaned(row, w, now);
      && (forall k :: k in r <==> (k in row && k in w && (k != "id" || Filled(CleanValue(k, row[k])))) || k == "last_updated")
      && (forall k :: k in r && k !in TimestampColumns ==> r[k] == CleanValue(k, row[k]))
      && (forall k :: k in r && k in TimestampColumns ==>
            ValidOrNow(r[k], now) && (r[k] == Some(now) || (k in row && r[k] == CleanValue(k, row[k]))))
      && StampsChecked(r, row, w, now)
  {
    CleanedStamps(row, w, now);
    var f := CleanFields(row, w);
    var d := DropEmptyId(f);
    var c := Sanitize(d, TimestampColumns, now);
    SanitizeFacts(d, TimestampColumns, now);
    assert "last_updated" in TimestampColumns && "id" !in TimestampColumns;
    forall k | k in d
      ensures d[k] == CleanValue(k, row[k]) && (d[k].Some? ==> Strip(d[k].value) == d[k].value)
    {
      CleanValueCases(k, row[k]);
    }
  }

  /** The timestamp columns of a cleaned row. */
  lemma CleanedStamps(row: Row, w: set<string>, now: string)
    ensures StampsChecked(Cleaned(row, w, now), row, w, now)
  {
    var r := Cleaned(row, w, now);
    forall k | k in TimestampColumns
      ensures KeptStamp(row, w, k) ==> k in r && r[k] == CleanValue(k, row[k])
      ensures k in r && !KeptStamp(row, w, k) ==> r[k] == Some(now)
    {
      CleanedStamp(row, w, now, k);
    }
  }

  /** One timestamp column `k` of a cleaned row. */
  lemma CleanedStamp(row: Row, w: set<string>, now: string, k: string)
    requires k in TimestampColumns
    ensures var r := Cleaned(row, w, now);
      && (KeptStamp(row, w, k) ==> k in r && r[k] == CleanValue(k, row[k]))
      && (k in r && !KeptStamp(row, w, k) ==> r[k] == Some(now))
  {
    var d := DropEmptyId(CleanFields(row, w));
    var c := Sanitize(d, TimestampColumns, now);
    var r := Cleaned(row, w, now);
    SanitizeFacts(d, TimestampColumns, now);
    assert "id" !in TimestampColumns;
    assert forall j :: j in c ==> j in r && r[j] == c[j];
    if k in d {
      var v := d[k];
      assert k in row && k in w && v == CleanValue(k, row[k]);
      CleanValueCases(k, row[k]);
      if v.Some? && IsoTimestampMatch(v.value) {
        assert Strip(v.value) == v.value;
        assert c[k] == v;
      } else {
        assert !KeptStamp(row, w, k);
        assert c[k] == Some(now);
      }
    } else {
      assert !KeptStamp(row, w, k);
      assert k !in c;
    }
  }

  /** Lines 269-310 for one row. */
  method CleanRow(row: Row, w: set<string>, now: string) returns (clean: Row)
    ensures clean == Cleaned(row, w, now)
  {
    clean := CleanColumns(row, w);
    if "id" in clean && (clean["id"] == None || clean["id"] == Some("")) {
      clean := clean - {"id"};
    }
    ghost var c0 := clean;
    var i := 0;
    while i < |TimestampColumns|
      invariant i <= |TimestampColumns|
      invariant Sanitize(c0, TimestampColumns, now) == Sanitize(clean, TimestampColumns[i..], now)
    {
      var col := TimestampColumns[i];
      assert TimestampColumns[i..][0] == col && TimestampColumns[i..][1..] == TimestampColumns[i + 1..];
      if col in clean {
        var val := Strip(ShowText(clean[col]));
        if !IsoTimestampMatch(val) {
          clean := clean[col := Some(now)];
        }
      }
      i := i + 1;
    }
    if "last_updated" !in clean {
      clean := clean["last_updated" := Some(now)];
    }
  }

  // ---------------------------------------------------------------------------------------------
  // The data-quality gates (lines 312-334)

  /** `[k.strip() for k in conflict_key.split(',')]`. */
  function ConflictKeys(key: string): (keys: seq<string>)
    ensures |keys| >= 1
  {
    var parts := Split(key, ',');
    seq(|parts|, i requires 0 <= i < |parts| => Strip(parts[i]))
  }

  /** A key without commas and without surrounding blanks is its own single conflict key. */
  lemma PlainConflictKey(key: string)
    requires ',' !in key && Strip(key) == key
    ensures ConflictKeys(key) == [key]
  {
    SplitWithoutSeparator(key, ',');
    var keys := ConflictKeys(key);
    assert |keys| == 1 && keys[0] == Strip(key);
  }

  /** Every configured table has a single-column conflict key. */
  lemma TableConflictKeys(tableKey: string)
    requires tableKey in Tables
    ensures ConflictKeys(Tables[tableKey].key) == [Tables[tableKey].key]
  {
    var k := Tables[tableKey].key;
    assert k in {"fixture_id", "team_id", "rl_id", "standings_key", "site_match_id", "id"};
    assert k != [] && k[0] != ' ' && k[|k| - 1] != ' ';
    assert !IsSpace(k[0]) && !IsSpace(k[|k| - 1]);
    PlainConflictKey(k);
  }

  /** A conflict-key value the database accepts: not null, not empty, not `'null'`. */
  predicate Usable(v: Option<string>)
  {
    v.Some? && v.value != "" && v.value != "null"
  }

  /** The test of line 317. */
  predicate PassesGate(row: Row, keys: seq<string>)
  {
    forall k :: k in keys ==> Usable(Get(row, k))
  }

  /** Lines 315-318: the rows that pass the gate, in order. */
  function Gate(rows: seq<Row>, keys: seq<string>): (r: seq<Row>)
    ensures |r| <= |rows|
    ensures forall i :: 0 <= i < |r| ==> PassesGate(r[i], keys) && r[i] in rows
    ensures forall j :: 0 <= j < |rows| && PassesGate(rows[j], keys) ==> rows[j] in r
    decreases |rows|
  {
    if rows == [] then []
    else
      var rest := Gate(rows[1..], keys);
      assert forall j :: 1 <= j < |rows| ==> rows[j] == rows[1..][j - 1];
      if PassesGate(rows[0], keys) then [rows[0]] + rest else rest
  }

  /** The filter of one row keeps it exactly when it passes. */
  lemma GateOne(row: Row, keys: seq<string>)
    ensures Gate([row], keys) == if PassesGate(row, keys) then [row] else []
  {
    assert [row][1..] == [];
  }

  /** The filter works piece by piece, so it keeps the passing rows in their order, each once. */
  lemma {:induction false} GateAppend(a: seq<Row>, b: seq<Row>, keys: seq<string>)
    ensures Gate(a + b, keys) == Gate(a, keys) + Gate(b, keys)
    decreases |a|
  {
    if a == [] {
      assert a + b == b;
    } else {
      assert (a + b)[0] == a[0] && (a + b)[1..] == a[1..] + b;
      GateAppend(a[1..], b, keys);
    }
  }

  /** `tuple(row.get(k) for k in conflict_keys)`. */
  function KeyTuple(row: Row, keys: seq<string>): seq<Option<string>>
  {
    seq(|keys|, i requires 0 <= i < |keys| => Get(row, keys[i]))
  }

  /** Lines 321-327 continued with the key tuples in `seen` already taken: the first row of
      each new key tuple, in order. */
  function KeepFirst(rows: seq<Row>, keys: seq<string>, seen: set<seq<Option<string>>>): seq<Row>
    decreases |rows|
  {
    if rows == [] then []
    else
      var t := KeyTuple(rows[0], keys);
      if t in seen then KeepFirst(rows[1..], keys, seen)
      else [rows[0]] + KeepFirst(rows[1..], keys, seen + {t})
  }

  /** De-duplication keeps no more rows than it is given, only rows it is given and no key tuple
      already seen, and no two rows with the same key tuple. */
  lemma {:induction false} KeepFirstSound(rows: seq<Row>, keys: seq<string>, seen: set<seq<Option<string>>>)
    ensures var r := KeepFirst(rows, keys, seen);
      && |r| <= |rows|
      && (forall i :: 0 <= i < |r| ==> r[i] in rows && KeyTuple(r[i], keys) !in seen)
      && (forall i, j :: 0 <= i < j < |r| ==> KeyTuple(r[i], keys) != KeyTuple(r[j], keys))
    decreases |rows|
  {
    if rows != [] {
      var t := KeyTuple(rows[0], keys);
      var seen' := if t in seen then seen else seen + {t};
      KeepFirstSound(rows[1..], keys, seen');
      var rest := KeepFirst(rows[1..], keys, seen');
      assert forall i :: 0 <= i < |rest| ==> rest[i] in rows;
      if t !in seen {
        var r := [rows[0]] + rest;
        assert forall i :: 1 <= i < |r| ==> r[i] == rest[i - 1];
      }
    }
  }

  /** De-duplication keeps the first row of every key tuple not already seen. */
  lemma {:induction false} KeepFirstComplete(rows: seq<Row>, keys: seq<string>, seen: set<seq<Option<string>>>, j: nat)
    requires j < |rows| && KeyTuple(rows[j], keys) !in seen
    requires forall i :: 0 <= i < j ==> KeyTuple(rows[i], keys) != KeyTuple(rows[j], keys)
    ensures rows[j] in KeepFirst(rows, keys, seen)
    decreases |rows|
  {
    var t := KeyTuple(rows[0], keys);
    if j > 0 {
      var seen' := if t in seen then seen else seen + {t};
      assert rows[1..][j - 1] == rows[j];
      forall i | 0 <= i < j - 1
        ensures KeyTuple(rows[1..][i], keys) != KeyTuple(rows[1..][j - 1], keys)
      {
        assert rows[1..][i] == rows[i + 1];
      }
      KeepFirstComplete(rows[1..], keys, seen', j - 1);
    }
  }

  /** Lines 321-328: the `seen` / `deduped` loop. */
  method Dedup(rows: seq<Row>, keys: seq<string>) returns (deduped: seq<Row>)
    ensures deduped == KeepFirst(rows, keys, {})
  {
    var seen: set<seq<Option<string>>> := {};
    deduped := [];
    var i := 0;
    while i < |rows|
      invariant i <= |rows|
      invariant KeepFirst(rows, keys, {}) == deduped + KeepFirst(rows[i..], keys, seen)
    {
      var keyVal := KeyTuple(rows[i], keys);
      assert rows[i..][0] == rows[i] && rows[i..][1..] == rows[i + 1..];
      if keyVal !in seen {
        seen := seen + {keyVal};
        deduped := deduped + [rows[i]];
      }
      i := i + 1;
    }
  }

  /** Lines 331-334 for one row: NUL characters are removed from every text value. */
  function StripNul(row: Row): (r: Row)
    ensures r.Keys == row.Keys
    ensures forall k :: k in r ==> (r[k].None? <==> row[k].None?)
    ensures forall k :: k in r && r[k].Some? ==> '\0' !in r[k].value
    ensures forall k :: k in r && row[k].Some? && '\0' !in row[k].value ==> r[k] == row[k]
    ensures forall k :: k in r && row[k].Some? ==> r[k] == Some(RemoveChar(row[k].value, '\0'))
  {
    map k | k in row :: match row[k] case None => None case Some(s) => Some(RemoveChar(s, '\0'))
  }

  function StripNulAll(rows: seq<Row>): (r: seq<Row>)
    ensures |r| == |rows|
  {
    seq(|rows|, i requires 0 <= i < |rows| => StripNul(rows[i]))
  }

  /** The inner loop of lines 332-334, rewriting the row's values in place. */
  method StripNulRow(row: Row) returns (r: Row)
    ensures r == StripNul(row)
  {
    ghost var want := StripNul(row);
    r := row;
    var todo := row.Keys;
    while todo != {}
      invariant todo <= row.Keys && r.Keys == row.Keys
      invariant forall k :: k in r && k !in todo ==> r[k] == want[k]
      invariant forall k :: k in todo ==> r[k] == row[k]
      decreases todo
    {
      var k :| k in todo;
      match r[k] {
        case None =>
          assert want[k] == None;
        case Some(v) =>
          assert want[k] == Some(RemoveChar(v, '\0'));
          if '\0' in v {
            r := r[k := Some(RemoveChar(v, '\0'))];
          }
      }
      todo := todo - {k};
    }
    assert r == want;
  }

  /** The gates as written: the conflict-key filter and the de-duplication look at the values
      before NUL characters are removed. */
  function GatesAsWritten(rows: seq<Row>, keys: seq<string>): seq<Row>
  {
    StripNulAll(KeepFirst(Gate(rows, keys), keys, {}))
  }

  /** Keys `"7\0"` and `"7"` are different when the gates look at them, so both rows pass; once
      the NUL is removed the batch holds two rows with conflict key `"7"`, which the database
      rejects. A key of a lone NUL passes the filter too, and is sent as the empty string. */
  lemma NulKeysCollide()
    ensures var keys := ["team_id"];
      var out := GatesAsWritten([map["team_id" := Some("7\0")], map["team_id" := Some("7")]], keys);
      |out| == 2 && KeyTuple(out[0], keys) == KeyTuple(out[1], keys)
    ensures GatesAsWritten([map["team_id" := Some("\0")]], ["team_id"]) == [map["team_id" := Some("")]]
  {
    var nul := map["team_id" := Some("\0")];
    assert PassesGate(nul, ["team_id"]);
    GateOne(nul, ["team_id"]);
    assert [nul][1..] == [];
    assert RemoveChar("\0", '\0') == "";
    assert StripNul(nul) == map["team_id" := Some("")];

    var keys := ["team_id"];
    var a, b := map["team_id" := Some("7\0")], map["team_id" := Some("7")];
    assert PassesGate(a, keys) && PassesGate(b, keys);
    assert Gate([a, b], keys) == [a, b] by {
      assert [a, b][1..] == [b];
    }
    assert KeyTuple(a, keys) == [Some("7\0")] && KeyTuple(b, keys) == [Some("7")];
    assert KeyTuple(a, keys) != KeyTuple(b, keys) by {
      assert KeyTuple(a, keys)[0] != KeyTuple(b, keys)[0];
    }
    assert KeepFirst([a, b], keys, {}) == [a, b] by {
      assert [a, b][1..] == [b] && [b][1..] == [];
      assert KeyTuple(b, keys) !in {KeyTuple(a, keys)};
      var seen: set<seq<Option<string>>> := {};
      assert seen + {KeyTuple(a, keys)} == {KeyTuple(a, keys)};
      assert KeepFirst([b], keys, {KeyTuple(a, keys)}) == [b];
      assert KeepFirst([a, b], keys, seen) == [a] + KeepFirst([b], keys, seen + {KeyTuple(a, keys)});
    }
    assert RemoveChar("7\0", '\0') == "7" by {
      assert "7\0"[1..] == "\0";
    }
    assert StripNul(a) == b;
  }

  /** The gates with NUL characters removed first, so that the filter and the de-duplication
      see the values that are sent. */
  function Gates(rows: seq<Row>, keys: seq<string>): seq<Row>
  {
    KeepFirst(Gate(StripNulAll(rows), keys), keys, {})
  }

  /** No conflict-key value of any row holds a NUL character. */
  ghost predicate KeysWithoutNul(rows: seq<Row>, keys: seq<string>)
  {
    forall i, k :: 0 <= i < |rows| && k in keys && Get(rows[i], k).Some? ==> '\0' !in Get(rows[i], k).value
  }

  /** Without a NUL in any conflict-key value, both orders of the gates send the same rows. */
  lemma GatesAgree(rows: seq<Row>, keys: seq<string>)
    requires KeysWithoutNul(rows, keys)
    ensures Gates(rows, keys) == GatesAsWritten(rows, keys)
  {
    GateAgrees(rows, keys);
    var g := Gate(rows, keys);
    assert KeysWithoutNul(g, keys) by {
      forall i, k | 0 <= i < |g| && k in keys && Get(g[i], k).Some?
        ensures '\0' !in Get(g[i], k).value
      {
        var j :| 0 <= j < |rows| && rows[j] == g[i];
      }
    }
    KeepFirstAgrees(g, keys, {});
  }

  /** A row whose conflict-key values hold no NUL has the same key tuple, and passes the filter
      the same way, once its NUL characters are removed. */
  lemma StripNulKeepsKey(row: Row, keys: seq<string>)
    requires forall k :: k in keys && Get(row, k).Some? ==> '\0' !in Get(row, k).value
    ensures KeyTuple(StripNul(row), keys) == KeyTuple(row, keys)
    ensures PassesGate(StripNul(row), keys) <==> PassesGate(row, keys)
  {
    assert forall k :: k in keys ==> Get(StripNul(row), k) == Get(row, k);
  }

  /** The rows after the first still have no NUL in a conflict-key value; the first one's
      key tuple and filter test do not change when its NUL characters are removed. */
  lemma KeysWithoutNulRest(rows: seq<Row>, keys: seq<string>)
    requires rows != [] && KeysWithoutNul(rows, keys)
    ensures KeysWithoutNul(rows[1..], keys)
    ensures KeyTuple(StripNul(rows[0]), keys) == KeyTuple(rows[0], keys)
    ensures PassesGate(StripNul(rows[0]), keys) <==> PassesGate(rows[0], keys)
    ensures StripNulAll(rows)[0] == StripNul(rows[0]) && StripNulAll(rows)[1..] == StripNulAll(rows[1..])
  {
    forall i, k | 0 <= i < |rows[1..]| && k in keys && Get(rows[1..][i], k).Some?
      ensures '\0' !in Get(rows[1..][i], k).value
    {
      assert rows[1..][i] == rows[i + 1];
    }
    StripNulKeepsKey(rows[0], keys);
  }

  lemma StripNulAllCons(row: Row, rows: seq<Row>)
    ensures StripNulAll([row] + rows) == [StripNul(row)] + StripNulAll(rows)
  {
    var s := [row] + rows;
    assert forall i :: 1 <= i < |s| ==> s[i] == rows[i - 1];
  }

  /** The filter commutes with NUL removal when no conflict-key value holds a NUL. */
  lemma {:induction false} GateAgrees(rows: seq<Row>, keys: seq<string>)
    requires KeysWithoutNul(rows, keys)
    ensures Gate(StripNulAll(rows), keys) == StripNulAll(Gate(rows, keys))
    decreases |rows|
  {
    if rows == [] {
      assert StripNulAll(rows) == [];
    } else {
      KeysWithoutNulRest(rows, keys);
      GateAgrees(rows[1..], keys);
      var rest := Gate(rows[1..], keys);
      if PassesGate(rows[0], keys) {
        StripNulAllCons(rows[0], rest);
      }
    }
  }

  /** De-duplication commutes with NUL removal when no conflict-key value holds a NUL. */
  lemma {:induction false} KeepFirstAgrees(rows: seq<Row>, keys: seq<string>, seen: set<seq<Option<string>>>)
    requires KeysWithoutNul(rows, keys)
    ensures KeepFirst(StripNulAll(rows), keys, seen) == StripNulAll(KeepFirst(rows, keys, seen))
    decreases |rows|
  {
    if rows == [] {
      assert StripNulAll(rows) == [];
    } else {
      KeysWithoutNulRest(rows, keys);
      var t := KeyTuple(rows[0], keys);
      if t in seen {
        KeepFirstAgrees(rows[1..], keys, seen);
      } else {
        KeepFirstAgrees(rows[1..], keys, seen + {t});
        StripNulAllCons(rows[0], KeepFirst(rows[1..], keys, seen + {t}));
      }
    }
  }

  /** `row` passes the filter with key tuple `t`. */
  predicate PassesWith(row: Row, keys: seq<string>, t: seq<Option<string>>)
  {
    PassesGate(row, keys) && KeyTuple(row, keys) == t
  }

  /** `s[j]` is the first row of `s` that passes with key tuple `t`. */
  ghost predicate FirstIn(s: seq<Row>, keys: seq<string>, j: int, t: seq<Option<string>>)
  {
    0 <= j < |s| && PassesWith(s[j], keys, t) && forall m :: 0 <= m < j ==> !PassesWith(s[m], keys, t)
  }

  /** Given row `j`, less its NUL characters, passes the filter with key tuple `t`, and no
      earlier given row does. */
  ghost predicate FirstPassing(rows: seq<Row>, keys: seq<string>, j: int, t: seq<Option<string>>)
  {
    0 <= j < |rows| && PassesWith(StripNul(rows[j]), keys, t) &&
    forall m :: 0 <= m < j ==> !PassesWith(StripNul(rows[m]), keys, t)
  }

  /** What the gates promise of the rows sent: never more rows than given, each one a given row
      less its NUL characters, with a usable value in every conflict column, no two rows with
      the same conflict key, every key that passes the filter represented, and each row sent
      the first given row that passes with its key tuple. */
  lemma GatesFacts(rows: seq<Row>, keys: seq<string>)
    ensures var r := Gates(rows, keys);
      && |r| <= |rows|
      && (forall i :: 0 <= i < |r| ==> PassesGate(r[i], keys) && exists j :: 0 <= j < |rows| && r[i] == StripNul(rows[j]))
      && (forall i :: 0 <= i < |r| ==> forall k :: k in r[i] && r[i][k].Some? ==> '\0' !in r[i][k].value)
      && (forall i, j :: 0 <= i < j < |r| ==> KeyTuple(r[i], keys) != KeyTuple(r[j], keys))
      && (forall j :: 0 <= j < |rows| && PassesGate(StripNul(rows[j]), keys) ==>
            exists i :: 0 <= i < |r| && KeyTuple(r[i], keys) == KeyTuple(StripNul(rows[j]), keys))
      && (forall i :: 0 <= i < |r| ==> exists j :: FirstPassing(rows, keys, j, KeyTuple(r[i], keys)) && r[i] == StripNul(rows[j]))
  {
    KeepFirstSound(Gate(StripNulAll(rows), keys), keys, {});
    GatesSound(rows, keys);
    GatesComplete(rows, keys);
    GatesFirst(rows, keys);
  }

  /** Each row the gates let through is a given row less its NUL characters, and passes. */
  lemma GatesSound(rows: seq<Row>, keys: seq<string>)
    ensures var r := Gates(rows, keys);
      forall i :: 0 <= i < |r| ==> PassesGate(r[i], keys) && exists j :: 0 <= j < |rows| && r[i] == StripNul(rows[j])
  {
    var s := StripNulAll(rows);
    var g := Gate(s, keys);
    var r := KeepFirst(g, keys, {});
    KeepFirstSound(g, keys, {});
    forall i | 0 <= i < |r|
      ensures PassesGate(r[i], keys) && exists j :: 0 <= j < |rows| && r[i] == StripNul(rows[j])
    {
      assert r[i] in g;
      assert r[i] in s;
      var j :| 0 <= j < |s| && s[j] == r[i];
      assert r[i] == StripNul(rows[j]);
    }
  }

  /** Every key tuple of a given row that passes the filter is represented. */
  lemma GatesComplete(rows: seq<Row>, keys: seq<string>)
    ensures var r := Gates(rows, keys);
      forall j :: 0 <= j < |rows| && PassesGate(StripNul(rows[j]), keys) ==>
        exists i :: 0 <= i < |r| && KeyTuple(r[i], keys) == KeyTuple(StripNul(rows[j]), keys)
  {
    var s := StripNulAll(rows);
    var g := Gate(s, keys);
    var r := KeepFirst(g, keys, {});
    assert r == Gates(rows, keys);
    forall j | 0 <= j < |rows| && PassesGate(StripNul(rows[j]), keys)
      ensures exists i :: 0 <= i < |r| && KeyTuple(r[i], keys) == KeyTuple(StripNul(rows[j]), keys)
    {
      var t := KeyTuple(StripNul(rows[j]), keys);
      assert s[j] == StripNul(rows[j]);
      assert s[j] in g;
      var m := FirstWith(g, keys, t);
      KeepFirstComplete(g, keys, {}, m);
      var i :| 0 <= i < |r| && r[i] == g[m];
      assert KeyTuple(r[i], keys) == t;
    }
  }

  /** The position of the first row of `rows` whose key tuple is `t`. */
  lemma FirstWith(rows: seq<Row>, keys: seq<string>, t: seq<Option<string>>) returns (m: nat)
    requires exists j :: 0 <= j < |rows| && KeyTuple(rows[j], keys) == t
    ensures m < |rows| && KeyTuple(rows[m], keys) == t
    ensures forall i :: 0 <= i < m ==> KeyTuple(rows[i], keys) != t
  {
    m := 0;
    while KeyTuple(rows[m], keys) != t
      invariant m < |rows|
      invariant forall i :: 0 <= i < m ==> KeyTuple(rows[i], keys) != t
      invariant exists j :: m <= j < |rows| && KeyTuple(rows[j], keys) == t
      decreases |rows| - m
    {
      m := m + 1;
    }
  }

  /** `rows[p]` is the first row with its key tuple, and that tuple is not in `seen`. */
  ghost predicate FirstOfTuple(rows: seq<Row>, keys: seq<string>, seen: set<seq<Option<string>>>, p: int)
  {
    0 <= p < |rows| && KeyTuple(rows[p], keys) !in seen &&
    forall q :: 0 <= q < p ==> KeyTuple(rows[q], keys) != KeyTuple(rows[p], keys)
  }

  /** Each row de-duplication keeps is, at some position, the first row with its key tuple,
      which was not already seen. */
  lemma {:induction false} KeepFirstFirst(rows: seq<Row>, keys: seq<string>, seen: set<seq<Option<string>>>, i: nat)
    requires i < |KeepFirst(rows, keys, seen)|
    ensures exists p :: FirstOfTuple(rows, keys, seen, p) && KeepFirst(rows, keys, seen)[i] == rows[p]
    decreases |rows|
  {
    var t := KeyTuple(rows[0], keys);
    var seen' := if t in seen then seen else seen + {t};
    var rest := KeepFirst(rows[1..], keys, seen');
    var r := KeepFirst(rows, keys, seen);
    assert r == if t in seen then rest else [rows[0]] + rest;
    if t !in seen && i == 0 {
      assert FirstOfTuple(rows, keys, seen, 0);
    } else {
      var i' := if t in seen then i else i - 1;
      assert r[i] == rest[i'];
      KeepFirstFirst(rows[1..], keys, seen', i');
      var p' :| FirstOfTuple(rows[1..], keys, seen', p') && rest[i'] == rows[1..][p'];
      FirstOfTupleShift(rows, keys, seen, seen', p');
    }
  }

  lemma FirstOfTupleShift(rows: seq<Row>, keys: seq<string>, seen: set<seq<Option<string>>>, seen': set<seq<Option<string>>>, p': int)
    requires rows != [] && seen <= seen' && KeyTuple(rows[0], keys) in seen'
    requires FirstOfTuple(rows[1..], keys, seen', p')
    ensures FirstOfTuple(rows, keys, seen, p' + 1) && rows[p' + 1] == rows[1..][p']
  {
    forall q | 0 <= q < p' + 1
      ensures KeyTuple(rows[q], keys) != KeyTuple(rows[p' + 1], keys)
    {
      if q > 0 {
        assert rows[q] == rows[1..][q - 1];
      }
    }
  }

  /** No row of `g` before position `p` has key tuple `t`. */
  ghost predicate FirstAt(g: seq<Row>, keys: seq<string>, t: seq<Option<string>>, p: int)
  {
    0 <= p < |g| && forall q :: 0 <= q < p ==> KeyTuple(g[q], keys) != t
  }

  /** Two positions that both hold the first row with key tuple `t` are the same. */
  lemma FirstAtUnique(g: seq<Row>, keys: seq<string>, t: seq<Option<string>>, p: int, p2: int)
    requires FirstAt(g, keys, t, p) && KeyTuple(g[p], keys) == t
    requires FirstAt(g, keys, t, p2) && KeyTuple(g[p2], keys) == t
    ensures p == p2
  {
  }

  /** In the filtered rows, the first row with key tuple `t` is the first row of `s` that
      passes with that key tuple. */
  lemma {:induction false} GateFirst(s: seq<Row>, keys: seq<string>, t: seq<Option<string>>, j: nat)
    requires FirstIn(s, keys, j, t)
    ensures exists p :: FirstAt(Gate(s, keys), keys, t, p) && Gate(s, keys)[p] == s[j]
    decreases |s|
  {
    var g := Gate(s, keys);
    var rest := Gate(s[1..], keys);
    if j == 0 {
      assert g == [s[0]] + rest;
      assert FirstAt(g, keys, t, 0);
    } else {
      FirstInTail(s, keys, j, t);
      GateFirst(s[1..], keys, t, j - 1);
      var p' :| FirstAt(rest, keys, t, p') && rest[p'] == s[j];
      if PassesGate(s[0], keys) {
        assert g == [s[0]] + rest;
        FirstAtShift(g, rest, keys, t, p');
      } else {
        assert g == rest;
      }
    }
  }

  /** Past a first row that does not pass with `t`, the first one that does moves up by one. */
  lemma FirstInTail(s: seq<Row>, keys: seq<string>, j: nat, t: seq<Option<string>>)
    requires FirstIn(s, keys, j, t) && j > 0
    ensures FirstIn(s[1..], keys, j - 1, t) && s[1..][j - 1] == s[j] && !PassesWith(s[0], keys, t)
  {
    forall m | 0 <= m < j - 1
      ensures !PassesWith(s[1..][m], keys, t)
    {
      assert s[1..][m] == s[m + 1];
    }
  }

  /** Behind a row whose key tuple is not `t`, the first row with `t` moves down by one. */
  lemma FirstAtShift(g: seq<Row>, rest: seq<Row>, keys: seq<string>, t: seq<Option<string>>, p': int)
    requires |g| == |rest| + 1 && g[1..] == rest && KeyTuple(g[0], keys) != t
    requires FirstAt(rest, keys, t, p')
    ensures FirstAt(g, keys, t, p' + 1) && g[p' + 1] == rest[p']
  {
    forall q | 0 <= q < p' + 1
      ensures KeyTuple(g[q], keys) != t
    {
      if q > 0 {
        assert g[q] == rest[q - 1];
      }
    }
  }

  /** The position of the first row of `s` that passes with key tuple `t`. */
  lemma FirstIndex(s: seq<Row>, keys: seq<string>, t: seq<Option<string>>) returns (m: nat)
    requires exists j :: 0 <= j < |s| && PassesWith(s[j], keys, t)
    ensures FirstIn(s, keys, m, t)
  {
    m := 0;
    while !PassesWith(s[m], keys, t)
      invariant m < |s|
      invariant forall i :: 0 <= i < m ==> !PassesWith(s[i], keys, t)
      invariant exists j :: m <= j < |s| && PassesWith(s[j], keys, t)
      decreases |s| - m
    {
      m := m + 1;
    }
  }

  /** The first row of the stripped rows that passes with `t` is the first given row that,
      stripped, passes with `t`. */
  lemma FirstInStripped(rows: seq<Row>, keys: seq<string>, j: nat, t: seq<Option<string>>)
    requires FirstIn(StripNulAll(rows), keys, j, t)
    ensures FirstPassing(rows, keys, j, t) && StripNulAll(rows)[j] == StripNul(rows[j])
  {
    var s := StripNulAll(rows);
    forall m | 0 <= m < j
      ensures !PassesWith(StripNul(rows[m]), keys, t)
    {
      assert s[m] == StripNul(rows[m]);
    }
    assert s[j] == StripNul(rows[j]);
  }

  /** A row kept at position `p` of the filtered rows, first there with its key tuple, is the
      first given row that passes with that tuple, less its NUL characters. */
  lemma FirstKeptIsFirstGiven(rows: seq<Row>, keys: seq<string>, p: nat)
    requires FirstOfTuple(Gate(StripNulAll(rows), keys), keys, {}, p)
    ensures var g := Gate(StripNulAll(rows), keys);
      exists j :: FirstPassing(rows, keys, j, KeyTuple(g[p], keys)) && g[p] == StripNul(rows[j])
  {
    var s := StripNulAll(rows);
    var g := Gate(s, keys);
    var t := KeyTuple(g[p], keys);
    assert PassesGate(g[p], keys) && g[p] in s;
    var j0 :| 0 <= j0 < |s| && s[j0] == g[p];
    assert PassesWith(s[j0], keys, t);
    var j := FirstIndex(s, keys, t);
    GateFirst(s, keys, t, j);
    var p2 :| FirstAt(g, keys, t, p2) && g[p2] == s[j];
    assert FirstAt(g, keys, t, p);
    FirstAtUnique(g, keys, t, p, p2);
    FirstInStripped(rows, keys, j, t);
  }

  /** Each row the gates let through is the first given row that passes with its key tuple, less
      its NUL characters. */
  lemma GatesFirst(rows: seq<Row>, keys: seq<string>)
    ensures var r := Gates(rows, keys);
      forall i :: 0 <= i < |r| ==> exists j :: FirstPassing(rows, keys, j, KeyTuple(r[i], keys)) && r[i] == StripNul(rows[j])
  {
    var g := Gate(StripNulAll(rows), keys);
    var r := KeepFirst(g, keys, {});
    assert r == Gates(rows, keys);
    forall i | 0 <= i < |r|
      ensures exists j :: FirstPassing(rows, keys, j, KeyTuple(r[i], keys)) && r[i] == StripNul(rows[j])
    {
      KeepFirstFirst(g, keys, {}, i);
      var p :| FirstOfTuple(g, keys, {}, p) && r[i] == g[p];
      FirstKeptIsFirstGiven(rows, keys, p);
    }
  }
  // ---------------------------------------------------------------------------------------------
  // The whole call (lines 245-344)

  /** The one upsert request: the table, the rows, and `on_conflict`. */
  datatype UpsertCall = UpsertCall(table: string, rows: seq<Row>, onConflict: string)

  /** Every row of `data`, cleaned. */
  function CleanAll(data: seq<Row>, w: set<string>, now: string): (r: seq<Row>)
    ensures |r| == |data|
  {
    seq(|data|, i requires 0 <= i < |data| => Cleaned(data[i], w, now))
  }

  /** `batch_upsert(table_key, data)` with NUL removal ahead of the gates: the request sent, or
      `None` when no request is sent. */
  function UpsertRequest(connected: bool, tableKey: string, data: seq<Row>, headers: Headers, now: string): Option<UpsertCall>
  {
    if !connected || data == [] || tableKey !in Tables then None
    else
      var conf := Tables[tableKey];
      var rows := Gates(CleanAll(data, Whitelist(headers, conf.csv), now), ConflictKeys(conf.key));
      if rows == [] then None else Some(UpsertCall(conf.table, rows, conf.key))
  }

  /** What is sent: nothing without a connection, an empty batch or a known table; otherwise at
      most as many rows as given, each with only whitelisted columns, a `last_updated`, a usable
      and distinct conflict key and no NUL character, and each timestamp column a timestamp or
      `now`. Each row sent is one of the given rows, cleaned and rid of NUL characters, whose
      timestamps are kept when they are full timestamps and replaced by `now` otherwise. */
  lemma UpsertFacts(connected: bool, tableKey: string, data: seq<Row>, headers: Headers, now: string)
    ensures !connected || data == [] || tableKey !in Tables ==> UpsertRequest(connected, tableKey, data, headers, now).None?
    ensures var call := UpsertRequest(connected, tableKey, data, headers, now);
      call.Some? ==>
        && tableKey in Tables
        && var conf := Tables[tableKey];
        && call.value.table == conf.table && call.value.onConflict == conf.key
        && 0 < |call.value.rows| <= |data|
        && (forall i :: 0 <= i < |call.value.rows| ==>
              var r := call.value.rows[i];
              && r.Keys <= Whitelist(headers, conf.csv)
              && "last_updated" in r
              && Usable(Get(r, conf.key))
              && (forall k :: k in r && r[k].Some? ==> '\0' !in r[k].value)
              && ('\0' !in now ==> forall k :: k in r && k in TimestampColumns ==> ValidOrNow(r[k], now))
              && SentFrom(r, data, Whitelist(headers, conf.csv), now))
        && (forall i, j :: 0 <= i < j < |call.value.rows| ==>
              Get(call.value.rows[i], conf.key) != Get(call.value.rows[j], conf.key))
  {
    var call := UpsertRequest(connected, tableKey, data, headers, now);
    if call.Some? {
      var conf := Tables[tableKey];
      TableConflictKeys(tableKey);
      assert "last_updated" in AuditColumns;
      SentBatchFacts(data, Whitelist(headers, conf.csv), now, conf.key);
    }
  }

  /** The batch the gates let through for a single conflict column `key`, row by row. */
  lemma SentBatchFacts(data: seq<Row>, w: set<string>, now: string, key: string)
    requires "last_updated" in w
    ensures var rows := Gates(CleanAll(data, w, now), [key]);
      && |rows| <= |data|
      && (forall i :: 0 <= i < |rows| ==>
            var r := rows[i];
            && r.Keys <= w
            && "last_updated" in r
            && Usable(Get(r, key))
            && (forall k :: k in r && r[k].Some? ==> '\0' !in r[k].value)
            && ('\0' !in now ==> forall k :: k in r && k in TimestampColumns ==> ValidOrNow(r[k], now))
            && SentFrom(r, data, w, now))
      && (forall i, j :: 0 <= i < j < |rows| ==> Get(rows[i], key) != Get(rows[j], key))
  {
    GatesFacts(CleanAll(data, w, now), [key]);
    SentBatchRows(data, w, now, key);
    SentBatchKeys(data, w, now, key);
  }

  /** Each row of the batch: whitelisted columns, `last_updated`, a usable key, and each
      timestamp column a timestamp or `now`; and the row is one of the given rows, cleaned and
      rid of NUL characters, with its timestamps checked. */
  lemma SentBatchRows(data: seq<Row>, w: set<string>, now: string, key: string)
    requires "last_updated" in w
    ensures var rows := Gates(CleanAll(data, w, now), [key]);
      forall i :: 0 <= i < |rows| ==>
        var r := rows[i];
        && r.Keys <= w
        && "last_updated" in r
        && Usable(Get(r, key))
        && ('\0' !in now ==> forall k :: k in r && k in TimestampColumns ==> ValidOrNow(r[k], now))
        && SentFrom(r, data, w, now)
  {
    var cleaned := CleanAll(data, w, now);
    var keys := [key];
    var rows := Gates(cleaned, keys);
    GatesSound(cleaned, keys);
    forall i | 0 <= i < |rows|
      ensures var r := rows[i];
        && r.Keys <= w
        && "last_updated" in r
        && Usable(Get(r, key))
        && ('\0' !in now ==> forall k :: k in r && k in TimestampColumns ==> ValidOrNow(r[k], now))
        && SentFrom(r, data, w, now)
    {
      var j :| 0 <= j < |cleaned| && rows[i] == StripNul(cleaned[j]);
      SentRowFacts(data[j], w, now);
      assert PassesGate(rows[i], keys);
    }
  }

  /** `r` is row `j` of `data`, cleaned and rid of NUL characters, for some `j`; its timestamp
      columns are checked as `StampsChecked` says. */
  ghost predicate SentFrom(r: Row, data: seq<Row>, w: set<string>, now: string)
  {
    exists j :: 0 <= j < |data| && r == StripNul(Cleaned(data[j], w, now))
                && ('\0' !in now ==> StampsChecked(r, data[j], w, now))
  }

  /** No two rows of the batch share a key value. */
  lemma SentBatchKeys(data: seq<Row>, w: set<string>, now: string, key: string)
    ensures var rows := Gates(CleanAll(data, w, now), [key]);
      forall i, j :: 0 <= i < j < |rows| ==> Get(rows[i], key) != Get(rows[j], key)
  {
    var keys := [key];
    var rows := Gates(CleanAll(data, w, now), keys);
    KeepFirstSound(Gate(StripNulAll(CleanAll(data, w, now)), keys), keys, {});
    forall i, j | 0 <= i < j < |rows|
      ensures Get(rows[i], key) != Get(rows[j], key)
    {
      assert KeyTuple(rows[i], keys)[0] == Get(rows[i], key);
      assert KeyTuple(rows[j], keys)[0] == Get(rows[j], key);
      assert |KeyTuple(rows[i], keys)| == |KeyTuple(rows[j], keys)| == 1;
    }
  }

  /** A cleaned row once its NUL characters are removed: only whitelisted columns and
      `last_updated`, every timestamp column a timestamp or `now`, and each kept timestamp as
      cleaned (a timestamp has no NUL to remove). */
  lemma SentRowFacts(row: Row, w: set<string>, now: string)
    requires "last_updated" in w
    ensures var r := StripNul(Cleaned(row, w, now));
      && r.Keys <= w && "last_updated" in r
      && ('\0' !in now ==> forall k :: k in r && k in TimestampColumns ==> ValidOrNow(r[k], now))
      && ('\0' !in now ==> StampsChecked(r, row, w, now))
  {
    var c := Cleaned(row, w, now);
    CleanedFacts(row, w, now);
    if '\0' !in now {
      forall k | k in c && k in TimestampColumns
        ensures ValidOrNow(StripNul(c)[k], now)
      {
        if c[k] != Some(now) {
          TimestampHasNoNul(c[k].value);
        }
      }
      SentRowStamps(row, w, now);
    }
  }

  /** Removing NUL characters leaves the timestamp columns of a cleaned row alone. */
  lemma SentRowStamps(row: Row, w: set<string>, now: string)
    requires '\0' !in now
    ensures StampsChecked(StripNul(Cleaned(row, w, now)), row, w, now)
  {
    var c := Cleaned(row, w, now);
    var r := StripNul(c);
    CleanedStamps(row, w, now);
    forall k | k in TimestampColumns
      ensures KeptStamp(row, w, k) ==> k in r && r[k] == CleanValue(k, row[k])
      ensures k in r && !KeptStamp(row, w, k) ==> r[k] == Some(now)
    {
      if KeptStamp(row, w, k) {
        TimestampHasNoNul(CleanValue(k, row[k]).value);
      }
    }
  }

  /** A full timestamp is made of digits, `-`, `:`, `T`, blank, `.`, `+`, `Z` and at most a final
      newline, so it has no NUL character for the last gate to remove. */
  lemma TimestampHasNoNul(s: string)
    requires IsoTimestampMatch(s)
    ensures '\0' !in s
  {
    var e := if IsoTimestampExact(s) then s else s[..|s| - 1];
    assert IsoTimestampExact(e);
    HeadHasNoNul(e);
    var t := e[19..];
    TailHasNoNul(t);
    forall i | 19 <= i < |e| ensures e[i] != '\0' {
      assert e[i] == t[i - 19];
    }
    if !IsoTimestampExact(s) {
      assert s == e + [s[|s| - 1]];
    }
  }

  lemma HeadHasNoNul(e: string)
    requires IsoTimestampExact(e)
    ensures forall i :: 0 <= i < 19 ==> e[i] != '\0'
  {
    forall i | 0 <= i < 19 ensures e[i] != '\0' {
    }
  }

  lemma TailHasNoNul(t: string)
    requires TimestampTail(t)
    ensures '\0' !in t
  {
    if t != [] && t[0] == '.' {
      var n := LeadingDigits(t[1..]);
      var z := t[1 + n..];
      ZoneHasNoNul(z);
      forall i | 0 <= i < |t| ensures t[i] != '\0' {
        if 1 <= i < 1 + n {
          assert t[i] == t[1..][i - 1];
        } else if i >= 1 + n {
          assert t[i] == z[i - 1 - n];
        }
      }
    } else {
      ZoneHasNoNul(t);
    }
  }

  lemma ZoneHasNoNul(z: string)
    requires ZoneSuffix(z)
    ensures '\0' !in z
  {
    forall i | 0 <= i < |z| ensures z[i] != '\0' {
    }
  }

  /** The row loop of lines 269-310. */
  method CleanBatch(data: seq<Row>, w: set<string>, now: string) returns (cleaned: seq<Row>)
    ensures cleaned == CleanAll(data, w, now)
  {
    cleaned := [];
    var i := 0;
    while i < |data|
      invariant i <= |data| && |cleaned| == i
      invariant forall j :: 0 <= j < i ==> cleaned[j] == Cleaned(data[j], w, now)
    {
      var clean := CleanRow(data[i], w, now);
      cleaned := cleaned + [clean];
      i := i + 1;
    }
  }

  /** The row loop of lines 331-334, rewriting each row in place. */
  method StripNulBatch(rows: seq<Row>) returns (stripped: seq<Row>)
    ensures stripped == StripNulAll(rows)
  {
    stripped := rows;
    var i := 0;
    while i < |stripped|
      invariant i <= |stripped| == |rows|
      invariant forall j :: 0 <= j < i ==> stripped[j] == StripNul(rows[j])
      invariant forall j :: i <= j < |stripped| ==> stripped[j] == rows[j]
    {
      var row := StripNulRow(stripped[i]);
      stripped := stripped[i := row];
      i := i + 1;
    }
  }

  /** Lines 245-344 (with NUL removal ahead of the gates). */
  method BatchUpsert(connected: bool, tableKey: string, data: seq<Row>, headers: Headers, now: string)
    returns (call: Option<UpsertCall>)
    ensures call == UpsertRequest(connected, tableKey, data, headers, now)
  {
    if !connected || data == [] {
      return None;
    }
    if tableKey !in Tables {
      return None;
    }
    var conf := Tables[tableKey];
    var w := Whitelist(headers, conf.csv);
    var cleaned := CleanBatch(data, w, now);
    // the NUL removal of lines 331-334, done before the gates
    cleaned := StripNulBatch(cleaned);
    var keys := ConflictKeys(conf.key);
    var passed := Gate(cleaned, keys);
    var deduped := Dedup(passed, keys);
    if deduped == [] {
      return None;
    }
    call := Some(UpsertCall(conf.table, deduped, conf.key));
  }
}
