/** The tables the reconciliation knows about and the values it moves between the CSV store
    and the remote database (Data/Access/sync_manager.py). */
module SyncTypes {
  import opened Wrappers

  /** One entry of `TABLE_CONFIG`: the CSV file, the remote table and the conflict key. */
  datatype TableConfig = TableConfig(csv: string, table: string, key: string)

  /** `TABLE_CONFIG`, keyed by table key. */
  const Tables: map<string, TableConfig> := map[
    "predictions" := TableConfig("predictions.csv", "predictions", "fixture_id"),
    "schedules" := TableConfig("schedules.csv", "schedules", "fixture_id"),
    "teams" := TableConfig("teams.csv", "teams", "team_id"),
    "region_league" := TableConfig("region_league.csv", "region_league", "rl_id"),
    "standings" := TableConfig("standings.csv", "standings", "standings_key"),
    "fb_matches" := TableConfig("fb_matches.csv", "fb_matches", "site_match_id"),
    "profiles" := TableConfig("profiles.csv", "profiles", "id"),
    "custom_rules" := TableConfig("custom_rules.csv", "custom_rules", "id"),
    "rule_executions" := TableConfig("rule_executions.csv", "rule_executions", "id")]

  /** The order in which `sync_on_startup` visits the tables (the dict's insertion order). */
  const TableOrder: seq<string> := ["predictions", "schedules", "teams", "region_league", "standings",
                                    "fb_matches", "profiles", "custom_rules", "rule_executions"]

  /** Columns holding a calendar date, written `DD.MM.YYYY` locally and `YYYY-MM-DD` remotely. */
  const DateFields: seq<string> := ["date", "date_updated", "last_extracted"]

  /** Columns the upsert checks against the ISO-8601 timestamp pattern, in that order. */
  const TimestampColumns: seq<string> := ["last_updated", "date_updated", "last_extracted", "created_at", "updated_at"]

  /** Columns always accepted by the upsert whitelist. */
  const AuditColumns: set<string> := {"id", "created_at", "updated_at", "last_updated"}

  /** Rows per metadata page (`range(offset, offset + 999)`). */
  const PageSize: nat := 1000

  /** Keys per pull request (`select("*").in_(key, batch)`). */
  const PullBatchSize: nat := 200

  /** A CSV row as `csv.DictReader` gives it: every value a string, or `None` for a column the
      line is too short to fill. Rows handed to the upsert have the same shape. */
  type Row = map<string, Option<string>>

  /** A value in a remote row: JSON null, a boolean, a string, or any other value (a number,
      say), given by its `str()` text and its truth value. */
  datatype RemoteValue =
    | Null
    | Boolean(b: bool)
    | Text(s: string)
    | Other(shown: string, truthy: bool)

  /** A remote row as the client returns it. */
  type RemoteRow = map<string, RemoteValue>

  /** Python `str(v)`. */
  function Show(v: RemoteValue): (r: string)
    ensures v.Text? ==> r == v.s
    ensures v.Null? ==> r == "None"
  {
    match v
    case Null => "None"
    case Boolean(b) => if b then "True" else "False"
    case Text(s) => s
    case Other(shown, _) => shown
  }

  /** Python `bool(v)`. */
  predicate Truthy(v: RemoteValue)
  {
    match v
    case Null => false
    case Boolean(b) => b
    case Text(s) => s != ""
    case Other(_, t) => t
  }

  /** Python truth of `row.get(k)` for a CSV value: present, not `None`, not empty. */
  predicate Filled(v: Option<string>)
  {
    v.Some? && v.value != ""
  }

  /** `row.get(k)` on a CSV row. */
  function Get(row: Row, k: string): Option<string>
  {
    if k in row then row[k] else None
  }

  /** The elements of `s` are pairwise different. */
  predicate Distinct<T(==)>(s: seq<T>)
  {
    forall i, j :: 0 <= i < j < |s| ==> s[i] != s[j]
  }
}
