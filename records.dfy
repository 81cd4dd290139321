/**
  The records the tools read: a CSV row from `csv.DictReader` and a JSON
  object from `json.loads`, both as maps from field names to optional
  strings. `None` is Python's `None`: the value `DictReader` gives a field
  of a row that is shorter than the header, or a JSON `null`.
 */
module Records {
  import opened Wrappers

  type Row = map<string, Option<string>>

  /** Python's `row.get(key)`: `None` when the key is absent. */
  function Lookup(row: Row, key: string): Option<string> {
    if key in row then row[key] else None
  }

  /** Python's `row.get(key, default)`: the default only when the key is absent. */
  function Get(row: Row, key: string, default: string): Option<string> {
    if key in row then row[key] else Some(default)
  }

  /** Python's `x or ""` for an optional string. */
  function OrEmpty(x: Option<string>): string {
    if x.Some? then x.value else ""
  }

  /** Python's `x or default`: the default for `None` and for the empty string. */
  function OrDefault(x: Option<string>, default: string): string {
    if x.Some? && x.value != "" then x.value else default
  }

  /** Python's truthiness of an optional string: present and non-empty. */
  predicate Truthy(x: Option<string>) {
    x.Some? && x.value != ""
  }

  /**
    `required - set(reader.fieldnames or [])`: the required columns a CSV
    header lacks.
   */
  function MissingColumns(required: set<string>, fieldnames: seq<string>): (missing: set<string>)
    ensures forall c :: c in missing <==> c in required && c !in fieldnames
  {
    required - set f | f in fieldnames
  }
}
