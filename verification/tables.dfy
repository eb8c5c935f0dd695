/** The two-column result table shared by the item-name routes: each row is
    the Python dictionary `{"id": ..., "name": ...}` and the template is given
    the column list `["id", "name"]` (routes/wow.py and routes/ffxiv.py). */
module Tables {
  import Json
  import Assoc
  import opened Wrappers

  datatype NameRow = NameRow(id: Json.Json, name: Json.Json)

  /** The `fieldnames` passed to the template. */
  function Columns(): (r: seq<string>)
    ensures |r| == 2 && r[0] != r[1]
  {
    ["id", "name"]
  }

  /** A row as the dictionary literal that builds it. */
  function RowObject(row: NameRow): (r: Json.Json)
    ensures r.JObject? && Assoc.DistinctKeys(r.fields)
  {
    Json.JObject([("id", row.id), ("name", row.name)])
  }

  /** Every row has exactly the declared columns, in the declared order, so the
      table shows each row completely and nothing else. */
  lemma RowMatchesColumns(row: NameRow)
    ensures Assoc.Keys(RowObject(row).fields) == Columns()
    ensures Assoc.Lookup(RowObject(row).fields, Columns()[0]) == Some(row.id)
    ensures Assoc.Lookup(RowObject(row).fields, Columns()[1]) == Some(row.name)
  {
  }
}
