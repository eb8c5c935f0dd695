/** routes/ffxiv.py, `ffxivitemnames`: the list of marketable item ids
    joined against the item-name table, which is keyed by the decimal text
    of each id and holds a per-language object for every item. */
module Ffxiv {
  import opened Wrappers
  import Json
  import Assoc
  import Text
  import Tables

  /** What `raw_items_names[str(id)]["en"]` raises: a `KeyError` for an id
      missing from the table, and a `KeyError` or `TypeError` for an entry
      that is not an object with an `"en"` member. */
  datatype LookupError =
    | ItemMissing(key: string)
    | NameMissing(key: string)

  /** The entry's `"en"` member, if the entry is an object that has one. */
  function EnglishMember(entry: Json.Json): (r: Option<Json.Json>)
    ensures r.Some? <==> entry.JObject? && "en" in Assoc.Keys(entry.fields)
  {
    if entry.JObject? then Assoc.Lookup(entry.fields, "en") else None
  }

  /** In a decoded entry, which never repeats a member name, `["en"]` is the
      value stored under "en". */
  lemma EnglishMemberFinds(entry: Json.Json, i: int)
    requires entry.JObject? && Assoc.DistinctKeys(entry.fields)
    requires 0 <= i < |entry.fields| && entry.fields[i].0 == "en"
    ensures EnglishMember(entry) == Some(entry.fields[i].1)
  {
    Assoc.LookupDistinct(entry.fields, i);
  }

  /** `raw_items_names[str(id)]["en"]`. */
  function EnglishName(names: map<string, Json.Json>, id: int): (r: Result<Json.Json, LookupError>)
    ensures r.Success? <==> Text.IntToDecimal(id) in names && EnglishMember(names[Text.IntToDecimal(id)]).Some?
    ensures r.Success? ==> r.value == EnglishMember(names[Text.IntToDecimal(id)]).value
    ensures r.Failure? ==> (r.error == ItemMissing(Text.IntToDecimal(id)) <==> Text.IntToDecimal(id) !in names)
    ensures r.Failure? ==> r.error.key == Text.IntToDecimal(id)
  {
    var key := Text.IntToDecimal(id);
    if key !in names then Failure(ItemMissing(key))
    else
      match EnglishMember(names[key])
      case None => Failure(NameMissing(key))
      case Some(name) => Success(name)
  }

  /** `[{"id": id, "name": raw_items_names[str(id)]["en"]} for id in item_ids]`:
      one row per id, in order, duplicates kept; the first id whose lookup
      raises aborts the whole list. */
  method ItemNameRows(names: map<string, Json.Json>, itemIds: seq<int>)
    returns (r: Result<seq<Tables.NameRow>, LookupError>)
    ensures r.Success? <==> forall i :: 0 <= i < |itemIds| ==> EnglishName(names, itemIds[i]).Success?
    ensures r.Success? ==> |r.value| == |itemIds|
    ensures r.Success? ==> forall i :: 0 <= i < |itemIds| ==>
      r.value[i] == Tables.NameRow(Json.JInt(itemIds[i]), EnglishName(names, itemIds[i]).value)
    ensures r.Success? ==> forall i, j :: 0 <= i < |itemIds| && 0 <= j < |itemIds| && itemIds[i] == itemIds[j] ==>
      r.value[i] == r.value[j]
    ensures r.Failure? ==> exists k :: 0 <= k < |itemIds| && FirstFailure(names, itemIds, k, r.error)
  {
    var rows: seq<Tables.NameRow> := [];
    var i := 0;
    while i < |itemIds|
      invariant 0 <= i <= |itemIds|
      invariant |rows| == i
      invariant forall j :: 0 <= j < i ==> EnglishName(names, itemIds[j]).Success?
      invariant forall j :: 0 <= j < i ==>
        rows[j] == Tables.NameRow(Json.JInt(itemIds[j]), EnglishName(names, itemIds[j]).value)
    {
      var name := EnglishName(names, itemIds[i]);
      if name.Failure? {
        assert FirstFailure(names, itemIds, i, name.error);
        return Failure(name.error);
      }
      rows := rows + [Tables.NameRow(Json.JInt(itemIds[i]), name.value)];
      i := i + 1;
    }
    return Success(rows);
  }

  /** The lookup of `itemIds[k]` raised `e`, and every lookup before it
      succeeded. */
  predicate FirstFailure(names: map<string, Json.Json>, itemIds: seq<int>, k: int, e: LookupError) {
    && 0 <= k < |itemIds|
    && (forall j :: 0 <= j < k ==> EnglishName(names, itemIds[j]).Success?)
    && EnglishName(names, itemIds[k]) == Failure(e)
  }

  /** Distinct ids are looked up under distinct keys, so the join never
      confuses two items. */
  lemma DistinctIdsDistinctKeys(a: int, b: int)
    requires a != b
    ensures Text.IntToDecimal(a) != Text.IntToDecimal(b)
  {
    Text.DecimalInjective(a, b);
  }
}
