/** routes/wow.py, `itemnames`: the upstream reply, an object from item id
    to item name, reshaped into `{"id", "name"}` table rows. */
module Wow {
  import opened Wrappers
  import Json
  import Assoc
  import Text
  import Tables

  /** `[{"id": k, "name": v} for k, v in response.items()]`, where `response`
      is the decoded reply dictionary's items, so no key repeats. */
  function ItemNames(response: seq<(string, Json.Json)>): (rows: seq<Tables.NameRow>)
    requires Assoc.DistinctKeys(response)
    ensures |rows| == |response|
    ensures forall i :: 0 <= i < |rows| ==>
      rows[i].id == Json.JString(response[i].0) && rows[i].name == response[i].1
  {
    seq(|response|, i requires 0 <= i < |response| =>
      Tables.NameRow(Json.JString(response[i].0), response[i].1))
  }

  /** Reads the reply object back from the rows; `None` when a row's id is
      not a string. */
  function RowsToObject(rows: seq<Tables.NameRow>): (r: Option<seq<(string, Json.Json)>>)
    ensures r.Some? ==> |r.value| == |rows|
    decreases |rows|
  {
    if |rows| == 0 then Some([])
    else if !rows[0].id.JString? then None
    else
      var rest :- RowsToObject(rows[1..]);
      Some([(rows[0].id.s, rows[0].name)] + rest)
  }

  /** The rows lose nothing and reorder nothing: the reply object, member
      order included, is recovered from them. */
  lemma {:induction false} ItemNamesRoundTrip(response: seq<(string, Json.Json)>)
    requires Assoc.DistinctKeys(response)
    ensures RowsToObject(ItemNames(response)) == Some(response)
    decreases |response|
  {
    if |response| > 0 {
      assert Assoc.Keys(response[1..]) == Assoc.Keys(response)[1..];
      assert ItemNames(response)[1..] == ItemNames(response[1..]);
      ItemNamesRoundTrip(response[1..]);
      assert response == [response[0]] + response[1..];
    }
  }

  /** The ids are pairwise distinct, because they are the keys of a
      dictionary. */
  lemma ItemNamesDistinctIds(response: seq<(string, Json.Json)>)
    requires Assoc.DistinctKeys(response)
    ensures var rows := ItemNames(response);
      forall i, j :: 0 <= i < j < |rows| ==> rows[i].id != rows[j].id
  {
    var rows := ItemNames(response);
    forall i, j | 0 <= i < j < |rows|
      ensures rows[i].id != rows[j].id
    {
      assert Assoc.Keys(response)[i] != Assoc.Keys(response)[j];
    }
  }

  /** An empty reply gives an empty table. */
  lemma ItemNamesEmpty()
    ensures ItemNames([]) == []
  {
  }
}
