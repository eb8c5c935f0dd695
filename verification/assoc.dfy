/** Ordered name/value lists: the members of a decoded JSON object and the
    header assignments of a response, both looked up by name. */
module Assoc {
  import opened Wrappers
  import Text

  /** The names of the entries, in order. */
  function Keys<V>(entries: seq<(string, V)>): (r: seq<string>)
    ensures |r| == |entries|
    ensures forall i :: 0 <= i < |entries| ==> r[i] == entries[i].0
  {
    seq(|entries|, i requires 0 <= i < |entries| => entries[i].0)
  }

  predicate DistinctKeys<V>(entries: seq<(string, V)>) {
    Text.Distinct(Keys(entries))
  }

  /** The value of the last entry named `key`: later entries override earlier
      ones, as with repeated assignment to a dictionary. */
  function Lookup<V>(entries: seq<(string, V)>, key: string): (r: Option<V>)
    ensures r.None? <==> key !in Keys(entries)
    decreases |entries|
  {
    if |entries| == 0 then None
    else if entries[|entries| - 1].0 == key then Some(entries[|entries| - 1].1)
    else
      assert Keys(entries) == Keys(entries[..|entries| - 1]) + [entries[|entries| - 1].0];
      Lookup(entries[..|entries| - 1], key)
  }

  /** Without repeated names, looking up an entry's name finds that entry's
      value. */
  lemma {:induction false} LookupDistinct<V>(entries: seq<(string, V)>, i: int)
    requires DistinctKeys(entries)
    requires 0 <= i < |entries|
    ensures Lookup(entries, entries[i].0) == Some(entries[i].1)
    decreases |entries|
  {
    var n := |entries| - 1;
    if i < n {
      assert Keys(entries)[i] != Keys(entries)[n];
      var init := entries[..n];
      assert Keys(init) == Keys(entries)[..n];
      LookupDistinct(init, i);
    }
  }
}
