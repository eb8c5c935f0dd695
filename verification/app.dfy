/** app.py: its exact-literal `str_to_bool`, the request body that `scan`
    builds from the submitted form, and the result-table column list. */
module App {
  import opened Wrappers
  import Text
  import Json
  import Assoc
  import Helpers

  /** A submitted form: field name to its (first) value. */
  type Form = map<string, string>

  /** `request.form.get(name)`. */
  function Get(form: Form, name: string): (r: Option<string>)
    ensures r.Some? <==> name in form
    ensures r.Some? ==> r.value == form[name]
  {
    if name in form then Some(form[name]) else None
  }

  /* ---------------------------------------------------------- str_to_bool */

  /** app.py's `str_to_bool`: true for the exact text `"True"` and false for
      anything else, an absent field included. It never fails. */
  function StrToBool(v: Option<string>): (r: bool)
    ensures r <==> v == Some("True")
  {
    match v
    case Some(s) => s == "True"
    case None => false
  }

  /** Whenever app.py's parser says true, the lenient parser of
      utils/helpers.py says true as well. */
  lemma ExactAgreesWithLenient(s: string)
    ensures StrToBool(Some(s)) ==> Helpers.StrToBool(s) == Success(true)
  {
    if s == "True" {
      assert Text.Lower(s) == "true";
    }
  }

  /** Exactly where the two parsers agree: on the text "True" and on the
      false spellings. Every other true spelling is false for app.py's parser,
      and every text the lenient parser rejects is quietly false for it. */
  lemma ParsersAgreeExactly(s: string)
    ensures Helpers.StrToBool(s) == Success(StrToBool(Some(s)))
        <==> s == "True" || Text.Lower(s) in Helpers.FalseWords
  {
    if s == "True" {
      assert Text.Lower(s) == "true";
    }
    Helpers.WordSetsDisjoint();
  }

  /** The two parsers disagree on every other spelling of true: app.py's is
      case-sensitive and knows no synonyms. */
  lemma ParsersDisagree()
    ensures !StrToBool(Some("true")) && Helpers.StrToBool("true") == Success(true)
    ensures !StrToBool(Some("TRUE")) && Helpers.StrToBool("TRUE") == Success(true)
    ensures !StrToBool(Some("1")) && Helpers.StrToBool("1") == Success(true)
    ensures !StrToBool(Some("yes")) && Helpers.StrToBool("yes") == Success(true)
  {
    assert Text.Lower("true") == "true";
    assert Text.Lower("TRUE") == "true";
    assert Text.Lower("1") == "1";
    assert Text.Lower("yes") == "yes";
  }

  /* ------------------------------------------------------ integer fields */

  /** What `int(request.form.get(name))` raises: `TypeError` when the field
      is absent (`int(None)`), `ValueError` when its text is not a number. */
  datatype FieldError =
    | Missing(field: string)
    | NotNumeric(field: string, raw: string)

  predicate FieldParses(form: Form, name: string) {
    name in form && Text.ParseInt(form[name]).Some?
  }

  function FieldValue(form: Form, name: string): int
    requires FieldParses(form, name)
  {
    Text.ParseInt(form[name]).value
  }

  /** `int(request.form.get(name))`. */
  function IntField(form: Form, name: string): (r: Result<int, FieldError>)
    ensures r.Success? <==> FieldParses(form, name)
    ensures r.Success? ==> r.value == FieldValue(form, name)
    ensures r.Failure? ==> r.error.field == name
    ensures r.Failure? ==> (r.error.Missing? <==> name !in form)
    ensures r.Failure? && r.error.NotNumeric? ==> r.error.raw == form[name]
  {
    if name !in form then Failure(Missing(name))
    else
      match Text.ParseInt(form[name])
      case None => Failure(NotNumeric(name, form[name]))
      case Some(n) => Success(n)
  }

  /** Converts the named fields one after the other, stopping at the first
      conversion that raises. */
  function IntFields(form: Form, names: seq<string>): (r: Result<seq<int>, FieldError>)
    ensures r.Success? <==> forall k :: 0 <= k < |names| ==> FieldParses(form, names[k])
    ensures r.Success? ==> |r.value| == |names|
    ensures r.Success? ==> forall k :: 0 <= k < |names| ==> FieldParses(form, names[k]) && r.value[k] == FieldValue(form, names[k])
    ensures r.Failure? ==> exists k :: 0 <= k < |names| && FirstFailure(form, names, k, r.error)
    decreases |names|
  {
    if |names| == 0 then Success([])
    else
      match IntField(form, names[0])
      case Failure(e) =>
        assert FirstFailure(form, names, 0, e);
        Failure(e)
      case Success(v) =>
        match IntFields(form, names[1..])
        case Failure(e) =>
          assert forall k :: 0 <= k < |names[1..]| && FirstFailure(form, names[1..], k, e) ==> FirstFailure(form, names, k + 1, e);
          Failure(e)
        case Success(vs) =>
          Success([v] + vs)
  }

  /** `e` is the error raised by converting `names[k]`, and every field
      before it converted. */
  predicate FirstFailure(form: Form, names: seq<string>, k: int, e: FieldError) {
    && 0 <= k < |names|
    && (forall j :: 0 <= j < k ==> FieldParses(form, names[j]))
    && IntField(form, names[k]) == Failure(e)
  }

  /* ---------------------------------------------------------- scan payload */

  /** The JSON body `scan` posts upstream (app.py lines 48-62). */
  datatype ScanPayload = ScanPayload(
    preferredRoi: int,
    minProfitAmount: int,
    minDesiredAvgPpu: int,
    minStackSize: int,
    hoursAgo: int,
    minSales: int,
    hq: bool,
    homeServer: Option<string>,
    filters: seq<int>,
    regionWide: bool,
    includeVendor: bool,
    showOutStock: bool,
    universalisListUid: string)

  /** The integer form fields in the order `scan` converts them: `filters`
      first (line 44), then the dictionary entries from top to bottom. */
  const ScanIntFields: seq<string> :=
    ["filters", "roi", "profit_amt", "min_desired_avg_ppu", "stack_size", "scan_hours", "sale_amt"]

  /** The payload-building part of `scan`. */
  function BuildScanPayload(form: Form): (r: Result<ScanPayload, FieldError>)
    ensures r.Success? <==> forall k :: 0 <= k < |ScanIntFields| ==> FieldParses(form, ScanIntFields[k])
    ensures r.Failure? ==> exists k :: 0 <= k < |ScanIntFields| && FirstFailure(form, ScanIntFields, k, r.error)
    ensures r.Success? ==>
      && FieldParses(form, "filters") && r.value.filters == [FieldValue(form, "filters")]
      && FieldParses(form, "roi") && r.value.preferredRoi == FieldValue(form, "roi")
      && FieldParses(form, "profit_amt") && r.value.minProfitAmount == FieldValue(form, "profit_amt")
      && FieldParses(form, "min_desired_avg_ppu") && r.value.minDesiredAvgPpu == FieldValue(form, "min_desired_avg_ppu")
      && FieldParses(form, "stack_size") && r.value.minStackSize == FieldValue(form, "stack_size")
      && FieldParses(form, "scan_hours") && r.value.hoursAgo == FieldValue(form, "scan_hours")
      && FieldParses(form, "sale_amt") && r.value.minSales == FieldValue(form, "sale_amt")
    ensures r.Success? ==>
      && (r.value.hq <==> Get(form, "hq_only") == Some("True"))
      && (r.value.regionWide <==> Get(form, "game_wide") == Some("True"))
      && (r.value.includeVendor <==> Get(form, "include_vendor") == Some("True"))
      && (r.value.showOutStock <==> Get(form, "out_stock") == Some("True"))
    ensures r.Success? ==> r.value.homeServer == Get(form, "home_server") && r.value.universalisListUid == ""
  {
    var v :- IntFields(form, ScanIntFields);
    Success(ScanPayload(
      preferredRoi := v[1],
      minProfitAmount := v[2],
      minDesiredAvgPpu := v[3],
      minStackSize := v[4],
      hoursAgo := v[5],
      minSales := v[6],
      hq := StrToBool(Get(form, "hq_only")),
      homeServer := Get(form, "home_server"),
      filters := [v[0]],
      regionWide := StrToBool(Get(form, "game_wide")),
      includeVendor := StrToBool(Get(form, "include_vendor")),
      showOutStock := StrToBool(Get(form, "out_stock")),
      universalisListUid := ""))
  }

  /** Absent check boxes give false, not an error. */
  lemma AbsentBooleansAreFalse(form: Form)
    requires "hq_only" !in form && "game_wide" !in form
    requires "include_vendor" !in form && "out_stock" !in form
    ensures BuildScanPayload(form).Success? ==>
      var p := BuildScanPayload(form).value;
      !p.hq && !p.regionWide && !p.includeVendor && !p.showOutStock
  {
  }

  /** `filters` is always wrapped as a one-element list; `-1` is not treated
      as a "no filter" sentinel. */
  lemma NoFilterSentinel(form: Form)
    requires BuildScanPayload(form).Success?
    requires form["filters"] == "-1"
    ensures BuildScanPayload(form).value.filters == [-1]
  {
    assert Text.ParseInt("-1") == Some(-1) by {
      assert "-1"[1..] == "1";
      assert Text.DigitsValue("1") == 1 by {
        assert "1"[..0] == "";
      }
    }
  }

  /** The payload as the JSON object that is sent. */
  function PayloadJson(p: ScanPayload): (r: Json.Json)
    ensures r.JObject? && Assoc.Keys(r.fields) == PayloadKeys
  {
    Json.JObject([
      ("preferred_roi", Json.JInt(p.preferredRoi)),
      ("min_profit_amount", Json.JInt(p.minProfitAmount)),
      ("min_desired_avg_ppu", Json.JInt(p.minDesiredAvgPpu)),
      ("min_stack_size", Json.JInt(p.minStackSize)),
      ("hours_ago", Json.JInt(p.hoursAgo)),
      ("min_sales", Json.JInt(p.minSales)),
      ("hq", Json.JBool(p.hq)),
      ("home_server", if p.homeServer.Some? then Json.JString(p.homeServer.value) else Json.JNull),
      ("filters", IntArray(p.filters)),
      ("region_wide", Json.JBool(p.regionWide)),
      ("include_vendor", Json.JBool(p.includeVendor)),
      ("show_out_stock", Json.JBool(p.showOutStock)),
      ("universalis_list_uid", Json.JString(p.universalisListUid))
    ])
  }

  /** The member names of the body, in the order the dictionary literal
      lists them. */
  const PayloadKeys: seq<string> := [
    "preferred_roi", "min_profit_amount", "min_desired_avg_ppu", "min_stack_size",
    "hours_ago", "min_sales", "hq", "home_server", "filters", "region_wide",
    "include_vendor", "show_out_stock", "universalis_list_uid"
  ]

  function IntOf(j: Json.Json): Option<int> {
    if j.JInt? then Some(j.i) else None
  }

  function BoolOf(j: Json.Json): Option<bool> {
    if j.JBool? then Some(j.b) else None
  }

  function StringOf(j: Json.Json): Option<string> {
    if j.JString? then Some(j.s) else None
  }

  /** A string or `null`. */
  function NullableStringOf(j: Json.Json): Option<Option<string>> {
    if j.JString? then Some(Some(j.s)) else if j.JNull? then Some(None) else None
  }

  function IntsOf(j: Json.Json): Option<seq<int>> {
    if j.JArray? then IntItems(j.items) else None
  }

  /** Reads a payload back from a JSON body that has exactly the expected
      members in the expected order: the upstream endpoint's view of the
      request. */
  function PayloadFromJson(j: Json.Json): Option<ScanPayload> {
    if !j.JObject? || Assoc.Keys(j.fields) != PayloadKeys then None
    else
      var f := j.fields;
      var roi :- IntOf(f[0].1);
      var profit :- IntOf(f[1].1);
      var ppu :- IntOf(f[2].1);
      var stack :- IntOf(f[3].1);
      var hours :- IntOf(f[4].1);
      var sales :- IntOf(f[5].1);
      var hq :- BoolOf(f[6].1);
      var home :- NullableStringOf(f[7].1);
      var filters :- IntsOf(f[8].1);
      var region :- BoolOf(f[9].1);
      var vendor :- BoolOf(f[10].1);
      var outStock :- BoolOf(f[11].1);
      var uid :- StringOf(f[12].1);
      Some(ScanPayload(roi, profit, ppu, stack, hours, sales, hq, home, filters, region, vendor, outStock, uid))
  }

  /** The integers of an array whose items are all integers. */
  function IntItems(items: seq<Json.Json>): (r: Option<seq<int>>)
    ensures r.Some? ==> |r.value| == |items|
    decreases |items|
  {
    if |items| == 0 then Some([])
    else if !items[0].JInt? then None
    else
      match IntItems(items[1..])
      case None => None
      case Some(rest) => Some([items[0].i] + rest)
  }

  /** A list of integers as a JSON array. */
  function IntArray(xs: seq<int>): (r: Json.Json)
    ensures r.JArray? && |r.items| == |xs|
  {
    Json.JArray(seq(|xs|, i requires 0 <= i < |xs| => Json.JInt(xs[i])))
  }

  lemma {:induction false} IntItemsOfInts(xs: seq<int>)
    ensures IntItems(IntArray(xs).items) == Some(xs)
    decreases |xs|
  {
    var items := IntArray(xs).items;
    if |xs| > 0 {
      assert items[1..] == IntArray(xs[1..]).items;
      IntItemsOfInts(xs[1..]);
      assert xs == [xs[0]] + xs[1..];
    }
  }

  lemma PayloadKeysDistinct()
    ensures Text.Distinct(PayloadKeys)
  {
  }

  /** The body names each payload field once. */
  lemma PayloadJsonKeys(p: ScanPayload)
    ensures Assoc.DistinctKeys(PayloadJson(p).fields)
  {
    PayloadKeysDistinct();
  }

  /** Nothing is lost in the body: reading it back gives the payload. */
  lemma PayloadJsonRoundTrip(p: ScanPayload)
    ensures PayloadFromJson(PayloadJson(p)) == Some(p)
  {
    PayloadJsonKeys(p);
    IntItemsOfInts(p.filters);
  }

  /* -------------------------------------------------------- result table */

  /** The `fieldnames` column list for the scan results (lines 88-104). */
  function ScanFieldnames(): (r: seq<string>)
    ensures |r| == 15
    ensures Text.Distinct(r)
    ensures "item_id" in r && "real_name" in r && "ROI" in r
  {
    [
      "ROI",
      "avg_ppu",
      "home_server_price",
      "home_update_time",
      "item_id",
      "npc_vendor_info",
      "ppu",
      "profit_amount",
      "profit_raw_percent",
      "real_name",
      "sale_rates",
      "server",
      "stack_size",
      "update_time",
      "url"
    ]
  }
}
