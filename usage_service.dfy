/**
 * `UsageService.transformAndSave`: the early returns, then one loop over the
 * fiscal months that appends to the `results` and `recordsToSave` lists.
 * The repository is not modelled: `saved` is the list passed to `saveAll`,
 * or None when `saveAll` is not called.
 */
module UsageService {
  import opened Wrappers
  import opened UsageSpec

  method TransformAndSave(request: Option<map<string, Value>>, parseInt: string -> Option<Int32>, parseDouble: string -> Option<real>)
    returns (results: seq<OutputDto>, saved: Option<seq<UsageRecord>>)
    ensures results == Transform(request, parseInt, parseDouble)
    ensures saved.Some? <==> results != []
    ensures saved.Some? ==> |saved.value| == |results|
    ensures saved.Some? ==> forall i :: 0 <= i < |results| ==> saved.value[i] == RecordOf(results[i])
  {
    if request.None? {
      return [], None;
    }
    if "content" !in request.value || !request.value["content"].Nested? {
      return [], None;
    }
    var content := request.value["content"].fields;
    if "Fyear" !in content {
      return [], None;
    }
    var parsedYear := parseInt(Trim(content["Fyear"].text));
    if parsedYear.None? {
      return [], None;
    }
    var records;
    results, records := MonthlyRows(content, parsedYear.value, parseDouble);
    saved := if records != [] then Some(records) else None;
  }

  /** The loop over `MONTHS_ORDER`, building `results` and `recordsToSave` side by side. */
  method MonthlyRows(content: map<string, Value>, fyear: Int32, parseDouble: string -> Option<real>)
    returns (results: seq<OutputDto>, records: seq<UsageRecord>)
    ensures results == Rows(content, fyear, parseDouble, MonthsOrder)
    ensures |records| == |results|
    ensures forall i :: 0 <= i < |results| ==> records[i] == RecordOf(results[i])
  {
    var location := TextOr(content, "Location", "");
    var code := TextOr(content, "CatName", "");
    var unit := TextOr(content, "Uom", "");

    results, records := [], [];
    for k := 0 to |MonthsOrder|
      invariant results == Rows(content, fyear, parseDouble, MonthsOrder[..k])
      invariant |records| == |results|
      invariant forall i :: 0 <= i < |results| ==> records[i] == RecordOf(results[i])
    {
      var m := MonthsOrder[k];
      assert MonthsOrder[..k + 1][..k] == MonthsOrder[..k];
      if m !in content {
        continue;
      }
      var parsed := parseDouble(StripCommas(content[m].text));
      if parsed.None? || parsed.value == 0.0 {
        continue;
      }
      var val := parsed.value;
      var monthNumber := MonthNumberOf(m);
      var yearForMonth := YearOf(m, fyear);
      results := results + [OutputDto(location, code, monthNumber, yearForMonth, val, unit)];
      records := records + [UsageRecord(None, location, code, monthNumber, yearForMonth, val, unit)];
    }
    assert MonthsOrder[..|MonthsOrder|] == MonthsOrder;
  }
}
