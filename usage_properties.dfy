/** What `transformAndSave` promises about the rows it returns. */
module UsageProperties {
  import opened Wrappers
  import opened UsageSpec

  /** Months since year 0, so that later months compare greater. */
  function Chrono(year: int, month: int): int {
    year * 12 + month
  }

  /**
   * Every name of `MONTHS_ORDER` is in `MONTH_NAME_TO_NUMBER`, so the -1
   * default is never used: the k-th fiscal month (from 0) is calendar month
   * k + 4 for k < 9 (April to December) and k - 8 after (January to March).
   */
  lemma FiscalMonth(k: int)
    requires 0 <= k < |MonthsOrder|
    ensures MonthsOrder[k] in MonthNumber
    ensures MonthNumberOf(MonthsOrder[k]) == if k < 9 then k + 4 else k - 8
    ensures MonthsOrder[k] in AprToDec <==> k < 9
  {
    if k == 0 {} else if k == 1 {} else if k == 2 {} else if k == 3 {}
    else if k == 4 {} else if k == 5 {} else if k == 6 {} else if k == 7 {}
    else if k == 8 {} else if k == 9 {} else if k == 10 {} else {}
  }

  /** Distinct fiscal months have distinct month numbers. */
  lemma FiscalMonthsDistinct(k: int, l: int)
    requires 0 <= k < |MonthsOrder| && 0 <= l < |MonthsOrder|
    requires MonthNumberOf(MonthsOrder[k]) == MonthNumberOf(MonthsOrder[l])
    ensures k == l
  {
    FiscalMonth(k);
    FiscalMonth(l);
  }

  /** The rows of the first n fiscal months are exactly the rows those months give. */
  lemma {:induction false} RowsAreMonthRows(content: map<string, Value>, fyear: Int32, parseDouble: string -> Option<real>, n: nat)
    requires n <= |MonthsOrder|
    ensures var rows := Rows(content, fyear, parseDouble, MonthsOrder[..n]);
      && |rows| <= n
      && forall r :: r in rows <==> exists k :: 0 <= k < n && MonthRow(content, fyear, parseDouble, MonthsOrder[k]) == Some(r)
  {
    if n > 0 {
      var m := n - 1;
      assert MonthsOrder[..n][..m] == MonthsOrder[..m];
      RowsAreMonthRows(content, fyear, parseDouble, m);
    }
  }

  /** The rows of the first n fiscal months are for pairwise different months: at most one row per month. */
  lemma {:induction false} RowsDistinctMonths(content: map<string, Value>, fyear: Int32, parseDouble: string -> Option<real>, n: nat)
    requires n <= |MonthsOrder|
    ensures var rows := Rows(content, fyear, parseDouble, MonthsOrder[..n]);
      forall i, j :: 0 <= i < j < |rows| ==> rows[i].month != rows[j].month
  {
    if n > 0 {
      var m := n - 1;
      assert MonthsOrder[..n][..m] == MonthsOrder[..m];
      assert MonthsOrder[..n][m] == MonthsOrder[m];
      RowsDistinctMonths(content, fyear, parseDouble, m);
      var prev := Rows(content, fyear, parseDouble, MonthsOrder[..m]);
      var row := MonthRow(content, fyear, parseDouble, MonthsOrder[m]);
      if row.Some? {
        RowsAreMonthRows(content, fyear, parseDouble, m);
        MonthRowFacts(content, fyear, parseDouble, m);
        forall i | 0 <= i < |prev|
          ensures prev[i].month != row.value.month
        {
          assert prev[i] in prev;
          var k :| 0 <= k < m && MonthRow(content, fyear, parseDouble, MonthsOrder[k]) == Some(prev[i]);
          MonthRowFacts(content, fyear, parseDouble, k);
          if prev[i].month == row.value.month {
            FiscalMonthsDistinct(k, m);
          }
        }
      }
    }
  }

  /** The fields every row of a fiscal year shares, and those set by its month. */
  ghost predicate RowFields(r: OutputDto, content: map<string, Value>, fyear: Int32) {
    && 1 <= r.month <= 12
    && (r.month >= 4 ==> r.year == Wrap32(fyear - 1))
    && (r.month <= 3 ==> r.year == fyear)
    && r.value != 0.0
    && r.location == TextOr(content, "Location", "")
    && r.code == TextOr(content, "CatName", "")
    && r.unit == TextOr(content, "Uom", "")
  }

  /** The row of a fiscal month, when there is one: its fields, and its place in calendar time. */
  lemma MonthRowFacts(content: map<string, Value>, fyear: Int32, parseDouble: string -> Option<real>, k: int)
    requires 0 <= k < |MonthsOrder|
    requires MonthRow(content, fyear, parseDouble, MonthsOrder[k]).Some?
    ensures var r := MonthRow(content, fyear, parseDouble, MonthsOrder[k]).value;
      && RowFields(r, content, fyear)
      && r.month == MonthNumberOf(MonthsOrder[k])
      && (fyear > MinInt32 ==> Chrono(r.year, r.month) == (fyear - 1) * 12 + 4 + k)
  {
    FiscalMonth(k);
  }

  /**
   * For `fyear` above the smallest `int`, the rows of the first n fiscal
   * months are in strictly increasing chronological order, all before
   * fiscal month n.
   */
  lemma {:induction false} RowsInOrder(content: map<string, Value>, fyear: Int32, parseDouble: string -> Option<real>, n: nat)
    requires n <= |MonthsOrder| && fyear > MinInt32
    ensures var rows := Rows(content, fyear, parseDouble, MonthsOrder[..n]);
      && (forall i :: 0 <= i < |rows| ==> Chrono(rows[i].year, rows[i].month) < (fyear - 1) * 12 + 4 + n)
      && (forall i, j :: 0 <= i < j < |rows| ==> Chrono(rows[i].year, rows[i].month) < Chrono(rows[j].year, rows[j].month))
  {
    if n > 0 {
      var m := n - 1;
      assert MonthsOrder[..n][..m] == MonthsOrder[..m];
      assert MonthsOrder[..n][m] == MonthsOrder[m];
      RowsInOrder(content, fyear, parseDouble, m);
      var prev := Rows(content, fyear, parseDouble, MonthsOrder[..m]);
      var rows := Rows(content, fyear, parseDouble, MonthsOrder[..n]);
      var row := MonthRow(content, fyear, parseDouble, MonthsOrder[m]);
      assert var rr := Rows(content, fyear, parseDouble, MonthsOrder[..m]);
        && (forall i :: 0 <= i < |rr| ==> Chrono(rr[i].year, rr[i].month) < (fyear - 1) * 12 + 4 + m)
        && (forall i, j :: 0 <= i < j < |rr| ==> Chrono(rr[i].year, rr[i].month) < Chrono(rr[j].year, rr[j].month));
      if row.Some? {
        MonthRowFacts(content, fyear, parseDouble, m);
        assert rows == prev + [row.value];
        assert Chrono(row.value.year, row.value.month) == (fyear - 1) * 12 + 4 + m;
      } else {
        assert rows == prev;
      }
    }
  }

  /**
   * A request with no `content` object, no `Fyear`, or an `Fyear` that does
   * not parse once trimmed gives no rows.
   */
  lemma RejectedRequests(request: Option<map<string, Value>>, parseInt: string -> Option<Int32>, parseDouble: string -> Option<real>)
    requires || request.None?
             || "content" !in request.value
             || !request.value["content"].Nested?
             || "Fyear" !in request.value["content"].fields
             || parseInt(Trim(request.value["content"].fields["Fyear"].text)).None?
    ensures Transform(request, parseInt, parseDouble) == []
  {
  }

  /** At most twelve rows, each with the fields `RowFields` describes. */
  lemma AllRowFields(content: map<string, Value>, fyear: Int32, parseDouble: string -> Option<real>)
    ensures var rows := Rows(content, fyear, parseDouble, MonthsOrder);
      |rows| <= 12 && forall r :: r in rows ==> RowFields(r, content, fyear)
  {
    var rows := Rows(content, fyear, parseDouble, MonthsOrder);
    assert MonthsOrder[..|MonthsOrder|] == MonthsOrder;
    RowsAreMonthRows(content, fyear, parseDouble, |MonthsOrder|);
    forall r | r in rows
      ensures RowFields(r, content, fyear)
    {
      var k :| 0 <= k < |MonthsOrder| && MonthRow(content, fyear, parseDouble, MonthsOrder[k]) == Some(r);
      MonthRowFacts(content, fyear, parseDouble, k);
    }
  }

  /**
   * For an accepted request: at most twelve rows; each has a month number in
   * 1..12, the year before `fyear` (in `int` arithmetic) for April to
   * December and `fyear` for January to March, a nonzero value, and the
   * request's Location, CatName and Uom (or "").
   */
  lemma AcceptedRequestRows(request: Option<map<string, Value>>, parseInt: string -> Option<Int32>, parseDouble: string -> Option<real>)
    requires ParseRequest(request, parseInt).Some?
    ensures var p := ParseRequest(request, parseInt).value;
      var rows := Transform(request, parseInt, parseDouble);
      |rows| <= 12 && forall r :: r in rows ==> RowFields(r, p.content, p.fyear)
  {
    var p := ParseRequest(request, parseInt).value;
    AllRowFields(p.content, p.fyear, parseDouble);
  }

  /**
   * A month has a row exactly when its column is present, its value parses
   * once the commas are removed, and the value is not zero.
   */
  lemma MonthHasRow(request: Option<map<string, Value>>, parseInt: string -> Option<Int32>, parseDouble: string -> Option<real>, k: int)
    requires ParseRequest(request, parseInt).Some? && 0 <= k < |MonthsOrder|
    ensures var p := ParseRequest(request, parseInt).value;
      var m := MonthsOrder[k];
      (exists r :: r in Transform(request, parseInt, parseDouble) && r.month == MonthNumberOf(m))
      <==> (m in p.content && parseDouble(StripCommas(p.content[m].text)).Some?
            && parseDouble(StripCommas(p.content[m].text)).value != 0.0)
  {
    var p := ParseRequest(request, parseInt).value;
    var rows := Transform(request, parseInt, parseDouble);
    assert MonthsOrder[..|MonthsOrder|] == MonthsOrder;
    assert rows == Rows(p.content, p.fyear, parseDouble, MonthsOrder[..|MonthsOrder|]);
    RowsAreMonthRows(p.content, p.fyear, parseDouble, |MonthsOrder|);
    var row := MonthRow(p.content, p.fyear, parseDouble, MonthsOrder[k]);
    if row.Some? {
      assert row.value in rows;
    }
    if r :| r in rows && r.month == MonthNumberOf(MonthsOrder[k]) {
      var l :| 0 <= l < |MonthsOrder| && MonthRow(p.content, p.fyear, parseDouble, MonthsOrder[l]) == Some(r);
      FiscalMonthsDistinct(k, l);
    }
  }

  /**
   * Rows follow the fiscal order, April to March, so for an `Fyear` above
   * the smallest `int` they are strictly increasing in calendar time.
   */
  lemma Chronological(request: Option<map<string, Value>>, parseInt: string -> Option<Int32>, parseDouble: string -> Option<real>)
    requires ParseRequest(request, parseInt).Some? && ParseRequest(request, parseInt).value.fyear > MinInt32
    ensures var rows := Transform(request, parseInt, parseDouble);
      forall i, j :: 0 <= i < j < |rows| ==> Chrono(rows[i].year, rows[i].month) < Chrono(rows[j].year, rows[j].month)
  {
    var p := ParseRequest(request, parseInt).value;
    assert MonthsOrder[..|MonthsOrder|] == MonthsOrder;
    assert Transform(request, parseInt, parseDouble) == Rows(p.content, p.fyear, parseDouble, MonthsOrder[..|MonthsOrder|]);
    RowsInOrder(p.content, p.fyear, parseDouble, |MonthsOrder|);
  }

  /**
   * At the smallest `int`, `fyear - 1` wraps around: an April row is dated
   * 2147483647, after the January row of the same request.
   */
  lemma YearWrapsAtMinInt(content: map<string, Value>, parseDouble: string -> Option<real>)
    requires "Apr" in content && parseDouble(StripCommas(content["Apr"].text)).Some?
    requires parseDouble(StripCommas(content["Apr"].text)).value != 0.0
    ensures var row := MonthRow(content, MinInt32, parseDouble, "Apr");
      row.Some? && row.value.month == 4 && row.value.year == 0x7fff_ffff
  {
  }
}
