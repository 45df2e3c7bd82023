/**
 * `UsageService.transformAndSave`, as functions: one request row of month
 * columns becomes one output row per month with a nonzero value, dated by
 * the April-to-March fiscal calendar. `Integer.parseInt` and
 * `Double.parseDouble` are not modelled; they are the parameters
 * `parseInt` and `parseDouble`, and the usage value is a `real`.
 */
module UsageSpec {
  import opened Wrappers
  import opened Sequences

  /** Java `int`. */
  type Int32 = x: int | -0x8000_0000 <= x < 0x8000_0000

  const MinInt32: int := -0x8000_0000

  /** Java `int` arithmetic: the two's-complement wrap-around of an exact result. */
  function Wrap32(x: int): (r: Int32)
    ensures MinInt32 <= x < -MinInt32 ==> r == x
  {
    (x - MinInt32) % 0x1_0000_0000 + MinInt32
  }

  /**
   * A value of the request's JSON object: a nested object (a Java `Map`) or
   * anything else, each with the text that `Objects.toString` gives for it.
   */
  datatype Value = Scalar(text: string) | Nested(fields: map<string, Value>, text: string)

  /** `OutputDto`, returned to the caller. */
  datatype OutputDto = OutputDto(location: string, code: string, month: int, year: int, value: real, unit: string)

  /** `Usage`, the entity handed to `saveAll`; `id` is left to the database. */
  datatype UsageRecord = UsageRecord(id: Option<int>, location: string, code: string, month: int, year: int, value: real, unit: string)

  /** `MONTHS_ORDER`: the fiscal year, April to March, under the request's column names. */
  const MonthsOrder: seq<string> :=
    ["Apr", "May", "June", "July", "Aug", "Sep", "Oct", "Nov", "Dec", "Jan", "Feb", "March"]

  /** `MONTH_NAME_TO_NUMBER`. */
  const MonthNumber: map<string, int> :=
    map["Jan" := 1, "Feb" := 2, "March" := 3, "Apr" := 4, "May" := 5, "June" := 6,
        "July" := 7, "Aug" := 8, "Sep" := 9, "Oct" := 10, "Nov" := 11, "Dec" := 12]

  /** `APR_TO_DEC`: the months that fall in the calendar year before the fiscal year's number. */
  const AprToDec: set<string> := {"Apr", "May", "June", "July", "Aug", "Sep", "Oct", "Nov", "Dec"}

  /** `Objects.toString(m.get(key), default)`. */
  function TextOr(m: map<string, Value>, key: string, default: string): string {
    if key in m then m[key].text else default
  }

  /** Java's `String.trim`: drops leading characters up to U+0020. */
  function TrimStart(s: string): (r: string)
    ensures |r| <= |s| && r == s[|s| - |r|..]
    ensures r == [] || r[0] > ' '
    ensures forall i :: 0 <= i < |s| - |r| ==> s[i] <= ' '
  {
    if s != [] && s[0] <= ' ' then TrimStart(s[1..]) else s
  }

  /** Java's `String.trim`: drops trailing characters up to U+0020. */
  function TrimEnd(s: string): (r: string)
    ensures |r| <= |s| && r == s[..|r|]
    ensures r == [] || r[|r| - 1] > ' '
    ensures forall i :: |r| <= i < |s| ==> s[i] <= ' '
  {
    if s != [] && s[|s| - 1] <= ' ' then TrimEnd(s[..|s| - 1]) else s
  }

  /** Java's `String.trim`: the middle of `s` between runs of characters up to U+0020. */
  function Trim(s: string): (r: string)
    ensures exists i, j ::
      && 0 <= i <= j <= |s| && r == s[i..j]
      && (forall k :: 0 <= k < i ==> s[k] <= ' ')
      && (forall k :: j <= k < |s| ==> s[k] <= ' ')
    ensures r == [] || (r[0] > ' ' && r[|r| - 1] > ' ')
  {
    var t := TrimStart(s);
    var r := TrimEnd(t);
    var i := |s| - |t|;
    assert r == s[i..i + |r|];
    r
  }

  /** `s.replaceAll(",", "")`: the thousands separators removed. */
  function StripCommas(s: string): (r: string)
    ensures ',' !in r
    ensures IsSubseq(r, s)
    ensures |r| + multiset(s)[','] == |s|
    decreases |s|
  {
    if s == [] then []
    else
      var init := s[..|s| - 1];
      var c := s[|s| - 1];
      var rest := StripCommas(init);
      assert s == init + [c];
      SubseqExtend(rest, init, c);
      if c == ',' then rest else rest + [c]
  }

  /** `MONTH_NAME_TO_NUMBER.getOrDefault(m, -1)`. */
  function MonthNumberOf(m: string): int {
    if m in MonthNumber then MonthNumber[m] else -1
  }

  /** `APR_TO_DEC.contains(m) ? fyear - 1 : fyear`, in `int` arithmetic. */
  function YearOf(m: string, fyear: Int32): Int32 {
    if m in AprToDec then Wrap32(fyear - 1) else fyear
  }

  /** What survives the early returns: the `content` object and the parsed `Fyear`. */
  datatype Parsed = Parsed(content: map<string, Value>, fyear: Int32)

  /** The guards of `transformAndSave`: None where it returns an empty list and saves nothing. */
  function ParseRequest(request: Option<map<string, Value>>, parseInt: string -> Option<Int32>): Option<Parsed> {
    if request.None? then None
    else if "content" !in request.value || !request.value["content"].Nested? then None
    else
      var content := request.value["content"].fields;
      if "Fyear" !in content then None
      else
        match parseInt(Trim(content["Fyear"].text))
        case None => None
        case Some(fyear) => Some(Parsed(content, fyear))
  }

  /**
   * The row of month column `m`. An absent column reads as "0", and an
   * unparseable value as 0.0; a zero value gives no row.
   */
  function MonthRow(content: map<string, Value>, fyear: Int32, parseDouble: string -> Option<real>, m: string): Option<OutputDto> {
    if m !in content then None
    else
      match parseDouble(StripCommas(content[m].text))
      case None => None
      case Some(v) =>
        if v == 0.0 then None
        else Some(OutputDto(TextOr(content, "Location", ""), TextOr(content, "CatName", ""),
                            MonthNumberOf(m), YearOf(m, fyear), v, TextOr(content, "Uom", "")))
  }

  /** The rows of the month columns `months`, in their order. */
  function Rows(content: map<string, Value>, fyear: Int32, parseDouble: string -> Option<real>, months: seq<string>): seq<OutputDto>
    decreases |months|
  {
    if months == [] then []
    else
      var prev := Rows(content, fyear, parseDouble, months[..|months| - 1]);
      match MonthRow(content, fyear, parseDouble, months[|months| - 1])
      case None => prev
      case Some(row) => prev + [row]
  }

  /** The list `transformAndSave` returns. */
  function Transform(request: Option<map<string, Value>>, parseInt: string -> Option<Int32>, parseDouble: string -> Option<real>): seq<OutputDto> {
    match ParseRequest(request, parseInt)
    case None => []
    case Some(p) => Rows(p.content, p.fyear, parseDouble, MonthsOrder)
  }

  /** The `Usage` entity built beside each `OutputDto`. */
  function RecordOf(d: OutputDto): UsageRecord {
    UsageRecord(None, d.location, d.code, d.month, d.year, d.value, d.unit)
  }
}
