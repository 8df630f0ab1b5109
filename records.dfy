/** The shapes the parser produces: a loosely typed row keyed by header
    name, and the typed `MuniRecord` the rest of the pipeline reads. */
module Records {
  import opened Wrappers

  /** A JavaScript number as `parseFloat` leaves it: a finite value, or NaN
      when the text does not start with a number. */
  datatype Num = Finite(r: real) | NaN

  /** One cell of a parsed row: a string column, an integer column, or a
      nullable number column (`Null` for `NA` and empty cells). */
  datatype Value = Text(s: string) | Integer(n: int) | Number(x: Num) | Null

  /** A parsed line: header name to coerced cell. */
  type Row = map<string, Value>

  /** One municipality's assessment snapshot for one scrape week, with the
      types the parser gives each column: `taxable_value` and `year` are
      integers, the `_change`/`_pct` columns nullable numbers, and every other
      column (including `exempt_value` and `purta_value`) a string. */
  datatype MuniRecord = MuniRecord(
    municipality: string,
    muniCode: string,
    taxableValue: int,
    exemptValue: string,
    purtaValue: string,
    valueAsOfDate: string,
    scrapedAt: string,
    scrapeWeek: string,
    taxableValueWowChange: Option<Num>,
    taxableValueWowPct: Option<Num>,
    year: int,
    taxableValueYtdChange: Option<Num>,
    taxableValueYtdPct: Option<Num>)

  /** The thirteen columns of the time-series file. */
  const Columns: seq<string> := [
    "municipality", "muni_code", "taxable_value", "exempt_value", "purta_value",
    "value_as_of_date", "scraped_at", "scrape_week", "taxable_value_wow_change",
    "taxable_value_wow_pct", "year", "taxable_value_ytd_change", "taxable_value_ytd_pct"]

  function TextAt(row: Row, col: string): Option<string>
  {
    if col in row && row[col].Text? then Some(row[col].s) else None
  }

  function IntegerAt(row: Row, col: string): Option<int>
  {
    if col in row && row[col].Integer? then Some(row[col].n) else None
  }

  function NullableAt(row: Row, col: string): Option<Option<Num>>
  {
    if col !in row then None
    else match row[col]
      case Number(x) => Some(Some(x))
      case Null => Some(None)
      case _ => None
  }

  /** The cell a nullable number column holds for a field value. */
  function NullableCell(x: Option<Num>): Value
  {
    match x
    case Some(v) => Number(v)
    case None => Null
  }

  /** The `record as unknown as MuniRecord` cast: it yields a record exactly
      when every column is present with the kind of value the parser gives
      it, and then each field is that column's cell. */
  function ToMuniRecord(row: Row): (r: Option<MuniRecord>)
    ensures r.Some? <==>
      && TextAt(row, Columns[0]).Some? && TextAt(row, Columns[1]).Some?
      && IntegerAt(row, Columns[2]).Some? && TextAt(row, Columns[3]).Some?
      && TextAt(row, Columns[4]).Some? && TextAt(row, Columns[5]).Some?
      && TextAt(row, Columns[6]).Some? && TextAt(row, Columns[7]).Some?
      && NullableAt(row, Columns[8]).Some? && NullableAt(row, Columns[9]).Some?
      && IntegerAt(row, Columns[10]).Some? && NullableAt(row, Columns[11]).Some?
      && NullableAt(row, Columns[12]).Some?
    ensures r.Some? ==>
      && row[Columns[0]] == Text(r.value.municipality)
      && row[Columns[1]] == Text(r.value.muniCode)
      && row[Columns[2]] == Integer(r.value.taxableValue)
      && row[Columns[3]] == Text(r.value.exemptValue)
      && row[Columns[4]] == Text(r.value.purtaValue)
      && row[Columns[5]] == Text(r.value.valueAsOfDate)
      && row[Columns[6]] == Text(r.value.scrapedAt)
      && row[Columns[7]] == Text(r.value.scrapeWeek)
      && row[Columns[8]] == NullableCell(r.value.taxableValueWowChange)
      && row[Columns[9]] == NullableCell(r.value.taxableValueWowPct)
      && row[Columns[10]] == Integer(r.value.year)
      && row[Columns[11]] == NullableCell(r.value.taxableValueYtdChange)
      && row[Columns[12]] == NullableCell(r.value.taxableValueYtdPct)
  {
    match (TextAt(row, Columns[0]), TextAt(row, Columns[1]), IntegerAt(row, Columns[2]),
           TextAt(row, Columns[3]), TextAt(row, Columns[4]), TextAt(row, Columns[5]),
           TextAt(row, Columns[6]), TextAt(row, Columns[7]), NullableAt(row, Columns[8]),
           NullableAt(row, Columns[9]), IntegerAt(row, Columns[10]),
           NullableAt(row, Columns[11]), NullableAt(row, Columns[12]))
    case (Some(m), Some(c), Some(tv), Some(ev), Some(pv), Some(d), Some(sa), Some(w),
          Some(wc), Some(wp), Some(y), Some(yc), Some(yp)) =>
      Some(MuniRecord(m, c, tv, ev, pv, d, sa, w, wc, wp, y, yc, yp))
    case _ => None
  }

  // Keys and selectors shared by the summary and chart code

  /** The sort key of `scrape_week.localeCompare`. */
  function WeekOf(r: MuniRecord): string { r.scrapeWeek }

  /** `d => d.municipality === muni`. */
  function InMunicipality(m: string): MuniRecord -> bool { (r: MuniRecord) => r.municipality == m }

  /** `d => d.year === currentYear`. */
  function InYear(y: int): MuniRecord -> bool { (r: MuniRecord) => r.year == y }

  /** `data.map(d => d.municipality)`. */
  function Names(data: seq<MuniRecord>): seq<string>
  {
    seq(|data|, k requires 0 <= k < |data| => data[k].municipality)
  }

  /** `s` is non-empty and starts with `x`. */
  predicate HeadIs(s: seq<MuniRecord>, x: MuniRecord)
  {
    s != [] && s[0] == x
  }

  /** `s` is non-empty and ends with `x`. */
  predicate LastIs(s: seq<MuniRecord>, x: MuniRecord)
  {
    s != [] && s[|s| - 1] == x
  }
}
