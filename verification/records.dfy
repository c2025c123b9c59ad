/** The loaded grade table: raw spreadsheet rows, the record shape the
    handlers read, and the two normalisations the server files apply
    (`app.js` substitutes defaults for falsy cells; `api/index.js` does not). */
module Records {
  import opened Js
  import Seqs

  /** One row of the first sheet as `sheet_to_json` produces it. Grade and
      Count are kept as a string and an integer when present. */
  datatype Row = Row(year: Cell, semester: Cell, course: Cell, grade: Option<string>, count: Option<int>)

  /** One entry of `formattedData`. Grade and Count are passed through by both
      files, so their types depend on the normalisation: `AppRecord` or `ApiRecord`. */
  datatype Record<G, N> = Record(year: string, semester: string, course: string, grade: G, count: N)

  type AppRecord = Record<string, int>
  type ApiRecord = Record<Option<string>, Option<int>>

  /** What app.js stores for one Year, Semester or Course cell,
      `String(cell || '').trim()`, spelled out for each kind of cell: a falsy
      cell gives "", a text is trimmed, a non-zero number prints in decimal
      and `true` prints as "true". */
  predicate AppKey(c: Cell, r: string) {
    && Trimmed(r)
    && (!Truthy(c) ==> r == "")
    && (c.Text? ==> r == Trim(c.text))
    && (c.Number? && c.value > 0 ==> r == NatToString(c.value))
    && (c.Number? && c.value < 0 ==> r == "-" + NatToString(-c.value))
    && (c == Boolean(true) ==> r == "true")
  }

  /** What api/index.js stores for one key cell, `String(cell).trim()`: a
      missing cell gives "undefined", a text is trimmed, a number prints in
      decimal and a boolean prints as "true" or "false". */
  predicate ApiKey(c: Cell, r: string) {
    && Trimmed(r)
    && (c == Absent ==> r == "undefined")
    && (c.Text? ==> r == Trim(c.text))
    && (c.Number? && c.value >= 0 ==> r == NatToString(c.value))
    && (c.Number? && c.value < 0 ==> r == "-" + NatToString(-c.value))
    && (c.Boolean? ==> r == (if c.flag then "true" else "false"))
  }

  /** `AppKey` leaves one answer for every cell. */
  lemma AppKeyDetermines(c: Cell, r: string, r': string)
    requires AppKey(c, r) && AppKey(c, r')
    ensures r == r'
  {
    if c.Boolean? {
      assert c == Boolean(c.flag);
    }
  }

  /** `ApiKey` leaves one answer for every cell. */
  lemma ApiKeyDetermines(c: Cell, r: string, r': string)
    requires ApiKey(c, r) && ApiKey(c, r')
    ensures r == r'
  {
  }

  /** A printed cell other than a text has no surrounding spaces, so `trim` keeps it. */
  lemma PrintedCellIsTrimFixed(c: Cell)
    ensures !c.Text? ==> Trim(ToJsString(c)) == ToJsString(c)
  {
    if !c.Text? {
      TrimmedIsFixed(ToJsString(c));
    }
  }

  /** `String(cell || '').trim()`. */
  function AppText(c: Cell): (r: string)
    ensures AppKey(c, r)
  {
    var v := if Truthy(c) then c else Text("");
    PrintedCellIsTrimFixed(v);
    Trim(ToJsString(v))
  }

  /** `String(cell).trim()`: a missing cell prints as "undefined". */
  function ApiText(c: Cell): (r: string)
    ensures ApiKey(c, r)
  {
    PrintedCellIsTrimFixed(c);
    Trim(ToJsString(c))
  }

  /** The `data.map(row => ...)` body of app.js: each key field is the cell
      coerced to a string and trimmed, blank when the cell is missing or
      falsy; a missing Grade becomes "" and a missing Count becomes 0. */
  function NormaliseApp(row: Row): (r: AppRecord)
    ensures AppKey(row.year, r.year) && AppKey(row.semester, r.semester) && AppKey(row.course, r.course)
    ensures row.grade.None? ==> r.grade == ""
    ensures row.grade.Some? ==> r.grade == row.grade.value
    ensures row.count.None? ==> r.count == 0
    ensures row.count.Some? ==> r.count == row.count.value
  {
    Record(AppText(row.year), AppText(row.semester), AppText(row.course),
           GradeOrBlank(row.grade), CountOrZero(row.count))
  }

  /** `row.Grade || ''`: a present grade is kept ("" is falsy but maps to ""). */
  function GradeOrBlank(g: Option<string>): (r: string)
    ensures g.Some? ==> r == g.value
    ensures g.None? ==> r == ""
  {
    if g.Some? then g.value else ""
  }

  /** `row.Count || 0`: a present count is kept (0 is falsy but maps to 0). */
  function CountOrZero(n: Option<int>): (r: int)
    ensures n.Some? ==> r == n.value
    ensures n.None? ==> r == 0
  {
    if n.Some? then n.value else 0
  }

  /** The `data.map(row => ...)` body of api/index.js: each key field is the
      cell coerced to a string and trimmed, with no default, and Grade and
      Count are passed through. */
  function NormaliseApi(row: Row): (r: ApiRecord)
    ensures ApiKey(row.year, r.year) && ApiKey(row.semester, r.semester) && ApiKey(row.course, r.course)
    ensures r.grade == row.grade && r.count == row.count
  {
    Record(ApiText(row.year), ApiText(row.semester), ApiText(row.course), row.grade, row.count)
  }

  /** Trimming a normalised key field again changes nothing, in either file. */
  lemma NormalisedKeysAreTrimFixed(row: Row)
    ensures var r := NormaliseApp(row); Trim(r.year) == r.year && Trim(r.semester) == r.semester && Trim(r.course) == r.course
    ensures var r := NormaliseApi(row); Trim(r.year) == r.year && Trim(r.semester) == r.semester && Trim(r.course) == r.course
  {
    var a := NormaliseApp(row);
    var b := NormaliseApi(row);
    TrimmedIsFixed(a.year);
    TrimmedIsFixed(a.semester);
    TrimmedIsFixed(a.course);
    TrimmedIsFixed(b.year);
    TrimmedIsFixed(b.semester);
    TrimmedIsFixed(b.course);
  }

  /** `formattedData` in app.js: one record per spreadsheet row, in sheet order. */
  function LoadApp(rows: seq<Row>): (table: seq<AppRecord>)
    ensures |table| == |rows|
    ensures forall i :: 0 <= i < |rows| ==> table[i] == NormaliseApp(rows[i])
  {
    Seqs.Map(rows, NormaliseApp)
  }

  /** `formattedData` in api/index.js: one record per spreadsheet row, in sheet order. */
  function LoadApi(rows: seq<Row>): (table: seq<ApiRecord>)
    ensures |table| == |rows|
    ensures forall i :: 0 <= i < |rows| ==> table[i] == NormaliseApi(rows[i])
  {
    Seqs.Map(rows, NormaliseApi)
  }

  /** The two normalisations agree on every row whose cells are all present
      and truthy; they differ only in how they treat missing or falsy cells. */
  lemma NormalisationsAgreeOnPresentCells(row: Row)
    requires Truthy(row.year) && Truthy(row.semester) && Truthy(row.course)
    requires row.grade.Some? && row.count.Some?
    ensures NormaliseApi(row) == Record(NormaliseApp(row).year, NormaliseApp(row).semester,
                                        NormaliseApp(row).course, Some(NormaliseApp(row).grade),
                                        Some(NormaliseApp(row).count))
  {
  }

  /** A missing key cell reads "undefined" after api/index.js normalises it,
      where app.js gives "". */
  lemma ApiAbsentCellReadsUndefined(row: Row)
    requires row.course == Absent
    ensures NormaliseApi(row).course == "undefined"
    ensures NormaliseApp(row).course == ""
  {
  }

  /** `(req.query.name || '').trim()`: a missing parameter is "". */
  function Param(p: Option<string>): (r: string)
    ensures Trimmed(r)
    ensures p == None ==> r == ""
    ensures p.Some? ==> r == Trim(p.value)
  {
    match p
    case None => ""
    case Some(s) => if s == "" then "" else Trim(s)
  }

  /** A parameter with no surrounding spaces is taken as it is. */
  lemma ParamOfTrimmed(s: string)
    requires Trimmed(s)
    ensures Param(Some(s)) == s
  {
    TrimmedIsFixed(s);
  }

  /** An absent, empty or all-space parameter reads as "". */
  lemma BlankParamIsEmpty(p: Option<string>)
    requires p.Some? ==> AllSpace(p.value)
    ensures Param(p) == ""
  {
    if p.Some? {
      AllSpaceTrimsToEmpty(p.value);
    }
  }
}
