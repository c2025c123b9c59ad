# Grade-distribution query layer, modelled in Dafny

The server loads one spreadsheet of grade counts into an in-memory table
`formattedData`. Each row has Year, Semester, Course, Grade and Count. Five
read-only GET handlers answer queries over that table:

- `/search`: the records whose Course contains `course_name`, ignoring case.
- `/suggest`: the distinct matching course names.
- `/get_years`: the distinct Years of one course.
- `/get_semesters`: the distinct Semesters of one course in one year.
- `/get_grades`: the records of one course, year and semester, sorted by Grade
  and projected to Semester, Grade and Count.

There are two server files, `app.js` and `api/index.js`. Their five handlers
compute the same responses from the table; the model treats them once. The
files differ in how a spreadsheet row is normalised, which the model covers
for both, and in plumbing it leaves out (see "## Left out"): `app.js` wraps
each handler in a try/catch that answers 500, checks that the spreadsheet
exists before loading it, serves static files, and configures CORS
differently.

This project models that core as pure functions over an immutable
`seq<Record<G, N>>`:

- `js.dfy` (module `Js`): the JavaScript primitives. These are cell values and
  their truthiness, `String(v)`, `trim` with the exact ECMAScript whitespace
  set, `toLowerCase` through a character mapping, and `includes`.
- `seqs.dfy` (module `Seqs`): `filter`, `map`, `[...new Set(xs)]`, and facts
  about subsequences, permutations and first-occurrence order.
- `sort.dfy` (module `StableSort`): `Array.prototype.sort`. It is modelled as a
  stable insertion sort, because ECMAScript 2019 and later require stability.
- `records.dfy` (module `Records`): raw rows, the record shape, and both
  normalisations. `app.js` gives missing cells defaults. `api/index.js` passes
  the cells through `String(...)` unchanged.
- `queries.dfy` (module `Queries`): the five handlers.

The handlers are generic in the Grade type `G` and the Count type `N`:

- `app.js` produces `Record<string, int>`, because it substitutes `''` and `0`.
- `api/index.js` produces `Record<Option<string>, Option<int>>`, because it
  passes Grade and Count through untouched.

Two inputs are parameters rather than fixed definitions:

- The case mapping, `lower: char -> char`.
- The comparator, `le: (G, G) -> bool`. `le(g, h)` stands for
  `g.localeCompare(h) <= 0`. The sorting lemmas assume only that it is a total
  preorder.

The handlers take the table as a value and return only their response. No
handler can change `formattedData`: the table after any query is the table
before it.

Three behaviours of the code are easy to misread:

- A request with no `course_name` does not match nothing. In `app.js` a
  missing or falsy Course cell becomes `""`, and a missing parameter is read
  as `""`, so such a request finds those rows
  (`Queries.AppBlankCourseAnswersMissingParameter`).
- `/get_grades` sorts with `localeCompare`, which is locale collation rather
  than code-unit order, so the comparator is a parameter.
- `api/index.js` gives missing Year, Semester and Course cells no default:
  they read "undefined" (see Findings).

## Model

| member | source | states |
|---|---|---|
| `Js.Trim` | app.js:26-28 | The result neither starts nor ends with whitespace. It is the input with an all-whitespace prefix and suffix cut off. Together these determine `trim` exactly. |
| `Js.TrimIdempotent` | api/index.js:27-29 | Trimming a trimmed string changes nothing. |
| `Js.AllSpaceTrimsToEmpty` | app.js:56 | An empty or all-whitespace string trims to `""`. |
| `Js.Truthy` | app.js:26-30 | The falsy cells, which `\|\|` replaces by its default, are exactly `undefined`, `''`, `0` and `false`. |
| `Js.ToJsString` | api/index.js:27-29 | `String(cell)` prints a text as itself, a missing cell as "undefined", a number as its decimal numeral (with "-" when negative) and a boolean as "true" or "false". It is `""` exactly when the cell is the empty text, and every printed non-text has no surrounding spaces. |
| `Js.DecimalRoundTrip` | app.js:26 | The decimal numeral printed for a number reads back as that number. |
| `Js.NumberCellPrintsDecimal` | app.js:27 | `String(n)` for a non-negative numeric cell is all digits and denotes `n`; for a negative cell it is "-" followed by digits that denote `-n`. |
| `Js.LowerCase` | app.js:58 | `toLowerCase` keeps the length and lowers each character in place. |
| `Js.Includes` | app.js:58 | `includes` holds only when the needle is no longer than the haystack. |
| `Js.IncludesEmpty` | app.js:58 | Every course name includes the empty query. |
| `Js.IncludesLowered` | app.js:58 | A run that occurs in a string still occurs after both strings are lowered, whatever the case mapping. |
| `Records.NormaliseApp` | app.js:25-31 | Each of Year, Semester and Course is the cell coerced to a string and trimmed: a missing or falsy cell gives `""`, a text gives its trimmed text, a non-zero number its decimal numeral and `true` gives "true" (`AppKey`). A missing Grade becomes `""`, a missing Count becomes `0`, and present values are kept. |
| `Records.AppKeyDetermines` | app.js:26-28 | The per-cell description `AppKey` leaves exactly one string for every cell. |
| `Records.NormalisedKeysAreTrimFixed` | app.js:26-28 | In both files, trimming a normalised Year, Semester or Course again changes nothing. |
| `Records.NormaliseApi` | api/index.js:26-32 | Each of Year, Semester and Course is the cell coerced to a string and trimmed, with no default: a missing cell gives "undefined", a text its trimmed text, a number its decimal numeral and a boolean "true" or "false" (`ApiKey`). Grade and Count are passed through unchanged. |
| `Records.ApiKeyDetermines` | api/index.js:27-29 | The per-cell description `ApiKey` leaves exactly one string for every cell. |
| `Records.LoadApp` | app.js:25-31 | `formattedData` has one record per spreadsheet row, the normalisation of that row, in sheet order. |
| `Records.LoadApi` | api/index.js:26-32 | `formattedData` has one record per spreadsheet row, the normalisation of that row, in sheet order. |
| `Records.NormalisationsAgreeOnPresentCells` | api/index.js:26-32 | On a row whose cells are all present and truthy, the two files build the same record. |
| `Records.ApiAbsentCellReadsUndefined` | api/index.js:29 | A missing Course cell reads "undefined" in `api/index.js` and `""` in `app.js`. |
| `Records.Param` | app.js:56 | A query parameter is trimmed, and a missing one is `""`. |
| `Records.ParamOfTrimmed` | app.js:56 | A parameter that is already trimmed is read as exactly itself. |
| `Records.BlankParamIsEmpty` | api/index.js:41 | A missing, empty or all-whitespace parameter reads as `""`. |
| `Seqs.FilterSpec` | app.js:57-59 | `filter` returns a subsequence of its input. It keeps exactly the elements that pass, each as often as it occurs. |
| `Seqs.MapPermutation` | app.js:135-139 | Projecting two sequences that are permutations of each other gives two sequences that are permutations of each other. |
| `Seqs.Unique` | app.js:77-81 | `[...new Set(xs)]` is duplicate-free and holds exactly the values of `xs`. |
| `Seqs.UniqueFirstOccurrenceOrder` | app.js:93-97 | `[...new Set(xs)]` lists its values in the order of their first occurrence in `xs`. |
| `Seqs.UniqueFilter` | api/index.js:57-61 | Removing duplicates after a filter equals filtering the de-duplicated sequence. |
| `Seqs.SpreadSet` | api/index.js:68-72 | Iterating with a `Set` of seen values yields exactly `Unique(xs)`. |
| `StableSort.Sort` | app.js:135 | The sort's output is a permutation of its input. |
| `StableSort.SortSorted` | app.js:135 | Under a total preorder, the sort's output is in order. |
| `StableSort.SortKeepsTieOrder` | api/index.js:100 | Stability: the elements of any class of mutually tied elements leave the sort in their input order. |
| `Queries.Search` | app.js:56-59 | The result is a subsequence of the table. Every returned Course, case-folded, contains the case-folded trimmed query. Every record that satisfies this is returned, as often as it occurs in the table. |
| `Queries.SearchFindsExactSubstring` | api/index.js:41-44 | A record whose Course contains the trimmed query exactly, case included, is returned whatever the case mapping. |
| `Queries.SearchNoMatchIsEmpty` | app.js:56-59 | A query that no Course contains, ignoring case, returns an empty list. |
| `Queries.SearchBlankQueryReturnsTable` | api/index.js:41-44 | With `course_name` missing, empty or all whitespace, the whole table is returned unchanged and in order. |
| `Queries.Suggest` | app.js:76-81 | The result is duplicate-free, in original casing, and holds exactly the matching courses of the table. It is ordered by first occurrence in the table. |
| `Queries.SuggestFiltersDistinctCourses` | api/index.js:56-61 | The suggestions equal the table's distinct courses, in first-occurrence order, narrowed to those that match. |
| `Queries.Years` | app.js:92-97 | The result is duplicate-free and holds exactly the Years of records whose Course equals the trimmed parameter (case-sensitive). It is in first-occurrence order, and it is empty exactly when no record has that Course. |
| `Queries.Semesters` | app.js:108-114 | The result is duplicate-free and holds exactly the Semesters of records matching both Course and Year. It is in first-occurrence order. |
| `Queries.SemestersEmptyIffNoMatch` | api/index.js:78-84 | The result is empty exactly when no record matches both Course and Year. |
| `Queries.Grades` | app.js:125-140 | The response is a permutation of the triple-matching records projected to Semester, Grade and Count. Every entry's Semester is the requested one. |
| `Queries.Project` | app.js:136-140 | Each response entry carries the record's Semester, Grade and Count. |
| `Queries.ProjectInjectiveWithinOffering` | api/index.js:101-105 | Two records of the same course and year project alike exactly when they are the same record, so the projection loses nothing within one offering. |
| `Queries.GradesSorted` | app.js:135 | For a comparator that is a total preorder, the response is sorted by Grade. |
| `Queries.GradesKeepTieOrder` | api/index.js:94-105 | For every grade `g`, the response entries whose Grade ties with `g` are the projections of the matching records that tie with `g`, in table order. |
| `Queries.AppBlankCourseAnswersMissingParameter` | app.js:92-97 | A request without `course_name` lists the Year of every row whose Course cell was missing or falsy. |
| `Queries.ApiAbsentCourseAnswersUndefined` | api/index.js:67-72 | A request whose trimmed `course_name` is "undefined" lists the Year of every row whose Course cell was missing. |
| `Queries.OneOfferingSemesters` | app.js:108-114 | On a two-row table holding grades "A" and "B" of one offering, with non-blank trimmed keys such as ESO100, 2021-2022 and I, `/get_semesters` returns just that semester. |
| `Queries.OneOfferingGrades` | api/index.js:94-105 | On the same table, if "A" may precede "B", `/get_grades` returns the A row and then the B row, each projected. |

## Left out

- HTTP plumbing has no logic and is not modelled: Express routing, CORS options, static file serving and `sendFile` (app.js:37-51, api/index.js:13-37).
- Spreadsheet parsing by the `xlsx` library (app.js:20-22, api/index.js:9-11) is foreign code. Its output is an input sequence of `Row`s.
- Process-level I/O is not modelled: the file-existence check, `process.exit` on load failure, the try/catch that answers 500, and console logging.
- Server startup and `listen` are not modelled. `api/index.js:112` is not valid JavaScript, so that file would not load as written; the handler bodies are unaffected.
- `toLowerCase` is a per-character mapping parameter. Full Unicode lowering can change a string's length, for example with U+0130, and it can depend on context: a capital sigma lowers to final sigma at the end of a word, so "ΟΣΑ" lowers to "οσα" while "ΟΣ" lowers to "ος", and "οσα" does not include "ος". Neither is modelled, and `Js.IncludesLowered` and `Queries.SearchFindsExactSubstring` hold only under the per-character mapping.
- `localeCompare` is a parameter, and ICU collation is not modelled. Nor are the exceptions the comparator can raise. In `api/index.js`, `a.Grade.localeCompare(b.Grade)` throws when the record without a Grade is the first argument `a`. When it is `b`, the missing Grade is converted to the string "undefined" and nothing is thrown. Whether a request fails therefore depends on the order in which the engine compares elements.
- Grade is modelled as a string when present. A numeric Grade cell makes `a.Grade.localeCompare` throw in both files (`app.js` then answers 500); numeric Grades are not modelled.
- Numeric cells are integers. Fractional numbers, NaN and dates from the spreadsheet are not modelled.
- Js.ToJsString: prints every integer in full. JavaScript numbers are doubles, and `String(n)` switches to exponent form for a magnitude of 10^21 or more (`String(1e21)` is "1e+21"); cells that large are not modelled.
- Js.NumberCellPrintsDecimal: "all digits and denotes `n`" is the JavaScript behaviour only below 10^21, for the same reason.
- A query parameter given twice arrives as an array, and `.trim()` then throws. The model takes each parameter as a string or missing.
- The `/search` handler's `.map(row => ({...}))` copies each record field for field, which is the identity on `Record`. JSON serialisation, which drops `undefined` fields, is not modelled.

## Findings

| source | as written | input that shows it | evidently intended | confidence | as-written member | corrected member |
|---|---|---|---|---|---|---|
| api/index.js:27-29 | `String(row.Course).trim()` with no default for a missing cell | A row with no Course cell gets Course "undefined", and `/get_years?course_name=undefined` lists its Year | A missing cell becomes `""`, as `app.js:26-28` does with `row.Course \|\| ''` | medium, not executed | `Records.ApiAbsentCellReadsUndefined` | `Records.NormaliseApp` |
