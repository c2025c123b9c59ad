/** The five read-only handlers over `formattedData`: `/search`, `/suggest`,
    `/get_years`, `/get_semesters` and `/get_grades`. Both server files carry
    the same handler bodies, so they are modelled once, generic in the types
    of Grade (`G`) and Count (`N`), which differ between the two files. The
    table is an immutable value: no handler can change it. */
module Queries {
  import opened Js
  import opened Seqs
  import opened StableSort
  import opened Records

  /** `course.toLowerCase().includes(query.toLowerCase())`. */
  predicate NameMatches(lower: char -> char, query: string, course: string) {
    Includes(LowerCase(lower, course), LowerCase(lower, query))
  }

  function NameFilter(lower: char -> char, query: string): string -> bool {
    c => NameMatches(lower, query, c)
  }

  function CourseFilter<G, N>(lower: char -> char, query: string): Record<G, N> -> bool {
    (x: Record<G, N>) => NameMatches(lower, query, x.course)
  }

  function OfCourse<G, N>(course: string): Record<G, N> -> bool {
    (x: Record<G, N>) => x.course == course
  }

  function OfCourseYear<G, N>(course: string, year: string): Record<G, N> -> bool {
    (x: Record<G, N>) => x.course == course && x.year == year
  }

  function OfCourseYearSemester<G, N>(course: string, year: string, semester: string): Record<G, N> -> bool {
    (x: Record<G, N>) => x.course == course && x.year == year && x.semester == semester
  }

  function CourseOf<G, N>(x: Record<G, N>): string { x.course }
  function YearOf<G, N>(x: Record<G, N>): string { x.year }
  function SemesterOf<G, N>(x: Record<G, N>): string { x.semester }

  /** The Course column, in table order. */
  function Courses<G, N>(table: seq<Record<G, N>>): seq<string> {
    Map(table, CourseOf)
  }

  /** `/search`: the records whose Course contains the trimmed `course_name`,
      ignoring case, in table order and with repeats kept. */
  function Search<G(==), N(==)>(table: seq<Record<G, N>>, lower: char -> char, courseName: Option<string>)
    : (r: seq<Record<G, N>>)
    ensures IsSubsequence(r, table)
    ensures forall x :: x in r ==> NameMatches(lower, Param(courseName), x.course)
    ensures forall x :: x in table && NameMatches(lower, Param(courseName), x.course) ==> x in r
    ensures forall x :: x in table && NameMatches(lower, Param(courseName), x.course) ==>
              multiset(r)[x] == multiset(table)[x]
  {
    FilterSpec(table, CourseFilter(lower, Param(courseName)));
    Filter(table, CourseFilter(lower, Param(courseName)))
  }

  /** A query that no Course contains, such as "ZZZ999" on a table without
      that code, returns nothing. */
  lemma SearchNoMatchIsEmpty<G, N>(table: seq<Record<G, N>>, lower: char -> char, courseName: Option<string>)
    requires forall x :: x in table ==> !NameMatches(lower, Param(courseName), x.course)
    ensures Search(table, lower, courseName) == []
  {
    FilterNone(table, CourseFilter(lower, Param(courseName)));
  }

  /** An absent, empty or all-space `course_name` returns the whole table, in order. */
  lemma SearchBlankQueryReturnsTable<G, N>(table: seq<Record<G, N>>, lower: char -> char, courseName: Option<string>)
    requires courseName.Some? ==> AllSpace(courseName.value)
    ensures Search(table, lower, courseName) == table
  {
    BlankParamIsEmpty(courseName);
    assert LowerCase(lower, "") == "";
    forall x | x in table
      ensures CourseFilter(lower, "")(x)
    {
      IncludesEmpty(LowerCase(lower, x.course));
    }
    FilterAll(table, CourseFilter(lower, ""));
  }

  /** A record whose Course contains the trimmed query exactly, case included,
      is found whatever the case mapping. */
  lemma SearchFindsExactSubstring<G, N>(table: seq<Record<G, N>>, lower: char -> char, courseName: Option<string>,
                                        x: Record<G, N>)
    requires x in table && Includes(x.course, Param(courseName))
    ensures x in Search(table, lower, courseName)
  {
    IncludesLowered(lower, x.course, Param(courseName));
  }

  /** `/suggest`: each matching Course once, in original casing, in the order
      the courses first appear in the table. */
  function Suggest<G(==), N(==)>(table: seq<Record<G, N>>, lower: char -> char, query: Option<string>)
    : (r: seq<string>)
    ensures Distinct(r)
    ensures forall c :: c in r ==> c in Courses(table) && NameMatches(lower, Param(query), c)
    ensures forall c :: c in Courses(table) && NameMatches(lower, Param(query), c) ==> c in r
    ensures FirstOccurrenceOrder(r, Courses(table))
  {
    SuggestFiltersDistinctCourses(table, lower, query);
    DistinctMatchingCourses(Courses(table), NameFilter(lower, Param(query)));
    Unique(Map(Filter(table, CourseFilter(lower, Param(query))), CourseOf))
  }

  /** The distinct values of `names` that satisfy `keep`, in first-occurrence order. */
  lemma DistinctMatchingCourses(names: seq<string>, keep: string -> bool)
    ensures var r := Filter(Unique(names), keep);
            && Distinct(r)
            && (forall c :: c in r ==> c in names && keep(c))
            && (forall c :: c in names && keep(c) ==> c in r)
            && FirstOccurrenceOrder(r, names)
  {
    var u := Unique(names);
    UniqueFirstOccurrenceOrder(names);
    FilterFirstOccurrenceOrder(u, names, keep);
    FilterSpec(u, keep);
    FilterDistinct(u, keep);
  }

  /** The suggestions are the table's distinct courses, in first-occurrence
      order, narrowed to those that match: removing duplicates after the
      filter (as the handler does) equals removing them before it. */
  lemma SuggestFiltersDistinctCourses<G, N>(table: seq<Record<G, N>>, lower: char -> char, query: Option<string>)
    ensures Unique(Map(Filter(table, CourseFilter(lower, Param(query))), CourseOf))
            == Filter(Unique(Courses(table)), NameFilter(lower, Param(query)))
  {
    var q := Param(query);
    MapFilter(table, CourseOf, CourseFilter(lower, q), NameFilter(lower, q));
    UniqueFilter(Courses(table), NameFilter(lower, q));
  }

  /** The distinct values of `f` over the records that satisfy `keep`: the
      shape shared by `/get_years` and `/get_semesters`. */
  lemma DistinctValuesOf<G, N>(table: seq<Record<G, N>>, keep: Record<G, N> -> bool, f: Record<G, N> -> string)
    ensures var r := Unique(Map(Filter(table, keep), f));
            && Distinct(r)
            && (forall v :: v in r <==> exists x :: x in table && keep(x) && f(x) == v)
            && FirstOccurrenceOrder(r, Map(Filter(table, keep), f))
  {
    var matched := Filter(table, keep);
    var values := Map(matched, f);
    FilterSpec(table, keep);
    UniqueFirstOccurrenceOrder(values);
    forall v
      ensures v in values <==> exists x :: x in table && keep(x) && f(x) == v
    {
      MapMembership(matched, f, v);
    }
  }

  /** `/get_years`: each Year of the records whose Course equals the trimmed
      `course_name` (exactly, case-sensitively), once, in order of first appearance. */
  function Years<G(==), N(==)>(table: seq<Record<G, N>>, courseName: Option<string>): (r: seq<string>)
    ensures Distinct(r)
    ensures forall y :: y in r <==> exists x :: x in table && x.course == Param(courseName) && x.year == y
    ensures r == [] <==> forall x :: x in table ==> x.course != Param(courseName)
    ensures FirstOccurrenceOrder(r, Map(Filter(table, OfCourse(Param(courseName))), YearOf))
  {
    var keep := OfCourse(Param(courseName));
    DistinctValuesOf(table, keep, YearOf);
    var r := Unique(Map(Filter(table, keep), YearOf));
    assert forall y :: y in r <==> exists x :: x in table && x.course == Param(courseName) && x.year == y
    by {
      forall y
        ensures y in r <==> exists x :: x in table && x.course == Param(courseName) && x.year == y
      {
        if y in r {
          var x :| x in table && keep(x) && YearOf(x) == y;
          assert x.course == Param(courseName);
        }
      }
    }
    assert r == [] <==> forall x :: x in table ==> x.course != Param(courseName)
    by {
      if r != [] {
        assert r[0] in r;
      } else {
        forall x | x in table
          ensures x.course != Param(courseName)
        {
          assert x.year !in r;
        }
      }
    }
    r
  }

  /** `/get_semesters`: each Semester of the records whose Course and Year
      equal the trimmed parameters, once, in order of first appearance. */
  function Semesters<G(==), N(==)>(table: seq<Record<G, N>>, courseName: Option<string>, year: Option<string>)
    : (r: seq<string>)
    ensures Distinct(r)
    ensures forall s :: s in r <==>
              exists x :: x in table && x.course == Param(courseName) && x.year == Param(year) && x.semester == s
    ensures FirstOccurrenceOrder(r, Map(Filter(table, OfCourseYear(Param(courseName), Param(year))), SemesterOf))
  {
    var keep := OfCourseYear(Param(courseName), Param(year));
    DistinctValuesOf(table, keep, SemesterOf);
    var r := Unique(Map(Filter(table, keep), SemesterOf));
    assert forall s :: s in r <==>
             exists x :: x in table && x.course == Param(courseName) && x.year == Param(year) && x.semester == s
    by {
      forall s
        ensures s in r <==>
                exists x :: x in table && x.course == Param(courseName) && x.year == Param(year) && x.semester == s
      {
        if s in r {
          var x :| x in table && keep(x) && SemesterOf(x) == s;
          assert x.course == Param(courseName) && x.year == Param(year);
        }
      }
    }
    r
  }

  /** One entry of the `/get_grades` response. */
  datatype GradeRow<G, N> = GradeRow(semester: string, grade: G, count: N)

  /** `row => ({ Semester, Grade, Count })`: the record without its Course and Year. */
  function Project<G, N>(x: Record<G, N>): (r: GradeRow<G, N>)
    ensures r.semester == x.semester && r.grade == x.grade && r.count == x.count
  {
    GradeRow(x.semester, x.grade, x.count)
  }

  /** Within one course and year the projection loses nothing: two records of
      the same offering project alike exactly when they are the same record. */
  lemma ProjectInjectiveWithinOffering<G, N>(a: Record<G, N>, b: Record<G, N>)
    requires a.course == b.course && a.year == b.year
    ensures Project(a) == Project(b) <==> a == b
  {
  }

  /** `(a, b) => a.Grade.localeCompare(b.Grade)`, read as "may come before":
      `le(g, h)` stands for `g.localeCompare(h) <= 0`. */
  function ByGrade<G, N>(le: (G, G) -> bool): (Record<G, N>, Record<G, N>) -> bool {
    (a: Record<G, N>, b: Record<G, N>) => le(a.grade, b.grade)
  }

  /** The records matching all three keys, in table order. */
  function Matching<G, N>(table: seq<Record<G, N>>, course: string, year: string, semester: string)
    : seq<Record<G, N>>
  {
    Filter(table, OfCourseYearSemester(course, year, semester))
  }

  /** `/get_grades`: the records matching Course, Year and Semester, stably
      sorted by Grade, projected to Semester, Grade and Count. The response
      is a rearrangement of the projected matching records, and every
      entry carries the requested semester. */
  function Grades<G(==), N(==)>(table: seq<Record<G, N>>, le: (G, G) -> bool,
                               courseName: Option<string>, year: Option<string>, semester: Option<string>)
    : (r: seq<GradeRow<G, N>>)
    ensures multiset(r) == multiset(Map(Matching(table, Param(courseName), Param(year), Param(semester)), Project))
    ensures forall row :: row in r ==> row.semester == Param(semester)
  {
    var matched := Matching(table, Param(courseName), Param(year), Param(semester));
    var sorted := Sort(ByGrade(le), matched);
    MapPermutation(sorted, matched, Project);
    FilterSpec(table, OfCourseYearSemester(Param(courseName), Param(year), Param(semester)));
    assert forall row :: row in Map(matched, Project) ==> row.semester == Param(semester) by {
      forall row | row in Map(matched, Project)
        ensures row.semester == Param(semester)
      {
        MapMembership(matched, Project, row);
      }
    }
    assert forall row :: row in Map(sorted, Project) ==> row in multiset(Map(matched, Project));
    Map(sorted, Project)
  }

  lemma ByGradeIsTotalPreorder<G(!new), N(!new)>(le: (G, G) -> bool)
    requires TotalPreorder(le)
    ensures TotalPreorder(ByGrade<G, N>(le))
  {
    var byGrade := ByGrade<G, N>(le);
    forall a: Record<G, N>, b: Record<G, N>
      ensures byGrade(a, b) || byGrade(b, a)
    {
      assert le(a.grade, b.grade) || le(b.grade, a.grade);
    }
    forall a: Record<G, N>, b: Record<G, N>, c: Record<G, N> | byGrade(a, b) && byGrade(b, c)
      ensures byGrade(a, c)
    {
      assert le(a.grade, b.grade) && le(b.grade, c.grade);
    }
  }

  /** The `/get_grades` response is in Grade order under the comparator. */
  lemma GradesSorted<G(!new), N(!new)>(table: seq<Record<G, N>>, le: (G, G) -> bool,
                                               courseName: Option<string>, year: Option<string>, semester: Option<string>)
    requires TotalPreorder(le)
    ensures var r := Grades(table, le, courseName, year, semester);
            forall i, j :: 0 <= i < j < |r| ==> le(r[i].grade, r[j].grade)
  {
    var matched := Matching(table, Param(courseName), Param(year), Param(semester));
    var sorted := Sort(ByGrade(le), matched);
    ByGradeIsTotalPreorder<G, N>(le);
    SortSorted(ByGrade(le), matched);
    var r := Map(sorted, Project);
    forall i, j | 0 <= i < j < |r|
      ensures le(r[i].grade, r[j].grade)
    {
      assert ByGrade(le)(sorted[i], sorted[j]);
    }
  }

  /** Records whose Grade compares equal to `g`. */
  function RecordTiedWith<G, N>(le: (G, G) -> bool, g: G): Record<G, N> -> bool {
    (x: Record<G, N>) => le(x.grade, g) && le(g, x.grade)
  }

  /** Response entries whose Grade compares equal to `g`. */
  function RowTiedWith<G, N>(le: (G, G) -> bool, g: G): GradeRow<G, N> -> bool {
    (row: GradeRow<G, N>) => le(row.grade, g) && le(g, row.grade)
  }

  /** Stability of `/get_grades`: the entries whose Grade compares equal to
      any given grade `g` appear in the same relative order as their records
      appear in the table. */
  lemma GradesKeepTieOrder<G(!new), N(!new)>(table: seq<Record<G, N>>, le: (G, G) -> bool,
                                                     courseName: Option<string>, year: Option<string>,
                                                     semester: Option<string>, g: G)
    requires TotalPreorder(le)
    ensures Filter(Grades(table, le, courseName, year, semester), RowTiedWith(le, g))
            == Map(Filter(Matching(table, Param(courseName), Param(year), Param(semester)), RecordTiedWith(le, g)), Project)
  {
    var matched := Matching(table, Param(courseName), Param(year), Param(semester));
    var sorted := Sort(ByGrade(le), matched);
    assert TieClass(ByGrade(le), RecordTiedWith<G, N>(le, g));
    SortKeepsTieOrder(ByGrade(le), matched, RecordTiedWith(le, g));
    MapFilter(sorted, Project, RecordTiedWith(le, g), RowTiedWith(le, g));
  }

  /** `/get_semesters` answers `[]` exactly when no record has both the
      requested Course and the requested Year. */
  lemma SemestersEmptyIffNoMatch<G, N>(table: seq<Record<G, N>>, courseName: Option<string>, year: Option<string>)
    ensures Semesters(table, courseName, year) == [] <==>
            forall x :: x in table ==> !(x.course == Param(courseName) && x.year == Param(year))
  {
    var r := Semesters(table, courseName, year);
    if r != [] {
      assert r[0] in r;
    }
    if exists x :: x in table && x.course == Param(courseName) && x.year == Param(year) {
      var x :| x in table && x.course == Param(courseName) && x.year == Param(year);
      assert x.semester in r;
    }
  }

  /** app.js turns a missing or falsy Course cell into "", and a request
      without `course_name` asks for Course "": such rows answer it. */
  lemma AppBlankCourseAnswersMissingParameter(rows: seq<Row>, i: nat)
    requires i < |rows| && !Truthy(rows[i].course)
    ensures NormaliseApp(rows[i]).year in Years(LoadApp(rows), None)
  {
    var table := LoadApp(rows);
    assert table[i] == NormaliseApp(rows[i]) && table[i] in table;
  }

  /** api/index.js turns a missing Course cell into "undefined", so a request
      whose trimmed `course_name` is "undefined" finds those rows. */
  lemma ApiAbsentCourseAnswersUndefined(rows: seq<Row>, i: nat, courseName: Option<string>)
    requires i < |rows| && rows[i].course == Absent
    requires Param(courseName) == "undefined"
    ensures NormaliseApi(rows[i]).year in Years(LoadApi(rows), courseName)
  {
    var table := LoadApi(rows);
    assert table[i] == NormaliseApi(rows[i]) && table[i] in table;
  }

  /** Two grades, "A" and "B", of one offering of a course. */
  function OneOffering(course: string, year: string, semester: string): seq<AppRecord> {
    [Record(year, semester, course, "A", 5), Record(year, semester, course, "B", 10)]
  }

  /** `/get_semesters` lists the offering's semester once. */
  lemma OneOfferingSemesters(course: string, year: string, semester: string)
    requires course != "" && Trimmed(course) && year != "" && Trimmed(year)
    ensures Semesters(OneOffering(course, year, semester), Some(course), Some(year)) == [semester]
  {
    ParamOfTrimmed(course);
    ParamOfTrimmed(year);
    var table := OneOffering(course, year, semester);
    var keep := OfCourseYear<string, int>(course, year);
    assert keep(table[0]) && keep(table[1]);
    assert Filter(table[1..], keep) == table[1..];
    assert Filter(table, keep) == table;
    var semesters := Map(table, SemesterOf);
    assert semesters[0] == semester && semesters[1] == semester;
    assert semesters == [semester, semester];
    assert semesters[..1] == [semester];
    assert Unique(semesters[..1]) == [semester];
  }

  /** `/get_grades` returns both rows of the offering, the "A" row first. */
  lemma OneOfferingGrades(le: (string, string) -> bool, course: string, year: string, semester: string)
    requires course != "" && Trimmed(course) && year != "" && Trimmed(year) && semester != "" && Trimmed(semester)
    requires le("A", "B")
    ensures Grades(OneOffering(course, year, semester), le, Some(course), Some(year), Some(semester))
            == [GradeRow(semester, "A", 5), GradeRow(semester, "B", 10)]
  {
    ParamOfTrimmed(course);
    ParamOfTrimmed(year);
    ParamOfTrimmed(semester);
    var table := OneOffering(course, year, semester);
    var keep := OfCourseYearSemester<string, int>(course, year, semester);
    assert keep(table[0]) && keep(table[1]);
    assert Filter(table[1..], keep) == table[1..];
    assert Matching(table, course, year, semester) == table;
    assert Sort(ByGrade(le), table[1..]) == table[1..];
    assert Sort(ByGrade(le), table) == table;
    assert Map(table, Project) == [Project(table[0]), Project(table[1])];
  }
}
