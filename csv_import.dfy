/**
 The CSV import of the roster store (src/student_manager.py): the header
 check, the trimming of cells, and what importing a sequence of rows does to
 the store's sections and students, stated row by row.
 */
module CsvImport {
  import opened Text
  import opened Records

  const RequiredColumns: set<string> := {"section_id", "section_name", "student_id", "student_name"}

  /** The header check of the CSV import: every required column name occurs
      among the header cells once they are trimmed and lower-cased. */
  function HasRequiredColumns(header: seq<string>): (ok: bool)
    ensures ok <==> forall c :: c in RequiredColumns ==>
                      exists i :: 0 <= i < |header| && Lower(Trim(header[i])) == c
  {
    var names := set i | 0 <= i < |header| :: Lower(Trim(header[i]));
    RequiredColumns <= names
  }

  /** A row with each of its four cells trimmed, as the import reads it. */
  function TrimRow(row: CsvRow): CsvRow
  {
    CsvRow(Trim(row.sectionId), Trim(row.sectionName), Trim(row.studentId), Trim(row.studentName))
  }

  function TrimmedRows(rows: seq<CsvRow>): (r: seq<CsvRow>)
    ensures |r| == |rows| && forall k :: 0 <= k < |rows| ==> r[k] == TrimRow(rows[k])
  {
    seq(|rows|, k requires 0 <= k < |rows| => TrimRow(rows[k]))
  }

  /** Trimming the rows a second time changes nothing. */
  lemma TrimmedRowsIdempotent(rows: seq<CsvRow>)
    ensures TrimmedRows(TrimmedRows(rows)) == TrimmedRows(rows)
  {
    forall k | 0 <= k < |rows| ensures TrimRow(TrimRow(rows[k])) == TrimRow(rows[k]) {
      TrimIdempotent(rows[k].sectionId);
      TrimIdempotent(rows[k].sectionName);
      TrimIdempotent(rows[k].studentId);
      TrimIdempotent(rows[k].studentName);
    }
  }

  /** `s` neither starts nor ends with whitespace. */
  predicate Clean(s: string)
  {
    s == [] || (!IsSpace(s[0]) && !IsSpace(s[|s| - 1]))
  }

  /** No cell of a trimmed row starts or ends with whitespace. */
  lemma TrimmedRowsClean(rows: seq<CsvRow>)
    ensures forall k :: 0 <= k < |rows| ==>
              var r := TrimmedRows(rows)[k];
              Clean(r.sectionId) && Clean(r.sectionName) && Clean(r.studentId) && Clean(r.studentName)
  {
    forall k | 0 <= k < |rows|
      ensures var r := TrimmedRows(rows)[k];
              Clean(r.sectionId) && Clean(r.sectionName) && Clean(r.studentId) && Clean(r.studentName)
    {
      TrimSpec(rows[k].sectionId);
      TrimSpec(rows[k].sectionName);
      TrimSpec(rows[k].studentId);
      TrimSpec(rows[k].studentName);
    }
  }

  /** A name without surrounding whitespace or upper-case letters is its own
      normal form. */
  lemma NormalName(c: string)
    requires Clean(c) && forall i :: 0 <= i < |c| ==> !IsUpper(c[i])
    ensures Lower(Trim(c)) == c
  {
    assert TrimStart(c) == c;
    assert TrimEnd(c) == c;
    LowerSpec(c);
  }

  /** A header that holds the four required names verbatim, in any order and
      beside any other columns, passes the check. */
  lemma ExactHeaderAccepted(header: seq<string>)
    requires forall c :: c in RequiredColumns ==> c in header
    ensures HasRequiredColumns(header)
  {
    forall c | c in RequiredColumns ensures exists i :: 0 <= i < |header| && Lower(Trim(header[i])) == c {
      NormalName(c);
      var i :| 0 <= i < |header| && header[i] == c;
    }
  }

  /** Surrounding whitespace and capitals in the header names are ignored. */
  lemma PaddedHeaderAccepted()
    ensures HasRequiredColumns([" Section_ID", "SECTION_NAME ", "student_id", "Student_Name"])
  {
    var header := [" Section_ID", "SECTION_NAME ", "student_id", "Student_Name"];
    assert Lower(Trim(header[0])) == "section_id";
    assert Lower(Trim(header[1])) == "section_name";
    assert Lower(Trim(header[2])) == "student_id";
    assert Lower(Trim(header[3])) == "student_name";
  }

  /** A header lacking one required column is refused. */
  lemma MissingColumnRefused()
    ensures !HasRequiredColumns(["section_id", "section_name", "student_id"])
  {
    var header := ["section_id", "section_name", "student_id"];
    assert Lower(Trim(header[0])) == "section_id";
    assert Lower(Trim(header[1])) == "section_name";
    assert Lower(Trim(header[2])) == "student_id";
    assert "student_name" in RequiredColumns;
  }

  /** The section ids of the rows, in row order. */
  function SectionIdsOf(rows: seq<CsvRow>): (r: seq<string>)
    ensures |r| == |rows| && forall k :: 0 <= k < |rows| ==> r[k] == rows[k].sectionId
  {
    seq(|rows|, k requires 0 <= k < |rows| => rows[k].sectionId)
  }

  /** The student ids of the rows, in row order. */
  function StudentIdsOf(rows: seq<CsvRow>): (r: seq<string>)
    ensures |r| == |rows| && forall k :: 0 <= k < |rows| ==> r[k] == rows[k].studentId
  {
    seq(|rows|, k requires 0 <= k < |rows| => rows[k].studentId)
  }

  /** The student a (trimmed) row adds when its id is new. */
  function RowStudent(row: CsvRow): Student
  {
    Student(row.studentName, row.studentId, row.sectionId)
  }

  /** The distinct ids among the first `i` entries of `ids`. */
  function IdsUpTo(ids: seq<string>, i: nat): set<string>
    requires i <= |ids|
  {
    if i == 0 then {} else IdsUpTo(ids, i - 1) + {ids[i - 1]}
  }

  /** The position of the first occurrence of `x` among the first `i`
      entries of `ids`. */
  function FirstPos(ids: seq<string>, i: nat, x: string): (k: nat)
    requires i <= |ids| && x in IdsUpTo(ids, i)
    ensures k < i && ids[k] == x
  {
    if x in IdsUpTo(ids, i - 1) then FirstPos(ids, i - 1, x) else i - 1
  }

  /** `IdsUpTo` holds exactly the entries before position `i`. */
  lemma {:induction false} IdsUpToSpec(ids: seq<string>, i: nat, x: string)
    requires i <= |ids|
    ensures x in IdsUpTo(ids, i) <==> exists k :: 0 <= k < i && ids[k] == x
  {
    if i > 0 {
      IdsUpToSpec(ids, i - 1, x);
      if ids[i - 1] == x {
        assert 0 <= i - 1 < i && ids[i - 1] == x;
      }
    }
  }

  /** No entry before `FirstPos` is `x`: it is the first occurrence. */
  lemma {:induction false} FirstPosSpec(ids: seq<string>, i: nat, x: string)
    requires i <= |ids| && x in IdsUpTo(ids, i)
    ensures forall j :: 0 <= j < FirstPos(ids, i, x) ==> ids[j] != x
  {
    if x in IdsUpTo(ids, i - 1) {
      FirstPosSpec(ids, i - 1, x);
    } else {
      forall j | 0 <= j < i - 1
        ensures ids[j] != x
      {
        IdsUpToSpec(ids, i - 1, x);
      }
    }
  }

  /** Looking at one more entry does not move an earlier first occurrence. */
  lemma FirstPosExtend(ids: seq<string>, i: nat, x: string)
    requires i < |ids| && x in IdsUpTo(ids, i)
    ensures x in IdsUpTo(ids, i + 1) && FirstPos(ids, i + 1, x) == FirstPos(ids, i, x)
  {
  }

  /** `m` is `m0` grown by the first `i` entries of the parallel sequences
      `ids` and `vals`, keeping the first value seen for each key: the keys
      are the earlier ones plus those ids, an earlier entry keeps its value,
      and a new key maps to the value at its first occurrence. */
  ghost predicate GrownByFirstRows<V>(m0: map<string, V>, m: map<string, V>, ids: seq<string>, vals: seq<V>, i: nat)
    requires i <= |ids| == |vals|
  {
    && m.Keys == m0.Keys + IdsUpTo(ids, i)
    && (forall k :: k in m0 ==> m[k] == m0[k])
    && (forall k :: k in m && k !in m0 ==> k in IdsUpTo(ids, i) && m[k] == vals[FirstPos(ids, i, k)])
  }

  /** One more entry: its key is added, with its value, only when absent. */
  lemma GrowStep<V>(m0: map<string, V>, m: map<string, V>, ids: seq<string>, vals: seq<V>, i: nat)
    requires i < |ids| == |vals|
    requires GrownByFirstRows(m0, m, ids, vals, i)
    ensures GrownByFirstRows(m0, if ids[i] in m then m else m[ids[i] := vals[i]], ids, vals, i + 1)
  {
    var m' := if ids[i] in m then m else m[ids[i] := vals[i]];
    assert IdsUpTo(ids, i + 1) == IdsUpTo(ids, i) + {ids[i]};
    forall k | k in m' && k !in m0
      ensures k in IdsUpTo(ids, i + 1) && m'[k] == vals[FirstPos(ids, i + 1, k)]
    {
      if k != ids[i] || ids[i] in m {
        FirstPosExtend(ids, i, k);
      }
    }
  }

  /** The section each row names, in row order. */
  function SectionsOf(rows: seq<CsvRow>): (r: seq<Section>)
    ensures |r| == |rows| && forall k :: 0 <= k < |rows| ==> r[k] == Section(rows[k].sectionId, rows[k].sectionName)
  {
    seq(|rows|, k requires 0 <= k < |rows| => Section(rows[k].sectionId, rows[k].sectionName))
  }

  /** The student each row describes, in row order. */
  function StudentsOf(rows: seq<CsvRow>): (r: seq<Student>)
    ensures |r| == |rows| && forall k :: 0 <= k < |rows| ==> r[k] == RowStudent(rows[k])
  {
    seq(|rows|, k requires 0 <= k < |rows| => RowStudent(rows[k]))
  }

  /** `m0` grown by the first `i` entries of the parallel sequences `ids`
      and `vals`, taken in order: an entry's key is added, with the entry's
      value, only when the key is absent. */
  function GrowFold<V>(m0: map<string, V>, ids: seq<string>, vals: seq<V>, i: nat): map<string, V>
    requires i <= |ids| == |vals|
  {
    if i == 0 then m0
    else
      var m := GrowFold(m0, ids, vals, i - 1);
      if ids[i - 1] in m then m else m[ids[i - 1] := vals[i - 1]]
  }

  /** The keys after `i` entries are the earlier keys plus those entries' ids. */
  lemma {:induction false} GrowFoldKeys<V>(m0: map<string, V>, ids: seq<string>, vals: seq<V>, i: nat)
    requires i <= |ids| == |vals|
    ensures GrowFold(m0, ids, vals, i).Keys == m0.Keys + IdsUpTo(ids, i)
  {
    if i > 0 {
      GrowFoldKeys(m0, ids, vals, i - 1);
    }
  }

  /** Folding the entries one at a time keeps, for every key, the first value
      seen: `GrowFold` meets `GrownByFirstRows`. */
  lemma {:induction false} GrowFoldSpec<V>(m0: map<string, V>, ids: seq<string>, vals: seq<V>, i: nat)
    requires i <= |ids| == |vals|
    ensures GrownByFirstRows(m0, GrowFold(m0, ids, vals, i), ids, vals, i)
  {
    if i > 0 {
      GrowFoldSpec(m0, ids, vals, i - 1);
      GrowStep(m0, GrowFold(m0, ids, vals, i - 1), ids, vals, i - 1);
    }
  }

  /** Each map entry the fold adds is one distinct id not among the
      starting keys. */
  lemma GrowFoldCard<V>(m0: map<string, V>, ids: seq<string>, vals: seq<V>, i: nat)
    requires i <= |ids| == |vals|
    ensures |GrowFold(m0, ids, vals, i)| == |m0| + |IdsUpTo(ids, i) - m0.Keys|
  {
    var m := GrowFold(m0, ids, vals, i);
    GrowFoldKeys(m0, ids, vals, i);
    var known, seen := m0.Keys, IdsUpTo(ids, i);
    assert known + seen == known + (seen - known);
    assert known * (seen - known) == {};
    assert |m| == |m.Keys|;
  }

  /** The sections after one (trimmed) row: the row's section is created
      under the row's section name only when it is unknown. */
  function RowSections(sections: map<string, Section>, row: CsvRow): map<string, Section>
  {
    if row.sectionId in sections then sections
    else sections[row.sectionId := Section(row.sectionId, row.sectionName)]
  }

  /** The students after one (trimmed) row: the row's student is stored only
      when its id is not stored yet; a duplicate row is skipped. */
  function RowStudents(students: map<string, Student>, row: CsvRow): map<string, Student>
  {
    if row.studentId in students then students
    else students[row.studentId := RowStudent(row)]
  }

  /** Importing row `i` moves both folds on by one entry. */
  lemma RowFolds(sections0: map<string, Section>, students0: map<string, Student>, rows: seq<CsvRow>, i: nat)
    requires i < |rows|
    ensures GrowFold(sections0, SectionIdsOf(rows), SectionsOf(rows), i + 1)
            == RowSections(GrowFold(sections0, SectionIdsOf(rows), SectionsOf(rows), i), rows[i])
    ensures GrowFold(students0, StudentIdsOf(rows), StudentsOf(rows), i + 1)
            == RowStudents(GrowFold(students0, StudentIdsOf(rows), StudentsOf(rows), i), rows[i])
  {
    assert SectionIdsOf(rows)[i] == rows[i].sectionId;
    assert SectionsOf(rows)[i] == Section(rows[i].sectionId, rows[i].sectionName);
    assert StudentIdsOf(rows)[i] == rows[i].studentId;
    assert StudentsOf(rows)[i] == RowStudent(rows[i]);
  }

  /** The working state of the import's row loop: the two maps, the count
      of students added and the set of section ids seen. */
  datatype ImportState = ImportState(sections: map<string, Section>, students: map<string, Student>,
                                     added: nat, seen: set<string>)

  /** One row of the import's row loop. */
  function RowStep(st: ImportState, row: CsvRow): ImportState
  {
    ImportState(RowSections(st.sections, row), RowStudents(st.students, row),
                if row.studentId in st.students then st.added else st.added + 1,
                st.seen + {row.sectionId})
  }

  /** The state of the row loop after the first `i` rows. */
  function ImportFold(start: ImportState, rows: seq<CsvRow>, i: nat): ImportState
    requires i <= |rows|
  {
    if i == 0 then start else RowStep(ImportFold(start, rows, i - 1), rows[i - 1])
  }

  /** The sections after `i` rows are the starting sections grown by the
      rows' section entries. */
  lemma {:induction false} FoldSections(sections0: map<string, Section>, students0: map<string, Student>,
                                        rows: seq<CsvRow>, i: nat)
    requires i <= |rows|
    ensures ImportFold(ImportState(sections0, students0, 0, {}), rows, i).sections
            == GrowFold(sections0, SectionIdsOf(rows), SectionsOf(rows), i)
  {
    if i > 0 {
      var start := ImportState(sections0, students0, 0, {});
      var prev := ImportFold(start, rows, i - 1);
      assert ImportFold(start, rows, i).sections == RowSections(prev.sections, rows[i - 1]);
      FoldSections(sections0, students0, rows, i - 1);
      RowFolds(sections0, students0, rows, i - 1);
    }
  }

  /** The students after `i` rows are the starting students grown by the
      rows' student entries. */
  lemma {:induction false} FoldStudents(sections0: map<string, Section>, students0: map<string, Student>,
                                        rows: seq<CsvRow>, i: nat)
    requires i <= |rows|
    ensures ImportFold(ImportState(sections0, students0, 0, {}), rows, i).students
            == GrowFold(students0, StudentIdsOf(rows), StudentsOf(rows), i)
  {
    if i > 0 {
      var start := ImportState(sections0, students0, 0, {});
      var prev := ImportFold(start, rows, i - 1);
      assert ImportFold(start, rows, i).students == RowStudents(prev.students, rows[i - 1]);
      FoldStudents(sections0, students0, rows, i - 1);
      RowFolds(sections0, students0, rows, i - 1);
    }
  }

  /** The section ids seen after `i` rows are exactly those of the rows. */
  lemma {:induction false} FoldSeen(sections0: map<string, Section>, students0: map<string, Student>,
                                    rows: seq<CsvRow>, i: nat)
    requires i <= |rows|
    ensures ImportFold(ImportState(sections0, students0, 0, {}), rows, i).seen == IdsUpTo(SectionIdsOf(rows), i)
  {
    if i > 0 {
      var start := ImportState(sections0, students0, 0, {});
      var prev := ImportFold(start, rows, i - 1);
      assert ImportFold(start, rows, i).seen == prev.seen + {rows[i - 1].sectionId};
      FoldSeen(sections0, students0, rows, i - 1);
    }
  }

  /** The count of added students is the number of records the student map
      has gained. */
  lemma {:induction false} FoldAdded(sections0: map<string, Section>, students0: map<string, Student>,
                                     rows: seq<CsvRow>, i: nat)
    requires i <= |rows|
    ensures var st := ImportFold(ImportState(sections0, students0, 0, {}), rows, i);
            st.added + |students0| == |st.students|
  {
    if i > 0 {
      var start := ImportState(sections0, students0, 0, {});
      var prev := ImportFold(start, rows, i - 1);
      assert ImportFold(start, rows, i).added == if rows[i - 1].studentId in prev.students then prev.added else prev.added + 1;
      FoldAdded(sections0, students0, rows, i - 1);
    }
  }

  /** What importing the (trimmed) `rows` does, starting from `sections0` and
      `students0`: `sectionsSeen` is the number of distinct section ids in
      the rows, `studentsAdded` the number of distinct student ids in them
      that were not stored before, and both maps grow by the rows' ids,
      keeping every earlier record and taking each new record from the first
      row that carries its id. */
  ghost predicate ImportedRows(sections0: map<string, Section>, students0: map<string, Student>,
                               sections: map<string, Section>, students: map<string, Student>,
                               rows: seq<CsvRow>, stats: ImportStats)
  {
    var secIds := SectionIdsOf(rows);
    var stuIds := StudentIdsOf(rows);
    && stats.sectionsSeen == |IdsUpTo(secIds, |rows|)|
    && stats.studentsAdded == |IdsUpTo(stuIds, |rows|) - students0.Keys|
    && GrownByFirstRows(sections0, sections, secIds, SectionsOf(rows), |rows|)
    && GrownByFirstRows(students0, students, stuIds, StudentsOf(rows), |rows|)
  }
}
