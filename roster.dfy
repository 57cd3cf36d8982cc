/**
 The in-memory roster store: sections, students, and the index from each
 section to the ids of the students assigned to it (src/student_manager.py).
 */
module Roster {
  import opened Records
  import opened CsvImport

  /** `xs` lists the students whose ids are in `bucket`, each exactly once and
      exactly as `students` stores them. */
  ghost predicate IsListing(xs: seq<Student>, bucket: set<string>, students: map<string, Student>)
  {
    && |xs| == |bucket|
    && (forall i :: 0 <= i < |xs| ==>
          xs[i].studentId in bucket && xs[i].studentId in students && students[xs[i].studentId] == xs[i])
    && (forall i, j :: 0 <= i < j < |xs| ==> xs[i].studentId != xs[j].studentId)
    && (forall id :: id in bucket ==> exists i :: 0 <= i < |xs| && xs[i].studentId == id)
  }

  /** Adding one more member to the end of a listing gives a listing of the
      larger bucket. */
  lemma ListingExtend(xs: seq<Student>, bucket: set<string>, students: map<string, Student>, id: string)
    requires IsListing(xs, bucket, students)
    requires id !in bucket && id in students && students[id].studentId == id
    ensures IsListing(xs + [students[id]], bucket + {id}, students)
  {
    var ys := xs + [students[id]];
    assert |bucket + {id}| == |bucket| + 1;
    forall i | 0 <= i < |ys|
      ensures ys[i].studentId in bucket + {id} && ys[i].studentId in students && students[ys[i].studentId] == ys[i]
    {
      if i < |xs| {
        assert ys[i] == xs[i];
      }
    }
    forall i, j | 0 <= i < j < |ys| ensures ys[i].studentId != ys[j].studentId {
      assert ys[i] == xs[i];
      if j < |xs| {
        assert ys[j] == xs[j];
      }
    }
    forall b | b in bucket + {id} ensures exists i :: 0 <= i < |ys| && ys[i].studentId == b {
      if b == id {
        assert ys[|xs|].studentId == b;
      } else {
        var i :| 0 <= i < |xs| && xs[i].studentId == b;
        assert ys[i].studentId == b;
      }
    }
  }

  /** The ids filed under `sid`, or none if the index has no such bucket. */
  function Bucket(index: map<string, set<string>>, sid: string): set<string>
  {
    if sid in index then index[sid] else {}
  }

  /** `[students[sid] for sid in ids]`: the records of the given ids, in an
      arbitrary order (Python's set iteration order is not modelled). */
  method ListStudents(ids: set<string>, students: map<string, Student>) returns (list: seq<Student>)
    requires forall id :: id in ids ==> id in students && students[id].studentId == id
    ensures IsListing(list, ids, students)
  {
    var remaining := ids;
    list := [];
    while remaining != {}
      invariant remaining <= ids
      invariant IsListing(list, ids - remaining, students)
      decreases |remaining|
    {
      var sid :| sid in remaining;
      assert ids - (remaining - {sid}) == (ids - remaining) + {sid};
      ListingExtend(list, ids - remaining, students, sid);
      list := list + [students[sid]];
      remaining := remaining - {sid};
    }
    assert ids - remaining == ids;
  }

  /** The store's invariant over its three maps: the index has a bucket for
      exactly the known sections, every record sits under its own key, every
      student's id is in the bucket of its own section, and every id in a
      bucket names a stored student of that section (so each student is in
      exactly one bucket). */
  ghost predicate Consistent(sections: map<string, Section>, students: map<string, Student>,
                             index: map<string, set<string>>)
  {
    && index.Keys == sections.Keys
    && (forall sid :: sid in sections ==> sections[sid].sectionId == sid)
    && (forall id :: id in students ==> students[id].studentId == id)
    && (forall id :: id in students ==>
          students[id].sectionId in index && id in index[students[id].sectionId])
    && (forall sid, id :: sid in index && id in index[sid] ==>
          id in students && students[id].sectionId == sid)
  }

  /** Under the invariant an id is in a bucket exactly when it names a student
      of that section. */
  lemma BucketMembership(sections: map<string, Section>, students: map<string, Student>,
                         index: map<string, set<string>>, sid: string, id: string)
    requires Consistent(sections, students, index)
    requires sid in index
    ensures id in index[sid] <==> id in students && students[id].sectionId == sid
  {
  }

  /** The invariant leaves no freedom in the index: given the sections and
      the students, there is only one index it accepts. */
  lemma IndexDetermined(sections: map<string, Section>, students: map<string, Student>,
                        index1: map<string, set<string>>, index2: map<string, set<string>>)
    requires Consistent(sections, students, index1)
    requires Consistent(sections, students, index2)
    ensures index1 == index2
  {
    forall sid | sid in index1 ensures index1[sid] == index2[sid] {
      forall id ensures id in index1[sid] <==> id in index2[sid] {
        BucketMembership(sections, students, index1, sid, id);
        BucketMembership(sections, students, index2, sid, id);
      }
    }
  }

  /** `add_section` keeps the invariant, on a new id and on an existing one. */
  lemma AddSectionConsistent(sections: map<string, Section>, students: map<string, Student>,
                             index: map<string, set<string>>, sid: string, name: string)
    requires Consistent(sections, students, index)
    ensures Consistent(sections[sid := Section(sid, name)], students,
                       if sid in sections then index else index[sid := {}])
  {
  }

  /** Inserting a new student into an existing section's bucket keeps the
      invariant. */
  lemma InsertStudentConsistent(sections: map<string, Section>, students: map<string, Student>,
                                index: map<string, set<string>>, st: Student)
    requires Consistent(sections, students, index)
    requires st.studentId !in students && st.sectionId in sections
    ensures Consistent(sections, students[st.studentId := st],
                       index[st.sectionId := index[st.sectionId] + {st.studentId}])
  {
  }

  /** Deleting a student and its id from its bucket keeps the invariant. */
  lemma DeleteStudentConsistent(sections: map<string, Section>, students: map<string, Student>,
                                index: map<string, set<string>>, id: string)
    requires Consistent(sections, students, index)
    requires id in students
    ensures var sid := students[id].sectionId;
            Consistent(sections, students - {id}, index[sid := index[sid] - {id}])
  {
  }

  /** Renaming a student keeps the invariant. */
  lemma RenameStudentConsistent(sections: map<string, Section>, students: map<string, Student>,
                                index: map<string, set<string>>, id: string, name: string)
    requires Consistent(sections, students, index)
    requires id in students
    ensures Consistent(sections, students[id := students[id].(name := name)], index)
  {
  }

  /** Moving a student to another known section, out of the old bucket and
      into the new one, keeps the invariant. */
  lemma MoveStudentConsistent(sections: map<string, Section>, students: map<string, Student>,
                              index: map<string, set<string>>, id: string, to: string)
    requires Consistent(sections, students, index)
    requires id in students && to in sections && to != students[id].sectionId
    ensures var from := students[id].sectionId;
            Consistent(sections, students[id := students[id].(sectionId := to)],
                       index[from := index[from] - {id}][to := index[to] + {id}])
  {
  }

  class StudentManager {
    var sections: map<string, Section>
    var students: map<string, Student>
    /** section id -> ids of the students in that section */
    var rosterIndex: map<string, set<string>>

    ghost predicate Valid()
      reads this
    {
      Consistent(sections, students, rosterIndex)
    }

    constructor ()
      ensures Valid()
      ensures sections == map[] && students == map[] && rosterIndex == map[]
    {
      sections := map[];
      students := map[];
      rosterIndex := map[];
    }

    /** Creates the section with an empty bucket, or renames an existing one. */
    method AddSection(sectionId: string, name: string) returns (r: Section)
      requires Valid()
      modifies this
      ensures Valid()
      ensures r == Section(sectionId, name)
      ensures sections == old(sections)[sectionId := r]
      ensures students == old(students)
      ensures rosterIndex == if sectionId in old(sections) then old(rosterIndex)
                             else old(rosterIndex)[sectionId := {}]
    {
      AddSectionConsistent(sections, students, rosterIndex, sectionId, name);
      if sectionId in sections {
        sections := sections[sectionId := sections[sectionId].(name := name)];
      } else {
        sections := sections[sectionId := Section(sectionId, name)];
        rosterIndex := rosterIndex[sectionId := {}];
      }
      r := sections[sectionId];
    }

    function GetSection(sectionId: string): (r: Option<Section>)
      requires Valid()
      reads this
      ensures r.Some? <==> sectionId in sections
      ensures r.Some? ==> r.value.sectionId == sectionId && r.value == sections[sectionId]
    {
      if sectionId in sections then Some(sections[sectionId]) else None
    }

    /** Adds a student under a caller-supplied id, creating the section
        (named after its id) when it is unknown. A duplicate id is refused
        before anything changes. */
    method AddStudent(name: string, sectionId: string, studentId: string) returns (r: Result<Student>)
      requires Valid()
      modifies this
      ensures Valid()
      ensures studentId in old(students) ==>
                r == Err(DuplicateStudentId)
                && sections == old(sections) && students == old(students) && rosterIndex == old(rosterIndex)
      ensures studentId !in old(students) ==>
                && r == Ok(Student(name, studentId, sectionId))
                && students == old(students)[studentId := r.value]
                && sections == (if sectionId in old(sections) then old(sections)
                                else old(sections)[sectionId := Section(sectionId, sectionId)])
                && rosterIndex == old(rosterIndex)[sectionId := Bucket(old(rosterIndex), sectionId) + {studentId}]
    {
      if studentId in students {
        return Err(DuplicateStudentId);
      }
      if sectionId !in sections {
        var _ := AddSection(sectionId, sectionId);
      }
      var student := Student(name, studentId, sectionId);
      InsertStudentConsistent(sections, students, rosterIndex, student);
      students := students[studentId := student];
      rosterIndex := rosterIndex[sectionId := rosterIndex[sectionId] + {studentId}];
      r := Ok(student);
    }

    /** Deletes a student's record and takes its id out of its bucket. */
    method RemoveStudent(studentId: string) returns (r: Outcome)
      requires Valid()
      modifies this
      ensures Valid()
      ensures sections == old(sections)
      ensures studentId !in old(students) ==>
                r == Fail(StudentNotFound) && students == old(students) && rosterIndex == old(rosterIndex)
      ensures studentId in old(students) ==>
                var sid := old(students)[studentId].sectionId;
                && r == Pass
                && students == old(students) - {studentId}
                && rosterIndex == old(rosterIndex)[sid := old(rosterIndex)[sid] - {studentId}]
    {
      if studentId !in students {
        return Fail(StudentNotFound);
      }
      var student := students[studentId];
      DeleteStudentConsistent(sections, students, rosterIndex, studentId);
      if student.sectionId in rosterIndex {
        rosterIndex := rosterIndex[student.sectionId := rosterIndex[student.sectionId] - {studentId}];
      }
      students := students - {studentId};
      r := Pass;
    }

    /** The rename step of `update_student`: only the student's name changes. */
    method Rename(studentId: string, name: string) returns (student: Student)
      requires Valid() && studentId in students
      modifies this
      ensures Valid()
      ensures student == old(students)[studentId].(name := name)
      ensures students == old(students)[studentId := student]
      ensures sections == old(sections) && rosterIndex == old(rosterIndex)
    {
      RenameStudentConsistent(sections, students, rosterIndex, studentId, name);
      student := students[studentId].(name := name);
      students := students[studentId := student];
    }

    /** The move step of `update_student`: the student's id leaves the old
        section's bucket and joins the new one's. */
    method Move(studentId: string, to: string) returns (student: Student)
      requires Valid() && studentId in students && to in sections && to != students[studentId].sectionId
      modifies this
      ensures Valid()
      ensures student == old(students)[studentId].(sectionId := to)
      ensures students == old(students)[studentId := student]
      ensures var from := old(students)[studentId].sectionId;
              rosterIndex == old(rosterIndex)[from := old(rosterIndex)[from] - {studentId}]
                                             [to := old(rosterIndex)[to] + {studentId}]
      ensures sections == old(sections)
    {
      var from := students[studentId].sectionId;
      MoveStudentConsistent(sections, students, rosterIndex, studentId, to);
      rosterIndex := rosterIndex[from := rosterIndex[from] - {studentId}];
      student := students[studentId].(sectionId := to);
      students := students[studentId := student];
      rosterIndex := rosterIndex[to := rosterIndex[to] + {studentId}];
    }

    /** Renames and/or moves a student. The new name is stored before the
        target section is looked up, so a move to an unknown section fails
        with the rename already applied. */
    method UpdateStudent(studentId: string, name: Option<string>, sectionId: Option<string>)
      returns (r: Result<Student>)
      requires Valid()
      modifies this
      ensures Valid()
      ensures sections == old(sections)
      ensures studentId !in old(students) ==>
                r == Err(StudentNotFound) && students == old(students) && rosterIndex == old(rosterIndex)
      ensures studentId in old(students) ==>
                var renamed := if name.Some? then old(students)[studentId].(name := name.value)
                               else old(students)[studentId];
                var from := renamed.sectionId;
                if sectionId.None? || sectionId.value == from then
                  r == Ok(renamed) && students == old(students)[studentId := renamed]
                  && rosterIndex == old(rosterIndex)
                else if sectionId.value !in old(sections) then
                  r == Err(SectionNotFound) && students == old(students)[studentId := renamed]
                  && rosterIndex == old(rosterIndex)
                else
                  var to := sectionId.value;
                  r == Ok(renamed.(sectionId := to)) && students == old(students)[studentId := r.value]
                  && rosterIndex == old(rosterIndex)[from := old(rosterIndex)[from] - {studentId}]
                                                    [to := old(rosterIndex)[to] + {studentId}]
    {
      if studentId !in students {
        return Err(StudentNotFound);
      }
      var student := students[studentId];
      if name.Some? {
        student := Rename(studentId, name.value);
      }
      if sectionId.Some? && sectionId.value != student.sectionId {
        if sectionId.value !in sections {
          return Err(SectionNotFound);
        }
        student := Move(studentId, sectionId.value);
      }
      r := Ok(student);
    }

    /** The students of a section, in no particular order; an unknown section
        is an error, a known empty one gives the empty list. */
    method GetStudentsBySection(sectionId: string) returns (r: Result<seq<Student>>)
      requires Valid()
      ensures r.Err? <==> sectionId !in sections
      ensures r.Err? ==> r.error == SectionNotFound
      ensures r.Ok? ==> sectionId in rosterIndex && IsListing(r.value, rosterIndex[sectionId], students)
      ensures r.Ok? ==> forall i :: 0 <= i < |r.value| ==> r.value[i].sectionId == sectionId
    {
      if sectionId !in sections {
        return Err(SectionNotFound);
      }
      var ids := if sectionId in rosterIndex then rosterIndex[sectionId] else {};
      var list := ListStudents(ids, students);
      r := Ok(list);
    }

    /** One (trimmed) row of the CSV import: the row's section is created
        under the row's section name when it is unknown, then the row's
        student is added unless its id is already stored. */
    method ImportRow(row: CsvRow) returns (isNew: bool)
      requires Valid()
      modifies this
      ensures Valid()
      ensures isNew <==> row.studentId !in old(students)
      ensures sections == RowSections(old(sections), row)
      ensures students == RowStudents(old(students), row)
    {
      if row.sectionId !in sections {
        var _ := AddSection(row.sectionId, row.sectionName);
      }
      var res := AddStudent(row.studentName, row.sectionId, row.studentId);
      isNew := res.Ok?;
    }

    /** The CSV import: a header lacking a required column is refused before
        anything changes; otherwise the rows are imported with their cells
        trimmed. */
    method ImportRosterFromCsv(header: seq<string>, rows: seq<CsvRow>) returns (r: Result<ImportStats>)
      requires Valid()
      modifies this
      ensures Valid()
      ensures r.Err? <==> !HasRequiredColumns(header)
      ensures r.Err? ==> r.error == InvalidArgument
                         && sections == old(sections) && students == old(students) && rosterIndex == old(rosterIndex)
      ensures r.Ok? ==> ImportedRows(old(sections), old(students), sections, students, TrimmedRows(rows), r.value)
    {
      if !HasRequiredColumns(header) {
        return Err(InvalidArgument);
      }
      var clean := TrimmedRows(rows);
      ghost var sections0, students0 := sections, students;
      var stats := ImportRows(clean);
      FoldSections(sections0, students0, clean, |clean|);
      FoldStudents(sections0, students0, clean, |clean|);
      FoldSeen(sections0, students0, clean, |clean|);
      FoldAdded(sections0, students0, clean, |clean|);
      GrowFoldSpec(sections0, SectionIdsOf(clean), SectionsOf(clean), |clean|);
      GrowFoldSpec(students0, StudentIdsOf(clean), StudentsOf(clean), |clean|);
      GrowFoldCard(students0, StudentIdsOf(clean), StudentsOf(clean), |clean|);
      r := Ok(stats);
    }

    /** The row loop of the CSV import, on rows whose cells are already
        trimmed. Rows are processed in order: a row's section is created
        (with the row's section name) only if it is not yet known, and the
        row's student is added unless its id is already stored, in which case
        the row is skipped. */
    method ImportRows(rows: seq<CsvRow>) returns (stats: ImportStats)
      requires Valid()
      modifies this
      ensures Valid()
      ensures var st := ImportFold(ImportState(old(sections), old(students), 0, {}), rows, |rows|);
              sections == st.sections && students == st.students && stats == ImportStats(st.added, |st.seen|)
    {
      ghost var start := ImportState(sections, students, 0, {});
      var added: nat := 0;
      var seen: set<string> := {};
      var i := 0;
      while i < |rows|
        invariant 0 <= i <= |rows|
        invariant Valid()
        invariant ImportState(sections, students, added, seen) == ImportFold(start, rows, i)
      {
        var row := rows[i];
        ghost var before := ImportState(sections, students, added, seen);
        assert ImportFold(start, rows, i + 1) == RowStep(before, row);
        var isNew := ImportRow(row);
        seen := seen + {row.sectionId};
        if isNew {
          added := added + 1;
        }
        i := i + 1;
      }
      stats := ImportStats(added, |seen|);
    }
  }
}
