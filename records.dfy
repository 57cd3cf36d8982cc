/**
 The records the roster store keeps and the outcomes its operations report
 (src/student_manager.py).
 */
module Records {

  datatype Option<T> = None | Some(value: T)

  /** The store's exceptions, plus the `ValueError` of a malformed CSV header. */
  datatype Error = DuplicateStudentId | SectionNotFound | StudentNotFound | InvalidArgument

  datatype Result<T> = Ok(value: T) | Err(error: Error)

  /** The outcome of an operation that returns nothing on success. */
  datatype Outcome = Pass | Fail(error: Error)

  datatype Student = Student(name: string, studentId: string, sectionId: string)

  datatype Section = Section(sectionId: string, name: string)

  /** One CSV data row, its four cells already picked out by column name. */
  datatype CsvRow = CsvRow(sectionId: string, sectionName: string, studentId: string, studentName: string)

  datatype ImportStats = ImportStats(studentsAdded: nat, sectionsSeen: nat)
}
