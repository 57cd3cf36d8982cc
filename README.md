# Classroom roster store and classroom tools, in Dafny

This project models the core of a small classroom toolkit:

- the in-memory roster store `StudentManager` (src/student_manager.py),
- the two helpers of `ClassroomTools` built on it (src/classroom_tools.py).

The store keeps three dictionaries:

- sections by id;
- students by id;
- an index from each section id to the set of ids of its students.

Its operations are: add or rename a section, look a section up, add, remove
and update a student, list a section's students, and bulk-import a roster
from CSV text. The tools pick one student of a section at random (the
"spin wheel") and split a section into shuffled groups of a given size.

Files and modules:

- `text.dfy` — module `Text`: `str.strip()` and `str.lower()` over ASCII, with
  lemmas saying exactly what they compute.
- `records.dfy` — module `Records`: the records (`Student`, `Section`, a CSV
  row, the import statistics) and the error outcomes (`Result`, `Outcome`,
  `Option`).
- `csv_import.dfy` — module `CsvImport`: the header check, cell trimming, and
  the specification of the import. That specification has two parts. One is
  a fold over the rows (`ImportFold`). The other is a declarative
  description: every map grows by the first row carrying each new id
  (`GrownByFirstRows`), and the counts are numbers of distinct ids.
  The module also proves that the two parts agree.
- `roster.dfy` — module `Roster`: the store invariant (`Consistent`) with
  one preservation lemma per kind of update, plus `class StudentManager`.
  The class has the three maps as fields. Every mutating method states its
  result, its new state and the preserved invariant `Valid()`. The import
  methods state the sections and students only; `IndexDetermined` shows
  that the invariant then fixes the index.
- `tools.dfy` — module `Tools`: the chunking specification (`Chunks`) and
  its lemmas. It also holds the Fisher–Yates shuffle on an array, the
  grouping loop, and `class ClassroomTools`.

Error handling follows the source's exceptions:

- `DuplicateStudentId`, `SectionNotFound` and `StudentNotFound` are the
  store's error classes.
- `InvalidArgument` stands for the `ValueError` of a CSV header that lacks a
  required column, and of a group size below 1.

## Model

| member | source | states |
|---|---|---|
| Roster.StudentManager.constructor | src/student_manager.py:58-64 | The store starts with no sections, no students and an empty index, and satisfies the invariant. |
| Roster.StudentManager.AddSection | src/student_manager.py:66-85 | The stored section becomes `(id, name)`. An unknown id also gets an empty index bucket, while a known id keeps its bucket (a rename). Students are untouched and the invariant holds. |
| Roster.StudentManager.GetSection | src/student_manager.py:87-89 | The result is present exactly when the id is known, and it is then the stored section, carrying that id. |
| Roster.StudentManager.AddStudent | src/student_manager.py:91-122 | A known id fails with `DuplicateStudentId` and changes nothing. Otherwise the student is stored under its id and its id joins its section's bucket. An unknown section is first created, named after its id. The invariant holds. |
| Roster.StudentManager.RemoveStudent | src/student_manager.py:124-144 | An unknown id fails with `StudentNotFound` and changes nothing. Otherwise the record is deleted, its id leaves its section's bucket, and nothing else changes. |
| Roster.StudentManager.UpdateStudent | src/student_manager.py:146-183 | An unknown id fails with `StudentNotFound` and changes nothing. A given name is stored first. A move to a different section that is unknown then fails with `SectionNotFound`, keeping the rename. A move to a different known section takes the id out of the old bucket and puts it into the new one. The result is the updated record. |
| Roster.StudentManager.Rename | src/student_manager.py:165-168 | Only the student's name changes, and the invariant holds. |
| Roster.StudentManager.Move | src/student_manager.py:170-181 | The student's section becomes the target. Its id leaves the old section's bucket and joins the target's, and nothing else changes. |
| Roster.StudentManager.GetStudentsBySection | src/student_manager.py:185-202 | An unknown section gives `SectionNotFound`. Otherwise the result lists every student of the section's bucket exactly once, as stored, and each lists that section. |
| Roster.ListStudents | src/student_manager.py:201-202 | The list holds the stored record of every id in the set, each exactly once, in some order. |
| Roster.ListingExtend | src/student_manager.py:202 | Appending the record of an id not yet listed extends a listing of a bucket to a listing of the bucket plus that id. |
| Roster.BucketMembership | src/student_manager.py:63-64 | Under the invariant, an id is in a section's bucket exactly when it names a stored student of that section. |
| Roster.IndexDetermined | src/student_manager.py:63-64 | Given the sections and the students, the invariant admits exactly one index. So a contract that states the two maps and keeps `Valid()` also fixes the index. |
| Roster.AddSectionConsistent | src/student_manager.py:77-83 | Creating or renaming a section keeps the store invariant. |
| Roster.InsertStudentConsistent | src/student_manager.py:117-120 | Storing a new student and adding its id to its section's bucket keeps the invariant. |
| Roster.DeleteStudentConsistent | src/student_manager.py:137-144 | Deleting a student and taking its id out of its bucket keeps the invariant. |
| Roster.RenameStudentConsistent | src/student_manager.py:165-168 | Renaming a stored student keeps the invariant. |
| Roster.MoveStudentConsistent | src/student_manager.py:170-181 | Moving a student to another known section, updating both buckets, keeps the invariant. |
| Roster.StudentManager.ImportRosterFromCsv | src/student_manager.py:204-254 | The import fails with `InvalidArgument`, changing nothing, exactly when the normalised header lacks one of the four required columns. Otherwise the maps grow by the trimmed rows, with the first row of each new id deciding the stored record and earlier records kept. `sectionsSeen` is the number of distinct section ids in the rows. `studentsAdded` is the number of distinct student ids in the rows that were not stored before. The invariant holds. |
| Roster.StudentManager.ImportRows | src/student_manager.py:229-253 | The row loop ends in the state of the row-by-row fold (`ImportFold`, one `RowStep` per row) from the old maps. The two maps are the fold's maps, `studentsAdded` is its count of added students, and `sectionsSeen` is the size of its set of seen section ids. The invariant holds throughout. |
| Roster.StudentManager.ImportRow | src/student_manager.py:238-251 | Importing one row creates the row's section under the row's name only if it is unknown. It stores the row's student only if the id is new, and reports it as added exactly then. |
| CsvImport.ExactHeaderAccepted | src/student_manager.py:222-227 | The header check `HasRequiredColumns` accepts every header that holds the four required names verbatim, in any order and next to any other columns. |
| CsvImport.PaddedHeaderAccepted | src/student_manager.py:222-226 | Surrounding whitespace and capitals in header names are ignored: `[" Section_ID", "SECTION_NAME ", "student_id", "Student_Name"]` passes the check. |
| CsvImport.MissingColumnRefused | src/student_manager.py:225-227 | A header lacking `student_name` is refused. |
| CsvImport.NormalName | src/student_manager.py:223 | A name with no surrounding whitespace and no upper-case letter is left as it is by the header normalisation. |
| CsvImport.TrimmedRowsIdempotent | src/student_manager.py:233-236 | Trimming the rows' cells (`TrimmedRows`) a second time changes nothing. |
| CsvImport.TrimmedRowsClean | src/student_manager.py:233-236 | No cell of a trimmed row starts or ends with whitespace. |
| CsvImport.IdsUpToSpec | src/student_manager.py:230-242 | An id is among the ids of the first `i` rows exactly when it occurs at a position below `i`. |
| CsvImport.FirstPosSpec | src/student_manager.py:239-246 | The position found is the first occurrence of the id among the first `i` rows. |
| CsvImport.GrowFoldKeys | src/student_manager.py:238-251 | After `i` rows, the keys are the starting keys plus the ids of those rows. |
| CsvImport.GrowFoldSpec | src/student_manager.py:238-251 | The fold keeps every starting entry, adds each new id, and gives every new id the value of the first row carrying it. |
| CsvImport.GrowFoldCard | src/student_manager.py:244-247 | The map gains one entry per distinct row id not among the starting keys. |
| CsvImport.RowFolds | src/student_manager.py:238-251 | Handling one more row advances both map folds by one row. |
| CsvImport.FoldSections | src/student_manager.py:238-240 | The sections of the import's row fold are the starting sections grown by the rows' section entries. |
| CsvImport.FoldStudents | src/student_manager.py:244-251 | The students of the import's row fold are the starting students grown by the rows' student entries. |
| CsvImport.FoldSeen | src/student_manager.py:242 | The section ids the row fold has seen are exactly the rows' section ids. |
| CsvImport.FoldAdded | src/student_manager.py:245-247 | The count of added students equals the number of records the student map gained. |
| Text.TrimStartSpec | src/student_manager.py:233 | Leading whitespace is removed, all of it and nothing more. |
| Text.TrimEndSpec | src/student_manager.py:233 | Trailing whitespace is removed, all of it and nothing more. |
| Text.TrimSpec | src/student_manager.py:223 | `Trim` models `str.strip()`. The trimmed string is the infix of the input left once whitespace is cut from both ends. Everything cut is whitespace, and the result neither starts nor ends with whitespace. |
| Text.TrimIdempotent | src/student_manager.py:233-236 | Trimming twice is trimming once. |
| Text.LowerSpec | src/student_manager.py:223 | `Lower` models `str.lower()`. Lower-casing keeps the length, leaves no upper-case letter, maps each upper-case letter to its lower-case partner and keeps every other character. |
| Tools.Shuffle | src/classroom_tools.py:64-65 | The shuffled array is a permutation of the original. |
| Tools.PermutedListing | src/classroom_tools.py:64-65 | A permutation of a listing of a section's students is again such a listing: every member exactly once. |
| Tools.ChunksFlatten | src/classroom_tools.py:67-74 | `Chunks` models the slices `xs[i : i + k]` for `i` in `range(0, n, k)`. The groups laid end to end give back the shuffled roster. |
| Tools.ChunksShape | src/classroom_tools.py:67-69 | The number of groups is the least `c` with `n <= c*k`, that is ⌈n/k⌉. Every group but the last has exactly `k` members and the last has between 1 and `k`. |
| Tools.ChunkSingleGroup | src/classroom_tools.py:68-69 | With `1 <= n <= k` there is exactly one group, holding everyone. |
| Tools.GroupSlices | src/classroom_tools.py:67-74 | The strided slicing loop produces exactly the chunking of the shuffled roster into groups of `groupSize`. Each student in a group is its dictionary (`ToDict`: id, name, section id). |
| Tools.ClassroomTools.constructor | src/classroom_tools.py:7-8 | The tools hold the given store. |
| Tools.ClassroomTools.SpinWheel | src/classroom_tools.py:10-34 | The result is nothing exactly when the section is unknown or has no students. Otherwise it is the dictionary of the roster member at the chosen index, the roster being a listing of the section, and it carries the requested section id. |
| Tools.ClassroomTools.CreateGroups | src/classroom_tools.py:36-76 | A group size below 1 is refused with `InvalidArgument`, whether or not the section exists. An unknown or empty section gives no groups. Otherwise the roster and its shuffle both list each section member exactly once. The groups are the chunking of the shuffle and concatenate back to it. There are ⌈n/k⌉ groups: all but the last of size `k`, the last of size 1..`k`, and a single group when `n <= k`. |

## Left out

- Student id generation: `add_student` with no id draws a random UUID (src/student_manager.py:107-108). Randomness is outside the model, so `AddStudent` takes the id as a parameter.
- CSV tokenising: `csv.DictReader` is not modelled. `ImportRosterFromCsv` receives the header names and the rows with their four cells already picked out by column name. Rows missing a cell, quoting and extra columns are therefore not modelled.
- Trimming happens once, on all rows, before the row loop. The source trims each row inside the loop. The two orders are equivalent because trimming has no side effects.
- `str.strip()` and `str.lower()` are modelled on ASCII only. Unicode whitespace and non-ASCII case mappings are not.
- `random.choice` and `random.shuffle`: `SpinWheel` takes the chosen index as a parameter (reduced modulo the roster length). `Shuffle` picks each swap partner arbitrarily, so it models every run of the Fisher–Yates algorithm but not the uniform distribution.
- Set iteration order: `GetStudentsBySection` returns the bucket's students in an arbitrary order. The contract pins down the contents, not the order.
- Aliasing: the source returns the stored `Student` and `Section` objects, so later updates show through references held by callers. The model returns values.
- Exception messages are not modelled, only which error is raised.
- backend/main.py (HTTP routing, request schemas, status codes) is not part of this model.
- Tools.ClassroomTools.SpinWheel, Tools.ClassroomTools.CreateGroups: the bare `except:` around the roster lookup (src/classroom_tools.py:23 and 57) swallows any exception. The only one the lookup raises is the unknown-section error, which is the one modelled.
