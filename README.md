# Student roster service — Dafny model

A model of a small HTTP service that keeps the roster of one school: a list
of student records (name, student identifier, term) persisted as one JSON
array, read and changed through five endpoints (list all, get one, create,
update, delete). Every request builds a fresh `School` from the persisted
entries, does one thing, and the changing requests write the whole roster
back.

The model has four modules:

- `Json` (`json.dfy`): untyped JSON scalars (`Str`, `Int`, `Bool`, `Null`),
  objects as `map<string, Value>`, and `Option`/`Result` for Python's `None`
  results and the exceptions `ValueError` and `KeyError`.
- `Students` (`student.dfy`, models/student.py, pure): the `Student` record,
  the validating constructor `NewStudent` (three guards, each raising
  `ValueError`), the dict form `ToDict`, and `FromEntry`, the
  `Student(obj["name"], obj["student_id"], obj["term"])` call used when
  loading and when creating, where a missing key raises `KeyError` first.
  The record's fields hold untyped values, because an update assigns them
  without validation.
- `Schools` (`school.dfy`, models/school.py, imperative): the class `School`
  with the mutable list `students`; `GetById`, `GetByName` and `Save` are
  loops proved against the specification functions `LastIndexOf`,
  `WithName` and `Serialized`; `Add` and `Delete` change the list in place.
  `Delete` is the source's for-loop with its hidden index, removing from the
  list it iterates over; the function `Deleting` states what that leaves, and
  the lemmas around it prove what is and is not removed. Loading is the loop
  `LoadRoster`, proved against `Loaded`.
- `WebApp` (`webapp.dfy`, webapp.py): one method per handler, from the
  persisted entries, the path id and the request body to the response
  (`Reply(status, payload)`, or `Raised(error)` for an exception that escapes
  the handler) and the entries saved (`None` when nothing is saved). The
  `setattr` loop of the update handler is `ApplyUpdate`, proved against
  `Patched`.

Behaviour the model reproduces as the code has it, where the code's own
comments or the service's description say otherwise:

- An empty name is accepted: the constructor only rejects `None` and
  non-`str` names, although its docstring says empty names raise
  (models/student.py:19, 24-25).
- Delete does not remove every student with the identifier: the student
  right after each removed one is never examined, so a run of two or more
  adjacent students with the identifier always leaves at least one of them
  (`AdjacentDuplicateSurvives`).
- Get-one answers 400 only when the id is `None`, not when it is empty.
- Create reads `data["term"]` directly, so a body without `"term"` raises
  `KeyError` (a server error) and the constructor's default term of 1 is
  never used on that path.
- Update and delete answer 201, not 200, on success; update stores values
  without validation, and an invalid stored value makes every later load of
  the roster fail (`InvalidUpdatePoisonsRoster`).

A Python object reference into the list is modelled by the element's
position: `GetById` returns the index of the last match, and the update
handler writes the patched student back at that index. Students are taken to
be distinct objects, so `list.remove(student)` removes the element at the
loop's current position.

## Model

| member | source | states |
|---|---|---|
| `Students.IdFormat` | models/student.py:26 | the length-9, `'A'`, `'0'` test is exactly the pattern "A0 followed by seven characters" |
| `Students.NewStudent` | models/student.py:9-33 | construction succeeds exactly when the name is a str, the id is a str "A0" plus seven characters and the term is an int; then the fields are the arguments; otherwise ValueError |
| `Students.FromEntry` | models/school.py:28 | building a student from a dict raises KeyError exactly when one of the three keys is missing, and otherwise succeeds exactly when the three values are valid, holding those values |
| `Students.ToDict` | models/student.py:35-42 | the dict has exactly the keys name, student_id, term, and rebuilding a student from it gives the same student back, or ValueError when a field holds an invalid value |
| `Students.EntryRoundTrip` | models/student.py:9-42 | an entry with exactly the three keys that builds a student is reproduced by that student's `to_dict` |
| `Students.EmptyNameAccepted` | models/student.py:24-25 | the empty string is accepted as a name |
| `Students.IdTailUnconstrained` | models/student.py:26 | any nine-character identifier starting with "A0" is accepted, whatever its last seven characters |
| `Students.BoolTermRejected` | models/student.py:28 | a bool term raises ValueError (exact-type test) |
| `Students.DefaultTerm` | models/student.py:9 | with the term omitted, a valid name and id give a student in term 1 |
| `Schools.LastIndexOf` | models/school.py:49-56 | None exactly when no student has the id; otherwise a position holding the id with no later position holding it |
| `Schools.WithName` | models/school.py:77-81 | every student with the name occurs as often as in the roster, no other student occurs, and the result is empty exactly when nobody has the name |
| `Schools.WithNameStep` | models/school.py:77-79 | one step of the name scan: the student at the current position joins the matches exactly when it has the name |
| `Schools.Deleting` | models/school.py:104-107 | delete never lengthens the roster |
| `Schools.Loaded` | models/school.py:27-28 | loading succeeds exactly when every entry builds a student; then one valid student per entry, in order; otherwise the exception of the first failing entry |
| `Schools.LoadRoster` | models/school.py:24-28 | the load loop computes `Loaded` of the entries |
| `Schools.RemoveAtStep` | models/school.py:104-107 | removing the matching element at the loop position and advancing keeps the loop's prefix plus the rest's outcome unchanged |
| `Schools.KeepAtStep` | models/school.py:104-105 | advancing over a non-matching element keeps it and the outcome unchanged |
| `Schools.School.constructor` | models/school.py:13-28 | the school holds the loaded list |
| `Schools.School.Length` | models/school.py:30-37 | `len(school)` is the number of entries save writes |
| `Schools.School.GetById` | models/school.py:39-56 | the scan returns the last student with the id, or None, and changes nothing |
| `Schools.School.GetByName` | models/school.py:58-81 | the scan returns the students with the name, in roster order |
| `Schools.School.Add` | models/school.py:83-90 | the student is appended at the end, earlier entries unchanged, no duplicate check |
| `Schools.School.Delete` | models/school.py:92-109 | returns true exactly when some student had the id; the list becomes `Deleting` of the old one |
| `Schools.School.Save` | models/school.py:111-125 | the entries written are one `to_dict` per student, in order |
| `Schools.LoadAfterSave` | models/school.py:123-125 | loading what save wrote for valid students gives the same students in the same order |
| `Schools.SaveAfterLoad` | models/school.py:27-28 | saving a roster loaded from entries with exactly the three keys writes the same entries |
| `Schools.AddedIsFoundLast` | models/school.py:49-51 | a student appended with an id is the one get_by_id finds for it |
| `Schools.WithNameAppend` | models/school.py:77-79 | the name filter distributes over concatenation, so it keeps roster order |
| `Schools.DeletingNoMatch` | models/school.py:102-109 | with no student having the id, delete leaves the list unchanged |
| `Schools.DeletingKeepsOthers` | models/school.py:104-107 | every student without the id survives, in its original order |
| `Schools.DeletingShrinks` | models/school.py:104-107 | the survivors are a sub-multiset of the original list |
| `Schools.DeletingFirstMatch` | models/school.py:104-107 | the first student with the id is removed, everything before it is untouched, and its successor takes its place |
| `Schools.AdjacentDuplicateSurvives` | models/school.py:104-106 | the student right after each removed one is never examined, so any run of two or more adjacent students with the id leaves at least one of them on the roster |
| `Schools.DeletingIsSubsequence` | models/school.py:104-107 | delete only takes students out: every survivor, with the id or without, keeps its order relative to the others |
| `WebApp.Patched` | webapp.py:118-121 | the updated record is the old record overridden by the body's keys among name, student_id, term; other attributes keep their values |
| `WebApp.ApplyUpdate` | webapp.py:118-121 | the setattr loop yields `Patched` of the student and the body |
| `WebApp.GetStudents` | webapp.py:28-49 | 200 with one dict per loaded student, in roster order |
| `WebApp.GetOneStudent` | webapp.py:53-73 | 400 without an id, 404 when nobody has it, else 200 with the dict of the last student having it |
| `WebApp.AddStudent` | webapp.py:77-97 | a body missing a key raises KeyError; invalid values answer 400 with no save; otherwise the student is appended, the roster saved, 201 |
| `WebApp.UpdateStudent` | webapp.py:101-125 | 404 and no save when nobody has the id; otherwise the last match is patched without validation, the roster saved, 201 |
| `WebApp.DeleteStudent` | webapp.py:129-148 | the roster after delete is always saved; 201 when some student had the id, else 404 |
| `WebApp.AddThenGet` | webapp.py:94-97 | after a successful create the saved roster loads again and the new id finds the posted record |
| `WebApp.UpdateThenLoad` | webapp.py:118-123 | an update with valid values saves a roster that loads back with the patched student in place |
| `WebApp.InvalidUpdatePoisonsRoster` | webapp.py:118-123 | an update storing a non-int term is saved, and the saved roster then fails to load with ValueError |
| `WebApp.DeleteMissingKeepsRoster` | webapp.py:141-143 | deleting an absent id saves a roster that loads back unchanged |

## Left out

- Flask itself: the application object, route decorators, `request.json`,
  `jsonify` and `app.run`; handlers take the body as a map and return the
  status and payload as values.
- The HTML home page (`show_table`, `render_template`): presentation through
  a template engine.
- Opening, reading and writing `data/school.json` and the JSON encoder and
  decoder: loading takes the decoded entries, saving returns the entries it
  would write.
- JSON values other than strings, integers, booleans and null (floats,
  arrays, nested objects) are outside the `Value` domain: the source
  rejects them with ValueError at construction (a 400 on create, a failed
  load) and stores them silently on update, and the model covers neither.
- Request bodies that are not JSON objects, and persisted entries that are
  not objects: their Python type errors are not modelled.
- Races between concurrent requests on the data file: each handler is one
  sequential load, change and save.
- The school's name: stored by the constructor and never used.
- The object identity of `list.remove`: students are taken to be distinct
  objects, so the removed element is the one at the loop's position.
- The triple-quoted list-comprehension blocks: string literals, never run.
- Schools.School.GetById: returns the position of the last match rather
  than the object, because the model stores students as values.
