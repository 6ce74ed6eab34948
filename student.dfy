/** One student record: construction with validation, and the mapping it is
    serialised to (models/student.py). */
module Students {
  import opened Json

  /** The three attributes of a Student object. They hold untyped values:
      construction validates them, but later attribute assignment does not. */
  datatype Student = Student(name: Value, studentId: Value, term: Value)

  /** The keys of the serialised form. */
  const FieldNames: set<string> := {"name", "student_id", "term"}

  /** A student identifier is "A0" followed by seven arbitrary characters. */
  ghost predicate IdPattern(v: Value)
  {
    v.Str? && exists tail: string :: |tail| == 7 && v.s == "A0" + tail
  }

  /** The record invariant the constructor establishes: a name of type str
      (possibly empty), an identifier of the form above, an exact int term. */
  ghost predicate WellFormed(s: Student)
  {
    s.name.Str? && IdPattern(s.studentId) && s.term.Int?
  }

  lemma IdFormat(v: Value)
    ensures (v.Str? && |v.s| == 9 && v.s[0] == 'A' && v.s[1] == '0') <==> IdPattern(v)
  {
    if v.Str? && |v.s| == 9 && v.s[0] == 'A' && v.s[1] == '0' {
      assert v.s == "A0" + v.s[2..];
    }
  }

  /** `Student(name, student_id, term=1)`: the three guards in order, each
      raising ValueError; on success the fields are the arguments. */
  function NewStudent(name: Value, studentId: Value, term: Value := Int(1)): (r: Result<Student>)
    ensures r.Ok? <==> WellFormed(Student(name, studentId, term))
    ensures r.Ok? ==> r.value == Student(name, studentId, term)
    ensures r.Err? ==> r.error == ValueError
  {
    IdFormat(studentId);
    if name == Null || !name.Str? then Err(ValueError)
    else if !studentId.Str? || |studentId.s| != 9 || studentId.s[0] != 'A' || studentId.s[1] != '0' then Err(ValueError)
    else if !term.Int? then Err(ValueError)
    else Ok(Student(name, studentId, term))
  }

  /** `Student(obj["name"], obj["student_id"], obj["term"])`, the call used
      both when loading the roster and when adding a student: a missing key
      raises KeyError before the constructor runs. */
  function FromEntry(d: Dict): (r: Result<Student>)
    ensures r == Err(KeyError) <==> !(FieldNames <= d.Keys)
    ensures r.Ok? <==> FieldNames <= d.Keys && WellFormed(Student(d["name"], d["student_id"], d["term"]))
    ensures r.Ok? ==> r.value == Student(d["name"], d["student_id"], d["term"])
  {
    if "name" !in d || "student_id" !in d || "term" !in d then Err(KeyError)
    else NewStudent(d["name"], d["student_id"], d["term"])
  }

  /** `to_dict`: exactly the three keys; reading the dict back rebuilds the
      same student, and fails with ValueError exactly when an attribute was
      later set to an invalid value. */
  function ToDict(s: Student): (d: Dict)
    ensures d.Keys == FieldNames
    ensures FromEntry(d) == if WellFormed(s) then Ok(s) else Err(ValueError)
  {
    map["name" := s.name, "student_id" := s.studentId, "term" := s.term]
  }

  /** An entry with exactly the three keys that loads is reproduced by
      serialising the loaded student. */
  lemma EntryRoundTrip(d: Dict)
    requires d.Keys == FieldNames && FromEntry(d).Ok?
    ensures ToDict(FromEntry(d).value) == d
  {
    var e := ToDict(FromEntry(d).value);
    assert forall k :: k in FieldNames ==> e[k] == d[k];
  }

  /** The empty string is a valid name: only None and non-str names raise. */
  lemma EmptyNameAccepted(studentId: Value, term: Value)
    requires IdPattern(studentId) && term.Int?
    ensures NewStudent(Str(""), studentId, term) == Ok(Student(Str(""), studentId, term))
  {
  }

  /** Only the first two characters of the identifier are checked. */
  lemma IdTailUnconstrained(name: Value, tail: string, term: Value)
    requires name.Str? && term.Int? && |tail| == 7
    ensures NewStudent(name, Str("A0" + tail), term).Ok?
  {
  }

  /** A bool term is refused, since the test is on the exact type. */
  lemma BoolTermRejected(name: Value, studentId: Value, b: bool)
    ensures NewStudent(name, studentId, Bool(b)) == Err(ValueError)
  {
  }

  /** Omitting the term gives term 1. */
  lemma DefaultTerm(name: Value, studentId: Value)
    requires name.Str? && IdPattern(studentId)
    ensures NewStudent(name, studentId) == Ok(Student(name, studentId, Int(1)))
  {
  }
}
