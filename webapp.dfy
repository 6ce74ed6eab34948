/** The decision logic of the route handlers (webapp.py), with Flask taken
    away. Every handler builds a fresh School from the persisted entries,
    performs one operation, and the mutating ones write the whole roster
    back. A handler here takes the persisted entries (and the path id and
    request body) and returns the response together with the entries it
    saved, None when it saved nothing. An exception that escapes a handler
    (a roster that fails to load, a missing key in a request body) is the
    outcome Raised: Flask answers it with a server error. */
module WebApp {
  import opened Json
  import opened Students
  import opened Schools

  datatype Payload = Text(text: string) | Record(entry: Dict) | Records(entries: seq<Dict>)

  datatype Outcome = Reply(status: nat, payload: Payload) | Raised(error: Error)

  /** The attributes `update_student` may overwrite, in the order it visits them. */
  const Attributes: seq<string> := ["name", "student_id", "term"]

  /** `getattr(s, a)` for one of the three attributes. */
  function GetAttr(s: Student, a: string): Value
  {
    if a == "name" then s.name
    else if a == "student_id" then s.studentId
    else s.term
  }

  /** `setattr(s, a, v)` for one of the three attributes. */
  function SetAttr(s: Student, a: string, v: Value): Student
  {
    if a == "name" then s.(name := v)
    else if a == "student_id" then s.(studentId := v)
    else s.(term := v)
  }

  /** A student after a partial update: the keys of the body among the three
      attributes override the stored values, nothing is validated, and the
      serialised record is the old one overridden by those keys. */
  function Patched(s: Student, body: Dict): (r: Student)
    ensures ToDict(r) == ToDict(s) + map k | k in body && k in FieldNames :: body[k]
    ensures forall a :: a in FieldNames && a !in body ==> GetAttr(r, a) == GetAttr(s, a)
  {
    var r := Student(if "name" in body then body["name"] else s.name,
                     if "student_id" in body then body["student_id"] else s.studentId,
                     if "term" in body then body["term"] else s.term);
    var over := map k | k in body && k in FieldNames :: body[k];
    assert forall k :: k in FieldNames ==> (ToDict(s) + over)[k] == ToDict(r)[k];
    r
  }

  /** The `setattr` loop of `update_student` over one student. */
  method ApplyUpdate(s: Student, body: Dict) returns (u: Student)
    ensures u == Patched(s, body)
  {
    u := s;
    for i := 0 to |Attributes|
      invariant forall k :: 0 <= k < i ==>
        GetAttr(u, Attributes[k]) == if Attributes[k] in body then body[Attributes[k]] else GetAttr(s, Attributes[k])
      invariant forall k :: i <= k < |Attributes| ==> GetAttr(u, Attributes[k]) == GetAttr(s, Attributes[k])
    {
      var attribute := Attributes[i];
      if attribute in body {
        u := SetAttr(u, attribute, body[attribute]);
      }
    }
    assert GetAttr(u, Attributes[0]) == u.name;
    assert GetAttr(u, Attributes[1]) == u.studentId;
    assert GetAttr(u, Attributes[2]) == u.term;
  }

  /** GET /students: one dict per student, in roster order, with 200. */
  method GetStudents(file: seq<Dict>) returns (out: Outcome)
    ensures Loaded(file).Err? ==> out == Raised(Loaded(file).error)
    ensures Loaded(file).Ok? ==> out.Reply? && out.status == 200 && out.payload.Records?
    ensures Loaded(file).Ok? ==> |out.payload.entries| == |file|
    ensures Loaded(file).Ok? ==> forall i :: 0 <= i < |file| ==> out.payload.entries[i] == ToDict(Loaded(file).value[i])
  {
    var loaded := LoadRoster(file);
    if loaded.Err? {
      return Raised(loaded.error);
    }
    var bcit := new School(loaded.value);
    var asDicts := [];
    var i := 0;
    while i < |bcit.students|
      invariant 0 <= i <= |bcit.students|
      invariant |asDicts| == i
      invariant forall j :: 0 <= j < i ==> asDicts[j] == ToDict(bcit.students[j])
    {
      asDicts := asDicts + [ToDict(bcit.students[i])];
      i := i + 1;
    }
    out := Reply(200, Records(asDicts));
  }

  /** GET /student/<id>: 400 without an id, 404 when no student carries it,
      otherwise 200 with the dict of the last student that does. */
  method GetOneStudent(file: seq<Dict>, studentId: Option<string>) returns (out: Outcome)
    ensures Loaded(file).Err? ==> out == Raised(Loaded(file).error)
    ensures Loaded(file).Ok? && studentId.None? ==> out == Reply(400, Text("No student ID provided as argument"))
    ensures Loaded(file).Ok? && studentId.Some? && !HasId(Loaded(file).value, studentId.value) ==>
              out == Reply(404, Text("No such student"))
    ensures Loaded(file).Ok? && studentId.Some? && HasId(Loaded(file).value, studentId.value) ==>
              var ss := Loaded(file).value;
              var k := LastIndexOf(ss, studentId.value).value;
              out == Reply(200, Record(ToDict(ss[k])))
  {
    var loaded := LoadRoster(file);
    if loaded.Err? {
      return Raised(loaded.error);
    }
    var bcit := new School(loaded.value);
    if studentId.None? {
      return Reply(400, Text("No student ID provided as argument"));
    }
    var student := bcit.GetById(studentId.value);
    if student.None? {
      out := Reply(404, Text("No such student"));
    } else {
      out := Reply(200, Record(ToDict(bcit.students[student.value])));
    }
  }

  /** POST /student: a body lacking any of the three keys raises KeyError
      (the term default is never reached); invalid values answer 400 with
      nothing saved; otherwise the student is appended, the roster saved,
      and the answer is 201. */
  method AddStudent(file: seq<Dict>, body: Dict) returns (out: Outcome, saved: Option<seq<Dict>>)
    ensures Loaded(file).Err? ==> out == Raised(Loaded(file).error) && saved.None?
    ensures Loaded(file).Ok? && !(FieldNames <= body.Keys) ==> out == Raised(KeyError) && saved.None?
    ensures Loaded(file).Ok? && FieldNames <= body.Keys && !WellFormed(Student(body["name"], body["student_id"], body["term"])) ==>
              out == Reply(400, Text("Invalid data entries")) && saved.None?
    ensures Loaded(file).Ok? && FieldNames <= body.Keys && WellFormed(Student(body["name"], body["student_id"], body["term"])) ==>
              && out == Reply(201, Text(""))
              && saved == Some(Serialized(Loaded(file).value + [Student(body["name"], body["student_id"], body["term"])]))
  {
    var loaded := LoadRoster(file);
    if loaded.Err? {
      return Raised(loaded.error), None;
    }
    var bcit := new School(loaded.value);
    var newStudent := FromEntry(body);
    if newStudent.Err? {
      if newStudent.error == KeyError {
        return Raised(KeyError), None;
      }
      return Reply(400, Text("Invalid data entries")), None;
    }
    bcit.Add(newStudent.value);
    var entries := bcit.Save();
    out, saved := Reply(201, Text("")), Some(entries);
  }

  /** PUT /student/<id>: 404 and no save when no student carries the id;
      otherwise the last such student takes the body's values for the keys
      present, without validation, the roster is saved, and the answer is 201. */
  method UpdateStudent(file: seq<Dict>, studentId: string, body: Dict) returns (out: Outcome, saved: Option<seq<Dict>>)
    ensures Loaded(file).Err? ==> out == Raised(Loaded(file).error) && saved.None?
    ensures Loaded(file).Ok? && !HasId(Loaded(file).value, studentId) ==>
              out == Reply(404, Text("No student found")) && saved.None?
    ensures Loaded(file).Ok? && HasId(Loaded(file).value, studentId) ==>
              var ss := Loaded(file).value;
              var k := LastIndexOf(ss, studentId).value;
              out == Reply(201, Text("")) && saved == Some(Serialized(ss[k := Patched(ss[k], body)]))
  {
    var loaded := LoadRoster(file);
    if loaded.Err? {
      return Raised(loaded.error), None;
    }
    var bcit := new School(loaded.value);
    var correctStudent := bcit.GetById(studentId);
    if correctStudent.None? {
      return Reply(404, Text("No student found")), None;
    }
    var k := correctStudent.value;
    var updated := ApplyUpdate(bcit.students[k], body);
    bcit.students := bcit.students[k := updated];
    var entries := bcit.Save();
    out, saved := Reply(201, Text("")), Some(entries);
  }

  /** DELETE /student/<id>: the roster is saved whatever happened; 201 when
      some student carried the id, 404 otherwise. */
  method DeleteStudent(file: seq<Dict>, studentId: string) returns (out: Outcome, saved: Option<seq<Dict>>)
    ensures Loaded(file).Err? ==> out == Raised(Loaded(file).error) && saved.None?
    ensures Loaded(file).Ok? ==> saved == Some(Serialized(Deleting(Loaded(file).value, studentId)))
    ensures Loaded(file).Ok? && HasId(Loaded(file).value, studentId) ==> out == Reply(201, Text(""))
    ensures Loaded(file).Ok? && !HasId(Loaded(file).value, studentId) ==> out == Reply(404, Text("Student not found"))
  {
    var loaded := LoadRoster(file);
    if loaded.Err? {
      return Raised(loaded.error), None;
    }
    var bcit := new School(loaded.value);
    var status := bcit.Delete(studentId);
    var entries := bcit.Save();
    saved := Some(entries);
    if status {
      out := Reply(201, Text(""));
    } else {
      out := Reply(404, Text("Student not found"));
    }
  }

  /** After a successful POST, the saved roster loads again and a GET for the
      new identifier answers the posted record. */
  lemma AddThenGet(ss: seq<Student>, body: Dict)
    requires forall i :: 0 <= i < |ss| ==> WellFormed(ss[i])
    requires FromEntry(body).Ok?
    ensures var s := FromEntry(body).value;
            && Loaded(Serialized(ss + [s])) == Ok(ss + [s])
            && s.studentId.Str?
            && LastIndexOf(ss + [s], s.studentId.s) == Some(|ss|)
            && ToDict((ss + [s])[|ss|]) == map k | k in FieldNames :: body[k]
  {
    var s := FromEntry(body).value;
    LoadAfterSave(ss + [s]);
    AddedIsFoundLast(ss, s, s.studentId.s);
  }

  /** A PUT whose values are valid keeps the saved roster loadable, holding
      the patched student in place of the old one. */
  lemma UpdateThenLoad(ss: seq<Student>, k: nat, body: Dict)
    requires forall i :: 0 <= i < |ss| ==> WellFormed(ss[i])
    requires k < |ss| && WellFormed(Patched(ss[k], body))
    ensures Loaded(Serialized(ss[k := Patched(ss[k], body)])) == Ok(ss[k := Patched(ss[k], body)])
  {
    LoadAfterSave(ss[k := Patched(ss[k], body)]);
  }

  /** A PUT that stores a term that is not an int is accepted and saved, and
      from then on every request fails to load the roster with ValueError. */
  lemma InvalidUpdatePoisonsRoster(ss: seq<Student>, k: nat, body: Dict)
    requires k < |ss| && "term" in body && !body["term"].Int?
    ensures Loaded(Serialized(ss[k := Patched(ss[k], body)])) == Err(ValueError)
  {
    var ts := ss[k := Patched(ss[k], body)];
    var data := Serialized(ts);
    assert FromEntry(data[k]) == Err(ValueError);
    var r := Loaded(data);
    assert r.Err?;
    var j :| 0 <= j < |data| && FromEntry(data[j]) == Err(r.error);
    assert FromEntry(ToDict(ts[j])) == Err(r.error);
  }

  /** A DELETE of an absent identifier answers 404 and rewrites the roster it
      loaded, unchanged. */
  lemma DeleteMissingKeepsRoster(ss: seq<Student>, studentId: string)
    requires forall i :: 0 <= i < |ss| ==> WellFormed(ss[i])
    requires !HasId(ss, studentId)
    ensures Loaded(Serialized(Deleting(ss, studentId))) == Ok(ss)
  {
    DeletingNoMatch(ss, studentId);
    LoadAfterSave(ss);
  }
}
