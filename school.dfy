/** The roster of one school: an ordered, mutable list of students with
    linear-scan lookups, append, delete-while-iterating, and the load and
    save conversions between the list and the persisted entries
    (models/school.py). */
module Schools {
  import opened Json
  import opened Students

  /** Some student in `ss` carries identifier `id`. */
  predicate HasId(ss: seq<Student>, id: string)
  {
    exists j :: 0 <= j < |ss| && ss[j].studentId == Str(id)
  }

  /** The position of the last student carrying `id`, if any. */
  function LastIndexOf(ss: seq<Student>, id: string): (r: Option<nat>)
    ensures r.None? <==> !HasId(ss, id)
    ensures r.Some? ==> r.value < |ss| && ss[r.value].studentId == Str(id)
    ensures r.Some? ==> forall j :: r.value < j < |ss| ==> ss[j].studentId != Str(id)
    decreases |ss|
  {
    if ss == [] then None
    else if ss[|ss| - 1].studentId == Str(id) then Some(|ss| - 1)
    else
      var r := LastIndexOf(ss[..|ss| - 1], id);
      assert forall j :: 0 <= j < |ss| - 1 ==> ss[..|ss| - 1][j] == ss[j];
      r
  }

  /** The students named `name`, in roster order. */
  function WithName(ss: seq<Student>, name: string): (r: seq<Student>)
    ensures forall s :: multiset(r)[s] == if s.name == Str(name) then multiset(ss)[s] else 0
    ensures r == [] <==> forall j :: 0 <= j < |ss| ==> ss[j].name != Str(name)
    decreases |ss|
  {
    if ss == [] then []
    else
      var n := |ss| - 1;
      assert ss == ss[..n] + [ss[n]];
      assert forall j :: 0 <= j < n ==> ss[..n][j] == ss[j];
      if ss[n].name == Str(name) then WithName(ss[..n], name) + [ss[n]]
      else WithName(ss[..n], name)
  }

  /** One step of the `get_by_name` scan: the student at `i` joins the
      matches exactly when it has the name. */
  lemma WithNameStep(ss: seq<Student>, i: nat, name: string)
    requires i < |ss|
    ensures WithName(ss[..i + 1], name)
            == WithName(ss[..i], name) + (if ss[i].name == Str(name) then [ss[i]] else [])
  {
    assert ss[..i + 1][..i] == ss[..i];
    assert ss[..i + 1][i] == ss[i];
  }

  /** What `delete` leaves behind. Removing the matching element at the
      iterator's position shifts its successor into that position, and the
      iterator then moves past it: the successor is kept unexamined. */
  function Deleting(ss: seq<Student>, id: string): (r: seq<Student>)
    ensures |r| <= |ss|
    decreases |ss|
  {
    if ss == [] then []
    else if ss[0].studentId == Str(id) then
      if |ss| == 1 then [] else [ss[1]] + Deleting(ss[2..], id)
    else [ss[0]] + Deleting(ss[1..], id)
  }

  /** The students not carrying `id`, in order: a reference for what a
      correct delete keeps. */
  function Without(ss: seq<Student>, id: string): (r: seq<Student>)
    ensures forall j :: 0 <= j < |r| ==> r[j].studentId != Str(id)
    decreases |ss|
  {
    if ss == [] then []
    else if ss[0].studentId == Str(id) then Without(ss[1..], id)
    else [ss[0]] + Without(ss[1..], id)
  }

  /** The entries `save` writes: one `to_dict` per student, in order. */
  function Serialized(ss: seq<Student>): seq<Dict>
  {
    seq(|ss|, i requires 0 <= i < |ss| => ToDict(ss[i]))
  }

  /** The list `School.__init__` builds from the decoded entries, or the
      exception of the first entry that fails. */
  function Loaded(data: seq<Dict>): (r: Result<seq<Student>>)
    ensures r.Ok? <==> forall i :: 0 <= i < |data| ==> FromEntry(data[i]).Ok?
    ensures r.Ok? ==> |r.value| == |data|
    ensures r.Ok? ==> forall i :: 0 <= i < |data| ==> FromEntry(data[i]) == Ok(r.value[i])
    ensures r.Ok? ==> forall i :: 0 <= i < |r.value| ==> WellFormed(r.value[i])
    ensures r.Err? ==> exists k :: 0 <= k < |data| && FromEntry(data[k]) == Err(r.error)
                                   && forall j :: 0 <= j < k ==> FromEntry(data[j]).Ok?
    decreases |data|
  {
    if data == [] then Ok([])
    else
      var n := |data| - 1;
      assert forall j :: 0 <= j < n ==> data[..n][j] == data[j];
      match Loaded(data[..n])
      case Err(e) => Err(e)
      case Ok(ss) =>
        match FromEntry(data[n])
        case Err(e) => Err(e)
        case Ok(s) => Ok(ss + [s])
  }

  /** The load loop of `School.__init__`, without opening and decoding the
      file: one Student per entry, in order; any failing entry aborts. */
  method LoadRoster(data: seq<Dict>) returns (r: Result<seq<Student>>)
    ensures r == Loaded(data)
  {
    var roster := [];
    var i := 0;
    while i < |data|
      invariant 0 <= i <= |data|
      invariant Loaded(data[..i]) == Ok(roster)
      invariant forall j :: 0 <= j < i ==> FromEntry(data[j]).Ok?
    {
      assert data[..i + 1][..i] == data[..i];
      var s := FromEntry(data[i]);
      if s.Err? {
        // the entry at i is the first to fail, so it decides the exception
        var k :| 0 <= k < |data| && FromEntry(data[k]) == Err(Loaded(data).error)
                 && forall j :: 0 <= j < k ==> FromEntry(data[j]).Ok?;
        assert k == i;
        return Err(s.error);
      }
      roster := roster + [s.value];
      i := i + 1;
    }
    assert data[..i] == data;
    r := Ok(roster);
  }

  /** One step of `delete` over a matching element at position `i`: after
      the removal and the iterator's advance, the examined prefix and the
      rest still make up the same final list. */
  lemma RemoveAtStep(ss: seq<Student>, i: nat, id: string)
    requires i < |ss| && ss[i].studentId == Str(id)
    ensures var t := ss[..i] + ss[i + 1..];
            && (i + 1 <= |t| ==> t[..i + 1] + Deleting(t[i + 1..], id) == ss[..i] + Deleting(ss[i..], id))
            && (i + 1 > |t| ==> t == ss[..i] + Deleting(ss[i..], id))
  {
    var t := ss[..i] + ss[i + 1..];
    assert ss[i..][0] == ss[i];
    if i + 1 < |ss| {
      assert ss[i..][1] == ss[i + 1];
      assert ss[i..][2..] == ss[i + 2..];
      assert t[..i + 1] == ss[..i] + [ss[i + 1]];
      assert t[i + 1..] == ss[i + 2..];
    } else {
      assert |ss[i..]| == 1;
      assert t == ss[..i];
    }
  }

  /** One step of `delete` over a non-matching element: it stays. */
  lemma KeepAtStep(ss: seq<Student>, i: nat, id: string)
    requires i < |ss| && ss[i].studentId != Str(id)
    ensures ss[..i + 1] + Deleting(ss[i + 1..], id) == ss[..i] + Deleting(ss[i..], id)
  {
    assert ss[i..][0] == ss[i];
    assert ss[i..][1..] == ss[i + 1..];
    assert ss[..i + 1] == ss[..i] + [ss[i]];
  }

  class School {
    var students: seq<Student>

    /** The loaded roster; the school's name is stored but never used. */
    constructor (roster: seq<Student>)
      ensures students == roster
    {
      students := roster;
    }

    /** `len(school)`: as many as the entries `save` writes. */
    function Length(): (n: nat)
      reads this
      ensures n == |Serialized(students)|
    {
      |students|
    }

    /** `get_by_id`: the scan overwrites its answer at every match, so the
        last match wins; no match is None. The answer is the position of
        that student, which stands for the object reference returned. */
    method GetById(id: string) returns (r: Option<nat>)
      ensures r == LastIndexOf(students, id)
    {
      r := None;
      var i := 0;
      while i < |students|
        invariant 0 <= i <= |students|
        invariant r == LastIndexOf(students[..i], id)
      {
        assert students[..i + 1][..i] == students[..i];
        if students[i].studentId == Str(id) {
          r := Some(i);
        }
        i := i + 1;
      }
      assert students[..i] == students;
    }

    /** `get_by_name`: the matching students in roster order. */
    method GetByName(name: string) returns (matches: seq<Student>)
      ensures matches == WithName(students, name)
    {
      var ss := students;
      matches := [];
      var i := 0;
      while i < |ss|
        invariant 0 <= i <= |ss|
        invariant matches == WithName(ss[..i], name)
      {
        WithNameStep(ss, i, name);
        if ss[i].name == Str(name) {
          matches := matches + [ss[i]];
        }
        i := i + 1;
      }
      assert ss[..i] == ss;
    }

    /** `add`: append, with no check for a duplicate identifier. */
    method Add(s: Student)
      modifies this
      ensures students == old(students) + [s]
    {
      students := students + [s];
    }

    /** `delete`: the for-loop's hidden index `i` walks the list while
        `remove` takes the matching element out from under it. */
    method Delete(id: string) returns (deleted: bool)
      modifies this
      ensures students == Deleting(old(students), id)
      ensures deleted <==> HasId(old(students), id)
    {
      deleted := false;
      var i := 0;
      while i < |students|
        invariant i <= |students| + 1
        invariant i <= |students| ==> students[..i] + Deleting(students[i..], id) == Deleting(old(students), id)
        invariant i == |students| + 1 ==> students == Deleting(old(students), id)
        invariant !deleted ==> students == old(students) && i <= |students|
        invariant !deleted ==> forall j :: 0 <= j < i ==> students[j].studentId != Str(id)
        invariant deleted ==> HasId(old(students), id)
      {
        if students[i].studentId == Str(id) {
          RemoveAtStep(students, i, id);
          students := students[..i] + students[i + 1..];
          deleted := true;
        } else {
          KeepAtStep(students, i, id);
        }
        i := i + 1;
      }
      if i == |students| {
        assert students[..i] == students;
      }
    }

    /** The serialisation loop of `save`, without writing the file. */
    method Save() returns (entries: seq<Dict>)
      ensures entries == Serialized(students)
    {
      entries := [];
      var i := 0;
      while i < |students|
        invariant 0 <= i <= |students|
        invariant |entries| == i
        invariant forall j :: 0 <= j < i ==> entries[j] == ToDict(students[j])
      {
        entries := entries + [ToDict(students[i])];
        i := i + 1;
      }
    }
  }

  /** Saving valid students and loading the result gives them back, in order. */
  lemma LoadAfterSave(ss: seq<Student>)
    requires forall i :: 0 <= i < |ss| ==> WellFormed(ss[i])
    ensures Loaded(Serialized(ss)) == Ok(ss)
  {
    var data := Serialized(ss);
    assert forall i :: 0 <= i < |data| ==> FromEntry(data[i]) == Ok(ss[i]);
    var r := Loaded(data);
    assert r.Ok?;
    assert r.value == ss;
  }

  /** Loading entries that carry exactly the three keys and saving again
      writes the same entries. */
  lemma SaveAfterLoad(data: seq<Dict>)
    requires Loaded(data).Ok?
    requires forall i :: 0 <= i < |data| ==> data[i].Keys == FieldNames
    ensures Serialized(Loaded(data).value) == data
  {
    var ss := Loaded(data).value;
    forall i | 0 <= i < |data|
      ensures Serialized(ss)[i] == data[i]
    {
      EntryRoundTrip(data[i]);
    }
  }

  /** A student added last is the one `get_by_id` finds for its identifier. */
  lemma AddedIsFoundLast(ss: seq<Student>, s: Student, id: string)
    requires s.studentId == Str(id)
    ensures LastIndexOf(ss + [s], id) == Some(|ss|)
  {
  }

  /** The name filter distributes over concatenation, so it keeps roster order. */
  lemma {:induction false} WithNameAppend(a: seq<Student>, b: seq<Student>, name: string)
    ensures WithName(a + b, name) == WithName(a, name) + WithName(b, name)
    decreases |b|
  {
    if b != [] {
      var n := |b| - 1;
      assert (a + b)[..|a + b| - 1] == a + b[..n];
      assert (a + b)[|a + b| - 1] == b[n];
      WithNameAppend(a, b[..n], name);
      if b[n].name == Str(name) {
        calc {
          WithName(a + b, name);
          WithName(a + b[..n], name) + [b[n]];
          WithName(a, name) + WithName(b[..n], name) + [b[n]];
          WithName(a, name) + (WithName(b[..n], name) + [b[n]]);
        }
      }
    } else {
      assert a + b == a;
    }
  }

  /** With no student carrying `id`, delete leaves the list as it was. */
  lemma {:induction false} DeletingNoMatch(ss: seq<Student>, id: string)
    requires !HasId(ss, id)
    ensures Deleting(ss, id) == ss
    decreases |ss|
  {
    if ss != [] {
      assert !HasId(ss[1..], id) by {
        forall j | 0 <= j < |ss| - 1 ensures ss[1..][j].studentId != Str(id) {
          assert ss[1..][j] == ss[j + 1];
        }
      }
      DeletingNoMatch(ss[1..], id);
      assert ss == [ss[0]] + ss[1..];
    }
  }

  /** Delete removes nothing but students carrying `id`: every other
      student survives, and in its original order. */
  lemma {:induction false} DeletingKeepsOthers(ss: seq<Student>, id: string)
    ensures Without(Deleting(ss, id), id) == Without(ss, id)
    decreases |ss|
  {
    if ss == [] {
    } else if ss[0].studentId == Str(id) {
      if |ss| > 1 {
        var rest := Deleting(ss[2..], id);
        DeletingKeepsOthers(ss[2..], id);
        assert ([ss[1]] + rest)[1..] == rest;
        assert ss[1..][1..] == ss[2..];
      }
    } else {
      var rest := Deleting(ss[1..], id);
      DeletingKeepsOthers(ss[1..], id);
      assert ([ss[0]] + rest)[1..] == rest;
    }
  }

  /** Delete only takes elements out: the survivors are a sub-multiset. */
  lemma {:induction false} DeletingShrinks(ss: seq<Student>, id: string)
    ensures multiset(Deleting(ss, id)) <= multiset(ss)
    decreases |ss|
  {
    if ss == [] {
    } else if ss[0].studentId == Str(id) {
      if |ss| > 1 {
        DeletingShrinks(ss[2..], id);
        assert ss == [ss[0]] + ([ss[1]] + ss[2..]);
        assert multiset(ss) == multiset{ss[0]} + multiset{ss[1]} + multiset(ss[2..]);
        assert multiset(Deleting(ss, id)) == multiset{ss[1]} + multiset(Deleting(ss[2..], id));
      }
    } else {
      DeletingShrinks(ss[1..], id);
      assert ss == [ss[0]] + ss[1..];
    }
  }

  /** The first student carrying `id` is always removed: everything before it
      is untouched and its successor moves into its place. */
  lemma {:induction false} DeletingFirstMatch(ss: seq<Student>, id: string, k: nat)
    requires k < |ss| && ss[k].studentId == Str(id)
    requires forall j :: 0 <= j < k ==> ss[j].studentId != Str(id)
    ensures k <= |Deleting(ss, id)| < |ss|
    ensures k + 1 < |ss| ==> k < |Deleting(ss, id)|
    ensures Deleting(ss, id)[..k] == ss[..k]
    ensures k + 1 < |ss| ==> Deleting(ss, id)[k] == ss[k + 1]
    decreases k
  {
    if k > 0 {
      assert ss[1..][k - 1] == ss[k];
      DeletingFirstMatch(ss[1..], id, k - 1);
      assert ss[..k] == [ss[0]] + ss[1..][..k - 1];
    }
  }

  /** The student right after each removed one is never examined, so a run
      of two or more adjacent students with the id always leaves at least
      one of them on the roster. */
  lemma {:induction false} AdjacentDuplicateSurvives(ss: seq<Student>, id: string, k: nat)
    requires k + 1 < |ss| && ss[k].studentId == Str(id) && ss[k + 1].studentId == Str(id)
    ensures HasId(Deleting(ss, id), id)
    decreases k
  {
    if ss[0].studentId == Str(id) {
      var rest := Deleting(ss[2..], id);
      assert Deleting(ss, id) == [ss[1]] + rest;
      if k <= 1 {
        assert Deleting(ss, id)[0] == ss[1];
      } else {
        assert ss[2..][k - 2] == ss[k] && ss[2..][k - 1] == ss[k + 1];
        AdjacentDuplicateSurvives(ss[2..], id, k - 2);
        var j :| 0 <= j < |rest| && rest[j].studentId == Str(id);
        assert Deleting(ss, id)[j + 1] == rest[j];
      }
    } else {
      var rest := Deleting(ss[1..], id);
      assert Deleting(ss, id) == [ss[0]] + rest;
      assert ss[1..][k - 1] == ss[k] && ss[1..][k] == ss[k + 1];
      AdjacentDuplicateSurvives(ss[1..], id, k - 1);
      var j :| 0 <= j < |rest| && rest[j].studentId == Str(id);
      assert Deleting(ss, id)[j + 1] == rest[j];
    }
  }

  /** `a` is `b` with some elements taken out, the rest in their order. */
  predicate IsSubsequence<T(==)>(a: seq<T>, b: seq<T>)
    decreases |b|
  {
    a == [] ||
    (b != [] && ((a[0] == b[0] && IsSubsequence(a[1..], b[1..])) || IsSubsequence(a, b[1..])))
  }

  /** Delete only takes students out: every survivor, with the id or
      without, keeps its order relative to the others. */
  lemma {:induction false} DeletingIsSubsequence(ss: seq<Student>, id: string)
    ensures IsSubsequence(Deleting(ss, id), ss)
    decreases |ss|
  {
    if ss == [] {
    } else if ss[0].studentId == Str(id) {
      if |ss| > 1 {
        var rest := Deleting(ss[2..], id);
        DeletingIsSubsequence(ss[2..], id);
        var d := [ss[1]] + rest;
        assert d[0] == ss[1..][0] && d[1..] == rest && ss[1..][1..] == ss[2..];
        assert IsSubsequence(d, ss[1..]);
      }
    } else {
      var rest := Deleting(ss[1..], id);
      DeletingIsSubsequence(ss[1..], id);
      assert ([ss[0]] + rest)[1..] == rest;
    }
  }
}
