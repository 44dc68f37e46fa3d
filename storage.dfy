/**
 * The persistence adapters as functions: what the two loaders build from
 * the lines of a file, and which lines the two savers write. The registry
 * methods are proved against these definitions.
 */
module Storage {
  import opened Wrappers
  import opened JavaText
  import opened Records

  /** The value a `Facultate` holds. */
  datatype FacultyRecord = FacultyRecord(
    name: string,
    abbreviation: string,
    domain: string,
    students: seq<Student>)

  /** The registry's in-memory data: faculties by name and the unassigned students. */
  datatype Snapshot = Snapshot(faculties: map<string, FacultyRecord>, unassigned: seq<Student>)

  // ---------------------------------------------------------- student file

  /** The lines `salveazaStudenti` appends: one per student, in roster order. */
  function StudentLines(roster: seq<Student>, faculty: string): (r: seq<string>)
    ensures |r| == |roster|
    decreases |roster|
  {
    if roster == [] then []
    else StudentLines(roster[..|roster| - 1], faculty) + [StudentLine(roster[|roster| - 1], faculty)]
  }

  /** Saving one student more writes one line more. */
  lemma StudentLinesStep(roster: seq<Student>, faculty: string, i: nat)
    requires i < |roster|
    ensures StudentLines(roster[..i + 1], faculty) == StudentLines(roster[..i], faculty) + [StudentLine(roster[i], faculty)]
  {
    assert roster[..i + 1][..i] == roster[..i];
  }

  /** Line `i` of a saved roster is the line of its `i`-th student. */
  lemma {:induction false} StudentLinesAt(roster: seq<Student>, faculty: string)
    ensures forall i :: 0 <= i < |roster| ==> StudentLines(roster, faculty)[i] == StudentLine(roster[i], faculty)
    decreases |roster|
  {
    if roster != [] {
      StudentLinesAt(roster[..|roster| - 1], faculty);
    }
  }

  /** Where the student loader puts one accepted student: its faculty's roster, else the unassigned list. */
  function PlaceStudent(c: Snapshot, s: Student, faculty: string): (r: Snapshot)
    ensures r.faculties.Keys == c.faculties.Keys
    ensures faculty in c.faculties ==>
      && r.unassigned == c.unassigned
      && r.faculties[faculty] == c.faculties[faculty].(students := c.faculties[faculty].students + [s])
    ensures faculty !in c.faculties ==> r.faculties == c.faculties && r.unassigned == c.unassigned + [s]
  {
    if faculty in c.faculties then
      var f := c.faculties[faculty];
      c.(faculties := c.faculties[faculty := f.(students := f.students + [s])])
    else
      c.(unassigned := c.unassigned + [s])
  }

  /** What the student loader leaves behind, and whether it read every line. */
  datatype Loaded = Loaded(snapshot: Snapshot, complete: bool)

  /** How the student loader reads each line of a file. */
  function Readings(lines: seq<string>): (r: seq<StudentLineReading>)
    ensures |r| == |lines|
    ensures forall i :: 0 <= i < |lines| ==> r[i] == ReadStudentLine(lines[i])
  {
    seq(|lines|, i requires 0 <= i < |lines| => ReadStudentLine(lines[i]))
  }

  /** What one reading does to a load that has not stopped. */
  function LoadStep(c: Snapshot, r: StudentLineReading): Loaded {
    match r
    case Accepted(s, faculty) => Loaded(PlaceStudent(c, s, faculty), true)
    case ShortLine => Loaded(c, true)
    case BadDate(_) => Loaded(c, false)
  }

  /**
   * The student loader over line readings, in order: accepted students are
   * placed, short lines skipped, and a malformed date stops the load where
   * it is.
   */
  function LoadReadings(c: Snapshot, rs: seq<StudentLineReading>): Loaded
    decreases |rs|
  {
    if rs == [] then Loaded(c, true)
    else
      var prev := LoadReadings(c, rs[..|rs| - 1]);
      if !prev.complete then prev else LoadStep(prev.snapshot, rs[|rs| - 1])
  }

  /** One more reading: the load so far, followed by what that reading does. */
  lemma LoadReadingsStep(c: Snapshot, rs: seq<StudentLineReading>, i: nat)
    requires i < |rs|
    ensures var prev := LoadReadings(c, rs[..i]);
      LoadReadings(c, rs[..i + 1]) == if !prev.complete then prev else LoadStep(prev.snapshot, rs[i])
  {
    assert rs[..i + 1][..i] == rs[..i];
  }

  /** The student load never adds or drops a faculty. */
  lemma {:induction false} LoadKeepsFaculties(c: Snapshot, rs: seq<StudentLineReading>)
    ensures LoadReadings(c, rs).snapshot.faculties.Keys == c.faculties.Keys
    decreases |rs|
  {
    if rs != [] {
      LoadKeepsFaculties(c, rs[..|rs| - 1]);
    }
  }

  /** `incarcaStudenti` over the lines of the student file: it adds or drops no faculty. */
  function ReadStudents(c: Snapshot, lines: seq<string>): (r: Loaded)
    ensures r.snapshot.faculties.Keys == c.faculties.Keys
  {
    LoadKeepsFaculties(c, Readings(lines));
    LoadReadings(c, Readings(lines))
  }

  /** The accepted readings, in file order. */
  function AcceptedRows(rs: seq<StudentLineReading>): (r: seq<StudentLineReading>)
    ensures forall i :: 0 <= i < |r| ==> r[i].Accepted?
    decreases |rs|
  {
    if rs == [] then []
    else AcceptedRows(rs[..|rs| - 1]) + (if rs[|rs| - 1].Accepted? then [rs[|rs| - 1]] else [])
  }

  /** The students of `rows` whose faculty field is `faculty`, in order. */
  function StudentsFor(rows: seq<StudentLineReading>, faculty: string): seq<Student>
    requires forall i :: 0 <= i < |rows| ==> rows[i].Accepted?
    decreases |rows|
  {
    if rows == [] then []
    else
      var last := rows[|rows| - 1];
      StudentsFor(rows[..|rows| - 1], faculty) + (if last.faculty == faculty then [last.student] else [])
  }

  /** The students of `rows` whose faculty field names none of `known`, in order. */
  function StudentsOutside(rows: seq<StudentLineReading>, known: set<string>): seq<Student>
    requires forall i :: 0 <= i < |rows| ==> rows[i].Accepted?
    decreases |rows|
  {
    if rows == [] then []
    else
      var last := rows[|rows| - 1];
      StudentsOutside(rows[..|rows| - 1], known) + (if last.faculty !in known then [last.student] else [])
  }

  /** Once the load has stopped at a malformed date, later readings change nothing. */
  lemma {:induction false} LoadStops(c: Snapshot, rs: seq<StudentLineReading>, i: nat)
    requires i <= |rs|
    requires !LoadReadings(c, rs[..i]).complete
    ensures LoadReadings(c, rs) == LoadReadings(c, rs[..i])
    decreases |rs|
  {
    if i < |rs| {
      assert rs[..|rs| - 1][..i] == rs[..i];
      LoadStops(c, rs[..|rs| - 1], i);
    } else {
      assert rs[..i] == rs;
    }
  }

  /** Once the student load has stopped at a malformed date, later lines change nothing. */
  lemma ReadStudentsStops(c: Snapshot, lines: seq<string>, i: nat)
    requires i <= |lines|
    requires !ReadStudents(c, lines[..i]).complete
    ensures ReadStudents(c, lines) == ReadStudents(c, lines[..i])
  {
    assert Readings(lines[..i]) == Readings(lines)[..i];
    LoadStops(c, Readings(lines), i);
  }

  lemma {:induction false} LoadComplete(c: Snapshot, rs: seq<StudentLineReading>)
    ensures LoadReadings(c, rs).complete <==> forall i :: 0 <= i < |rs| ==> !rs[i].BadDate?
    decreases |rs|
  {
    if rs != [] {
      var init := rs[..|rs| - 1];
      LoadComplete(c, init);
      assert forall i :: 0 <= i < |init| ==> init[i] == rs[i];
    }
  }

  /** The student load reads the whole file exactly when no line has a malformed date. */
  lemma ReadStudentsComplete(c: Snapshot, lines: seq<string>)
    ensures ReadStudents(c, lines).complete
        <==> forall i :: 0 <= i < |lines| ==> !ReadStudentLine(lines[i]).BadDate?
  {
    LoadComplete(c, Readings(lines));
  }

  lemma {:induction false} LoadPartition(c: Snapshot, rs: seq<StudentLineReading>)
    ensures var r := LoadReadings(c, rs);
      r.complete ==>
        && r.snapshot.faculties.Keys == c.faculties.Keys
        && (forall k :: k in c.faculties ==>
              r.snapshot.faculties[k]
                == c.faculties[k].(students := c.faculties[k].students + StudentsFor(AcceptedRows(rs), k)))
        && r.snapshot.unassigned
             == c.unassigned + StudentsOutside(AcceptedRows(rs), c.faculties.Keys)
    decreases |rs|
  {
    if rs != [] {
      var init := rs[..|rs| - 1];
      LoadPartition(c, init);
      var prev := LoadReadings(c, init);
      var rows := AcceptedRows(init);
      var reading := rs[|rs| - 1];
      if prev.complete && reading.Accepted? {
        var all := AcceptedRows(rs);
        assert all == rows + [reading];
        assert all[..|all| - 1] == rows;
        forall k | k in c.faculties
          ensures StudentsFor(all, k)
               == StudentsFor(rows, k) + (if reading.faculty == k then [reading.student] else [])
        {
        }
        assert StudentsOutside(all, c.faculties.Keys)
            == StudentsOutside(rows, c.faculties.Keys)
               + (if reading.faculty !in c.faculties.Keys then [reading.student] else []);
      } else if prev.complete {
        assert AcceptedRows(rs) == rows;
      }
    }
  }

  /**
   * Each accepted line lands in exactly one container: a complete load
   * appends to each faculty's roster the students whose faculty field names
   * it and to the unassigned list those naming no known faculty, in file
   * order; no faculty is added, dropped or renamed.
   */
  lemma ReadStudentsPartition(c: Snapshot, lines: seq<string>)
    ensures var r := ReadStudents(c, lines);
      var rows := AcceptedRows(Readings(lines));
      r.complete ==>
        && r.snapshot.faculties.Keys == c.faculties.Keys
        && (forall k :: k in c.faculties ==>
              r.snapshot.faculties[k]
                == c.faculties[k].(students := c.faculties[k].students + StudentsFor(rows, k)))
        && r.snapshot.unassigned == c.unassigned + StudentsOutside(rows, c.faculties.Keys)
  {
    LoadPartition(c, Readings(lines));
  }

  lemma {:induction false} LoadAppend(c: Snapshot, a: seq<StudentLineReading>, b: seq<StudentLineReading>)
    ensures LoadReadings(c, a + b)
         == if LoadReadings(c, a).complete then LoadReadings(LoadReadings(c, a).snapshot, b)
            else LoadReadings(c, a)
    decreases |b|
  {
    if b == [] {
      assert a + b == a;
    } else {
      assert (a + b)[..|a + b| - 1] == a + b[..|b| - 1];
      assert (a + b)[|a + b| - 1] == b[|b| - 1];
      LoadAppend(c, a, b[..|b| - 1]);
    }
  }

  /** The readings of two files one after the other are the readings of each. */
  lemma ReadingsAppend(a: seq<string>, b: seq<string>)
    ensures Readings(a + b) == Readings(a) + Readings(b)
  {
    var ra, rb := Readings(a), Readings(b);
    forall i | 0 <= i < |a + b| ensures Readings(a + b)[i] == (ra + rb)[i] {
      if i < |a| {
        assert (a + b)[i] == a[i];
      } else {
        assert (a + b)[i] == b[i - |a|];
      }
    }
  }

  /** Loading a file that is `a` followed by `b` loads `a`, then `b` from where `a` left off. */
  lemma ReadStudentsAppend(c: Snapshot, a: seq<string>, b: seq<string>)
    ensures ReadStudents(c, a + b)
         == if ReadStudents(c, a).complete then ReadStudents(ReadStudents(c, a).snapshot, b)
            else ReadStudents(c, a)
  {
    ReadingsAppend(a, b);
    LoadAppend(c, Readings(a), Readings(b));
  }

  /** The readings of a saved roster: every student, accepted for the faculty. */
  function Placements(roster: seq<Student>, faculty: string): seq<StudentLineReading> {
    seq(|roster|, i requires 0 <= i < |roster| => Accepted(roster[i], faculty))
  }

  lemma {:induction false} LoadPlacements(c: Snapshot, roster: seq<Student>, faculty: string)
    requires faculty in c.faculties
    ensures var f := c.faculties[faculty];
      LoadReadings(c, Placements(roster, faculty))
        == Loaded(c.(faculties := c.faculties[faculty := f.(students := f.students + roster)]), true)
    decreases |roster|
  {
    var f := c.faculties[faculty];
    if roster == [] {
      assert f.students + roster == f.students;
      assert c.faculties[faculty := f] == c.faculties;
    } else {
      var init := roster[..|roster| - 1];
      LoadPlacements(c, init, faculty);
      var ps := Placements(roster, faculty);
      assert ps[..|ps| - 1] == Placements(init, faculty);
      var s := roster[|roster| - 1];
      assert ps[|ps| - 1] == Accepted(s, faculty);
      var mid := c.(faculties := c.faculties[faculty := f.(students := f.students + init)]);
      assert LoadReadings(c, ps) == Loaded(PlaceStudent(mid, s, faculty), true);
      assert init + [s] == roster;
      assert f.students + init + [s] == f.students + roster;
      assert PlaceStudent(mid, s, faculty).faculties
          == c.faculties[faculty := f.(students := f.students + roster)];
    }
  }

  /**
   * What one save of a roster writes reads back: loading those lines into a
   * registry that knows the faculty appends the whole roster to it.
   */
  lemma SavedRosterReloads(c: Snapshot, roster: seq<Student>, faculty: string)
    requires faculty in c.faculties
    requires forall i :: 0 <= i < |roster| ==> Storable(roster[i], faculty)
    ensures var f := c.faculties[faculty];
      ReadStudents(c, StudentLines(roster, faculty))
        == Loaded(c.(faculties := c.faculties[faculty := f.(students := f.students + roster)]), true)
  {
    var lines := StudentLines(roster, faculty);
    StudentLinesAt(roster, faculty);
    forall i | 0 <= i < |roster| ensures Readings(lines)[i] == Placements(roster, faculty)[i] {
      StudentLineRoundTrip(roster[i], faculty);
    }
    assert Readings(lines) == Placements(roster, faculty);
    LoadPlacements(c, roster, faculty);
  }

  lemma AllStorableAppend(roster: seq<Student>, s: Student, faculty: string)
    requires forall i :: 0 <= i < |roster| ==> Storable(roster[i], faculty)
    requires Storable(s, faculty)
    ensures forall i :: 0 <= i < |roster + [s]| ==> Storable((roster + [s])[i], faculty)
  {
    forall i | 0 <= i < |roster + [s]| ensures Storable((roster + [s])[i], faculty) {
      if i < |roster| { assert (roster + [s])[i] == roster[i]; }
    }
  }

  /**
   * The duplicate rows: when a faculty's roster is saved, a student added
   * and the roster saved again, reloading both saves puts every earlier
   * student into the faculty twice.
   */
  lemma SecondSaveDuplicates(c: Snapshot, roster: seq<Student>, s: Student, faculty: string)
    requires faculty in c.faculties
    requires forall i :: 0 <= i < |roster| ==> Storable(roster[i], faculty)
    requires Storable(s, faculty)
    ensures var r := ReadStudents(c, StudentLines(roster, faculty) + StudentLines(roster + [s], faculty));
      && r.complete
      && faculty in r.snapshot.faculties
      && r.snapshot.faculties[faculty].students
           == c.faculties[faculty].students + roster + roster + [s]
  {
    var f := c.faculties[faculty];
    var once := c.(faculties := c.faculties[faculty := f.(students := f.students + roster)]);
    var first, second := StudentLines(roster, faculty), StudentLines(roster + [s], faculty);
    SavedRosterReloads(c, roster, faculty);
    assert ReadStudents(c, first) == Loaded(once, true);
    ReadStudentsAppend(c, first, second);
    assert ReadStudents(c, first + second) == ReadStudents(once, second);
    AllStorableAppend(roster, s, faculty);
    SavedRosterReloads(once, roster + [s], faculty);
    var g := once.faculties[faculty];
    assert g.students == f.students + roster;
    assert ReadStudents(once, second).snapshot.faculties[faculty].students == g.students + (roster + [s]);
    assert f.students + roster + (roster + [s]) == f.students + roster + roster + [s];
  }

  // ---------------------------------------------------------- faculty file

  /** A faculty as the loader or a creation makes it: no students yet. */
  function NewFaculty(fields: FacultyFields): FacultyRecord {
    FacultyRecord(fields.name, fields.abbreviation, fields.domain, [])
  }

  /** How the faculty loader reads each line of a file. */
  function FacultyReadings(lines: seq<string>): (r: seq<Option<FacultyFields>>)
    ensures |r| == |lines|
    ensures forall i :: 0 <= i < |lines| ==> r[i] == ReadFacultyLine(lines[i])
  {
    seq(|lines|, i requires 0 <= i < |lines| => ReadFacultyLine(lines[i]))
  }

  /** What one reading does to the faculties loaded so far. */
  function PutReading(m: map<string, FacultyRecord>, r: Option<FacultyFields>): map<string, FacultyRecord> {
    match r
    case None => m
    case Some(fields) => m[fields.name := NewFaculty(fields)]
  }

  /**
   * The faculty loader over line readings, in order: each three-field line
   * puts a new, empty faculty under its first field, replacing any earlier
   * one; shorter lines are ignored.
   */
  function LoadFacultyReadings(m: map<string, FacultyRecord>, rs: seq<Option<FacultyFields>>): map<string, FacultyRecord>
    decreases |rs|
  {
    if rs == [] then m
    else
      PutReading(LoadFacultyReadings(m, rs[..|rs| - 1]), rs[|rs| - 1])
  }

  /** One more reading: the load so far, followed by what that reading does. */
  lemma LoadFacultyReadingsStep(m: map<string, FacultyRecord>, rs: seq<Option<FacultyFields>>, i: nat)
    requires i < |rs|
    ensures LoadFacultyReadings(m, rs[..i + 1]) == PutReading(LoadFacultyReadings(m, rs[..i]), rs[i])
  {
    assert rs[..i + 1][..i] == rs[..i];
  }

  /** The faculty load replaces entries but never drops one. */
  lemma {:induction false} LoadFacultiesKeeps(m: map<string, FacultyRecord>, rs: seq<Option<FacultyFields>>)
    ensures m.Keys <= LoadFacultyReadings(m, rs).Keys
    decreases |rs|
  {
    if rs != [] {
      LoadFacultiesKeeps(m, rs[..|rs| - 1]);
    }
  }

  /** `incarcaFacultati` over the lines of the faculty file: it keeps every name it started with. */
  function ReadFaculties(m: map<string, FacultyRecord>, lines: seq<string>): (r: map<string, FacultyRecord>)
    ensures m.Keys <= r.Keys
  {
    LoadFacultiesKeeps(m, FacultyReadings(lines));
    LoadFacultyReadings(m, FacultyReadings(lines))
  }

  /** True when a reading defines the faculty `name`. */
  predicate Defines(r: Option<FacultyFields>, name: string) {
    r.Some? && r.value.name == name
  }

  lemma {:induction false} LoadFacultiesLastWins(m: map<string, FacultyRecord>, rs: seq<Option<FacultyFields>>, j: nat)
    requires j < |rs| && rs[j].Some?
    requires forall i :: j < i < |rs| ==> !Defines(rs[i], rs[j].value.name)
    ensures var r := LoadFacultyReadings(m, rs);
      rs[j].value.name in r && r[rs[j].value.name] == NewFaculty(rs[j].value)
    decreases |rs|
  {
    if j < |rs| - 1 {
      var init := rs[..|rs| - 1];
      assert init[j] == rs[j];
      assert !Defines(rs[|rs| - 1], rs[j].value.name);
      LoadFacultiesLastWins(m, init, j);
    }
  }

  /**
   * The last line defining a name wins: it alone decides that faculty, with
   * the abbreviation and domain of that line and no students.
   */
  lemma ReadFacultiesLastWins(m: map<string, FacultyRecord>, lines: seq<string>, j: nat)
    requires j < |lines| && ReadFacultyLine(lines[j]).Some?
    requires forall i :: j < i < |lines| ==> !Defines(ReadFacultyLine(lines[i]), ReadFacultyLine(lines[j]).value.name)
    ensures var fields := ReadFacultyLine(lines[j]).value;
      var r := ReadFaculties(m, lines);
      fields.name in r && r[fields.name] == NewFaculty(fields)
  {
    LoadFacultiesLastWins(m, FacultyReadings(lines), j);
  }

  lemma {:induction false} LoadFacultiesUntouched(m: map<string, FacultyRecord>, rs: seq<Option<FacultyFields>>, name: string)
    requires forall i :: 0 <= i < |rs| ==> !Defines(rs[i], name)
    ensures var r := LoadFacultyReadings(m, rs);
      (name in r <==> name in m) && (name in m ==> r[name] == m[name])
    decreases |rs|
  {
    if rs != [] {
      var init := rs[..|rs| - 1];
      assert forall i :: 0 <= i < |init| ==> init[i] == rs[i];
      assert !Defines(rs[|rs| - 1], name);
      LoadFacultiesUntouched(m, init, name);
    }
  }

  /**
   * A name no line defines (short lines define nothing) keeps the entry it
   * had before the load, or stays absent.
   */
  lemma ReadFacultiesUntouched(m: map<string, FacultyRecord>, lines: seq<string>, name: string)
    requires forall i :: 0 <= i < |lines| ==> !Defines(ReadFacultyLine(lines[i]), name)
    ensures var r := ReadFaculties(m, lines);
      (name in r <==> name in m) && (name in m ==> r[name] == m[name])
  {
    LoadFacultiesUntouched(m, FacultyReadings(lines), name);
  }

  /** True when `order` lists every element of `keys` exactly once. */
  predicate IsEnumeration(order: seq<string>, keys: set<string>) {
    && (forall i, j :: 0 <= i < j < |order| ==> order[i] != order[j])
    && (forall i :: 0 <= i < |order| ==> order[i] in keys)
    && (forall k :: k in keys ==> k in order)
  }

  /** The lines `salveazaFacultati` writes, one per faculty, visiting the names in `order`. */
  function FacultyLines(m: map<string, FacultyRecord>, order: seq<string>): (r: seq<string>)
    requires forall i :: 0 <= i < |order| ==> order[i] in m
    ensures |r| == |order|
    decreases |order|
  {
    if order == [] then []
    else
      var f := m[order[|order| - 1]];
      FacultyLines(m, order[..|order| - 1]) + [FacultyLine(f.name, f.abbreviation, f.domain)]
  }

  /** Line `i` of a saved faculty file is the line of the `i`-th faculty visited. */
  lemma {:induction false} FacultyLinesAt(m: map<string, FacultyRecord>, order: seq<string>)
    requires forall i :: 0 <= i < |order| ==> order[i] in m
    ensures forall i :: 0 <= i < |order| ==>
      FacultyLines(m, order)[i] == FacultyLine(m[order[i]].name, m[order[i]].abbreviation, m[order[i]].domain)
    decreases |order|
  {
    if order != [] {
      FacultyLinesAt(m, order[..|order| - 1]);
    }
  }

  /** The faculties of `m` as a reload of the faculty file makes them: with no students. */
  function Emptied(m: map<string, FacultyRecord>): map<string, FacultyRecord> {
    map k | k in m :: m[k].(students := [])
  }

  /** True when every faculty is filed under its own name and its line reads back. */
  predicate FacultiesStorable(m: map<string, FacultyRecord>) {
    forall k :: k in m ==> m[k].name == k && FacultyStorable(m[k].name, m[k].abbreviation, m[k].domain)
  }

  /** The readings of a saved faculty file: each visited faculty's three fields. */
  function SavedFields(m: map<string, FacultyRecord>, order: seq<string>): seq<Option<FacultyFields>>
    requires forall i :: 0 <= i < |order| ==> order[i] in m
  {
    seq(|order|, i requires 0 <= i < |order| && order[i] in m =>
      Some(FacultyFields(m[order[i]].name, m[order[i]].abbreviation, m[order[i]].domain)))
  }

  lemma {:induction false} LoadSavedFields(m: map<string, FacultyRecord>, order: seq<string>)
    requires forall k :: k in m ==> m[k].name == k
    requires forall i :: 0 <= i < |order| ==> order[i] in m
    requires forall i, j :: 0 <= i < j < |order| ==> order[i] != order[j]
    ensures LoadFacultyReadings(map[], SavedFields(m, order)) == map k | k in order :: m[k].(students := [])
    decreases |order|
  {
    if order != [] {
      var init := order[..|order| - 1];
      var k := order[|order| - 1];
      LoadSavedFields(m, init);
      var rs := SavedFields(m, order);
      assert rs[..|rs| - 1] == SavedFields(m, init);
      var want := map k' | k' in order :: m[k'].(students := []);
      var got := (map k' | k' in init :: m[k'].(students := []))[k := m[k].(students := [])];
      forall k' ensures k' in got <==> k' in want {
        if k' in order && k' != k {
          var i :| 0 <= i < |order| && order[i] == k';
          assert init[i] == k';
        }
      }
      assert got == want;
    }
  }

  lemma EmptiedInOrder(m: map<string, FacultyRecord>, order: seq<string>)
    requires IsEnumeration(order, m.Keys)
    ensures (map k | k in order :: m[k].(students := [])) == Emptied(m)
  {
    assert forall k :: k in order <==> k in m;
  }

  /** Every line of a saved faculty file reads back as the fields it was written from. */
  lemma SavedFacultyReadings(m: map<string, FacultyRecord>, order: seq<string>)
    requires FacultiesStorable(m)
    requires forall i :: 0 <= i < |order| ==> order[i] in m
    ensures ReadFaculties(map[], FacultyLines(m, order)) == LoadFacultyReadings(map[], SavedFields(m, order))
  {
    var lines := FacultyLines(m, order);
    var want := SavedFields(m, order);
    FacultyLinesAt(m, order);
    forall i | 0 <= i < |order|
      ensures ReadFacultyLine(lines[i]) == want[i]
    {
      var f := m[order[i]];
      FacultyLineRoundTrip(f.name, f.abbreviation, f.domain);
    }
    assert FacultyReadings(lines) == want;
  }

  /**
   * Saving the faculties and loading the file again gives back every
   * faculty, under its name, with its abbreviation and domain, whatever
   * order the map was visited in: the students are not in this file.
   */
  lemma FacultyFileReloads(m: map<string, FacultyRecord>, order: seq<string>)
    requires FacultiesStorable(m)
    requires IsEnumeration(order, m.Keys)
    ensures ReadFaculties(map[], FacultyLines(m, order)) == Emptied(m)
  {
    SavedFacultyReadings(m, order);
    LoadSavedFields(m, order);
    EmptiedInOrder(m, order);
  }
}
