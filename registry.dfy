/**
 * The registry itself: `Facultate` and `SistemManagementStudenti` as
 * classes whose methods update their fields in place. The three files are
 * fields holding their lines; the operation log holds its messages.
 */
module Registry {
  import opened Wrappers
  import opened JavaText
  import opened Records
  import opened Storage

  // ------------------------------------------------------------- messages

  function CreatedMessage(name: string): string {
    "Creata facultatea " + name
  }

  function AssignedMessage(surname: string, faculty: string): string {
    "Atribuit studentul " + surname + " la facultatea " + faculty
  }

  function GraduatedMessage(surname: string, faculty: string): string {
    "Studentul " + surname + " a absolvit la facultatea " + faculty
  }

  /** What `marcheazaAbsolvireStudent` reports. */
  datatype GraduationOutcome =
    | Graduated        // the first student with that surname is marked
    | NoSuchStudent    // reported: no student of that surname in the faculty
    | NoSuchFaculty    // reported: no faculty of that name

  /**
   * The position of the first student of `roster` whose surname is
   * `surname` (exact, case-sensitive), or None when there is none.
   */
  function FirstBySurname(roster: seq<Student>, surname: string): (r: Option<nat>)
    ensures r.Some? ==> r.value < |roster| && roster[r.value].surname == surname
    ensures r.Some? ==> forall j :: 0 <= j < r.value ==> roster[j].surname != surname
    ensures r.None? <==> forall j :: 0 <= j < |roster| ==> roster[j].surname != surname
    decreases |roster|
  {
    if roster == [] then None
    else if roster[0].surname == surname then Some(0)
    else
      match FirstBySurname(roster[1..], surname)
      case None => None
      case Some(i) => Some(i + 1)
  }

  /** The search loop of `marcheazaAbsolvireStudent`: the roster in order, stopping at the first match. */
  method FindBySurname(roster: seq<Student>, surname: string) returns (r: Option<nat>)
    ensures r == FirstBySurname(roster, surname)
  {
    var i := 0;
    while i < |roster|
      invariant 0 <= i <= |roster|
      invariant forall j :: 0 <= j < i ==> roster[j].surname != surname
    {
      if roster[i].surname == surname {
        return Some(i);
      }
      i := i + 1;
    }
    return None;
  }

  // -------------------------------------------------------------- faculty

  /** `Facultate`: name, abbreviation and domain, and its roster in insertion order. */
  class Faculty {
    const name: string
    const abbreviation: string
    const domain: string
    var students: seq<Student>

    constructor (name: string, abbreviation: string, domain: string)
      ensures this.name == name && this.abbreviation == abbreviation && this.domain == domain
      ensures students == []
    {
      this.name := name;
      this.abbreviation := abbreviation;
      this.domain := domain;
      students := [];
    }

    /** The faculty as a value. */
    function Record(): FacultyRecord
      reads this
    {
      FacultyRecord(name, abbreviation, domain, students)
    }

    /** `adaugaStudent`: appends, without looking for an equal student already there. */
    method AddStudent(s: Student)
      modifies this
      ensures students == old(students) + [s]
    {
      students := students + [s];
    }

    /**
     * `salveazaStudenti`: opens the student file for appending and writes
     * one line per student, in roster order, tagged with `facultyName`; the
     * lines already in the file stay as they are.
     */
    method SaveStudents(file: seq<string>, facultyName: string) returns (updated: seq<string>)
      ensures updated == file + StudentLines(students, facultyName)
    {
      updated := file;
      for i := 0 to |students|
        invariant updated == file + StudentLines(students[..i], facultyName)
      {
        StudentLinesStep(students, facultyName, i);
        updated := updated + [StudentLine(students[i], facultyName)];
      }
      assert students[..|students|] == students;
    }
  }

  // ------------------------------------------------------------- registry

  /**
   * The name, abbreviation and domain of every faculty of `fs`, as the
   * faculty file records them (the file holds no students).
   */
  function FacultyTable(fs: map<string, Faculty>): map<string, FacultyRecord> {
    map k | k in fs :: FacultyRecord(fs[k].name, fs[k].abbreviation, fs[k].domain, [])
  }

  /** `SistemManagementStudenti`. */
  class StudentRegistry {
    var faculties: map<string, Faculty>
    var unassigned: seq<Student>
    var facultyFile: seq<string>
    var studentFile: seq<string>
    var log: seq<string>
    /** The order in which the last save of the faculty file visited the map. */
    ghost var savedOrder: seq<string>
    /** Every faculty object this registry has created. */
    ghost var Repr: set<Faculty>

    /**
     * Every faculty is filed under its own name, so no faculty object is
     * filed twice, and was created by this registry.
     */
    ghost predicate Valid()
      reads this`faculties, this`Repr
    {
      forall k :: k in faculties ==> faculties[k].name == k && faculties[k] in Repr
    }

    /** The registry's faculties and unassigned students as a value. */
    ghost function Contents(): Snapshot
      reads this`faculties, this`unassigned, faculties.Values
    {
      Snapshot(map k | k in faculties :: faculties[k].Record(), unassigned)
    }

    /**
     * When only the roster of the faculty filed under `name` has changed
     * since `old`, the snapshot changes in that faculty's entry alone.
     */
    twostate lemma RosterChanged(name: string)
      requires old(Valid()) && name in old(faculties)
      requires faculties == old(faculties) && unassigned == old(unassigned)
      requires forall k :: k in faculties && k != name ==> unchanged(faculties[k])
      ensures Contents() == old(Contents()).(faculties := old(Contents()).faculties[name := faculties[name].Record()])
    {
      forall k | k in faculties && k != name
        ensures faculties[k] != faculties[name]
      {
        assert old(faculties[k].name) == k && old(faculties[name].name) == name;
      }
    }

    /** When only the unassigned students have changed since `old`, so has the snapshot. */
    twostate lemma UnassignedChanged()
      requires faculties == old(faculties)
      requires forall k :: k in faculties ==> unchanged(faculties[k])
      ensures Contents() == old(Contents()).(unassigned := unassigned)
    {
    }

    /**
     * When `f` has been filed under its own name `name` since `old`, and
     * nothing else has changed, the snapshot gains or replaces that one entry.
     */
    twostate lemma FacultyPut(name: string, new f: Faculty)
      requires old(Valid()) && f.name == name && f in Repr && old(Repr) <= Repr
      requires faculties == old(faculties)[name := f] && unassigned == old(unassigned)
      requires forall k :: k in old(faculties) ==> unchanged(old(faculties)[k])
      ensures Valid()
      ensures Contents() == old(Contents()).(faculties := old(Contents()).faculties[name := f.Record()])
    {
      forall k | k in faculties && k != name
        ensures faculties[k] == old(faculties)[k] && faculties[k].Record() == old(faculties[k].Record())
      {
      }
    }

    /**
     * The field initialisers of the Java constructor: nothing loaded yet. The
     * operation log is opened for appending, so it keeps its earlier lines.
     */
    constructor Empty(facultyFile: seq<string>, studentFile: seq<string>, log: seq<string>)
      ensures Valid()
      ensures faculties == map[] && unassigned == [] && Repr == {}
      ensures this.facultyFile == facultyFile && this.studentFile == studentFile && this.log == log
    {
      faculties := map[];
      unassigned := [];
      this.facultyFile := facultyFile;
      this.studentFile := studentFile;
      this.log := log;
      savedOrder := [];
      Repr := {};
    }

    /**
     * The faculty loader's `facultati.put(name, new Facultate(name,
     * abbreviation, domain))`: a new, empty faculty under `name`, replacing
     * any earlier one.
     */
    method PutFaculty(name: string, abbreviation: string, domain: string)
      requires Valid()
      modifies this`faculties, this`Repr
      ensures Valid()
      ensures Contents() == old(Contents()).(faculties := old(Contents()).faculties[name := FacultyRecord(name, abbreviation, domain, [])])
      ensures name in faculties && fresh(faculties[name])
      ensures faculties == old(faculties)[name := faculties[name]] && Repr == old(Repr) + {faculties[name]}
      ensures fresh(Repr - old(Repr))
    {
      var faculty := new Faculty(name, abbreviation, domain);
      faculties := faculties[name := faculty];
      Repr := Repr + {faculty};
      FacultyPut(name, faculty);
    }

    /** What the faculty loader does with one line's reading: a three-field line puts its faculty. */
    method ApplyFacultyReading(reading: Option<FacultyFields>)
      requires Valid()
      modifies this`faculties, this`Repr
      ensures Valid()
      ensures Contents() == old(Contents()).(faculties := PutReading(old(Contents()).faculties, reading))
      ensures fresh(Repr - old(Repr))
    {
      if reading.Some? {
        PutFaculty(reading.value.name, reading.value.abbreviation, reading.value.domain);
      }
    }

    /**
     * What the student loader does with one line's reading: a student is
     * placed, a short line skipped; `false` when a malformed date stops it.
     */
    method ApplyReading(reading: StudentLineReading) returns (go: bool)
      requires Valid()
      modifies this`unassigned, faculties.Values
      ensures var step := LoadStep(old(Contents()), reading);
        go == step.complete && Contents() == step.snapshot
    {
      match reading {
        case ShortLine => return true;
        case BadDate(_) => return false;
        case Accepted(s, facultyName) => PlaceLoaded(s, facultyName); return true;
      }
    }

    /**
     * Where the student loader puts a student it has read: on the roster of
     * the faculty its line names, if that faculty is loaded, else among the
     * unassigned students.
     */
    method PlaceLoaded(s: Student, facultyName: string)
      requires Valid()
      modifies this`unassigned, faculties.Values
      ensures Contents() == PlaceStudent(old(Contents()), s, facultyName)
    {
      if facultyName in faculties {
        var faculty := faculties[facultyName];
        faculty.AddStudent(s);
        RosterChanged(facultyName);
      } else {
        unassigned := unassigned + [s];
        UnassignedChanged();
      }
    }

    /**
     * The Java constructor: loads the faculty file, then the student file.
     * A malformed birth date makes `LocalDate.parse` throw out of the
     * constructor, so no registry comes into being (None).
     */
    static method Start(facultyFile: seq<string>, studentFile: seq<string>, log: seq<string>) returns (r: Option<StudentRegistry>)
      ensures var loaded := ReadStudents(Snapshot(ReadFaculties(map[], facultyFile), []), studentFile);
        && (r.Some? <==> loaded.complete)
        && (r.Some? ==>
              && fresh(r.value) && fresh(r.value.Repr) && r.value.Valid()
              && r.value.Contents() == loaded.snapshot
              && r.value.facultyFile == facultyFile && r.value.studentFile == studentFile
              && r.value.log == log)
    {
      var registry := new StudentRegistry.Empty(facultyFile, studentFile, log);
      registry.LoadFaculties();
      assert fresh(registry.Repr);
      var ok := registry.LoadStudents();
      if ok {
        r := Some(registry);
      } else {
        r := None;
      }
    }

    /**
     * `incarcaFacultati`: each line of the faculty file with at least three
     * fields puts a new, empty faculty under its first field.
     */
    method LoadFaculties()
      requires Valid()
      modifies this`faculties, this`Repr
      ensures Valid()
      ensures Contents() == old(Contents()).(faculties := ReadFaculties(old(Contents()).faculties, facultyFile))
      ensures fresh(Repr - old(Repr))
    {
      ghost var start := Contents().faculties;
      ghost var initial := Repr;
      var lines := facultyFile;
      ghost var readings := FacultyReadings(lines);
      var i := 0;
      while i < |lines|
        invariant 0 <= i <= |lines|
        invariant Valid()
        invariant Contents().faculties == LoadFacultyReadings(start, readings[..i])
        invariant fresh(Repr - initial)
      {
        LoadFacultyReadingsStep(start, readings, i);
        ApplyFacultyReading(ReadFacultyLine(lines[i]));
        i := i + 1;
      }
      assert readings[..i] == readings;
    }

    /**
     * `incarcaStudenti`: each line of the student file with at least six
     * fields becomes a student, appended to the faculty its sixth field
     * names if that faculty is loaded, else to the unassigned students;
     * shorter lines are reported and skipped. A malformed birth date stops
     * the load (false).
     */
    method LoadStudents() returns (ok: bool)
      requires Valid()
      modifies this`unassigned, faculties.Values
      ensures var loaded := ReadStudents(old(Contents()), studentFile);
        ok == loaded.complete && Contents() == loaded.snapshot
    {
      ghost var start := Contents();
      var lines := studentFile;
      var readings := Readings(lines);
      var i := 0;
      while i < |lines|
        invariant 0 <= i <= |lines|
        invariant LoadReadings(start, readings[..i]).complete
        invariant Contents() == LoadReadings(start, readings[..i]).snapshot
      {
        LoadReadingsStep(start, readings, i);
        var go := ApplyReading(readings[i]);
        if !go {
          LoadStops(start, readings, i + 1);
          return false;
        }
        i := i + 1;
      }
      assert readings[..i] == readings;
      return true;
    }

    /**
     * `creeazaFacultate`: puts a new, empty faculty under `name`, replacing
     * (and so emptying) any faculty of that name, rewrites the whole faculty
     * file from the map, and logs the creation.
     */
    method CreateFaculty(name: string, abbreviation: string, domain: string)
      requires Valid()
      modifies this`faculties, this`Repr, this`facultyFile, this`savedOrder, this`log
      ensures Valid()
      ensures Contents() == old(Contents()).(faculties := old(Contents()).faculties[name := FacultyRecord(name, abbreviation, domain, [])])
      ensures name in faculties && fresh(faculties[name])
      ensures faculties == old(faculties)[name := faculties[name]] && Repr == old(Repr) + {faculties[name]}
      ensures IsEnumeration(savedOrder, faculties.Keys) && facultyFile == FacultyLines(FacultyTable(faculties), savedOrder)
      ensures log == old(log) + [CreatedMessage(name)]
    {
      var faculty := new Faculty(name, abbreviation, domain);
      faculties := faculties[name := faculty];
      Repr := Repr + {faculty};
      ghost var order;
      facultyFile, order := SaveFaculties();
      savedOrder := order;
      log := log + [CreatedMessage(name)];
      FacultyPut(name, faculty);
    }

    /**
     * `salveazaFacultati`: overwrites the faculty file with one
     * `name,abbreviation,domain` line per faculty, in the map's iteration
     * order, which Java leaves unspecified (any enumeration of the names).
     */
    method SaveFaculties() returns (lines: seq<string>, ghost order: seq<string>)
      ensures IsEnumeration(order, faculties.Keys) && lines == FacultyLines(FacultyTable(faculties), order)
    {
      lines := [];
      order := [];
      var remaining := faculties.Keys;
      while remaining != {}
        invariant remaining <= faculties.Keys
        invariant forall i :: 0 <= i < |order| ==> order[i] in faculties && order[i] !in remaining
        invariant forall i, j :: 0 <= i < j < |order| ==> order[i] != order[j]
        invariant forall k :: k in faculties ==> k in remaining || k in order
        invariant lines == FacultyLines(FacultyTable(faculties), order)
        decreases |remaining|
      {
        var k :| k in remaining;
        var faculty := faculties[k];
        assert (order + [k])[..|order|] == order;
        lines := lines + [FacultyLine(faculty.name, faculty.abbreviation, faculty.domain)];
        order := order + [k];
        remaining := remaining - {k};
      }
    }

    /**
     * `adaugaStudentLaFacultate`: does nothing at all when no faculty has
     * that name; otherwise appends the student to the faculty, appends the
     * faculty's whole roster (not only the new student) to the student file,
     * and logs the assignment.
     */
    method AssignStudent(facultyName: string, s: Student)
      requires Valid()
      modifies this`studentFile, this`log, faculties.Values
      ensures facultyName !in old(faculties) ==>
        Contents() == old(Contents()) && studentFile == old(studentFile) && log == old(log)
      ensures facultyName in old(faculties) ==>
        var before := old(faculties[facultyName].Record());
        var after := before.(students := before.students + [s]);
        && Contents() == old(Contents()).(faculties := old(Contents()).faculties[facultyName := after])
        && studentFile == old(studentFile) + StudentLines(after.students, facultyName)
        && log == old(log) + [AssignedMessage(s.surname, facultyName)]
    {
      if facultyName in faculties {
        var faculty := faculties[facultyName];
        faculty.AddStudent(s);
        studentFile := faculty.SaveStudents(studentFile, facultyName);
        log := log + [AssignedMessage(s.surname, facultyName)];
        RosterChanged(facultyName);
      }
    }

    /**
     * `marcheazaAbsolvireStudent`: in the named faculty, marks the first
     * student with that surname as graduated, appends the faculty's whole
     * roster to the student file and logs it; later students with the same
     * surname are left alone. A missing faculty or surname changes nothing
     * and is only reported.
     */
    method MarkGraduated(facultyName: string, surname: string) returns (outcome: GraduationOutcome)
      requires Valid()
      modifies this`studentFile, this`log, faculties.Values
      ensures outcome == NoSuchFaculty <==> facultyName !in old(faculties)
      ensures outcome == NoSuchStudent <==>
        facultyName in old(faculties) && FirstBySurname(old(faculties[facultyName].students), surname).None?
      ensures outcome != Graduated ==>
        Contents() == old(Contents()) && studentFile == old(studentFile) && log == old(log)
      ensures outcome == Graduated ==>
        && facultyName in old(faculties)
        && var before := old(faculties[facultyName].Record());
           var found := FirstBySurname(before.students, surname);
           && found.Some?
           && var roster := before.students[found.value := WithGraduated(before.students[found.value], true)];
              && Contents() == old(Contents()).(faculties := old(Contents()).faculties[facultyName := before.(students := roster)])
              && studentFile == old(studentFile) + StudentLines(roster, facultyName)
              && log == old(log) + [GraduatedMessage(surname, facultyName)]
    {
      if facultyName in faculties {
        var faculty := faculties[facultyName];
        var found := FindBySurname(faculty.students, surname);
        if found.None? {
          return NoSuchStudent;
        }
        var i := found.value;
        faculty.students := faculty.students[i := WithGraduated(faculty.students[i], true)];
        studentFile := faculty.SaveStudents(studentFile, facultyName);
        log := log + [GraduatedMessage(surname, facultyName)];
        RosterChanged(facultyName);
        return Graduated;
      }
      return NoSuchFaculty;
    }
  }
}
