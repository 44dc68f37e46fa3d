/**
 * The student record and the two line formats of the persistence files:
 * `surname,givenName,email,birthDate,graduated,faculty` for a student and
 * `name,abbreviation,domain` for a faculty.
 */
module Records {
  import opened Wrappers
  import opened JavaText

  // ---------------------------------------------------------------- dates

  predicate IsDigit(c: char) { '0' <= c <= '9' }

  function DigitValue(c: char): nat
    requires IsDigit(c)
  {
    (c as int) - ('0' as int)
  }

  /** Leap years of the proleptic Gregorian calendar (ISO 8601). */
  predicate IsLeapYear(year: nat) {
    year % 4 == 0 && (year % 100 != 0 || year % 400 == 0)
  }

  function DaysInMonth(year: nat, month: nat): nat
    requires 1 <= month <= 12
  {
    if month == 2 then (if IsLeapYear(year) then 29 else 28)
    else if month == 4 || month == 6 || month == 9 || month == 11 then 30
    else 31
  }

  /**
   * `YYYY-MM-DD` naming a real calendar day: the text that the ISO local
   * date format parses strictly and that a date prints as, for the years
   * 0000 to 9999.
   */
  predicate IsIsoDate(s: string) {
    && |s| == 10
    && s[4] == '-' && s[7] == '-'
    && IsDigit(s[0]) && IsDigit(s[1]) && IsDigit(s[2]) && IsDigit(s[3])
    && IsDigit(s[5]) && IsDigit(s[6]) && IsDigit(s[8]) && IsDigit(s[9])
    && var year := 1000 * DigitValue(s[0]) + 100 * DigitValue(s[1]) + 10 * DigitValue(s[2]) + DigitValue(s[3]);
       var month := 10 * DigitValue(s[5]) + DigitValue(s[6]);
       var day := 10 * DigitValue(s[8]) + DigitValue(s[9]);
       1 <= month <= 12 && 1 <= day <= DaysInMonth(year, month)
  }

  /** A birth date, held as its canonical ISO text. */
  type IsoDate = s: string | IsIsoDate(s) witness "2000-01-01"

  /**
   * `LocalDate.parse`: the date a text names, or None where Java throws a
   * parse exception. A parsed date prints back as the text it came from.
   */
  function ParseDate(s: string): (r: Option<IsoDate>)
    ensures r.Some? <==> IsIsoDate(s)
    ensures r.Some? ==> r.value == s
  {
    if IsIsoDate(s) then Some(s) else None
  }

  // ------------------------------------------------------------- booleans

  function AsciiLower(c: char): char {
    if 'A' <= c <= 'Z' then (c as int + 32) as char else c
  }

  predicate EqualsIgnoreCase(a: string, b: string) {
    |a| == |b| && forall i :: 0 <= i < |a| ==> AsciiLower(a[i]) == AsciiLower(b[i])
  }

  /** `Boolean.parseBoolean`: true exactly for "true" in any letter case. */
  function ParseBoolean(s: string): (b: bool)
    ensures b ==> |s| == 4
    ensures s == "true" || s == "TRUE" || s == "True" ==> b
    ensures s == "false" || s == "" ==> !b
  {
    EqualsIgnoreCase(s, "true")
  }

  /** `String.valueOf(boolean)`, which `parseBoolean` reads back. */
  function BoolText(b: bool): (t: string)
    ensures ParseBoolean(t) == b
    ensures t != "" && CommaFree(t)
  {
    if b then "true" else "false"
  }

  // -------------------------------------------------------------- student

  /** A student: four identity fields and the graduation flag. */
  datatype Student = Student(
    surname: string,
    givenName: string,
    email: string,
    birthDate: IsoDate,
    graduated: bool)

  /** A new student, not yet graduated. */
  function NewStudent(surname: string, givenName: string, email: string, birthDate: IsoDate): (s: Student)
    ensures s.surname == surname && s.givenName == givenName
    ensures s.email == email && s.birthDate == birthDate
    ensures !s.graduated
  {
    Student(surname, givenName, email, birthDate, false)
  }

  /** `setAbsolvit`: the same student with the flag set to `graduated`. */
  function WithGraduated(s: Student, graduated: bool): (r: Student)
    ensures r.graduated == graduated
    ensures r.surname == s.surname && r.givenName == s.givenName
    ensures r.email == s.email && r.birthDate == s.birthDate
  {
    s.(graduated := graduated)
  }

  /** The six fields of a student line, in file order. */
  function StudentFields(s: Student, faculty: string): seq<string> {
    [s.surname, s.givenName, s.email, s.birthDate, BoolText(s.graduated), faculty]
  }

  /**
   * `toFileLine`: the student's line in the student file, the comma-join of
   * surname, given name, email, birth date, flag and faculty name.
   */
  function StudentLine(s: Student, faculty: string): (r: string)
    ensures r == Join(StudentFields(s, faculty))
  {
    JoinSix(s.surname, s.givenName, s.email, s.birthDate, BoolText(s.graduated), faculty);
    s.surname + "," + s.givenName + "," + s.email + "," + s.birthDate + ","
      + BoolText(s.graduated) + "," + faculty
  }

  /**
   * A student line reads back unchanged when no field holds a comma (the
   * format has no escaping) or a line terminator (the reader would cut the
   * line there), and the faculty name, the last field, is not empty (split
   * would drop it).
   */
  predicate Storable(s: Student, faculty: string) {
    && CommaFree(s.surname) && CommaFree(s.givenName) && CommaFree(s.email)
    && CommaFree(faculty) && faculty != ""
    && SingleLine(s.surname) && SingleLine(s.givenName) && SingleLine(s.email)
    && SingleLine(faculty)
  }

  /** An ISO date text holds no comma. */
  lemma IsoDateCommaFree(d: IsoDate)
    ensures CommaFree(d)
  {
    forall i | 0 <= i < |d| ensures d[i] != ',' {
      assert i == 4 || i == 7 || IsDigit(d[i]);
    }
  }

  /** Splitting a storable student's line yields its six fields. */
  lemma StudentLineSplit(s: Student, faculty: string)
    requires Storable(s, faculty)
    ensures Split(StudentLine(s, faculty)) == StudentFields(s, faculty)
  {
    IsoDateCommaFree(s.birthDate);
    SplitJoin(StudentFields(s, faculty));
  }

  /** How the student loader treats one line. */
  datatype StudentLineReading =
    | Accepted(student: Student, faculty: string)  // six fields or more
    | ShortLine                                     // reported and skipped
    | BadDate(text: string)                         // parse exception, load aborts

  /**
   * One line of the student file as `incarcaStudenti` reads it: fewer than
   * six fields is a short line; otherwise fields 0 to 5 give surname, given
   * name, email, birth date, graduation flag and faculty name, and a field 3
   * that is not a date aborts the load.
   */
  function ReadStudentLine(line: string): (r: StudentLineReading)
    ensures r.ShortLine? <==> |Split(line)| < 6
    ensures r.BadDate? <==> |Split(line)| >= 6 && !IsIsoDate(Split(line)[3])
    ensures r.Accepted? ==>
      var p := Split(line);
      && r.student.surname == p[0] && r.student.givenName == p[1]
      && r.student.email == p[2] && r.student.birthDate == p[3]
      && r.student.graduated == ParseBoolean(p[4]) && r.faculty == p[5]
  {
    var parts := Split(line);
    if |parts| >= 6 then
      match ParseDate(parts[3])
      case None => BadDate(parts[3])
      case Some(date) =>
        var s := WithGraduated(NewStudent(parts[0], parts[1], parts[2], date), ParseBoolean(parts[4]));
        Accepted(s, parts[5])
    else ShortLine
  }

  /** A storable student's line reads back as the same student and faculty. */
  lemma StudentLineRoundTrip(s: Student, faculty: string)
    requires Storable(s, faculty)
    ensures ReadStudentLine(StudentLine(s, faculty)) == Accepted(s, faculty)
  {
    StudentLineSplit(s, faculty);
  }

  // -------------------------------------------------------------- faculty

  /** The line `salveazaFacultati` writes for one faculty: the comma-join of its three fields. */
  function FacultyLine(name: string, abbreviation: string, domain: string): (r: string)
    ensures r == Join([name, abbreviation, domain])
  {
    JoinThree(name, abbreviation, domain);
    name + "," + abbreviation + "," + domain
  }

  /** The three fields the faculty loader takes from a line. */
  datatype FacultyFields = FacultyFields(name: string, abbreviation: string, domain: string)

  /**
   * One line of the faculty file as `incarcaFacultati` reads it: at least
   * three fields give name, abbreviation and domain; shorter lines are
   * ignored.
   */
  function ReadFacultyLine(line: string): (r: Option<FacultyFields>)
    ensures r.Some? <==> |Split(line)| >= 3
    ensures r.Some? ==> r.value == FacultyFields(Split(line)[0], Split(line)[1], Split(line)[2])
  {
    var parts := Split(line);
    if |parts| >= 3 then Some(FacultyFields(parts[0], parts[1], parts[2])) else None
  }

  /**
   * A faculty line reads back when no field holds a comma or a line
   * terminator and the domain is not empty.
   */
  predicate FacultyStorable(name: string, abbreviation: string, domain: string) {
    && CommaFree(name) && CommaFree(abbreviation) && CommaFree(domain) && domain != ""
    && SingleLine(name) && SingleLine(abbreviation) && SingleLine(domain)
  }

  /** A storable faculty's line reads back as the same three fields. */
  lemma FacultyLineRoundTrip(name: string, abbreviation: string, domain: string)
    requires FacultyStorable(name, abbreviation, domain)
    ensures ReadFacultyLine(FacultyLine(name, abbreviation, domain))
         == Some(FacultyFields(name, abbreviation, domain))
  {
    SplitJoin([name, abbreviation, domain]);
  }
}
