# Student registry

A model of the student registry in `Main.java`, written in Dafny. The registry (`SistemManagementStudenti`) keeps two things in memory:

- faculties (`Facultate`), keyed by name, each with a roster of students (`Student`);
- a list of students whose faculty is unknown.

It persists them in two comma-delimited text files: the faculty file and the student file. The model covers:

- the two loaders that run when the registry is constructed;
- faculty creation, which rewrites the faculty file;
- assigning a student and marking a graduation, each of which appends the faculty's whole roster to the student file.

The files are modules, in dependency order:

- `wrappers.dfy` (`Wrappers`): the `Option` type.
- `text.dfy` (`JavaText`): joining fields with commas, and Java's `String.split(",")`. That call splits at every comma and drops trailing empty pieces. A text with no comma comes back whole.
- `records.dfy` (`Records`):
  - the student value;
  - the ISO date text that `LocalDate` prints and parses, checked against the calendar;
  - `Boolean.parseBoolean`;
  - the two line formats;
  - how the loaders read one line, and the round trips from line to fields.
- `storage.dfy` (`Storage`): the loaders and savers as pure functions over the lines of a file, with lemmas about them:
  - how far a student load goes;
  - which container each accepted line lands in;
  - loading a concatenation;
  - which faculty definition wins;
  - save-then-reload;
  - the duplicate rows.
- `registry.dfy` (`Registry`): `Facultate` and `SistemManagementStudenti` as classes whose methods update their fields in place. Each method is proved against the `Storage` functions.

The faculty file and the student file are `seq<string>` fields of the registry, holding their lines. The operation log is a third such field. It starts with whatever the log file already held, because Java opens the log in append mode, and each logged operation adds its message text.

Where the code's behaviour may surprise, the model follows the code:

- `parseBoolean` accepts "true" in any letter case.
- A line counts as having three (or six) fields only after `split` has dropped its trailing empty pieces. So `A,B,` has two fields.
- A birth date that does not parse throws out of the constructor. No registry is built, rather than the line being skipped.
- Adding a student does not check for duplicates. Every save appends the whole roster of one faculty. A second save therefore repeats every earlier student's line, and reloading the file puts those students into the faculty twice. `SecondSaveDuplicates` proves this.

## Model

| member | source | states |
|---|---|---|
| JavaText.Split | Main.java:127 | A text with no comma splits into itself. Otherwise it splits into the pieces between commas, minus trailing empty pieces. No piece holds a comma. |
| JavaText.SplitJoin | Main.java:127-134 | Splitting the comma-join of at least two comma-free fields whose last field is non-empty gives back exactly those fields. |
| Records.ParseDate | Main.java:132 | A text parses as a date exactly when it is a valid `YYYY-MM-DD` calendar day. The parsed date prints back as the same text. |
| Records.ParseBoolean | Main.java:133 | Only a four-letter text can be true. "true", "TRUE" and "True" are true. "false" and the empty text are false. |
| Records.BoolText | Main.java:46 | The printed flag is non-empty and comma-free, and `parseBoolean` reads it back as the same boolean. |
| Records.NewStudent | Main.java:13-19 | A new student carries the four given fields and is not graduated. |
| Records.WithGraduated | Main.java:41-43 | Setting the flag changes the flag alone. |
| Records.StudentLine | Main.java:45-47 | `toFileLine` is the comma-join of surname, given name, email, date, flag and faculty, in that order. Its reload is `StudentLineRoundTrip`. |
| Records.StudentLineSplit | Main.java:45-47 | A student line with no comma or line break in any field and a non-empty faculty splits into surname, given name, email, date, flag and faculty, in that order. |
| Records.StudentLineRoundTrip | Main.java:45-47 | Such a line is read by the student loader as the same student, for the same faculty. |
| Records.ReadStudentLine | Main.java:127-136 | Fewer than six fields is a short line. Six or more with a bad field 3 stops the load. Otherwise fields 0-5 give surname, given name, email, date, `parseBoolean` of field 4, and faculty. |
| Records.ReadFacultyLine | Main.java:112-116 | A line defines a faculty exactly when it has at least three fields, which are the name, abbreviation and domain. |
| Records.FacultyLine | Main.java:235 | The faculty line is the comma-join of name, abbreviation and domain. Its reload is `FacultyLineRoundTrip`. |
| Records.FacultyLineRoundTrip | Main.java:235 | A faculty line with no comma or line break in any field and a non-empty domain reads back as the same three fields. |
| Storage.StudentLines | Main.java:83-86 | A roster save writes one line per student. `StudentLinesAt` gives the content of each line, and `SavedRosterReloads` its reload. |
| Storage.StudentLinesAt | Main.java:83-86 | The lines a roster save writes are one `toFileLine` per student, in roster order. |
| Storage.PlaceStudent | Main.java:137-141 | An accepted student goes to the end of the named faculty's roster if that faculty exists, leaving the unassigned list alone. Otherwise it goes to the end of the unassigned list, leaving the faculties alone. No faculty is added or dropped. |
| Storage.ReadStudents | Main.java:123-147 | The student load adds or drops no faculty. `ReadStudentsComplete`, `ReadStudentsStops`, `ReadStudentsPartition` and `ReadStudentsAppend` give what it does with each line. |
| Storage.ReadStudentsComplete | Main.java:132 | The student load reads the whole file exactly when no line has six fields and a bad date. |
| Storage.ReadStudentsStops | Main.java:132 | Once the load stops at a bad date, later lines change nothing. |
| Storage.ReadStudentsPartition | Main.java:137-141 | After a complete load, each faculty's roster has gained, in file order, the accepted students naming it. The unassigned list has gained those naming no known faculty. No faculty was added or dropped. |
| Storage.ReadStudentsAppend | Main.java:124-126 | Loading `a` followed by `b` loads `a`, then loads `b` from where `a` ended. |
| Storage.SavedRosterReloads | Main.java:81-88 | Loading the lines of one roster save appends the whole roster, unchanged, to that faculty. |
| Storage.SecondSaveDuplicates | Main.java:159-170 | Reloading two successive saves of a roster, with one student added between them, gives that faculty every earlier student twice. |
| Storage.ReadFacultiesLastWins | Main.java:117 | The last line that defines a name decides that faculty: its own abbreviation and domain, and an empty roster. |
| Storage.ReadFacultiesUntouched | Main.java:111-118 | A name that no line defines keeps its earlier entry, or stays absent. Short lines define nothing. |
| Storage.ReadFaculties | Main.java:108-121 | The faculty load keeps every name it started with. `ReadFacultiesLastWins` and `ReadFacultiesUntouched` give the entry under each name. |
| Storage.FacultyLines | Main.java:232-239 | The faculty file has one line per name visited. `FacultyLinesAt` gives the content of each line, and `FacultyFileReloads` its reload. |
| Storage.FacultyLinesAt | Main.java:234-237 | Line `i` of the faculty file is `name,abbreviation,domain` of the `i`-th faculty visited. |
| Storage.FacultyFileReloads | Main.java:232-239 | Reloading a saved faculty file gives back every faculty with its fields and an empty roster, whatever the iteration order was. |
| Registry.FirstBySurname | Main.java:176-177 | It returns the index of a student with that surname that has no earlier match. It is None exactly when no student matches. |
| Registry.FindBySurname | Main.java:176-187 | The search loop stops at the first student with that surname. |
| Registry.Faculty.constructor | Main.java:56-61 | A new faculty has the given fields and an empty roster. |
| Registry.Faculty.AddStudent | Main.java:63-65 | The roster becomes the old roster followed by the student, with no dedup. |
| Registry.Faculty.SaveStudents | Main.java:81-88 | The new file is the old file followed by one line per roster student, in order. |
| Registry.StudentRegistry.Empty | Main.java:96-98 | Nothing is loaded yet: no faculties and no unassigned students. The files, and the log with its earlier lines, are as given. |
| Registry.StudentRegistry.Start | Main.java:96-106 | A registry exists exactly when the student load is complete. It then holds the student load applied to the faculty load of its files, and the log as it was. The registry and every faculty object it holds are new, so the caller may go on to change them. |
| Registry.StudentRegistry.PutFaculty | Main.java:117 | A fresh, empty faculty is put under the name, replacing any other. Nothing else changes. |
| Registry.StudentRegistry.LoadFaculties | Main.java:108-121 | The loop leaves exactly the faculty load of the faculty file. |
| Registry.StudentRegistry.ApplyFacultyReading | Main.java:112-118 | A reading from a line with at least three fields puts its faculty. A line with fewer fields changes nothing. |
| Registry.StudentRegistry.ApplyReading | Main.java:128-144 | One reading places a student, skips a short line, or stops the load at a bad date. |
| Registry.StudentRegistry.PlaceLoaded | Main.java:137-141 | The student goes to the roster of the named faculty if it is loaded, else to the unassigned list. |
| Registry.StudentRegistry.LoadStudents | Main.java:123-147 | The loop leaves exactly the student load of the student file. It reports whether that load was complete. |
| Registry.StudentRegistry.CreateFaculty | Main.java:149-157 | The name now holds a fresh, empty faculty and the other entries are unchanged. The faculty file is one line per faculty, each name once, in some order. One creation message is logged. |
| Registry.StudentRegistry.SaveFaculties | Main.java:232-239 | The lines are `name,abbreviation,domain` of each faculty, visiting every name exactly once. |
| Registry.StudentRegistry.AssignStudent | Main.java:159-170 | A missing faculty changes nothing. Otherwise the roster gains the student at the end, the file gains the whole new roster, and one message is logged. |
| Registry.StudentRegistry.MarkGraduated | Main.java:172-192 | A missing faculty or surname changes nothing and says which one was missing. Otherwise only the first match is graduated, the file gains the whole roster, and one message is logged. |

## Left out

- The interactive menu and the `Scanner` input (Main.java:241-303): console I/O only.
- `afiseazaStudenti`, `afiseazaFacultati` and `afiseazaStudentiFacultate` (Main.java:71-75, 194-212): they only print.
- The console messages for short lines, a missing faculty and a missing student: the model returns or records the distinction but prints nothing.
- Line structure of the files: a file is the sequence of lines `readLine` returns. A save is assumed to land on fresh lines, which holds when the existing file ends in a line break. When it does not, Java's append glues the first new line onto the last old one. A field holding a line break is excluded by `Storable` and `FacultyStorable`, because it would be read back as two lines.
- Real files, readers and writers, and every `IOException` path, including its console message. Each file is a sequence of lines that always exists. So the case where the constructor finds no faculty file, and then skips the student load and leaves the log writer unset, is not modelled.
- `inchideLog`, and the `LocalDateTime.now()` timestamp on each log line (Main.java:214-230): resource and clock handling. The log holds the messages only. The log is an input to `Start`, so lines from earlier runs are kept after it is opened for appending.
- Aliasing of `Student` objects: students are values. `setAbsolvit` on a student shared between two lists would change both in Java. In the model it changes only the roster entry that `marcheazaAbsolvireStudent` found. Every student of the core is created by the loader or passed in once, so no path of the core shares one.
- `HashMap` iteration order: `SaveFaculties` picks the names in an unspecified order. Its contract says only that the order is an enumeration of the names.
- Records.ParseDate: accepts years 0000 to 9999 only. The signed years beyond that, which `LocalDate.parse` also reads, are not modelled.
- Records.ParseBoolean: its contract names sample inputs. The full rule, "true" in ASCII letter case only, is its definition. Unicode case folding is not modelled.
- Registry.StudentRegistry.Start: a bad date is modelled as an absent registry. The exception object and the state of the half-built registry are not modelled.
