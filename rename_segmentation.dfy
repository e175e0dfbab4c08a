/**
  `rename_segmentation_files.py`: copy each subject's `T1*` and `aseg*`
  FreeSurfer files into one directory beside the project root, renamed by
  the subject's age in months. The file system is given as values: whether
  the participants file exists, its rows, whether the FreeSurfer directory
  exists, and for each of its entries whether it has an `mri` directory and
  which files that directory lists.
*/
module RenameSegmentation {
  import opened Results
  import opened Decimal
  import opened Paths

  /** An entry of `<root>/derivatives/freesurfer`, as the file system shows it. */
  datatype Subject = Subject(
    id: string,              // the entry's name, used as the participant id
    hasMriDirectory: bool,   // whether `<entry>/mri` is a directory
    fileNames: seq<string>)  // what `<entry>/mri` lists, in listing order

  /** What the script does for one file or one subject. */
  datatype Event =
    | Copied(subject: string, source: string, destination: string)
    | NotFound(subject: string)   // the subject has no row in the participants file

  /** The errors the script does not catch. */
  datatype Failure =
    | EmptyParticipantsFile        // the participants file has no header row
    | ShortRow(row: nat)           // data row `row` lacks the id or the age cell
    | NotAnInteger(age: string)    // `int(age)` rejects the recorded age
    | MissingFreesurferDirectory   // `os.listdir` finds no `<root>/derivatives/freesurfer`

  /** How a run of the script ends. */
  datatype Outcome =
    | Usage                                                          // fewer than two arguments
    | MissingParticipantsFile(destination: string)
    | MissingColumn(destination: string, column: string)
    | Crashed(destination: string, events: seq<Event>, failure: Failure)
    | Completed(destination: string, events: seq<Event>)

  const IdColumn: string := "participant_id"
  const AgeColumn: string := "age"

  // ----- Directory names -----

  /** `labels_<name of the root>_renamed`, in the directory that holds the root. */
  function DestinationDirectory(root: string): string {
    Join(Dirname(root), "labels_" + Basename(root) + "_renamed")
  }

  /** `<root>/derivatives/freesurfer`. */
  function FreesurferDirectory(root: string): string {
    Join(Join(root, "derivatives"), "freesurfer")
  }

  /** `<freesurfer>/<subject>/mri`. */
  function MriDirectory(freesurfer: string, subject: string): string {
    Join(Join(freesurfer, subject), "mri")
  }

  /**
    A name without separators joined onto a directory part as `dirname`
    returns it is the last component of the result, and that directory part
    is the result's `dirname`.
  */
  lemma JoinOntoDirname(dir: string, name: string)
    requires dir == [] || AllSlashes(dir) || dir[|dir| - 1] != '/'
    requires name != [] && '/' !in name
    ensures Dirname(Join(dir, name)) == dir
    ensures Basename(Join(dir, name)) == name
  {
    var p := Join(dir, name);
    assert RFind(name, '/') == -1;
    if dir == [] {
      assert p == name;
    } else if dir[|dir| - 1] == '/' {
      assert p == dir + name;
      RFindAppend(dir, name, '/');
      assert RFind(dir, '/') == |dir| - 1;
      assert p[..|dir|] == dir;
      assert p[|dir|..] == name;
    } else {
      assert p == dir + "/" + name;
      RFindAppend(dir + "/", name, '/');
      assert RFind("/", '/') == 0;
      RFindAppend(dir, "/", '/');
      assert p[..|dir| + 1] == dir + "/";
      assert p[|dir| + 1..] == name;
      assert !AllSlashes(dir + "/") by {
        assert (dir + "/")[|dir| - 1] == dir[|dir| - 1];
      }
      RStripOneSlash(dir);
    }
  }

  /** What `dirname` returns never ends in a separator unless it is separators only. */
  lemma DirnameShape(p: string)
    ensures var d := Dirname(p); d == [] || AllSlashes(d) || d[|d| - 1] != '/'
  {
  }

  /**
    The destination directory sits in the same directory as the root and is
    named `labels_<root name>_renamed`.
  */
  lemma DestinationBesideRoot(root: string)
    ensures Dirname(DestinationDirectory(root)) == Dirname(root)
    ensures Basename(DestinationDirectory(root)) == "labels_" + Basename(root) + "_renamed"
  {
    DirnameShape(root);
    var name := "labels_" + Basename(root) + "_renamed";
    assert name[0] == 'l';
    assert '/' !in name by {
      var b := Basename(root);
      forall k | 0 <= k < |name| ensures name[k] != '/' {
        if 7 <= k < 7 + |b| {
          assert name[k] == b[k - 7];
        }
      }
    }
    JoinOntoDirname(Dirname(root), name);
  }

  /**
    A root given with a trailing separator has an empty last component, so
    the destination becomes `labels__renamed` INSIDE the root.
  */
  lemma DestinationOfTrailingSeparator(dir: string)
    requires dir != [] && dir[|dir| - 1] != '/'
    ensures DestinationDirectory(dir + "/") == dir + "/labels__renamed"
  {
    var root := dir + "/";
    assert RFind("/", '/') == 0;
    RFindAppend(dir, "/", '/');
    assert Basename(root) == "";
    assert root[..|dir| + 1] == root;
    assert !AllSlashes(root) by {
      assert root[|dir| - 1] == dir[|dir| - 1];
    }
    RStripOneSlash(dir);
    assert Dirname(root) == dir;
    assert "labels_" + "" + "_renamed" == "labels__renamed";
  }

  // ----- The participants file -----

  /** `xs.index(x)`: the first position of `x`, or none when `x` is absent (Python's ValueError). */
  function IndexOf(xs: seq<string>, x: string): (r: Option<nat>)
    ensures r.None? <==> x !in xs
    ensures r.Some? ==> r.value < |xs| && xs[r.value] == x && forall j | 0 <= j < r.value :: xs[j] != x
  {
    if xs == [] then None
    else if xs[0] == x then Some(0)
    else match IndexOf(xs[1..], x)
      case None => None
      case Some(i) => Some(i + 1)
  }

  /**
    The first positions of the id and age columns in the header row, as
    `list.index` returns them. The id column is looked up first, so when
    both are missing the error names it.
  */
  function ColumnIndices(header: seq<string>): (r: Result<(nat, nat), string>)
    ensures r.Ok? <==> IdColumn in header && AgeColumn in header
    ensures r.Ok? ==> r.value.0 < |header| && header[r.value.0] == IdColumn &&
                      r.value.1 < |header| && header[r.value.1] == AgeColumn
    ensures r.Ok? ==> forall j | 0 <= j < r.value.0 :: header[j] != IdColumn
    ensures r.Ok? ==> forall j | 0 <= j < r.value.1 :: header[j] != AgeColumn
    ensures r.Err? ==> r.error == if IdColumn !in header then IdColumn else AgeColumn
  {
    match IndexOf(header, IdColumn)
    case None => Err(IdColumn)
    case Some(idIndex) =>
      match IndexOf(header, AgeColumn)
      case None => Err(AgeColumn)
      case Some(ageIndex) => Ok((idIndex, ageIndex))
  }

  /** Whether a row has both the id cell and the age cell. */
  predicate HasCells(row: seq<string>, idIndex: nat, ageIndex: nat) {
    idIndex < |row| && ageIndex < |row|
  }

  /**
    `participant_ages`: each data row, in order, records its age under its
    id. A row without both cells stops the script.
  */
  function AgeTable(rows: seq<seq<string>>, idIndex: nat, ageIndex: nat): Result<map<string, string>, Failure>
  {
    if rows == [] then Ok(map[])
    else
      var last := rows[|rows| - 1];
      match AgeTable(rows[..|rows| - 1], idIndex, ageIndex)
      case Err(failure) => Err(failure)
      case Ok(ages) =>
        if HasCells(last, idIndex, ageIndex) then Ok(ages[last[idIndex] := last[ageIndex]])
        else Err(ShortRow(|rows| - 1))
  }

  /** The loop that fills `participant_ages`. */
  method ParticipantAges(rows: seq<seq<string>>, idIndex: nat, ageIndex: nat)
    returns (r: Result<map<string, string>, Failure>)
    ensures r == AgeTable(rows, idIndex, ageIndex)
  {
    var ages: map<string, string> := map[];
    for k := 0 to |rows|
      invariant AgeTable(rows[..k], idIndex, ageIndex) == Ok(ages)
    {
      assert rows[..k + 1][..k] == rows[..k];
      var row := rows[k];
      if !HasCells(row, idIndex, ageIndex) {
        AgeTableFailurePersists(rows, idIndex, ageIndex, k + 1);
        return Err(ShortRow(k));
      }
      ages := ages[row[idIndex] := row[ageIndex]];
    }
    assert rows[..|rows|] == rows;
    return Ok(ages);
  }

  /** Once a prefix of the rows fails, the whole table fails the same way. */
  lemma {:induction false} AgeTableFailurePersists(rows: seq<seq<string>>, idIndex: nat, ageIndex: nat, k: nat)
    requires k <= |rows|
    requires AgeTable(rows[..k], idIndex, ageIndex).Err?
    ensures AgeTable(rows, idIndex, ageIndex) == AgeTable(rows[..k], idIndex, ageIndex)
    decreases |rows| - k
  {
    if k < |rows| {
      assert rows[..k + 1][..k] == rows[..k];
      AgeTableFailurePersists(rows, idIndex, ageIndex, k + 1);
    } else {
      assert rows[..k] == rows;
    }
  }

  /** The table can be built exactly when every data row has both cells. */
  lemma {:induction false} AgeTableBuilt(rows: seq<seq<string>>, idIndex: nat, ageIndex: nat)
    ensures AgeTable(rows, idIndex, ageIndex).Ok? <==>
      forall k | 0 <= k < |rows| :: HasCells(rows[k], idIndex, ageIndex)
  {
    if rows != [] {
      var front := rows[..|rows| - 1];
      AgeTableBuilt(front, idIndex, ageIndex);
      assert forall k | 0 <= k < |front| :: front[k] == rows[k];
    }
  }

  /** The table holds exactly the ids of the rows. */
  lemma {:induction false} AgeTableIds(rows: seq<seq<string>>, idIndex: nat, ageIndex: nat)
    requires forall k | 0 <= k < |rows| :: idIndex < |rows[k]| && ageIndex < |rows[k]|
    ensures AgeTable(rows, idIndex, ageIndex).Ok?
    ensures var ages := AgeTable(rows, idIndex, ageIndex).value;
      forall id :: id in ages <==> exists k | 0 <= k < |rows| :: rows[k][idIndex] == id
  {
    AgeTableBuilt(rows, idIndex, ageIndex);
    if rows != [] {
      var n := |rows| - 1;
      var front := rows[..n];
      assert forall k | 0 <= k < n :: front[k] == rows[k];
      AgeTableIds(front, idIndex, ageIndex);
      var ages := AgeTable(rows, idIndex, ageIndex).value;
      var frontAges := AgeTable(front, idIndex, ageIndex).value;
      assert ages == frontAges[rows[n][idIndex] := rows[n][ageIndex]];
      forall id ensures id in ages <==> exists k | 0 <= k < |rows| :: rows[k][idIndex] == id {
        if id in frontAges {
          var k :| 0 <= k < |front| && front[k][idIndex] == id;
          assert rows[k][idIndex] == id;
        }
        if exists k | 0 <= k < |rows| :: rows[k][idIndex] == id {
          var k :| 0 <= k < |rows| && rows[k][idIndex] == id;
          if k < n {
            assert front[k][idIndex] == id;
          }
        }
      }
    }
  }

  /** An id that appears in several rows gets the age of the LAST of them. */
  lemma {:induction false} AgeTableLastRowWins(rows: seq<seq<string>>, idIndex: nat, ageIndex: nat)
    requires forall k | 0 <= k < |rows| :: idIndex < |rows[k]| && ageIndex < |rows[k]|
    ensures AgeTable(rows, idIndex, ageIndex).Ok?
    ensures var ages := AgeTable(rows, idIndex, ageIndex).value;
      forall k | 0 <= k < |rows| && (forall j | k < j < |rows| :: rows[j][idIndex] != rows[k][idIndex]) ::
        rows[k][idIndex] in ages && ages[rows[k][idIndex]] == rows[k][ageIndex]
  {
    AgeTableBuilt(rows, idIndex, ageIndex);
    if rows != [] {
      var n := |rows| - 1;
      var front := rows[..n];
      assert forall k | 0 <= k < n :: front[k] == rows[k];
      AgeTableLastRowWins(front, idIndex, ageIndex);
      var ages := AgeTable(rows, idIndex, ageIndex).value;
      var frontAges := AgeTable(front, idIndex, ageIndex).value;
      assert ages == frontAges[rows[n][idIndex] := rows[n][ageIndex]];
      forall k | 0 <= k < |rows| && (forall j | k < j < |rows| :: rows[j][idIndex] != rows[k][idIndex])
        ensures rows[k][idIndex] in ages && ages[rows[k][idIndex]] == rows[k][ageIndex]
      {
        if k < n {
          assert forall j | k < j < |front| :: front[j] == rows[j];
          assert rows[n][idIndex] != rows[k][idIndex];
        }
      }
    }
  }

  /** `int(age) * 12`, or the error `int` raises. */
  function AgeInMonths(age: string): (r: Result<int, Failure>)
    ensures r.Err? <==> ParseInt(age).None?
    ensures r.Ok? ==> r.value == 12 * ParseInt(age).value
  {
    match ParseInt(age)
    case None => Err(NotAnInteger(age))
    case Some(years) => Ok(years * 12)
  }

  /** An age written as a whole number of years gives twelve months per year. */
  lemma AgeInMonthsOfYears(years: int)
    ensures AgeInMonths(IntToString(years)) == Ok(12 * years)
  {
    ParseIntRoundTrip(years);
  }

  // ----- New file names -----

  predicate StartsWith(s: string, prefix: string) {
    |prefix| <= |s| && s[..|prefix|] == prefix
  }

  const SubjectTag: string := "mo_ds-fragileX_sub-"

  /** `<months>mo_ds-fragileX_sub-<subject><tail>`. */
  function Template(months: int, subject: string, tail: string): string {
    IntToString(months) + SubjectTag + subject + tail
  }

  /**
    The name a copied file receives: `<months>mo_ds-fragileX_sub-<id>_0000.<ext>`
    for a `T1*` file, `<months>mo_ds-fragileX_sub-<id>.<ext>` for an `aseg*`
    file, none for any other file. `<ext>` is what `splitext` returns, dot
    included.
  */
  function NewFileName(months: int, subject: string, fileName: string): (r: Option<string>)
    ensures r.Some? <==> StartsWith(fileName, "T1") || StartsWith(fileName, "aseg")
  {
    var ext := SplitExt(fileName).1;
    if StartsWith(fileName, "T1") then Some(Template(months, subject, "_0000." + ext))
    else if StartsWith(fileName, "aseg") then Some(Template(months, subject, "." + ext))
    else None
  }

  lemma IntToStringHasNoLetterM(i: int)
    ensures 'm' !in IntToString(i)
  {
    forall k | 0 <= k < |IntToString(i)| ensures IntToString(i)[k] != 'm' {
      IntToStringAlphabet(i, k);
    }
  }

  /**
    A template gives back its number and its subject: the number's text
    holds no `m` and the tag starts with one.
  */
  lemma TemplateInjective(m1: int, id1: string, m2: int, id2: string, tail: string)
    requires Template(m1, id1, tail) == Template(m2, id2, tail)
    ensures m1 == m2 && id1 == id2
  {
    var s, t := IntToString(m1), IntToString(m2);
    var name := Template(m1, id1, tail);
    IntToStringHasNoLetterM(m1);
    IntToStringHasNoLetterM(m2);
    assert name == s + (SubjectTag + id1 + tail);
    assert name == t + (SubjectTag + id2 + tail);
    assert name[|s|] == 'm';
    assert name[|t|] == 'm';
    assert |s| == |t|;
    assert s == name[..|s|] == t;
    IntToStringInjective(m1, m2);
    assert id1 == name[|s| + |SubjectTag|..|name| - |tail|] == id2;
  }

  /**
    For a given source file, the new name determines the age in months and
    the subject: two subjects' copies of the same file never collide.
  */
  lemma NewFileNameDeterminesSubject(m1: int, id1: string, m2: int, id2: string, fileName: string)
    requires NewFileName(m1, id1, fileName).Some?
    requires NewFileName(m1, id1, fileName) == NewFileName(m2, id2, fileName)
    ensures m1 == m2 && id1 == id2
  {
    var ext := SplitExt(fileName).1;
    var tail := if StartsWith(fileName, "T1") then "_0000." + ext else "." + ext;
    TemplateInjective(m1, id1, m2, id2, tail);
  }

  /** A name starting with `aseg` does not start with `T1`. */
  lemma AsegIsNotT1(fileName: string)
    requires StartsWith(fileName, "aseg")
    ensures !StartsWith(fileName, "T1")
  {
    assert fileName[0] == fileName[..4][0] == 'a';
  }

  /**
    `T1` is tested first: a `T1*` file always takes the `_0000` template,
    and an `aseg*` file (which cannot also start with `T1`) the plain one.
  */
  lemma NewFileNameTemplates(months: int, subject: string, fileName: string)
    ensures StartsWith(fileName, "T1") ==>
      NewFileName(months, subject, fileName) == Some(Template(months, subject, "_0000." + SplitExt(fileName).1))
    ensures StartsWith(fileName, "aseg") ==>
      !StartsWith(fileName, "T1") &&
      NewFileName(months, subject, fileName) == Some(Template(months, subject, "." + SplitExt(fileName).1))
  {
    if StartsWith(fileName, "aseg") {
      AsegIsNotT1(fileName);
    }
  }

  /**
    The template writes a dot before an extension that already starts with
    one: `T1.mgz` gets the tail `_0000..mgz`.
  */
  lemma DoubledDotBeforeExtension(months: int, subject: string)
    ensures NewFileName(months, subject, "T1.mgz") == Some(Template(months, subject, "_0000..mgz"))
  {
    SplitExtOfT1();
    assert "T1.mgz"[..2] == "T1";
    assert "_0000." + ".mgz" == "_0000..mgz";
  }

  lemma SplitExtOfT1()
    ensures SplitExt("T1.mgz") == ("T1", ".mgz")
  {
    var p := "T1.mgz";
    assert '/' !in p && RFind(p, '/') == -1;
    assert p == "T1" + ".mgz";
    assert '.' !in "mgz" && RFind("mgz", '.') == -1;
    RFindAppend(".", "mgz", '.');
    assert "." + "mgz" == ".mgz";
    assert '.' !in "T1" && RFind("T1", '.') == -1;
    RFindAppend("T1", ".mgz", '.');
    assert RFind(p, '.') == 2 && p[0] != '.';
  }

  /**
    All `aseg*` files of a subject with the same extension receive the same
    name, so `aseg.mgz`, `aseg.auto.mgz` and `aseg.presurf.mgz` are copied
    onto one destination and the last one listed is the one that remains.
  */
  lemma AsegFilesShareName(months: int, subject: string, f: string, g: string)
    requires StartsWith(f, "aseg") && StartsWith(g, "aseg")
    requires SplitExt(f).1 == SplitExt(g).1
    ensures NewFileName(months, subject, f) == NewFileName(months, subject, g)
  {
    AsegIsNotT1(f);
    AsegIsNotT1(g);
  }

  // ----- Planning the copies -----

  /** The copies made for the files of one subject, in listing order. */
  function FileEvents(months: int, subject: string, source: string, destination: string, fileNames: seq<string>)
    : seq<Event>
  {
    if fileNames == [] then []
    else
      var f := fileNames[|fileNames| - 1];
      FileEvents(months, subject, source, destination, fileNames[..|fileNames| - 1]) +
        match NewFileName(months, subject, f)
        case None => []
        case Some(newName) => [Copied(subject, Join(source, f), Join(destination, newName))]
  }

  /**
    What the script does for one entry of the FreeSurfer directory: nothing
    without an `mri` directory; a report when the id has no age; otherwise
    the age in months and the copies of its files.
  */
  function SubjectEvents(ages: map<string, string>, freesurfer: string, destination: string, s: Subject)
    : Result<seq<Event>, Failure>
  {
    if !s.hasMriDirectory then Ok([])
    else if s.id !in ages then Ok([NotFound(s.id)])
    else match AgeInMonths(ages[s.id])
      case Err(failure) => Err(failure)
      case Ok(months) => Ok(FileEvents(months, s.id, MriDirectory(freesurfer, s.id), destination, s.fileNames))
  }

  /** The events of the subjects in listing order, up to the first failure. */
  function Plan(ages: map<string, string>, freesurfer: string, destination: string, subjects: seq<Subject>)
    : (seq<Event>, Option<Failure>)
  {
    if subjects == [] then ([], None)
    else
      var (events, failure) := Plan(ages, freesurfer, destination, subjects[..|subjects| - 1]);
      if failure.Some? then (events, failure)
      else match SubjectEvents(ages, freesurfer, destination, subjects[|subjects| - 1])
        case Err(f) => (events, Some(f))
        case Ok(more) => (events + more, None)
  }

  /** Once a prefix of the subjects fails, the whole plan ends the same way. */
  lemma {:induction false} PlanFailurePersists(ages: map<string, string>, freesurfer: string, destination: string,
                                               subjects: seq<Subject>, k: nat)
    requires k <= |subjects|
    requires Plan(ages, freesurfer, destination, subjects[..k]).1.Some?
    ensures Plan(ages, freesurfer, destination, subjects) == Plan(ages, freesurfer, destination, subjects[..k])
    decreases |subjects| - k
  {
    if k < |subjects| {
      assert subjects[..k + 1][..k] == subjects[..k];
      PlanFailurePersists(ages, freesurfer, destination, subjects, k + 1);
    } else {
      assert subjects[..k] == subjects;
    }
  }

  /** The inner loop over the files of one subject's `mri` directory. */
  method CopyFiles(months: int, subject: string, source: string, destination: string, fileNames: seq<string>)
    returns (copies: seq<Event>)
    ensures copies == FileEvents(months, subject, source, destination, fileNames)
  {
    copies := [];
    for j := 0 to |fileNames|
      invariant copies == FileEvents(months, subject, source, destination, fileNames[..j])
    {
      assert fileNames[..j + 1][..j] == fileNames[..j];
      var f := fileNames[j];
      var newName := NewFileName(months, subject, f);
      if newName.Some? {
        copies := copies + [Copied(subject, Join(source, f), Join(destination, newName.value))];
      }
    }
    assert fileNames[..|fileNames|] == fileNames;
  }

  /** The outer loop over the subjects. */
  method PlanCopies(ages: map<string, string>, freesurfer: string, destination: string, subjects: seq<Subject>)
    returns (events: seq<Event>, failure: Option<Failure>)
    ensures (events, failure) == Plan(ages, freesurfer, destination, subjects)
  {
    events := [];
    for i := 0 to |subjects|
      invariant Plan(ages, freesurfer, destination, subjects[..i]) == (events, None)
    {
      assert subjects[..i + 1][..i] == subjects[..i];
      var s := subjects[i];
      if s.hasMriDirectory {
        if s.id in ages {
          var monthsOrFailure := AgeInMonths(ages[s.id]);
          if monthsOrFailure.Err? {
            assert Plan(ages, freesurfer, destination, subjects[..i + 1]) == (events, Some(monthsOrFailure.error));
            PlanFailurePersists(ages, freesurfer, destination, subjects, i + 1);
            return events, Some(monthsOrFailure.error);
          }
          var copies := CopyFiles(monthsOrFailure.value, s.id, MriDirectory(freesurfer, s.id), destination,
                                  s.fileNames);
          assert SubjectEvents(ages, freesurfer, destination, s) == Ok(copies);
          events := events + copies;
        } else {
          assert SubjectEvents(ages, freesurfer, destination, s) == Ok([NotFound(s.id)]);
          events := events + [NotFound(s.id)];
        }
      } else {
        assert SubjectEvents(ages, freesurfer, destination, s) == Ok([]);
        assert events + [] == events;
      }
    }
    assert subjects[..|subjects|] == subjects;
    failure := None;
  }

  /** Every copy of a subject's files is of a `T1*` or `aseg*` file it lists, under its new name. */
  lemma {:induction false} FileEventsSound(months: int, subject: string, source: string, destination: string,
                                           fileNames: seq<string>, e: Event)
    requires e in FileEvents(months, subject, source, destination, fileNames)
    ensures e.Copied? && e.subject == subject
    ensures exists f | f in fileNames ::
      (NewFileName(months, subject, f).Some? &&
       e.source == Join(source, f) && e.destination == Join(destination, NewFileName(months, subject, f).value))
  {
    var n := |fileNames|;
    var front := fileNames[..n - 1];
    var f := fileNames[n - 1];
    if e in FileEvents(months, subject, source, destination, front) {
      FileEventsSound(months, subject, source, destination, front, e);
      var g :| g in front && NewFileName(months, subject, g).Some? &&
        e.source == Join(source, g) && e.destination == Join(destination, NewFileName(months, subject, g).value);
      assert g in fileNames;
    } else {
      assert f in fileNames;
    }
  }

  /** Every `T1*` and `aseg*` file a subject lists is copied. */
  lemma {:induction false} FileEventsComplete(months: int, subject: string, source: string, destination: string,
                                              fileNames: seq<string>, f: string)
    requires f in fileNames && NewFileName(months, subject, f).Some?
    ensures Copied(subject, Join(source, f), Join(destination, NewFileName(months, subject, f).value))
      in FileEvents(months, subject, source, destination, fileNames)
  {
    var n := |fileNames|;
    var front := fileNames[..n - 1];
    if f != fileNames[n - 1] {
      assert f in front by {
        var k :| 0 <= k < n && fileNames[k] == f;
        assert front[k] == f;
      }
      FileEventsComplete(months, subject, source, destination, front, f);
    }
  }

  /**
    Every copy the plan makes belongs to a subject with an `mri` directory
    whose id has an age, and is one of that subject's `T1*` or `aseg*`
    files under the name built from that age.
  */
  lemma {:induction false} PlanCopiesOnlyAgedSubjects(ages: map<string, string>, freesurfer: string,
                                                      destination: string, subjects: seq<Subject>, e: Event)
    requires e in Plan(ages, freesurfer, destination, subjects).0 && e.Copied?
    ensures exists s | s in subjects ::
      (s.hasMriDirectory && s.id == e.subject && s.id in ages && AgeInMonths(ages[s.id]).Ok? &&
       exists f | f in s.fileNames ::
         (NewFileName(AgeInMonths(ages[s.id]).value, s.id, f).Some? &&
          e.source == Join(MriDirectory(freesurfer, s.id), f) &&
          e.destination == Join(destination, NewFileName(AgeInMonths(ages[s.id]).value, s.id, f).value)))
  {
    var n := |subjects|;
    var front := subjects[..n - 1];
    var s := subjects[n - 1];
    var (events, failure) := Plan(ages, freesurfer, destination, front);
    if e in events {
      PlanCopiesOnlyAgedSubjects(ages, freesurfer, destination, front, e);
      var t :| t in front && t.hasMriDirectory && t.id == e.subject && t.id in ages &&
        AgeInMonths(ages[t.id]).Ok? &&
        exists f | f in t.fileNames ::
          (NewFileName(AgeInMonths(ages[t.id]).value, t.id, f).Some? &&
           e.source == Join(MriDirectory(freesurfer, t.id), f) &&
           e.destination == Join(destination, NewFileName(AgeInMonths(ages[t.id]).value, t.id, f).value));
      assert t in subjects;
    } else {
      assert failure.None?;
      assert s.hasMriDirectory && s.id in ages;
      var months := AgeInMonths(ages[s.id]).value;
      FileEventsSound(months, s.id, MriDirectory(freesurfer, s.id), destination, s.fileNames, e);
      assert s in subjects;
    }
  }

  /**
    A run that gets through every subject reports each subject with an
    `mri` directory but no age, and copies every `T1*` and `aseg*` file of
    each subject that has one.
  */
  lemma {:induction false} PlanCoversSubjects(ages: map<string, string>, freesurfer: string,
                                              destination: string, subjects: seq<Subject>)
    requires Plan(ages, freesurfer, destination, subjects).1.None?
    ensures forall s | s in subjects && s.hasMriDirectory && s.id !in ages ::
      NotFound(s.id) in Plan(ages, freesurfer, destination, subjects).0
    ensures forall s, f | s in subjects && s.hasMriDirectory && s.id in ages && f in s.fileNames ::
      AgeInMonths(ages[s.id]).Ok? &&
      (NewFileName(AgeInMonths(ages[s.id]).value, s.id, f).Some? ==>
        Copied(s.id, Join(MriDirectory(freesurfer, s.id), f),
               Join(destination, NewFileName(AgeInMonths(ages[s.id]).value, s.id, f).value))
        in Plan(ages, freesurfer, destination, subjects).0)
  {
    if subjects != [] {
      var n := |subjects|;
      var front := subjects[..n - 1];
      var last := subjects[n - 1];
      PlanCoversSubjects(ages, freesurfer, destination, front);
      var events := Plan(ages, freesurfer, destination, front).0;
      var more := SubjectEvents(ages, freesurfer, destination, last).value;
      assert Plan(ages, freesurfer, destination, subjects).0 == events + more;
      forall s | s in subjects ensures s in front || s == last {
        var k :| 0 <= k < n && subjects[k] == s;
        if k < n - 1 {
          assert front[k] == s;
        }
      }
      forall s, f | s == last && s.hasMriDirectory && s.id in ages && f in s.fileNames &&
                    NewFileName(AgeInMonths(ages[s.id]).value, s.id, f).Some?
        ensures Copied(s.id, Join(MriDirectory(freesurfer, s.id), f),
                       Join(destination, NewFileName(AgeInMonths(ages[s.id]).value, s.id, f).value)) in more
      {
        FileEventsComplete(AgeInMonths(ages[s.id]).value, s.id, MriDirectory(freesurfer, s.id), destination,
                           s.fileNames, f);
      }
    }
  }

  // ----- The whole script -----

  /**
    A run of the script: the arguments, whether the participants file
    exists, the rows it holds, whether `<root>/derivatives/freesurfer`
    exists and the entries it lists.
    The destination directory is created before the participants file is
    checked.
  */
  function Run(args: seq<string>, participantsFileExists: bool, rows: seq<seq<string>>,
             freesurferExists: bool, subjects: seq<Subject>)
    : Outcome
  {
    if |args| < 2 then Usage
    else
      var root := args[0];
      var destination := DestinationDirectory(root);
      if !participantsFileExists then MissingParticipantsFile(destination)
      else if rows == [] then Crashed(destination, [], EmptyParticipantsFile)
      else match ColumnIndices(rows[0])
        case Err(column) => MissingColumn(destination, column)
        case Ok((idIndex, ageIndex)) =>
          match AgeTable(rows[1..], idIndex, ageIndex)
          case Err(failure) => Crashed(destination, [], failure)
          case Ok(ages) =>
            if !freesurferExists then Crashed(destination, [], MissingFreesurferDirectory)
            else
              var (events, failure) := Plan(ages, FreesurferDirectory(root), destination, subjects);
              if failure.Some? then Crashed(destination, events, failure.value) else Completed(destination, events)
  }

  /** `main`, with the file system given as values. */
  method RenameFiles(args: seq<string>, participantsFileExists: bool, rows: seq<seq<string>>,
             freesurferExists: bool, subjects: seq<Subject>)
    returns (outcome: Outcome)
    ensures outcome == Run(args, participantsFileExists, rows, freesurferExists, subjects)
  {
    if |args| < 2 {
      return Usage;
    }
    var root := args[0];
    var destination := DestinationDirectory(root);
    if !participantsFileExists {
      return MissingParticipantsFile(destination);
    }
    if rows == [] {
      return Crashed(destination, [], EmptyParticipantsFile);
    }
    var columns := ColumnIndices(rows[0]);
    if columns.Err? {
      return MissingColumn(destination, columns.error);
    }
    var (idIndex, ageIndex) := columns.value;
    var ages := ParticipantAges(rows[1..], idIndex, ageIndex);
    if ages.Err? {
      return Crashed(destination, [], ages.error);
    }
    if !freesurferExists {
      return Crashed(destination, [], MissingFreesurferDirectory);
    }
    var events, failure := PlanCopies(ages.value, FreesurferDirectory(root), destination, subjects);
    if failure.Some? {
      return Crashed(destination, events, failure.value);
    }
    return Completed(destination, events);
  }

  /** The events a run produced, none when it stopped before the subjects. */
  function Events(outcome: Outcome): seq<Event> {
    match outcome
    case Crashed(_, events, _) => events
    case Completed(_, events) => events
    case _ => []
  }

  /** The script prints its usage, and does nothing else, exactly when it has fewer than two arguments. */
  lemma UsageExactlyWithFewArguments(args: seq<string>, participantsFileExists: bool, rows: seq<seq<string>>,
                                     freesurferExists: bool, subjects: seq<Subject>)
    ensures Run(args, participantsFileExists, rows, freesurferExists, subjects) == Usage <==> |args| < 2
  {
  }

  /**
    Nothing is copied or reported unless there are two arguments, the
    participants file exists, its header names both columns, every data
    row has both cells and the FreeSurfer directory exists.
  */
  lemma EventsOnlyAfterChecks(args: seq<string>, participantsFileExists: bool, rows: seq<seq<string>>,
                              freesurferExists: bool, subjects: seq<Subject>)
    requires Events(Run(args, participantsFileExists, rows, freesurferExists, subjects)) != []
    ensures |args| >= 2 && participantsFileExists && rows != [] && freesurferExists
    ensures IdColumn in rows[0] && AgeColumn in rows[0]
    ensures var (idIndex, ageIndex) := ColumnIndices(rows[0]).value;
      forall k | 1 <= k < |rows| :: HasCells(rows[k], idIndex, ageIndex)
  {
    var (idIndex, ageIndex) := ColumnIndices(rows[0]).value;
    AgeTableBuilt(rows[1..], idIndex, ageIndex);
    forall k | 1 <= k < |rows| ensures HasCells(rows[k], idIndex, ageIndex) {
      assert rows[1..][k - 1] == rows[k];
    }
  }

  /** A header without one of the two columns stops the run before any copy, naming the column. */
  lemma MissingColumnStopsRun(args: seq<string>, rows: seq<seq<string>>, freesurferExists: bool,
                              subjects: seq<Subject>)
    requires |args| >= 2 && rows != []
    requires IdColumn !in rows[0] || AgeColumn !in rows[0]
    ensures Run(args, true, rows, freesurferExists, subjects) ==
      MissingColumn(DestinationDirectory(args[0]), if IdColumn !in rows[0] then IdColumn else AgeColumn)
  {
  }

  /**
    Without `<root>/derivatives/freesurfer` the listing raises once the age
    table is built: the run crashes before any copy, whatever the subjects.
  */
  lemma MissingFreesurferDirectoryCrashes(args: seq<string>, rows: seq<seq<string>>, subjects: seq<Subject>)
    requires |args| >= 2 && rows != []
    requires ColumnIndices(rows[0]).Ok?
    requires var (idIndex, ageIndex) := ColumnIndices(rows[0]).value;
      forall k | 1 <= k < |rows| :: HasCells(rows[k], idIndex, ageIndex)
    ensures Run(args, true, rows, false, subjects) ==
      Crashed(DestinationDirectory(args[0]), [], MissingFreesurferDirectory)
  {
    var (idIndex, ageIndex) := ColumnIndices(rows[0]).value;
    AgeTableBuilt(rows[1..], idIndex, ageIndex);
    assert forall k | 0 <= k < |rows[1..]| :: rows[1..][k] == rows[k + 1];
  }
}
