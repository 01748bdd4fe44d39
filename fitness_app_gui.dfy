/** The state behind the main window: the exercise panels with their set
    rows, the "finish" step that turns the rows into a record, and the list
    of exercise names kept in `exercises.txt`. */
module FitnessAppGUI {
  import opened Wrappers
  import opened JavaInt
  import opened JavaText
  import opened RecordCodec
  import opened FitnessApp

  // ---------------------------------------------------------------------
  // Set rows and their flattening
  // ---------------------------------------------------------------------

  /** The two text fields of a set row, as typed. */
  datatype Row = Row(weight: string, reps: string)

  /** The empty row "Set +" adds. */
  const EmptyRow := Row("", "")

  /** What the two trimmed texts of a row contribute to the record: the
      repetitions, then the weight, when both are `int`s; nothing
      otherwise. */
  function TextPair(weight: string, reps: string): (r: seq<Int32>)
    ensures |r| == 0 || |r| == 2
  {
    if ParseInt(weight).Some? && ParseInt(reps).Some? then [ParseInt(reps).value, ParseInt(weight).value] else []
  }

  /** What one row contributes to the record. */
  function RowValues(row: Row): seq<Int32> {
    TextPair(Trim(row.weight), Trim(row.reps))
  }

  /** The values of all rows, in row order. */
  function Flatten(rows: seq<Row>): seq<Int32> {
    if rows == [] then [] else Flatten(rows[..|rows| - 1]) + RowValues(rows[|rows| - 1])
  }

  /** One more row appends that row's values. */
  lemma FlattenStep(rows: seq<Row>, m: nat)
    requires m < |rows|
    ensures Flatten(rows[..m + 1]) == Flatten(rows[..m]) + RowValues(rows[m])
  {
    assert rows[..m + 1][..m] == rows[..m];
  }

  /** Whether both fields of a row parse. */
  predicate Complete(row: Row) {
    ParseInt(Trim(row.weight)).Some? && ParseInt(Trim(row.reps)).Some?
  }

  /** The rows whose two fields parse, in order. */
  function CompleteRows(rows: seq<Row>): (r: seq<Row>)
    ensures |r| <= |rows|
    ensures forall k :: 0 <= k < |r| ==> Complete(r[k]) && r[k] in rows
  {
    if rows == [] then []
    else CompleteRows(rows[..|rows| - 1]) + (if Complete(rows[|rows| - 1]) then [rows[|rows| - 1]] else [])
  }

  /** The rows whose flag is set, in order. With `Complete` of each row as
      its flag this is `CompleteRows` itself (`CompleteRowsKept`); the flags
      are computed beforehand so that the proofs about keeping rows need not
      unfold `Complete`. */
  function Kept(rows: seq<Row>, flags: seq<bool>): seq<Row>
    requires |flags| == |rows|
  {
    if rows == [] then []
    else Kept(rows[..|rows| - 1], flags[..|rows| - 1]) + (if flags[|rows| - 1] then [rows[|rows| - 1]] else [])
  }

  /** Every flagged row is kept, and nothing is kept exactly when no flag
      is set. */
  lemma {:induction false} KeptFacts(rows: seq<Row>, flags: seq<bool>)
    requires |flags| == |rows|
    ensures forall k :: 0 <= k < |rows| && flags[k] ==> rows[k] in Kept(rows, flags)
    ensures Kept(rows, flags) == [] <==> forall k :: 0 <= k < |rows| ==> !flags[k]
  {
    if rows != [] {
      var n := |rows| - 1;
      KeptFacts(rows[..n], flags[..n]);
      var c := Kept(rows[..n], flags[..n]);
      assert forall k :: 0 <= k < n ==> rows[..n][k] == rows[k] && flags[..n][k] == flags[k];
      if flags[n] {
        assert Kept(rows, flags)[|c|] == rows[n];
      }
    }
  }

  /** `CompleteRows` keeps the rows flagged complete. */
  lemma {:induction false} CompleteRowsKept(rows: seq<Row>)
    ensures CompleteRows(rows) == Kept(rows, seq(|rows|, k requires 0 <= k < |rows| => Complete(rows[k])))
  {
    if rows != [] {
      var n := |rows| - 1;
      CompleteRowsKept(rows[..n]);
      var flags := seq(|rows|, k requires 0 <= k < |rows| => Complete(rows[k]));
      assert flags[..n] == seq(n, k requires 0 <= k < n => Complete(rows[..n][k]));
    }
  }

  /** `CompleteRows` keeps every complete row, and keeps nothing exactly
      when no row is complete. */
  lemma CompleteRowsKeepsAll(rows: seq<Row>)
    ensures forall k :: 0 <= k < |rows| && Complete(rows[k]) ==> rows[k] in CompleteRows(rows)
    ensures CompleteRows(rows) == [] <==> forall k :: 0 <= k < |rows| ==> !Complete(rows[k])
  {
    var flags := seq(|rows|, k requires 0 <= k < |rows| => Complete(rows[k]));
    CompleteRowsKept(rows);
    KeptFacts(rows, flags);
  }

  /** The flat list alternates repetitions and weight of the complete rows,
      in row order: two values per complete row, the row's input order
      swapped, and nothing from a row with a bad field. */
  lemma {:induction false} FlattenPairs(rows: seq<Row>)
    ensures |Flatten(rows)| == 2 * |CompleteRows(rows)|
    ensures forall k :: 0 <= k < |CompleteRows(rows)| ==>
      ParseInt(Trim(CompleteRows(rows)[k].reps)) == Some(Flatten(rows)[2 * k]) &&
      ParseInt(Trim(CompleteRows(rows)[k].weight)) == Some(Flatten(rows)[2 * k + 1])
  {
    if rows != [] {
      var init, last := rows[..|rows| - 1], rows[|rows| - 1];
      FlattenPairs(init);
      var f, c := Flatten(init), CompleteRows(init);
      if Complete(last) {
        assert Flatten(rows) == f + RowValues(last);
        assert CompleteRows(rows) == c + [last];
        forall k | 0 <= k < |CompleteRows(rows)|
          ensures ParseInt(Trim(CompleteRows(rows)[k].reps)) == Some(Flatten(rows)[2 * k])
          ensures ParseInt(Trim(CompleteRows(rows)[k].weight)) == Some(Flatten(rows)[2 * k + 1])
        {
          if k < |c| {
            assert CompleteRows(rows)[k] == c[k];
            assert Flatten(rows)[2 * k] == f[2 * k] && Flatten(rows)[2 * k + 1] == f[2 * k + 1];
          }
        }
      } else {
        assert Flatten(rows) == f;
        assert CompleteRows(rows) == c;
      }
    }
  }

  // ---------------------------------------------------------------------
  // The exercise name list
  // ---------------------------------------------------------------------

  /** The add test of the name editor and of `loadExerciseNames`: the
      trimmed text joins the list when it is not empty and not there yet. */
  function AddName(names: seq<string>, text: string): seq<string> {
    var t := Trim(text);
    if t != [] && t !in names then names + [t] else names
  }

  /** The list `loadExerciseNames` builds from the lines of the file. */
  function LoadedNames(lines: seq<string>): seq<string> {
    if lines == [] then [] else AddName(LoadedNames(lines[..|lines| - 1]), lines[|lines| - 1])
  }

  /** One more line is one more add test. */
  lemma LoadedNamesStep(lines: seq<string>, i: nat)
    requires i < |lines|
    ensures LoadedNames(lines[..i + 1]) == AddName(LoadedNames(lines[..i]), lines[i])
  {
    assert lines[..i + 1][..i] == lines[..i];
  }

  /** Trimmed, not empty, and without duplicates. */
  predicate WellFormedNames(names: seq<string>) {
    (forall k :: 0 <= k < |names| ==> names[k] != [] && IsTrimmed(names[k])) &&
    (forall j, k :: 0 <= j < k < |names| ==> names[j] != names[k])
  }

  /** Adding a name keeps the list well formed, adds exactly the trimmed
      text or nothing, and never reorders what was there. */
  lemma AddNameKeepsWellFormed(names: seq<string>, text: string)
    requires WellFormedNames(names)
    ensures WellFormedNames(AddName(names, text))
    ensures names <= AddName(names, text)
    ensures forall n :: n in AddName(names, text) <==> n in names || (n == Trim(text) && n != [])
  {
    var t := Trim(text);
    TrimFacts(text);
    if t != [] && t !in names {
      var r := names + [t];
      forall k | 0 <= k < |r|
        ensures r[k] != [] && IsTrimmed(r[k])
      {
        if k < |names| {
          assert r[k] == names[k];
        }
      }
      forall j, k | 0 <= j < k < |r|
        ensures r[j] != r[k]
      {
        assert r[j] == names[j];
        if k < |names| {
          assert r[k] == names[k];
        }
      }
    }
  }

  /** The loaded list is well formed; it holds exactly the trimmed non-empty
      lines; and loading more lines only extends it, so names keep the order
      of their first occurrence. */
  lemma {:induction false} LoadedNamesFacts(lines: seq<string>)
    ensures WellFormedNames(LoadedNames(lines))
    ensures forall n :: n in LoadedNames(lines) <==> exists i :: 0 <= i < |lines| && n == Trim(lines[i]) && n != []
    ensures forall k :: 0 <= k <= |lines| ==> LoadedNames(lines[..k]) <= LoadedNames(lines)
  {
    if lines != [] {
      var init := lines[..|lines| - 1];
      LoadedNamesFacts(init);
      AddNameKeepsWellFormed(LoadedNames(init), lines[|lines| - 1]);
      forall n
        ensures n in LoadedNames(lines) <==> exists i :: 0 <= i < |lines| && n == Trim(lines[i]) && n != []
      {
        if n in LoadedNames(init) {
          var i :| 0 <= i < |init| && n == Trim(init[i]) && n != [];
          assert lines[i] == init[i];
        }
        if exists i :: 0 <= i < |lines| && n == Trim(lines[i]) && n != [] {
          var i :| 0 <= i < |lines| && n == Trim(lines[i]) && n != [];
          if i < |init| {
            assert init[i] == lines[i];
          }
        }
      }
      forall k | 0 <= k <= |lines|
        ensures LoadedNames(lines[..k]) <= LoadedNames(lines)
      {
        if k < |lines| {
          assert lines[..k] == init[..k];
        } else {
          assert lines[..k] == lines;
        }
      }
    }
  }

  /** Well-formed names read back as themselves. */
  lemma {:induction false} LoadedNamesOfWellFormed(names: seq<string>)
    requires WellFormedNames(names)
    ensures LoadedNames(names) == names
  {
    if names != [] {
      var init, last := names[..|names| - 1], names[|names| - 1];
      assert WellFormedNames(init);
      LoadedNamesOfWellFormed(init);
      TrimOfTrimmed(last);
      forall j | 0 <= j < |init| ensures init[j] != last {
        assert init[j] == names[j];
      }
      assert AddName(init, last) == init + [last];
      assert init + [last] == names;
    }
  }

  /** Saving the list with `Files.write` and loading it again gives the
      same list. */
  lemma SaveThenLoad(names: seq<string>, sep: string)
    requires WellFormedNames(names) && IsLineSeparator(sep)
    requires forall k :: 0 <= k < |names| ==> NoLineBreak(names[k])
    ensures LoadedNames(ReadLines(Unlines(names, sep))) == names
  {
    ReadUnlines(names, sep);
    LoadedNamesOfWellFormed(names);
  }

  /** The file the window keeps its exercise names in. */
  const NamesFile := "exercises.txt"

  /** The name list lives beside the logs and its name ends in ".txt": once
      it has been saved, `listExercises` reports an exercise "exercises". */
  lemma NamesFileListed(dir: map<string, string>)
    requires NamesFile in dir
    ensures NamesFile in TxtFiles(dir) && RemoveAll(NamesFile, ".txt") == "exercises"
  {
    assert LogName("exercises") == NamesFile;
    NoInfixWithoutFirst("exercises", ".txt");
    ListedNameOfLog("exercises");
  }

  // ---------------------------------------------------------------------
  // ExercisePanel
  // ---------------------------------------------------------------------

  /** One exercise being logged: its title, its set rows and whether it
      has been finished. */
  class ExercisePanel {
    const title: string
    var rows: seq<Row>
    var finished: bool

    /** A new panel starts with one empty row. */
    constructor (title: string)
      ensures this.title == title && rows == [EmptyRow] && !finished
    {
      this.title := title;
      rows := [];
      finished := false;
      new;
      AddSet();
    }

    /** `addSet`: one more empty row. */
    method AddSet()
      modifies this
      ensures rows == old(rows) + [EmptyRow] && finished == old(finished)
    {
      rows := rows + [EmptyRow];
    }

    /** The "Set +" button: a row is added only while the panel is open. */
    method OnSetPlus()
      modifies this
      ensures finished == old(finished)
      ensures rows == if old(finished) then old(rows) else old(rows) + [EmptyRow]
    {
      if !finished {
        AddSet();
      }
    }

    /** Typing into the fields of row `k`; finishing makes them read-only. */
    method EditRow(k: nat, weight: string, reps: string)
      requires k < |rows|
      modifies this
      ensures finished == old(finished)
      ensures rows == if old(finished) then old(rows) else old(rows)[k := Row(weight, reps)]
    {
      if !finished {
        rows := rows[k := Row(weight, reps)];
      }
    }

    /** The first loop of `abschliessen`: the title, the marker "done",
        then the trimmed weight and repetitions of every row. */
    static method PanelTexts(title: string, sets: seq<Row>) returns (daten: seq<string>)
      ensures |daten| == 2 + 2 * |sets| && daten[0] == title && daten[1] == "done"
      ensures forall j :: 0 <= j < |sets| ==> daten[2 + 2 * j] == Trim(sets[j].weight) && daten[3 + 2 * j] == Trim(sets[j].reps)
    {
      daten := [title, "done"];
      var k := 0;
      while k < |sets|
        invariant 0 <= k <= |sets| && |daten| == 2 + 2 * k && daten[0] == title && daten[1] == "done"
        invariant forall j :: 0 <= j < k ==> daten[2 + 2 * j] == Trim(sets[j].weight) && daten[3 + 2 * j] == Trim(sets[j].reps)
      {
        daten := daten + [Trim(sets[k].weight), Trim(sets[k].reps)];
        k := k + 1;
      }
    }

    /** One turn of the second loop of `abschliessen`: the repetitions and
        the weight when both texts parse (a `NumberFormatException` skips
        the pair). */
    static method PairOf(weight: string, reps: string) returns (pair: seq<Int32>)
      ensures pair == TextPair(weight, reps)
    {
      pair := [];
      var w := ParseInt(weight);
      if w.Some? {
        var n := ParseInt(reps);
        if n.Some? {
          pair := [n.value, w.value];
        }
      }
    }

    /** The pair the second loop of `abschliessen` reads at row `m` is the
        values of that row. */
    static lemma PanelValuesStep(daten: seq<string>, sets: seq<Row>, m: nat, pair: seq<Int32>)
      requires |daten| == 2 + 2 * |sets| && m < |sets|
      requires forall j :: 0 <= j < |sets| ==> daten[2 + 2 * j] == Trim(sets[j].weight) && daten[3 + 2 * j] == Trim(sets[j].reps)
      requires pair == TextPair(daten[2 + 2 * m], daten[3 + 2 * m])
      ensures Flatten(sets[..m + 1]) == Flatten(sets[..m]) + pair
    {
      FlattenStep(sets, m);
    }

    /** The second loop of `abschliessen`: every pair of texts that both
        parse gives the repetitions, then the weight; the others are
        dropped. */
    static method PanelValues(daten: seq<string>, sets: seq<Row>) returns (values: seq<Int32>)
      requires |daten| == 2 + 2 * |sets|
      requires forall j :: 0 <= j < |sets| ==> daten[2 + 2 * j] == Trim(sets[j].weight) && daten[3 + 2 * j] == Trim(sets[j].reps)
      ensures values == Flatten(sets)
    {
      values := [];
      var i := 2;
      ghost var m := 0;
      while i < |daten|
        invariant i == 2 + 2 * m && 0 <= m <= |sets|
        invariant values == Flatten(sets[..m])
      {
        var pair := PairOf(daten[i], daten[i + 1]);
        PanelValuesStep(daten, sets, m, pair);
        values := values + pair;
        i, m := i + 2, m + 1;
      }
      assert sets[..m] == sets;
    }

    /** `abschliessen`: the first call collects the trimmed field texts after
        the title and "done", marks the panel finished, turns the texts into
        repetitions and weights, and hands them to `addRecord` for the
        panel's title; every later call does nothing. */
    method Finish(store: UsersDir, user: string, date: string) returns (sent: Option<seq<Int32>>)
      requires store.Valid()
      modifies this, store
      ensures store.Valid() && rows == old(rows) && finished
      ensures old(finished) ==> sent == None && store.dirs == old(store.dirs)
      ensures !old(finished) ==> sent == Some(Flatten(rows))
      ensures !old(finished) ==> store.dirs == AfterAddRecord(old(store.dirs), user, title, date, Flatten(rows), store.sep)
    {
      if finished {
        return None;
      }
      var daten := PanelTexts(title, rows);
      finished := true;
      var values := PanelValues(daten, rows);
      var exName := daten[0];
      var _ := store.AddRecord(user, exName, date, values);
      sent := Some(values);
    }
  }

  /** What a finished panel leaves in the log: the records read before and,
      when at least one row was complete, a record of the date and the
      flattened rows. */
  lemma FinishedPanelReadsBack(tree: map<string, map<string, string>>, user: string, title: string,
                               date: string, rows: seq<Row>, sep: string)
    requires user in tree && IsLineSeparator(sep)
    requires NoComma(date) && NoLineBreak(date) && Terminated(FileText(tree, user, LogName(title)))
    ensures var after := AfterAddRecord(tree, user, title, date, Flatten(rows), sep);
      LogRecords(after, user, title) ==
        match LogRecords(tree, user, title)
        case Failure(f) => Failure(f)
        case Success(rs) => Success(if CompleteRows(rows) != [] then rs + [Record(date, Flatten(rows))] else rs)
  {
    FlattenPairs(rows);
    AddRecordReadsBack(tree, user, title, date, Flatten(rows), sep);
  }

  // ---------------------------------------------------------------------
  // The main window
  // ---------------------------------------------------------------------

  /** The main window: its user, the known exercise names and the open
      exercise panels. */
  class Window {
    const username: string
    var exerciseNames: seq<string>
    var panels: seq<ExercisePanel>

    /** The window starts with no panel and the names loaded from the file. */
    constructor (store: UsersDir)
      ensures username == "Manuel" && panels == []
      ensures exerciseNames == LoadedNames(if username in store.dirs && NamesFile in store.dirs[username] then ReadLines(store.dirs[username][NamesFile]) else [])
    {
      username := "Manuel";
      panels := [];
      exerciseNames := [];
      new;
      LoadExerciseNames(store);
    }

    /** `loadExerciseNames`: clears the list, then adds each trimmed line
        of the names file that is not empty and not yet listed; a missing
        file leaves the list empty. */
    method LoadExerciseNames(store: UsersDir)
      modifies this
      ensures panels == old(panels)
      ensures exerciseNames == LoadedNames(if username in store.dirs && NamesFile in store.dirs[username] then ReadLines(store.dirs[username][NamesFile]) else [])
    {
      exerciseNames := [];
      var file := store.ReadAllLines(username, NamesFile);
      var lines := if file.Some? then file.value else [];
      var i := 0;
      while i < |lines|
        invariant 0 <= i <= |lines| && exerciseNames == LoadedNames(lines[..i])
        invariant panels == old(panels)
      {
        LoadedNamesStep(lines, i);
        ghost var before := exerciseNames;
        var trimmed := Trim(lines[i]);
        if trimmed != [] && trimmed !in exerciseNames {
          exerciseNames := exerciseNames + [trimmed];
        }
        assert exerciseNames == AddName(before, lines[i]);
        i := i + 1;
      }
      assert lines[..i] == lines;
    }

    /** The add button of the name editor: a trimmed, non-empty, new name
        is appended, its log is created and the list is saved; anything
        else changes nothing. */
    method AddExerciseName(store: UsersDir, text: string)
      requires store.Valid()
      modifies this, store
      ensures store.Valid() && panels == old(panels)
      ensures exerciseNames == AddName(old(exerciseNames), text)
      ensures exerciseNames == old(exerciseNames) ==> store.dirs == old(store.dirs)
      ensures exerciseNames != old(exerciseNames) ==>
        store.dirs == AfterWriteAllLines(AfterCreateExercise(old(store.dirs), username, Trim(text)), username, NamesFile, exerciseNames, store.sep)
    {
      var newName := Trim(text);
      if newName != [] && newName !in exerciseNames {
        exerciseNames := exerciseNames + [newName];
        var _ := store.CreateExercise(username, newName);
        store.WriteAllLines(username, NamesFile, exerciseNames);
      }
    }

    /** `promptForExercise` with the choice made in its dialog (None for a
        cancelled dialog): with no names nothing happens; otherwise a
        non-blank choice opens a new panel with that title. */
    method PromptForExercise(choice: Option<string>)
      modifies this
      ensures exerciseNames == old(exerciseNames)
      ensures old(exerciseNames) == [] || choice.None? || Trim(choice.value) == [] ==> panels == old(panels)
      ensures old(exerciseNames) != [] && choice.Some? && Trim(choice.value) != [] ==>
        |panels| == |old(panels)| + 1 && panels[..|old(panels)|] == old(panels) &&
        fresh(panels[|panels| - 1]) && panels[|panels| - 1].title == choice.value &&
        panels[|panels| - 1].rows == [EmptyRow] && !panels[|panels| - 1].finished
    {
      if exerciseNames == [] {
        return;
      }
      if choice.Some? && Trim(choice.value) != [] {
        var panel := new ExercisePanel(choice.value);
        panels := panels + [panel];
      }
    }
  }
}
