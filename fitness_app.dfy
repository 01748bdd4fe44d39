/** The `users` directory tree the static methods of `FitnessApp` work on:
    one directory per user, holding one `<exercise>.txt` log per exercise
    (and the `exercises.txt` name list the window writes). */
module FitnessApp {
  import opened Wrappers
  import opened JavaInt
  import opened JavaText
  import opened RecordCodec
  import opened Progression

  /** The file holding the log of an exercise. */
  function LogName(ex: string): string {
    ex + ".txt"
  }

  /** The text of a file; a missing file reads as nothing. */
  function FileText(tree: map<string, map<string, string>>, user: string, name: string): string {
    if user in tree && name in tree[user] then tree[user][name] else ""
  }

  /** What `getRecords` returns for a tree: no records when the log cannot
      be opened, otherwise the decoded lines of the log, or the field whose
      `NumberFormatException` escapes. */
  function LogRecords(tree: map<string, map<string, string>>, user: string, ex: string): Result<seq<Record>, string> {
    if user in tree && LogName(ex) in tree[user] then DecodeLog(ReadLines(tree[user][LogName(ex)]))
    else Success([])
  }

  /** The records read back after appending a record to a log that read back as `before`. */
  function WithRecord(before: Result<seq<Record>, string>, date: string, values: seq<Int32>): Result<seq<Record>, string> {
    match before
    case Failure(f) => Failure(f)
    case Success(rs) => Success(if |values| >= 2 then rs + [Record(date, values)] else rs)
  }

  /** The tree after `createExercise`: an empty log is added when the user
      directory exists and the log does not. */
  function AfterCreateExercise(tree: map<string, map<string, string>>, user: string, ex: string): map<string, map<string, string>> {
    if user in tree && LogName(ex) !in tree[user] then tree[user := tree[user][LogName(ex) := ""]] else tree
  }

  /** The tree after `Files.createDirectories` and `Files.write` of lines to a file. */
  function AfterWriteAllLines(tree: map<string, map<string, string>>, user: string, name: string,
                              lines: seq<string>, sep: string): map<string, map<string, string>>
  {
    tree[user := (if user in tree then tree[user] else map[])[name := Unlines(lines, sep)]]
  }

  /** The tree after `addRecord` appended the line of a record and a line
      separator to the log; a missing user directory leaves it as it was. */
  function AfterAddRecord(tree: map<string, map<string, string>>, user: string, ex: string,
                          date: string, values: seq<Int32>, sep: string): map<string, map<string, string>>
  {
    if user in tree then tree[user := tree[user][LogName(ex) := FileText(tree, user, LogName(ex)) + EncodeLine(date, values) + sep]]
    else tree
  }

  /** Appending a record to a log that ends with a line break: reading the
      log back gives the records read before and the new one, when it has
      at least two values (a shorter record is skipped); a log whose read
      failed still fails the same way. */
  lemma AddRecordReadsBack(tree: map<string, map<string, string>>, user: string, ex: string,
                           date: string, values: seq<Int32>, sep: string)
    requires user in tree && IsLineSeparator(sep)
    requires NoComma(date) && NoLineBreak(date) && Terminated(FileText(tree, user, LogName(ex)))
    ensures LogRecords(AfterAddRecord(tree, user, ex, date, values, sep), user, ex) == WithRecord(LogRecords(tree, user, ex), date, values)
  {
    var before := FileText(tree, user, LogName(ex));
    var after := AfterAddRecord(tree, user, ex, date, values, sep);
    assert LogRecords(after, user, ex) == DecodeLog(ReadLines(before + EncodeLine(date, values) + sep));
    assert LogRecords(tree, user, ex) == DecodeLog(ReadLines(before));
    AppendThenRead(before, sep, date, values);
  }

  /** Every file of the tree is empty or ends with a line break, as every
      file the application writes does. */
  predicate AllTerminated(tree: map<string, map<string, string>>) {
    forall user, name :: user in tree && name in tree[user] ==> Terminated(tree[user][name])
  }

  /** A text that ends with a line separator is terminated. */
  lemma EndsWithSeparator(text: string, sep: string)
    requires IsLineSeparator(sep)
    ensures Terminated(text + sep)
  {
    assert (text + sep)[|text + sep| - 1] == sep[|sep| - 1];
  }

  /** `createExercise` keeps every file terminated: the log it adds is empty. */
  lemma CreateExerciseKeepsTerminated(tree: map<string, map<string, string>>, user: string, ex: string)
    requires AllTerminated(tree)
    ensures AllTerminated(AfterCreateExercise(tree, user, ex))
  {
  }

  /** `addRecord` keeps every file terminated: the log it appends to ends
      with the line separator afterwards. */
  lemma AddRecordKeepsTerminated(tree: map<string, map<string, string>>, user: string, ex: string,
                                 date: string, values: seq<Int32>, sep: string)
    requires AllTerminated(tree) && IsLineSeparator(sep)
    ensures AllTerminated(AfterAddRecord(tree, user, ex, date, values, sep))
  {
    EndsWithSeparator(FileText(tree, user, LogName(ex)) + EncodeLine(date, values), sep);
  }

  /** `Files.write` keeps every file terminated: it writes a separator after
      every line. */
  lemma WriteAllLinesKeepsTerminated(tree: map<string, map<string, string>>, user: string, name: string,
                                     lines: seq<string>, sep: string)
    requires AllTerminated(tree) && IsLineSeparator(sep)
    ensures AllTerminated(AfterWriteAllLines(tree, user, name, lines, sep))
  {
    if lines != [] {
      EndsWithSeparator(Unlines(lines[..|lines| - 1], sep) + lines[|lines| - 1], sep);
    }
  }

  /** What `calculateNextWeight` ends in: the exception of the log read or
      the outcome of the progression rule. */
  function NextWeightOf(tree: map<string, map<string, string>>, user: string, ex: string): Result<Suggestion, CalcError> {
    match LogRecords(tree, user, ex)
    case Failure(f) => Failure(NumberFormat(f))
    case Success(rs) => Suggest(rs)
  }

  /** The file names the `endsWith(".txt")` filter lets through. */
  function TxtFiles(dir: map<string, string>): set<string> {
    set name | name in dir && EndsWith(name, ".txt")
  }

  /** An exercise name without ".txt" inside comes back unchanged from
      `replace(".txt", "")` on its log name: ".txt" cannot overlap itself, so
      the only occurrence in the log name is the appended one. */
  lemma {:induction false} ListedNameOfLog(ex: string)
    requires !HasInfix(ex, ".txt")
    ensures RemoveAll(LogName(ex), ".txt") == ex
    decreases |ex|
  {
    var s := ex + ".txt";
    if ex == [] {
      assert s[4..] == [];
    } else {
      assert s[..4] != ".txt" by {
        if |ex| >= 4 {
          assert s[..4] == ex[..4];
        } else {
          assert s[|ex|] == '.';
        }
      }
      assert !HasInfix(ex[1..], ".txt");
      assert s[1..] == ex[1..] + ".txt";
      ListedNameOfLog(ex[1..]);
      assert [ex[0]] + ex[1..] == ex;
    }
  }

  /** The loop of `listExercises`: each file name, in some order, with
      ".txt" removed. */
  method StripNames(files: set<string>) returns (names: seq<string>)
    ensures |names| == |files|
    ensures forall f :: f in files ==> RemoveAll(f, ".txt") in names
    ensures forall n :: n in names ==> exists f :: f in files && n == RemoveAll(f, ".txt")
  {
    var rest := files;
    ghost var order: seq<string> := [];
    names := [];
    while rest != {}
      invariant rest <= files
      invariant |order| == |names| && |names| + |rest| == |files|
      invariant forall k :: 0 <= k < |names| ==> order[k] in files && names[k] == RemoveAll(order[k], ".txt")
      invariant forall f :: f in files ==> f in rest || f in order
      decreases |rest|
    {
      var f :| f in rest;
      names, order := names + [RemoveAll(f, ".txt")], order + [f];
      rest := rest - {f};
    }
    forall f | f in files
      ensures RemoveAll(f, ".txt") in names
    {
      var k :| 0 <= k < |order| && order[k] == f;
      assert names[k] == RemoveAll(f, ".txt");
    }
    forall n | n in names
      ensures exists f :: f in files && n == RemoveAll(f, ".txt")
    {
      var k :| 0 <= k < |names| && names[k] == n;
      assert order[k] in files;
    }
  }

  /** The `users` directory: for each user directory that exists, its files
      by name with their text. */
  class UsersDir {
    var dirs: map<string, map<string, string>>
    /** `System.lineSeparator()`. */
    const sep: string

    predicate Valid()
      reads this
    {
      IsLineSeparator(sep)
    }

    constructor (tree: map<string, map<string, string>>, lineSeparator: string)
      requires IsLineSeparator(lineSeparator)
      ensures Valid() && dirs == tree && sep == lineSeparator
    {
      dirs := tree;
      sep := lineSeparator;
    }

    /** `createExercise`: an existing log is left alone (false); otherwise
        `createNewFile` makes an empty one, which throws (false) when the
        user directory is missing. */
    method CreateExercise(user: string, ex: string) returns (ok: bool)
      requires Valid()
      modifies this
      ensures Valid()
      ensures ok <==> user in old(dirs) && LogName(ex) !in old(dirs)[user]
      ensures dirs == AfterCreateExercise(old(dirs), user, ex)
    {
      if user in dirs && LogName(ex) in dirs[user] {
        return false;
      }
      if user !in dirs {
        return false;
      }
      dirs := dirs[user := dirs[user][LogName(ex) := ""]];
      return true;
    }

    /** `listExercises`: every `.txt` file of the user directory, in the
        listing's order, with ".txt" removed wherever it occurs; nothing
        when the directory does not exist. */
    method ListExercises(user: string) returns (names: seq<string>)
      ensures user !in dirs ==> names == []
      ensures user in dirs ==> |names| == |TxtFiles(dirs[user])|
      ensures user in dirs ==> forall f :: f in TxtFiles(dirs[user]) ==> RemoveAll(f, ".txt") in names
      ensures user in dirs ==> forall n :: n in names ==> exists f :: f in TxtFiles(dirs[user]) && n == RemoveAll(f, ".txt")
    {
      if user !in dirs {
        return [];
      }
      names := StripNames(TxtFiles(dirs[user]));
    }

    /** `addRecord`: the line is the date, then "," and each value; it is
        appended with a line separator to the log, which `FileWriter`
        creates when missing; a missing user directory makes it throw
        (false). */
    method AddRecord(user: string, ex: string, date: string, values: seq<Int32>) returns (ok: bool)
      requires Valid()
      modifies this
      ensures Valid()
      ensures ok <==> user in old(dirs)
      ensures dirs == AfterAddRecord(old(dirs), user, ex, date, values, sep)
    {
      if user !in dirs {
        return false;
      }
      var line := date;
      var k := 0;
      while k < |values|
        invariant 0 <= k <= |values|
        invariant line == EncodeLine(date, values[..k])
      {
        assert values[..k + 1][..k] == values[..k];
        line := line + "," + IntToString(values[k]);
        k := k + 1;
      }
      assert values[..k] == values;
      var before := FileText(dirs, user, LogName(ex));
      dirs := dirs[user := dirs[user][LogName(ex) := before + line + sep]];
      ok := true;
    }

    /** `getRecords`: reads the log line by line; a line with at least three
        fields becomes a record of its date and parsed values; the first
        field that is not an `int` ends the read with its exception; a log
        that cannot be opened gives no records. */
    method GetRecords(user: string, ex: string) returns (r: Result<seq<Record>, string>)
      ensures r == LogRecords(dirs, user, ex)
    {
      if user !in dirs || LogName(ex) !in dirs[user] {
        return Success([]);
      }
      var text := dirs[user][LogName(ex)];
      var rest := text;
      var records: seq<Record> := [];
      ghost var consumed: seq<string> := [];
      while rest != []
        invariant ReadLines(text) == consumed + ReadLines(rest)
        invariant DecodeLog(consumed) == Success(records)
        decreases |rest|
      {
        var (line, next) := NextLine(rest);
        ReadOneLine(text, consumed, rest);
        var parts := Split(line);
        if |parts| >= 3 {
          var vals := ParseValues(parts[1..]);
          if vals.Failure? {
            BadLineEndsRead(text, consumed, line, next);
            return Failure(vals.error);
          }
          records := records + [Record(parts[0], vals.value)];
        }
        DecodeLogSnoc(consumed, line);
        consumed, rest := consumed + [line], next;
      }
      assert ReadLines(text) == consumed;
      r := Success(records);
    }

    /** `calculateNextWeight`: reads the log, then applies the progression
        rule; only the exceptions of the read and of an empty log can occur
        there, the other two checks never fire on records read from a log. */
    method CalculateNextWeight(user: string, ex: string) returns (r: Result<Suggestion, CalcError>)
      ensures r == NextWeightOf(dirs, user, ex)
      ensures r.Failure? ==> r.error.NumberFormat? || r.error == NoRecords
    {
      var records := GetRecords(user, ex);
      match records
      case Failure(f) =>
        r := Failure(NumberFormat(f));
      case Success(rs) =>
        if rs != [] {
          LogAlwaysSuggests(ReadLines(dirs[user][LogName(ex)]));
        }
        r := NextWeight(rs);
    }

    /** `Files.exists` then `Files.readAllLines`: the lines of the file, or
        None when it does not exist. */
    method ReadAllLines(user: string, name: string) returns (r: Option<seq<string>>)
      ensures r == (if user in dirs && name in dirs[user] then Some(ReadLines(dirs[user][name])) else None)
    {
      if user in dirs && name in dirs[user] {
        r := Some(ReadLines(dirs[user][name]));
      } else {
        r := None;
      }
    }

    /** `Files.createDirectories` then `Files.write`: the user directory is
        created when missing and the file replaced by the lines, each
        followed by the line separator. */
    method WriteAllLines(user: string, name: string, lines: seq<string>)
      requires Valid()
      modifies this
      ensures Valid()
      ensures dirs == AfterWriteAllLines(old(dirs), user, name, lines, sep)
    {
      var dir := if user in dirs then dirs[user] else map[];
      dirs := dirs[user := dir[name := Unlines(lines, sep)]];
    }
  }

  /** The inner loop of `getRecords`: `Integer.parseInt` on each field
      after the date, in order, stopping at the first one that throws. */
  method ParseValues(fields: seq<string>) returns (r: Result<seq<Int32>, string>)
    ensures r == ParseAll(fields)
  {
    var vals: seq<Int32> := [];
    var i := 0;
    while i < |fields|
      invariant 0 <= i <= |fields|
      invariant ParseAll(fields[..i]) == Success(vals)
    {
      assert fields[..i + 1][..i] == fields[..i];
      var p := ParseInt(fields[i]);
      if p.None? {
        ParseAllFailureSticks(fields, i + 1);
        return Failure(fields[i]);
      }
      vals := vals + [p.value];
      i := i + 1;
    }
    assert fields[..i] == fields;
    r := Success(vals);
  }

  /** Once a prefix of the fields holds a bad number, so do all the fields. */
  lemma {:induction false} ParseAllFailureSticks(fields: seq<string>, k: nat)
    requires k <= |fields| && ParseAll(fields[..k]).Failure?
    ensures ParseAll(fields) == ParseAll(fields[..k])
    decreases |fields| - k
  {
    if k < |fields| {
      var next := fields[..k + 1];
      assert next[..|next| - 1] == fields[..k];
      assert ParseAll(next) == ParseAll(fields[..k]);
      ParseAllFailureSticks(fields, k + 1);
    } else {
      assert fields[..k] == fields;
    }
  }

  /** One call of `readLine` takes the first line of what is left. */
  lemma ReadOneLine(text: string, consumed: seq<string>, rest: string)
    requires rest != [] && ReadLines(text) == consumed + ReadLines(rest)
    ensures ReadLines(text) == consumed + [NextLine(rest).0] + ReadLines(NextLine(rest).1)
  {
    assert ReadLines(rest) == [NextLine(rest).0] + ReadLines(NextLine(rest).1);
    assert consumed + ([NextLine(rest).0] + ReadLines(NextLine(rest).1)) ==
      consumed + [NextLine(rest).0] + ReadLines(NextLine(rest).1);
  }

  /** A line with a bad number ends the whole read with that field. */
  lemma BadLineEndsRead(text: string, consumed: seq<string>, line: string, next: string)
    requires ReadLines(text) == consumed + [line] + ReadLines(next)
    requires DecodeLog(consumed).Success?
    requires |Split(line)| >= 3 && ParseAll(Split(line)[1..]).Failure?
    ensures DecodeLog(ReadLines(text)) == Failure(ParseAll(Split(line)[1..]).error)
  {
    var lines := ReadLines(text);
    var k := |consumed| + 1;
    assert lines[..k] == consumed + [line];
    DecodeLogSnoc(consumed, line);
    DecodeLogFailureSticks(lines, k);
  }

  /** Reading one more line: `DecodeLog` is a left fold over the lines. */
  lemma DecodeLogSnoc(lines: seq<string>, line: string)
    ensures DecodeLog(lines + [line]) ==
      match DecodeLog(lines)
      case Failure(f) => Failure(f)
      case Success(rs) =>
        match DecodeLine(line)
        case Skip => Success(rs)
        case BadNumber(f) => Failure(f)
        case Entry(rec) => Success(rs + [rec])
  {
    assert (lines + [line])[..|lines|] == lines;
  }
}
