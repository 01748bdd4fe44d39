# Fitness tracker: record store, progression rule, set rows and user registry

A Dafny model of the logic of a small Swing fitness tracker, with proofs
about it. The application keeps one text log per exercise and user under
`users/<user>/<exercise>.txt`. Each workout is one line,
`date,v1,v2,...`, whose values alternate repetitions and weight.

The model covers:

- **`FitnessApp`**: the static methods over the directory tree.
  - `createExercise`, `listExercises`, `addRecord` and `getRecords`.
  - `Record.toString`.
  - `calculateNextWeight`, which suggests five percent more weight when the mean of the first repetition counts is above 8, five percent less below 5, and the same weight otherwise.
- **`FitnessAppGUI`**: the main window.
  - An exercise panel collects set rows of weight and repetition texts. "Übung abschließen" (`abschliessen`) flattens them once into `[reps, weight, ...]` and appends a record.
  - The window keeps a trimmed, duplicate-free list of exercise names in `exercises.txt`.
- **`LoginWindow`**: a set of user names, trimmed and lower-cased.
  - Register adds a new name.
  - Login accepts a registered one.
  - A check on every edit enables or disables the register button.

Module layout:

- `java_int.dfy` (`JavaInt`):
  - the 32-bit `int` and its wrap-around;
  - `Integer.toString` and `Integer.parseInt`.
- `java_text.dfy` (`JavaText`) models the string and reader operations the code relies on:
  - `String.split(",")`, which drops trailing empty fields;
  - `BufferedReader.readLine`, which ends a line at `\n`, `\r\n` or `\r`;
  - `trim`, ASCII `toLowerCase`, `endsWith` and `replace`;
  - `Files.write`.
- `record_codec.dfy` (`RecordCodec`):
  - the line written by `addRecord` and how `getRecords` decodes lines, including the `NumberFormatException` that escapes it;
  - `Record.toString`.
- `progression.dfy` (`Progression`): the rule of `calculateNextWeight`.
  - The mean tests are decided on integers: `total > 8 * count` and `total < 5 * count`.
  - The sum wraps at 32 bits, as the Java `int` does.
  - The result is counted in tenths.
- `fitness_app.dfy` (`FitnessApp`):
  - the class `UsersDir` holds the directory tree as a map from user to file name to file text, and its methods are the static methods of `FitnessApp.java`, plus `ReadAllLines` and `WriteAllLines`, which model the `Files.readAllLines` and `Files.write` calls of FitnessAppGUI.java:233-261;
  - lemmas tie the writes to what is read back.
- `fitness_app_gui.dfy` (`FitnessAppGUI`):
  - the classes `ExercisePanel` and `Window`;
  - the flattening of the rows and the name list.
- `login_window.dfy` (`LoginWindow`): the decisions as functions, and the class `Window` holding the set, the register button state, the status message and the name the main window was opened for.

Some behaviour of the code is kept as written:

- **The name list shows up as an exercise.** `exercises.txt` lives in the same directory as the logs. So once it is saved, `listExercises` reports an exercise named "exercises" (`NamesFileListed`).
- **The repetition total can overflow.** The sum of the repetitions is an `int` and can wrap around (`OverflowLowersWeight`).
- **The register button stays enabled after a register.** A successful register neither edits the name field nor calls `checkUsernameAvailability`, so the button keeps the enabled state the last check gave the new name, whatever the comment at LoginWindow.java:253-258 says. Only the next edit of the field disables it (`StaleRegisterButton`).
- **Short records are never read back.** A record with fewer than two values is written, but `getRecords` skips it (`ShortLineSkipped`).
- **`createExercise` needs the user directory.** It creates no directory: for a missing one `createNewFile` throws and the call returns false (`UsersDir.CreateExercise`).
- **The first exercise name of a new user gets no log.** The name editor calls `createExercise` before the list is saved. For a user whose directory does not exist yet, `createExercise` fails and only the save creates the directory, so that exercise has no log file until a record is added (`Window.AddExerciseName`).
- **Suggestions are rounded to one decimal.** For 21 kg the suggestion is 22.1, not the unrounded 22.05 (`ExampleIncrease`).

## Model

| member | source | states |
|---|---|---|
| RecordCodec.EncodeLine | FitnessApp.java:42-45 | the line written for a record starts with its date, and holds no line break when the date has none |
| RecordCodec.IntTextIsPlain | FitnessApp.java:44 | the text appended for a value holds neither a comma nor a line break |
| RecordCodec.EncodeLineFields | FitnessApp.java:43-44 | cut at every comma, the written line gives the date, then the text of each value in list order |
| RecordCodec.EncodedSplit | FitnessApp.java:59 | `split(",")` of a line with at least one value drops nothing: it gives the date and every value text |
| RecordCodec.ParseAll | FitnessApp.java:62-64 | a successful parse of the fields after the date has one value per field |
| RecordCodec.ParseAllFacts | FitnessApp.java:62-64 | the parse succeeds exactly when every field is an `int`, then holds each field's value in order; a failure names a field of the line that is not an `int` |
| RecordCodec.ParseAllFirstFailure | FitnessApp.java:62-64 | a failed parse names the first field that is not an `int`: every field before it parses |
| RecordCodec.ParseAllTexts | FitnessApp.java:62-64 | the texts of written values parse back to the same values |
| RecordCodec.DecodeLine | FitnessApp.java:59-66 | a line is skipped exactly when it splits into fewer than three fields; a record takes the first field as date and has one value per later field, at least two |
| RecordCodec.DecodeLineFacts | FitnessApp.java:59-65 | every value of a decoded record is the parse of the matching field; a bad number is a field after the date that is not an `int` |
| RecordCodec.LineRoundTrip | FitnessApp.java:43-65 | a line written with a comma-free date and at least two values decodes to the same date and values in the same order |
| RecordCodec.ShortLineSkipped | FitnessApp.java:60 | a line written with zero or one value is skipped on reading |
| RecordCodec.DecodeLog | FitnessApp.java:58-66 | a successful read has at most one record per line, each with at least two values |
| RecordCodec.DecodeLogError | FitnessApp.java:63 | a failed read names a field that is not an `int` |
| RecordCodec.DecodeLogFailureSticks | FitnessApp.java:58-68 | once a prefix of the log fails, the whole read fails with the same field: the exception escapes the loop |
| RecordCodec.BadLineFails | FitnessApp.java:63-68 | a line with a bad number anywhere in the log makes the whole read fail rather than being skipped |
| RecordCodec.AppendThenRead | FitnessApp.java:41-66 | appending a written line and a separator to a terminated log adds exactly the new record when it has at least two values, and nothing otherwise; a failed log still fails |
| RecordCodec.SetText | FitnessApp.java:87-88 | the text of one set: "Wdh: r", followed by ", Gewicht: wkg" when the set has a weight |
| RecordCodec.SetsText | FitnessApp.java:85-89 | the sets of a value list: pairs written "Wdh: r, Gewicht: wkg", joined by " \| ", a trailing odd value written "Wdh: r"; its step facts are `SetsTextSnoc` and `SetsTextStep` |
| RecordCodec.Describe | FitnessApp.java:83-91 | the text of a record: its date, " \| ", then its sets; `ToString` is proved equal to it |
| RecordCodec.SetsTextSnoc | FitnessApp.java:85-89 | describing the values with one more set appends " \| " and that set's text |
| RecordCodec.SetsTextStep | FitnessApp.java:85-89 | the pair at index `2k` extends the description of the values before it by that set, after " \| " unless it is the first |
| RecordCodec.ToStringStep | FitnessApp.java:85-89 | one turn of the `toString` loop keeps the built text equal to the header and the description of the values consumed |
| RecordCodec.SetTextAt | FitnessApp.java:87-88 | the loop body writes the text of the set starting at the index: "Wdh: r", and ", Gewicht: wkg" when a weight follows |
| RecordCodec.ToString | FitnessApp.java:83-91 | `toString` is the date, " \| ", then the sets of two values joined by " \| ", a trailing odd value written alone |
| JavaInt.Wrap | FitnessApp.java:133 | `total += r` keeps the one `int` congruent to the exact sum modulo 2^32, the sum itself when it is in range |
| JavaInt.WrapAdd | FitnessApp.java:133 | adding to a wrapped value wraps like adding to the exact one |
| JavaInt.IntToString | FitnessApp.java:44 | the decimal text of a value is never empty; its digits and sign are stated by `DigitsRoundTrip` and `IntToStringChars` |
| JavaInt.DigitsRoundTrip | FitnessApp.java:44 | the text of a non-negative value is its decimal digits, with no leading zero, denoting the value |
| JavaInt.IntToStringChars | FitnessApp.java:44 | the text of a value starts with '-' exactly for a negative value and otherwise holds only digits |
| JavaInt.ParseInt | FitnessApp.java:63 | a parsed text is not empty, and its sign agrees with the sign of the value |
| JavaInt.ParseIntChars | FitnessApp.java:63 | a text that parses holds only digits after an optional leading sign |
| JavaInt.ParseDigits | FitnessApp.java:63 | a digit string within range parses to the number it denotes |
| JavaInt.ParseNegatedDigits | FitnessApp.java:63 | a minus sign before a digit string parses to the negated number |
| JavaInt.ParseIntRoundTrip | FitnessApp.java:44-63 | every `int` parses back from the text `addRecord` writes for it |
| JavaText.Fields | FitnessApp.java:59 | the comma-separated fields hold no comma and join back, with commas, to the line |
| JavaText.FieldsOfCommaFree | FitnessApp.java:59 | a text without a comma is one field |
| JavaText.FieldsAppend | FitnessApp.java:59 | a comma and a comma-free piece add exactly one field |
| JavaText.DropTrailingEmpty | FitnessApp.java:59 | the trailing empty fields, and only they, are removed |
| JavaText.Split | FitnessApp.java:59 | `split(",")` is the whole text when it has no comma; otherwise a prefix of the fields that ends in a non-empty field, every field after it being empty |
| JavaText.NextLine | FitnessApp.java:58 | a line read holds no line break and the rest is shorter than the text |
| JavaText.NextLineParts | FitnessApp.java:58 | the line read is a prefix of the text and the rest is a suffix |
| JavaText.NextLineSplits | FitnessApp.java:58 | between line and rest lies "\n", "\r\n", a "\r" not followed by "\n", or nothing at the end of the text |
| JavaText.ReadLines | FitnessApp.java:58 | the lines `readLine` returns one after another until the text is used up; their properties are `ReadLinesNoBreaks`, `ReadLinesConcat` and `ReadUnlines` |
| JavaText.ReadLinesNoBreaks | FitnessApp.java:58 | no line read holds a line break |
| JavaText.NextLineAppend | FitnessApp.java:58 | text appended after a line feed does not change the first line |
| JavaText.ReadLinesConcat | FitnessApp.java:58 | the lines of a terminated text followed by more text are the lines of each |
| JavaText.NextLineOfLine | FitnessApp.java:45 | a line and one separator read as exactly that line |
| JavaText.ReadLinesAppendLine | FitnessApp.java:45 | appending a line and a separator to a terminated log adds exactly that line and keeps the log terminated |
| JavaText.Unlines | FitnessAppGUI.java:238 | the text `Files.write` produces: each line followed by the separator; `ReadUnlines` reads it back |
| JavaText.ReadUnlines | FitnessAppGUI.java:238 | lines without breaks written by `Files.write` read back as the same lines |
| JavaText.Trim | FitnessAppGUI.java:214 | `trim`: the blank prefix and then the blank suffix removed; `TrimFacts` states what is kept |
| JavaText.TrimStartFacts | FitnessAppGUI.java:214 | the leading part `trim` drops is blank, and what it keeps starts with a non-blank |
| JavaText.TrimEndFacts | FitnessAppGUI.java:214 | the trailing part `trim` drops is blank, and what it keeps ends with a non-blank |
| JavaText.TrimFacts | FitnessAppGUI.java:214 | a trimmed text is no longer than the input, has no blank ends, and is empty exactly when the input is all blank |
| JavaText.TrimIsInfix | FitnessAppGUI.java:214 | a trimmed text is an infix of the input, and everything outside it is blank |
| JavaText.TrimOfTrimmed | FitnessAppGUI.java:252 | `trim` leaves an already trimmed text as it is |
| JavaText.ToLower | LoginWindow.java:194 | `toLowerCase` keeps the length and maps each character on its own |
| JavaText.ToLowerNormal | LoginWindow.java:194 | no upper-case letter survives, and lower-casing twice is lower-casing once |
| JavaText.TrimStartLower | LoginWindow.java:194 | dropping leading blanks commutes with lower-casing |
| JavaText.TrimEndLower | LoginWindow.java:194 | dropping trailing blanks commutes with lower-casing |
| JavaText.TrimLowerCommute | LoginWindow.java:194 | `trim` and `toLowerCase` commute |
| JavaText.NoInfixWithoutFirst | FitnessApp.java:33 | a text missing the first character of a pattern does not contain the pattern |
| JavaText.RemoveAll | FitnessApp.java:33 | `replace(".txt", "")` never lengthens a name and leaves one without ".txt" unchanged |
| FitnessApp.TxtFiles | FitnessApp.java:29 | the names `listExercises` keeps: the files of the user directory whose name ends in ".txt"; `StripNames` and `NamesFileListed` use it |
| FitnessApp.AfterCreateExercise | FitnessApp.java:12-23 | the tree after `createExercise`: an empty log added when the user directory exists and the log does not, otherwise unchanged; `UsersDir.CreateExercise` is proved against it |
| FitnessApp.AfterWriteAllLines | FitnessAppGUI.java:235-238 | the tree after `Files.createDirectories` and `Files.write`: the user directory exists and the file holds exactly the lines, each followed by the separator; `UsersDir.WriteAllLines` is proved against it |
| FitnessApp.AfterAddRecord | FitnessApp.java:39-50 | the tree after `addRecord`: the written line and separator appended to the log, created if missing, when the user directory exists; `UsersDir.AddRecord` is proved against it |
| FitnessApp.LogRecords | FitnessApp.java:53-72 | what `getRecords` returns: the decoded lines of the log, or nothing for a missing log; `UsersDir.GetRecords` is proved against it and `AddRecordReadsBack` relates it to `AfterAddRecord` |
| FitnessApp.AddRecordReadsBack | FitnessApp.java:39-71 | after `addRecord` on a terminated log, `getRecords` returns the old records and the new one when it has at least two values; a failing log still fails |
| FitnessApp.EndsWithSeparator | FitnessApp.java:45 | a text followed by a line separator ends with a line break |
| FitnessApp.CreateExerciseKeepsTerminated | FitnessApp.java:12-23 | when every file ends with a line break, it still does after `createExercise` |
| FitnessApp.AddRecordKeepsTerminated | FitnessApp.java:39-50 | when every file ends with a line break, it still does after `addRecord`, so `AddRecordReadsBack` applies again to the next record |
| FitnessApp.WriteAllLinesKeepsTerminated | FitnessAppGUI.java:235-238 | when every file ends with a line break, it still does after `Files.write` |
| FitnessApp.ListedNameOfLog | FitnessApp.java:33 | the log name of an exercise without ".txt" inside lists back as that exercise |
| FitnessApp.StripNames | FitnessApp.java:31-35 | one name per listed file, and exactly the file names with ".txt" removed |
| FitnessApp.UsersDir.Valid | FitnessApp.java:45 | the store's line separator is one of `System.lineSeparator()`'s values, "\n" or "\r\n" |
| FitnessApp.UsersDir.constructor | FitnessApp.java:45 | a store holds the given tree and line separator, and is valid |
| FitnessApp.UsersDir.CreateExercise | FitnessApp.java:12-23 | true exactly when the user directory exists and the log does not; then an empty log is added; otherwise nothing changes |
| FitnessApp.UsersDir.ListExercises | FitnessApp.java:27-36 | nothing without a user directory; otherwise one name per `.txt` file, each being that file name with ".txt" removed |
| FitnessApp.UsersDir.AddRecord | FitnessApp.java:39-50 | the encoded line and the separator are appended to the log, which is created when missing; false and no change without the user directory |
| FitnessApp.UsersDir.GetRecords | FitnessApp.java:53-72 | the decoded lines of the log in file order, no records for a missing log, or the first bad field |
| FitnessApp.UsersDir.CalculateNextWeight | FitnessApp.java:108-145 | the progression rule on the records read; only a bad number or an empty log can make it fail |
| FitnessApp.NextWeightOf | FitnessApp.java:108-145 | what `calculateNextWeight` ends in: the `NumberFormatException` of the log read, or the outcome of the progression rule on the records read; `UsersDir.CalculateNextWeight` is proved against it |
| FitnessApp.UsersDir.ReadAllLines | FitnessAppGUI.java:248-250 | the lines of an existing file, None for a missing one |
| FitnessApp.UsersDir.WriteAllLines | FitnessAppGUI.java:235-238 | the user directory is created when missing and the file replaced by the lines, each followed by the separator |
| FitnessApp.ParseValues | FitnessApp.java:61-64 | the inner loop of `getRecords` parses the fields after the date in order and stops at the first one that throws |
| FitnessApp.ParseAllFailureSticks | FitnessApp.java:62-63 | once a field fails to parse, later fields do not change the outcome |
| FitnessApp.ReadOneLine | FitnessApp.java:58 | proof step for the loop: one `readLine` takes the first line of what is left |
| FitnessApp.BadLineEndsRead | FitnessApp.java:58-68 | a line with a bad number ends the whole read with that field |
| FitnessApp.DecodeLogSnoc | FitnessApp.java:58-66 | proof step for the loop: reading one more line skips it, appends its record, or fails |
| Progression.FirstValues | FitnessApp.java:114-119 | at most one repetition count per record |
| Progression.FirstValuesOfFull | FitnessApp.java:115-118 | records that all have values give exactly their first values, in order |
| Progression.JavaSum | FitnessApp.java:131-134 | the `int` accumulator of the repetitions, wrapping at every step; `JavaSumWraps` ties it to the exact sum |
| Progression.JavaSumWraps | FitnessApp.java:131-134 | summing in an `int` wraps the exact sum once |
| Progression.Decide | FitnessApp.java:137-143 | the weight is kept exactly when the total lies between 5 and 8 times the count; `DecideIsMeanTest` ties the three outcomes to the mean |
| Progression.DecideIsMeanTest | FitnessApp.java:135-143 | the integer tests are `avg > 8`, `avg < 5` and the range between, on the exact mean |
| Progression.RoundHalfUp | FitnessApp.java:144 | `Math.round` picks the integer within one half, halves rounded up |
| Progression.NextTenths | FitnessApp.java:137-144 | the suggestion in tenths: the weight times 10.5, times 9.5 or times 10, rounded half up |
| Progression.NextTenthsDirection | FitnessApp.java:137-143 | for a non-negative weight an increase never lowers and a decrease never raises it |
| Progression.Suggest | FitnessApp.java:108-145 | no records fails with the first exception; a suggestion starts from the second value of the last record; the read error never comes from the rule |
| Progression.NextWeight | FitnessApp.java:109-144 | the two loops of `calculateNextWeight` compute exactly the rule |
| Progression.ExactWithoutOverflow | FitnessApp.java:131-143 | while the repetitions add up within range, the decision is the test of the true mean |
| Progression.OverflowLowersWeight | FitnessApp.java:131-140 | two sessions of 2147483647 repetitions wrap to -2 and lower the weight |
| Progression.DecodedNeverLacksWeight | FitnessApp.java:116-130 | records with at least two values each never reach the no-repetitions or no-weight exceptions |
| Progression.LogAlwaysSuggests | FitnessApp.java:109-130 | a successful non-empty log read always yields a suggestion |
| Progression.ExampleIncrease | FitnessApp.java:137-144 | 21 kg after 10 repetitions gives 22.1 |
| Progression.ExampleDecrease | FitnessApp.java:139-144 | 50 kg after 4 repetitions gives 47.5 |
| Progression.ExampleKeep | FitnessApp.java:141-144 | 50 kg after 6 repetitions stays 50.0 |
| FitnessAppGUI.RowValues | FitnessAppGUI.java:175-178 | the values of one row: its trimmed weight and repetition texts, reps first, when both parse |
| FitnessAppGUI.TextPair | FitnessAppGUI.java:175-178 | a row contributes two values or none |
| FitnessAppGUI.Flatten | FitnessAppGUI.java:173-181 | the values `abschliessen` collects, row by row; `FlattenPairs` states which rows contribute what |
| FitnessAppGUI.FlattenStep | FitnessAppGUI.java:173-178 | proof step for the loop: one more row appends that row's values |
| FitnessAppGUI.CompleteRows | FitnessAppGUI.java:173-181 | the rows whose two fields parse, each one of the rows |
| FitnessAppGUI.CompleteRowsKeepsAll | FitnessAppGUI.java:173-181 | every row whose two fields parse is kept, and nothing is kept exactly when no row is complete |
| FitnessAppGUI.FlattenPairs | FitnessAppGUI.java:173-181 | the flat list has two values per complete row, repetitions then weight, in row order, and nothing from other rows |
| FitnessAppGUI.NamesFileListed | FitnessApp.java:29-33 | a saved name list is a `.txt` file of the user directory and lists as the exercise "exercises" |
| FitnessAppGUI.AddName | FitnessAppGUI.java:78-80 | the add test of the editor and of loading: the trimmed text is appended when it is non-empty and new; `AddNameKeepsWellFormed` states its effect |
| FitnessAppGUI.LoadedNames | FitnessAppGUI.java:245-256 | the list `loadExerciseNames` builds: the add test over every line in order; `LoadedNamesFacts` states its contents |
| FitnessAppGUI.LoadedNamesStep | FitnessAppGUI.java:251-255 | proof step for the loop: each line read is one more add test |
| FitnessAppGUI.AddNameKeepsWellFormed | FitnessAppGUI.java:78-80 | the add test keeps the list trimmed, non-empty and duplicate-free, only extends it, and adds exactly the trimmed text or nothing |
| FitnessAppGUI.LoadedNamesFacts | FitnessAppGUI.java:245-256 | the loaded list is well formed, holds exactly the trimmed non-empty lines, and keeps the order of first occurrence |
| FitnessAppGUI.LoadedNamesOfWellFormed | FitnessAppGUI.java:251-255 | a well-formed list loads as itself |
| FitnessAppGUI.SaveThenLoad | FitnessAppGUI.java:233-261 | saving the name list and loading it again gives the same list |
| FitnessAppGUI.ExercisePanel.constructor | FitnessAppGUI.java:116-144 | a new panel has its title, one empty row, and is not finished |
| FitnessAppGUI.ExercisePanel.AddSet | FitnessAppGUI.java:146-152 | one empty row is appended |
| FitnessAppGUI.ExercisePanel.OnSetPlus | FitnessAppGUI.java:129-131 | "Set +" adds a row only while the panel is not finished |
| FitnessAppGUI.ExercisePanel.EditRow | FitnessAppGUI.java:221-224 | the fields of a finished panel no longer change |
| FitnessAppGUI.ExercisePanel.PanelTexts | FitnessAppGUI.java:157-167 | `daten` holds the title, "done", then the trimmed weight and repetitions of each row: 2 + 2 per row entries |
| FitnessAppGUI.ExercisePanel.PairOf | FitnessAppGUI.java:174-181 | a pair whose texts both parse gives repetitions then weight; any exception drops the pair |
| FitnessAppGUI.ExercisePanel.PanelValuesStep | FitnessAppGUI.java:173-178 | the texts read at row `m` give that row's values |
| FitnessAppGUI.ExercisePanel.PanelValues | FitnessAppGUI.java:170-182 | the second loop reads every pair in bounds and yields the flattened rows |
| FitnessAppGUI.ExercisePanel.Finish | FitnessAppGUI.java:154-184 | a finished panel does nothing; otherwise it marks itself finished and appends one record of the flattened rows |
| FitnessAppGUI.FinishedPanelReadsBack | FitnessAppGUI.java:170-183 | after finishing, the log reads back with one more record exactly when some row was complete |
| FitnessAppGUI.Window.constructor | FitnessAppGUI.java:13-42 | the window opens for "Manuel" with no panel and the names loaded from the file |
| FitnessAppGUI.Window.LoadExerciseNames | FitnessAppGUI.java:245-261 | the list is rebuilt from the lines of the names file, empty when the file is missing |
| FitnessAppGUI.Window.AddExerciseName | FitnessAppGUI.java:76-86 | a new trimmed non-empty name is appended, its log created when the user directory already exists, and the list saved (which creates the directory); anything else changes nothing |
| FitnessAppGUI.Window.PromptForExercise | FitnessAppGUI.java:44-63 | no names or a cancelled or blank choice adds no panel; otherwise one new open panel with the chosen title |
| LoginWindow.Normalize | LoginWindow.java:194 | the name looked up: the input trimmed and lower-cased; `NormalizeFacts` and `NormalizeIgnoresCase` state its properties |
| LoginWindow.NormalizeFacts | LoginWindow.java:194 | the looked-up name is its own normal form, has no blank ends and no upper-case letter, and is empty exactly for a blank input |
| LoginWindow.NormalizeIgnoresCase | LoginWindow.java:219 | an input and its lower-case form name the same user |
| LoginWindow.RegisterEnabled | LoginWindow.java:196-208 | the register button is enabled exactly for an empty name or a name nobody has registered |
| LoginWindow.LoginAccepted | LoginWindow.java:221-227 | login is accepted exactly for a non-empty registered name |
| LoginWindow.AvailabilityMessage | LoginWindow.java:193-210 | blank for an empty name, taken exactly when the register button is disabled, available for a new name |
| LoginWindow.LoginMessage | LoginWindow.java:221-238 | success exactly for a non-empty registered name, quoting the trimmed input; the prompt exactly for an empty name; "not found" exactly for a non-empty unregistered name |
| LoginWindow.AfterRegister | LoginWindow.java:241-248 | the set only grows by the normalised name, and changes exactly when that name is non-empty and new |
| LoginWindow.RegisterMessage | LoginWindow.java:239-251 | success exactly when the set changed, quoting the trimmed input; the registration prompt exactly for an empty name; "already exists" exactly for a non-empty registered name |
| LoginWindow.RegisterKeepsNormalized | LoginWindow.java:248 | register only ever adds normal forms |
| LoginWindow.RegisterThenTaken | LoginWindow.java:193-251 | once a name is registered, the next availability check for the same input reports it taken and disables the button; login accepts it |
| LoginWindow.RegisterTwice | LoginWindow.java:244-246 | registering again changes nothing and reports the name as existing |
| LoginWindow.Window.constructor | LoginWindow.java:161-176 | the set is the loaded one, or stays as it was when nothing could be loaded; the register button starts enabled |
| LoginWindow.Window.CheckAvailability | LoginWindow.java:193-210 | button state and message follow the availability decision; the set is unchanged |
| LoginWindow.Window.Login | LoginWindow.java:219-238 | the set never changes; the main window opens for the normalised name exactly on success |
| LoginWindow.Window.Register | LoginWindow.java:239-260 | a click needs an enabled button; the set becomes the register result, and is returned for saving exactly when it changed |
| LoginWindow.StaleRegisterButton | LoginWindow.java:247-258 | after a successful register the button stays enabled and the label reports the registration; only the next availability check disables it and reports the name taken |

## Left out

- Swing: layout, colours, dialogs, repainting and the `RoundedButton` geometry of LoginWindow.java:298-336. MainWindow.java is an empty frame and is not part of this model.
- Real I/O. The directory tree is a map from user to file name to text.
  - `File.list`, `createNewFile`, `FileWriter`, `BufferedReader`, `Files.write` and `readAllLines` work on that map.
  - The serialized `users.ser` is an optional set given to the login window's constructor, and the set returned by `Register` for saving.
  - The console output of loading and saving is not modelled.
- FitnessApp.UsersDir.ListExercises: the listing order of `File.list` is unspecified. The model states the count of names and which names occur, not their order.
- FitnessApp.StripNames: the loop of `listExercises`, with the same contract: the count and which names occur, not their order, and not how often a name occurs when two files strip to the same name.
- FitnessApp.UsersDir.ReadAllLines: `readAllLines` decodes as UTF-8 and may throw on malformed input. The model reads any text with the same line rules as `readLine`.
- Paths that contain "/" or "..": a user or exercise name is one key of the map.
- Progression.NextTenths: `* 1.05`, `* 0.95` and `Math.round(x * 10.0) / 10.0` are computed in exact tenths, rounded half up. IEEE doubles may round differently at half-tenths, and the final division by 10.0 is not modelled.
- The clock: `getdatum()` reads the current date; the date is a parameter of `Finish`.
- JavaText.ToLower: only ASCII letters are lower-cased. Unicode case mapping and locale rules are not modelled.
- JavaInt.ParseInt: the model accepts only the ASCII digits 0-9. `Integer.parseInt` also accepts the other Unicode decimal digits, which the model rejects.
- `FitnessApp.createUser`, called at FitnessAppGUI.java:40, is not part of this model: it is not defined in FitnessApp.java.
- The hand-off from login to the main window: LoginWindow.java:232 calls a `FitnessAppGUI(username)` constructor that does not exist. The model only records the name the window was opened for. The main window is modelled with the hard-coded user "Manuel".
- `setEditable(false)` on the rows (FitnessAppGUI.java:166) appears only as `EditRow` having no effect on a finished panel.
- The `JList` model and the text field of the name editor (FitnessAppGUI.java:82-83) are display state and are not modelled.
