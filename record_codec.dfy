/** The one-line text form of a workout record in an exercise log
    (`date,v1,v2,...`), how `addRecord` writes it, how `getRecords` reads a
    log back, and the `Record.toString` description. */
module RecordCodec {
  import opened Wrappers
  import opened JavaInt
  import opened JavaText

  /** One logged workout: the date text and the flat list of values, which
      alternate repetitions and weight. */
  datatype Record = Record(date: string, values: seq<Int32>)

  // ---------------------------------------------------------------------
  // Writing
  // ---------------------------------------------------------------------

  /** The line `addRecord` builds before the line separator: the date, then
      "," and the decimal text of each value, in list order. */
  function EncodeLine(date: string, values: seq<Int32>): (line: string)
    ensures |line| >= |date| && line[..|date|] == date
    ensures NoLineBreak(date) ==> NoLineBreak(line)
  {
    if values == [] then date
    else
      IntTextIsPlain(values[|values| - 1]);
      EncodeLine(date, values[..|values| - 1]) + "," + IntToString(values[|values| - 1])
  }

  /** The text of an `int` holds neither a comma nor a line break. */
  lemma IntTextIsPlain(x: int)
    ensures NoComma(IntToString(x)) && NoLineBreak(IntToString(x))
  {
    IntToStringChars(x);
  }

  /** The decimal texts of the values, in order. */
  function Texts(values: seq<Int32>): (r: seq<string>)
    ensures |r| == |values|
    ensures forall i :: 0 <= i < |values| ==> r[i] == IntToString(values[i])
  {
    if values == [] then [] else Texts(values[..|values| - 1]) + [IntToString(values[|values| - 1])]
  }

  /** Cut at its commas, a written line gives back the date and the text of
      every value in order. */
  lemma {:induction false} EncodeLineFields(date: string, values: seq<Int32>)
    requires NoComma(date)
    ensures Fields(EncodeLine(date, values)) == [date] + Texts(values)
  {
    if values == [] {
      FieldsOfCommaFree(date);
    } else {
      var init, last := values[..|values| - 1], values[|values| - 1];
      EncodeLineFields(date, init);
      IntTextIsPlain(last);
      FieldsAppend(EncodeLine(date, init), IntToString(last));
    }
  }

  // ---------------------------------------------------------------------
  // Reading
  // ---------------------------------------------------------------------

  /** `Integer.parseInt` applied to each field in order; the first field
      that is not an `int` ends the loop with a `NumberFormatException`. */
  function ParseAll(fields: seq<string>): (r: Result<seq<Int32>, string>)
    ensures r.Success? ==> |r.value| == |fields|
  {
    if fields == [] then Success([])
    else
      var init, last := fields[..|fields| - 1], fields[|fields| - 1];
      match ParseAll(init)
      case Failure(f) => Failure(f)
      case Success(vs) =>
        match ParseInt(last)
        case None => Failure(last)
        case Some(v) => Success(vs + [v])
  }

  /** The parse succeeds exactly when every field is an `int`, and then
      holds the value of every field in order; a failure names a field
      that is not an `int`. */
  lemma {:induction false} ParseAllFacts(fields: seq<string>)
    ensures ParseAll(fields).Success? <==> forall i :: 0 <= i < |fields| ==> ParseInt(fields[i]).Some?
    ensures ParseAll(fields).Success? ==>
      forall i :: 0 <= i < |fields| ==> ParseInt(fields[i]) == Some(ParseAll(fields).value[i])
    ensures ParseAll(fields).Failure? ==> ParseInt(ParseAll(fields).error) == None && ParseAll(fields).error in fields
  {
    if fields != [] {
      var init, last := fields[..|fields| - 1], fields[|fields| - 1];
      ParseAllFacts(init);
      match ParseAll(init)
      case Failure(f) =>
        assert ParseAll(fields) == Failure(f);
        var k :| 0 <= k < |init| && ParseInt(init[k]).None?;
        assert init[k] == fields[k];
      case Success(vs) =>
        if ParseInt(last).None? {
          assert ParseAll(fields) == Failure(last);
        } else {
          var r := vs + [ParseInt(last).value];
          assert ParseAll(fields) == Success(r);
          forall i | 0 <= i < |fields| ensures ParseInt(fields[i]) == Some(r[i]) {
            if i < |init| {
              assert init[i] == fields[i];
            }
          }
        }
    }
  }

  lemma ParseAllTexts(values: seq<Int32>)
    ensures ParseAll(Texts(values)) == Success(values)
  {
    var texts := Texts(values);
    forall i | 0 <= i < |values| ensures ParseInt(texts[i]) == Some(values[i]) {
      ParseIntRoundTrip(values[i]);
    }
    ParseAllFacts(texts);
    var r := ParseAll(texts);
    assert r.Success?;
    assert forall i :: 0 <= i < |values| ==> r.value[i] == values[i];
    assert r.value == values;
  }

  /** A failed parse names the first field that is not an `int`: every
      field before it parses. */
  lemma {:induction false} ParseAllFirstFailure(fields: seq<string>)
    requires ParseAll(fields).Failure?
    ensures exists j :: 0 <= j < |fields| && fields[j] == ParseAll(fields).error &&
              ParseInt(fields[j]).None? && (forall i :: 0 <= i < j ==> ParseInt(fields[i]).Some?)
  {
    var init, last := fields[..|fields| - 1], fields[|fields| - 1];
    if ParseAll(init).Failure? {
      ParseAllFirstFailure(init);
      var j :| 0 <= j < |init| && init[j] == ParseAll(init).error &&
              ParseInt(init[j]).None? && (forall i :: 0 <= i < j ==> ParseInt(init[i]).Some?);
      assert fields[j] == init[j];
      assert forall i :: 0 <= i < j ==> fields[i] == init[i];
    } else {
      ParseAllFacts(init);
      assert ParseAll(fields).error == last;
      assert forall i :: 0 <= i < |init| ==> fields[i] == init[i];
    }
  }

  /** What one line of a log contributes: nothing (fewer than three fields),
      a record, or the field that made `Integer.parseInt` throw. */
  datatype Decoded = Skip | Entry(record: Record) | BadNumber(field: string)

  /** One turn of the `getRecords` loop: split the line at its commas, keep it
      only with at least three fields, and parse every field after the date. */
  function DecodeLine(line: string): (r: Decoded)
    ensures r.Skip? <==> |Split(line)| < 3
    ensures r.Entry? ==> r.record.date == Split(line)[0]
    ensures r.Entry? ==> |r.record.values| == |Split(line)| - 1 >= 2
  {
    var parts := Split(line);
    if |parts| < 3 then Skip
    else
      match ParseAll(parts[1..])
      case Failure(f) => BadNumber(f)
      case Success(vs) => Entry(Record(parts[0], vs))
  }

  /** A record holds the value of every field after the date, in order; a
      bad number is one of those fields and is not an `int`. */
  lemma DecodeLineFacts(line: string)
    ensures DecodeLine(line).Entry? ==> forall i :: 0 <= i < |DecodeLine(line).record.values| ==>
      ParseInt(Split(line)[i + 1]) == Some(DecodeLine(line).record.values[i])
    ensures DecodeLine(line).BadNumber? ==> ParseInt(DecodeLine(line).field) == None && DecodeLine(line).field in Split(line)[1..]
  {
    var parts := Split(line);
    if |parts| >= 3 {
      ParseAllFacts(parts[1..]);
    }
  }

  /** `split(",")` of a line written with at least one value gives the
      date and the text of every value: the last field is never empty, so
      no field is dropped. */
  lemma EncodedSplit(date: string, values: seq<Int32>)
    requires NoComma(date) && values != []
    ensures Split(EncodeLine(date, values)) == [date] + Texts(values)
  {
    var line := EncodeLine(date, values);
    var prefix := EncodeLine(date, values[..|values| - 1]);
    var last := IntToString(values[|values| - 1]);
    assert line[|prefix|] == ',' by {
      ConcatAssoc(prefix, ",", last);
    }
    assert !NoComma(line);
    EncodeLineFields(date, values);
    var fields := [date] + Texts(values);
    assert fields[|fields| - 1] == last;
    assert DropTrailingEmpty(fields) == fields;
  }

  /** A line written with at least two values reads back as the same record. */
  lemma LineRoundTrip(date: string, values: seq<Int32>)
    requires NoComma(date) && |values| >= 2
    ensures DecodeLine(EncodeLine(date, values)) == Entry(Record(date, values))
  {
    EncodedSplit(date, values);
    ParseAllTexts(values);
    assert ([date] + Texts(values))[1..] == Texts(values);
  }

  /** A line written with no value or a single value is never read back. */
  lemma ShortLineSkipped(date: string, values: seq<Int32>)
    requires NoComma(date) && |values| < 2
    ensures DecodeLine(EncodeLine(date, values)) == Skip
  {
    if |values| == 1 {
      EncodedSplit(date, values);
    }
  }

  /** The whole `getRecords` loop over the lines of a log, in file order:
      skipped lines contribute nothing, and the first bad number ends the
      read with its `NumberFormatException`, which no handler catches. */
  function DecodeLog(lines: seq<string>): (r: Result<seq<Record>, string>)
    ensures r.Success? ==> |r.value| <= |lines|
    ensures r.Success? ==> forall i :: 0 <= i < |r.value| ==> |r.value[i].values| >= 2
  {
    if lines == [] then Success([])
    else
      var init, last := lines[..|lines| - 1], lines[|lines| - 1];
      match DecodeLog(init)
      case Failure(f) => Failure(f)
      case Success(rs) =>
        match DecodeLine(last)
        case Skip => Success(rs)
        case BadNumber(f) => Failure(f)
        case Entry(rec) => Success(rs + [rec])
  }

  /** A failed read names a field of the log that is not an `int`. */
  lemma {:induction false} DecodeLogError(lines: seq<string>)
    ensures DecodeLog(lines).Failure? ==> ParseInt(DecodeLog(lines).error) == None
  {
    if lines != [] {
      DecodeLogError(lines[..|lines| - 1]);
      DecodeLineFacts(lines[|lines| - 1]);
    }
  }

  /** Once a prefix of the log fails to parse, the whole read fails the same way. */
  lemma {:induction false} DecodeLogFailureSticks(lines: seq<string>, k: nat)
    requires k <= |lines| && DecodeLog(lines[..k]).Failure?
    ensures DecodeLog(lines) == DecodeLog(lines[..k])
    decreases |lines| - k
  {
    if k < |lines| {
      assert lines[..k + 1][..k] == lines[..k];
      DecodeLogFailureSticks(lines, k + 1);
    } else {
      assert lines[..k] == lines;
    }
  }

  /** A line whose value field is not an `int` is never skipped silently:
      the whole read fails. */
  lemma {:induction false} BadLineFails(lines: seq<string>, i: nat)
    requires i < |lines| && DecodeLine(lines[i]).BadNumber?
    ensures DecodeLog(lines).Failure?
  {
    var init, last := lines[..|lines| - 1], lines[|lines| - 1];
    if i < |lines| - 1 {
      assert init[i] == lines[i];
      BadLineFails(init, i);
      assert DecodeLog(init).Failure?;
    } else {
      assert last == lines[i];
      assert DecodeLine(last).BadNumber?;
    }
  }

  /** Appending a written line to a terminated log: the records read back
      gain exactly the new record when it has at least two values, and
      nothing otherwise; a log that failed to parse still fails. */
  lemma AppendThenRead(content: string, sep: string, date: string, values: seq<Int32>)
    requires Terminated(content) && IsLineSeparator(sep)
    requires NoComma(date) && NoLineBreak(date)
    ensures Terminated(content + EncodeLine(date, values) + sep)
    ensures DecodeLog(ReadLines(content + EncodeLine(date, values) + sep)) ==
      match DecodeLog(ReadLines(content))
      case Failure(f) => Failure(f)
      case Success(rs) => Success(if |values| >= 2 then rs + [Record(date, values)] else rs)
  {
    var line := EncodeLine(date, values);
    ReadLinesAppendLine(content, line, sep);
    var lines := ReadLines(content);
    assert (lines + [line])[..|lines|] == lines;
    if |values| >= 2 {
      LineRoundTrip(date, values);
    } else {
      ShortLineSkipped(date, values);
    }
  }

  // ---------------------------------------------------------------------
  // Record.toString
  // ---------------------------------------------------------------------

  /** One set: "Wdh: r", and ", Gewicht: wkg" when the weight is there. */
  function SetText(chunk: seq<Int32>): string
    requires 1 <= |chunk| <= 2
  {
    if |chunk| == 2 then "Wdh: " + IntToString(chunk[0]) + ", Gewicht: " + IntToString(chunk[1]) + "kg"
    else "Wdh: " + IntToString(chunk[0])
  }

  /** The values cut into pairs, each described by SetText, joined by " | ". */
  function SetsText(values: seq<Int32>): string
    decreases |values|
  {
    if values == [] then ""
    else if |values| <= 2 then SetText(values)
    else SetText(values[..2]) + " | " + SetsText(values[2..])
  }

  /** The description of a record: its date, " | ", then its sets. */
  function Describe(r: Record): string {
    r.date + " | " + SetsText(r.values)
  }

  lemma {:induction false} SetsTextSnoc(a: seq<Int32>, b: seq<Int32>, k: nat)
    requires |a| == 2 * k && k > 0 && 1 <= |b| <= 2
    ensures SetsText(a + b) == SetsText(a) + " | " + SetText(b)
    decreases k
  {
    var head, tail := SetText(a[..2]), a[2..];
    assert (a + b)[..2] == a[..2];
    assert (a + b)[2..] == tail + b;
    assert SetsText(a + b) == head + " | " + SetsText(tail + b);
    if k > 1 {
      SetsTextSnoc(tail, b, k - 1);
      assert SetsText(a) == head + " | " + SetsText(tail);
      var x, y := head + " | ", SetsText(tail);
      ConcatAssoc(x, y + " | ", SetText(b));
      ConcatAssoc(x, y, " | ");
      ConcatAssoc(x + y, " | ", SetText(b));
    } else {
      assert tail == [] && a[..2] == a;
      assert SetsText(tail + b) == SetText(b);
    }
  }

  /** The values of the set that starts at index `i`: a pair, or the last
      value alone. */
  function Chunk(values: seq<Int32>, i: nat): (r: seq<Int32>)
    requires i < |values|
    ensures 1 <= |r| <= 2 && r[0] == values[i]
  {
    values[i..if i + 2 < |values| then i + 2 else |values|]
  }

  /** The values the `toString` loop has consumed when its index is `i`. */
  function Seen(values: seq<Int32>, i: nat): (r: seq<Int32>)
    ensures |r| <= |values|
  {
    values[..if i < |values| then i else |values|]
  }

  /** One turn of the `toString` loop, the one for the `k`-th pair, extends
      the description of the values seen so far by the next set. */
  lemma SetsTextStep(values: seq<Int32>, k: nat)
    requires 2 * k < |values|
    ensures SetsText(Seen(values, 2 * k + 2)) ==
      (if k == 0 then "" else SetsText(Seen(values, 2 * k)) + " | ") + SetText(Chunk(values, 2 * k))
  {
    var i := 2 * k;
    var chunk := Chunk(values, i);
    assert Seen(values, i + 2) == values[..i] + chunk;
    if k > 0 {
      SetsTextSnoc(values[..i], chunk, k);
    } else {
      assert Seen(values, i + 2) == chunk;
    }
  }

  /** The description text grows by one set per turn of the `toString` loop. */
  lemma ToStringStep(head: string, values: seq<Int32>, k: nat, s: string, text: string, next: string)
    requires 2 * k < |values|
    requires s == head + SetsText(Seen(values, 2 * k)) && text == SetText(Chunk(values, 2 * k))
    requires next == (if k > 0 then s + " | " else s) + text
    ensures next == head + SetsText(Seen(values, 2 * (k + 1)))
  {
    SetsTextStep(values, k);
    assert 2 * (k + 1) == 2 * k + 2;
    var seen := SetsText(Seen(values, 2 * k));
    if k > 0 {
      ConcatAssoc(head, seen, " | ");
      ConcatAssoc(head, seen + " | ", text);
    } else {
      assert Seen(values, 2 * k) == [];
      ConcatAssoc(head, "", text);
    }
  }

  /** The body of the `toString` loop that writes the set starting at `i`. */
  method SetTextAt(values: seq<Int32>, i: nat) returns (text: string)
    requires i < |values|
    ensures text == SetText(Chunk(values, i))
  {
    text := "Wdh: " + IntToString(values[i]);
    if i + 1 < |values| {
      text := text + ", Gewicht: " + IntToString(values[i + 1]) + "kg";
    }
  }

  /** `Record.toString`: walks the values two at a time. */
  method ToString(r: Record) returns (s: string)
    ensures s == Describe(r)
  {
    var n := |r.values|;
    var head := r.date + " | ";
    s := head;
    var i := 0;
    ghost var pairs := 0;
    while i < n
      invariant 0 <= i <= n + 1 && i == 2 * pairs
      invariant s == head + SetsText(Seen(r.values, 2 * pairs))
    {
      var text := SetTextAt(r.values, i);
      ghost var before := s;
      if i > 0 {
        s := s + " | ";
      }
      s := s + text;
      ToStringStep(head, r.values, pairs, before, text, s);
      i, pairs := i + 2, pairs + 1;
    }
    assert Seen(r.values, 2 * pairs) == r.values;
  }

}
