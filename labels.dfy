/** The label writer object: it loads the escaped return address when it is
    created, and `create_labels` turns the order rows into label records and
    picks the output file name. */
module Labels {
  import opened Wrappers
  import opened HtmlFormat
  import opened Address
  import opened Filenames

  /** One label, `dict(return_address=..., sending_address=...)`. */
  datatype LabelRecord = LabelRecord(returnAddress: string, sendingAddress: seq<string>)

  /** What `create_labels` hands to the renderer: the records and the file name. */
  datatype LabelJob = LabelJob(records: seq<LabelRecord>, target: string)

  /** The text of a file read line by line: its lines, joined in order. */
  function Join(lines: seq<string>): string {
    if lines == [] then [] else Join(lines[..|lines| - 1]) + lines[|lines| - 1]
  }

  /** The lines escaped one by one, then joined. */
  function JoinEscaped(lines: seq<string>): string {
    if lines == [] then [] else JoinEscaped(lines[..|lines| - 1]) + HtmlFormatting(lines[|lines| - 1])
  }

  /** Escaping the whole return-address file equals escaping it line by line:
      the accumulated text can be escaped once at the end. */
  lemma {:induction false} HtmlFormattingJoin(lines: seq<string>)
    ensures HtmlFormatting(Join(lines)) == JoinEscaped(lines)
  {
    if lines != [] {
      var init, last := lines[..|lines| - 1], lines[|lines| - 1];
      HtmlFormattingConcat(Join(init), last);
      HtmlFormattingJoin(init);
    }
  }

  /** How one order row becomes the lines of its sending address;
      `create_labels` uses `format_address` (Address.FormatAddress). */
  type Formatter = Row -> Result<seq<string>, FormatError>

  /** The records `create_labels` builds for the rows, in row order, or the
      error of the first row the formatter rejects. The lemmas below hold for
      any formatter, so they are stated over the parameter. */
  function BuildRecords(returnAddress: string, rows: seq<Row>, format: Formatter): Result<seq<LabelRecord>, FormatError> {
    if rows == [] then Success([])
    else
      var records :- BuildRecords(returnAddress, rows[..|rows| - 1], format);
      var sendingAddress :- format(rows[|rows| - 1]);
      Success(records + [LabelRecord(returnAddress, sendingAddress)])
  }

  /** Building succeeds exactly when every row can be formatted. */
  lemma {:induction false} BuildRecordsSucceeds(returnAddress: string, rows: seq<Row>, format: Formatter)
    ensures BuildRecords(returnAddress, rows, format).Success?
            <==> forall i :: 0 <= i < |rows| ==> format(rows[i]).Success?
  {
    if rows != [] {
      var init := rows[..|rows| - 1];
      BuildRecordsSucceeds(returnAddress, init, format);
      assert forall i :: 0 <= i < |init| ==> rows[i] == init[i];
    }
  }

  /** Exactly one record per row, in row order, each pairing the shared
      return address with that row's formatted address. */
  lemma {:induction false} BuildRecordsContents(returnAddress: string, rows: seq<Row>, format: Formatter)
    requires BuildRecords(returnAddress, rows, format).Success?
    ensures |BuildRecords(returnAddress, rows, format).value| == |rows|
    ensures forall i :: 0 <= i < |rows| ==>
      && format(rows[i]).Success?
      && BuildRecords(returnAddress, rows, format).value[i] == LabelRecord(returnAddress, format(rows[i]).value)
  {
    if rows != [] {
      var init := rows[..|rows| - 1];
      BuildRecordsContents(returnAddress, init, format);
      assert forall i :: 0 <= i < |init| ==> rows[i] == init[i];
    }
  }

  /** A failed run reports the error of the first row that cannot be
      formatted. */
  lemma {:induction false} BuildRecordsFirstError(returnAddress: string, rows: seq<Row>, format: Formatter)
    requires BuildRecords(returnAddress, rows, format).Failure?
    ensures exists i :: (0 <= i < |rows|
      && format(rows[i]) == Failure(BuildRecords(returnAddress, rows, format).error)
      && forall j :: 0 <= j < i ==> format(rows[j]).Success?)
  {
    var init := rows[..|rows| - 1];
    assert forall i :: 0 <= i < |init| ==> rows[i] == init[i];
    if BuildRecords(returnAddress, init, format).Failure? {
      BuildRecordsFirstError(returnAddress, init, format);
      var i :| 0 <= i < |init| && format(init[i]) == Failure(BuildRecords(returnAddress, init, format).error)
               && forall j :: 0 <= j < i ==> format(init[j]).Success?;
      assert format(rows[i]) == Failure(BuildRecords(returnAddress, rows, format).error);
    } else {
      BuildRecordsSucceeds(returnAddress, init, format);
      assert format(rows[|rows| - 1]) == Failure(BuildRecords(returnAddress, rows, format).error);
    }
  }

  /** Once a prefix of the rows fails, the whole sequence fails the same way. */
  lemma {:induction false} BuildRecordsFailurePersists(returnAddress: string, rows: seq<Row>, format: Formatter, n: nat)
    requires n <= |rows| && BuildRecords(returnAddress, rows[..n], format).Failure?
    ensures BuildRecords(returnAddress, rows, format) == BuildRecords(returnAddress, rows[..n], format)
    decreases |rows| - n
  {
    if n < |rows| {
      assert rows[..n + 1][..n] == rows[..n];
      BuildRecordsFailurePersists(returnAddress, rows, format, n + 1);
    } else {
      assert rows[..n] == rows;
    }
  }

  /** The two-line return address "123 Main St\nSpringfield, IL 62704" is
      stored as one text with an embedded line break.
      The literals come in as a parameter fixed by `requires`: unfolding
      `HtmlFormatting` on a string literal is too expensive for the verifier. */
  lemma ReturnAddressExample(first: string, second: string)
    requires first == "123 Main St\n" && second == "Springfield, IL 62704"
    ensures HtmlFormatting(Join([first, second]))
            == "123" + Nbsp + "Main" + Nbsp + "St" + LineBreak
               + "Springfield," + Nbsp + "IL" + Nbsp + "62704"
  {
    assert HtmlFormatting(Join([first, second])) == HtmlFormatting(first) + HtmlFormatting(second) by {
      JoinTwo(first, second);
      HtmlFormattingConcat(first, second);
    }
    FirstLine(first);
    assert HtmlFormatting(second) == "Springfield," + Nbsp + "IL" + Nbsp + "62704" by {
      assert second == "Springfield," + [' '] + "IL" + [' '] + "62704";
      EscapeTwoSpaces("Springfield,", "IL", "62704");
    }
  }

  /** Joining two lines. */
  lemma JoinTwo(first: string, second: string)
    ensures Join([first, second]) == first + second
  {
    assert [first, second][..1] == [first];
    assert [first][..0] == [];
    assert Join([first]) == [] + first == first;
  }

  /** The first line of the example: two spaces and the closing newline.
      The literal comes in as a parameter fixed by `requires`: unfolding
      `HtmlFormatting` on a string literal is too expensive for the verifier. */
  lemma FirstLine(s: string)
    requires s == "123 Main St\n"
    ensures HtmlFormatting(s) == "123" + Nbsp + "Main" + Nbsp + "St" + LineBreak
  {
    assert s == "123" + [' '] + "Main" + [' '] + "St" + ['\n'];
    EscapeTwoSpaces("123", "Main", "St");
    HtmlFormattingConcat("123" + [' '] + "Main" + [' '] + "St", ['\n']);
    HtmlFormattingChar('\n');
  }

  class ShippingLabelWriter {
    var orderFile: string
    var returnAddress: string
    var orderData: seq<Row>

    /** `__init__`: remembers the order file and loads the return address
        from the lines of `return_address.txt`. */
    constructor (orderFile: string, returnAddressLines: seq<string>)
      ensures this.orderFile == orderFile
      ensures returnAddress == HtmlFormatting(Join(returnAddressLines))
      ensures orderData == []
    {
      this.orderFile := orderFile;
      returnAddress := "";
      orderData := [];
      new;
      ReadReturnAddress(returnAddressLines);
    }

    /** `read_return_address`: accumulates the file's lines, then stores the
        escaped text. */
    method ReadReturnAddress(lines: seq<string>)
      modifies this`returnAddress
      ensures returnAddress == HtmlFormatting(Join(lines))
    {
      var text := "";
      for i := 0 to |lines|
        invariant text == Join(lines[..i])
      {
        assert lines[..i + 1][..i] == lines[..i];
        text := text + lines[i];
      }
      assert lines[..|lines|] == lines;
      returnAddress := HtmlFormatting(text);
    }

    /** `create_labels`: stores the rows, builds one record per row in row
        order, each pairing the shared return address with that row's
        formatted address (BuildRecords), then names the output after the
        date and makes the name unique. A row `format_address` rejects
        aborts the whole run with that row's error. */
    method CreateLabels(orders: seq<Row>, month: nat, day: nat, year: nat, existing: set<string>)
      returns (job: Result<LabelJob, FormatError>)
      requires 1 <= month <= 12 && 1 <= day <= 31 && 1 <= year <= 9999
      modifies this`orderData
      ensures orderData == orders
      ensures job.Failure? ==> BuildRecords(returnAddress, orders, FormatAddress) == Failure(job.error)
      ensures job.Success? ==>
        && BuildRecords(returnAddress, orders, FormatAddress) == Success(job.value.records)
        && job.value.target !in existing
        && exists n: nat :: n <= |existing|
             && LeastFreeIndex(LabelFileName(month, day, year), existing, n)
             && job.value.target == Probe(LabelFileName(month, day, year), n)
    {
      orderData := orders;
      var records: seq<LabelRecord> := [];
      for i := 0 to |orderData|
        invariant orderData == orders
        invariant BuildRecords(returnAddress, orders[..i], FormatAddress) == Success(records)
      {
        assert orders[..i + 1][..i] == orders[..i];
        var sendingAddress := FormatAddress(orderData[i]);
        if sendingAddress.Failure? {
          assert BuildRecords(returnAddress, orders[..i + 1], FormatAddress) == Failure(sendingAddress.error);
          BuildRecordsFailurePersists(returnAddress, orders, FormatAddress, i + 1);
          return Failure(sendingAddress.error);
        }
        records := records + [LabelRecord(returnAddress, sendingAddress.value)];
      }
      assert orders[..|orders|] == orders;
      var labelFileName := LabelFileName(month, day, year);
      labelFileName := UniquifyFilename(labelFileName, existing);
      job := Success(LabelJob(records, labelFileName));
    }
  }
}
