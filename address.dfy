/** The label writer's `format_address`: one order row becomes four escaped
    address fragments (name line, street line, city line, country). */
module Address {
  import opened Wrappers
  import opened HtmlFormat

  /** One row of the order export as csv.DictReader yields it: column name to
      value, where a row shorter than the header holds None for the rest. */
  type Row = map<string, Option<string>>

  /** The two exceptions `format_address` can raise: a KeyError for a column
      the export lacks, and an AttributeError when the Country value is None
      (it is escaped directly, without an f-string around it). */
  datatype FormatError = MissingColumn(column: string) | CountryNotText

  /** The columns in the order `format_address` first reads them. */
  const Columns: seq<string> :=
    ["FirstName", "LastName", "Address1", "Address2", "City", "State", "PostalCode", "Country"]

  /** The row has every column `format_address` reads, that is, every name
      in `Columns` (spelled out; `HasColumnsIff` ties the two together). */
  predicate HasColumns(row: Row) {
    && "FirstName" in row && "LastName" in row && "Address1" in row && "Address2" in row
    && "City" in row && "State" in row && "PostalCode" in row && "Country" in row
  }

  /** `row[column]`. */
  function Field(row: Row, column: string): Result<Option<string>, FormatError> {
    if column in row then Success(row[column]) else Failure(MissingColumn(column))
  }

  /** What an f-string writes for a value: None is written as "None". */
  function Interpolate(v: Option<string>): string {
    match v
    case None => "None"
    case Some(text) => text
  }

  /** The second street line is written unless it is None or the text "None";
      an empty string still counts as present. */
  predicate KeepsAddress2(v: Option<string>) {
    v.Some? && v.value != "None"
  }

  /** `HasColumns` is membership of every name of `Columns`. */
  lemma HasColumnsIff(row: Row)
    ensures HasColumns(row) <==> forall i :: 0 <= i < |Columns| ==> Columns[i] in row
  {
    assert Columns[0] == "FirstName" && Columns[1] == "LastName" && Columns[2] == "Address1";
    assert Columns[3] == "Address2" && Columns[4] == "City" && Columns[5] == "State";
    assert Columns[6] == "PostalCode" && Columns[7] == "Country";
  }

  function FormatAddress(row: Row): (r: Result<seq<string>, FormatError>)
    ensures r.Success? <==> HasColumns(row) && row["Country"].Some?
    ensures r.Success? ==> |r.value| == 4
    ensures r.Failure? && HasColumns(row) ==> r.error == CountryNotText
  {
    var first :- Field(row, "FirstName");
    var last :- Field(row, "LastName");
    var name := HtmlFormatting(Interpolate(first) + " " + Interpolate(last) + "\n");
    var address1 :- Field(row, "Address1");
    var address2 :- Field(row, "Address2");
    var street := HtmlFormatting(Interpolate(address1))
      + (if KeepsAddress2(address2) then HtmlFormatting(" " + Interpolate(address2)) else "");
    var city :- Field(row, "City");
    var state :- Field(row, "State");
    var postalCode :- Field(row, "PostalCode");
    var cityStateZip := HtmlFormatting(
      Interpolate(city) + ", " + Interpolate(state) + " " + Interpolate(postalCode) + "\n");
    var country :- Field(row, "Country");
    if country.None? then Failure(CountryNotText)
    else Success([name, street, cityStateZip, HtmlFormatting(country.value)])
  }

  const CommaNbsp: string := [','] + Nbsp

  /** Text an escaped field contributes: the field's own escaping. */
  function Esc(row: Row, column: string): string
    requires column in row
  {
    HtmlFormatting(Interpolate(row[column]))
  }

  /** The four fragments, spelled out: the name line and the city line end in
      a line break, the street line carries the second address line after an
      escaped space only when it is kept, and the country has no break added.
      No fragment holds a raw newline or tab. */
  lemma FormatAddressFragments(row: Row)
    requires FormatAddress(row).Success?
    ensures HasColumns(row)
    ensures var f := FormatAddress(row).value;
      && f[0] == Esc(row, "FirstName") + Nbsp + Esc(row, "LastName") + LineBreak
      && f[1] == Esc(row, "Address1")
                 + (if KeepsAddress2(row["Address2"]) then Nbsp + Esc(row, "Address2") else "")
      && f[2] == Esc(row, "City") + CommaNbsp + Esc(row, "State") + Nbsp
                 + Esc(row, "PostalCode") + LineBreak
      && f[3] == Esc(row, "Country")
      && '\n' !in f[0] + f[1] + f[2] + f[3] && '\t' !in f[0] + f[1] + f[2] + f[3]
  {
    var first, last := Interpolate(row["FirstName"]), Interpolate(row["LastName"]);
    var address1, address2 := Interpolate(row["Address1"]), Interpolate(row["Address2"]);
    var city, state, zip := Interpolate(row["City"]), Interpolate(row["State"]), Interpolate(row["PostalCode"]);
    var country := row["Country"].value;
    FormatAddressValue(row);
    var f := FormatAddress(row).value;
    HtmlFormattingNoNewlineOrTab(first + " " + last + "\n");
    HtmlFormattingNoNewlineOrTab(address1);
    HtmlFormattingNoNewlineOrTab(" " + address2);
    HtmlFormattingNoNewlineOrTab(city + ", " + state + " " + zip + "\n");
    HtmlFormattingNoNewlineOrTab(country);
    NameLine(first, last);
    LeadingSpace(address2);
    CityLine(city, state, zip);
    assert f[3] == HtmlFormatting(country);
  }

  /** What `format_address` returns for a row that has every column: an
      unfolding of its definition, used as a step by `FormatAddressFragments`
      (it states nothing beyond the body). */
  lemma FormatAddressValue(row: Row)
    requires FormatAddress(row).Success?
    ensures HasColumns(row)
    ensures FormatAddress(row).value == [
      HtmlFormatting(Interpolate(row["FirstName"]) + " " + Interpolate(row["LastName"]) + "\n"),
      HtmlFormatting(Interpolate(row["Address1"]))
        + (if KeepsAddress2(row["Address2"]) then HtmlFormatting(" " + Interpolate(row["Address2"])) else ""),
      HtmlFormatting(Interpolate(row["City"]) + ", " + Interpolate(row["State"]) + " "
        + Interpolate(row["PostalCode"]) + "\n"),
      HtmlFormatting(row["Country"].value)]
  {
  }

  /** The optional-line rule at its boundary: None and the text "None" both
      leave the street line as the first address line alone, while an empty
      string is still appended, as one escaped space. */
  lemma Address2Omission(row: Row)
    requires FormatAddress(row).Success?
    ensures (row["Address2"] == None || row["Address2"] == Some("None")) ==>
      FormatAddress(row).value[1] == Esc(row, "Address1")
    ensures row["Address2"] == Some("") ==>
      FormatAddress(row).value[1] == Esc(row, "Address1") + Nbsp
  {
    FormatAddressFragments(row);
    if row["Address2"] == Some("") {
      assert HtmlFormatting("") == "";
    }
  }

  /** A KeyError names the first column, in reading order, that the row lacks. */
  lemma FormatAddressMissingColumn(row: Row, i: nat)
    requires i < |Columns| && Columns[i] !in row
    requires forall j :: 0 <= j < i ==> Columns[j] in row
    ensures FormatAddress(row) == Failure(MissingColumn(Columns[i]))
  {
    assert Columns[0] == "FirstName" && Columns[1] == "LastName" && Columns[2] == "Address1";
    assert Columns[3] == "Address2" && Columns[4] == "City" && Columns[5] == "State";
    assert Columns[6] == "PostalCode" && Columns[7] == "Country";
  }

  /** A single order for Jane Doe, with no second street line, yields the
      four fragments "Jane&nbsp;Doe<br />", "1&nbsp;Test&nbsp;Ave",
      "Metropolis,&nbsp;NY&nbsp;10001<br />" and "USA". */
  lemma SingleOrderExample(row: Row)
    requires "FirstName" in row && row["FirstName"] == Some("Jane")
    requires "LastName" in row && row["LastName"] == Some("Doe")
    requires "Address1" in row && row["Address1"] == Some("1 Test Ave")
    requires "Address2" in row && row["Address2"] == None
    requires "City" in row && row["City"] == Some("Metropolis")
    requires "State" in row && row["State"] == Some("NY")
    requires "PostalCode" in row && row["PostalCode"] == Some("10001")
    requires "Country" in row && row["Country"] == Some("USA")
    ensures FormatAddress(row) == Success([
      "Jane" + Nbsp + "Doe" + LineBreak,
      "1" + Nbsp + "Test" + Nbsp + "Ave",
      "Metropolis" + CommaNbsp + "NY" + Nbsp + "10001" + LineBreak,
      "USA"])
  {
    ExampleNameLine(row);
    ExampleStreetLine(row);
    ExampleCityLine(row);
    ExampleCountry(row);
  }

  /** The four fragments of the example row, one lemma each. */
  lemma ExampleNameLine(row: Row)
    requires FormatAddress(row).Success?
    requires row["FirstName"] == Some("Jane") && row["LastName"] == Some("Doe")
    ensures FormatAddress(row).value[0] == "Jane" + Nbsp + "Doe" + LineBreak
  {
    FormatAddressFragments(row);
    HtmlFormattingFixedIff(row["FirstName"].value);
    HtmlFormattingFixedIff(row["LastName"].value);
  }

  lemma ExampleStreetLine(row: Row)
    requires FormatAddress(row).Success?
    requires row["Address1"] == Some("1 Test Ave") && row["Address2"] == None
    ensures FormatAddress(row).value[1] == "1" + Nbsp + "Test" + Nbsp + "Ave"
  {
    FormatAddressFragments(row);
    TestAvenue(row["Address1"].value);
  }

  lemma ExampleCityLine(row: Row)
    requires FormatAddress(row).Success?
    requires row["City"] == Some("Metropolis") && row["State"] == Some("NY")
    requires row["PostalCode"] == Some("10001")
    ensures FormatAddress(row).value[2] == "Metropolis" + CommaNbsp + "NY" + Nbsp + "10001" + LineBreak
  {
    var city, state, zip := row["City"].value, row["State"].value, row["PostalCode"].value;
    assert FormatAddress(row).value[2]
        == HtmlFormatting(city) + CommaNbsp + HtmlFormatting(state) + Nbsp + HtmlFormatting(zip) + LineBreak by {
      FormatAddressFragments(row);
    }
    PlainWord(city);
    PlainWord(state);
    PlainWord(zip);
  }

  lemma ExampleCountry(row: Row)
    requires FormatAddress(row).Success?
    requires row["Country"] == Some("USA")
    ensures FormatAddress(row).value[3] == "USA"
  {
    FormatAddressFragments(row);
    HtmlFormattingFixedIff(row["Country"].value);
  }

  /** Words of the example with nothing to escape.
      The literal comes in as a parameter fixed by `requires`: unfolding
      `HtmlFormatting` on a string literal is too expensive for the verifier. */
  lemma PlainWord(s: string)
    requires s == "Metropolis" || s == "NY" || s == "10001"
    ensures HtmlFormatting(s) == s
  {
    HtmlFormattingFixedIff(s);
  }

  /** The example's street: its two spaces are escaped.
      The literal comes in as a parameter fixed by `requires`: unfolding
      `HtmlFormatting` on a string literal is too expensive for the verifier. */
  lemma TestAvenue(s: string)
    requires s == "1 Test Ave"
    ensures HtmlFormatting(s) == "1" + Nbsp + "Test" + Nbsp + "Ave"
  {
    assert s == "1" + [' '] + "Test" + [' '] + "Ave";
    EscapeTwoSpaces("1", "Test", "Ave");
  }

  /** The name line escapes piecewise: the separating space becomes
      `&nbsp;` and the final newline `<br />`. */
  lemma NameLine(first: string, last: string)
    ensures HtmlFormatting(first + " " + last + "\n")
            == HtmlFormatting(first) + Nbsp + HtmlFormatting(last) + LineBreak
  {
    EscapeSpace();
    EscapeNewline();
    HtmlFormattingConcat(first, " ");
    HtmlFormattingConcat(first + " ", last);
    HtmlFormattingConcat(first + " " + last, "\n");
  }

  /** The appended second address line starts with an escaped space. */
  lemma LeadingSpace(text: string)
    ensures HtmlFormatting(" " + text) == Nbsp + HtmlFormatting(text)
  {
    EscapeSpace();
    HtmlFormattingConcat(" ", text);
  }

  /** The city line escapes piecewise: ", " becomes `,&nbsp;`, the space
      before the postal code `&nbsp;`, and the final newline `<br />`. */
  lemma CityLine(city: string, state: string, zip: string)
    ensures HtmlFormatting(city + ", " + state + " " + zip + "\n")
            == HtmlFormatting(city) + CommaNbsp + HtmlFormatting(state) + Nbsp
               + HtmlFormatting(zip) + LineBreak
  {
    EscapeSpace();
    EscapeNewline();
    EscapeComma();
    HtmlFormattingConcat(city, ", ");
    HtmlFormattingConcat(city + ", ", state);
    HtmlFormattingConcat(city + ", " + state, " ");
    HtmlFormattingConcat(city + ", " + state + " ", zip);
    HtmlFormattingConcat(city + ", " + state + " " + zip, "\n");
  }

  lemma EscapeSpace()
    ensures HtmlFormatting(" ") == Nbsp
  {
    HtmlFormattingChar(' ');
  }

  lemma EscapeNewline()
    ensures HtmlFormatting("\n") == LineBreak
  {
    HtmlFormattingChar('\n');
  }

  lemma EscapeComma()
    ensures HtmlFormatting(", ") == CommaNbsp
  {
    assert ", " == [','] + [' '];
    HtmlFormattingConcat([','], [' ']);
    HtmlFormattingChar(',');
    HtmlFormattingChar(' ');
  }
}
