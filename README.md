# TCGplayer shipping-label writer, modelled in Dafny

`tcg_labels.py` turns a TCGplayer order export (a CSV file) into a PDF of 4x6
shipping labels. This project models the part of the script that computes
things, leaving out its I/O:

- `html_formatting` (module `HtmlFormat`). It escapes whitespace for the HTML
  label template with three chained `str.replace` calls: spaces, then
  newlines, then tabs.
- `format_address` (module `Address`). It turns one order row into four
  escaped fragments: the name line, the street line, the city line and the
  country.
  - A row is a map from column name to `Option<string>`. A row shorter than
    the header holds `None`, as `csv.DictReader` gives it.
  - A missing column is a `KeyError`, modelled as `MissingColumn`.
  - A `None` country is an `AttributeError`, modelled as `CountryNotText`.
- `uniquify_filename` and the dated output name (module `Filenames`).
  - The filesystem is a finite set of existing paths.
  - `os.path.splitext` follows its POSIX definition.
  - `str(n)` is a decimal digit string.
  - `%m-%d-%Y` is two, two and four zero-padded digits.
- The label writer object (module `Labels`, class `ShippingLabelWriter`):
  - its constructor;
  - `read_return_address`, a loop that accumulates the file's lines and then
    escapes the text;
  - `create_labels`, which stores the rows, builds one record per row and
    names the output file.

Module `Wrappers` holds the `Option` and `Result` types.

The escaping is **not idempotent**. It replaces spaces before newlines, so
the `<br />` it emits keeps a literal space. A second pass turns that space
into `&nbsp;`. The model follows the code: escaping twice equals escaping once
exactly when the input has no newline (`HtmlFormattingIdempotentIff`).

## Model

| member | source | states |
|---|---|---|
| HtmlFormat.ReplaceChar | tcg_labels.py:29-31 | definition of `str.replace` for a one-character pattern, by recursion over the text; its properties are the lemmas `ReplaceCharAbsent` and `ReplaceCharConcat` |
| HtmlFormat.ReplaceCharAbsent | tcg_labels.py:29-31 | `replace` of a character the text does not contain returns the text unchanged |
| HtmlFormat.ReplaceCharConcat | tcg_labels.py:29-31 | `replace` of one character distributes over concatenation |
| HtmlFormat.HtmlFormatting | tcg_labels.py:27-33 | definition of `html_formatting`: spaces, then newlines, then tabs replaced, in the source order; `HtmlFormattingIsEscape` proves it equals the per-character reference `Escape`, and the lemmas below state its properties |
| HtmlFormat.HtmlFormattingChar | tcg_labels.py:29-31 | a single character becomes `&nbsp;` (space), `<br />` (newline), four `&nbsp;` (tab), or itself |
| HtmlFormat.HtmlFormattingConcat | tcg_labels.py:27-33 | the escaping of `a + b` is the escaping of `a` followed by that of `b` |
| HtmlFormat.HtmlFormattingIsEscape | tcg_labels.py:27-33 | the three chained replacements equal the character-by-character reference escaping `Escape` |
| HtmlFormat.EscapeCounts | tcg_labels.py:29-31 | reference escaping: spaces out = newlines in, no newline or tab out, length grows 5 per space/newline and 23 per tab |
| HtmlFormat.HtmlFormattingNoNewlineOrTab | tcg_labels.py:29-31 | the output never contains a raw newline or tab |
| HtmlFormat.HtmlFormattingSpaces | tcg_labels.py:29-31 | the output holds exactly one literal space per input newline (the one inside `<br />`), so it has a space iff the input has a newline |
| HtmlFormat.HtmlFormattingLength | tcg_labels.py:29-31 | the output length is the input length plus 5 per space or newline plus 23 per tab |
| HtmlFormat.HtmlFormattingFixedIff | tcg_labels.py:27-33 | text is returned unchanged iff it has no space, newline or tab |
| HtmlFormat.HtmlFormattingIdempotentIff | tcg_labels.py:29-31 | escaping twice equals escaping once iff the input has no newline |
| HtmlFormat.HtmlFormattingNotIdempotent | tcg_labels.py:29-30 | a newline escapes to `<br />`, which a second pass turns into `<br&nbsp;/>` |
| HtmlFormat.EscapeAroundSpace | tcg_labels.py:29 | in two plain words joined by one space only the space changes, to `&nbsp;` |
| HtmlFormat.EscapeTwoSpaces | tcg_labels.py:29 | in three plain words joined by single spaces only the spaces change |
| Address.Field | tcg_labels.py:48 | definition of dict lookup `row[column]`: the column's value when present, a `KeyError` naming the column otherwise; a plain definition with no contract, its behaviour shows in `FormatAddress` and `FormatAddressMissingColumn` |
| Address.Interpolate | tcg_labels.py:48-54 | definition of how an f-string writes a field: the text itself, or "None" for `None`; used by `FormatAddressFragments` and `Address2Omission` |
| Address.KeepsAddress2 | tcg_labels.py:51 | definition of the Address2 test: present and not the text "None"; its boundary cases are stated by `Address2Omission` |
| Address.HasColumnsIff | tcg_labels.py:48-56 | the spelled-out column test `HasColumns` is exactly membership of every name in `Columns`, the columns in the order `format_address` reads them |
| Address.FormatAddress | tcg_labels.py:44-59 | succeeds iff the row has all eight columns and a non-None country; then yields exactly four fragments; a row with all columns fails only on a None country |
| Address.FormatAddressFragments | tcg_labels.py:47-59 | the four fragments in order: escaped first name, `&nbsp;`, last name, `<br />`; the street line; city, `,&nbsp;`, state, `&nbsp;`, postal code, `<br />`; the escaped country with no break; none holds a raw newline or tab |
| Address.Address2Omission | tcg_labels.py:50-52 | `None` and the text "None" in Address2 leave the street line as the escaped Address1 alone; an empty Address2 appends one `&nbsp;` |
| Address.FormatAddressMissingColumn | tcg_labels.py:48-56 | the `KeyError` names the first column, in reading order, that the row lacks |
| Address.NameLine | tcg_labels.py:48 | the name line is escaped first name + `&nbsp;` + escaped last name + `<br />` |
| Address.LeadingSpace | tcg_labels.py:52 | the appended second address line is `&nbsp;` + its escaped text |
| Address.CityLine | tcg_labels.py:54 | the city line is escaped city + `,&nbsp;` + state + `&nbsp;` + postal code + `<br />` |
| Address.SingleOrderExample | tcg_labels.py:44-59 | a Jane Doe order with no second street line yields `Jane&nbsp;Doe<br />`, `1&nbsp;Test&nbsp;Ave`, `Metropolis,&nbsp;NY&nbsp;10001<br />`, `USA` |
| Filenames.NatToString | tcg_labels.py:67 | `str(counter)` is a non-empty string of decimal digits; `NatToStringNoLeadingZero` pins the canonical form |
| Filenames.NatToStringNoLeadingZero | tcg_labels.py:67 | `str(n)` starts with '0' only for n == 0, which is written "0": no zero padding, so the first probe is `base (1).ext`, never `base (01).ext` |
| Filenames.NatToStringRoundTrip | tcg_labels.py:67 | `str(n)` reads back as `n` |
| Filenames.NatToStringInjective | tcg_labels.py:67 | distinct counters are written as distinct strings |
| Filenames.LastIndexOf | tcg_labels.py:63 | the last index holding a character, or -1 when there is none |
| Filenames.SplitExt | tcg_labels.py:63 | `splitext` gives base + ext == path, with ext empty or one dot followed by no dot and no '/'; ext is non-empty iff the last '.' comes after the last '/' with a non-dot character between them, and then the base ends just before that last '.' |
| Filenames.SplitExtPlain | tcg_labels.py:63 | a directory-free `stem + ext` with a dot-free stem splits into exactly `(stem, ext)` |
| Filenames.Probe | tcg_labels.py:67 | definition of the n-th path the loop checks: the path itself for 0, else `base (n).ext`; `ProbesDistinct`, `UniquifyFilename` and `LabelFileNameProbe` state its properties |
| Filenames.ProbesDistinct | tcg_labels.py:64-68 | no two candidate paths of one path coincide |
| Filenames.ProbesBound | tcg_labels.py:64-68 | if the first n candidates all exist, at least n paths exist |
| Filenames.LeastFreeIndexBound | tcg_labels.py:64-68 | the first free candidate index is at most the number of existing paths, so at most that many + 1 existence checks |
| Filenames.LeastFreeIndexUnique | tcg_labels.py:64-68 | the first free candidate is unique |
| Filenames.UniquifyFilename | tcg_labels.py:61-70 | the result is not an existing path; a free path is returned unchanged; otherwise the result is `base (n).ext` for the least free n, with every earlier candidate existing and n at most the number of existing paths |
| Filenames.SecondRunLater | tcg_labels.py:61-70 | a second run that sees the first run's output picks a later, different name that also does not overwrite any other file |
| Filenames.LabelsPdfExample | tcg_labels.py:61-70 | with nothing taken `labels.pdf` stays; with it taken the result is `labels (1).pdf`; with both taken `labels (2).pdf` |
| Filenames.TwoDigits | tcg_labels.py:84 | `%m` and `%d` are two digits |
| Filenames.FourDigits | tcg_labels.py:84 | `%Y` is four digits |
| Filenames.TwoDigitsRoundTrip | tcg_labels.py:84 | a two-digit field reads back as its number |
| Filenames.FourDigitsRoundTrip | tcg_labels.py:84 | a four-digit field reads back as its number |
| Filenames.DateStamp | tcg_labels.py:84 | `MM-DD-YYYY` is ten characters with dashes at positions 2 and 5 |
| Filenames.LabelFileName | tcg_labels.py:84 | `tcg_labels_MM-DD-YYYY.pdf` is 25 characters long |
| Filenames.LabelFileNameRoundTrip | tcg_labels.py:84 | the date can be read back from the file name, so distinct dates give distinct names |
| Filenames.LabelFileNameProbe | tcg_labels.py:84-85 | the n-th candidate of the label name is `tcg_labels_MM-DD-YYYY (n).pdf` |
| Labels.Join | tcg_labels.py:39-40 | definition of the text accumulated line by line; `ReadReturnAddress` keeps it as its loop invariant and `HtmlFormattingJoin` relates it to the escaping |
| Labels.HtmlFormattingJoin | tcg_labels.py:37-42 | escaping the accumulated file text equals joining the escaped lines |
| Labels.JoinTwo | tcg_labels.py:39-40 | accumulating two lines gives their concatenation |
| Labels.ReturnAddressExample | tcg_labels.py:35-42 | the lines `123 Main St\n` and `Springfield, IL 62704` are stored as `123&nbsp;Main&nbsp;St<br />Springfield,&nbsp;IL&nbsp;62704` |
| Labels.BuildRecords | tcg_labels.py:79-82 | definition of the records built for the rows, or the first failing row's error; `BuildRecordsSucceeds`, `BuildRecordsContents`, `BuildRecordsFirstError` and `BuildRecordsFailurePersists` state its properties |
| Labels.BuildRecordsSucceeds | tcg_labels.py:79-82 | building records succeeds iff every row can be formatted |
| Labels.BuildRecordsContents | tcg_labels.py:79-82 | one record per row, in row order, each pairing the shared return address with that row's formatted address |
| Labels.BuildRecordsFirstError | tcg_labels.py:79-82 | a failed build reports the error of the first row that cannot be formatted, and every earlier row formats |
| Labels.BuildRecordsFailurePersists | tcg_labels.py:80-81 | once a prefix of the rows fails, the whole run fails with that error |
| Labels.ShippingLabelWriter.constructor | tcg_labels.py:16-18 | stores the order file and the escaped return address |
| Labels.ShippingLabelWriter.ReadReturnAddress | tcg_labels.py:35-42 | the loop accumulates the lines in order; the field becomes the escaping of their concatenation, and nothing else changes |
| Labels.ShippingLabelWriter.CreateLabels | tcg_labels.py:72-87 | stores the rows; the loop builds exactly the records of `BuildRecords` or stops with the first row's error; the target is the least free candidate of `tcg_labels_MM-DD-YYYY.pdf` and is not an existing path |

## Left out

- Reading the CSV file with `csv.DictReader` (tcg_labels.py:20-25) is file I/O. `CreateLabels` takes the rows as a parameter.
- Opening `return_address.txt` (tcg_labels.py:38) is file I/O. `ReadReturnAddress` and the constructor take the file's lines as a parameter. A missing file, which raises `FileNotFoundError`, is not modelled.
- `blabel.LabelWriter` and PDF rendering (tcg_labels.py:76-77, 87) are a foreign library. `CreateLabels` returns the records and target name that would be handed to `write_labels`.
- `datetime.today()` (tcg_labels.py:84) is a clock read. Month, day and year are parameters, in the ranges a date can take.
- Filenames.FourDigits: pads every year to four digits. For years below 1000, Python's `%Y` output depends on the platform's `strftime`, and the model does not follow it.
- `os.path.exists` (tcg_labels.py:66) is replaced by membership in a finite set of existing paths. The set does not change while the loop runs.
- The argparse command line (tcg_labels.py:91-99) is plumbing.
- Labels.ShippingLabelWriter.constructor: sets `orderData` to the empty sequence. The Python object has no `order_data` attribute until `create_labels` runs.
- Python exceptions are modelled as `Result` failures. A row whose `format_address` raises ends `CreateLabels` with that row's error and no job. The rows are still stored in `orderData`, as in the script.
- The record-building lemmas (`BuildRecords*`) take the formatter as a parameter. They hold for any formatter. `CreateLabels` uses them with `Address.FormatAddress`.
- Under the header's column names a `csv.DictReader` row holds text, or `None` for a line shorter than the header. The extra fields of a longer line are stored as a list under the key `None` (`restkey`). `format_address` never reads that entry, so a row is modelled as a map from column names to optional text.
