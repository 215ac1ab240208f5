# csv field reader — a Dafny model

This project models the core of the Go package `github.com/earthboundkid/csv`.
The package wraps `encoding/csv` so that a table's columns can be read by
name. The model covers these parts of `fieldreader.go`:

- **Delimiter resolution.** `Comma` of `NULL` (-1) selects 0x00. `0` keeps
  the default `','`. Any other rune is used as given.
- **The field-name index.** Names come from `FieldNames` or from the first
  record read. Each name maps to its position, and when a name repeats, the
  later position wins.
- **`Rows`.** This is the pull loop over the tokenizer:
  - the header is read first unless names were supplied;
  - end of stream stops the loop silently;
  - an error is yielded once and stops the loop;
  - every other record is yielded as a row under the shared index;
  - a consumer that answers false stops the loop, and nothing more is read.
- **`ReadAll`.** It collects `Fields()` snapshots on an all-or-nothing basis.
- **`Field` and `Fields`** on a row.
- **Record binding.** `buildFieldIdx` compiles a plan once, from the first
  element of the stream. `scan` replays that plan on every row. `Scan`,
  `ScanAll` and `Row.Scan` are built on these two.

The tokenizer (`encoding/csv.Reader`) is a parameter. It is a function from
the reader configuration to the sequence of results its successive `Read`
calls return: a record, an error, or end of stream. Every operation is
therefore a pure function of the options and that tokenizer. A Go iterator
is modelled as the list of elements it hands to its consumer plus the
number of `Read` calls it makes. The consumer is either draining or stops
after data row `k`.

A struct that is scanned into is modelled as a list of field descriptors:
string kind, exportedness and the `csv` tag. Its values are a list of
strings.

Modules, one per file:

- `Wrappers` (`wrappers.dfy`): `Option` and `Result`.
- `Tokenizer` (`tokenizer.dfy`): options, the reader configuration and the
  tokenizer abstraction.
- `FieldIndex` (`field_index.dfy`): the index, `Row`, `Field` and `Fields`.
- `RowStream` (`row_stream.dfy`): `Rows` and `ReadAll`.
- `RecordBinding` (`record_binding.dfy`): `buildFieldIdx`, `scan`, `Scan`,
  `ScanAll` and `Row.Scan`.
- `Examples` (`examples.dfy`): the package's documented examples, restated
  for any tokenizer producing records of that form.

### Short records

`Field` (fieldreader.go:120) and `Fields` (fieldreader.go:129) index the
record directly with the position the index gives. A record shorter than
the index expects therefore makes them panic; no empty value is returned
for a missing column. The model states this as a precondition:

- `Field` requires the looked-up name's column to exist.
- `Fields` and `ReadAll` require every indexed column to exist (`Covers`,
  `RowsCovered`).
- `FieldIndex.IndexCoversIff` states exactly when a record is long enough.

## Model

| member | source | states |
|---|---|---|
| Tokenizer.ResolveComma | fieldreader.go:47-51 | The delimiter is never NULL. It is 0x00 exactly when the option is NULL, ',' when the option is 0, and the option itself otherwise. |
| Tokenizer.Configure | fieldreader.go:45-54 | The reader configuration carries the resolved delimiter and passes Comment, LazyQuotes and TrimLeadingSpace through unchanged. |
| FieldIndex.BuildIndex | fieldreader.go:69-74 | The keys are exactly the names. Each key maps to a position holding that name. No occurrence of a name lies after its indexed position, so the last occurrence wins. |
| FieldIndex.IndexOfDistinctNames | fieldreader.go:72-74 | When the names are distinct, name i maps to position i. |
| FieldIndex.LastDuplicateWins | fieldreader.go:72-74 | When a name occurs at i and again at a later j, with no occurrence after j, it maps to j. |
| FieldIndex.IndexCoversIff | fieldreader.go:118-132 | A record can be read through the index of `names` without a panic if and only if it has at least as many fields as there are names. |
| FieldIndex.Field | fieldreader.go:118-123 | A known name gives the value at its indexed column. An unknown name gives "". |
| FieldIndex.Fields | fieldreader.go:126-132 | The snapshot's keys are exactly the index's names. Each maps to the value at its column. |
| FieldIndex.FieldsAgreeWithField | fieldreader.go:118-132 | A name is in the snapshot if and only if it is indexed. Field gives the snapshot's value, or "" when the name is absent. |
| FieldIndex.FieldsOfDistinctNames | fieldreader.go:126-132 | With distinct names and a record that is long enough, the snapshot maps name i to field i. |
| RowStream.DataRecords | fieldreader.go:80-89 | These are the records read from a position up to the first read that is not a record. |
| RowStream.Stream | fieldreader.go:80-93 | The loop yields every record as a row under the index, in order. It then yields the terminating error once, if there was one, and stops after that read. A consumer that declines row k stops it after exactly k+1 rows and k+1 reads. |
| RowStream.Rows | fieldreader.go:43-95 | The elements and reads of `Rows` follow the header cases and then the loop characterisation above. |
| RowStream.HeaderHandling | fieldreader.go:56-67 | Without names, the first read is the header and is never yielded. End of stream there yields nothing, and an error there is yielded alone, after one read. With names, no header is read. |
| RowStream.RowsShape | fieldreader.go:69-93 | Only the last element can be an error. Every row is the next record after the header, under the one index built from the resolved names. |
| RowStream.EarlyStopIsPrefix | fieldreader.go:90-92 | A consumer stopping after row k sees a prefix of what a draining consumer sees. Once row k is handed over, no further read is made. |
| RowStream.AllRowsOfCleanInput | fieldreader.go:56-93 | A header followed by N records and end of stream yields exactly N rows, in order, with no error, after N+2 reads. |
| RowStream.Collect | fieldreader.go:98-107 | The result is a success exactly when every element is a value, and it then holds those values in order. Otherwise it is the first error. |
| RowStream.ReadAll | fieldreader.go:98-107 | After the header, ReadAll fails exactly when the records end in an error, and it then returns that error with no partial result. Otherwise it returns one `Fields` snapshot per record, in order. A missing input gives an empty result, and a header error is returned. |
| RowStream.ReadAllOfCleanInput | fieldreader.go:98-107 | With explicit names and only records that are long enough, ReadAll succeeds with one snapshot per record. |
| RecordBinding.BuildPlan | fieldreader.go:181-206 | There is one entry per struct field, in declaration order. An entry is bound if and only if the field is an exported string with a non-empty tag that the index knows, and it then holds that tag's column. |
| RecordBinding.ApplyPlan | fieldreader.go:208-214 | A bound field takes its column's value, and every other field keeps its value. |
| RecordBinding.ApplyPlanOverwrites | fieldreader.go:208-214 | Replaying the plan over an earlier replay gives the same record as replaying it over the original, so nothing from an earlier row survives. |
| RecordBinding.CoveredRowFits | fieldreader.go:201-211 | A row that is long enough for its index fits every binding. |
| RecordBinding.RowScan | fieldreader.go:177-179 | A field that binds takes the value `Field` gives for its tag, and every other field is unchanged. |
| RecordBinding.ScanSteps | fieldreader.go:143-155 | The loop threads the record through the stream elements. It hands over each row's scan, and passes an error through as the last element handed over. Each snapshot equals the plan applied to its own row and the starting record. |
| RecordBinding.RowsShareIndex | fieldreader.go:143-146 | Every row carries the first row's index, so a plan built once from the first element serves every row. |
| RecordBinding.Scan | fieldreader.go:137-157 | There is one element per element of the row stream. A row becomes the record as `RowScan` leaves it, and an error passes through. The reads are those of `Rows`. |
| RecordBinding.ScanAll | fieldreader.go:161-171 | After the header, ScanAll fails exactly when the records end in an error, and it then returns that error. Otherwise it returns, per record in order, the zero record with its bound fields filled from that record. |
| RecordBinding.ScanAllUnboundStayZero | fieldreader.go:161-171 | A field that no column can bind stays zero in every returned record. |
| Examples.HeaderModeExample | example_test.go:12-33 | With a header and three-field records, `Rows` yields one row per record, in order. `Field("username")` on a row reads the third column. |
| Examples.EarlyStopExample | fieldreader.go:90-92 | Stopping after the first row makes exactly two reads: the header and one record. |
| Examples.ExplicitNamesExample | example_test.go:37-58 | With `;`, `#` and explicit names, ReadAll returns one name-to-value map per record, in order. |
| Examples.MalformedRowExample | fieldreader.go:85-88 | A row, then an error, then a further record: the row is yielded, the error is yielded once, the later record is never reached, and ReadAll returns the error. |
| Examples.ScanExample | example_test.go:60-86 | Scanning into the tagged `User` struct yields, per record, username, first name and last name taken from their columns. |

## Left out

- The CSV tokenizer itself (quoting, comments, lazy quotes, leading-space trimming, `FieldsPerRecord` checks) is part of `encoding/csv`. Here it is a parameter, and the model only passes the options it receives through to it.
- `io.Reader` and the construction of the `csv.Reader` are left out. The source of input is whatever the tokenizer parameter returns.
- `ReuseRecord` (fieldreader.go:46) and the reuse of one `Row` across iterations are left out. They are aliasing concerns with no effect on the values handed over, because every row in the model is an immutable value.
- Go's iterator protocol (`iter.Seq2`, `iter.Seq`, closures over `yield`) is modelled as the finite list of elements handed over, plus a consumer that drains or stops after a given row.
- Reflection is modelled by field descriptors, and `SetString` by list update. The panics for a target that is not a pointer to a struct (fieldreader.go:183-189) cannot arise, because every model shape is a struct.
- `fields` (fieldreader.go:216-224) is only an enumeration of struct fields in declaration order. It is folded into `RecordBinding.BuildPlan`, which walks the descriptors in that order.
- Zero values of non-string fields are written as "". Those fields are never bound, so the placeholder is never overwritten.
- Nil and empty slices and maps are not distinguished. Only `FieldNames` nil versus set matters, and that is modelled as `Option`.
- `Rune` is the signed 32-bit subset type of Go's `rune`. Only the delimiter values NULL, 0 and the rest are distinguished; no arithmetic on runes is modelled.
- RecordBinding.Scan: a stream whose first element is an error, scanned into a struct with a candidate field, makes `buildFieldIdx` read the index through a nil row (fieldreader.go:145, 201) and panic. The model excludes that case with `ScanSafe` and claims nothing about it.
- RecordBinding.Scan: Go's `Scan` writes each row into the caller's `*T` in place (fieldreader.go:137, 151), and the consumer holds that pointer between yields. The model assumes the consumer does not write `*v` between yields; a value it wrote into an unbound field would carry into every later row, while `ScansOf` states each row's record over the starting `v`. `ScanAll` is unaffected, because its own loop never writes `v` (fieldreader.go:164-169).
- FieldIndex.Field, FieldIndex.Fields, RowStream.ReadAll, RecordBinding.RowScan, RecordBinding.Scan, RecordBinding.ScanAll: an index position past the end of the record panics in the code. These members require it not to happen (`Covers`, `RowsCovered`, `BindingsFit`, `ScanSafe`) rather than model the panic.
- The benchmarks (example_test.go:88-137) measure speed only.
