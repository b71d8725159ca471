# Variant batch ingestion, modelled in Dafny

This project models the ingestion path of a small genetic-data service. A
"variant batch" text file is turned into typed `GeneticData` records, which
are then stored and queried per individual:

- **Header resolution** (`get_header_order`). The first line must start with
  `#` and list the six `HeaderOrder` labels, comma-separated. The result maps
  each field name to the column of its label.
- **Line decoding** (`convert_to_expected_types`, `parse_file_to_genetic_data`).
  Each later line is stripped and split on commas. The header's columns are
  picked and every column is converted to its field's type. A column whose
  conversion raises `ValueError` is dropped, and only a message is printed.
  The missing argument then makes the `GeneticData(**kwargs)` call fail
  with `TypeError`.
- **Domain model** (`models.py`). It covers the chromosome and allele
  enumerations, the `HeaderOrder` label table and the `GeneticData`
  constructor with its `__post_init__` chromosome check.
- **Store** (`DatabaseHandler`). The two SQLite tables become an immutable
  `Store` value: a sequence of user rows and a sequence of variant rows. Each
  SQL operation becomes a function from a store to the next store and its
  reply. A failing statement, which the source rolls back, is the flag
  `storeFails`.
- **Batch insert** (`batch_insert_genetic_data_to_db`). The whole file is
  decoded first, then written with one insert call.

Two consequences of the code that are easy to miss:

- `__post_init__` (models/models.py:29-37) checks only the chromosome, so
  the alleles are not validated at construction, here or in the source.
- `int()` (utils/file_parser.py:32) accepts a sign, so negative positions
  decode.

Every exception is a constructor of `Models.Error`. Operations that can raise
return `Result`.

Modules, in dependency order:

- `Wrappers`: `Option`, `Result`, `Outcome`.
- `Text`: Python's `str.strip()`, `str.split(sep)`, `int()` and `str(int)`.
- `SeqFacts`: regrouping concatenations, and sequences without repetitions.
- `Models`, then `DatabaseHandler`, then `FileParser`.
- `DatabaseProperties` and `FileParserProperties`: lemmas that relate
  several operations.

## Model

| member | source | states |
|---|---|---|
| Text.Strip | utils/file_parser.py:43 | `strip()` returns a slice of its input that starts and ends with non-whitespace, and everything cut off is whitespace |
| Text.StripUnchanged | utils/file_parser.py:43 | text that neither starts nor ends with whitespace is left unchanged by `strip()` |
| Text.Split | utils/file_parser.py:43 | `split(",")` gives at least one piece, no piece holds the separator, and joining the pieces gives back the text |
| Text.SplitJoin | utils/file_parser.py:43 | splitting a join of separator-free pieces gives back exactly those pieces |
| Text.SplitTrailingSeparator | endpoints/endpoints.py:53 | text ending in the separator splits into at least two pieces, and the last one is empty |
| Text.ParseInt | utils/file_parser.py:32 | `int(text)` only succeeds on text that holds at least one digit |
| Text.ParseIntAccepts | utils/file_parser.py:32 | `int(text)` accepts exactly an optional sign followed by digits, with single underscores allowed between digits, padded on both sides by the whitespace `int()` skips (tab, line feed, vertical tab, form feed, carriage return, space, and non-ASCII whitespace, but not U+001C to U+001F); the value is that of the digits, negated after a minus sign |
| Text.ParseIntPadded | utils/file_parser.py:32 | any padding of `int()` whitespace, then an optional sign, then a digit run, then more such padding, parses to the run's value, negated after a minus sign |
| Text.StripUnique | utils/file_parser.py:43 | when text is whitespace, then a core that starts and ends with non-whitespace, then whitespace, `strip()` returns exactly that core |
| Text.IntRoundTrip | utils/file_parser.py:32 | `int(str(n)) == n` for every integer |
| Models.ChromosomeOf | models/models.py:6-10 | `ChromosomeEnum(s)` returns exactly the member whose value is `s`, otherwise it fails |
| Models.AlleleOf | models/models.py:13-17 | `AlleleEnum(s)` returns exactly the member whose value is `s`, otherwise it fails |
| Models.ChromosomeVocabulary | models/models.py:6-10 | the chromosome values are exactly X, Y, 1 and 2, and distinct members have distinct values |
| Models.AlleleVocabulary | models/models.py:13-17 | the allele values are exactly A, C, G and T, and distinct members have distinct values |
| Models.LabelField | utils/file_parser.py:15 | `value_to_name` maps a label to the member with that value, and to nothing else |
| Models.HeaderOrderTable | models/models.py:47-53 | `HeaderOrder` has six members, each listed once, with pairwise distinct labels, so the reverse table is well defined |
| Models.Construct | models/models.py:20-37 | `GeneticData(**kwargs)` fails with `TypeError` naming the missing fields, then with `ValueError` for a non-member chromosome, and otherwise stores each argument unchanged |
| Models.ConstructStoresFields | tests/test_models.py:8-23 | constructing from an instance's own fields gives that instance back |
| Models.ConstructIgnoresAlleles | models/models.py:29-37 | once construction succeeds, replacing the allele arguments with any values still succeeds: only the chromosome is checked |
| Models.FromRecord | db_utils/database_handler.py:163-173 | the instance rebuilt from a stored row is well typed and holds each column's value in its field: the text identifier, the chromosome and allele members, the integer position and the frequency |
| Models.ToRecord | db_utils/database_handler.py:227-233 | the typed values read out of a well-typed instance, as the insert binds them, rebuild exactly that instance |
| Models.RecordRoundTrip | db_utils/database_handler.py:163-173 | typed records and well-typed instances correspond one to one |
| DatabaseHandler.NextId | db_utils/database_handler.py:68-72 | the key `AUTOINCREMENT` hands out is positive and larger than every key in use |
| DatabaseHandler.InsertNewIndividual | db_utils/database_handler.py:184-204 | registering appends one row with the label and a fresh positive key, leaves earlier rows unchanged, does so even when the label exists, and replies "User ... created" even after a rollback |
| DatabaseHandler.FirstIdWithLabel | db_utils/database_handler.py:117-122 | `fetchone()` gives the key of the first row whose label matches, or none when no row matches |
| DatabaseHandler.GetIdForIndividualId | db_utils/database_handler.py:113-127 | a label resolves exactly when some row carries it, and then to the key of such a row |
| DatabaseHandler.Tagged | db_utils/database_handler.py:225-236 | one row per record, in order, each owned by the given key |
| DatabaseHandler.InsertGeneticDataToDb | db_utils/database_handler.py:206-248 | an unresolved individual gets "Individual not found" and no change; a position outside SQLite's signed 64-bit `INTEGER` raises `OverflowError`, which the `except sqlite3.DatabaseError` clause lets through, with no change; otherwise the reply is "Succesfully inserted data", and either all records are appended under the key or, after a rollback, none |
| DatabaseHandler.VariantFilter | db_utils/database_handler.py:137-139 | an absent or empty `variants` gives no filter; otherwise the filter holds the comma-separated ids, none holding a comma, which join back to the text |
| DatabaseHandler.SelectRows | db_utils/database_handler.py:142-158 | the query returns exactly the records stored under the key that pass the `IN` filter, each as many times as it is stored under the key (there is no `DISTINCT`) |
| DatabaseHandler.GetIndividualData | db_utils/database_handler.py:129-182 | an unresolved individual gets "User not found"; otherwise the answer holds exactly that individual's records that pass the filter, each as often as it is stored |
| DatabaseHandler.GetAllUsers | db_utils/database_handler.py:90-111 | returns none when there are no users and otherwise every user row |
| DatabaseProperties.RegisterThenListUsers | db_utils/database_handler.py:90-111 | after a committed registration the listing is the earlier listing (empty when there was none) plus the new label under the next fresh key; after a rollback it is unchanged |
| DatabaseProperties.EmptyStoreValid | db_utils/database_handler.py:82-88 | the freshly created tables satisfy the key and foreign-key invariant and list no users |
| DatabaseProperties.InsertNewIndividualPreservesValid | db_utils/database_handler.py:184-204 | registering keeps keys positive and distinct and every variant row owned |
| DatabaseProperties.InsertGeneticDataPreservesValid | db_utils/database_handler.py:206-248 | inserting variants keeps every row owned by a registered user |
| DatabaseProperties.ResolvedIdsAreTruthy | db_utils/database_handler.py:141 | in a valid store the `if id:` test passes exactly for registered individuals |
| DatabaseProperties.RegisterTwiceGivesTwoIdentities | db_utils/database_handler.py:184-204 | registering one name twice gives two rows with that name and distinct keys |
| DatabaseProperties.RegisterThenResolve | db_utils/database_handler.py:113-127 | after registering, a new name resolves to the new key, an existing name keeps its earlier key, and other names are unaffected |
| DatabaseProperties.FirstIdWithLabelAppend | db_utils/database_handler.py:117-122 | appending a user row changes a lookup only if no earlier row matched |
| DatabaseProperties.SelectRowsAppend | db_utils/database_handler.py:142-158 | selecting from concatenated tables concatenates the selections |
| DatabaseProperties.SelectTagged | db_utils/database_handler.py:141-158 | rows written under a key come back in full and in order for that key, and never for another key |
| DatabaseProperties.IngestThenQuery | db_utils/database_handler.py:206-248 | after an insert without store error, the individual's unfiltered query returns the earlier records plus exactly the inserted ones when every position fits an `INTEGER`, and the earlier records alone otherwise; other individuals' answers are unchanged |
| DatabaseProperties.AppendThenQuery | db_utils/database_handler.py:206-248 | when the insert appends, the individual's query gains exactly the inserted records and other individuals' answers are unchanged |
| DatabaseProperties.UnknownIndividualNoWrite | db_utils/database_handler.py:209-248 | an unregistered individual gets "Individual not found" with no write, and "User not found" from a query |
| DatabaseProperties.SelectFilteredIsKept | db_utils/database_handler.py:155-158 | the filtered selection is the unfiltered one restricted to listed ids, in the same order |
| DatabaseProperties.FilteredQuery | db_utils/database_handler.py:137-158 | an empty filter filters nothing; a non-empty one keeps exactly the records whose ids are listed |
| FileParser.LookupLabel | utils/file_parser.py:15-18 | a label looks up its member, or raises `KeyError` carrying the label |
| FileParser.LookupLabels | utils/file_parser.py:15-18 | the lookups fail exactly when some label is unknown, and then on the first unknown label; otherwise they give each label's member, in order |
| FileParser.IndexFields | utils/file_parser.py:17-19 | the dict's keys are exactly the looked-up fields, each mapped to a column holding it, and a repeated field keeps its last column |
| FileParser.GetHeaderOrder | utils/file_parser.py:7-19 | rejects a line without `#`, then a label count other than six, then the first unknown label; on success each key maps to the last column holding its label, and the keys are exactly the fields some label names |
| FileParser.Coerce | utils/file_parser.py:24-36 | each conversion yields a value of the field's annotated type; the identifier passes through as text; a chromosome converts exactly when it is X, Y, 1 or 2, an allele exactly when it is A, C, G or T, both to the member with that value; the position converts exactly when `int()` accepts it, to that integer; the frequency converts exactly when `float()` accepts it |
| FileParser.ConvertToExpectedTypes | utils/file_parser.py:22-37 | a field is kept, converted, exactly when its conversion succeeds, and a field whose conversion fails is dropped |
| FileParser.PickColumns | utils/file_parser.py:44 | picking fails with `IndexError` exactly when some mapped column is past the end of the line; otherwise it gives each mapped field its column |
| FileParser.ConvertedArguments | utils/file_parser.py:44-46 | the constructor receives exactly the fields whose columns convert, and it has every field exactly when the line is decodable |
| FileParser.DecodeFields | utils/file_parser.py:44-46 | a header column past the end of the line raises `IndexError` before any conversion; a constructed record is well typed, and the header then names every field |
| FileParser.DecodeLine | utils/file_parser.py:43-46 | a data line, stripped and split on commas, decodes exactly when its columns are decodable under the header; the record then holds each column's conversion in its field; otherwise the error is `IndexError` or a `TypeError` naming at least one field |
| FileParser.DecodeFieldsSucceeds | utils/file_parser.py:43-46 | a data line decodes exactly when the header names every field, the line has every named column, and every column converts |
| FileParser.DecodeFieldsValues | utils/file_parser.py:43-46 | a decoded record is well typed, and each field holds the conversion of the column the header assigned to it |
| FileParser.DecodeFieldsErrors | utils/file_parser.py:43-46 | a line that does not decode fails with `IndexError` or with `TypeError` naming at least one field, never with the chromosome `ValueError` |
| FileParser.CollectFrom | utils/file_parser.py:51 | `list()` over the generator succeeds exactly when every step succeeds, and then holds the results in order; otherwise it gives the first failing step's error |
| FileParser.ParseFileToGeneticData | utils/file_parser.py:40-47 | an empty file has no header; header errors propagate; otherwise it gives one well-typed record per later line in file order, or the first failing line's error |
| FileParser.Records | db_utils/database_handler.py:225-236 | the typed values written for each instance rebuild that instance |
| FileParser.BatchInsertGeneticDataToDb | utils/file_parser.py:50-52 | a file that fails to decode leaves the store unchanged with that error; otherwise the store is what one insert of all records leaves, and the batch fails exactly when that insert raises, with its error |
| FileParserProperties.JoinThenLineParts | utils/file_parser.py:43 | a line joined from clean columns strips and splits back into exactly those columns |
| FileParserProperties.LabelClean | models/models.py:47-53 | no label holds a comma or surrounding whitespace |
| FileParserProperties.HeaderLabelsOfLine | utils/file_parser.py:10 | the labels read from a written header are the labels written |
| FileParserProperties.LabelsCoverFields | models/models.py:47-53 | when each field is named once, every field's label is among the labels |
| FileParserProperties.PermutationLabels | utils/file_parser.py:10-18 | a header naming each field once yields six known labels, one per column's field, and every label appears |
| FileParserProperties.PermutationNamesEachField | models/models.py:47-53 | any rearrangement of the six members names each field once |
| FileParserProperties.HeaderOfPermutation | utils/file_parser.py:7-19 | a header naming the six fields once each, in any order, resolves with all six fields as keys |
| FileParserProperties.HeaderPermutationColumns | utils/file_parser.py:15-19 | under such a header each field maps to the column of its label, so the map is a bijection onto 0..5 |
| FileParserProperties.LabelInjective | models/models.py:47-53 | distinct members have distinct labels; this restates the distinct-labels part of `HeaderOrderTable` in the per-member form the proofs use |
| FileParserProperties.HeaderWrongCount | utils/file_parser.py:11-13 | a marked header whose label count is not six fails with that count |
| FileParserProperties.UnmarkedHeaderExample | tests/test_validation_utils.py:22-25 | the test header without `#` fails the marker assertion |
| FileParserProperties.FiveLabelHeaderExample | tests/test_validation_utils.py:28-31 | the test header without its first label fails the count assertion with five labels |
| FileParserProperties.ShuffledNamesEachField | tests/test_validation_utils.py:10 | the test header's column order names each field once |
| FileParserProperties.ShuffledHeaderExample | tests/test_validation_utils.py:9-19 | the test header resolves to variant_id 0, position 1, chromosome 2, reference 3, alternate 4, frequency 5 |
| FileParserProperties.CoerceFieldText | utils/file_parser.py:26-32 | the text written for each field converts back to the record's value |
| FileParserProperties.LineColumns | utils/file_parser.py:43 | a written data line splits back into the written columns |
| FileParserProperties.DecodeWrittenColumns | utils/file_parser.py:44-46 | columns that hold each field's written text where the header says decode to the record they came from |
| FileParserProperties.LineRoundTrip | utils/file_parser.py:42-47 | for a record whose identifier and frequency texts are non-empty, comma-free and without surrounding whitespace, and whose frequency text `float()` accepts, the data line written under any six-field header decodes back to that record; the writer does no quoting, so a comma inside an identifier would add a column |
| FileParserProperties.WrittenLinesDecode | utils/file_parser.py:41-47 | for records whose identifier and frequency texts are non-empty, comma-free and without surrounding whitespace, and whose frequency text `float()` accepts, every data line of the written file decodes, under the file's header, to the record it was written from; the writer does no quoting, so a comma inside an identifier would add a column |
| FileParserProperties.ParseFileOfDecodedLines | utils/file_parser.py:40-47 | a file whose every data line decodes under its header parses to those records, in order |
| FileParserProperties.FileRoundTrip | utils/file_parser.py:40-47 | for records whose identifier and frequency texts are non-empty, comma-free and without surrounding whitespace, and whose frequency text `float()` accepts, writing them under any six-field header and parsing the file gives back exactly those records, in order; the writer does no quoting, so a comma inside an identifier would add a column |
| FileParserProperties.SampleFileExample | tests/test_validation_utils.py:34-39 | the sample line `rs12345,1,1234567,A,G,0.12` parses to rs12345, CHR1, 1234567, A, G, 0.12 |
| FileParserProperties.MissingFieldRejectsEveryLine | utils/file_parser.py:44-46 | when a header leaves a field unnamed, every data line fails with `IndexError` or with a `TypeError` that names that field |
| FileParserProperties.DuplicateLabelHeader | utils/file_parser.py:17-19 | the header naming the identifier twice, in place of the chromosome, passes both assertions; the identifier keeps its last column and the chromosome is not a key |
| FileParserProperties.DuplicateLabelRejectsEveryLine | utils/file_parser.py:40-46 | under any resolved header in which two columns carry the same label, no data line decodes |
| FileParserProperties.RepeatedLabelMissesField | utils/file_parser.py:10-19 | six known labels with a repeat leave some field without a column in the header map |
| FileParserProperties.LastLabelColumn | utils/file_parser.py:17-19 | in a resolved header some field owns column 5 |
| FileParserProperties.ShortLineMissesColumn | utils/file_parser.py:43-44 | under any resolved header, a data line with fewer than six columns fails with `IndexError` |
| FileParserProperties.BadLineWritesNothing | utils/file_parser.py:50-52 | one undecodable line anywhere fails the batch, and nothing is written, not even the lines before it |
| FileParserProperties.TrailingNewlineRejectsFile | endpoints/endpoints.py:53 | text that ends in a newline, read with `split("\n")`, has an empty last line, so the whole file is rejected and nothing is written |
| FileParserProperties.InsertRecordsAppends | db_utils/database_handler.py:225-246 | the single insert appends the batch in order under the individual's key when the individual resolves, every position fits an `INTEGER` and nothing fails, and otherwise leaves the store unchanged |
| FileParserProperties.BatchInsertStoresBatch | utils/file_parser.py:50-52 | after a successful decode, the store holds the decoded batch appended in order under the individual's key, or is unchanged when the individual is unknown, a position overflows or the store fails |
| FileParserProperties.BatchInsertPreservesValid | utils/file_parser.py:50-52 | a batch insert keeps the key and foreign-key invariant |

## Left out

- Connections, cursors, commits, `CREATE TABLE`, configuration loading and
  directory creation (db_utils/database_handler.py:10-88) are library
  plumbing. The tables are the abstract `Store`, and a statement failure is
  the `storeFails` parameter.
- `print` logging is not modelled. Neither are the paths after a
  `DatabaseError` that read a variable never bound (`users` at line 111, `id`
  at line 127, `genetic_data` at line 180). These are Python runtime errors,
  not intended behaviour.
- Coerce: `float()` is not modelled as a numeric conversion. Whether it
  accepts a text is the parameter `floatParses`, and the frequency is kept as
  its text token. So `0.12` and `0.120` are different records here.
- Text.ParseInt: Unicode decimal digits that Python's `int()` also accepts
  are not modelled. Only ASCII digits, single underscores between digits, a
  sign and surrounding whitespace are.
- Text.ParseInt: the limit on the number of digits `int()` converts (4300
  by default from Python 3.11 on, configurable at run time) is not
  modelled; longer digit runs parse here.
- DatabaseHandler.InsertGeneticDataToDb: when a store error and an
  out-of-range position occur in the same batch, the model always reports
  the `OverflowError`. In the source the first offending row decides between
  the exception and the rolled-back "Succesfully inserted data". The store
  is unchanged either way.
- FileParser.ConvertToExpectedTypes is modelled on text values only, since
  its only caller passes the columns of a split line. The `isinstance`
  branch therefore applies only to the identifier.
- Inserting an instance whose alleles are not enum members would raise
  `AttributeError` on `.value`. It cannot arise from the parser, which only
  yields well-typed records, so `Records` requires well-typed input.
- DatabaseHandler.InsertGeneticDataToDb: a frequency that `float()` reads
  as NaN (such as `nan`) is bound as a NaN double, which SQLite stores as
  NULL, so the `NOT NULL` constraint fails and the whole batch rolls back
  while the reply still reports success. The model covers this only through
  the free `storeFails` flag, since the frequency is an uninterpreted token.
- `created_at` timestamps and `User.date_created` are clock values assigned
  by the store. A user row is its key and label.
- DatabaseHandler.GetIndividualData returns rows in table order. The source
  promises no order, so properties that do not depend on order
  (`IngestThenQuery`) are stated with multisets.
- FileParser.ParseFileToGeneticData: the generator is modelled as consumed
  in full, which is how `list()` consumes it in the batch insert and in the
  tests. Records yielded before a failing line are not observable here.
- FileParser.BatchInsertGeneticDataToDb: the reply of the insert call is
  discarded, as in the source; only its `OverflowError` escapes. Its contract
  says the next store is what one insert of all decoded records leaves; the
  store contents are stated by `BatchInsertStoresBatch`.
- The test-suite examples are stated over field orders, not the literal
  header strings. The header is `HeaderLine(ShuffledFields)`, which is the
  test's text. The sample record is written by `WriteFile` under the
  declaration-order header.
- The test file `tests/wrong_individual123.sano` and the sample file
  `tests/individual123.sano` are not part of this model. The sample line
  is taken from the expected record in the test.
- `endpoints/endpoints.py` and `main.py` (HTTP routing) are left out. The
  only fact used from them is that the upload is split on `"\n"`.
