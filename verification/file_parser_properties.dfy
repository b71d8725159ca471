/**
 * Properties of the ingestion path that relate the header, the data lines
 * and the store: what a well-formed file decodes to, which files are
 * rejected, and what a batch insert leaves in the tables.
 */
module FileParserProperties {
  import opened Wrappers
  import opened Text
  import opened SeqFacts
  import opened Models
  import opened DatabaseHandler
  import opened FileParser
  import opened DatabaseProperties

  /** A column text that survives `strip()` and `split(",")` unchanged. */
  predicate Clean(t: string) {
    |t| > 0 && !IsSpace(t[0]) && !IsSpace(t[|t| - 1]) && ',' !in t
  }

  /** The header labels a writer emits for fields in the given column order. */
  function Labels(fields: seq<Field>): seq<string> {
    seq(|fields|, i requires 0 <= i < |fields| => Label(fields[i]))
  }

  /** The header line for fields in the given column order. */
  function HeaderLine(fields: seq<Field>): string {
    "#" + Join(Labels(fields), ',')
  }

  /** The text a writer puts in a field's column. */
  function FieldText(rec: VariantRecord, f: Field): string {
    match f
    case VariantId => rec.variantId
    case Chromosome => ChromosomeValue(rec.chromosome)
    case Position => IntToString(rec.position)
    case ReferenceAllele => AlleleValue(rec.referenceAllele)
    case AlternateAllele => AlleleValue(rec.alternateAllele)
    case AlternateAlleleFrequency => rec.alternateAlleleFrequency
  }

  /** The columns of a record with its fields in the given order. */
  function Columns(fields: seq<Field>, rec: VariantRecord): seq<string> {
    seq(|fields|, i requires 0 <= i < |fields| => FieldText(rec, fields[i]))
  }

  /** The data line for a record with its fields in the given column order. */
  function EncodeLine(fields: seq<Field>, rec: VariantRecord): string {
    Join(Columns(fields, rec), ',')
  }

  /** A line made of clean columns splits back into exactly those columns. */
  lemma JoinThenLineParts(parts: seq<string>)
    requires |parts| >= 1
    requires forall i :: 0 <= i < |parts| ==> Clean(parts[i])
    ensures LineParts(Join(parts, ',')) == parts
  {
    var line := Join(parts, ',');
    assert Strip(line) == line by {
      assert Clean(parts[0]) && Clean(parts[|parts| - 1]);
      if |parts| >= 2 {
        JoinEnds(parts, ',');
      } else {
        assert line == parts[0];
      }
      StripUnchanged(line);
    }
    assert Split(line, ',') == parts by {
      SplitJoin(parts, ',');
    }
  }

  /** Every header label is clean. */
  lemma LabelClean(f: Field)
    ensures Clean(Label(f))
  {
    match f
    case VariantId =>
    case Chromosome =>
    case Position =>
    case ReferenceAllele =>
    case AlternateAllele =>
    case AlternateAlleleFrequency =>
  }

  /** The labels read back from a written header are the labels written. */
  lemma HeaderLabelsOfLine(fields: seq<Field>)
    requires |fields| >= 1
    ensures HeaderLabelsOf(HeaderLine(fields)) == Labels(fields)
  {
    var labels := Labels(fields);
    forall i | 0 <= i < |labels|
      ensures Clean(labels[i])
    {
      LabelClean(fields[i]);
    }
    assert HeaderLine(fields)[1..] == Join(labels, ',');
    JoinThenLineParts(labels);
  }

  /** A header that names every field, in six labels: each field exactly once, in some order. */
  predicate NamesEachField(fields: seq<Field>) {
    |fields| == 6 && forall f :: f in fields
  }

  /** The labels of such a header: six known labels, one per column's field. */
  lemma PermutationLabels(fields: seq<Field>)
    requires NamesEachField(fields)
    ensures HeaderLabelsOf(HeaderLine(fields)) == Labels(fields)
    ensures forall i :: 0 <= i < 6 ==> LabelField(Labels(fields)[i]) == Some(fields[i])
    ensures forall f :: Label(f) in Labels(fields)
  {
    HeaderLabelsOfLine(fields);
    LabelsCoverFields(fields);
  }

  /** Every field's label is among the labels of a header that names each field. */
  lemma LabelsCoverFields(fields: seq<Field>)
    requires NamesEachField(fields)
    ensures forall f :: Label(f) in Labels(fields)
  {
    forall f
      ensures Label(f) in Labels(fields)
    {
      assert f in fields;
      var i :| 0 <= i < |fields| && fields[i] == f;
      assert Labels(fields)[i] == Label(f);
    }
  }

  /** A header naming the six fields once each, in any order, resolves, and every field is a key. */
  lemma HeaderOfPermutation(fields: seq<Field>)
    requires NamesEachField(fields)
    ensures GetHeaderOrder(HeaderLine(fields)).Success?
    ensures GetHeaderOrder(HeaderLine(fields)).value.Keys == AllFields
  {
    PermutationLabels(fields);
    assert HeaderLine(fields)[0] == '#';
    AllFieldsComplete();
  }

  /**
   * In the order resolved from such a header the column of each field is the
   * one where its label stands, so distinct fields get distinct columns.
   */
  lemma HeaderPermutationColumns(fields: seq<Field>)
    requires NamesEachField(fields)
    ensures GetHeaderOrder(HeaderLine(fields)).Success?
    ensures var order := GetHeaderOrder(HeaderLine(fields)).value;
            && (forall f :: f in order ==> order[f] < |fields| && fields[order[f]] == f)
            && (forall f, g :: f in order && g in order && order[f] == order[g] ==> f == g)
  {
    HeaderOfPermutation(fields);
    PermutationLabels(fields);
    var order := GetHeaderOrder(HeaderLine(fields)).value;
    forall f | f in order
      ensures order[f] < |fields| && fields[order[f]] == f
    {
      var k := order[f];
      assert Labels(fields)[k] == Label(fields[k]) == Label(f);
      LabelInjective(fields[k], f);
    }
  }

  /** Distinct fields have distinct labels. */
  lemma LabelInjective(f: Field, g: Field)
    requires Label(f) == Label(g)
    ensures f == g
  {
    assert LabelField(Label(f)) == Some(f);
  }

  /** A header with a number of labels other than six fails the count assertion. */
  lemma HeaderWrongCount(fields: seq<Field>)
    requires |fields| >= 1 && |fields| != 6
    ensures GetHeaderOrder(HeaderLine(fields)) == Failure(WrongLabelCount(|fields|))
  {
    HeaderLabelsOfLine(fields);
    assert HeaderLine(fields)[0] == '#';
  }

  /** The column order of the header in the test suite: the position before the chromosome. */
  const ShuffledFields: seq<Field> :=
    [VariantId, Position, Chromosome, ReferenceAllele, AlternateAllele, AlternateAlleleFrequency]

  /** The header of the test suite without its `#` fails the marker assertion. */
  lemma UnmarkedHeaderExample()
    ensures GetHeaderOrder(Join(Labels(ShuffledFields), ',')) == Failure(MissingHeaderMarker)
  {
    JoinEnds(Labels(ShuffledFields), ',');
  }

  /** The header of the test suite without its first label fails the count assertion. */
  lemma FiveLabelHeaderExample()
    ensures GetHeaderOrder(HeaderLine(ShuffledFields[1..])) == Failure(WrongLabelCount(5))
  {
    HeaderWrongCount(ShuffledFields[1..]);
  }

  /** The test suite's header names every field once. */
  lemma ShuffledNamesEachField()
    ensures NamesEachField(ShuffledFields)
  {
    forall f
      ensures f in ShuffledFields
    {
      match f
      case VariantId => assert ShuffledFields[0] == f;
      case Position => assert ShuffledFields[1] == f;
      case Chromosome => assert ShuffledFields[2] == f;
      case ReferenceAllele => assert ShuffledFields[3] == f;
      case AlternateAllele => assert ShuffledFields[4] == f;
      case AlternateAlleleFrequency => assert ShuffledFields[5] == f;
    }
  }

  /** The only column assignment under which each field stands in its column of the test suite's header. */
  lemma ShuffledColumns(order: HeaderOrder)
    requires order.Keys == AllFields
    requires forall f :: f in order ==> order[f] < 6 && ShuffledFields[order[f]] == f
    ensures order == map[VariantId := 0, Position := 1, Chromosome := 2, ReferenceAllele := 3,
                         AlternateAllele := 4, AlternateAlleleFrequency := 5]
  {
    assert VariantId in order && Position in order && Chromosome in order;
    assert ReferenceAllele in order && AlternateAllele in order && AlternateAlleleFrequency in order;
  }

  /** The test suite's header resolves each field to the column where its label stands. */
  lemma ShuffledHeaderExample()
    ensures GetHeaderOrder(HeaderLine(ShuffledFields))
            == Success(map[VariantId := 0, Position := 1, Chromosome := 2, ReferenceAllele := 3,
                           AlternateAllele := 4, AlternateAlleleFrequency := 5])
  {
    ShuffledNamesEachField();
    HeaderOfPermutation(ShuffledFields);
    HeaderPermutationColumns(ShuffledFields);
    ShuffledColumns(GetHeaderOrder(HeaderLine(ShuffledFields)).value);
  }

  /** Each column a writer emits converts back to the record's own value. */
  lemma CoerceFieldText(rec: VariantRecord, f: Field, floatParses: string -> bool)
    requires floatParses(rec.alternateAlleleFrequency)
    ensures Coerce(f, FieldText(rec, f), floatParses) == Some(Get(FromRecord(rec), f))
  {
    if f == Position {
      IntRoundTrip(rec.position);
    }
  }

  /** `str(n)` is clean: a sign or digit first, a digit last, no comma. */
  lemma IntTextClean(n: int)
    ensures Clean(IntToString(n))
  {
    var d := NatToString(if n < 0 then -n else n);
    assert IsDigit(d[0]) && IsDigit(d[|d| - 1]);
    if n < 0 {
      assert IntToString(n) == "-" + d;
    }
  }

  /** Every column is clean once the variant id and the frequency text are. */
  lemma FieldTextClean(rec: VariantRecord, f: Field)
    requires Clean(rec.variantId) && Clean(rec.alternateAlleleFrequency)
    ensures Clean(FieldText(rec, f))
  {
    match f
    case VariantId =>
    case Chromosome =>
      match rec.chromosome { case CHRX => case CHRY => case CHR1 => case CHR2 => }
    case Position =>
      IntTextClean(rec.position);
    case ReferenceAllele =>
      match rec.referenceAllele { case A => case C => case G => case T => }
    case AlternateAllele =>
      match rec.alternateAllele { case A => case C => case G => case T => }
    case AlternateAlleleFrequency =>
  }

  /** The columns of a written data line are read back unchanged. */
  lemma LineColumns(fields: seq<Field>, rec: VariantRecord)
    requires |fields| >= 1
    requires Clean(rec.variantId) && Clean(rec.alternateAlleleFrequency)
    ensures LineParts(EncodeLine(fields, rec)) == Columns(fields, rec)
  {
    var parts := Columns(fields, rec);
    forall i | 0 <= i < |parts|
      ensures Clean(parts[i])
    {
      FieldTextClean(rec, fields[i]);
    }
    JoinThenLineParts(parts);
  }

  /**
   * Columns that hold each field's written text, where the header order says,
   * decode to the record they were written from.
   */
  lemma DecodeWrittenColumns(order: HeaderOrder, parts: seq<string>, rec: VariantRecord,
                             floatParses: string -> bool)
    requires order.Keys == AllFields
    requires forall f :: f in order ==> order[f] < |parts| && parts[order[f]] == FieldText(rec, f)
    requires floatParses(rec.alternateAlleleFrequency)
    ensures DecodeFields(order, parts, floatParses) == Success(FromRecord(rec))
  {
    forall f | f in order
      ensures Coerce(f, parts[order[f]], floatParses) == Some(Get(FromRecord(rec), f))
    {
      CoerceFieldText(rec, f, floatParses);
    }
    DecodeFieldsSucceeds(order, parts, floatParses);
    DecodeFieldsValues(order, parts, floatParses);
    AllFieldsComplete();
    FieldsDetermineRecord(DecodeFields(order, parts, floatParses).value, FromRecord(rec));
  }

  /**
   * Write then read: a record written as a data line under a header that
   * names the six fields in any order decodes to that record, provided its
   * variant id and frequency text hold no comma and no surrounding
   * whitespace and `float()` accepts the frequency text.
   */
  lemma LineRoundTrip(fields: seq<Field>, rec: VariantRecord, floatParses: string -> bool)
    requires NamesEachField(fields)
    requires Clean(rec.variantId) && Clean(rec.alternateAlleleFrequency)
    requires floatParses(rec.alternateAlleleFrequency)
    ensures GetHeaderOrder(HeaderLine(fields)).Success?
    ensures DecodeLine(GetHeaderOrder(HeaderLine(fields)).value, EncodeLine(fields, rec), floatParses)
            == Success(FromRecord(rec))
  {
    HeaderOfPermutation(fields);
    HeaderPermutationColumns(fields);
    LineColumns(fields, rec);
    DecodeWrittenColumns(GetHeaderOrder(HeaderLine(fields)).value, Columns(fields, rec), rec, floatParses);
  }

  /** A file a writer emits: the header line, then one data line per record. */
  function WriteFile(fields: seq<Field>, recs: seq<VariantRecord>): seq<string> {
    [HeaderLine(fields)] + seq(|recs|, i requires 0 <= i < |recs| => EncodeLine(fields, recs[i]))
  }

  lemma WriteFileLines(fields: seq<Field>, recs: seq<VariantRecord>)
    ensures |WriteFile(fields, recs)| == |recs| + 1
    ensures WriteFile(fields, recs)[0] == HeaderLine(fields)
    ensures forall i :: 1 <= i < |WriteFile(fields, recs)| ==> WriteFile(fields, recs)[i] == EncodeLine(fields, recs[i - 1])
  {
  }

  /** Records whose free-text columns are clean and whose frequency text `float()` accepts. */
  predicate Writable(recs: seq<VariantRecord>, floatParses: string -> bool) {
    forall i :: 0 <= i < |recs| ==>
      Clean(recs[i].variantId) && Clean(recs[i].alternateAlleleFrequency)
      && floatParses(recs[i].alternateAlleleFrequency)
  }

  /** Every data line of a written file decodes to the record it was written from. */
  lemma WrittenLinesDecode(fields: seq<Field>, recs: seq<VariantRecord>, floatParses: string -> bool)
    requires NamesEachField(fields)
    requires Writable(recs, floatParses)
    ensures GetHeaderOrder(WriteFile(fields, recs)[0]).Success?
    ensures forall i :: 1 <= i < |WriteFile(fields, recs)| ==>
              DecodeLine(GetHeaderOrder(WriteFile(fields, recs)[0]).value, WriteFile(fields, recs)[i], floatParses)
              == Success(FromRecord(recs[i - 1]))
  {
    WriteFileLines(fields, recs);
    HeaderOfPermutation(fields);
    forall i | 1 <= i < |WriteFile(fields, recs)|
      ensures DecodeLine(GetHeaderOrder(HeaderLine(fields)).value, WriteFile(fields, recs)[i], floatParses)
              == Success(FromRecord(recs[i - 1]))
    {
      LineRoundTrip(fields, recs[i - 1], floatParses);
    }
  }

  /** The records a parse yields for some variant records, one for one. */
  function FromRecords(recs: seq<VariantRecord>): (r: seq<GeneticData>)
    ensures |r| == |recs|
    ensures forall i :: 0 <= i < |recs| ==> r[i] == FromRecord(recs[i])
  {
    if |recs| == 0 then [] else [FromRecord(recs[0])] + FromRecords(recs[1..])
  }

  /** A file whose every data line decodes under its header parses to those records, in order. */
  lemma ParseFileOfDecodedLines(contents: seq<string>, floatParses: string -> bool, batch: seq<GeneticData>)
    requires |contents| == |batch| + 1
    requires GetHeaderOrder(contents[0]).Success?
    requires forall i :: 1 <= i < |contents| ==>
               DecodeLine(GetHeaderOrder(contents[0]).value, contents[i], floatParses) == Success(batch[i - 1])
    ensures ParseFileToGeneticData(contents, floatParses) == Success(batch)
  {
    var order := GetHeaderOrder(contents[0]).value;
    var r := ParseFileToGeneticData(contents, floatParses);
    assert r.Success? && |r.value| == |batch|;
    forall i | 0 <= i < |batch|
      ensures r.value[i] == batch[i]
    {
      var line := contents[i + 1];
      assert DecodeLine(order, line, floatParses) == Success(batch[i]);
      assert DecodeLine(order, line, floatParses) == Success(r.value[i]);
    }
    assert r.value == batch;
  }

  /**
   * Write then parse a whole file: under a header naming the six fields in
   * any order, the parse yields exactly the written records, in order.
   */
  lemma FileRoundTrip(fields: seq<Field>, recs: seq<VariantRecord>, floatParses: string -> bool)
    requires NamesEachField(fields)
    requires Writable(recs, floatParses)
    ensures ParseFileToGeneticData(WriteFile(fields, recs), floatParses)
            == Success(FromRecords(recs))
  {
    var contents := WriteFile(fields, recs);
    var batch := FromRecords(recs);
    WrittenLinesDecode(fields, recs, floatParses);
    WriteFileLines(fields, recs);
    var order := GetHeaderOrder(contents[0]).value;
    forall i | 1 <= i < |contents|
      ensures DecodeLine(order, contents[i], floatParses) == Success(batch[i - 1])
    {
    }
    ParseFileOfDecodedLines(contents, floatParses, batch);
  }

  /** The members in declaration order name each field once. */
  lemma FieldOrderNamesEachField()
    ensures NamesEachField(FieldOrder)
  {
    HeaderOrderTable();
  }

  /**
   * The data line of the test suite's sample file, written under the header
   * in declaration order, parses to the expected record.
   */
  lemma SampleFileExample(floatParses: string -> bool)
    requires floatParses("0.12")
    ensures var rec := VariantRecord("rs12345", CHR1, 1234567, A, G, "0.12");
            ParseFileToGeneticData(WriteFile(FieldOrder, [rec]), floatParses)
            == Success([GeneticData(Str("rs12345"), CHR1, Int(1234567), Allele(A), Allele(G), Float("0.12"))])
  {
    var rec := VariantRecord("rs12345", CHR1, 1234567, A, G, "0.12");
    FieldOrderNamesEachField();
    assert Clean("rs12345") && Clean("0.12");
    assert Writable([rec], floatParses);
    FileRoundTrip(FieldOrder, [rec], floatParses);
    assert FromRecords([rec]) == [FromRecord(rec)];
  }

  /** A rearrangement of the six members names each field once. */
  lemma PermutationNamesEachField(fields: seq<Field>)
    requires multiset(fields) == multiset(FieldOrder)
    ensures NamesEachField(fields)
  {
    HeaderOrderTable();
    PermutationOfDistinct(fields, FieldOrder);
  }

  /** A header that leaves a field unnamed resolves, but then no data line can decode. */
  lemma MissingFieldRejectsEveryLine(order: HeaderOrder, line: string, floatParses: string -> bool, f: Field)
    requires f !in order
    ensures DecodeLine(order, line, floatParses).Failure?
    ensures DecodeLine(order, line, floatParses).error == ColumnMissing
            || (DecodeLine(order, line, floatParses).error.MissingArguments?
                && f in DecodeLine(order, line, floatParses).error.fields)
  {
    AllFieldsComplete();
    DecodeFieldsSucceeds(order, LineParts(line), floatParses);
    if PickColumns(order, LineParts(line)).Success? {
      ConvertedArguments(order, LineParts(line), floatParses);
    }
  }

  /** A header that names the identifier twice, in place of the chromosome. */
  const DuplicatedFields: seq<Field> :=
    [VariantId, VariantId, Position, ReferenceAllele, AlternateAllele, AlternateAlleleFrequency]

  /** The labels of that header are all known. */
  lemma DuplicatedLabelsKnown()
    ensures HeaderLabelsOf(HeaderLine(DuplicatedFields)) == Labels(DuplicatedFields)
    ensures forall i :: 0 <= i < 6 ==> LabelField(Labels(DuplicatedFields)[i]) == Some(DuplicatedFields[i])
  {
    HeaderLabelsOfLine(DuplicatedFields);
  }

  /** In that header the identifier's last label stands in column 1 and no label names the chromosome. */
  lemma DuplicatedLabelsPlaces()
    ensures forall i :: 0 <= i < 6 ==> Labels(DuplicatedFields)[i] != Label(Chromosome)
    ensures Labels(DuplicatedFields)[1] == Label(VariantId)
    ensures forall j :: 1 < j < 6 ==> Labels(DuplicatedFields)[j] != Label(VariantId)
  {
    var labels := Labels(DuplicatedFields);
    forall i | 0 <= i < 6
      ensures labels[i] != Label(Chromosome)
      ensures 1 < i ==> labels[i] != Label(VariantId)
    {
      if labels[i] == Label(Chromosome) {
        LabelInjective(DuplicatedFields[i], Chromosome);
      }
      if 1 < i && labels[i] == Label(VariantId) {
        LabelInjective(DuplicatedFields[i], VariantId);
      }
    }
  }

  /**
   * The header above, which repeats a label, passes both assertions: the
   * repeated field keeps its last column and the field it displaced is not a key.
   */
  lemma DuplicateLabelHeader()
    ensures GetHeaderOrder(HeaderLine(DuplicatedFields)).Success?
    ensures Chromosome !in GetHeaderOrder(HeaderLine(DuplicatedFields)).value
    ensures VariantId in GetHeaderOrder(HeaderLine(DuplicatedFields)).value
    ensures GetHeaderOrder(HeaderLine(DuplicatedFields)).value[VariantId] == 1
  {
    DuplicatedLabelsKnown();
    DuplicatedLabelsPlaces();
    assert HeaderLine(DuplicatedFields)[0] == '#';
  }

  /**
   * Under any resolved header that repeats a label, no data line decodes:
   * six labels with a repeat leave some field unnamed.
   */
  lemma DuplicateLabelRejectsEveryLine(header: string, line: string, floatParses: string -> bool, i: nat, j: nat)
    requires GetHeaderOrder(header).Success?
    requires i < j < 6 && HeaderLabelsOf(header)[i] == HeaderLabelsOf(header)[j]
    ensures DecodeLine(GetHeaderOrder(header).value, line, floatParses).Failure?
  {
    var f := RepeatedLabelMissesField(HeaderLabelsOf(header), GetHeaderOrder(header).value, i, j);
    MissingFieldRejectsEveryLine(GetHeaderOrder(header).value, line, floatParses, f);
  }

  /**
   * Six known labels with a repeat, and a map placing each key at a column
   * holding its label: some field is not a key.
   */
  lemma RepeatedLabelMissesField(labels: seq<string>, order: HeaderOrder, i: nat, j: nat) returns (f: Field)
    requires |labels| == 6
    requires forall k :: 0 <= k < 6 ==> LabelField(labels[k]).Some?
    requires forall g :: g in order ==> order[g] < 6 && labels[order[g]] == Label(g)
    requires i < j < 6 && labels[i] == labels[j]
    ensures f !in order
  {
    var fields := seq(6, k requires 0 <= k < 6 => LabelField(labels[k]).value);
    assert fields[i] == fields[j];
    HeaderOrderTable();
    RepeatMisses(fields, FieldOrder, i, j);
    f :| f in FieldOrder && f !in fields;
    forall g | g in order
      ensures g in fields
    {
      assert LabelField(Label(g)) == Some(g);
      assert fields[order[g]] == g;
    }
  }

  /** In a resolved header order the field of the last label owns column 5. */
  lemma LastLabelColumn(header: string)
    requires GetHeaderOrder(header).Success?
    ensures exists f :: f in GetHeaderOrder(header).value && GetHeaderOrder(header).value[f] == 5
  {
    var labels := HeaderLabelsOf(header);
    var f := LabelField(labels[5]).value;
    assert Label(f) == labels[5];
  }

  /**
   * A data line with fewer than six columns is rejected with `IndexError`,
   * whatever the header order: the last label's field asks for column 5.
   */
  lemma ShortLineMissesColumn(header: string, line: string, floatParses: string -> bool)
    requires GetHeaderOrder(header).Success?
    requires |LineParts(line)| < 6
    ensures DecodeLine(GetHeaderOrder(header).value, line, floatParses) == Failure(ColumnMissing)
  {
    LastLabelColumn(header);
  }

  /**
   * One bad data line anywhere in the file rejects the whole batch: nothing
   * is written, not even the lines before it.
   */
  lemma BadLineWritesNothing(contents: seq<string>, k: nat, individualId: string, s: Store,
                             floatParses: string -> bool, storeFails: bool)
    requires 1 <= k < |contents|
    requires GetHeaderOrder(contents[0]).Success?
    requires DecodeLine(GetHeaderOrder(contents[0]).value, contents[k], floatParses).Failure?
    ensures ParseFileToGeneticData(contents, floatParses).Failure?
    ensures BatchInsertGeneticDataToDb(contents, individualId, s, floatParses, storeFails).reply.Fail?
    ensures BatchInsertGeneticDataToDb(contents, individualId, s, floatParses, storeFails).next == s
  {
  }

  /**
   * A file read with `split("\n")` that ends in a newline has an empty last
   * line, which has one column where the header asks for six: the whole file
   * is rejected and a batch insert writes nothing.
   */
  lemma TrailingNewlineRejectsFile(body: string, individualId: string, s: Store,
                                   floatParses: string -> bool, storeFails: bool)
    requires GetHeaderOrder(Split(body + "\n", '\n')[0]).Success?
    ensures var lines := Split(body + "\n", '\n');
            && lines[|lines| - 1] == ""
            && DecodeLine(GetHeaderOrder(lines[0]).value, "", floatParses) == Failure(ColumnMissing)
            && ParseFileToGeneticData(lines, floatParses).Failure?
            && BatchInsertGeneticDataToDb(lines, individualId, s, floatParses, storeFails).next == s
  {
    var lines := Split(body + "\n", '\n');
    assert body + "\n" == body + ['\n'];
    SplitTrailingSeparator(body, '\n');
    assert lines[|lines| - 1] == "";
    assert LineParts("") == [""];
    ShortLineMissesColumn(lines[0], "", floatParses);
    BadLineWritesNothing(lines, |lines| - 1, individualId, s, floatParses, storeFails);
  }

  /**
   * Store `t` is store `s` after `batch` was written for `individualId`: the
   * users are untouched; for a registered individual, positions that all fit
   * an `INTEGER` and a committed transaction one row per record is appended
   * in order, owned by the individual's key; otherwise the tables stay as
   * they were.
   */
  predicate StoresBatch(s: Store, t: Store, individualId: string, batch: seq<GeneticData>, storeFails: bool)
    requires forall i :: 0 <= i < |batch| ==> WellTyped(batch[i])
  {
    var id := GetIdForIndividualId(s, individualId);
    var committed := IsTruthy(id) && Bindable(Records(batch)) && !storeFails;
    && t.users == s.users
    && (!committed ==> t == s)
    && (committed ==>
          && |t.variants| == |s.variants| + |batch|
          && t.variants[..|s.variants|] == s.variants
          && forall i :: 0 <= i < |batch| ==>
               && t.variants[|s.variants| + i].userId == id.value
               && FromRecord(t.variants[|s.variants| + i].record) == batch[i])
  }

  /**
   * The insert call that a batch insert makes: for a registered individual,
   * bindable positions and a committed transaction, one row per record is
   * appended in order, owned by the individual's key; otherwise the tables
   * stay as they were.
   */
  lemma InsertRecordsAppends(s: Store, batch: seq<GeneticData>, individualId: string, storeFails: bool)
    requires forall i :: 0 <= i < |batch| ==> WellTyped(batch[i])
    ensures StoresBatch(s, InsertGeneticDataToDb(s, Records(batch), individualId, storeFails).next,
                        individualId, batch, storeFails)
  {
  }

  /**
   * A committed batch insert for a registered individual appends one row per
   * data line, in file order, each holding that line's record and owned by
   * the individual's key; a store error, an unknown individual or a position
   * outside the `INTEGER` range leaves the tables as they were.
   */
  lemma BatchInsertStoresBatch(contents: seq<string>, individualId: string, s: Store,
                               floatParses: string -> bool, storeFails: bool)
    requires ParseFileToGeneticData(contents, floatParses).Success?
    ensures StoresBatch(s, BatchInsertGeneticDataToDb(contents, individualId, s, floatParses, storeFails).next,
                        individualId, ParseFileToGeneticData(contents, floatParses).value, storeFails)
  {
    var batch := ParseFileToGeneticData(contents, floatParses).value;
    var step := BatchInsertGeneticDataToDb(contents, individualId, s, floatParses, storeFails);
    assert step.next == InsertGeneticDataToDb(s, Records(batch), individualId, storeFails).next;
    InsertRecordsAppends(s, batch, individualId, storeFails);
  }

  /** A batch insert keeps the tables' keys and foreign key intact. */
  lemma BatchInsertPreservesValid(contents: seq<string>, individualId: string, s: Store,
                                  floatParses: string -> bool, storeFails: bool)
    requires Valid(s)
    ensures Valid(BatchInsertGeneticDataToDb(contents, individualId, s, floatParses, storeFails).next)
  {
    var parsed := ParseFileToGeneticData(contents, floatParses);
    if parsed.Success? {
      InsertGeneticDataPreservesValid(s, Records(parsed.value), individualId, storeFails);
    }
  }
}
