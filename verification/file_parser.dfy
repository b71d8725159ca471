/**
 * Turning a "variant batch" text file into `GeneticData` records: resolve
 * the header, pick and coerce each data line's columns, construct the
 * record, and hand the whole batch to the store.
 */
module FileParser {
  import opened Wrappers
  import opened Text
  import opened Models
  import opened DatabaseHandler

  /** What `get_header_order` returns: the column of each field named in the header. */
  type HeaderOrder = map<Field, nat>

  /** The labels of a marked header line: the text after `#`, stripped, split on commas. */
  function HeaderLabelsOf(line: string): seq<string>
    requires |line| > 0
  {
    Split(Strip(line[1..]), ',')
  }

  /**
   * The `value_to_name[field]` lookups of the comprehension, label by label:
   * the first label that is not a `HeaderOrder` value raises `KeyError`.
   */
  function LookupLabels(labels: seq<string>): (r: Result<seq<Field>, Error>)
    ensures r.Failure? <==> exists i :: 0 <= i < |labels| && LabelField(labels[i]).None?
    ensures r.Failure? ==>
              exists i :: 0 <= i < |labels| && r.error == UnknownLabel(labels[i])
                          && LabelField(labels[i]).None?
                          && forall j :: 0 <= j < i ==> LabelField(labels[j]).Some?
    ensures r.Success? ==> |r.value| == |labels|
    ensures r.Success? ==> forall i :: 0 <= i < |labels| ==> LabelField(labels[i]) == Some(r.value[i])
  {
    CollectFrom(labels, 0, LookupLabel)
  }

  /** `value_to_name[label]`: the field a label names, or `KeyError`. */
  function LookupLabel(text: string): (r: Result<Field, Error>)
    ensures r.Success? <==> LabelField(text).Some?
    ensures r.Success? ==> LabelField(text) == Some(r.value)
    ensures r.Failure? ==> r.error == UnknownLabel(text)
  {
    match LabelField(text)
    case Some(f) => Success(f)
    case None => Failure(UnknownLabel(text))
  }

  /**
   * The dict the comprehension builds from the looked-up fields: each field
   * maps to a column holding it, and a field given twice keeps its last column.
   */
  function IndexFields(fields: seq<Field>): (m: HeaderOrder)
    ensures forall f :: f in m <==> f in fields
    ensures forall f :: f in m ==>
              && m[f] < |fields|
              && fields[m[f]] == f
              && forall j :: m[f] < j < |fields| ==> fields[j] != f
  {
    if |fields| == 0 then map[]
    else
      var n := |fields| - 1;
      var prefix := fields[..n];
      assert fields == prefix + [fields[n]];
      IndexFields(prefix)[fields[n] := n]
  }

  /**
   * `{value_to_name[field]: index for index, field in enumerate(labels)}`.
   * The lookup of every label precedes the dict, which is equivalent: the dict
   * is never seen when a lookup raises.
   */
  function IndexLabels(labels: seq<string>): Result<HeaderOrder, Error>
  {
    var fields :- LookupLabels(labels);
    Success(IndexFields(fields))
  }

  /**
   * `get_header_order`: the line must start with `#` and hold exactly six
   * labels, each a `HeaderOrder` value; the result gives each named field the
   * column where its label stands.
   */
  function GetHeaderOrder(line: string): (r: Result<HeaderOrder, Error>)
    ensures |line| == 0 || line[0] != '#' ==> r == Failure(MissingHeaderMarker)
    ensures |line| > 0 && line[0] == '#' && |HeaderLabelsOf(line)| != |FieldOrder| ==>
              r == Failure(WrongLabelCount(|HeaderLabelsOf(line)|))
    ensures |line| > 0 && line[0] == '#' && |HeaderLabelsOf(line)| == |FieldOrder| && r.Failure? ==>
              exists i :: 0 <= i < 6 && LabelField(HeaderLabelsOf(line)[i]).None?
                          && r == Failure(UnknownLabel(HeaderLabelsOf(line)[i]))
                          && forall j :: 0 <= j < i ==> LabelField(HeaderLabelsOf(line)[j]).Some?
    ensures r.Success? <==>
              && |line| > 0 && line[0] == '#'
              && |HeaderLabelsOf(line)| == |FieldOrder|
              && forall i :: 0 <= i < |HeaderLabelsOf(line)| ==> LabelField(HeaderLabelsOf(line)[i]).Some?
    ensures r.Success? ==>
              forall f :: f in r.value ==> r.value[f] < 6 && HeaderLabelsOf(line)[r.value[f]] == Label(f)
    ensures r.Success? ==>
              forall f :: f in r.value <==> exists i :: 0 <= i < 6 && HeaderLabelsOf(line)[i] == Label(f)
    ensures r.Success? ==>
              forall f, j :: f in r.value && r.value[f] < j < 6 ==> HeaderLabelsOf(line)[j] != Label(f)
  {
    if |line| == 0 || line[0] != '#' then Failure(MissingHeaderMarker)
    else
      var labels := HeaderLabelsOf(line);
      if |labels| != |FieldOrder| then Failure(WrongLabelCount(|labels|))
      else IndexLabels(labels)
  }

  /**
   * One field's conversion in `convert_to_expected_types`: the identifier is
   * already a `str` and passes through; enum fields are looked up by value;
   * the position goes through `int()`, the frequency through `float()`
   * (whose acceptance is the parameter `floatParses`). `None` is the
   * `ValueError` that the loop catches.
   */
  function Coerce(f: Field, text: string, floatParses: string -> bool): (r: Option<Value>)
    ensures r.Some? ==> HasType(r.value, f)
    ensures f == VariantId ==> r == Some(Str(text))
    ensures f == Chromosome ==> (r.Some? <==> text in {"X", "Y", "1", "2"})
    ensures f == Chromosome && r.Some? ==> ChromosomeValue(r.value.chrom) == text
    ensures f in {ReferenceAllele, AlternateAllele} ==> (r.Some? <==> text in {"A", "C", "G", "T"})
    ensures f in {ReferenceAllele, AlternateAllele} && r.Some? ==> AlleleValue(r.value.base) == text
    ensures f == Position ==> (r.Some? <==> ParseInt(text).Some?)
    ensures f == Position && r.Some? ==> ParseInt(text) == Some(r.value.number)
    ensures f == AlternateAlleleFrequency ==> (r.Some? <==> floatParses(text))
    ensures f == AlternateAlleleFrequency && r.Some? ==> r.value.token == text
  {
    match f
    case VariantId => Some(Str(text))
    case Chromosome =>
      (match ChromosomeOf(text) case Some(c) => Some(Chrom(c)) case None => None)
    case Position =>
      (match ParseInt(text) case Some(n) => Some(Int(n)) case None => None)
    case ReferenceAllele =>
      (match AlleleOf(text) case Some(a) => Some(Allele(a)) case None => None)
    case AlternateAllele =>
      (match AlleleOf(text) case Some(a) => Some(Allele(a)) case None => None)
    case AlternateAlleleFrequency =>
      if floatParses(text) then Some(Float(text)) else None
  }

  /**
   * `convert_to_expected_types`: every field whose conversion succeeds is kept,
   * converted to its annotated type; a field whose conversion fails is left
   * out of the result, and only a message is printed.
   */
  function ConvertToExpectedTypes(data: map<Field, string>, floatParses: string -> bool): (r: map<Field, Value>)
    ensures forall f :: f in r <==> f in data && Coerce(f, data[f], floatParses).Some?
    ensures forall f :: f in r ==> HasType(r[f], f)
    ensures forall f :: f in r ==> Some(r[f]) == Coerce(f, data[f], floatParses)
  {
    map f | f in data && Coerce(f, data[f], floatParses).Some? :: Coerce(f, data[f], floatParses).value
  }

  /** The comprehension `{field: line_parts[idx] ...}`: a column past the end raises `IndexError`. */
  function PickColumns(order: HeaderOrder, parts: seq<string>): (r: Result<map<Field, string>, Error>)
    ensures r.Success? <==> forall f :: f in order ==> order[f] < |parts|
    ensures r.Failure? ==> r.error == ColumnMissing
    ensures r.Success? ==> r.value.Keys == order.Keys
    ensures r.Success? ==> forall f :: f in order ==> r.value[f] == parts[order[f]]
  {
    if forall f :: f in order ==> order[f] < |parts| then
      Success(map f | f in order :: parts[order[f]])
    else
      Failure(ColumnMissing)
  }

  /** A data line's columns: `line.strip().split(",")`. */
  function LineParts(line: string): seq<string> {
    Split(Strip(line), ',')
  }

  /**
   * When a data line's columns decode: the header names every field, the line
   * has each named column, and every column converts.
   */
  predicate Decodable(order: HeaderOrder, parts: seq<string>, floatParses: string -> bool) {
    && (forall f :: f in order ==> order[f] < |parts|)
    && AllFields <= order.Keys
    && (forall f :: f in order ==> Coerce(f, parts[order[f]], floatParses).Some?)
  }

  /**
   * The body of the loop in `parse_file_to_genetic_data` after the split:
   * pick the header's columns, convert, construct. A missing column raises
   * before any conversion; the full behaviour is stated by the lemmas
   * `DecodeFieldsSucceeds`, `DecodeFieldsValues` and `DecodeFieldsErrors`.
   */
  function DecodeFields(order: HeaderOrder, parts: seq<string>, floatParses: string -> bool): (r: Result<GeneticData, Error>)
    ensures (exists f :: f in order && order[f] >= |parts|) ==> r == Failure(ColumnMissing)
    ensures r.Success? ==> AllFields <= order.Keys && WellTyped(r.value)
  {
    var data :- PickColumns(order, parts);
    var kwargs := ConvertToExpectedTypes(data, floatParses);
    AllFieldsComplete();
    Construct(kwargs)
  }

  /**
   * One iteration of `parse_file_to_genetic_data`: split the stripped line,
   * then decode its columns. The line decodes exactly when its columns are
   * `Decodable`, and then each field holds the conversion of its column;
   * otherwise it fails with `IndexError` or with a `TypeError` naming a field.
   */
  function DecodeLine(order: HeaderOrder, line: string, floatParses: string -> bool): (r: Result<GeneticData, Error>)
    ensures r.Success? <==> Decodable(order, LineParts(line), floatParses)
    ensures r.Success? ==>
              && WellTyped(r.value)
              && forall f :: f in order ==>
                   order[f] < |LineParts(line)|
                   && Some(Get(r.value, f)) == Coerce(f, LineParts(line)[order[f]], floatParses)
    ensures r.Failure? ==> r.error == ColumnMissing || (r.error.MissingArguments? && r.error.fields != {})
  {
    var parts := LineParts(line);
    DecodeFieldsSucceeds(order, parts, floatParses);
    DecodeFieldsErrors(order, parts, floatParses);
    var r := DecodeFields(order, parts, floatParses);
    if r.Success? then
      DecodeFieldsValues(order, parts, floatParses);
      r
    else
      r
  }

  /** The arguments the constructor receives for columns that are all present. */
  lemma ConvertedArguments(order: HeaderOrder, parts: seq<string>, floatParses: string -> bool)
    requires PickColumns(order, parts).Success?
    ensures var kwargs := ConvertToExpectedTypes(PickColumns(order, parts).value, floatParses);
            && (forall f :: f in kwargs <==> f in order && Coerce(f, parts[order[f]], floatParses).Some?)
            && (forall f :: f in kwargs ==> Some(kwargs[f]) == Coerce(f, parts[order[f]], floatParses))
            && (AllFields <= kwargs.Keys <==> Decodable(order, parts, floatParses))
            && (AllFields <= kwargs.Keys ==> kwargs[Chromosome].Chrom?)
  {
    var kwargs := ConvertToExpectedTypes(PickColumns(order, parts).value, floatParses);
    AllFieldsComplete();
    if AllFields <= kwargs.Keys {
      assert HasType(kwargs[Chromosome], Chromosome);
    }
  }

  /**
   * A data line decodes exactly when the header names every field, the line
   * has each named column and every column converts: one failed conversion
   * fails the whole line.
   */
  lemma DecodeFieldsSucceeds(order: HeaderOrder, parts: seq<string>, floatParses: string -> bool)
    ensures DecodeFields(order, parts, floatParses).Success? <==> Decodable(order, parts, floatParses)
  {
    if PickColumns(order, parts).Success? {
      ConvertedArguments(order, parts, floatParses);
    }
  }

  /**
   * A decoded record is well typed and holds, for each field, the conversion
   * of the column the header assigned to it.
   */
  lemma DecodeFieldsValues(order: HeaderOrder, parts: seq<string>, floatParses: string -> bool)
    requires DecodeFields(order, parts, floatParses).Success?
    ensures WellTyped(DecodeFields(order, parts, floatParses).value)
    ensures forall f :: f in order ==>
              order[f] < |parts| &&
              Some(Get(DecodeFields(order, parts, floatParses).value, f)) == Coerce(f, parts[order[f]], floatParses)
  {
    var g := DecodeFields(order, parts, floatParses).value;
    ConvertedArguments(order, parts, floatParses);
    AllFieldsComplete();
    assert forall f :: HasType(Get(g, f), f);
  }

  /**
   * A line that does not decode fails with `IndexError` (a missing column) or
   * with `TypeError` naming the fields whose conversion failed or that the
   * header did not name; the constructor's own chromosome check is never
   * what rejects a parsed line.
   */
  lemma DecodeFieldsErrors(order: HeaderOrder, parts: seq<string>, floatParses: string -> bool)
    ensures DecodeFields(order, parts, floatParses).Failure? ==>
              || DecodeFields(order, parts, floatParses).error == ColumnMissing
              || (&& DecodeFields(order, parts, floatParses).error.MissingArguments?
                  && DecodeFields(order, parts, floatParses).error.fields != {})
  {
    var picked := PickColumns(order, parts);
    if picked.Success? {
      ConvertedArguments(order, parts, floatParses);
      var kwargs := ConvertToExpectedTypes(picked.value, floatParses);
      assert DecodeFields(order, parts, floatParses) == Construct(kwargs);
      if !(AllFields <= kwargs.Keys) {
        var f :| f in AllFields && f !in kwargs;
        assert f in AllFields - kwargs.Keys;
      }
    }
  }

  /**
   * `list(...)` over a generator that applies `step` to `xs[from]`,
   * `xs[from + 1]`, ... in order: the first exception ends the list and
   * becomes the result.
   */
  function CollectFrom<A, B, E>(xs: seq<A>, from: nat, step: A -> Result<B, E>): (r: Result<seq<B>, E>)
    requires from <= |xs|
    ensures r.Success? <==> forall i :: from <= i < |xs| ==> step(xs[i]).Success?
    ensures r.Success? ==> |r.value| == |xs| - from
    ensures r.Success? ==> forall i :: from <= i < |xs| ==> step(xs[i]) == Success(r.value[i - from])
    ensures r.Failure? ==>
              exists i :: from <= i < |xs| && step(xs[i]) == Failure(r.error)
                          && forall j :: from <= j < i ==> step(xs[j]).Success?
    decreases |xs| - from
  {
    if from == |xs| then Success([])
    else
      var first := step(xs[from]);
      if first.Failure? then Failure(first.error)
      else
        var rest := CollectFrom(xs, from + 1, step);
        if rest.Failure? then Failure(rest.error)
        else
          var values := [first.value] + rest.value;
          assert forall k :: 0 <= k < |rest.value| ==> values[k + 1] == rest.value[k];
          Success(values)
  }

  /**
   * `parse_file_to_genetic_data`, consumed in full: line 0 is the header (an
   * empty file has none), and every later line yields one well-typed record,
   * in file order; the first line that fails ends the parse with its exception.
   */
  function ParseFileToGeneticData(contents: seq<string>, floatParses: string -> bool): (r: Result<seq<GeneticData>, Error>)
    ensures |contents| == 0 ==> r == Failure(NoHeaderLine)
    ensures |contents| > 0 && GetHeaderOrder(contents[0]).Failure? ==> r == Failure(GetHeaderOrder(contents[0]).error)
    ensures r.Success? ==> |contents| > 0 && GetHeaderOrder(contents[0]).Success? && |r.value| == |contents| - 1
    ensures r.Success? ==> forall i :: 1 <= i < |contents| ==>
              DecodeLine(GetHeaderOrder(contents[0]).value, contents[i], floatParses) == Success(r.value[i - 1])
    ensures r.Success? ==> forall i :: 0 <= i < |r.value| ==> WellTyped(r.value[i])
    ensures |contents| > 0 && GetHeaderOrder(contents[0]).Success? ==>
              (r.Success? <==> forall i :: 1 <= i < |contents| ==>
                                 DecodeLine(GetHeaderOrder(contents[0]).value, contents[i], floatParses).Success?)
    ensures r.Failure? && |contents| > 0 && GetHeaderOrder(contents[0]).Success? ==>
              exists i :: 1 <= i < |contents|
                          && DecodeLine(GetHeaderOrder(contents[0]).value, contents[i], floatParses) == Failure(r.error)
                          && forall j :: 1 <= j < i ==>
                               DecodeLine(GetHeaderOrder(contents[0]).value, contents[j], floatParses).Success?
  {
    if |contents| == 0 then Failure(NoHeaderLine)
    else
      var header := GetHeaderOrder(contents[0]);
      if header.Failure? then Failure(header.error)
      else
        var order := header.value;
        var r := CollectFrom(contents, 1, line => DecodeLine(order, line, floatParses));
        if r.Failure? then r
        else
          assert forall i :: 0 <= i < |r.value| ==> WellTyped(r.value[i]) by {
            forall i | 0 <= i < |r.value|
              ensures WellTyped(r.value[i])
            {
              assert DecodeLine(order, contents[i + 1], floatParses) == Success(r.value[i]);
              DecodeFieldsValues(order, LineParts(contents[i + 1]), floatParses);
            }
          }
          r
  }

  /** The typed rows the store receives for a batch of well-typed records. */
  function Records(batch: seq<GeneticData>): (rs: seq<VariantRecord>)
    requires forall i :: 0 <= i < |batch| ==> WellTyped(batch[i])
    ensures |rs| == |batch|
    ensures forall i :: 0 <= i < |batch| ==> FromRecord(rs[i]) == batch[i]
  {
    seq(|batch|, i requires 0 <= i < |batch| => ToRecord(batch[i]))
  }

  /**
   * `batch_insert_genetic_data_to_db`: the whole file is decoded before the
   * single insert call, so any decoding exception leaves the store untouched;
   * otherwise every record goes to the store in one insert call, whose reply
   * is discarded unless it is the `OverflowError` the insert lets escape.
   */
  function BatchInsertGeneticDataToDb(contents: seq<string>, individualId: string, s: Store,
                                      floatParses: string -> bool, storeFails: bool): (r: Step<Outcome<Error>>)
    ensures r.reply.Fail? ==> r.next == s
    ensures ParseFileToGeneticData(contents, floatParses).Failure? ==>
              r.reply == Fail(ParseFileToGeneticData(contents, floatParses).error)
    ensures ParseFileToGeneticData(contents, floatParses).Success? ==>
              var inserted := InsertGeneticDataToDb(s, Records(ParseFileToGeneticData(contents, floatParses).value),
                                                    individualId, storeFails);
              && r.next == inserted.next
              && (r.reply.Fail? <==> inserted.reply.Failure?)
              && (r.reply.Fail? ==> r.reply.error == inserted.reply.error)
  {
    var parsed := ParseFileToGeneticData(contents, floatParses);
    if parsed.Failure? then Step(s, Fail(parsed.error))
    else
      var inserted := InsertGeneticDataToDb(s, Records(parsed.value), individualId, storeFails);
      if inserted.reply.Failure? then Step(s, Fail(inserted.reply.error))
      else Step(inserted.next, Pass)
  }
}
