/**
 * The domain vocabulary: the chromosome and allele enumerations, the
 * `HeaderOrder` table of the six fields and their file-header labels, and
 * `GeneticData` with the check its constructor performs.
 */
module Models {
  import opened Wrappers
  import opened SeqFacts

  /** `ChromosomeEnum`: the supported chromosomes. */
  datatype ChromosomeEnum = CHRX | CHRY | CHR1 | CHR2

  /** The text value of each chromosome member. */
  function ChromosomeValue(c: ChromosomeEnum): string {
    match c
    case CHRX => "X"
    case CHRY => "Y"
    case CHR1 => "1"
    case CHR2 => "2"
  }

  /** `ChromosomeEnum(s)`: lookup by value; `None` is the `ValueError` case. */
  function ChromosomeOf(s: string): (r: Option<ChromosomeEnum>)
    ensures forall c :: ChromosomeValue(c) == s <==> r == Some(c)
  {
    if s == "X" then Some(CHRX)
    else if s == "Y" then Some(CHRY)
    else if s == "1" then Some(CHR1)
    else if s == "2" then Some(CHR2)
    else None
  }

  /** `AlleleEnum`: the four nucleotides. */
  datatype AlleleEnum = A | C | G | T

  function AlleleValue(a: AlleleEnum): string {
    match a
    case A => "A"
    case C => "C"
    case G => "G"
    case T => "T"
  }

  /** `AlleleEnum(s)`: lookup by value; `None` is the `ValueError` case. */
  function AlleleOf(s: string): (r: Option<AlleleEnum>)
    ensures forall a :: AlleleValue(a) == s <==> r == Some(a)
  {
    if s == "A" then Some(A)
    else if s == "C" then Some(C)
    else if s == "G" then Some(G)
    else if s == "T" then Some(T)
    else None
  }

  /** The chromosome values are exactly X, Y, 1 and 2, and distinct members have distinct values. */
  lemma ChromosomeVocabulary()
    ensures forall s :: ChromosomeOf(s).Some? <==> s in {"X", "Y", "1", "2"}
    ensures forall c, d :: ChromosomeValue(c) == ChromosomeValue(d) ==> c == d
  {
  }

  /** The allele values are exactly A, C, G and T, and distinct members have distinct values. */
  lemma AlleleVocabulary()
    ensures forall s :: AlleleOf(s).Some? <==> s in {"A", "C", "G", "T"}
    ensures forall a, b :: AlleleValue(a) == AlleleValue(b) ==> a == b
  {
  }

  /** The six members of `HeaderOrder`, one per field of `GeneticData`. */
  datatype Field =
    | VariantId
    | Chromosome
    | Position
    | ReferenceAllele
    | AlternateAllele
    | AlternateAlleleFrequency

  /** The members in declaration order. */
  const FieldOrder: seq<Field> :=
    [VariantId, Chromosome, Position, ReferenceAllele, AlternateAllele, AlternateAlleleFrequency]

  const AllFields: set<Field> :=
    {VariantId, Chromosome, Position, ReferenceAllele, AlternateAllele, AlternateAlleleFrequency}

  /** The value of each `HeaderOrder` member: the label a file header uses for the field. */
  function Label(f: Field): string {
    match f
    case VariantId => "Variant ID"
    case Chromosome => "Chromosome"
    case Position => "Position on chromosome"
    case ReferenceAllele => "Reference allele"
    case AlternateAllele => "Alternate allele"
    case AlternateAlleleFrequency => "Alternate allele frequency"
  }

  /** The six labels in declaration order. */
  const HeaderLabels: seq<string> :=
    ["Variant ID", "Chromosome", "Position on chromosome",
     "Reference allele", "Alternate allele", "Alternate allele frequency"]

  /** `value_to_name`: the reverse of `Label`; `None` is the `KeyError` case. */
  function LabelField(s: string): (r: Option<Field>)
    ensures forall f :: Label(f) == s <==> r == Some(f)
  {
    if s == "Variant ID" then Some(VariantId)
    else if s == "Chromosome" then Some(Chromosome)
    else if s == "Position on chromosome" then Some(Position)
    else if s == "Reference allele" then Some(ReferenceAllele)
    else if s == "Alternate allele" then Some(AlternateAllele)
    else if s == "Alternate allele frequency" then Some(AlternateAlleleFrequency)
    else None
  }

  /**
   * `HeaderOrder` has six members listed once each, with pairwise distinct
   * labels, so the reverse table label to member is well defined.
   */
  lemma HeaderOrderTable()
    ensures |FieldOrder| == |AllFields| == |HeaderLabels| == 6
    ensures forall f :: f in FieldOrder && f in AllFields
    ensures Distinct(FieldOrder) && Distinct(HeaderLabels)
    ensures forall i :: 0 <= i < 6 ==> Label(FieldOrder[i]) == HeaderLabels[i]
    ensures forall f, g :: Label(f) == Label(g) ==> f == g
  {
    forall f
      ensures f in FieldOrder && f in AllFields
    {
      EveryField(f);
    }
  }

  /** `AllFields` holds every value of `Field`. */
  lemma AllFieldsComplete()
    ensures forall f: Field :: f in AllFields
  {
    forall f: Field
      ensures f in AllFields
    {
      EveryField(f);
    }
  }

  /** Every value of `Field` is one of the six members. */
  lemma EveryField(f: Field)
    ensures f in AllFields
  {
    match f
    case VariantId =>
    case Chromosome =>
    case Position =>
    case ReferenceAllele =>
    case AlternateAllele =>
    case AlternateAlleleFrequency =>
  }

  /** A Python value as the parser and the constructor see it. */
  datatype Value =
    | Str(text: string)
    | Int(number: int)
    | Chrom(chrom: ChromosomeEnum)
    | Allele(base: AlleleEnum)
    | Float(token: string)    // a float, kept as the text it was parsed from

  /** The annotated type of each field of `GeneticData`. */
  predicate HasType(v: Value, f: Field) {
    match f
    case VariantId => v.Str?
    case Chromosome => v.Chrom?
    case Position => v.Int?
    case ReferenceAllele => v.Allele?
    case AlternateAllele => v.Allele?
    case AlternateAlleleFrequency => v.Float?
  }

  /**
   * An instance of the `GeneticData` dataclass. Python does not enforce the
   * annotations; only the chromosome is checked on construction, so only it
   * is typed here.
   */
  datatype GeneticData = GeneticData(
    variantId: Value,
    chromosome: ChromosomeEnum,
    position: Value,
    referenceAllele: Value,
    alternateAllele: Value,
    alternateAlleleFrequency: Value)

  /** Attribute access by field. */
  function Get(g: GeneticData, f: Field): Value {
    match f
    case VariantId => g.variantId
    case Chromosome => Chrom(g.chromosome)
    case Position => g.position
    case ReferenceAllele => g.referenceAllele
    case AlternateAllele => g.alternateAllele
    case AlternateAlleleFrequency => g.alternateAlleleFrequency
  }

  /** The exceptions raised along the ingestion path. */
  datatype Error =
    | NoHeaderLine                     // IndexError: an empty file has no line 0
    | MissingHeaderMarker              // AssertionError: header does not start with '#'
    | WrongLabelCount(count: nat)      // AssertionError: not six header labels
    | UnknownLabel(text: string)       // KeyError: label not in `HeaderOrder`
    | ColumnMissing                    // IndexError: data line has too few columns
    | MissingArguments(fields: set<Field>)  // TypeError: constructor arguments missing
    | UnsupportedChromosome            // ValueError: raised by `__post_init__`
    | PositionOverflow                 // OverflowError: a position SQLite's INTEGER cannot hold

  /**
   * `GeneticData(**kwargs)`: every field must be given (else `TypeError`),
   * then `__post_init__` rejects a chromosome that is not a `ChromosomeEnum`
   * member (`ValueError`); no other field is checked, and each is stored as given.
   */
  function Construct(kwargs: map<Field, Value>): (r: Result<GeneticData, Error>)
    ensures r.Success? <==> AllFields <= kwargs.Keys && kwargs[Chromosome].Chrom?
    ensures r.Success? ==> forall f :: f in kwargs ==> Get(r.value, f) == kwargs[f]
    ensures !(AllFields <= kwargs.Keys) ==> r == Failure(MissingArguments(AllFields - kwargs.Keys))
    ensures AllFields <= kwargs.Keys && !kwargs[Chromosome].Chrom? ==> r == Failure(UnsupportedChromosome)
  {
    if !(AllFields <= kwargs.Keys) then
      Failure(MissingArguments(AllFields - kwargs.Keys))
    else if !kwargs[Chromosome].Chrom? then
      Failure(UnsupportedChromosome)
    else
      Success(GeneticData(kwargs[VariantId], kwargs[Chromosome].chrom, kwargs[Position],
                          kwargs[ReferenceAllele], kwargs[AlternateAllele],
                          kwargs[AlternateAlleleFrequency]))
  }

  /** Two instances that agree on every field are the same instance. */
  lemma FieldsDetermineRecord(g: GeneticData, h: GeneticData)
    requires forall f :: Get(g, f) == Get(h, f)
    ensures g == h
  {
    assert Get(g, VariantId) == Get(h, VariantId) && Get(g, Chromosome) == Get(h, Chromosome);
    assert Get(g, Position) == Get(h, Position) && Get(g, ReferenceAllele) == Get(h, ReferenceAllele);
    assert Get(g, AlternateAllele) == Get(h, AlternateAllele);
    assert Get(g, AlternateAlleleFrequency) == Get(h, AlternateAlleleFrequency);
  }

  /** The keyword arguments that rebuild a record. */
  function Arguments(g: GeneticData): map<Field, Value> {
    map f | f in AllFields :: Get(g, f)
  }

  /** Constructing from a record's own fields gives that record back unchanged. */
  lemma ConstructStoresFields(g: GeneticData)
    ensures Construct(Arguments(g)) == Success(g)
  {
    var r := Construct(Arguments(g));
    assert r.Success?;
    assert forall f :: Get(r.value, f) == Get(g, f);
    assert Get(r.value, Chromosome) == Get(g, Chromosome);
  }

  /** The constructor does not validate alleles: any value passes there. */
  lemma ConstructIgnoresAlleles(kwargs: map<Field, Value>, reference: Value, alternate: Value)
    requires Construct(kwargs).Success?
    ensures Construct(kwargs[ReferenceAllele := reference][AlternateAllele := alternate]).Success?
  {
  }

  /** Every field holds a value of its annotated type. */
  predicate WellTyped(g: GeneticData) {
    forall f :: HasType(Get(g, f), f)
  }

  /** A variant record with every field of its annotated type, as the store keeps it. */
  datatype VariantRecord = VariantRecord(
    variantId: string,
    chromosome: ChromosomeEnum,
    position: int,
    referenceAllele: AlleleEnum,
    alternateAllele: AlleleEnum,
    alternateAlleleFrequency: string)

  /** The `GeneticData` instance holding a typed record's values. */
  function FromRecord(rec: VariantRecord): (g: GeneticData)
    ensures WellTyped(g)
    ensures g.variantId == Str(rec.variantId) && g.chromosome == rec.chromosome
    ensures g.position == Int(rec.position)
    ensures g.referenceAllele == Allele(rec.referenceAllele)
    ensures g.alternateAllele == Allele(rec.alternateAllele)
    ensures g.alternateAlleleFrequency == Float(rec.alternateAlleleFrequency)
  {
    GeneticData(Str(rec.variantId), rec.chromosome, Int(rec.position),
                Allele(rec.referenceAllele), Allele(rec.alternateAllele),
                Float(rec.alternateAlleleFrequency))
  }

  /** Reading the typed values back out of a well-typed instance. */
  function ToRecord(g: GeneticData): (rec: VariantRecord)
    requires WellTyped(g)
    ensures FromRecord(rec) == g
  {
    assert HasType(Get(g, VariantId), VariantId) && HasType(Get(g, Position), Position);
    assert HasType(Get(g, ReferenceAllele), ReferenceAllele);
    assert HasType(Get(g, AlternateAllele), AlternateAllele);
    assert HasType(Get(g, AlternateAlleleFrequency), AlternateAlleleFrequency);
    VariantRecord(g.variantId.text, g.chromosome, g.position.number,
                  g.referenceAllele.base, g.alternateAllele.base,
                  g.alternateAlleleFrequency.token)
  }

  /** Typed records and well-typed instances are in one-to-one correspondence. */
  lemma RecordRoundTrip(rec: VariantRecord)
    ensures ToRecord(FromRecord(rec)) == rec
  {
  }
}
