/** One row of the ClinVar variant summary table, the reference-genome option
    and the assembly label it selects. */
module Records {

  import opened Wrappers

  /** Rust's `i32`, the type serde parses `#AlleleID`, `Start` and `Stop` into. */
  newtype i32 = x: int | -0x8000_0000 <= x < 0x8000_0000

  /** The columns the filter never looks at; they are read and written back
      unchanged. */
  datatype Columns = Columns(
    alleleId: i32,
    variantType: string,
    clinicalSignificance: string,
    phenotypeIds: string,
    phenotypeList: string,
    chromosome: string,
    start: i32,
    stop: i32,
    reviewStatus: string,
    positionVcf: string,
    referenceAlleleVcf: string,
    alternateAlleleVcf: string,
    otherIds: string)

  /** A record as decoded from one line: the two notation columns are optional
      in the input (they appear only in output that is read back in). */
  datatype RawRecord = RawRecord(
    geneSymbol: string,
    name: string,
    cDot: Option<string>,
    pDot: Option<string>,
    assembly: string,
    rest: Columns)

  /** A `ClinVarRecord`: the raw record with its notation columns filled in. */
  datatype Record = Record(
    geneSymbol: string,
    name: string,
    cDot: string,
    pDot: string,
    assembly: string,
    rest: Columns)

  /** The value serde gives a notation column that the input does not have. */
  function DefaultVal(): string
  {
    "NA"
  }

  /** Decoding fills each missing notation column with the default and
      otherwise keeps every field as read. */
  function WithDefaults(raw: RawRecord): (r: Record)
    ensures r.cDot == (if raw.cDot.Some? then raw.cDot.value else "NA")
    ensures r.pDot == (if raw.pDot.Some? then raw.pDot.value else "NA")
    ensures r.geneSymbol == raw.geneSymbol && r.name == raw.name
    ensures r.assembly == raw.assembly && r.rest == raw.rest
  {
    Record(raw.geneSymbol, raw.name,
           if raw.cDot.Some? then raw.cDot.value else DefaultVal(),
           if raw.pDot.Some? then raw.pDot.value else DefaultVal(),
           raw.assembly, raw.rest)
  }

  /** The `--reference` option. */
  datatype ReferenceGenome = Hg19 | Hg38

  /** The option's value when it is not given. */
  const DefaultReference: ReferenceGenome := Hg38

  /** The reference genome in use: the one given on the command line, or
      the default when the option is absent, which keeps GRCh38 rows. */
  function ReferenceOf(given: Option<ReferenceGenome>): (reference: ReferenceGenome)
    ensures given.Some? ==> reference == given.value
    ensures given.None? ==> reference == DefaultReference && AssemblyLabel(reference) == "GRCh38"
  {
    if given.Some? then given.value else DefaultReference
  }

  /** The `Assembly` value a row must carry to be kept: GRCh38 for hg38,
      GRCh37 for anything else (that is, hg19). */
  function AssemblyLabel(reference: ReferenceGenome): (assembly: string)
    ensures reference == Hg38 ==> assembly == "GRCh38"
    ensures reference == Hg19 ==> assembly == "GRCh37"
  {
    if reference == Hg38 then "GRCh38" else "GRCh37"
  }

  /** Two different options never select the same assembly. */
  lemma AssemblyLabelInjective(a: ReferenceGenome, b: ReferenceGenome)
    ensures AssemblyLabel(a) == AssemblyLabel(b) <==> a == b
  {
  }

  /** The gene filter: `None` when no gene list was given. */
  type GeneFilter = Option<set<string>>

  /** The row filter of the main loop: the gene symbol is in the gene set (or
      no gene list is in use) and the assembly equals the selected label
      exactly. */
  predicate Keep(r: Record, genes: GeneFilter, reference: ReferenceGenome)
  {
    (genes.None? || r.geneSymbol in genes.value) && r.assembly == AssemblyLabel(reference)
  }

  /** A kept row carries exactly the selected assembly label, and a row with
      any other assembly is dropped, whatever the gene filter. */
  lemma KeepExactAssembly(r: Record, genes: GeneFilter, reference: ReferenceGenome)
    ensures Keep(r, genes, reference) ==>
              r.assembly == AssemblyLabel(reference)
    ensures r.assembly != AssemblyLabel(reference) ==> !Keep(r, genes, reference)
  {
  }

  /** With no gene list the gene symbol never excludes a row; with one, a row
      whose symbol is not in the set is dropped. */
  lemma KeepGeneFilter(r: Record, genes: GeneFilter, reference: ReferenceGenome, other: string)
    ensures genes.None? ==> (Keep(r, genes, reference) <==> Keep(r.(geneSymbol := other), genes, reference))
    ensures genes.Some? && r.geneSymbol !in genes.value ==> !Keep(r, genes, reference)
  {
  }
}
