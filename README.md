# ClinVar variant filter, modelled in Dafny

The tool reads the ClinVar variant summary table (tab-separated, one row per
variant) and writes back the rows that belong to the selected reference
genome and, when a gene list is given, to one of the listed genes. On the way
it fills in two extra columns, `c_dot` and `p_dot`, with the coding and
protein notation found in the free-text `Name` column, for names in the form
`transcript:c.XXX (p.YYY)` or `transcript:c.XXX`.

This project models that row transformation:

- `wrappers.dfy` — `Option` and `Result`.
- `text.dfy` (module `Text`) — the string operations the code relies on,
  written out over `seq<char>`: `str::contains`, `str::split(':')`,
  `str::split_once('(')` and `str::replace(')', "")`, each with the lemma that
  pins it down (a declarative definition, an inverse or a uniqueness fact).
- `record.dfy` (module `Records`) — the `ClinVarRecord` row (the columns the
  filter reads, plus the others as an opaque passthrough), the `"NA"` default
  of the two notation columns, the `--reference` option with its default
  `Hg38`, the assembly label it selects, and the row filter.
- `notation.dfy` (module `Notation`) — the notation parser: the body of a
  name, the `p.` and non-`p.` branches, and the malformed case in which the
  code calls `unwrap()` on a failed `split_once`, modelled as an explicit
  `NotationFormatError` carrying the name.
- `genelist.dfy` (module `GeneList`) — the loop that inserts the lines of the
  gene list into a set.
- `pipeline.dfy` (module `Pipeline`) — the main loop: an imperative method
  (`FilterRecords`, with `HandleRow` and `ExtractNotation` for its body)
  proved equal to a specification function `Run` over the input rows, and the
  lemmas about `Run`: the output is an order-preserving subsequence of the
  input in which only the notation columns change, a fault ends the run, and
  filtering the output again reproduces it.

Input rows are a sequence of decoded records (or `Undecodable` for a line
the csv/serde reader rejects, which the code propagates with `?`); output is
the sequence of records handed to the writer, together with the fault that
stopped the run, if any.

Three behaviours of the code are easy to misread, and the model keeps them
as the code has them:

- Gene list: every line is inserted into the set, an empty line included;
  the code does not skip blank lines.
- Names without `c.`: such a row is written with `c_dot` and `p_dot` as
  read, so they are `"NA"` only when the input lacks those columns; the code
  does not reset them to `"NA"`.
- A body with `p.` but no `(`: the code panics on `unwrap()`; the model ends
  the run with `NotationFault(NotationFormatError(name))`, keeping the rows
  written before it.

## Model

| member | source | states |
|---|---|---|
| Text.ContainsIff | src/main.rs:143 | the left-to-right substring scan holds exactly when some index starts an occurrence of the pattern |
| Text.Contains | src/main.rs:143 | the substring test (no contract of its own); its meaning is stated by `Text.ContainsIff` |
| Text.Split | src/main.rs:144 | `split(':')` yields at least one piece, more than one exactly when the string has a `:`, no piece contains `:`, and the first piece is the text up to the first `:` (or all of it) |
| Text.JoinSplit | src/main.rs:144 | joining the pieces with `:` gives the input back |
| Text.SplitOnce | src/main.rs:153 | `split_once('(')` fails exactly when there is no `(`; otherwise before + `(` + after is the input and before has no `(` |
| Text.SplitOnceAt | src/main.rs:153 | a string `a + "(" + b` with no `(` in `a` splits into `a` and `b` |
| Text.RemoveAll | src/main.rs:154 | the result of deleting `)` contains no `)`, and a string without `)` is unchanged |
| Text.RemoveAllKeepsOthers | src/main.rs:154 | every character other than `)` occurs as often after the deletion as before |
| Text.RemoveAllConcat | src/main.rs:154 | deletion distributes over concatenation, so the kept characters stay in order |
| Records.DefaultVal | src/main.rs:19-21 | the default of a missing notation column (no contract of its own); `Records.WithDefaults` states that it is `"NA"` |
| Records.WithDefaults | src/main.rs:19-35 | a missing `c_dot` or `p_dot` column reads as `"NA"`, a present one as its value; every other field as read |
| Records.AssemblyLabel | src/main.rs:132-136 | `Hg38` selects `"GRCh38"`, `Hg19` selects `"GRCh37"` |
| Records.ReferenceOf | src/main.rs:91-94 | an explicit `--reference` is used as given; without it the default `Hg38` is used, which keeps `GRCh38` rows |
| Records.AssemblyLabelInjective | src/main.rs:97-101 | the two reference genomes select different assembly labels |
| Records.Keep | src/main.rs:139-142 | the row filter (no contract of its own); its meaning is stated by `Records.KeepExactAssembly` and `Records.KeepGeneFilter` |
| Records.KeepExactAssembly | src/main.rs:142 | a kept row has exactly the selected label as `Assembly`, and any other value drops the row |
| Records.KeepGeneFilter | src/main.rs:139-141 | without a gene list the gene symbol never decides whether a row is kept; with one, a symbol outside the set drops the row |
| Notation.NotationBody | src/main.rs:144-150 | the body has no `:`, is the whole name when the name has no `:`, and otherwise is the text after the first `:` up to the next `:` or the end |
| Notation.BodyBetweenColons | src/main.rs:144-150 | for a prefix without `:`, then `:`, a body without `:` and a tail that is empty or starts with `:`, the body is selected; text after a second `:` is not part of it |
| Notation.ParseNotation | src/main.rs:143-162 | no `c.` gives no notation; a body without `p.` is the coding notation verbatim; a body with `p.` and no `(` is an error naming the name, and only then; a body with `c.`, `p.` and `(` gives the protein case; in it the coding part followed by `(` starts the body, has no `(`, and the protein part is the rest of the body with every `)` deleted |
| Notation.CodingProteinSplit | src/main.rs:152-156 | a name with `c.` whose body has `p.` and `(` is the protein case, and in it coding part + `(` + rest is exactly the body, and the protein part keeps every character of the rest but `)` |
| Notation.ParseCodingProteinAt | src/main.rs:152-156 | conversely, a body made of a coding part without `(`, then `(`, then a rest, with `p.` in it, parses to that coding part and the rest without `)` |
| Notation.CodingAfterTranscript | src/main.rs:143-150 | `transcript:body` with a body that starts with `c.` has that body and counts as a coding name |
| Notation.FormatCodingProtein | src/main.rs:143-156 | `transcript:c.XXX (p.YYY)` parses to `c.XXX ` (space kept) and `p.YYY` |
| Notation.FormatCodingOnly | src/main.rs:143-161 | `transcript:c.XXX` without `p.` parses to `c.XXX` alone |
| GeneList.ParseGeneList | src/main.rs:9-17 | the set holds exactly the lines read, an empty one included; duplicates collapse, so it has at most as many members as lines, and as many when the lines are distinct |
| Pipeline.Enrich | src/main.rs:143-165 | only the notation columns change; a name without `c.` leaves the record as read; a body without `p.` sets `c_dot` to the body and leaves `p_dot`; with `p.` the new `c_dot` plus `(` starts the body and has no `(`, and the new `p_dot` is the rest of the body after that `(` with every `)` deleted; it fails exactly when the parser does, with the name |
| Pipeline.EnrichIdempotent | src/main.rs:143-165 | enriching an enriched record changes nothing |
| Pipeline.ProcessRow | src/main.rs:138-165 | one iteration of the loop (no contract of its own); its cases are stated by `Pipeline.ProcessRowCases` and `Pipeline.EmittedNotation`, and `Pipeline.HandleRow` computes it |
| Pipeline.ProcessRowCases | src/main.rs:138-165 | a row is skipped exactly when it decodes and fails the filter, and emitted exactly when it decodes, passes the filter and its name parses; an emitted row is the enrichment of that row; an abort is an undecodable row (with its position) or a kept row whose name the parser refuses (with the name) |
| Pipeline.EmittedNotation | src/main.rs:143-165 | a kept row without `c.` is written as read, with both notation columns `"NA"` when the input lacks them; a body without `p.` becomes `c_dot` and `p_dot` stays as read; a body with `c.`, `p.` and `(` is emitted, with a `c_dot` that, followed by `(`, starts the body and has no `(` (so the split is at the first `(`), and a `p_dot` that is the rest of the body with every `)` deleted |
| Pipeline.RunSteps | src/main.rs:137-167 | a run writes at most one row per input row |
| Pipeline.Run | src/main.rs:137-167 | the whole pass (no contract of its own): `Pipeline.RunSteps` over the steps of the rows; what it writes is stated by `Pipeline.OutputIsFilteredSubsequence`, `Pipeline.RunStopsAtFault` and `Pipeline.RerunReproduces`, and `Pipeline.FilterRecords` computes it |
| Pipeline.EmittedAt | src/main.rs:137-167 | each written row sits at a strictly increasing input position whose row was emitted as exactly that record; without a fault no row aborted and every emitted row was written |
| Pipeline.OutputIsFilteredSubsequence | src/main.rs:137-167 | the output is a subsequence of the input in input order; each written row comes from a decoded row that passed the gene and assembly filter, is its enrichment and differs from it only in `c_dot`/`p_dot`; without a fault every row decoded and every kept row was written |
| Pipeline.RunStopsAtFault | src/main.rs:138 | the first aborting row ends the run with its fault; nothing after it is written |
| Pipeline.RunExtends | src/main.rs:137-167 | a non-aborting row extends a fault-free run by its record when it is emitted, and by nothing when it is skipped |
| Pipeline.FaultHasCause | src/main.rs:137-167 | a run that ends in a fault has a first aborting row, with no fault before it, whose fault it is |
| Pipeline.NoFaultWhenWellFormed | src/main.rs:137-167 | when every row decodes and every kept row's name parses, the run ends without a fault |
| Pipeline.AsInput | src/main.rs:32-35 | a written record read back with its notation columns present decodes to the same record |
| Pipeline.RerunReproduces | src/main.rs:137-167 | filtering the output again with the same reference genome and no gene list writes the same rows and raises no fault |
| Pipeline.ExtractNotation | src/main.rs:143-162 | the inline extraction (`contains`, `split(':')`, piece 1 or 0, `split_once('(')`, `replace(')', "")`) computes `Enrich` |
| Pipeline.HandleRow | src/main.rs:138-165 | one loop iteration (decode, gene check, assembly check, extraction) computes the row's step |
| Pipeline.FilterRecords | src/main.rs:137-167 | the loop's written rows and fault are those of `Run` |
| Pipeline.GeneFilterOf | src/main.rs:106-111 | no gene list disables gene filtering; a gene list filters on exactly its lines |
| Pipeline.Filter | src/main.rs:106-167 | building the gene set when a list is given, taking the given or default reference genome and running the loop yields `Run` with that gene filter and reference |

## Left out

- Command-line parsing (`Cli`, clap): the model takes the gene list, if
  any, and the `--reference` value, if given, as parameters; only the
  default `Hg38` and the label mapping are modelled.
- Opening the input file, detecting `.gz` and decompressing it: file I/O and
  a foreign library.
- csv/serde decoding and encoding of rows, the writer to a file or standard
  output, and `flush`: rows arrive as a sequence of decoded records, a line
  that does not decode is `Undecodable`, and the output is the sequence of
  records handed to the writer. Whether buffered rows reach the destination
  after a fault is not modelled.
- Opening and reading the gene-list file, and the panics of its `expect`
  calls: `ParseGeneList` starts from the lines already read.
- The integer columns `#AlleleID`, `Start` and `Stop` are carried as a
  32-bit integer type that the filter never inspects; parsing them is
  serde's job.
- `Box<dyn Error>` propagation and the process exit code: a run ends with an
  `Outcome` holding the fault instead.
- Rust strings are UTF-8 byte strings; the model works on characters. Every
  pattern searched for (`c.`, `p.`, `:`, `(`, `)`) is ASCII, so the
  splits fall at the same places.
