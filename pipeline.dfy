/** The main loop of the filter: one forward pass over the decoded rows that
    drops the rows failing the gene or assembly filter, fills in the notation
    columns of the others from their `Name`, and writes them in input order.
    The first undecodable row or malformed name ends the run; what was
    written before it stays written. */
module Pipeline {

  import opened Wrappers
  import opened Text
  import opened Records
  import opened Notation
  import opened GeneList

  /** One input line as the csv reader delivers it. */
  datatype Row = Decoded(raw: RawRecord) | Undecodable

  /** What ends a run early: a line that does not decode (with its position
      among the data rows), or a name the notation parser refuses. */
  datatype Fault = RowDecodeError(index: nat) | NotationFault(error: NotationError)

  /** What a run leaves behind: the rows written and the fault, if any, that
      stopped it. */
  datatype Outcome = Outcome(written: seq<Record>, fault: Option<Fault>)

  /** Only the two notation columns may differ. */
  predicate SameExceptNotation(a: Record, b: Record)
  {
    a.geneSymbol == b.geneSymbol && a.name == b.name && a.assembly == b.assembly && a.rest == b.rest
  }

  /** Fills in `c_dot` and `p_dot` of a kept record from its name. A name
      without `c.` leaves the record as read; a body without `p.` becomes
      `c_dot` and `p_dot` stays as read; a body with `p.` sets both; a body
      with `p.` and no `(` is refused. */
  function Enrich(r: Record): (e: Result<Record, NotationError>)
    ensures e.Ok? ==> SameExceptNotation(r, e.value)
    ensures e.Err? <==> ParseNotation(r.name).Err?
    ensures e.Err? ==> e.error == NotationFormatError(r.name)
    ensures !Contains(r.name, "c.") ==> e == Ok(r)
    ensures Contains(r.name, "c.") && !Contains(NotationBody(r.name), "p.") ==>
              e == Ok(r.(cDot := NotationBody(r.name)))
    ensures e.Ok? && Contains(NotationBody(r.name), "p.") && Contains(r.name, "c.") ==>
              && e.value.cDot + "(" <= NotationBody(r.name)
              && '(' !in e.value.cDot
              && e.value.pDot == RemoveAll(NotationBody(r.name)[|e.value.cDot| + 1..], ')')
              && ')' !in e.value.pDot
  {
    match ParseNotation(r.name)
    case Err(err) => Err(err)
    case Ok(NonCoding) => Ok(r)
    case Ok(Coding(cDot)) => Ok(r.(cDot := cDot))
    case Ok(CodingProtein(cDot, pDot)) => Ok(r.(cDot := cDot, pDot := pDot))
  }

  /** Enriching depends on the name alone, so enriching twice changes
      nothing more. */
  lemma EnrichIdempotent(r: Record)
    requires Enrich(r).Ok?
    ensures Enrich(Enrich(r).value) == Enrich(r)
  {
  }

  /** What the loop does with one row. */
  datatype Step = Skip | Emit(record: Record) | Abort(fault: Fault)

  /** One iteration of the main loop: decode, filter, enrich. */
  function ProcessRow(row: Row, index: nat, genes: GeneFilter, reference: ReferenceGenome): Step
  {
    match row
    case Undecodable => Abort(RowDecodeError(index))
    case Decoded(raw) =>
      var record := WithDefaults(raw);
      if !Keep(record, genes, reference) then Skip
      else
        match Enrich(record)
        case Ok(e) => Emit(e)
        case Err(err) => Abort(NotationFault(err))
  }

  /** A row is skipped exactly when it decodes and fails the filter, and
      emitted exactly when it decodes, passes the filter and its name parses;
      an emitted row is the enrichment of that row; a run aborts on an
      undecodable row (naming its position) or on a kept row whose name the
      parser refuses (naming the name). */
  lemma ProcessRowCases(row: Row, index: nat, genes: GeneFilter, reference: ReferenceGenome)
    ensures var s := ProcessRow(row, index, genes, reference);
            && (s.Skip? <==> row.Decoded? && !Keep(WithDefaults(row.raw), genes, reference))
            && (s.Emit? <==>
                  row.Decoded? && Keep(WithDefaults(row.raw), genes, reference) && Enrich(WithDefaults(row.raw)).Ok?)
            && (s.Emit? ==>
                  && Enrich(WithDefaults(row.raw)) == Ok(s.record)
                  && SameExceptNotation(WithDefaults(row.raw), s.record))
            && (s.Abort? ==>
                  if row.Undecodable? then s.fault == RowDecodeError(index)
                  else
                    && Keep(WithDefaults(row.raw), genes, reference)
                    && Enrich(WithDefaults(row.raw)).Err?
                    && s.fault == NotationFault(NotationFormatError(row.raw.name)))
  {
  }

  /** The notation columns of a kept row as it is written: a name without
      `c.` leaves them as read, which is "NA" for columns the input lacks; a
      body without `p.` becomes `c_dot` and leaves `p_dot` as read; a body
      with `p.` and `(` is emitted, with a `c_dot` that, followed by `(`,
      starts the body and has no `(` of its own, and a
      `p_dot` that is the rest of the body with every `)` deleted. */
  lemma EmittedNotation(raw: RawRecord, index: nat, genes: GeneFilter, reference: ReferenceGenome)
    requires Keep(WithDefaults(raw), genes, reference)
    ensures var s := ProcessRow(Decoded(raw), index, genes, reference);
            && (!Contains(raw.name, "c.") ==> s == Emit(WithDefaults(raw)))
            && (!Contains(raw.name, "c.") && raw.cDot.None? && raw.pDot.None? ==>
                  s.record.cDot == "NA" && s.record.pDot == "NA")
            && (Contains(raw.name, "c.") && !Contains(NotationBody(raw.name), "p.") ==>
                  && s.Emit?
                  && s.record.cDot == NotationBody(raw.name)
                  && s.record.pDot == WithDefaults(raw).pDot)
            && (Contains(raw.name, "c.") && Contains(NotationBody(raw.name), "p.") && '(' in NotationBody(raw.name) ==>
                  s.Emit?)
            && (s.Emit? && Contains(raw.name, "c.") && Contains(NotationBody(raw.name), "p.") ==>
                  && s.record.cDot + "(" <= NotationBody(raw.name)
                  && '(' !in s.record.cDot
                  && s.record.pDot == RemoveAll(NotationBody(raw.name)[|s.record.cDot| + 1..], ')')
                  && ')' !in s.record.pDot)
  {
  }

  /** The outcome of each row taken on its own. */
  function Steps(rows: seq<Row>, genes: GeneFilter, reference: ReferenceGenome): (steps: seq<Step>)
    ensures |steps| == |rows|
    ensures forall j :: 0 <= j < |rows| ==> steps[j] == ProcessRow(rows[j], j, genes, reference)
  {
    seq(|rows|, j requires 0 <= j < |rows| => ProcessRow(rows[j], j, genes, reference))
  }

  /** The pass over the row outcomes so far: rows are written as they are
      emitted, and once a fault has stopped the run nothing more happens. */
  function RunSteps(steps: seq<Step>): (o: Outcome)
    ensures |o.written| <= |steps|
    decreases |steps|
  {
    if |steps| == 0 then Outcome([], None)
    else
      var prev := RunSteps(steps[..|steps| - 1]);
      if prev.fault.Some? then prev
      else
        match steps[|steps| - 1]
        case Skip => prev
        case Emit(r) => Outcome(prev.written + [r], None)
        case Abort(f) => Outcome(prev.written, Some(f))
  }

  /** The whole filter run over the decoded input. */
  function Run(rows: seq<Row>, genes: GeneFilter, reference: ReferenceGenome): Outcome
  {
    RunSteps(Steps(rows, genes, reference))
  }

  /** The position of each written row among the row outcomes. The positions
      increase, and each names an emitted row; when the run ends without a
      fault, no row aborted and every emitted row was written. */
  function EmittedAt(steps: seq<Step>): (idx: seq<nat>)
    ensures |idx| == |RunSteps(steps).written|
    ensures forall k :: 0 <= k < |idx| ==>
              idx[k] < |steps| && steps[idx[k]] == Emit(RunSteps(steps).written[k])
    ensures forall k, l :: 0 <= k < l < |idx| ==> idx[k] < idx[l]
    ensures RunSteps(steps).fault.None? ==>
              forall j :: 0 <= j < |steps| ==> !steps[j].Abort? && (steps[j].Emit? ==> j in idx)
    decreases |steps|
  {
    if |steps| == 0 then []
    else
      var n := |steps| - 1;
      var prev := EmittedAt(steps[..n]);
      if RunSteps(steps[..n]).fault.Some? then prev
      else if steps[n].Emit? then prev + [n]
      else prev
  }

  /** The input position of each written row. The output is a subsequence
      of the input in input order, each input row used at most once; each
      written row is the enrichment of a decoded row that passed the filter
      and differs from it at most in the notation columns. When the run ends
      without a fault, every row decoded, and every row that passed the
      filter was written. */
  lemma OutputIsFilteredSubsequence(rows: seq<Row>, genes: GeneFilter, reference: ReferenceGenome)
    ensures var out := Run(rows, genes, reference);
            var idx := EmittedAt(Steps(rows, genes, reference));
            && |idx| == |out.written|
            && (forall k, l :: 0 <= k < l < |idx| ==> idx[k] < idx[l])
            && (forall k :: 0 <= k < |idx| ==>
                  && idx[k] < |rows|
                  && rows[idx[k]].Decoded?
                  && Keep(WithDefaults(rows[idx[k]].raw), genes, reference)
                  && Enrich(WithDefaults(rows[idx[k]].raw)) == Ok(out.written[k])
                  && SameExceptNotation(WithDefaults(rows[idx[k]].raw), out.written[k]))
            && (out.fault.None? ==>
                  forall j :: 0 <= j < |rows| ==>
                    rows[j].Decoded? && (Keep(WithDefaults(rows[j].raw), genes, reference) ==> j in idx))
  {
    var steps := Steps(rows, genes, reference);
    var idx := EmittedAt(steps);
    forall k | 0 <= k < |idx|
      ensures ProcessRow(rows[idx[k]], idx[k], genes, reference).Emit?
    {
      assert steps[idx[k]] == ProcessRow(rows[idx[k]], idx[k], genes, reference);
      ProcessRowCases(rows[idx[k]], idx[k], genes, reference);
    }
    forall j | 0 <= j < |rows|
    {
      ProcessRowCases(rows[j], j, genes, reference);
    }
  }

  /** Only the two fault sources can stop a run: when every row decodes and
      every kept row has a name the parser accepts, the run ends without a
      fault. */
  lemma NoFaultWhenWellFormed(rows: seq<Row>, genes: GeneFilter, reference: ReferenceGenome)
    requires forall j :: 0 <= j < |rows| ==> rows[j].Decoded?
    requires forall j :: 0 <= j < |rows| ==>
               Keep(WithDefaults(rows[j].raw), genes, reference) ==> Enrich(WithDefaults(rows[j].raw)).Ok?
    ensures Run(rows, genes, reference).fault.None?
  {
    var steps := Steps(rows, genes, reference);
    if RunSteps(steps).fault.Some? {
      FaultHasCause(steps);
      var i :| 0 <= i < |steps| && RunSteps(steps[..i]).fault.None?
                 && steps[i].Abort? && RunSteps(steps).fault == Some(steps[i].fault);
      ProcessRowCases(rows[i], i, genes, reference);
      assert false;
    }
  }

  /** A fault at step `i`, with none before it, is the outcome of the whole
      run: nothing after step `i` is written. */
  lemma {:induction false} RunStopsAtFault(steps: seq<Step>, i: nat)
    requires i < |steps|
    requires RunSteps(steps[..i]).fault.None?
    requires steps[i].Abort?
    ensures RunSteps(steps) == Outcome(RunSteps(steps[..i]).written, Some(steps[i].fault))
    decreases |steps|
  {
    var front := steps[..|steps| - 1];
    if |steps| == i + 1 {
      assert front == steps[..i];
    } else {
      assert front[..i] == steps[..i] && front[i] == steps[i];
      RunStopsAtFault(front, i);
    }
  }

  /** A step that does not abort extends a run without a fault by its
      record, if it emits one. */
  lemma RunExtends(steps: seq<Step>, i: nat)
    requires i < |steps|
    requires RunSteps(steps[..i]).fault.None? && !steps[i].Abort?
    ensures RunSteps(steps[..i + 1])
              == Outcome(RunSteps(steps[..i]).written + (if steps[i].Emit? then [steps[i].record] else []), None)
  {
    assert steps[..i + 1][..i] == steps[..i];
  }

  /** A fault always has a cause: the first step that aborts. */
  lemma {:induction false} FaultHasCause(steps: seq<Step>)
    requires RunSteps(steps).fault.Some?
    ensures exists i :: 0 <= i < |steps| && RunSteps(steps[..i]).fault.None?
              && steps[i].Abort? && RunSteps(steps).fault == Some(steps[i].fault)
    decreases |steps|
  {
    var n := |steps| - 1;
    var front := steps[..n];
    if RunSteps(front).fault.Some? {
      FaultHasCause(front);
      var i :| 0 <= i < |front| && RunSteps(front[..i]).fault.None?
                 && front[i].Abort? && RunSteps(front).fault == Some(front[i].fault);
      assert front[..i] == steps[..i] && front[i] == steps[i];
    } else {
      assert steps[..n] == front;
    }
  }

  /** A written record as it reads back in: the notation columns are now
      present. */
  function AsInput(r: Record): (raw: RawRecord)
    ensures WithDefaults(raw) == r
  {
    RawRecord(r.geneSymbol, r.name, Some(r.cDot), Some(r.pDot), r.assembly, r.rest)
  }

  /** The output of a run read back as input. */
  function Reread(out: seq<Record>): (rows: seq<Row>)
    ensures |rows| == |out|
    ensures forall k :: 0 <= k < |out| ==> rows[k] == Decoded(AsInput(out[k]))
  {
    seq(|out|, k requires 0 <= k < |out| => Decoded(AsInput(out[k])))
  }

  /** Steps that all emit pass through a run unchanged. */
  lemma {:induction false} RunOfEmits(steps: seq<Step>, out: seq<Record>)
    requires |steps| == |out|
    requires forall k :: 0 <= k < |out| ==> steps[k] == Emit(out[k])
    ensures RunSteps(steps) == Outcome(out, None)
    decreases |out|
  {
    if |out| > 0 {
      var n := |out| - 1;
      RunOfEmits(steps[..n], out[..n]);
      assert out == out[..n] + [out[n]];
    }
  }

  /** Filtering the output again, with the same reference genome and no gene
      list, writes the same rows and raises no fault. */
  lemma RerunReproduces(rows: seq<Row>, genes: GeneFilter, reference: ReferenceGenome)
    ensures var out := Run(rows, genes, reference).written;
            Run(Reread(out), None, reference) == Outcome(out, None)
  {
    var out := Run(rows, genes, reference).written;
    OutputIsFilteredSubsequence(rows, genes, reference);
    var idx := EmittedAt(Steps(rows, genes, reference));
    var again := Steps(Reread(out), None, reference);
    forall k | 0 <= k < |out|
      ensures again[k] == Emit(out[k])
    {
      var src := WithDefaults(rows[idx[k]].raw);
      EnrichIdempotent(src);
      assert WithDefaults(Reread(out)[k].raw) == out[k];
      ProcessRowCases(Reread(out)[k], k, None, reference);
    }
    RunOfEmits(again, out);
  }

  /** The notation extraction of the main loop, inline as the source writes
      it: look for `c.`, take piece 1 (or 0) of the name split at `:`, and if
      that body has `p.` split it at its first `(` and delete every `)` from
      the protein part. */
  method ExtractNotation(record: Record) returns (res: Result<Record, NotationError>)
    ensures res == Enrich(record)
  {
    if !Contains(record.name, "c.") {
      return Ok(record);
    }
    var fields := Split(record.name, ':');
    var cDotRaw := if |fields| > 1 then fields[1] else fields[0];
    assert cDotRaw == NotationBody(record.name);
    if !Contains(cDotRaw, "p.") {
      return Ok(record.(cDot := cDotRaw));
    }
    var parts := SplitOnce(cDotRaw, '(');
    if parts.None? {
      return Err(NotationFormatError(record.name));
    }
    var (cDot, pDot) := parts.value;
    return Ok(record.(cDot := cDot, pDot := RemoveAll(pDot, ')')));
  }

  /** The body of the main loop for one row: decode, the gene check, the
      assembly check, then the notation extraction. */
  method HandleRow(row: Row, index: nat, genes: GeneFilter, reference: ReferenceGenome)
      returns (step: Step)
    ensures step == ProcessRow(row, index, genes, reference)
  {
    if row.Undecodable? {
      return Abort(RowDecodeError(index));
    }
    var record := WithDefaults(row.raw);
    if genes.Some? && record.geneSymbol !in genes.value {
      return Skip;
    }
    if record.assembly != AssemblyLabel(reference) {
      return Skip;
    }
    var enriched := ExtractNotation(record);
    match enriched {
      case Ok(e) => step := Emit(e);
      case Err(err) => step := Abort(NotationFault(err));
    }
  }

  /** The main loop: one pass over the rows, appending each kept row to the
      output in input order and stopping at the first fault. */
  method FilterRecords(rows: seq<Row>, genes: GeneFilter, reference: ReferenceGenome)
      returns (written: seq<Record>, fault: Option<Fault>)
    ensures Outcome(written, fault) == Run(rows, genes, reference)
  {
    ghost var steps := Steps(rows, genes, reference);
    written := [];
    var i := 0;
    while i < |rows|
      invariant 0 <= i <= |rows|
      invariant RunSteps(steps[..i]) == Outcome(written, None)
    {
      var step := HandleRow(rows[i], i, genes, reference);
      assert step == steps[i];
      if step.Abort? {
        RunStopsAtFault(steps, i);
        return written, Some(step.fault);
      }
      RunExtends(steps, i);
      if step.Emit? {
        written := written + [step.record];
      }
      i := i + 1;
    }
    assert steps[..i] == steps;
    fault := None;
  }

  /** The gene filter that a gene list, if one is given, turns into. */
  function GeneFilterOf(geneList: Option<seq<string>>): (genes: GeneFilter)
    ensures geneList.None? <==> genes.None?
    ensures geneList.Some? ==> forall g :: g in genes.value <==> g in geneList.value
  {
    if geneList.None? then None else Some(set g | g in geneList.value)
  }

  /** The whole filter after the command line has been read: build the gene
      set when a gene list is given, select the reference genome (the
      default when `--reference` is absent), run the loop. */
  method Filter(rows: seq<Row>, geneList: Option<seq<string>>, given: Option<ReferenceGenome>)
      returns (written: seq<Record>, fault: Option<Fault>)
    ensures Outcome(written, fault) == Run(rows, GeneFilterOf(geneList), ReferenceOf(given))
  {
    var genes: GeneFilter := None;
    if geneList.Some? {
      var geneSet := ParseGeneList(geneList.value);
      genes := Some(geneSet);
    }
    assert geneList.Some? ==> genes.value == GeneFilterOf(geneList).value;
    var reference := ReferenceOf(given);
    written, fault := FilterRecords(rows, genes, reference);
  }
}
