/** The option lists the exported workbook offers as drop-downs for the
    Proof, Language, Page Assembler and QC columns, and how the records the
    segmenter emits sit against them. The lists allow blanks. */
module Dropdowns {
  import opened Calendar
  import opened ProofStage
  import opened Cursor
  import opened Extraction

  const ProofOptions: seq<string> := ["PRESS", "CPR", "PRE PRESS", "AFTER PRESS", "PRINT READY", "PROOF1"]
  const LanguageOptions: seq<string> := ["All zones", "BIL", "ENG"]
  const AssemblerOptions: seq<string> :=
    ["", "Munish Balakrishnan", "Mohammed Siddik", "Sakthivel S", "Prasanth As", "Naveen Kumar"]
  const QcOptions: seq<string> := ["", "Direct Upload", "Hariharan"]

  /** A record whose Proof, Language and QC cells all pass the drop-down
      validation (a blank cell passes, as the validation allows blanks). */
  predicate WithinDropdowns(r: ProofRecord) {
    && (r.proof == "" || r.proof in ProofOptions)
    && r.language in LanguageOptions
    && r.qc in QcOptions
  }

  /** The classifier's results are exactly the Proof options, minus
      "PRE PRESS", plus the blank. */
  lemma StageResultsAgainstOptions()
    ensures forall s :: s in StageResults <==> s == "" || (s in ProofOptions && s != "PRE PRESS")
  {
    assert ProofOptions[0] == Press && ProofOptions[1] == Cpr && ProofOptions[2] == "PRE PRESS";
    assert ProofOptions[3] == AfterPress && ProofOptions[4] == PrintReady && ProofOptions[5] == Proof1;
  }

  /** A well-formed record passes the Proof, Language and QC validations. */
  lemma WellFormedWithinDropdowns(r: ProofRecord)
    requires WellFormedRecord(r)
    ensures WithinDropdowns(r)
  {
    StageResultsAgainstOptions();
    assert LanguageOptions[0] == Language;
    assert QcOptions[1] == DirectUpload && QcOptions[2] == DefaultQc;
  }

  /** The decision at one position: its record, if any, passes the Proof,
      Language and QC validations, and a CORP record's assembler is listed. */
  lemma StepWithinDropdowns(lines: seq<string>, i: nat, today: Date)
    requires i < |lines| && ValidDate(today)
    ensures var s := StepAt(lines, i, today);
            && (s.record.Some? ==> WithinDropdowns(s.record.value))
            && (s.shape == CorpPair ==> s.record.value.pageAssembler in AssemblerOptions)
  {
    var s := StepAt(lines, i, today);
    if s.record.Some? {
      WellFormedWithinDropdowns(s.record.value);
    }
    if s.shape == CorpPair {
      CorpAssemblersListed();
    }
  }

  /** Both assemblers a CORP pair can name are on the list. */
  lemma CorpAssemblersListed()
    ensures SiddikName in AssemblerOptions && PrasanthName in AssemblerOptions
  {
    assert AssemblerOptions[2] == SiddikName && AssemblerOptions[4] == PrasanthName;
  }

  /** Every emitted record passes the Proof, Language and QC validations,
      and a CORP record's assembler is one of the listed assemblers. A
      triplet's assembler is free text from the log line and is not
      constrained. */
  lemma SegmentWithinDropdowns(lines: seq<string>, today: Date)
    requires ValidDate(today)
    ensures forall e :: e in Segment(lines, today) ==> WithinDropdowns(e.record)
    ensures forall e :: e in Segment(lines, today) && StepAt(lines, e.at, today).shape == CorpPair ==>
      e.record.pageAssembler in AssemblerOptions
  {
    var es := Segment(lines, today);
    forall e | e in es
      ensures WithinDropdowns(e.record)
      ensures StepAt(lines, e.at, today).shape == CorpPair ==> e.record.pageAssembler in AssemblerOptions
    {
      var k :| 0 <= k < |es| && es[k] == e;
      StepWithinDropdowns(lines, e.at, today);
    }
  }
}
