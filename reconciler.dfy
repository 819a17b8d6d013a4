/**
 One run of the maintenance script, between reading the seating document and
 printing: merge the plan, then validate it.
 */
module Reconciler {
  import opened Collections
  import opened Seating
  import opened Validation

  /** What the run reports: the two counters, the missing-table warnings and the diagnostics. */
  datatype Summary = Summary(
    updatedCount: nat,
    totalTickets: nat,
    missingTables: seq<TableId>,
    duplicates: seq<int>,
    gaps: GapReport)

  /**
   `updateSeatingData` without its file and console I/O: the document is
   merged in place, then the diagnostics are computed from the plan alone,
   so they never change the document.
   */
  method UpdateSeatingData(doc: SeatingDocument, plan: Plan) returns (summary: Summary)
    modifies doc
    ensures doc.tables == Merge(old(doc.tables), plan)
    ensures summary.updatedCount == |Received(old(doc.tables).Keys, plan)|
    ensures summary.totalTickets == |Flatten(Received(old(doc.tables).Keys, plan))|
    ensures summary.missingTables == MissingIds(old(doc.tables).Keys, plan)
    ensures NoDup(summary.duplicates)
    ensures forall x :: x in summary.duplicates <==> Repeated(Flatten(plan), x)
    ensures summary.gaps == Classify(Gaps(Flatten(plan)))
  {
    var updatedCount, totalTickets, warnings := doc.ApplyPlan(plan);
    var duplicates, gaps := Validate(plan);
    summary := Summary(updatedCount, totalTickets, warnings, duplicates, gaps);
  }
}
