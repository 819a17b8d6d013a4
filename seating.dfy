/**
 The seating document and the merge of an assignment plan into it: the loop
 of `updateSeatingData` that overwrites the `tickets` of every known table
 named in the plan, warns about the unknown ones, and counts the tables and
 tickets it assigned.
 */
module Seating {
  import opened Collections

  /**
   A key of the document's `tables` object (a table number as text). Lookup
   is own-key presence: names inherited from `Object.prototype` are not
   tables here.
   */
  type TableId = string

  /**
   One table record: its ticket list and, opaquely, every other field of the
   record (the sponsor `name` among them), each kept as its serialised text.
   The `tickets` field lives only in `tickets`, never in `other`.
   */
  datatype TableRecord = TableRecord(tickets: seq<int>, other: map<string, string>)

  /** A record stands for one JSON object: `other` does not hold a second `tickets` key. */
  predicate WellFormed(r: TableRecord)
  {
    "tickets" !in r.other
  }

  type Tables = map<TableId, TableRecord>

  /** One entry of the assignment plan: a table id and the ticket list it should get. */
  datatype Assignment = Assignment(id: TableId, tickets: seq<int>)

  /** The plan, in the order `Object.entries` walks it. */
  type Plan = seq<Assignment>

  datatype Option<T> = None | Some(value: T)

  /** The plan's keys are those of an object literal, so no id repeats. */
  predicate DistinctIds(plan: Plan)
  {
    forall i, j :: 0 <= i < j < |plan| ==> plan[i].id != plan[j].id
  }

  /** Every ticket list of the plan, concatenated in plan order. */
  function Flatten(plan: Plan): seq<int>
  {
    if plan == [] then [] else plan[0].tickets + Flatten(plan[1..])
  }

  /** One pass of the loop body over the tables: overwrite a known table's tickets. */
  function Assign(tables: Tables, a: Assignment): Tables
  {
    if a.id in tables then tables[a.id := tables[a.id].(tickets := a.tickets)] else tables
  }

  /** The tables after the loop has walked the whole plan, one entry after another. */
  function Merge(tables: Tables, plan: Plan): Tables
  {
    if plan == [] then tables else Merge(Assign(tables, plan[0]), plan[1..])
  }

  /** The ticket list of the last plan entry that names `id`, if any does. */
  function Planned(plan: Plan, id: TableId): Option<seq<int>>
  {
    if plan == [] then None
    else
      var later := Planned(plan[1..], id);
      if later.Some? then later
      else if plan[0].id == id then Some(plan[0].tickets)
      else None
  }

  /** The plan entries the loop counts: those naming a known table with a non-empty list. */
  function Received(ids: set<TableId>, plan: Plan): Plan
  {
    if plan == [] then []
    else
      (if plan[0].id in ids && |plan[0].tickets| > 0 then [plan[0]] else [])
      + Received(ids, plan[1..])
  }

  /** The ids the loop warns about, one warning per plan entry naming an unknown table. */
  function MissingIds(ids: set<TableId>, plan: Plan): seq<TableId>
  {
    if plan == [] then []
    else
      (if plan[0].id in ids then [] else [plan[0].id]) + MissingIds(ids, plan[1..])
  }

  // ---------------------------------------------------------------------
  // What the merge does to the document
  // ---------------------------------------------------------------------

  /**
   The merge keeps the set of table ids, and each table is either untouched
   (no entry names it) or has exactly its `tickets` replaced by the list of
   the last entry naming it.
   */
  lemma {:induction false} MergeAt(tables: Tables, plan: Plan, id: TableId)
    ensures Merge(tables, plan).Keys == tables.Keys
    ensures id in tables ==>
      Merge(tables, plan)[id] == match Planned(plan, id)
                                 case None => tables[id]
                                 case Some(ts) => tables[id].(tickets := ts)
  {
    if plan != [] {
      MergeAt(Assign(tables, plan[0]), plan[1..], id);
    }
  }

  /** `Planned` finds the last entry naming `id`, and nothing when no entry does. */
  lemma {:induction false} PlannedLast(plan: Plan, k: nat)
    requires k < |plan|
    requires forall j :: k < j < |plan| ==> plan[j].id != plan[k].id
    ensures Planned(plan, plan[k].id) == Some(plan[k].tickets)
  {
    if k > 0 {
      PlannedLast(plan[1..], k - 1);
    } else {
      PlannedNone(plan[1..], plan[0].id);
    }
  }

  lemma {:induction false} PlannedNone(plan: Plan, id: TableId)
    requires forall j :: 0 <= j < |plan| ==> plan[j].id != id
    ensures Planned(plan, id) == None
  {
    if plan != [] {
      PlannedNone(plan[1..], id);
    }
  }

  /** The table set is preserved: the merge never adds or removes a table. */
  lemma {:induction false} MergeKeepsIds(tables: Tables, plan: Plan)
    ensures Merge(tables, plan).Keys == tables.Keys
  {
    var id :| true;
    MergeAt(tables, plan, id);
  }

  /**
   A known table named by an entry (the last one naming it; with an
   object-literal plan, the only one) ends with exactly that entry's list,
   an empty list clearing it, and every other field as before.
   */
  lemma MergeReplaces(tables: Tables, plan: Plan, k: nat)
    requires k < |plan| && plan[k].id in tables
    requires forall j :: k < j < |plan| ==> plan[j].id != plan[k].id
    ensures plan[k].id in Merge(tables, plan)
    ensures Merge(tables, plan)[plan[k].id].tickets == plan[k].tickets
    ensures Merge(tables, plan)[plan[k].id].other == tables[plan[k].id].other
  {
    MergeAt(tables, plan, plan[k].id);
    PlannedLast(plan, k);
  }

  /** A table no entry names is left identical. */
  lemma {:induction false} MergeUntouched(tables: Tables, plan: Plan, id: TableId)
    requires id in tables
    requires forall j :: 0 <= j < |plan| ==> plan[j].id != id
    ensures id in Merge(tables, plan) && Merge(tables, plan)[id] == tables[id]
  {
    MergeAt(tables, plan, id);
    PlannedNone(plan, id);
  }

  /** An entry for an unknown table creates nothing. */
  lemma {:induction false} MergeCreatesNothing(tables: Tables, plan: Plan, id: TableId)
    requires id !in tables
    ensures id !in Merge(tables, plan)
  {
    MergeAt(tables, plan, id);
  }

  /** Only the `tickets` field of any table can change. */
  lemma {:induction false} MergeKeepsOtherFields(tables: Tables, plan: Plan)
    ensures forall id :: id in tables ==>
      id in Merge(tables, plan) && Merge(tables, plan)[id].other == tables[id].other
  {
    forall id | id in tables
      ensures id in Merge(tables, plan) && Merge(tables, plan)[id].other == tables[id].other
    {
      MergeAt(tables, plan, id);
    }
  }

  /** The merge keeps every record well formed. */
  lemma {:induction false} MergeKeepsWellFormed(tables: Tables, plan: Plan)
    requires forall id :: id in tables ==> WellFormed(tables[id])
    ensures forall id :: id in Merge(tables, plan) ==> WellFormed(Merge(tables, plan)[id])
  {
    MergeKeepsIds(tables, plan);
    MergeKeepsOtherFields(tables, plan);
  }

  /**
   Running the merge again with the same plan on the updated tables changes
   nothing, and counts and warns exactly as the first run did.
   */
  lemma MergeIdempotent(tables: Tables, plan: Plan)
    ensures Merge(Merge(tables, plan), plan) == Merge(tables, plan)
    ensures Received(Merge(tables, plan).Keys, plan) == Received(tables.Keys, plan)
    ensures MissingIds(Merge(tables, plan).Keys, plan) == MissingIds(tables.Keys, plan)
  {
    var once := Merge(tables, plan);
    var twice := Merge(once, plan);
    MergeKeepsIds(tables, plan);
    MergeKeepsIds(once, plan);
    forall id | id in tables ensures twice[id] == once[id] {
      MergeAt(tables, plan, id);
      MergeAt(once, plan, id);
    }
  }

  // ---------------------------------------------------------------------
  // The counters and the warnings
  // ---------------------------------------------------------------------

  /**
   `updatedCount` is at most the number of entries and at most
   `totalTickets`, which is at most the number of tickets in the plan: each
   counted entry contributes its non-empty list.
   */
  lemma {:induction false} CountersBounded(ids: set<TableId>, plan: Plan)
    ensures |Received(ids, plan)| <= |plan|
    ensures |Received(ids, plan)| <= |Flatten(Received(ids, plan))| <= |Flatten(plan)|
  {
    if plan != [] {
      CountersBounded(ids, plan[1..]);
      var rest := Received(ids, plan[1..]);
      if plan[0].id in ids && |plan[0].tickets| > 0 {
        assert Received(ids, plan) == [plan[0]] + rest;
        assert ([plan[0]] + rest)[1..] == rest;
        assert Flatten([plan[0]] + rest) == plan[0].tickets + Flatten(rest);
      } else {
        assert Received(ids, plan) == rest;
      }
    }
  }

  /** How the counted entries change when the loop consumes entry `i`. */
  lemma ReceivedStep(ids: set<TableId>, plan: Plan, i: nat)
    requires i < |plan|
    ensures var counted := plan[i].id in ids && |plan[i].tickets| > 0;
      && |Received(ids, plan[i..])| == (if counted then 1 else 0) + |Received(ids, plan[i + 1..])|
      && |Flatten(Received(ids, plan[i..]))|
         == (if counted then |plan[i].tickets| else 0) + |Flatten(Received(ids, plan[i + 1..]))|
  {
    var tail := plan[i..];
    assert tail[0] == plan[i] && tail[1..] == plan[i + 1..];
    var rest := Received(ids, plan[i + 1..]);
    if plan[i].id in ids && |plan[i].tickets| > 0 {
      assert Received(ids, tail) == [plan[i]] + rest;
      assert ([plan[i]] + rest)[1..] == rest;
      assert Flatten([plan[i]] + rest) == plan[i].tickets + Flatten(rest);
    } else {
      assert Received(ids, tail) == rest;
    }
  }

  /** How the merged tables relate when the loop consumes entry `i`. */
  lemma MergeStep(tables: Tables, plan: Plan, i: nat)
    requires i < |plan|
    ensures Merge(tables, plan[i..]) == Merge(Assign(tables, plan[i]), plan[i + 1..])
  {
    var tail := plan[i..];
    assert tail[0] == plan[i] && tail[1..] == plan[i + 1..];
  }

  /** How the warnings grow when the loop consumes entry `i`. */
  lemma MissingStep(ids: set<TableId>, plan: Plan, i: nat)
    requires i < |plan|
    ensures MissingIds(ids, plan[i..])
      == (if plan[i].id in ids then [] else [plan[i].id]) + MissingIds(ids, plan[i + 1..])
  {
    var tail := plan[i..];
    assert tail[0] == plan[i] && tail[1..] == plan[i + 1..];
  }

  /** The counted entries are exactly the entries naming a known table with a non-empty list. */
  lemma {:induction false} ReceivedMembers(ids: set<TableId>, plan: Plan)
    ensures forall a :: a in Received(ids, plan) <==> a in plan && a.id in ids && |a.tickets| > 0
  {
    if plan != [] {
      ReceivedMembers(ids, plan[1..]);
      assert plan == [plan[0]] + plan[1..];
    }
  }

  /** A warning names an id exactly when some entry names it and the document has no such table. */
  lemma {:induction false} MissingIdsMembers(ids: set<TableId>, plan: Plan)
    ensures forall x :: x in MissingIds(ids, plan) <==>
      x !in ids && exists j :: 0 <= j < |plan| && plan[j].id == x
  {
    if plan != [] {
      MissingIdsMembers(ids, plan[1..]);
      assert forall j :: 1 <= j < |plan| ==> plan[j] == plan[1..][j - 1];
    }
  }

  /** With an object-literal plan, each unknown id is warned about exactly once. */
  lemma {:induction false} MissingIdsOnce(ids: set<TableId>, plan: Plan)
    requires DistinctIds(plan)
    ensures NoDup(MissingIds(ids, plan))
  {
    if plan != [] {
      var tail := plan[1..];
      assert DistinctIds(tail) by {
        forall i, j | 0 <= i < j < |tail| ensures tail[i].id != tail[j].id {
          assert tail[i] == plan[i + 1] && tail[j] == plan[j + 1];
        }
      }
      MissingIdsOnce(ids, tail);
      MissingIdsMembers(ids, tail);
      var rest := MissingIds(ids, tail);
      if plan[0].id !in ids {
        assert plan[0].id !in rest by {
          forall j | 0 <= j < |tail| ensures tail[j].id != plan[0].id {
            assert tail[j] == plan[j + 1];
          }
        }
        assert MissingIds(ids, plan) == [plan[0].id] + rest;
      }
    }
  }

  /**
   The seating document. The script changes only its `tables` object, and
   only inside this loop.
   */
  class SeatingDocument {
    var tables: Tables

    constructor (tables: Tables)
      ensures this.tables == tables
    {
      this.tables := tables;
    }

    /**
     The merge loop: for each plan entry, a known table gets the entry's list
     (counted when non-empty) and an unknown id yields a warning.
     */
    method ApplyPlan(plan: Plan) returns (updatedCount: nat, totalTickets: nat, warnings: seq<TableId>)
      modifies this
      ensures tables == Merge(old(tables), plan)
      ensures updatedCount == |Received(old(tables).Keys, plan)|
      ensures totalTickets == |Flatten(Received(old(tables).Keys, plan))|
      ensures warnings == MissingIds(old(tables).Keys, plan)
    {
      ghost var ids := tables.Keys;
      updatedCount, totalTickets, warnings := 0, 0, [];
      var i := 0;
      assert plan[i..] == plan;
      while i < |plan|
        invariant 0 <= i <= |plan|
        invariant tables.Keys == ids
        invariant Merge(tables, plan[i..]) == Merge(old(tables), plan)
        invariant updatedCount + |Received(ids, plan[i..])| == |Received(ids, plan)|
        invariant totalTickets + |Flatten(Received(ids, plan[i..]))| == |Flatten(Received(ids, plan))|
        invariant warnings + MissingIds(ids, plan[i..]) == MissingIds(ids, plan)
      {
        var a := plan[i];
        assert plan[i..][0] == a && plan[i..][1..] == plan[i + 1..];
        ReceivedStep(ids, plan, i);
        MissingStep(ids, plan, i);
        MergeStep(tables, plan, i);
        if a.id in tables {
          tables := tables[a.id := tables[a.id].(tickets := a.tickets)];
          if |a.tickets| > 0 {
            updatedCount := updatedCount + 1;
            totalTickets := totalTickets + |a.tickets|;
          }
        } else {
          assert warnings + [a.id] + MissingIds(ids, plan[i + 1..])
              == warnings + ([a.id] + MissingIds(ids, plan[i + 1..]));
          warnings := warnings + [a.id];
        }
        i := i + 1;
      }
    }
  }
}
