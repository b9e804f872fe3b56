/**
 The `assign_reviewers` management command: one initial top-up pass for
 every submission that is not cancelled, in table order. The progress line
 it prints is left out.
 */
module AssignReviewersCommand {
  import opened Wrappers
  import opened Seqs
  import opened Records
  import opened Store
  import opened Hooks

  function NotCancelled(): Submission -> bool {
    (s: Submission) => !s.cancelled
  }

  /** Keys of the submissions the command visits. */
  function LivePks(db: Db): set<int> {
    set s | s in db.submissions && !s.cancelled :: s.pk
  }

  /** `trace` runs through one top-up per queued submission, with the default origin. */
  ghost predicate Passes(trace: seq<Db>, queue: seq<Submission>) {
    && |trace| == |queue| + 1
    && forall k :: 0 <= k < |queue| ==> TopUp(trace[k], queue[k].pk, AutoAssignedInitial, trace[k + 1])
  }

  /** What any prefix of the batch has done to `db` by the time the table is `cur`. */
  ghost predicate BatchSoFar(db: Db, cur: Db) {
    && Extends(db, cur)
    && (forall i :: |db.assignments| <= i < |cur.assignments| ==>
          && cur.assignments[i].origin == AutoAssignedInitial
          && !cur.assignments[i].optedOut
          && cur.assignments[i].submission in LivePks(db))
    && (forall pk :: pk !in LivePks(db) ==>
          Filter(cur.assignments, ForSubmission(pk)) == Filter(db.assignments, ForSubmission(pk)))
    && (forall pk :: LiveCount(db.assignments, pk) <= LiveCount(cur.assignments, pk) <= Max(NumReviewers, LiveCount(db.assignments, pk)))
  }

  lemma BatchStart(db: Db)
    ensures BatchSoFar(db, db)
  {
    assert db.assignments[..|db.assignments|] == db.assignments;
  }

  /** One more pass for a live submission keeps the batch's guarantees. */
  lemma BatchStep(db: Db, cur: Db, sub: int, next: Db)
    requires BatchSoFar(db, cur)
    requires TopUp(cur, sub, AutoAssignedInitial, next)
    requires sub in LivePks(db)
    ensures BatchSoFar(db, next)
  {
    var n, c := |db.assignments|, |cur.assignments|;
    assert next.assignments[..n] == next.assignments[..c][..n];
    assert Extends(db, next);
    forall i | n <= i < |next.assignments|
      ensures next.assignments[i].origin == AutoAssignedInitial
      ensures !next.assignments[i].optedOut
      ensures next.assignments[i].submission in LivePks(db)
    {
      if i < c {
        assert next.assignments[i] == next.assignments[..c][i] == cur.assignments[i];
      } else {
        assert next.assignments[i] == Added(cur, next)[i - c];
      }
    }
    forall pk | pk !in LivePks(db)
      ensures Filter(next.assignments, ForSubmission(pk)) == Filter(db.assignments, ForSubmission(pk))
    {
      TopUpOtherSubmissions(cur, sub, AutoAssignedInitial, next, pk);
    }
    forall pk
      ensures LiveCount(db.assignments, pk) <= LiveCount(next.assignments, pk) <= Max(NumReviewers, LiveCount(db.assignments, pk))
    {
      if pk == sub {
        TopUpLiveCount(cur, sub, AutoAssignedInitial, next);
      } else {
        TopUpOtherSubmissions(cur, sub, AutoAssignedInitial, next, pk);
      }
    }
  }

  /**
   `Command.handle`. The result is reached by one top-up pass per live
   submission in order (`trace` holds the table after each pass); only
   assignment rows are added, all with the initial origin and for live
   submissions; a cancelled submission's assignments are untouched; no live
   count drops or is pushed past the target; the one-row-per-reviewer and
   distinct-key invariants survive.
   */
  method Handle(db: Db) returns (db': Db, ghost trace: seq<Db>)
    ensures Passes(trace, Filter(db.submissions, NotCancelled()))
    ensures trace[0] == db && trace[|trace| - 1] == db'
    ensures Extends(db, db')
    ensures forall i :: |db.assignments| <= i < |db'.assignments| ==>
      && db'.assignments[i].origin == AutoAssignedInitial
      && !db'.assignments[i].optedOut
      && db'.assignments[i].submission in LivePks(db)
    ensures forall pk :: pk !in LivePks(db) ==>
      Filter(db'.assignments, ForSubmission(pk)) == Filter(db.assignments, ForSubmission(pk))
    ensures forall pk :: LiveCount(db.assignments, pk) <= LiveCount(db'.assignments, pk) <= Max(NumReviewers, LiveCount(db.assignments, pk))
    ensures OnePerReviewer(db.assignments) ==> OnePerReviewer(db'.assignments)
    ensures UniquePks(db.assignments) ==> UniquePks(db'.assignments)
  {
    var queue := Filter(db.submissions, NotCancelled());
    db' := db;
    trace := [db];
    BatchStart(db);
    var i := 0;
    while i < |queue|
      invariant 0 <= i <= |queue|
      invariant |trace| == i + 1 && trace[0] == db && trace[i] == db'
      invariant forall k :: 0 <= k < i ==> TopUp(trace[k], queue[k].pk, AutoAssignedInitial, trace[k + 1])
      invariant BatchSoFar(db, db')
      invariant OnePerReviewer(db.assignments) ==> OnePerReviewer(db'.assignments)
      invariant UniquePks(db.assignments) ==> UniquePks(db'.assignments)
    {
      var submission := queue[i];
      assert submission in db.submissions && !submission.cancelled;
      var next := CreateInitialAssignments(db', submission.pk);
      BatchStep(db, db', submission.pk, next);
      if OnePerReviewer(db'.assignments) {
        TopUpKeepsOnePerReviewer(db', submission.pk, AutoAssignedInitial, next);
      }
      if UniquePks(db'.assignments) {
        TopUpKeepsUniquePks(db', submission.pk, AutoAssignedInitial, next);
      }
      db' := next;
      trace := trace + [next];
      i := i + 1;
    }
  }
}
