/**
 The default hook set of `pinax/submissions/hooks.py`: who holds the review
 permission, and the reviewer top-up rule behind
 `ReviewAssignment.create_assignments`.
 */
module Hooks {
  import opened Wrappers
  import opened Seqs
  import opened Records
  import opened Store

  /** Name of the group the top-up draws reviewers from. */
  const ReviewersGroup: string := "reviewers"

  // ---------------------------------------------------------------------------
  // Reviewer permission

  /** Why `Permission.objects.get(...)` found no single row. */
  datatype LookupError = PermissionDoesNotExist | MultiplePermissionsReturned

  function IsAddReview(): Permission -> bool {
    (p: Permission) => p.appLabel == "submissions" && p.codename == "add_review"
  }

  /** Users holding permission `id` directly, through `user_permissions`. */
  function DirectHolders(db: Db, id: int): set<int> {
    set u | u in db.users && id in u.permissionIds :: u.pk
  }

  /** Users holding permission `id` through one of their groups. */
  function GroupHolders(db: Db, id: int): set<int> {
    set u, g | u in db.users && g in u.groups && g in db.groupPermissions && id in db.groupPermissions[g] :: u.pk
  }

  /**
   `holders` is exactly the set of keys of users holding permission `id`,
   either directly or through a group.
   */
  ghost predicate HoldersAre(db: Db, id: int, holders: set<int>) {
    forall pk :: pk in holders <==>
      exists u :: u in db.users && u.pk == pk &&
        (id in u.permissionIds || exists g :: g in u.groups && g in db.groupPermissions && id in db.groupPermissions[g])
  }

  /**
   `DefaultHookSet.reviewers`: the distinct users holding the submissions
   app's `add_review` permission by group or directly. The permission is
   fetched with `get`, which raises unless exactly one row matches.
   */
  function Reviewers(db: Db): (r: Result<set<int>, LookupError>)
    ensures r.Failure? <==> Count(db.permissions, IsAddReview()) != 1
    ensures r == Failure(PermissionDoesNotExist) <==> Count(db.permissions, IsAddReview()) == 0
    ensures r == Failure(MultiplePermissionsReturned) <==> Count(db.permissions, IsAddReview()) > 1
    ensures r.Success? ==>
      exists i :: 0 <= i < |db.permissions| && IsAddReview()(db.permissions[i]) && HoldersAre(db, db.permissions[i].id, r.value)
  {
    var matches := Filter(db.permissions, IsAddReview());
    if |matches| == 0 then Failure(PermissionDoesNotExist)
    else if |matches| > 1 then Failure(MultiplePermissionsReturned)
    else
      var id := matches[0].id;
      Success(DirectHolders(db, id) + GroupHolders(db, id))
  }

  /** The user at index `i` with permission `id` granted directly. */
  function Grant(db: Db, i: nat, id: int): Db
    requires i < |db.users|
  {
    db.(users := db.users[i := db.users[i].(permissionIds := db.users[i].permissionIds + {id})])
  }

  /**
   Granting the `add_review` permission directly to a user makes that user
   a reviewer and leaves everybody else's standing as it was.
   */
  lemma GrantMakesReviewer(db: Db, i: nat)
    requires i < |db.users| && Reviewers(db).Success?
    ensures var id := Filter(db.permissions, IsAddReview())[0].id;
      Reviewers(Grant(db, i, id)) == Success(Reviewers(db).value + {db.users[i].pk})
  {
    var id := Filter(db.permissions, IsAddReview())[0].id;
    var db' := Grant(db, i, id);
    var u, u' := db.users[i], db'.users[i];
    assert u'.pk == u.pk && u'.groups == u.groups && id in u'.permissionIds;
    var before := DirectHolders(db, id) + GroupHolders(db, id);
    var after := DirectHolders(db', id) + GroupHolders(db', id);
    forall pk | pk in after
      ensures pk in before + {u.pk}
    {
      if pk in DirectHolders(db', id) {
        var v :| v in db'.users && id in v.permissionIds && v.pk == pk;
        var j :| 0 <= j < |db'.users| && db'.users[j] == v;
        if j != i {
          assert db.users[j] == v;
        }
      } else {
        var v, g :| v in db'.users && g in v.groups && g in db.groupPermissions && id in db.groupPermissions[g] && v.pk == pk;
        var j :| 0 <= j < |db'.users| && db'.users[j] == v;
        if j != i {
          assert db.users[j] == v;
        }
      }
    }
    forall pk | pk in before + {u.pk}
      ensures pk in after
    {
      if pk == u.pk {
        assert u' in db'.users;
      } else if pk in DirectHolders(db, id) {
        var v :| v in db.users && id in v.permissionIds && v.pk == pk;
        var j :| 0 <= j < |db.users| && db.users[j] == v;
        assert db'.users[j] == v;
      } else {
        var v, g :| v in db.users && g in v.groups && g in db.groupPermissions && id in db.groupPermissions[g] && v.pk == pk;
        var j :| 0 <= j < |db.users| && db.users[j] == v;
        assert db'.users[j] == v;
      }
    }
    assert after == before + {u.pk};
  }

  // ---------------------------------------------------------------------------
  // Assignment queries

  function LiveFor(sub: int): Assignment -> bool {
    (a: Assignment) => a.submission == sub && !a.optedOut
  }

  function LiveHeldBy(user: int): Assignment -> bool {
    (a: Assignment) => a.user == user && !a.optedOut
  }

  function ForSubmission(sub: int): Assignment -> bool {
    (a: Assignment) => a.submission == sub
  }

  /** `num_assigned_reviewers`: assignments of `sub` that are not opted out. */
  function LiveCount(assignments: seq<Assignment>, sub: int): nat {
    Count(assignments, LiveFor(sub))
  }

  /**
   The `num_assignments` annotation. `Count("reviewassignment")` runs over
   the join the preceding `opted_out=False` filter created, so it counts the
   user's assignments that are not opted out, on any submission.
   */
  function Load(assignments: seq<Assignment>, user: int): nat {
    Count(assignments, LiveHeldBy(user))
  }

  predicate AssignedTo(assignments: seq<Assignment>, sub: int, user: int) {
    exists i :: 0 <= i < |assignments| && assignments[i].submission == sub && assignments[i].user == user
  }

  predicate HasAnyAssignment(assignments: seq<Assignment>, user: int) {
    exists i :: 0 <= i < |assignments| && assignments[i].user == user
  }

  predicate HasLiveAssignment(assignments: seq<Assignment>, user: int) {
    exists i :: 0 <= i < |assignments| && assignments[i].user == user && !assignments[i].optedOut
  }

  /** A user has load zero exactly when none of their assignments is live. */
  lemma LoadPositive(assignments: seq<Assignment>, user: int)
    ensures Load(assignments, user) > 0 <==> HasLiveAssignment(assignments, user)
  {
    CountPositive(assignments, LiveHeldBy(user));
  }

  /**
   The candidate filter: in the "reviewers" group, not assigned to `sub` in
   any state, and holding either no assignment at all or at least one that
   is not opted out (on any submission; the check is not scoped to `sub`).
   */
  predicate Eligible(db: Db, sub: int, u: User) {
    && ReviewersGroup in u.groups
    && !AssignedTo(db.assignments, sub, u.pk)
    && (!HasAnyAssignment(db.assignments, u.pk) || HasLiveAssignment(db.assignments, u.pk))
  }

  function Candidates(db: Db, sub: int): set<int> {
    set u | u in db.users && Eligible(db, sub, u) :: u.pk
  }

  /** `max(0, NUM_REVIEWERS - num_assigned_reviewers)`. */
  function Needed(db: Db, sub: int): nat {
    var live := LiveCount(db.assignments, sub);
    if live < NumReviewers then NumReviewers - live else 0
  }

  function Min(a: nat, b: nat): nat {
    if a <= b then a else b
  }

  function Max(a: nat, b: nat): nat {
    if a <= b then b else a
  }

  /** Largest assignment key in use (0 for an empty table); new rows take the keys after it. */
  function MaxPk(assignments: seq<Assignment>): (m: int)
    ensures forall i :: 0 <= i < |assignments| ==> assignments[i].pk <= m
    decreases |assignments|
  {
    if |assignments| == 0 then 0
    else
      var rest := MaxPk(assignments[..|assignments| - 1]);
      var last := assignments[|assignments| - 1].pk;
      assert forall i :: 0 <= i < |assignments| - 1 ==> assignments[i] == assignments[..|assignments| - 1][i];
      if last > rest then last else rest
  }

  /** The reviewers a sequence of assignments names. */
  function UsersOf(added: seq<Assignment>): set<int>
    decreases |added|
  {
    if |added| == 0 then {} else UsersOf(added[..|added| - 1]) + {added[|added| - 1].user}
  }

  lemma {:induction false} UsersOfMembers(added: seq<Assignment>, user: int)
    ensures user in UsersOf(added) <==> exists i :: 0 <= i < |added| && added[i].user == user
    decreases |added|
  {
    if |added| > 0 {
      var init := added[..|added| - 1];
      UsersOfMembers(init, user);
      if user in UsersOf(init) {
        var i :| 0 <= i < |init| && init[i].user == user;
        assert added[i].user == user;
      }
      if exists i :: 0 <= i < |added| && added[i].user == user {
        var i :| 0 <= i < |added| && added[i].user == user;
        if i < |init| {
          assert init[i].user == user;
        }
      }
    }
  }

  // ---------------------------------------------------------------------------
  // The top-up contract

  /** `db'` differs from `db` only by rows appended to the assignment table. */
  ghost predicate Extends(db: Db, db': Db) {
    && |db'.assignments| >= |db.assignments|
    && db'.assignments[..|db.assignments|] == db.assignments
    && db' == db.(assignments := db'.assignments)
  }

  function Added(db: Db, db': Db): seq<Assignment>
    requires |db'.assignments| >= |db.assignments|
  {
    db'.assignments[|db.assignments|..]
  }

  /** The load of every user, as the ranking sees it before any row is inserted. */
  function LoadOf(assignments: seq<Assignment>): int -> nat {
    (u: int) => Load(assignments, u)
  }

  /**
   A choice of rows from candidate set `cands` (loads `load`) for
   submission `sub`: `min(need, |cands|)` rows, each for a distinct candidate,
   with the given origin, not opted out and keyed from `base` on; in
   ascending load, and no candidate left out is strictly lighter than one
   taken. Among equal loads the choice is free.
   */
  ghost predicate Picked(cands: set<int>, need: nat, base: int, load: int -> nat, sub: int, origin: int, added: seq<Assignment>) {
    && |added| == Min(need, |cands|)
    && (forall i :: 0 <= i < |added| ==>
          && added[i].submission == sub
          && added[i].origin == origin
          && !added[i].optedOut
          && added[i].user in cands
          && added[i].pk == base + i)
    && (forall i, j :: 0 <= i < j < |added| ==> added[i].user != added[j].user)
    && (forall i, j :: 0 <= i <= j < |added| ==> load(added[i].user) <= load(added[j].user))
    && (forall i, u :: 0 <= i < |added| && u in cands && u !in UsersOf(added) ==> load(added[i].user) <= load(u))
  }

  /**
   What one top-up pass inserts for submission `sub`: as many rows as are
   missing from the target of three live assignments, or as many as there
   are candidates if fewer, ranked by the loads before the pass; the source
   breaks ties between equal loads at random.
   */
  ghost predicate Selection(db: Db, sub: int, origin: int, added: seq<Assignment>) {
    Picked(Candidates(db, sub), Needed(db, sub), MaxPk(db.assignments) + 1, LoadOf(db.assignments), sub, origin, added)
  }

  ghost predicate TopUp(db: Db, sub: int, origin: int, db': Db) {
    Extends(db, db') && Selection(db, sub, origin, Added(db, db'))
  }

  // ---------------------------------------------------------------------------
  // The top-up pass

  lemma NonEmptyPool(pool: set<int>)
    requires pool != {}
    ensures exists c :: c in pool
  {
    if forall c :: c !in pool {
    }
  }

  /** A non-empty pool of users has a least-loaded member. */
  lemma {:induction false} LeastLoadedExists(load: int -> nat, pool: set<int>)
    requires pool != {}
    ensures exists c :: c in pool && forall d :: d in pool ==> load(c) <= load(d)
    decreases |pool|
  {
    NonEmptyPool(pool);
    var x :| x in pool;
    if pool != {x} {
      var rest := pool - {x};
      LeastLoadedExists(load, rest);
      var c :| c in rest && forall d :: d in rest ==> load(c) <= load(d);
      if load(x) < load(c) {
        assert forall d :: d in pool ==> load(x) <= load(d);
      } else {
        assert forall d :: d in pool ==> load(c) <= load(d);
      }
    } else {
      assert forall d :: d in pool ==> load(x) <= load(d);
    }
  }

  /**
   A pass part-way: `added` holds the rows chosen so far, in ascending load,
   and `remaining` the candidates not yet taken, none lighter than a row
   already chosen.
   */
  ghost predicate Partial(cands: set<int>, need: nat, base: int, load: int -> nat, sub: int, origin: int,
                          added: seq<Assignment>, remaining: set<int>) {
    && remaining <= cands
    && |added| + |remaining| == |cands|
    && |added| <= need
    && (forall i :: 0 <= i < |added| ==>
          && added[i].submission == sub && added[i].origin == origin && !added[i].optedOut
          && added[i].user in cands && added[i].user !in remaining && added[i].pk == base + i)
    && (forall u :: u in cands ==> (u in remaining <==> u !in UsersOf(added)))
    && (forall i, j :: 0 <= i < j < |added| ==> added[i].user != added[j].user)
    && (forall i, j :: 0 <= i <= j < |added| ==> load(added[i].user) <= load(added[j].user))
    && (forall i, u :: 0 <= i < |added| && u in remaining ==> load(added[i].user) <= load(u))
  }

  /** Taking a least-loaded remaining candidate keeps the pass consistent. */
  lemma PartialStep(cands: set<int>, need: nat, base: int, load: int -> nat, sub: int, origin: int,
                    added: seq<Assignment>, remaining: set<int>, c: int)
    requires Partial(cands, need, base, load, sub, origin, added, remaining)
    requires |added| < need
    requires c in remaining && forall d :: d in remaining ==> load(c) <= load(d)
    ensures Partial(cands, need, base, load, sub, origin,
                    added + [Assignment(base + |added|, sub, c, origin, false)], remaining - {c})
  {
    var added' := added + [Assignment(base + |added|, sub, c, origin, false)];
    var remaining' := remaining - {c};
    StepRows(cands, need, base, load, sub, origin, added, remaining, c);
    StepOrder(cands, need, base, load, sub, origin, added, remaining, c);
    assert |remaining'| == |remaining| - 1;
    assert remaining' <= cands && |added'| + |remaining'| == |cands| && |added'| <= need;
  }

  /** The new row is well-formed, and the remaining candidates are still the unchosen ones. */
  lemma StepRows(cands: set<int>, need: nat, base: int, load: int -> nat, sub: int, origin: int,
                 added: seq<Assignment>, remaining: set<int>, c: int)
    requires Partial(cands, need, base, load, sub, origin, added, remaining)
    requires c in remaining
    ensures var added', remaining' := added + [Assignment(base + |added|, sub, c, origin, false)], remaining - {c};
      && (forall i :: 0 <= i < |added'| ==>
            && added'[i].submission == sub && added'[i].origin == origin && !added'[i].optedOut
            && added'[i].user in cands && added'[i].user !in remaining' && added'[i].pk == base + i)
      && (forall u :: u in cands ==> (u in remaining' <==> u !in UsersOf(added')))
  {
    var row := Assignment(base + |added|, sub, c, origin, false);
    var added' := added + [row];
    assert added'[..|added'| - 1] == added;
    assert UsersOf(added') == UsersOf(added) + {c};
    assert forall i :: 0 <= i < |added| ==> added'[i] == added[i];
    assert added'[|added|] == row;
  }

  /** The new row's user is distinct from the earlier ones and no lighter than any left. */
  lemma StepOrder(cands: set<int>, need: nat, base: int, load: int -> nat, sub: int, origin: int,
                  added: seq<Assignment>, remaining: set<int>, c: int)
    requires Partial(cands, need, base, load, sub, origin, added, remaining)
    requires c in remaining && forall d :: d in remaining ==> load(c) <= load(d)
    ensures var added', remaining' := added + [Assignment(base + |added|, sub, c, origin, false)], remaining - {c};
      && (forall i, j :: 0 <= i < j < |added'| ==> added'[i].user != added'[j].user)
      && (forall i, j :: 0 <= i <= j < |added'| ==> load(added'[i].user) <= load(added'[j].user))
      && (forall i, u :: 0 <= i < |added'| && u in remaining' ==> load(added'[i].user) <= load(u))
  {
    var row := Assignment(base + |added|, sub, c, origin, false);
    var added' := added + [row];
    assert forall i :: 0 <= i < |added| ==> added'[i] == added[i];
    assert added'[|added|] == row;
  }

  /** A finished pass meets the selection contract. */
  lemma PartialDone(cands: set<int>, need: nat, base: int, load: int -> nat, sub: int, origin: int,
                    added: seq<Assignment>, remaining: set<int>)
    requires Partial(cands, need, base, load, sub, origin, added, remaining)
    requires |added| >= need || remaining == {}
    ensures Picked(cands, need, base, load, sub, origin, added)
  {
  }

  /**
   `DefaultHookSet.create_assignments`: ranks the candidates by load (ties
   in any order) and inserts one assignment per reviewer taken, with keys
   following the largest key in use.
   */
  method CreateAssignments(db: Db, sub: int, origin: int) returns (db': Db)
    ensures TopUp(db, sub, origin, db')
  {
    var before := db.assignments;
    var cands := Candidates(db, sub);
    var need := Needed(db, sub);
    var base := MaxPk(before) + 1;
    var load := LoadOf(before);
    var remaining := cands;
    var added: seq<Assignment> := [];
    while |added| < need && remaining != {}
      invariant Partial(cands, need, base, load, sub, origin, added, remaining)
      decreases |remaining|
    {
      LeastLoadedExists(load, remaining);
      var c :| c in remaining && forall d :: d in remaining ==> load(c) <= load(d);
      PartialStep(cands, need, base, load, sub, origin, added, remaining, c);
      added := added + [Assignment(base + |added|, sub, c, origin, false)];
      remaining := remaining - {c};
    }
    PartialDone(cands, need, base, load, sub, origin, added, remaining);
    db' := db.(assignments := before + added);
    assert Added(db, db') == added;
  }

  /** `ReviewAssignment.create_assignments` with its default origin. */
  method CreateInitialAssignments(db: Db, sub: int) returns (db': Db)
    ensures TopUp(db, sub, AutoAssignedInitial, db')
  {
    db' := CreateAssignments(db, sub, AutoAssignedInitial);
  }

  // ---------------------------------------------------------------------------
  // Consequences of the top-up contract

  /**
   The submission's live count grows by exactly the rows added: it never
   drops, never passes the target unless it already had, and reaches the
   target whenever there are enough candidates.
   */
  lemma TopUpLiveCount(db: Db, sub: int, origin: int, db': Db)
    requires TopUp(db, sub, origin, db')
    ensures LiveCount(db'.assignments, sub) == LiveCount(db.assignments, sub) + Min(Needed(db, sub), |Candidates(db, sub)|)
    ensures LiveCount(db.assignments, sub) <= LiveCount(db'.assignments, sub) <= Max(NumReviewers, LiveCount(db.assignments, sub))
    ensures Needed(db, sub) <= |Candidates(db, sub)| ==> LiveCount(db'.assignments, sub) == Max(NumReviewers, LiveCount(db.assignments, sub))
  {
    var added := Added(db, db');
    assert db'.assignments == db.assignments + added;
    PickedLiveCount(Candidates(db, sub), Needed(db, sub), MaxPk(db.assignments) + 1, LoadOf(db.assignments),
                    sub, origin, db.assignments, added);
  }

  /** Appending a pick adds exactly its rows to the submission's live count. */
  lemma PickedLiveCount(cands: set<int>, need: nat, base: int, load: int -> nat, sub: int, origin: int,
                        before: seq<Assignment>, added: seq<Assignment>)
    requires Picked(cands, need, base, load, sub, origin, added)
    ensures LiveCount(before + added, sub) == LiveCount(before, sub) + Min(need, |cands|)
  {
    CountAppend(before, added, LiveFor(sub));
    CountAll(added, LiveFor(sub));
  }

  /** Assignments of any other submission are exactly as they were. */
  lemma TopUpOtherSubmissions(db: Db, sub: int, origin: int, db': Db, other: int)
    requires TopUp(db, sub, origin, db')
    requires other != sub
    ensures Filter(db'.assignments, ForSubmission(other)) == Filter(db.assignments, ForSubmission(other))
    ensures LiveCount(db'.assignments, other) == LiveCount(db.assignments, other)
  {
    var added := Added(db, db');
    assert db'.assignments == db.assignments + added;
    FilterAppend(db.assignments, added, ForSubmission(other));
    FilterNone(added, ForSubmission(other));
    CountAppend(db.assignments, added, LiveFor(other));
    FilterNone(added, LiveFor(other));
    assert Count(added, LiveFor(other)) == |Filter(added, LiveFor(other))|;
  }

  /** A candidate has no earlier assignment to the submission, opted out or not. */
  lemma CandidateNotAssigned(db: Db, sub: int, user: int)
    requires user in Candidates(db, sub)
    ensures forall j :: 0 <= j < |db.assignments| && db.assignments[j].submission == sub ==> db.assignments[j].user != user
  {
    var u :| u in db.users && Eligible(db, sub, u) && u.pk == user;
  }

  /**
   No reviewer added by a top-up held any earlier assignment to the
   submission: in particular one who opted out is never re-assigned to it.
   */
  lemma TopUpNeverReassigns(db: Db, sub: int, origin: int, db': Db)
    requires TopUp(db, sub, origin, db')
    ensures forall i, j :: 0 <= i < |Added(db, db')| && 0 <= j < |db.assignments| && db.assignments[j].submission == sub ==>
      db.assignments[j].user != Added(db, db')[i].user
  {
    var added := Added(db, db');
    forall i | 0 <= i < |added|
      ensures forall j :: 0 <= j < |db.assignments| && db.assignments[j].submission == sub ==> db.assignments[j].user != added[i].user
    {
      CandidateNotAssigned(db, sub, added[i].user);
    }
  }

  /** Every reviewer added is in the "reviewers" group and passed the opt-out filter. */
  lemma TopUpAddsEligible(db: Db, sub: int, origin: int, db': Db)
    requires TopUp(db, sub, origin, db')
    ensures forall i :: 0 <= i < |Added(db, db')| ==>
      var pk := Added(db, db')[i].user;
      && (exists u :: u in db.users && u.pk == pk && ReviewersGroup in u.groups)
      && (!HasAnyAssignment(db.assignments, pk) || Load(db.assignments, pk) > 0)
  {
    var added := Added(db, db');
    forall i | 0 <= i < |added|
      ensures var pk := added[i].user;
        && (exists u :: u in db.users && u.pk == pk && ReviewersGroup in u.groups)
        && (!HasAnyAssignment(db.assignments, pk) || Load(db.assignments, pk) > 0)
    {
      var pk := added[i].user;
      var u :| u in db.users && Eligible(db, sub, u) && u.pk == pk;
      LoadPositive(db.assignments, pk);
    }
  }

  /**
   Selection is fixed up to the random tie order: two passes over the same
   table add the same number of rows, and a reviewer only one of them picks
   carries exactly the load of any reviewer only the other picks.
   */
  lemma TopUpUpToTies(db: Db, sub: int, origin: int, db1: Db, db2: Db)
    requires TopUp(db, sub, origin, db1) && TopUp(db, sub, origin, db2)
    ensures |Added(db, db1)| == |Added(db, db2)|
    ensures forall i, j ::
      (0 <= i < |Added(db, db1)| && 0 <= j < |Added(db, db2)| &&
       Added(db, db1)[i].user !in UsersOf(Added(db, db2)) && Added(db, db2)[j].user !in UsersOf(Added(db, db1))) ==>
      Load(db.assignments, Added(db, db1)[i].user) == Load(db.assignments, Added(db, db2)[j].user)
  {
    var a1, a2 := Added(db, db1), Added(db, db2);
    var load := LoadOf(db.assignments);
    forall i, j | 0 <= i < |a1| && 0 <= j < |a2| && a1[i].user !in UsersOf(a2) && a2[j].user !in UsersOf(a1)
      ensures Load(db.assignments, a1[i].user) == Load(db.assignments, a2[j].user)
    {
      assert load(a2[j].user) <= load(a1[i].user);
      assert load(a1[i].user) <= load(a2[j].user);
    }
  }

  /** No two assignments pair the same reviewer with the same submission. */
  ghost predicate OnePerReviewer(assignments: seq<Assignment>) {
    forall i, j :: 0 <= i < j < |assignments| ==>
      assignments[i].submission != assignments[j].submission || assignments[i].user != assignments[j].user
  }

  /** No two assignments share a primary key. */
  ghost predicate UniquePks(assignments: seq<Assignment>) {
    forall i, j :: 0 <= i < j < |assignments| ==> assignments[i].pk != assignments[j].pk
  }

  /** The exclusion filter keeps the at-most-one-assignment-per-reviewer invariant. */
  lemma TopUpKeepsOnePerReviewer(db: Db, sub: int, origin: int, db': Db)
    requires TopUp(db, sub, origin, db')
    requires OnePerReviewer(db.assignments)
    ensures OnePerReviewer(db'.assignments)
  {
    var added := Added(db, db');
    assert db'.assignments == db.assignments + added;
    TopUpNeverReassigns(db, sub, origin, db');
    AppendKeepsOnePerReviewer(db.assignments, added, sub);
  }

  /**
   Rows for one submission, with distinct reviewers none of whom already
   holds a row for it, keep the invariant when appended.
   */
  lemma AppendKeepsOnePerReviewer(before: seq<Assignment>, added: seq<Assignment>, sub: int)
    requires OnePerReviewer(before)
    requires forall k :: 0 <= k < |added| ==> added[k].submission == sub
    requires forall k, l :: 0 <= k < l < |added| ==> added[k].user != added[l].user
    requires forall k, j :: 0 <= k < |added| && 0 <= j < |before| && before[j].submission == sub ==>
      before[j].user != added[k].user
    ensures OnePerReviewer(before + added)
  {
    var all := before + added;
    var n := |before|;
    forall i, j | 0 <= i < j < |all|
      ensures all[i].submission != all[j].submission || all[i].user != all[j].user
    {
      if j < n {
        assert all[i] == before[i] && all[j] == before[j];
      } else if i < n {
        assert all[i] == before[i] && all[j] == added[j - n];
      } else {
        assert all[i] == added[i - n] && all[j] == added[j - n];
      }
    }
  }

  /** New rows take keys no existing row uses. */
  lemma TopUpKeepsUniquePks(db: Db, sub: int, origin: int, db': Db)
    requires TopUp(db, sub, origin, db')
    requires UniquePks(db.assignments)
    ensures UniquePks(db'.assignments)
  {
    var before := db.assignments;
    var added := Added(db, db');
    assert db'.assignments == before + added;
    forall i, j | 0 <= i < j < |db'.assignments|
      ensures db'.assignments[i].pk != db'.assignments[j].pk
    {
      if j >= |before| {
        assert db'.assignments[j] == added[j - |before|];
        if i >= |before| {
          assert db'.assignments[i] == added[i - |before|];
        }
      }
    }
  }
}
