/**
 The reviewer-facing views of `pinax/submissions/views.py`: the review
 queue, the review detail page (messages and result changes) and the
 assignment opt-out that triggers a replacement top-up.
 */
module ReviewViews {
  import opened Wrappers
  import opened Seqs
  import opened Records
  import opened Store
  import opened Hooks
  import opened Web
  import opened Utils

  // ---------------------------------------------------------------------------
  // The review queue (`review`)

  function ReviewOf(sub: int, user: int): Review -> bool {
    (r: Review) => r.submission == sub && r.user == user
  }

  /** How many rows `filter(reviews__user=user)` yields for `sub`: one per matching review. */
  function ReviewRows(db: Db, sub: int, user: int): nat {
    Count(db.reviews, ReviewOf(sub, user))
  }

  function Repeat(s: Submission, n: nat): (r: seq<Submission>)
    ensures |r| == n && forall i :: 0 <= i < n ==> r[i] == s
  {
    if n == 0 then [] else Repeat(s, n - 1) + [s]
  }

  /**
   `queryset.filter(reviews__user=user)`: an inner join with the review
   table, so each submission appears once per review the user wrote of it.
   */
  function JoinReviews(db: Db, qs: seq<Submission>, user: int): seq<Submission>
    decreases |qs|
  {
    if |qs| == 0 then []
    else
      var last := qs[|qs| - 1];
      JoinReviews(db, qs[..|qs| - 1], user) + Repeat(last, ReviewRows(db, last.pk, user))
  }

  lemma {:induction false} CountRepeat(s: Submission, n: nat, x: Submission)
    ensures Count(Repeat(s, n), Is(x)) == if s == x then n else 0
    decreases n
  {
    if n > 0 {
      assert Repeat(s, n)[..n - 1] == Repeat(s, n - 1);
      CountRepeat(s, n - 1, x);
    }
  }

  lemma MulSucc(c: nat, n: nat)
    ensures (c + 1) * n == c * n + n
  {
  }

  /** The join repeats every row as often as the user reviewed it, and adds nothing else. */
  lemma {:induction false} JoinReviewsCount(db: Db, qs: seq<Submission>, user: int, x: Submission)
    ensures Count(JoinReviews(db, qs, user), Is(x)) == Count(qs, Is(x)) * ReviewRows(db, x.pk, user)
    decreases |qs|
  {
    if |qs| > 0 {
      var init, last := qs[..|qs| - 1], qs[|qs| - 1];
      var c, n := Count(init, Is(x)), ReviewRows(db, x.pk, user);
      JoinReviewsCount(db, init, user, x);
      JoinReviewsLast(db, qs, user, x);
      assert Count(qs, Is(x)) == c + (if last == x then 1 else 0);
      if last == x {
        MulSucc(c, n);
      }
    }
  }

  /** The last queryset row contributes its review count when it is `x`, and nothing otherwise. */
  lemma JoinReviewsLast(db: Db, qs: seq<Submission>, user: int, x: Submission)
    requires |qs| > 0
    ensures Count(JoinReviews(db, qs, user), Is(x)) ==
      Count(JoinReviews(db, qs[..|qs| - 1], user), Is(x)) + (if qs[|qs| - 1] == x then ReviewRows(db, x.pk, user) else 0)
  {
    var init, last := qs[..|qs| - 1], qs[|qs| - 1];
    var tail := Repeat(last, ReviewRows(db, last.pk, user));
    assert JoinReviews(db, qs, user) == JoinReviews(db, init, user) + tail;
    CountAppend(JoinReviews(db, init, user), tail, Is(x));
    CountRepeat(last, ReviewRows(db, last.pk, user), x);
  }

  /** A row is in the join exactly when it is in `qs` and the user reviewed it. */
  lemma JoinReviewsMembers(db: Db, qs: seq<Submission>, user: int)
    ensures forall i :: 0 <= i < |JoinReviews(db, qs, user)| ==>
      JoinReviews(db, qs, user)[i] in qs && Reviewed(db, JoinReviews(db, qs, user)[i].pk, user)
    ensures forall s :: s in qs && Reviewed(db, s.pk, user) ==> s in JoinReviews(db, qs, user)
  {
    var rows := JoinReviews(db, qs, user);
    forall i | 0 <= i < |rows|
      ensures rows[i] in qs && Reviewed(db, rows[i].pk, user)
    {
      var x := rows[i];
      CountPositive(rows, Is(x));
      JoinReviewsCount(db, qs, user, x);
      CountPositive(qs, Is(x));
      CountPositive(db.reviews, ReviewOf(x.pk, user));
    }
    forall s | s in qs && Reviewed(db, s.pk, user)
      ensures s in rows
    {
      var j :| 0 <= j < |qs| && qs[j] == s;
      CountPositive(qs, Is(s));
      CountPositive(db.reviews, ReviewOf(s.pk, user));
      JoinReviewsCount(db, qs, user, s);
      CountPositive(rows, Is(s));
    }
  }

  /** Whether submission `s` belongs in the queue the parameters ask for. */
  predicate Listed(db: Db, user: int, onlyAssigned: bool, reviewed: string, s: Submission) {
    && s in db.submissions
    && (onlyAssigned ==> AssignedTo(db.assignments, s.pk, user))
    && (reviewed == "reviewed" ==> Reviewed(db, s.pk, user))
    && (reviewed != "all" && reviewed != "reviewed" ==> !Reviewed(db, s.pk, user) && s.submitter != user)
  }

  /** The heading key the template receives. */
  function Heading(reviewed: string): (h: string)
    ensures h in {"all_reviews", "user_reviewed", "user_not_reviewed"}
    ensures h == "all_reviews" <==> reviewed == "all"
    ensures h == "user_reviewed" <==> reviewed == "reviewed"
  {
    if reviewed == "all" then "all_reviews"
    else if reviewed == "reviewed" then "user_reviewed"
    else "user_not_reviewed"
  }

  function AssignedFilter(db: Db, user: int): Submission -> bool {
    (s: Submission) => AssignedTo(db.assignments, s.pk, user)
  }

  function NotReviewedFilter(db: Db, user: int): Submission -> bool {
    (s: Submission) => !Reviewed(db, s.pk, user) && s.submitter != user
  }

  /**
   The queryset `review` builds for `user`: restricted to the submissions
   the user holds an assignment to (in any state) when `onlyAssigned`, then to
   those the user reviewed, or to those the user neither reviewed nor
   submitted, unless `reviewed` is "all".
   */
  function QueueRows(db: Db, user: int, onlyAssigned: bool, reviewed: string): (rows: seq<Submission>)
    ensures forall i :: 0 <= i < |rows| ==> Listed(db, user, onlyAssigned, reviewed, rows[i])
    ensures forall s :: s in db.submissions && Listed(db, user, onlyAssigned, reviewed, s) ==> s in rows
  {
    var base := if onlyAssigned then Filter(db.submissions, AssignedFilter(db, user)) else db.submissions;
    if reviewed == "all" then base
    else if reviewed == "reviewed" then
      var rows := JoinReviews(db, base, user);
      JoinReviewsMembers(db, base, user);
      rows
    else Filter(base, NotReviewedFilter(db, user))
  }

  /** Joining a filtered queryset repeats an admitted row once per review and drops a rejected one. */
  lemma JoinFilteredCount(db: Db, s: seq<Submission>, p: Submission -> bool, user: int, x: Submission)
    ensures Count(JoinReviews(db, Filter(s, p), user), Is(x)) ==
      if p(x) then Count(s, Is(x)) * ReviewRows(db, x.pk, user) else 0
  {
    var kept := Filter(s, p);
    var n := ReviewRows(db, x.pk, user);
    JoinReviewsCount(db, kept, user, x);
    FilterCountIs(s, p, x);
    ScaleCase(Count(kept, Is(x)), Count(s, Is(x)), n, p(x));
  }

  lemma ScaleCase(c: nat, total: nat, n: nat, b: bool)
    requires c == if b then total else 0
    ensures c * n == if b then total * n else 0
  {
  }

  /**
   The "reviewed" queue repeats each listed submission once per review the
   user wrote of it, as the inner join of `filter(reviews__user=user)` does.
   */
  lemma ReviewedQueueRepeats(db: Db, user: int, onlyAssigned: bool, x: Submission)
    ensures Count(QueueRows(db, user, onlyAssigned, "reviewed"), Is(x)) ==
      if onlyAssigned && !AssignedTo(db.assignments, x.pk, user) then 0
      else Count(db.submissions, Is(x)) * ReviewRows(db, x.pk, user)
  {
    if onlyAssigned {
      assert QueueRows(db, user, true, "reviewed") == JoinReviews(db, Filter(db.submissions, AssignedFilter(db, user)), user);
      JoinFilteredCount(db, db.submissions, AssignedFilter(db, user), user, x);
      assert AssignedFilter(db, user)(x) == AssignedTo(db.assignments, x.pk, user);
    } else {
      assert QueueRows(db, user, false, "reviewed") == JoinReviews(db, db.submissions, user);
      JoinReviewsCount(db, db.submissions, user, x);
    }
  }

  /** The "all" queue lists each admitted submission as often as the table holds it: no join, no repeats. */
  lemma AllQueueCount(db: Db, user: int, onlyAssigned: bool, x: Submission)
    ensures Count(QueueRows(db, user, onlyAssigned, "all"), Is(x)) ==
      if onlyAssigned && !AssignedTo(db.assignments, x.pk, user) then 0 else Count(db.submissions, Is(x))
  {
    if onlyAssigned {
      FilterCountIs(db.submissions, AssignedFilter(db, user), x);
    }
  }

  /** The not-reviewed queue, like "all", filters without joining, so it never repeats a row. */
  lemma UnreviewedQueueCount(db: Db, user: int, onlyAssigned: bool, reviewed: string, x: Submission)
    requires reviewed != "all" && reviewed != "reviewed"
    ensures Count(QueueRows(db, user, onlyAssigned, reviewed), Is(x)) ==
      if (onlyAssigned && !AssignedTo(db.assignments, x.pk, user)) || Reviewed(db, x.pk, user) || x.submitter == user then 0
      else Count(db.submissions, Is(x))
  {
    var base := if onlyAssigned then Filter(db.submissions, AssignedFilter(db, user)) else db.submissions;
    assert QueueRows(db, user, onlyAssigned, reviewed) == Filter(base, NotReviewedFilter(db, user));
    FilterCountIs(base, NotReviewedFilter(db, user), x);
    if onlyAssigned {
      FilterCountIs(db.submissions, AssignedFilter(db, user), x);
    }
  }

  /**
   `review` as the model corrects it: the assigned restriction reads the
   assignment's `submission`.
   */
  method ReviewQueue(db: Db, req: Request, onlyAssigned: bool, reviewed: string)
    returns (resp: Response, db': Db, shown: seq<Submission>, heading: string)
    ensures req.user.None? ==> resp == LoginRedirect && db' == db && shown == []
    ensures req.user.Some? && !HasPerm(req, "reviews.can_review_submissions") ==>
      resp == AccessNotPermitted && db' == db && shown == []
    ensures req.user.Some? && HasPerm(req, "reviews.can_review_submissions") ==>
      && resp == Render("pinax/submissions/review_list.html")
      && heading == Heading(reviewed)
      && (forall i :: 0 <= i < |shown| ==> Listed(db, req.user.value.pk, onlyAssigned, reviewed, shown[i]))
      && (forall s :: s in db.submissions && Listed(db, req.user.value.pk, onlyAssigned, reviewed, s) ==> s in shown)
      && (forall i :: 0 <= i < |shown| ==> shown[i].pk in db'.results)
      && shown == QueueRows(db, req.user.value.pk, onlyAssigned, reviewed)
    ensures db' == db.(results := db'.results)
    ensures forall k :: k in db.results ==> k in db'.results && db'.results[k] == db.results[k]
    ensures forall k :: k in db'.results && k !in db.results ==>
      db'.results[k] == NewResult() && exists i :: 0 <= i < |shown| && shown[i].pk == k
  {
    if req.user.None? {
      return LoginRedirect, db, [], "";
    }
    if !HasPerm(req, "reviews.can_review_submissions") {
      return AccessNotPermitted, db, [], "";
    }
    var rows := QueueRows(db, req.user.value.pk, onlyAssigned, reviewed);
    shown, db' := SubmissionsGenerator(db, rows);
    resp := Render("pinax/submissions/review_list.html");
    heading := Heading(reviewed);
  }

  /**
   The queryset step of `review` as written: `values_list("proposal__id")`
   names a field assignments do not have, so the query raises `FieldError`
   whenever `onlyAssigned` is set; otherwise it is the corrected queryset.
   */
  function QueueRowsAsWritten(db: Db, user: int, onlyAssigned: bool, reviewed: string): (r: Result<seq<Submission>, string>)
    ensures r.Failure? <==> onlyAssigned
    ensures r.Failure? ==> r.error == "FieldError"
    ensures r.Success? ==> r.value == QueueRows(db, user, false, reviewed)
  {
    if onlyAssigned then Failure("FieldError") else Success(QueueRows(db, user, false, reviewed))
  }

  /** The assignments queue is never served as written, though the corrected one lists every assigned submission. */
  lemma AssignedQueueAsWrittenFails(db: Db, user: int, reviewed: string, s: Submission)
    requires s in db.submissions && AssignedTo(db.assignments, s.pk, user) && reviewed == "all"
    ensures QueueRowsAsWritten(db, user, true, reviewed).Failure?
    ensures s in QueueRows(db, user, true, reviewed)
  {
  }

  // ---------------------------------------------------------------------------
  // The review detail page (`review_detail`)

  /** The bound `SubmitterCommentForm`: whether it validates and its message text. */
  datatype MessageForm = MessageForm(valid: bool, text: string)

  /** The request got past the login, 404 and `reviews.can_review` gates of `review_detail`. */
  predicate Admitted(db: Db, req: Request, pk: int) {
    req.user.Some? && FirstIndex(db.submissions, SubmissionPk(pk)).Some? && HasPerm(req, "reviews.can_review")
  }

  /**
   `review_detail`. After the login, 404 and permission gates, a POST either
   stores a message ("message_submit") or, for staff only, applies the
   result command ("result_submit"); a POST with neither key reaches the
   render with `review_form` unbound and fails.
   */
  function ReviewDetail(db: Db, req: Request, pk: int, form: MessageForm): (r: (Response, Db))
    ensures req.user.None? ==> r == (LoginRedirect, db)
    ensures req.user.Some? && FirstIndex(db.submissions, SubmissionPk(pk)).None? ==> r == (NotFound, db)
    ensures req.user.Some? && FirstIndex(db.submissions, SubmissionPk(pk)).Some? && !HasPerm(req, "reviews.can_review") ==>
      r == (AccessNotPermitted, db)
    ensures r.1 != db ==> req.user.Some? && HasPerm(req, "reviews.can_review") && req.verb == "POST" && r.0 == Redirect(req.path)
    ensures r.1.results != db.results ==>
      IsStaff(req) && "message_submit" !in req.post && "result_submit" in req.post
    ensures r.1.messages != db.messages ==>
      "message_submit" in req.post && form.valid
      && r.1.messages == db.messages + [Message(pk, req.user.value.pk, form.text)]
    ensures r.1 == db.(results := r.1.results, messages := r.1.messages)
    ensures r.1.results != db.results ==>
      var res := UpdateResult(ResultOf(db, pk), req.post["result_submit"]);
      res.Success? && res.value.Some? && r.1.results == db.results[pk := res.value.value]
    ensures r.0 == ServerError("DoesNotExist") ==> pk !in db.results && r.1 == db
    ensures Admitted(db, req, pk) && req.verb != "POST" ==> r == (Render("pinax/submissions/review_detail.html"), db)
    ensures Admitted(db, req, pk) && req.verb == "POST" && "message_submit" in req.post ==>
      && (form.valid ==> r == (Redirect(req.path), db.(messages := db.messages + [Message(pk, req.user.value.pk, form.text)])))
      && (!form.valid ==> r == (Render("pinax/submissions/review_detail.html"), db))
    ensures (Admitted(db, req, pk) && req.verb == "POST" && "message_submit" !in req.post
             && "result_submit" in req.post) ==>
      var res := UpdateResult(ResultOf(db, pk), req.post["result_submit"]);
      && (!IsStaff(req) ==> r == (Redirect(req.path), db))
      && (IsStaff(req) && res.Failure? ==> r == (ServerError("DoesNotExist"), db))
      && (IsStaff(req) && res.Success? ==> r.0 == Redirect(req.path))
      && (IsStaff(req) && res.Success? && res.value.Some? ==> r.1 == db.(results := db.results[pk := res.value.value]))
      && (IsStaff(req) && res.Success? && res.value.None? ==> r.1 == db)
    ensures (Admitted(db, req, pk) && req.verb == "POST" && "message_submit" !in req.post
             && "result_submit" !in req.post) ==>
      r == (ServerError("UnboundLocalError"), db)
  {
    if req.user.None? then (LoginRedirect, db)
    else if FirstIndex(db.submissions, SubmissionPk(pk)).None? then (NotFound, db)
    else if !HasPerm(req, "reviews.can_review") then (AccessNotPermitted, db)
    else if req.verb == "POST" then
      if "message_submit" in req.post then
        if form.valid then
          (Redirect(req.path), db.(messages := db.messages + [Message(pk, req.user.value.pk, form.text)]))
        else (Render("pinax/submissions/review_detail.html"), db)
      else if "result_submit" in req.post then
        if IsStaff(req) then
          match UpdateResult(ResultOf(db, pk), req.post["result_submit"])
          case Failure(_) => (ServerError("DoesNotExist"), db)
          case Success(None) => (Redirect(req.path), db)
          case Success(Some(row)) => (Redirect(req.path), db.(results := db.results[pk := row]))
        else (Redirect(req.path), db)
      else (ServerError("UnboundLocalError"), db)
    else (Render("pinax/submissions/review_detail.html"), db)
  }

  /** A result command from a non-staff reviewer is acknowledged and ignored; no request of theirs changes a result. */
  lemma NonStaffCannotDecide(db: Db, req: Request, pk: int, form: MessageForm)
    requires req.user.Some? && !IsStaff(req)
    ensures ReviewDetail(db, req, pk, form).1.results == db.results
    ensures (Admitted(db, req, pk) && req.verb == "POST" && "message_submit" !in req.post
             && "result_submit" in req.post) ==>
      ReviewDetail(db, req, pk, form) == (Redirect(req.path), db)
  {
  }

  /**
   A staff reviewer's command is applied as `update_result` applies it; with
   a result row, a known command stores the status it names from any prior
   status and the page redirects.
   */
  lemma StaffDecides(db: Db, req: Request, pk: int, form: MessageForm)
    requires Admitted(db, req, pk) && IsStaff(req) && req.verb == "POST"
    requires "message_submit" !in req.post && "result_submit" in req.post
    requires IsResultCommand(req.post["result_submit"]) && pk in db.results
    ensures var r := ReviewDetail(db, req, pk, form);
      && r.0 == Redirect(req.path)
      && r.1 == db.(results := r.1.results)
      && r.1.results.Keys == db.results.Keys
      && (forall k :: k in db.results && k != pk ==> r.1.results[k] == db.results[k])
      && r.1.results[pk].status.Text() == match req.post["result_submit"]
           case "accept" => "accepted"
           case "reject" => "rejected"
           case "undecide" => "undecided"
           case _ => "standby"
  {
    var res := UpdateResult(ResultOf(db, pk), req.post["result_submit"]);
    assert res.Success? && res.value.Some?;
  }

  // ---------------------------------------------------------------------------
  // Opting out of an assignment (`review_assignment_opt_out`)

  function OwnedBy(pk: int, user: int): Assignment -> bool {
    (a: Assignment) => a.pk == pk && a.user == user
  }

  /** `get_object_or_404(ReviewAssignment, pk=pk, user=user)`, as an index into the table. */
  function FindOwned(db: Db, pk: int, user: int): (r: Option<nat>)
    ensures r.Some? ==> r.value < |db.assignments| && db.assignments[r.value].pk == pk && db.assignments[r.value].user == user
    ensures r.None? <==> forall j :: 0 <= j < |db.assignments| ==> !(db.assignments[j].pk == pk && db.assignments[j].user == user)
  {
    FirstIndex(db.assignments, OwnedBy(pk, user))
  }

  /** The table after row `i` is saved with its opt-out flag set. */
  function WithOptOut(db: Db, i: nat): (db': Db)
    requires i < |db.assignments|
    ensures |db'.assignments| == |db.assignments| && db'.assignments[i].optedOut
    ensures forall j :: 0 <= j < |db.assignments| && j != i ==> db'.assignments[j] == db.assignments[j]
    ensures db'.assignments[i] == db.assignments[i].(optedOut := true)
    ensures db' == db.(assignments := db'.assignments)
  {
    db.(assignments := db.assignments[i := db.assignments[i].(optedOut := true)])
  }

  /** Setting the flag of a live row takes exactly one off its submission's live count. */
  lemma OptOutDropsOne(db: Db, i: nat)
    requires i < |db.assignments| && !db.assignments[i].optedOut
    ensures LiveCount(WithOptOut(db, i).assignments, db.assignments[i].submission) + 1
      == LiveCount(db.assignments, db.assignments[i].submission)
    ensures forall sub :: sub != db.assignments[i].submission ==>
      LiveCount(WithOptOut(db, i).assignments, sub) == LiveCount(db.assignments, sub)
  {
    var a := db.assignments[i];
    CountUpdate(db.assignments, i, a.(optedOut := true), LiveFor(a.submission));
    forall sub | sub != a.submission
      ensures LiveCount(WithOptOut(db, i).assignments, sub) == LiveCount(db.assignments, sub)
    {
      CountUpdate(db.assignments, i, a.(optedOut := true), LiveFor(sub));
    }
  }

  /**
   `review_assignment_opt_out` as the model corrects it: the replacement
   top-up runs for the assignment's `submission`, tagged as a later
   automatic assignment. An already opted-out row is left alone.
   */
  method OptOut(db: Db, req: Request, pk: int) returns (resp: Response, db': Db)
    ensures req.user.None? ==> resp == LoginRedirect && db' == db
    ensures req.user.Some? && req.verb != "POST" ==> resp == NotAllowed(["POST"]) && db' == db
    ensures resp == NotFound <==>
      req.user.Some? && req.verb == "POST" && FindOwned(db, pk, req.user.value.pk).None?
    ensures resp == NotFound ==> db' == db
    ensures req.user.Some? && req.verb == "POST" && FindOwned(db, pk, req.user.value.pk).Some? ==>
      var i := FindOwned(db, pk, req.user.value.pk).value;
      var a := db.assignments[i];
      && resp == Redirect("review_assignments")
      && (a.optedOut ==> db' == db)
      && (!a.optedOut ==> TopUp(WithOptOut(db, i), a.submission, AutoAssignedLater, db'))
    ensures req.user.Some? && req.verb == "POST" && FindOwned(db, pk, req.user.value.pk).Some? ==>
      var i := FindOwned(db, pk, req.user.value.pk).value;
      var a := db.assignments[i];
      !a.optedOut ==>
        && |db'.assignments| >= |db.assignments|
        && db'.assignments[i] == a.(optedOut := true)
        && (forall j :: 0 <= j < |db.assignments| && j != i ==> db'.assignments[j] == db.assignments[j])
        && (forall j :: |db.assignments| <= j < |db'.assignments| ==>
              db'.assignments[j].submission == a.submission && db'.assignments[j].user != a.user
              && db'.assignments[j].origin == AutoAssignedLater && !db'.assignments[j].optedOut)
        && LiveCount(db'.assignments, a.submission) + 1
             == LiveCount(db.assignments, a.submission) + Min(Needed(WithOptOut(db, i), a.submission), |Candidates(WithOptOut(db, i), a.submission)|)
  {
    if req.user.None? {
      return LoginRedirect, db;
    }
    if req.verb != "POST" {
      return NotAllowed(["POST"]), db;
    }
    var found := FindOwned(db, pk, req.user.value.pk);
    if found.None? {
      return NotFound, db;
    }
    var i := found.value;
    var a := db.assignments[i];
    if a.optedOut {
      return Redirect("review_assignments"), db;
    }
    var flagged := WithOptOut(db, i);
    db' := CreateAssignments(flagged, a.submission, AutoAssignedLater);
    resp := Redirect("review_assignments");
    OptOutReplaces(db, i, db');
  }

  /** What the corrected opt-out guarantees about the table, from the top-up contract. */
  lemma OptOutReplaces(db: Db, i: nat, db': Db)
    requires i < |db.assignments| && !db.assignments[i].optedOut
    requires TopUp(WithOptOut(db, i), db.assignments[i].submission, AutoAssignedLater, db')
    ensures var a := db.assignments[i];
      && |db'.assignments| >= |db.assignments|
      && db'.assignments[i] == a.(optedOut := true)
      && (forall j :: 0 <= j < |db.assignments| && j != i ==> db'.assignments[j] == db.assignments[j])
      && (forall j :: |db.assignments| <= j < |db'.assignments| ==>
            db'.assignments[j].submission == a.submission && db'.assignments[j].user != a.user
            && db'.assignments[j].origin == AutoAssignedLater && !db'.assignments[j].optedOut)
      && LiveCount(db'.assignments, a.submission) + 1
           == LiveCount(db.assignments, a.submission) + Min(Needed(WithOptOut(db, i), a.submission), |Candidates(WithOptOut(db, i), a.submission)|)
  {
    var a := db.assignments[i];
    var flagged := WithOptOut(db, i);
    var n := |db.assignments|;
    assert db'.assignments[..n] == flagged.assignments;
    forall j | 0 <= j < n
      ensures db'.assignments[j] == flagged.assignments[j]
    {
      assert db'.assignments[j] == db'.assignments[..n][j];
    }
    TopUpNeverReassigns(flagged, a.submission, AutoAssignedLater, db');
    forall j | n <= j < |db'.assignments|
      ensures db'.assignments[j].submission == a.submission && db'.assignments[j].user != a.user
      ensures db'.assignments[j].origin == AutoAssignedLater && !db'.assignments[j].optedOut
    {
      assert db'.assignments[j] == Added(flagged, db')[j - n];
      assert flagged.assignments[i].submission == a.submission;
    }
    TopUpLiveCount(flagged, a.submission, AutoAssignedLater, db');
    OptOutDropsOne(db, i);
  }

  /**
   `review_assignment_opt_out` as written: the flag is saved, then
   `review_assignment.proposal` raises `AttributeError`, so the request
   fails and no replacement is assigned.
   */
  function OptOutAsWritten(db: Db, req: Request, pk: int): (r: (Response, Db))
    ensures req.user.None? ==> r == (LoginRedirect, db)
    ensures req.user.Some? && req.verb != "POST" ==> r == (NotAllowed(["POST"]), db)
    ensures r.0 == NotFound <==> req.user.Some? && req.verb == "POST" && FindOwned(db, pk, req.user.value.pk).None?
    ensures r.1 != db ==> r.0 == ServerError("AttributeError") && |r.1.assignments| == |db.assignments|
    ensures r.1 != db ==>
      && req.user.Some? && FindOwned(db, pk, req.user.value.pk).Some?
      && r.1 == WithOptOut(db, FindOwned(db, pk, req.user.value.pk).value)
    ensures req.user.Some? && req.verb == "POST" && FindOwned(db, pk, req.user.value.pk).Some? ==>
      var i := FindOwned(db, pk, req.user.value.pk).value;
      && (db.assignments[i].optedOut ==> r == (Redirect("review_assignments"), db))
      && (!db.assignments[i].optedOut ==> r.0 == ServerError("AttributeError") && r.1 == WithOptOut(db, i))
  {
    if req.user.None? then (LoginRedirect, db)
    else if req.verb != "POST" then (NotAllowed(["POST"]), db)
    else match FindOwned(db, pk, req.user.value.pk)
      case None => (NotFound, db)
      case Some(i) =>
        if db.assignments[i].optedOut then (Redirect("review_assignments"), db)
        else (ServerError("AttributeError"), WithOptOut(db, i))
  }

  /**
   As written, every opt-out of a live assignment ends in a server error and
   leaves its submission one live reviewer short, with no row added.
   */
  lemma OptOutAsWrittenLosesReviewer(db: Db, req: Request, pk: int)
    requires req.user.Some? && req.verb == "POST"
    requires FindOwned(db, pk, req.user.value.pk).Some?
    requires !db.assignments[FindOwned(db, pk, req.user.value.pk).value].optedOut
    ensures var sub := db.assignments[FindOwned(db, pk, req.user.value.pk).value].submission;
      var r := OptOutAsWritten(db, req, pk);
      && r.0 == ServerError("AttributeError")
      && |r.1.assignments| == |db.assignments|
      && LiveCount(r.1.assignments, sub) + 1 == LiveCount(db.assignments, sub)
  {
    OptOutDropsOne(db, FindOwned(db, pk, req.user.value.pk).value);
  }
}
