/**
 `pinax/submissions/utils.py`: the dispatch mixins and the generator that
 gives every listed submission a result row.
 */
module Utils {
  import opened Wrappers
  import opened Strings
  import opened Records
  import opened Store
  import opened Web

  /** A mixin's decision: stop with a response, or hand on to the next `dispatch`. */
  datatype Dispatch = Proceed | Stop(response: Response)

  /** `LoggedInMixin.dispatch`: an anonymous request is answered 404, any other proceeds. */
  function LoggedInDispatch(req: Request): (d: Dispatch)
    ensures d.Stop? <==> req.user.None?
    ensures d.Stop? ==> d.response == NotFound
  {
    if req.user.None? then Stop(NotFound) else Proceed
  }

  /**
   `CanReviewMixin.dispatch`. Without the permission the denial page is
   rendered but its response is dropped, so the request proceeds; the only
   way it stops is the `KeyError` raised when the URL carries no `user_pk`.
   `kwargs` are the URL keyword arguments.
   */
  function CanReviewDispatch(req: Request, kwargs: map<string, string>): (d: Dispatch)
    ensures d.Stop? <==> !HasPerm(req, "reviews.can_review_submissions") && "user_pk" !in kwargs
    ensures d.Stop? ==> d.response == ServerError("KeyError")
  {
    if !HasPerm(req, "reviews.can_review_submissions") then
      if "user_pk" !in kwargs then Stop(ServerError("KeyError"))
      else
        // `request.user.pk == self.kwargs['user_pk']` compares a key with URL
        // text; either way the rendered page is discarded.
        var discarded := AccessNotPermitted;
        Proceed
    else Proceed
  }

  /** `CanManageMixin.dispatch`: the denial page is rendered and dropped, so it never stops. */
  function CanManageDispatch(req: Request): (d: Dispatch)
    ensures d == Proceed
  {
    if !HasPerm(req, "reviews.can_manage") then
      var discarded := AccessNotPermitted;
      Proceed
    else Proceed
  }

  /**
   `CanReviewMixin.dispatch` as evidently intended: the denial page is
   returned, and the `user_pk` URL text is read as a key before it is
   compared with the requester's.
   */
  function CanReviewDispatchIntended(req: Request, kwargs: map<string, string>): (d: Dispatch)
    ensures d == Stop(ServerError("KeyError")) <==> !HasPerm(req, "reviews.can_review_submissions") && "user_pk" !in kwargs
    ensures d == Stop(AccessNotPermitted) <==>
      && !HasPerm(req, "reviews.can_review_submissions") && "user_pk" in kwargs
      && !(req.user.Some? && ParseInt(kwargs["user_pk"]) == Some(req.user.value.pk))
    ensures d == Proceed <==>
      || HasPerm(req, "reviews.can_review_submissions")
      || ("user_pk" in kwargs && req.user.Some? && ParseInt(kwargs["user_pk"]) == Some(req.user.value.pk))
  {
    if HasPerm(req, "reviews.can_review_submissions") then Proceed
    else if "user_pk" !in kwargs then Stop(ServerError("KeyError"))
    else if req.user.Some? && ParseInt(kwargs["user_pk"]) == Some(req.user.value.pk) then Proceed
    else Stop(AccessNotPermitted)
  }

  /** `CanManageMixin.dispatch` as evidently intended: without the permission the denial page is the answer. */
  function CanManageDispatchIntended(req: Request): (d: Dispatch)
    ensures d.Stop? <==> !HasPerm(req, "reviews.can_manage")
    ensures d.Stop? ==> d.response == AccessNotPermitted
  {
    if !HasPerm(req, "reviews.can_manage") then Stop(AccessNotPermitted) else Proceed
  }

  /** As written, a reviewer without the permission reaches another user's review list. */
  lemma CanReviewAsWrittenAdmits(req: Request, kwargs: map<string, string>)
    requires req.user.Some? && !HasPerm(req, "reviews.can_review_submissions")
    requires "user_pk" in kwargs && ParseInt(kwargs["user_pk"]) != Some(req.user.value.pk)
    ensures CanReviewDispatch(req, kwargs) == Proceed
    ensures CanReviewDispatchIntended(req, kwargs) == Stop(AccessNotPermitted)
  {
  }

  /** As written, a user without `reviews.can_manage` is let through. */
  lemma CanManageAsWrittenAdmits(req: Request)
    requires !HasPerm(req, "reviews.can_manage")
    ensures CanManageDispatch(req) == Proceed
    ensures CanManageDispatchIntended(req) == Stop(AccessNotPermitted)
  {
  }

  /**
   `submissions_generator`: yields the queryset unchanged and in order,
   calling `SubmissionResult.objects.get_or_create` for each, so an existing
   result keeps its status and a missing one is created undecided. The
   lookup parameters it builds are never used, so the model takes no user.
   */
  method SubmissionsGenerator(db: Db, queryset: seq<Submission>) returns (yielded: seq<Submission>, db': Db)
    ensures yielded == queryset
    ensures db' == db.(results := db'.results)
    ensures forall i :: 0 <= i < |queryset| ==> queryset[i].pk in db'.results
    ensures forall k :: k in db.results ==> k in db'.results && db'.results[k] == db.results[k]
    ensures forall k :: k in db'.results && k !in db.results ==>
      db'.results[k] == NewResult() && exists i :: 0 <= i < |queryset| && queryset[i].pk == k
  {
    yielded := [];
    db' := db;
    var i := 0;
    while i < |queryset|
      invariant 0 <= i <= |queryset|
      invariant yielded == queryset[..i]
      invariant db' == db.(results := db'.results)
      invariant forall j :: 0 <= j < i ==> queryset[j].pk in db'.results
      invariant forall k :: k in db.results ==> k in db'.results && db'.results[k] == db.results[k]
      invariant forall k :: k in db'.results && k !in db.results ==>
        db'.results[k] == NewResult() && exists j :: 0 <= j < i && queryset[j].pk == k
    {
      var obj := queryset[i];
      if obj.pk !in db'.results {
        db' := db'.(results := db'.results[obj.pk := NewResult()]);
      }
      yielded := yielded + [obj];
      i := i + 1;
    }
  }
}
