/**
 The submitter-facing views of `pinax/submissions/views.py` that the model
 covers: editing a submission and attaching a supporting document.
 */
module SubmissionViews {
  import opened Wrappers
  import opened Seqs
  import opened Records
  import opened Store
  import opened Web

  /**
   The users told about an edit: everyone who reviewed or messaged on the
   submission, except the editor (the `distinct()` makes it a set).
   */
  function EditRecipients(db: Db, sub: int, editor: int): (users: set<int>)
    ensures editor !in users
    ensures forall u :: u in db.users && u.pk != editor && (Reviewed(db, sub, u.pk) || Messaged(db, sub, u.pk)) ==> u.pk in users
    ensures forall pk :: pk in users ==> FindUser(db, pk).Some? && (Reviewed(db, sub, pk) || Messaged(db, sub, pk))
  {
    var users := set u | u in db.users && u.pk != editor && (Reviewed(db, sub, u.pk) || Messaged(db, sub, u.pk)) :: u.pk;
    assert forall pk :: pk in users ==> exists u :: u in db.users && u.pk == pk;
    users
  }

  /** The bound form of the submission's kind: whether it validates and the fields it would save. */
  datatype EditForm = EditForm(valid: bool, details: string)

  /** The response, the table afterwards and the users an update email goes to. */
  datatype Edited = Edited(response: Response, db: Db, notified: set<int>)

  predicate OwnsSubmission(db: Db, req: Request, pk: int) {
    && req.user.Some?
    && FirstIndex(db.submissions, SubmissionPk(pk)).Some?
    && db.submissions[FirstIndex(db.submissions, SubmissionPk(pk)).value].submitter == req.user.value.pk
  }

  /**
   `submission_edit`. `canEdit` is the concrete submission's `can_edit()`
   (always true for the base class) and `formSlugs` the kinds
   `PINAX_SUBMISSIONS_FORMS` configures.
   */
  function SubmissionEdit(db: Db, req: Request, pk: int, canEdit: bool, formSlugs: set<string>, form: EditForm): (e: Edited)
    ensures req.user.None? ==> e == Edited(LoginRedirect, db, {})
    ensures req.user.Some? && !OwnsSubmission(db, req, pk) ==> e == Edited(NotFound, db, {})
    ensures OwnsSubmission(db, req, pk) && !canEdit ==>
      e == Edited(Render("pinax/submissions/submission_error.html"), db, {})
    ensures (OwnsSubmission(db, req, pk) && canEdit &&
             db.submissions[FirstIndex(db.submissions, SubmissionPk(pk)).value].kind.slug !in formSlugs) ==>
      e == Edited(ServerError("KeyError"), db, {})
    ensures e.db != db || e.notified != {} ==>
      && OwnsSubmission(db, req, pk) && canEdit && req.verb == "POST" && form.valid
      && e.response == Redirect("submission_detail")
    ensures e.response == Redirect("submission_detail") ==>
      var i := FirstIndex(db.submissions, SubmissionPk(pk)).value;
      && e.db == db.(submissions := db.submissions[i := db.submissions[i].(details := form.details)])
      && e.notified == EditRecipients(db, pk, req.user.value.pk)
    ensures (OwnsSubmission(db, req, pk) && canEdit &&
             db.submissions[FirstIndex(db.submissions, SubmissionPk(pk)).value].kind.slug in formSlugs) ==>
      && (req.verb == "POST" && form.valid ==> e.response == Redirect("submission_detail"))
      && (!(req.verb == "POST" && form.valid) ==> e == Edited(Render("pinax/submissions/submission_edit.html"), db, {}))
  {
    if req.user.None? then Edited(LoginRedirect, db, {})
    else match FirstIndex(db.submissions, SubmissionPk(pk))
      case None => Edited(NotFound, db, {})
      case Some(i) =>
        var s := db.submissions[i];
        if req.user.value.pk != s.submitter then Edited(NotFound, db, {})
        else if !canEdit then Edited(Render("pinax/submissions/submission_error.html"), db, {})
        else if s.kind.slug !in formSlugs then Edited(ServerError("KeyError"), db, {})
        else if req.verb == "POST" && form.valid then
          Edited(Redirect("submission_detail"),
                 db.(submissions := db.submissions[i := s.(details := form.details)]),
                 EditRecipients(db, pk, req.user.value.pk))
        else Edited(Render("pinax/submissions/submission_edit.html"), db, {})
  }

  /** Only the submitter can change a submission, and only its own fields. */
  lemma EditChangesOnlyOwnSubmission(db: Db, req: Request, pk: int, canEdit: bool, formSlugs: set<string>, form: EditForm)
    requires SubmissionEdit(db, req, pk, canEdit, formSlugs, form).db != db
    ensures var db' := SubmissionEdit(db, req, pk, canEdit, formSlugs, form).db;
      && |db'.submissions| == |db.submissions|
      && db' == db.(submissions := db'.submissions)
      && forall j :: 0 <= j < |db.submissions| ==>
           (db'.submissions[j] != db.submissions[j] ==> db.submissions[j].pk == pk && db.submissions[j].submitter == req.user.value.pk)
           && db'.submissions[j].pk == db.submissions[j].pk
           && db'.submissions[j].submitter == db.submissions[j].submitter
           && db'.submissions[j].cancelled == db.submissions[j].cancelled
  {
  }

  /** The bound `SupportingDocumentCreateForm`. */
  datatype UploadForm = UploadForm(valid: bool, filename: string, description: string)

  function OwnedSubmission(pk: int, user: int): Submission -> bool {
    (s: Submission) => s.pk == pk && s.submitter == user
  }

  /**
   `document_create`. The lookup is scoped to the requester's own
   submissions (404 otherwise) and a cancelled one answers 403; `uuid`
   is the value `uuid.uuid4()` draws when the file is stored.
   */
  function DocumentCreate(db: Db, req: Request, proposalPk: int, form: UploadForm, uuid: string): (r: (Response, Db))
    requires IsUuidText(uuid)
    ensures req.user.None? ==> r == (LoginRedirect, db)
    ensures req.user.Some? && FirstIndex(db.submissions, OwnedSubmission(proposalPk, req.user.value.pk)).None? ==>
      r == (NotFound, db)
    ensures r.0 == Forbidden <==>
      && req.user.Some?
      && FirstIndex(db.submissions, OwnedSubmission(proposalPk, req.user.value.pk)).Some?
      && db.submissions[FirstIndex(db.submissions, OwnedSubmission(proposalPk, req.user.value.pk)).value].cancelled
    ensures r.0 == Forbidden ==> r.1 == db
    ensures r.1 != db ==>
      && r.0 == Redirect("submission_detail")
      && req.user.Some? && req.verb == "POST" && form.valid
      && r.1 == db.(documents := r.1.documents)
      && |r.1.documents| == |db.documents| + 1
      && r.1.documents[..|db.documents|] == db.documents
      && r.1.documents[|db.documents|].submission == proposalPk
      && r.1.documents[|db.documents|].uploadedBy == req.user.value.pk
      && r.1.documents[|db.documents|].file == "document/" + uuid + "." + Extension(form.filename)
      && r.1.documents[|db.documents|].description == form.description
    ensures (req.user.Some? && FirstIndex(db.submissions, OwnedSubmission(proposalPk, req.user.value.pk)).Some?
             && !db.submissions[FirstIndex(db.submissions, OwnedSubmission(proposalPk, req.user.value.pk)).value].cancelled) ==>
      && (req.verb == "POST" && form.valid ==> r.1 != db)
      && (!(req.verb == "POST" && form.valid) ==> r == (Render("pinax/submissions/document_create.html"), db))
  {
    if req.user.None? then (LoginRedirect, db)
    else match FirstIndex(db.submissions, OwnedSubmission(proposalPk, req.user.value.pk))
      case None => (NotFound, db)
      case Some(i) =>
        if db.submissions[i].cancelled then (Forbidden, db)
        else if req.verb == "POST" && form.valid then
          var doc := Document(proposalPk, req.user.value.pk, UuidFilename(uuid, form.filename), form.description);
          var db' := db.(documents := db.documents + [doc]);
          assert db'.documents[..|db.documents|] == db.documents;
          (Redirect("submission_detail"), db')
        else (Render("pinax/submissions/document_create.html"), db)
  }

  /** Nobody attaches anything to a cancelled submission, whoever asks and whatever the form holds. */
  lemma NoUploadToCancelled(db: Db, req: Request, proposalPk: int, form: UploadForm, uuid: string)
    requires IsUuidText(uuid)
    requires forall i :: 0 <= i < |db.submissions| && db.submissions[i].pk == proposalPk ==> db.submissions[i].cancelled
    ensures DocumentCreate(db, req, proposalPk, form, uuid).1 == db
  {
  }
}
