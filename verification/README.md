# pinax-submissions in Dafny

A model of the rules in pinax-submissions, a Django application for collecting
conference-style submissions, assigning reviewers, recording decisions and
sending result notifications. The database is one immutable value, `Store.Db`:
users, permissions, submissions, results, review assignments, reviews,
messages, documents, templates and notifications. Every view and hook takes
that value and returns the response together with the database afterwards.

Modules, in dependency order:

- `Wrappers`: the `Option` and `Result` types.
- `Seqs`: counting, filtering and first-match lookups over tables.
- `Strings`: the Python string behaviour the code relies on:
  - `int()`, `str()`, `split` and `join` on one character;
  - `rfind`, `zfill` and `os.path.join`.
- `Records`: the model entities and their pure operations, from `models.py`.
- `Store`: the database value and row lookups.
- `Hooks`: `DefaultHookSet.reviewers` and the reviewer top-up rule.
  - The whole contract of a top-up pass is the predicate `Hooks.TopUp`.
  - `Hooks.TopUp` says which rows a pass may append. It is stated up to the
    random order among reviewers with equal load.
- `Web`: request and response shapes, the permission test and the access-denied page.
- `Utils`: the dispatch mixins and `submissions_generator`.
- `Conf`: `load_path_attr` and the default settings.
- `AssignReviewersCommand`: the `assign_reviewers` batch command.
- `ReviewViews`: the review queue, the review detail page and assignment opt-out.
- `NotificationViews`: the key-list codec, result-notification prepare and send.
- `SubmissionViews`: submission editing and document upload.

Two readings of the top-up query in `hooks.py` that the model fixes:

- **Reviewer ranking.** `Count("reviewassignment")` runs over the join that
  the `opted_out=False` filter created. So a user's load is the number of
  their assignments that are not opted out, on any submission.
- **Candidate filter.** `Q(reviewassignment__opted_out=False) | Q(reviewassignment=None)`
  keeps a user who has no assignment at all, or at least one assignment that
  is not opted out, on any submission.

## Model

| member | source | states |
|---|---|---|
| Records.OriginLabel | pinax/submissions/models.py:117-127 | exactly the origin codes 0, 1 and 2 have a label |
| Records.ParseStatus | pinax/submissions/models.py:180-185 | a parsed status prints back as the stored text |
| Records.StatusTextRoundTrip | pinax/submissions/models.py:180-185 | each of the four statuses reads back from its stored text |
| Records.NewResult | pinax/submissions/models.py:180-189 | a new result is "undecided" and not accepted |
| Records.IsAccepted | pinax/submissions/models.py:187-189 | `accepted` is true iff the status is "accepted" |
| Records.Cancel | pinax/submissions/models.py:52-54 | cancel sets the flag and keeps every other field |
| Records.CancelIdempotent | pinax/submissions/models.py:52-54 | cancelling twice equals cancelling once; an already cancelled submission is unchanged |
| Records.CanEdit | pinax/submissions/models.py:82-83 | the base class always allows editing |
| Records.SetStatus | pinax/submissions/models.py:66-80 | a transition succeeds iff the result row exists, and it sets the target status |
| Records.Accept | pinax/submissions/models.py:66-68 | succeeds iff the row exists; the status becomes "accepted" |
| Records.Reject | pinax/submissions/models.py:70-72 | succeeds iff the row exists; the status becomes "rejected" |
| Records.Undecide | pinax/submissions/models.py:74-76 | succeeds iff the row exists; the status becomes "undecided" |
| Records.PutOnStandby | pinax/submissions/models.py:78-80 | succeeds iff the row exists; the status becomes "standby" |
| Records.UpdateResult | pinax/submissions/models.py:56-64 | an unknown word changes nothing and never fails; a known word fails iff there is no result row, else it sets the matching status |
| Records.EveryTransitionAllowed | pinax/submissions/models.py:56-80 | from any status some command reaches any status |
| Records.StatusOf | pinax/submissions/models.py:89-94 | "Undecided" exactly when there is no result row, else the stored status text |
| Records.Number | pinax/submissions/models.py:85-87 | the display number is `str(pk)` left-padded with '0' to three characters, the padding after the '-' of a negative key |
| Records.NumberParsesBack | pinax/submissions/models.py:85-87 | `int(number)` gives back the key, negative keys included |
| Records.PaddedNegativeParsesBack | pinax/submissions/models.py:85-87 | a short negative key, zero-padded after its sign, parses back to the key |
| Records.PaddedParsesBack | pinax/submissions/models.py:85-87 | a short non-negative key, zero-padded in front, parses back to the key |
| Records.Extension | pinax/submissions/models.py:21 | the extension holds no '.' and is the text after the last '.' (the whole name if there is none) |
| Records.UuidFilename | pinax/submissions/models.py:20-23 | the path is "document/" + uuid + "." + extension |
| Records.ExtensionSplit | pinax/submissions/models.py:21 | a name with a '.' is its stem, a '.' and the extension; without one the extension is the whole name |
| Strings.ParseInt | pinax/submissions/views.py:446 | `int()` succeeds exactly on stripped text that is an optional '+' or '-' followed by at least one digit; blank text fails |
| Strings.ParseIntRejects | pinax/submissions/views.py:446-448 | a stripped character that is neither a digit nor a leading sign makes `int()` fail |
| Strings.ParseIntRejectsBareSign | pinax/submissions/views.py:446-448 | a sign with no digits after it makes `int()` fail |
| Strings.ParseIntValue | pinax/submissions/views.py:446 | an accepted text reads as the decimal value of its digits, negated after a leading '-' |
| Strings.ParseIntSurrounded | pinax/submissions/views.py:446 | white space around the text does not change what `int()` reads |
| Strings.ParseIntPlus | pinax/submissions/views.py:446 | a leading '+' is accepted and leaves the value unchanged |
| Strings.StripUnspaced | pinax/submissions/views.py:446 | `strip` leaves text with no white space at either end unchanged |
| Strings.IntRoundTrip | pinax/submissions/views.py:466 | `int(str(n)) == n` for every int |
| Strings.Split | pinax/submissions/views.py:483 | `split` gives at least one piece and no piece holds the separator |
| Strings.SplitJoin | pinax/submissions/views.py:483 | splitting a join of separator-free pieces gives back the pieces |
| Strings.JoinSplit | pinax/submissions/views.py:483 | joining the pieces of a split gives back the text |
| Strings.SplitOnePiece | pinax/submissions/views.py:483 | the split has one piece iff the separator is absent |
| Strings.SplitLast | pinax/submissions/models.py:21 | the last piece of a split is the text after the last separator |
| Strings.RFind | pinax/submissions/conf.py:12 | the last index of the character, or -1 when it is absent |
| Strings.Zfill | pinax/submissions/models.py:87 | zfill pads to max(length, width) with '0' characters, placed after a leading sign and before the rest of the text, which is kept |
| Store.FindUser | pinax/submissions/views.py:506 | the user row with that key, or none when no row has it |
| Hooks.Reviewers | pinax/submissions/hooks.py:18-24 | `DoesNotExist` iff no `submissions.add_review` permission exists, `MultipleObjectsReturned` iff several do; otherwise exactly the users holding it directly or through a group |
| Hooks.GrantMakesReviewer | pinax/submissions/hooks.py:22-24 | granting the permission directly to a user adds exactly that user to the reviewers |
| Hooks.LoadPositive | pinax/submissions/hooks.py:37-39 | a user's load is positive iff they hold an assignment that is not opted out |
| Hooks.MaxPk | pinax/submissions/hooks.py:48-52 | every existing assignment key is at most the bound new keys start after |
| Hooks.CreateAssignments | pinax/submissions/hooks.py:26-52 | rows are only appended, min(max(0, 3 - live), candidates) of them, for distinct eligible reviewers, with the origin and not opted out, in ascending load, with no left-out candidate lighter than a chosen one |
| Hooks.CreateInitialAssignments | pinax/submissions/models.py:135-137 | the class method's default origin is the initial automatic one |
| Hooks.TopUpLiveCount | pinax/submissions/hooks.py:43-52 | the live count grows by the rows added; it never drops or passes max(3, prior); it reaches the target when there are enough candidates |
| Hooks.PickedLiveCount | pinax/submissions/hooks.py:43-52 | appending a pick adds min(need, candidates) to the submission's live count |
| Hooks.TopUpOtherSubmissions | pinax/submissions/hooks.py:48-52 | other submissions' assignments and live counts are unchanged |
| Hooks.CandidateNotAssigned | pinax/submissions/hooks.py:27-33 | a candidate has no earlier assignment to the submission, in any opt-out state |
| Hooks.TopUpNeverReassigns | pinax/submissions/hooks.py:27-33 | no added reviewer held an earlier assignment to the submission, so one who opted out is never re-assigned |
| Hooks.TopUpAddsEligible | pinax/submissions/hooks.py:34-37 | every added reviewer is in the "reviewers" group and has no assignment or a live one |
| Hooks.TopUpUpToTies | pinax/submissions/hooks.py:38-42 | two passes over the same table add as many rows, and the reviewers they disagree on carry equal loads |
| Hooks.TopUpKeepsOnePerReviewer | pinax/submissions/hooks.py:27-33 | at most one assignment per reviewer and submission is preserved |
| Hooks.AppendKeepsOnePerReviewer | pinax/submissions/hooks.py:27-33 | rows for one submission, with distinct reviewers new to it, keep one assignment per reviewer and submission |
| Hooks.TopUpKeepsUniquePks | pinax/submissions/hooks.py:48-52 | new rows take keys no row uses |
| Utils.LoggedInDispatch | pinax/submissions/utils.py:14-17 | 404 exactly for an anonymous request, otherwise proceed |
| Utils.CanReviewDispatch | pinax/submissions/utils.py:27-31 | the denial page is discarded; it stops only with a KeyError, when the permission and the `user_pk` URL argument are both missing |
| Utils.CanManageDispatch | pinax/submissions/utils.py:40-43 | always proceeds, since the denial page is discarded |
| Utils.CanReviewDispatchIntended | pinax/submissions/utils.py:27-31 | corrected: proceeds iff the user has the permission or the `user_pk` URL argument is their own key; a missing argument is a KeyError; otherwise the denial page |
| Utils.CanManageDispatchIntended | pinax/submissions/utils.py:40-43 | corrected: the denial page iff the user lacks `reviews.can_manage` |
| Utils.CanReviewAsWrittenAdmits | pinax/submissions/utils.py:29-30 | as written, a user without the permission passes for another user's `user_pk`, which the corrected mixin denies |
| Utils.CanManageAsWrittenAdmits | pinax/submissions/utils.py:41-42 | as written, a user without the manage permission passes, which the corrected mixin denies |
| Utils.SubmissionsGenerator | pinax/submissions/utils.py:46-54 | yields the queryset in order; afterwards every yielded submission has a result, old results are kept, new ones are undecided; nothing else changes |
| Conf.SplitPath | pinax/submissions/conf.py:12-13 | the attribute holds no '.'; with a '.', module + "." + attribute is the path; without one, the attribute is the path and the module is the path minus its last character |
| Conf.SplitPathJoin | pinax/submissions/conf.py:12-13 | splitting module + "." + a dot-free attribute gives the two back |
| Conf.LoadPathAttr | pinax/submissions/conf.py:11-22 | a value exactly when the module imports and defines the attribute; an empty module name and a relative name raise their own errors; "error importing" exactly when the module is not importable, and "does not define" exactly when it is but lacks the attribute |
| Conf.UndottedPath | pinax/submissions/conf.py:12-17 | a dotless setting imports the path minus its last character |
| Conf.DefaultHookSetSplit | pinax/submissions/conf.py:27 | the default hook set splits to ("pinax.submissions.hooks", "DefaultHookSet") |
| Conf.DefaultMarkupRendererSplit | pinax/submissions/conf.py:28 | the default renderer splits to ("markdown", "markdown") |
| AssignReviewersCommand.BatchStart | pinax/submissions/management/commands/assign_reviewers.py:9 | before the first pass the batch guarantees already hold |
| AssignReviewersCommand.BatchStep | pinax/submissions/management/commands/assign_reviewers.py:9-11 | one more top-up for a live submission keeps every batch guarantee |
| AssignReviewersCommand.Handle | pinax/submissions/management/commands/assign_reviewers.py:8-11 | one initial top-up per live submission, in order; rows are only appended, with origin 0 and for live submissions; cancelled submissions are untouched; live counts stay within [prior, max(3, prior)]; both table invariants survive |
| ReviewViews.Repeat | pinax/submissions/views.py:289 | n copies of the row |
| ReviewViews.CountRepeat | pinax/submissions/views.py:289 | a row occurs n times in its n copies and no other row does |
| ReviewViews.JoinReviewsCount | pinax/submissions/views.py:289 | the review join repeats each submission once per review the user wrote of it |
| ReviewViews.JoinReviewsLast | pinax/submissions/views.py:289 | the last queryset row adds its review count to the join when it is the row counted |
| ReviewViews.JoinReviewsMembers | pinax/submissions/views.py:289 | a submission is in the join iff it is in the queryset and the user reviewed it |
| ReviewViews.Heading | pinax/submissions/views.py:285-293 | "all" gives "all_reviews", "reviewed" gives "user_reviewed", anything else "user_not_reviewed" |
| ReviewViews.QueueRows | pinax/submissions/views.py:275-293 | a submission is listed iff it matches the requested filter: assigned to the user; reviewed by them; or neither reviewed nor submitted by them |
| ReviewViews.ReviewQueue | pinax/submissions/views.py:269-302 | login, then the permission gate; the rendered rows are the queue's rows in order; only results change, existing ones are kept, and new ones are undecided and belong to rendered rows |
| Seqs.FilterCountIs | pinax/submissions/views.py:277-281 | a filter keeps every copy of a row it admits and none of a row it rejects |
| ReviewViews.ReviewedQueueRepeats | pinax/submissions/views.py:288-290 | the "reviewed" queue lists each submission once per review the user wrote of it (none when the assigned queue excludes it) |
| ReviewViews.AllQueueCount | pinax/submissions/views.py:285-287 | the "all" queue lists each admitted submission as often as the table holds it |
| ReviewViews.UnreviewedQueueCount | pinax/submissions/views.py:291-293 | the not-reviewed queue lists each submission neither reviewed nor submitted by the user as often as the table holds it, and no other |
| ReviewViews.QueueRowsAsWritten | pinax/submissions/views.py:277-281 | as written, the assignments queue fails with FieldError; the other queues are the corrected ones |
| ReviewViews.AssignedQueueAsWrittenFails | pinax/submissions/views.py:280 | a submission assigned to the user is never listed as written, but is listed once corrected |
| ReviewViews.ReviewDetail | pinax/submissions/views.py:337-378 | login, 404 and permission gates; a GET renders; a valid message POST appends the message and redirects, an invalid one re-renders; a non-staff result POST redirects with nothing changed; a staff one stores `update_result`'s row and redirects, or fails with DoesNotExist when there is no row; a POST with neither key fails with UnboundLocalError; nothing else changes |
| ReviewViews.NonStaffCannotDecide | pinax/submissions/views.py:359-363 | a non-staff user never changes a result, and their result POST is answered with a redirect |
| ReviewViews.StaffDecides | pinax/submissions/views.py:359-363 | a staff reviewer's known command stores the status it names whatever the prior status, touches no other result, then redirects |
| ReviewViews.FindOwned | pinax/submissions/views.py:410 | finds a row with that key belonging to the requester, or none iff no such row exists |
| ReviewViews.WithOptOut | pinax/submissions/views.py:411-413 | exactly that row's flag is set; nothing else changes |
| ReviewViews.OptOutDropsOne | pinax/submissions/views.py:411-413 | opting out a live row lowers its submission's live count by one and leaves the others alone |
| ReviewViews.OptOut | pinax/submissions/views.py:407-415 | 405 for anything but POST; 404 iff the requester owns no such row; an opted-out row is left alone; otherwise the flag and one "auto-assigned, later" top-up of the row's submission, with the replacements never the reviewer who left |
| ReviewViews.OptOutReplaces | pinax/submissions/views.py:411-414 | the corrected opt-out restores the live count by the replacements added, all for the same submission and none for the reviewer who opted out |
| ReviewViews.OptOutAsWritten | pinax/submissions/views.py:407-415 | as written, an opted-out row is left alone with a redirect; a live row gets its flag saved and nothing else changes, with a server error |
| ReviewViews.OptOutAsWrittenLosesReviewer | pinax/submissions/views.py:414 | as written, every live opt-out errors and leaves the submission one live reviewer short, with no replacement |
| NotificationViews.ParseAll | pinax/submissions/views.py:444-448 | all pieces parse, in order, or some piece is not an int |
| NotificationViews.PksRoundTrip | pinax/submissions/views.py:483 | decoding the encoding of a non-empty key list gives it back |
| NotificationViews.EmptySelectionDoesNotDecode | pinax/submissions/views.py:482-485 | the empty selection encodes to "", and that does not decode |
| NotificationViews.EncodedSelection | pinax/submissions/views.py:466 | the page's key list decodes back iff the selection is non-empty |
| NotificationViews.Selected | pinax/submissions/views.py:449-454 | exactly the submissions with a result of that status and a selected key, each as often as the table holds it |
| NotificationViews.TemplateChoice | pinax/submissions/views.py:456-460 | no template iff the field is empty or absent; otherwise ValueError iff the key is not an int, DoesNotExist iff it names no stored template, and the template iff it names one |
| NotificationViews.Gate | pinax/submissions/views.py:437-441 | login, then 405 for anything but POST, then the access-denied page without the manage permission; it passes exactly for a logged-in POST with that permission |
| NotificationViews.Prepare | pinax/submissions/views.py:435-468 | gate, 400 for a non-int selection; past those, the page renders iff the template lookup succeeds, and a failed lookup is a server error with that exception; the rendered page lists the matching submissions and carries a key list that decodes back unless empty |
| NotificationViews.Notify | pinax/submissions/views.py:502-515 | one row per submission, in order, addressed to the submitter's email, with the copied fields and the rendered body; a missing submitter stops the loop |
| NotificationViews.Deliver | pinax/submissions/views.py:500-519 | a redirect exactly when every matching submission got its row; earlier rows are kept either way |
| NotificationViews.Send | pinax/submissions/views.py:471-519 | gate; 400 iff a field is missing or the key list does not decode, with nothing stored; a decodable list (in any form `int()` accepts) reaches the template lookup, whose failure is a server error with nothing stored, and otherwise the delivery step; on redirect, exactly one correct notification per matching submission |
| NotificationViews.PrepareThenSend | pinax/submissions/views.py:483-492 | sending what a confirmation page carries notifies exactly the submissions it listed |
| SubmissionViews.EditRecipients | pinax/submissions/views.py:114-119 | exactly the users who reviewed or messaged on the submission, minus the editor |
| SubmissionViews.SubmissionEdit | pinax/submissions/views.py:93-138 | 404 unless the requester submitted it; closed editing shows the error page; an unconfigured kind is a KeyError; a valid POST saves the form's fields, notifies the recipients and redirects; anything else re-renders the form with nothing changed |
| SubmissionViews.EditChangesOnlyOwnSubmission | pinax/submissions/views.py:98-113 | an edit changes only the requester's own submission, never its key, submitter or flag |
| SubmissionViews.DocumentCreate | pinax/submissions/views.py:201-223 | 404 outside the requester's own submissions; 403 iff that one is cancelled; for a live one, a valid POST appends the document under "document/<uuid>.<ext>" and anything else re-renders the form with nothing stored |
| SubmissionViews.NoUploadToCancelled | pinax/submissions/views.py:206-207 | nothing is ever attached to a cancelled submission |

## Left out

- Email: the model leaves out composing and sending mail.
  - `send_email` is left out. `SubmissionEdit` returns the set of users who would be told.
  - `send_mass_mail` is left out. As written it would also fail: `emails.append(rn.email_args)` appends the bound method without calling it, and `send_mass_mail` raises TypeError when it unpacks that method as a four-field message. (`email_args` would in turn call a `recipients()` method that no class defines, but that call is never reached.)
- Markup rendering:
  - `parse_content` is left out, and so is the HTML it stores beside messages.
  - `Comment.save` writes fields that do not exist. It is not part of this model.
- File serving is left out: `document_download` and the storage backend.
- Random choices become parameters:
  - `uuid.uuid4()` is the `uuid` parameter of `DocumentCreate`.
  - The random tie order of the top-up is nondeterministic. The method picks any least-loaded candidate.
- Template rendering is left out. Each response names its template only. The notification body renderer is the `renderBody` parameter, so the model never fails there: a body that is not a valid template makes `Template(...)` raise TemplateSyntaxError, after the notifications of the earlier submissions are saved, and that path is not modelled.
- Concurrency is left out. Each request is one step on the database value, so the over-assignment race between concurrent top-ups is not modelled.
- Routing (`urls.py`) is not part of this model.
- Not part of this model:
  - migrations, forms, admin and packaging;
  - `create_review_permissions`;
  - the `SubmissionKindList` and `SubmissionAdd` views;
  - `submission_detail`, `submission_cancel` and `document_delete`;
  - `review_list`, `review_admin`, `review_delete` and `review_assignments`;
  - `result_notification`;
  - `comment_count`.
- Timestamps are left out, along with the orderings built on them.
- Database row order is unspecified. Each query returns rows in table order, including the duplicate rows of the review join.
- The authentication backend is reduced to fields:
  - `has_perm` answers are the user's `perms` set;
  - authentication is whether the request carries a user;
  - `login_required` is one `LoginRedirect` response.
- SubmissionViews.SubmissionEdit: the form configured for a kind is assumed to change only the subclass's own fields (`details`), leaving `submitter`, `kind` and `cancelled` alone. `SubmissionAdd` sets `submitter` and `kind` by hand (views.py:79-80), which suggests the forms do not list them, but a configured form could; `EditChangesOnlyOwnSubmission` rests on this assumption.
- Strings.ParseInt: models `int()` on ASCII text only. Underscores between digits and non-ASCII digits and spaces are not accepted.
- Notification fields: the length limits on email and subject are not modelled.
- NotificationViews.Send: the rows saved before the mail step are modelled, but the mail step itself is not. The response after a complete loop is the redirect.
- ReviewViews.FindOwned: `get` would also fail if two rows shared a key. Keys are unique, so the first match is the only one.
- Hooks.CreateAssignments: new rows are keyed from the largest key in use plus one. The database's own key sequence is not modelled. The model also assumes that `annotate` groups the candidate query into one row per user, and the "distinct reviewers" and "no lighter candidate left out" guarantees rest on that. The code targets Django before 1.10 (`patterns` in urls.py, `django.core.urlresolvers` in models.py). Before Django 3.2, `order_by(..., "?")` adds the random term to the GROUP BY. That can split one user into several rows, so `reviewers[:n]` could name a user twice; that behaviour is not modelled.
- Hooks.Reviewers: the query is scoped by app label and codename alone, as in the code. Content types are not modelled.
- ReviewViews.ReviewQueue: `submissions_generator` is lazy and creates a missing result only when the template reaches that row. The model assumes the template iterates every row, so every rendered row has a result afterwards.

## Findings

| source | as written | input that shows it | evidently intended | confidence | as-written member | corrected member |
|---|---|---|---|---|---|---|
| pinax/submissions/views.py:414 | the top-up is called with `review_assignment.proposal`, a field `ReviewAssignment` does not have | a POST to opt out of one's own live assignment | top up `review_assignment.submission`, the field declared at models.py:129 | not executed | ReviewViews.OptOutAsWrittenLosesReviewer | ReviewViews.OptOut |
| pinax/submissions/utils.py:30 | `CanReviewMixin` calls `render(...)` for the denial page without returning it, and compares the user's int key with the `user_pk` URL text | a request without `reviews.can_review_submissions` whose `user_pk` is another user's | `return` the denial page, comparing with `int(user_pk)` | not executed | Utils.CanReviewAsWrittenAdmits | Utils.CanReviewDispatchIntended |
| pinax/submissions/utils.py:42 | `CanManageMixin` calls `render(...)` for the denial page without returning it | a request without `reviews.can_manage` | `return` the denial page | not executed | Utils.CanManageAsWrittenAdmits | Utils.CanManageDispatchIntended |
| pinax/submissions/views.py:280 | the assigned ids are read with `values_list("proposal__id")` | the assignments queue (`assigned=True`) requested by a user with the review permission | `values_list("submission__id")` | not executed | ReviewViews.AssignedQueueAsWrittenFails | ReviewViews.ReviewQueue |

The first bug means the flag is saved and then the request fails with a server error. The submission is left a reviewer short and no replacement is assigned.

The second bug means the assignments queue fails with a FieldError every time.

The mixin bugs mean neither permission check ever refuses a request. No view in this repository uses those two mixins, so the rest of the model depends on neither version.
