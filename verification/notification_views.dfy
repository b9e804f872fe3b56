/**
 The result-notification views of `pinax/submissions/views.py`: `prepare`
 turns the admin's selection into a comma-separated key list, and `send`
 decodes it and stores one notification per matching submission.
 */
module NotificationViews {
  import opened Wrappers
  import opened Seqs
  import opened Strings
  import opened Records
  import opened Store
  import opened Web

  // ---------------------------------------------------------------------------
  // The key-list codec

  function Texts(pks: seq<int>): (texts: seq<string>)
    ensures |texts| == |pks| && forall i :: 0 <= i < |pks| ==> texts[i] == IntToString(pks[i])
  {
    seq(|pks|, i requires 0 <= i < |pks| => IntToString(pks[i]))
  }

  /** `",".join([str(pk) for pk in pks])`. */
  function EncodePks(pks: seq<int>): string {
    Join(Texts(pks), ',')
  }

  /** `[int(piece) for piece in pieces]`, or `None` when any piece raises `ValueError`. */
  function ParseAll(pieces: seq<string>): (r: Option<seq<int>>)
    ensures r.Some? ==> |r.value| == |pieces| && forall i :: 0 <= i < |pieces| ==> ParseInt(pieces[i]) == Some(r.value[i])
    ensures r.None? <==> exists i :: 0 <= i < |pieces| && ParseInt(pieces[i]).None?
    decreases |pieces|
  {
    if |pieces| == 0 then Some([])
    else match ParseInt(pieces[0])
      case None => None
      case Some(v) =>
        match ParseAll(pieces[1..])
        case None =>
          assert exists i :: 0 <= i < |pieces| - 1 && ParseInt(pieces[1..][i]).None?;
          var i :| 0 <= i < |pieces| - 1 && ParseInt(pieces[1..][i]).None?;
          assert ParseInt(pieces[i + 1]).None?;
          None
        case Some(rest) =>
          assert forall i :: 1 <= i < |pieces| ==> pieces[i] == pieces[1..][i - 1];
          Some([v] + rest)
  }

  /** `[int(pk) for pk in text.split(",")]`, `None` standing for the 400 answer. */
  function DecodePks(text: string): Option<seq<int>> {
    ParseAll(Split(text, ','))
  }

  /** Any non-empty key list survives the trip through the form field. */
  lemma PksRoundTrip(pks: seq<int>)
    requires |pks| >= 1
    ensures DecodePks(EncodePks(pks)) == Some(pks)
  {
    var texts := Texts(pks);
    SplitJoin(texts, ',');
    forall i | 0 <= i < |pks|
      ensures ParseInt(texts[i]) == Some(pks[i])
    {
      IntRoundTrip(pks[i]);
    }
    var r := ParseAll(texts);
    assert r.Some?;
    assert forall i :: 0 <= i < |pks| ==> Some(r.value[i]) == Some(pks[i]);
    assert r.value == pks;
  }

  /** An empty selection encodes to "", whose single empty piece is not an int. */
  lemma EmptySelectionDoesNotDecode()
    ensures EncodePks([]) == ""
    ensures DecodePks(EncodePks([])) == None
  {
    assert Split("", ',') == [""];
    assert Strip("") == "";
  }

  /** What the confirmation page carries decodes back to the selection, unless the selection is empty. */
  lemma EncodedSelection(pks: seq<int>)
    ensures |pks| >= 1 ==> DecodePks(EncodePks(pks)) == Some(pks)
    ensures |pks| == 0 ==> EncodePks(pks) == "" && DecodePks(EncodePks(pks)).None?
  {
    if |pks| >= 1 {
      PksRoundTrip(pks);
    } else {
      EmptySelectionDoesNotDecode();
    }
  }

  // ---------------------------------------------------------------------------
  // Selecting the submissions

  /** `filter(result__status=status)`: the inner join drops submissions without a result row. */
  predicate HasStatus(db: Db, s: Submission, status: string) {
    s.pk in db.results && db.results[s.pk].status.Text() == status
  }

  function Matches(db: Db, status: string, pks: seq<int>): Submission -> bool {
    (s: Submission) => HasStatus(db, s, status) && s.pk in pks
  }

  /** The submissions `send` notifies: every matching table row, each as often as the table holds it. */
  function Selected(db: Db, status: string, pks: seq<int>): (shown: seq<Submission>)
    ensures forall i :: 0 <= i < |shown| ==> shown[i] in db.submissions && HasStatus(db, shown[i], status) && shown[i].pk in pks
    ensures forall i :: 0 <= i < |db.submissions| && HasStatus(db, db.submissions[i], status) && db.submissions[i].pk in pks ==>
      db.submissions[i] in shown
    ensures forall x :: Count(shown, Is(x)) == if HasStatus(db, x, status) && x.pk in pks then Count(db.submissions, Is(x)) else 0
  {
    FilterCounts(db.submissions, Matches(db, status, pks));
    Filter(db.submissions, Matches(db, status, pks))
  }

  /**
   The `notification_template` field: absent or empty means none; otherwise
   the key goes through `int()` and must name a stored template
   (`ValueError` and `DoesNotExist` otherwise).
   */
  function TemplateChoice(db: Db, req: Request): (r: Result<Option<int>, string>)
    ensures PostGet(req, "notification_template", "") == "" <==> r == Success(None)
    ensures r.Success? && r.value.Some? ==>
      ParseInt(req.post["notification_template"]) == Some(r.value.value) && r.value.value in db.templates
    ensures r.Failure? ==> r.error in {"ValueError", "DoesNotExist"}
    ensures PostGet(req, "notification_template", "") != "" ==>
      var parsed := ParseInt(req.post["notification_template"]);
      && (r == Failure("ValueError") <==> parsed.None?)
      && (r == Failure("DoesNotExist") <==> parsed.Some? && parsed.value !in db.templates)
      && (r.Success? <==> parsed.Some? && parsed.value in db.templates)
  {
    var key := PostGet(req, "notification_template", "");
    if key == "" then Success(None)
    else match ParseInt(key)
      case None => Failure("ValueError")
      case Some(t) => if t in db.templates then Success(Some(t)) else Failure("DoesNotExist")
  }

  /** The common gate of both views: login, then POST only (405), then `reviews.can_manage`. */
  function Gate(req: Request): (r: Option<Response>)
    ensures r.None? <==> req.user.Some? && req.verb == "POST" && HasPerm(req, "reviews.can_manage")
    ensures req.user.None? ==> r == Some(LoginRedirect)
    ensures req.user.Some? && req.verb != "POST" ==> r == Some(NotAllowed(["POST"]))
    ensures req.user.Some? && req.verb == "POST" && !HasPerm(req, "reviews.can_manage") ==> r == Some(AccessNotPermitted)
  {
    if req.user.None? then Some(LoginRedirect)
    else if req.verb != "POST" then Some(NotAllowed(["POST"]))
    else if !HasPerm(req, "reviews.can_manage") then Some(AccessNotPermitted)
    else None
  }

  // ---------------------------------------------------------------------------
  // `result_notification_prepare`

  /** The response and the context the confirmation page is rendered with. */
  datatype Prepared = Prepared(response: Response, shown: seq<Submission>, template: Option<int>, encoded: string)

  function Prepare(db: Db, req: Request, status: string): (p: Prepared)
    ensures Gate(req).Some? ==> p.response == Gate(req).value
    ensures Gate(req).None? && ParseAll(req.selected).None? ==> p.response == BadRequest
    ensures p.response == Render("pinax/submissions/result_notification_prepare.html") ==>
      && Gate(req).None?
      && ParseAll(req.selected).Some?
      && TemplateChoice(db, req) == Success(p.template)
      && p.shown == Selected(db, status, ParseAll(req.selected).value)
      && (|req.selected| >= 1 ==> DecodePks(p.encoded) == ParseAll(req.selected))
      && (|req.selected| == 0 ==> p.encoded == "" && DecodePks(p.encoded).None?)
    ensures Gate(req).None? && ParseAll(req.selected).Some? ==>
      && (TemplateChoice(db, req).Success? <==> p.response == Render("pinax/submissions/result_notification_prepare.html"))
      && (TemplateChoice(db, req).Failure? ==> p.response == ServerError(TemplateChoice(db, req).error))
  {
    if Gate(req).Some? then Prepared(Gate(req).value, [], None, "")
    else match ParseAll(req.selected)
      case None => Prepared(BadRequest, [], None, "")
      case Some(pks) =>
        match TemplateChoice(db, req)
        case Failure(e) => Prepared(ServerError(e), [], None, "")
        case Success(t) =>
          EncodedSelection(pks);
          Prepared(Render("pinax/submissions/result_notification_prepare.html"), Selected(db, status, pks), t, EncodePks(pks))
  }

  // ---------------------------------------------------------------------------
  // `result_notification_send`

  /** The letter fields copied from the form. */
  datatype Letter = Letter(fromAddress: string, subject: string, body: string)

  /**
   The loop of `send`: one saved notification per selected submission, in
   order, addressed to its submitter. `renderBody(body, kind)` stands for
   rendering the body template with the submission's kind name. A missing
   submitter row stops the loop, with the rows saved so far kept; the flag
   says whether the loop ran to the end.
   */
  function Notify(db: Db, shown: seq<Submission>, template: Option<int>, letter: Letter,
                  renderBody: (string, string) -> string): (r: (seq<Notification>, bool))
    ensures |r.0| <= |shown|
    ensures r.1 ==> |r.0| == |shown|
    ensures !r.1 ==> |r.0| < |shown| && FindUser(db, shown[|r.0|].submitter).None?
    ensures forall i :: 0 <= i < |r.0| ==>
      && FindUser(db, shown[i].submitter).Some?
      && r.0[i] == Notification(shown[i].pk, template, FindUser(db, shown[i].submitter).value.email,
                                letter.fromAddress, letter.subject, renderBody(letter.body, shown[i].kind.name))
    decreases |shown|
  {
    if |shown| == 0 then ([], true)
    else match FindUser(db, shown[0].submitter)
      case None => ([], false)
      case Some(u) =>
        var row := Notification(shown[0].pk, template, u.email, letter.fromAddress, letter.subject,
                                renderBody(letter.body, shown[0].kind.name));
        var rest := Notify(db, shown[1..], template, letter, renderBody);
        assert forall i :: 1 <= i < |shown| ==> shown[i] == shown[1..][i - 1];
        ([row] + rest.0, rest.1)
  }

  predicate HasLetterFields(req: Request) {
    "submission_pks" in req.post && "from_address" in req.post && "subject" in req.post && "body" in req.post
  }

  function LetterOf(req: Request): Letter
    requires HasLetterFields(req)
  {
    Letter(req.post["from_address"], req.post["subject"], req.post["body"])
  }

  /**
   `db'` holds, after the rows of `db`, exactly one notification per
   submission of `shown`, in order, addressed to that submission's submitter
   and carrying the template, the copied letter fields and the body rendered
   for the submission's kind.
   */
  ghost predicate Delivered(db: Db, db': Db, shown: seq<Submission>, template: Option<int>, letter: Letter,
                            renderBody: (string, string) -> string) {
    && db' == db.(notifications := db'.notifications)
    && |db'.notifications| == |db.notifications| + |shown|
    && db'.notifications[..|db.notifications|] == db.notifications
    && forall i :: 0 <= i < |shown| ==>
         && FindUser(db, shown[i].submitter).Some?
         && db'.notifications[|db.notifications| + i] == Notification(
              shown[i].pk, template, FindUser(db, shown[i].submitter).value.email,
              letter.fromAddress, letter.subject, renderBody(letter.body, shown[i].kind.name))
  }

  /** Saving the loop's rows: a redirect when every row was made, the lookup error otherwise. */
  function Deliver(db: Db, shown: seq<Submission>, template: Option<int>, letter: Letter,
                   renderBody: (string, string) -> string): (r: (Response, Db))
    ensures r.0 == Redirect("result_notification") || r.0 == ServerError("DoesNotExist")
    ensures r.0 == Redirect("result_notification") ==> Delivered(db, r.1, shown, template, letter, renderBody)
    ensures r.0 == ServerError("DoesNotExist") ==> exists i :: 0 <= i < |shown| && FindUser(db, shown[i].submitter).None?
    ensures r.1 == db.(notifications := r.1.notifications)
    ensures |r.1.notifications| >= |db.notifications| && r.1.notifications[..|db.notifications|] == db.notifications
  {
    var (rows, complete) := Notify(db, shown, template, letter, renderBody);
    var db' := db.(notifications := db.notifications + rows);
    assert db'.notifications[..|db.notifications|] == db.notifications;
    assert forall i :: 0 <= i < |rows| ==> db'.notifications[|db.notifications| + i] == rows[i];
    if complete then (Redirect("result_notification"), db')
    else (ServerError("DoesNotExist"), db')
  }

  /**
   `result_notification_send`: gate, then 400 for a missing field or a key
   list that does not decode, then the template lookup, then the
   notifications. Nothing is stored on any path that answers before the loop.
   */
  function Send(db: Db, req: Request, status: string, renderBody: (string, string) -> string): (r: (Response, Db))
    ensures Gate(req).Some? ==> r == (Gate(req).value, db)
    ensures Gate(req).None? ==>
      (r.0 == BadRequest <==> !HasLetterFields(req) || DecodePks(req.post["submission_pks"]).None?)
    ensures r.0 == BadRequest ==> r.1 == db
    ensures r.1 == db.(notifications := r.1.notifications)
    ensures |r.1.notifications| >= |db.notifications| && r.1.notifications[..|db.notifications|] == db.notifications
    ensures r.0 == Redirect("result_notification") ==>
      && Gate(req).None? && HasLetterFields(req)
      && DecodePks(req.post["submission_pks"]).Some?
      && TemplateChoice(db, req).Success?
      && Delivered(db, r.1, Selected(db, status, DecodePks(req.post["submission_pks"]).value),
                   TemplateChoice(db, req).value, LetterOf(req), renderBody)
    ensures Gate(req).None? && HasLetterFields(req) && DecodePks(req.post["submission_pks"]).Some? ==>
      && (TemplateChoice(db, req).Failure? ==> r == (ServerError(TemplateChoice(db, req).error), db))
      && (TemplateChoice(db, req).Success? ==>
            r == Deliver(db, Selected(db, status, DecodePks(req.post["submission_pks"]).value),
                         TemplateChoice(db, req).value, LetterOf(req), renderBody))
  {
    if Gate(req).Some? then (Gate(req).value, db)
    else if !HasLetterFields(req) then (BadRequest, db)
    else match DecodePks(req.post["submission_pks"])
      case None => (BadRequest, db)
      case Some(pks) =>
        match TemplateChoice(db, req)
        case Failure(e) => (ServerError(e), db)
        case Success(t) => Deliver(db, Selected(db, status, pks), t, LetterOf(req), renderBody)
  }

  /**
   The two steps agree: sending the key list a rendered confirmation page
   carries notifies exactly the submissions that page listed.
   */
  lemma PrepareThenSend(db: Db, req: Request, status: string, send: Request, renderBody: (string, string) -> string)
    requires Gate(req).None? && ParseAll(req.selected).Some? && TemplateChoice(db, req).Success?
    requires |req.selected| >= 1
    requires send.user == req.user && send.verb == "POST" && HasLetterFields(send)
    requires send.post["submission_pks"] == EncodePks(ParseAll(req.selected).value)
    requires TemplateChoice(db, send).Success?
    requires forall s :: s in db.submissions ==> FindUser(db, s.submitter).Some?
    ensures Prepare(db, req, status).response == Render("pinax/submissions/result_notification_prepare.html")
    ensures Prepare(db, req, status).encoded == send.post["submission_pks"]
    ensures var r := Send(db, send, status, renderBody);
      && r.0 == Redirect("result_notification")
      && Delivered(db, r.1, Prepare(db, req, status).shown, TemplateChoice(db, send).value, LetterOf(send), renderBody)
  {
    var p := Prepare(db, req, status);
    var pks := ParseAll(req.selected).value;
    assert DecodePks(send.post["submission_pks"]) == Some(pks);
    assert Gate(send).None?;
    var shown := Selected(db, status, pks);
    assert forall i :: 0 <= i < |shown| ==> shown[i] in db.submissions;
  }
}
