/**
 The entities of `pinax/submissions/models.py` and the pure operations they
 define: submission cancellation, the result-status transitions, the
 `number`, `status` and `accepted` accessors and the upload filename rule.
 A row's primary key is a field; foreign keys are the referenced row's key.
 */
module Records {
  import opened Wrappers
  import opened Strings

  /** `ReviewAssignment` origin codes and the reviewer target. */
  const AutoAssignedInitial: int := 0
  const OptIn: int := 1
  const AutoAssignedLater: int := 2
  const NumReviewers: nat := 3

  /** The origin choices a `ReviewAssignment` may carry, with their labels. */
  function OriginLabel(origin: int): (text: Option<string>)
    ensures text.Some? <==> origin in {AutoAssignedInitial, OptIn, AutoAssignedLater}
  {
    if origin == AutoAssignedInitial then Some("auto-assigned, initial")
    else if origin == OptIn then Some("opted-in")
    else if origin == AutoAssignedLater then Some("auto-assigned, later")
    else None
  }

  /** The four values of `SubmissionResult.status`. */
  datatype Status = Undecided | Accepted | Rejected | Standby {
    /** The text stored in the `status` column. */
    function Text(): string {
      match this
      case Undecided => "undecided"
      case Accepted => "accepted"
      case Rejected => "rejected"
      case Standby => "standby"
    }
  }

  /** Reads a stored status text back; `None` for text outside the choices. */
  function ParseStatus(text: string): (r: Option<Status>)
    ensures r.Some? ==> r.value.Text() == text
  {
    if text == "undecided" then Some(Undecided)
    else if text == "accepted" then Some(Accepted)
    else if text == "rejected" then Some(Rejected)
    else if text == "standby" then Some(Standby)
    else None
  }

  lemma StatusTextRoundTrip(s: Status)
    ensures ParseStatus(s.Text()) == Some(s)
  {
  }

  datatype SubmissionResult = SubmissionResult(status: Status)

  datatype Kind = Kind(name: string, slug: string)

  /**
   A `SubmissionBase` row. `details` stands for the fields a concrete
   submission subclass adds, which only its own form edits.
   */
  datatype Submission = Submission(pk: int, kind: Kind, submitter: int, cancelled: bool, details: string)

  datatype Assignment = Assignment(pk: int, submission: int, user: int, origin: int, optedOut: bool)

  datatype Review = Review(submission: int, user: int, comment: string)

  datatype Message = Message(submission: int, user: int, text: string)

  datatype Document = Document(submission: int, uploadedBy: int, file: string, description: string)

  datatype Notification = Notification(
    submission: int, template: Option<int>,
    toAddress: string, fromAddress: string, subject: string, body: string)

  /** Raised when `submission.result` is read and no result row exists. */
  datatype ModelError = ResultDoesNotExist

  /** A freshly created `SubmissionResult`: the column default. */
  function NewResult(): (r: SubmissionResult)
    ensures r.status.Text() == "undecided"
    ensures !IsAccepted(r)
  {
    SubmissionResult(Undecided)
  }

  /** The `accepted` property, which shadows the old nullable column. */
  function IsAccepted(r: SubmissionResult): (b: bool)
    ensures b <==> r.status.Text() == "accepted"
  {
    r.status == Accepted
  }

  /** `SubmissionBase.cancel`: the soft-delete flag. */
  function Cancel(s: Submission): (r: Submission)
    ensures r.cancelled
    ensures r.pk == s.pk && r.kind == s.kind && r.submitter == s.submitter && r.details == s.details
  {
    s.(cancelled := true)
  }

  lemma CancelIdempotent(s: Submission)
    ensures Cancel(Cancel(s)) == Cancel(s)
    ensures s.cancelled ==> Cancel(s) == s
  {
  }

  /** `SubmissionBase.can_edit` of the base class. */
  function CanEdit(s: Submission): (b: bool)
    ensures b
  {
    true
  }

  /** Sets the status of the submission's result row, which must exist. */
  function SetStatus(res: Option<SubmissionResult>, target: Status): (r: Result<SubmissionResult, ModelError>)
    ensures r.Success? <==> res.Some?
    ensures r.Success? ==> r.value.status == target
  {
    match res
    case None => Failure(ResultDoesNotExist)
    case Some(row) => Success(row.(status := target))
  }

  function Accept(res: Option<SubmissionResult>): (r: Result<SubmissionResult, ModelError>)
    ensures r.Success? <==> res.Some?
    ensures r.Success? ==> r.value.status.Text() == "accepted" && IsAccepted(r.value)
  {
    SetStatus(res, Accepted)
  }

  function Reject(res: Option<SubmissionResult>): (r: Result<SubmissionResult, ModelError>)
    ensures r.Success? <==> res.Some?
    ensures r.Success? ==> r.value.status.Text() == "rejected" && !IsAccepted(r.value)
  {
    SetStatus(res, Rejected)
  }

  function Undecide(res: Option<SubmissionResult>): (r: Result<SubmissionResult, ModelError>)
    ensures r.Success? <==> res.Some?
    ensures r.Success? ==> r.value.status.Text() == "undecided" && !IsAccepted(r.value)
  {
    SetStatus(res, Undecided)
  }

  function PutOnStandby(res: Option<SubmissionResult>): (r: Result<SubmissionResult, ModelError>)
    ensures r.Success? <==> res.Some?
    ensures r.Success? ==> r.value.status.Text() == "standby" && !IsAccepted(r.value)
  {
    SetStatus(res, Standby)
  }

  /** The four command words `update_result` understands. */
  predicate IsResultCommand(command: string) {
    command in {"accept", "reject", "undecide", "standby"}
  }

  /**
   `SubmissionBase.update_result`: dispatches a command word to one of the
   four transitions, whatever the prior status; any other word does nothing
   and does not even read the result row.
   */
  function UpdateResult(res: Option<SubmissionResult>, command: string): (r: Result<Option<SubmissionResult>, ModelError>)
    ensures !IsResultCommand(command) ==> r == Success(res)
    ensures IsResultCommand(command) ==> (r.Failure? <==> res.None?)
    ensures IsResultCommand(command) && r.Success? ==> r.value.Some?
    ensures command == "accept" && r.Success? ==> r.value.value.status.Text() == "accepted"
    ensures command == "reject" && r.Success? ==> r.value.value.status.Text() == "rejected"
    ensures command == "undecide" && r.Success? ==> r.value.value.status.Text() == "undecided"
    ensures command == "standby" && r.Success? ==> r.value.value.status.Text() == "standby"
  {
    if command == "accept" then Stored(Accept(res))
    else if command == "reject" then Stored(Reject(res))
    else if command == "undecide" then Stored(Undecide(res))
    else if command == "standby" then Stored(PutOnStandby(res))
    else Success(res)
  }

  /** The saved row after a transition, as the submission's (present) result. */
  function Stored(step: Result<SubmissionResult, ModelError>): (r: Result<Option<SubmissionResult>, ModelError>)
    ensures r.Success? <==> step.Success?
    ensures r.Success? ==> r.value == Some(step.value)
  {
    match step
    case Failure(e) => Failure(e)
    case Success(row) => Success(Some(row))
  }

  /** Every status can be reached from every status: there is no guarded transition. */
  lemma EveryTransitionAllowed(prior: Status, target: Status)
    ensures exists command :: UpdateResult(Some(SubmissionResult(prior)), command) == Success(Some(SubmissionResult(target)))
  {
    var command := match target
      case Accepted => "accept"
      case Rejected => "reject"
      case Undecided => "undecide"
      case Standby => "standby";
    assert UpdateResult(Some(SubmissionResult(prior)), command) == Success(Some(SubmissionResult(target)));
  }

  /**
   The `status` property: the result row's status, or the display text
   "Undecided" (capitalised, unlike every stored status) when no row exists.
   */
  function StatusOf(res: Option<SubmissionResult>): (t: string)
    ensures t == "Undecided" <==> res.None?
    ensures res.Some? ==> ParseStatus(t) == Some(res.value.status)
  {
    match res
    case None => "Undecided"
    case Some(row) => row.status.Text()
  }

  /** The `number` property: `str(pk).zfill(3)`. */
  function Number(pk: int): (r: string)
    ensures |r| == if |IntToString(pk)| >= 3 then |IntToString(pk)| else 3
    ensures var pad := if |IntToString(pk)| >= 3 then 0 else 3 - |IntToString(pk)|;
      && (pk >= 0 ==> r == Zeros(pad) + IntToString(pk))
      && (pk < 0 ==> r == "-" + Zeros(pad) + IntToString(-pk))
  {
    Zfill(IntToString(pk), 3)
  }

  /** The display number parses back to the key it was made from. */
  lemma NumberParsesBack(pk: int)
    ensures ParseInt(Number(pk)) == Some(pk)
  {
    if |IntToString(pk)| >= 3 {
      assert Number(pk) == IntToString(pk);
      IntRoundTrip(pk);
    } else if pk < 0 {
      PaddedNegativeParsesBack(pk);
    } else {
      PaddedParsesBack(pk);
    }
  }

  lemma PaddedNegativeParsesBack(pk: int)
    requires pk < 0 && |IntToString(pk)| < 3
    ensures ParseInt(Zfill(IntToString(pk), 3)) == Some(pk)
  {
    var s := IntToString(pk);
    var digits := NatToString(-pk);
    var r := Zfill(s, 3);
    assert s == "-" + digits;
    assert r == ['-'] + Zeros(3 - |s|) + digits;
    assert Strip(r) == r;
    assert r[1..] == Zeros(3 - |s|) + digits;
    LeadingZeros(3 - |s|, digits);
    DigitsOfNat(-pk);
  }

  lemma PaddedParsesBack(pk: int)
    requires pk >= 0 && |IntToString(pk)| < 3
    ensures ParseInt(Zfill(IntToString(pk), 3)) == Some(pk)
  {
    var s := IntToString(pk);
    var digits := NatToString(pk);
    var z := Zeros(3 - |s|);
    var r := Zfill(s, 3);
    assert s == digits;
    assert r == z + digits;
    LeadingZeros(3 - |s|, digits);
    assert r[0] == '0' && IsDigit(r[|r| - 1]);
    StripUnspaced(r);
    DigitsOfNat(pk);
    assert ParseInt(r) == Some(DigitsValue(r));
  }

  /** The text after the last '.' of an upload's name: `filename.split(".")[-1]`. */
  function Extension(filename: string): (ext: string)
    ensures '.' !in ext
    ensures ext == filename[RFind(filename, '.') + 1..]
  {
    var pieces := Split(filename, '.');
    var last := pieces[|pieces| - 1];
    assert '.' !in last;
    SplitLast(filename, '.');
    last
  }

  predicate IsHexDigit(c: char) {
    IsDigit(c) || 'a' <= c <= 'f'
  }

  /** The text `str(uuid.uuid4())` produces: 8-4-4-4-12 lower-case hex digits. */
  predicate IsUuidText(u: string) {
    && |u| == 36
    && forall i :: 0 <= i < 36 ==> if i in {8, 13, 18, 23} then u[i] == '-' else IsHexDigit(u[i])
  }

  /**
   `uuid_filename`: the storage path of an upload, given the fresh uuid the
   source draws with `uuid.uuid4()`.
   */
  function UuidFilename(uuid: string, filename: string): (path: string)
    requires IsUuidText(uuid)
    ensures path == "document/" + uuid + "." + Extension(filename)
  {
    var name := uuid + "." + Extension(filename);
    assert 0 !in {8, 13, 18, 23};
    assert IsHexDigit(uuid[0]);
    assert name[0] == uuid[0] && name[0] != '/';
    assert PathJoin("document", name) == "document" + "/" + name;
    PathJoin("document", name)
  }

  /** The name is its stem, a '.' and the extension; without a '.' the extension is the whole name. */
  lemma ExtensionSplit(filename: string)
    ensures '.' in filename ==> filename == filename[..RFind(filename, '.')] + "." + Extension(filename)
    ensures '.' !in filename ==> Extension(filename) == filename
  {
    var i := RFind(filename, '.');
    if '.' in filename {
      assert i >= 0;
      assert filename == filename[..i] + [filename[i]] + filename[i + 1..];
    } else {
      assert i == -1;
    }
  }
}
